/** Properties of reading an action line's parameters one call after another,
    as an action handler does, and the worked cases of the script grammar. */
module Reading {
  import opened Wrappers
  import opened Strings
  import opened IntParse
  import opened ActionLines

  /** A handler reading one string per name, in order, stopping at the
      first failure. */
  function ReadStrings(l: ActionLine, names: seq<string>): Step<seq<string>>
    decreases |names|
  {
    if |names| == 0 then Step(Success([]), l)
    else
      var first := NextString(l, names[0]);
      match first.outcome
      case Failure(e) => Step(Failure(e), first.next)
      case Success(token) =>
        var rest := ReadStrings(first.next, names[1..]);
        match rest.outcome
        case Failure(e) => Step(Failure(e), rest.next)
        case Success(tokens) => Step(Success([token] + tokens), rest.next)
  }

  /** k reads from cursor c return the tokens c .. c+k in order and leave the
      cursor at c+k; asking for more than remain fails with the name of the
      first missing parameter, with every remaining token consumed. */
  lemma {:induction false} ReadStringsInOrder(l: ActionLine, names: seq<string>)
    requires l.Valid()
    ensures var r := ReadStrings(l, names);
      if l.cursor + |names| <= |l.params| then
        r == Step(Success(l.params[l.cursor..l.cursor + |names|]), l.(cursor := l.cursor + |names|))
      else
        r == Step(Failure(NotEnoughParameters(names[|l.params| - l.cursor])), l.(cursor := |l.params|))
    decreases |names|
  {
    if |names| == 0 {
      assert l.params[l.cursor..l.cursor] == [];
      assert l.(cursor := l.cursor) == l;
    } else {
      var first := NextString(l, names[0]);
      if first.outcome.Success? {
        ReadStringsInOrder(first.next, names[1..]);
        if l.cursor + |names| <= |l.params| {
          assert l.params[l.cursor..l.cursor + |names|]
            == [l.params[l.cursor]] + l.params[l.cursor + 1..l.cursor + |names|];
        } else {
          assert names[1..][|l.params| - (l.cursor + 1)] == names[|l.params| - l.cursor];
        }
      }
    }
  }

  /** `next` is a state one read can reach from `l`: within bounds, moved
      forward by zero or one, with the same action and parameters. */
  predicate OneReadFrom(l: ActionLine, next: ActionLine)
  {
    && next.Valid()
    && l.cursor <= next.cursor <= l.cursor + 1
    && next.action == l.action && next.params == l.params
  }

  /** Every reader keeps the cursor within the parameters, never moves it
      back, moves it at most one step, and leaves the action and parameters
      alone. */
  lemma ReadersStayInBounds<F>(l: ActionLine, name: string, tryParseFloat: string -> Option<F>)
    requires l.Valid()
    ensures OneReadFrom(l, NextString(l, name).next)
    ensures OneReadFrom(l, NextInt(l, name).next)
    ensures OneReadFrom(l, NextFloat(l, name, tryParseFloat).next)
    ensures OneReadFrom(l, NextOneBasedInt(l, name).next)
    ensures OneReadFrom(l, NextOptionalString(l, name).next)
  {
  }

  /** Running out of parameters changes nothing, so the same failing call
      repeated gives the same error, and an optional read then gives absent. */
  lemma ExhaustedReadsRepeat<F>(l: ActionLine, name: string, tryParseFloat: string -> Option<F>)
    requires l.Exhausted()
    ensures NextString(l, name) == Step(Failure(NotEnoughParameters(name)), l)
    ensures NextInt(l, name) == Step(Failure(NotEnoughParameters(name)), l)
    ensures NextFloat(l, name, tryParseFloat) == Step(Failure(NotEnoughParameters(name)), l)
    ensures NextOneBasedInt(l, name) == Step(Failure(NotEnoughParameters(name)), l)
    ensures NextOptionalString(l, name) == Step(Success(None), l)
  {
  }

  /** `<wait>` is the action `wait` with a single empty parameter. */
  lemma WaitHasOneEmptyParameter()
    ensures FromLine("<wait>") == Success(ActionLine("wait", [""], 0))
  {
    assert Interior("<wait>") == "wait";
    SplitWithoutSeparator("wait", SideSeparator);
    SplitWithoutSeparator("", ParameterSeparator);
  }

  /** The `:` split comes first, so a `,` before it belongs to the action name. */
  lemma CommaBeforeColonStaysInAction()
    ensures FromLine("<a,b:c>") == Success(ActionLine("a,b", ["c"], 0))
  {
    var s := Interior("<a,b:c>");
    assert s == "a,b:c";
    assert Split(s, SideSeparator) == ["a,b", "c"] by {
      assert s == "a,b" + [SideSeparator] + "c";
      SplitJoin(["a,b", "c"], SideSeparator);
    }
    SplitWithoutSeparator("c", ParameterSeparator);
  }

  /** A second `:` makes the line invalid. */
  lemma TwoColonsAreInvalid()
    ensures FromLine("<a:b:c>") == Failure(InvalidSyntax("<a:b:c>"))
  {
    assert Interior("<a:b:c>") == "a:b:c";
  }

  /** Reading `3`, `2.5`, `hello` as a one-based integer, a decimal value and
      a string gives the three values and exhausts the line. */
  lemma OneBasedFloatStringSequence<F>(tryParseFloat: string -> Option<F>, f: F)
    requires tryParseFloat("2.5") == Some(f)
    ensures var l := ActionLine("show", ["3", "2.5", "hello"], 0);
      var a := NextOneBasedInt(l, "index");
      var b := NextFloat(a.next, "delay", tryParseFloat);
      var c := NextString(b.next, "text");
      && a.outcome == Success(3)
      && b.outcome == Success(f)
      && c.outcome == Success("hello")
      && c.next.cursor == 3 && c.next.Exhausted()
  {
    ParseIntToString(3);
    assert IntToString(3) == "3";
  }

  /** `0` and `-1` are rejected as one-based integers and `1` is accepted;
      each read consumes its token. */
  lemma OneBasedBoundary()
    ensures var l := ActionLine("x", ["0", "-1", "1"], 0);
      var a := NextOneBasedInt(l, "n");
      var b := NextOneBasedInt(a.next, "n");
      var c := NextOneBasedInt(b.next, "n");
      && a.outcome == Failure(UnableToParse("one-based integer", "n", "0"))
      && b.outcome == Failure(UnableToParse("one-based integer", "n", "-1"))
      && c.outcome == Success(1)
      && c.next.cursor == 3
  {
    ParseIntToString(0);
    ParseIntToString(-1);
    ParseIntToString(1);
    assert IntToString(0) == "0";
    assert IntToString(1) == "1";
    assert IntToString(-1) == "-1";
  }

  /** A non-canonical numeral is reported through its value's own text:
      a next token `+0` is rejected as `0`, after it is consumed. */
  lemma OneBasedReportsValueText(l: ActionLine, name: string)
    requires !l.Exhausted() && l.params[l.cursor] == "+0"
    ensures var r := NextOneBasedInt(l, name);
      && r.outcome == Failure(UnableToParse("one-based integer", name, "0"))
      && r.next.cursor == l.cursor + 1
  {
    PlusZeroParses();
    assert IntToString(0) == "0";
  }

  /** The text of an integer outside the 32-bit range, `2147483648` for
      one, is consumed by `NextInt` and reported as not an integer. */
  lemma IntOverflowIsUnparsable(l: ActionLine, name: string, n: int)
    requires !InInt32Range(n)
    requires !l.Exhausted() && l.params[l.cursor] == IntToString(n)
    ensures NextInt(l, name) == Step(Failure(UnableToParse("integer", name, IntToString(n))), l.(cursor := l.cursor + 1))
  {
    ParseIntToStringOutOfRange(n);
  }

  /** The empty token, which `<wait>` and `<a:1,,2>` both contain, is not
      an integer: `NextInt` consumes it and fails. */
  lemma EmptyTokenIsUnparsable(l: ActionLine, name: string)
    requires !l.Exhausted() && l.params[l.cursor] == ""
    ensures NextInt(l, name) == Step(Failure(UnableToParse("integer", name, "")), l.(cursor := l.cursor + 1))
  {
    BlankDoesNotParse("");
  }

  /** A token that is not an integer is consumed by the failing read, so
      retrying the read reports a missing parameter, not the same error. */
  lemma ParseFailureConsumesToken()
    ensures var l := ActionLine("x", ["2.5"], 0);
      var a := NextInt(l, "n");
      var b := NextInt(a.next, "n");
      && a.outcome == Failure(UnableToParse("integer", "n", "2.5"))
      && a.next.cursor == 1
      && b.outcome == Failure(NotEnoughParameters("n"))
  {
    ParseIntRejectsForeign("2.5", 1);
  }

  /** After the only parameter is read, a second read is missing and an
      optional read is absent; neither moves the cursor. */
  lemma ReadPastTheEnd()
    ensures var l := ActionLine("x", ["a"], 0);
      var a := NextString(l, "first");
      var b := NextString(a.next, "second");
      var c := NextOptionalString(b.next, "second");
      && a.outcome == Success("a")
      && b.outcome == Failure(NotEnoughParameters("second")) && b.next.cursor == 1
      && c.outcome == Success(None) && c.next.cursor == 1
  {
  }
}
