/** One script action line such as `<ACTION:p1,p2>`: construction splits it
    into an action name and an ordered list of parameter tokens, and a
    cursor-based reader hands the tokens out left to right, typed and
    validated. The C# object mutates its cursor; here every reader takes the
    line's state and returns the state after the call next to its outcome,
    so that a failing read still reports how far it moved the cursor. */
module ActionLines {
  import opened Wrappers
  import opened Strings
  import opened IntParse

  const SideSeparator: char := ':'
  const ParameterSeparator: char := ','

  /** The C# code's three exception kinds, with their payloads. */
  datatype Error =
    | InvalidSyntax(line: string)
    | NotEnoughParameters(tokenName: string)
    | UnableToParse(typeName: string, parameterName: string, token: string)

  /** Action name, parameter tokens and the index of the next token to read. */
  datatype ActionLine = ActionLine(action: string, params: seq<string>, cursor: nat)
  {
    /** The cursor never runs past the end of the parameters. */
    predicate Valid()
    {
      cursor <= |params|
    }

    predicate Exhausted()
    {
      cursor >= |params|
    }
  }

  /** Outcome of one read together with the line's state after it. */
  datatype Step<+T> = Step(outcome: Result<T, Error>, next: ActionLine)

  /** The line with its first and last character (the brackets) dropped. */
  function Interior(line: string): string
    requires |line| >= 2
  {
    line[1..|line| - 1]
  }

  /** `a` is the text of `s` before the first `c`, or all of `s` if there is none. */
  predicate IsTextBeforeFirst(a: string, s: string, c: char)
  {
    && |a| <= |s|
    && a == s[..|a|]
    && c !in a
    && (|a| == |s| || s[|a|] == c)
  }

  /** The `ActionLine` constructor: split the interior once on `:`, reject a
      second `:`, then split the parameter text on `,`. */
  function FromLine(line: string): (r: Result<ActionLine, Error>)
    requires |line| >= 2
    ensures r.Failure? <==> Count(Interior(line), SideSeparator) >= 2
    ensures r.Failure? ==> r.error == InvalidSyntax(line)
    ensures r.Success? ==> r.value.cursor == 0 && r.value.Valid() && |r.value.params| >= 1
  {
    var actionAndParam := Split(Interior(line), SideSeparator);
    if |actionAndParam| > 2 then Failure(InvalidSyntax(line))
    else
      var fullParameters := if |actionAndParam| == 2 then actionAndParam[1] else "";
      Success(ActionLine(actionAndParam[0], Split(fullParameters, ParameterSeparator), 0))
  }

  /** The action name is the interior text before the first `:`; it may
      contain `,` because the `:` split comes first. */
  lemma FromLineAction(line: string)
    requires |line| >= 2
    requires FromLine(line).Success?
    ensures IsTextBeforeFirst(FromLine(line).value.action, Interior(line), SideSeparator)
  {
    var s := Interior(line);
    var parts := Split(s, SideSeparator);
    JoinSplit(s, SideSeparator);
    if |parts| == 2 {
      assert s == parts[0] + [SideSeparator] + parts[1];
    }
  }

  /** The parameters, joined with `,`, give back the interior text after the
      `:`; without a `:` they are exactly one empty token. */
  lemma FromLineParameters(line: string)
    requires |line| >= 2
    requires FromLine(line).Success?
    ensures var l := FromLine(line).value;
      if SideSeparator in Interior(line) then
        && |l.action| < |Interior(line)|
        && Join(l.params, ParameterSeparator) == Interior(line)[|l.action| + 1..]
      else
        l.params == [""]
  {
    var s := Interior(line);
    var parts := Split(s, SideSeparator);
    JoinSplit(s, SideSeparator);
    if SideSeparator in s {
      assert |parts| == 2;
      assert s == parts[0] + [SideSeparator] + parts[1];
      assert s[|parts[0]| + 1..] == parts[1];
      JoinSplit(parts[1], ParameterSeparator);
    } else {
      assert |parts| == 1;
    }
  }

  /** The line is rebuilt from the action name and the joined parameters. */
  lemma FromLineRoundTrip(line: string)
    requires |line| >= 2
    requires FromLine(line).Success?
    ensures var l := FromLine(line).value;
      if SideSeparator in Interior(line) then
        l.action + [SideSeparator] + Join(l.params, ParameterSeparator) == Interior(line)
      else
        l.action == Interior(line)
  {
    var s := Interior(line);
    var l := FromLine(line).value;
    FromLineAction(line);
    FromLineParameters(line);
    if SideSeparator in s {
      assert s == s[..|l.action|] + [s[|l.action|]] + s[|l.action| + 1..];
    }
  }

  /** No token contains a separator of either kind. */
  lemma FromLineTokensFree(line: string)
    requires |line| >= 2
    requires FromLine(line).Success?
    ensures var ps := FromLine(line).value.params;
      forall i :: 0 <= i < |ps| ==>
        ParameterSeparator !in ps[i] && SideSeparator !in ps[i]
  {
    var parts := Split(Interior(line), SideSeparator);
    var text := if |parts| == 2 then parts[1] else "";
    SplitKeepsAbsence(text, ParameterSeparator, SideSeparator);
  }

  /** The private `NextToken`: the token under the cursor, moving the cursor
      one step on; past the end, `NotEnoughParameters` and no move. */
  function NextToken(l: ActionLine, tokenName: string): (r: Step<string>)
    ensures r.next.action == l.action && r.next.params == l.params
    ensures r.outcome.Success? <==> !l.Exhausted()
    ensures r.outcome.Success? ==>
      r.outcome.value == l.params[l.cursor] && r.next.cursor == l.cursor + 1
    ensures r.outcome.Failure? ==>
      r.outcome.error == NotEnoughParameters(tokenName) && r.next == l
    ensures l.Valid() ==> r.next.Valid()
  {
    if l.cursor < |l.params| then
      Step(Success(l.params[l.cursor]), l.(cursor := l.cursor + 1))
    else
      Step(Failure(NotEnoughParameters(tokenName)), l)
  }

  /** `NextString`: the next token, unchanged. */
  function NextString(l: ActionLine, tokenName: string): (r: Step<string>)
    ensures r.next.action == l.action && r.next.params == l.params
    ensures r.outcome.Success? <==> !l.Exhausted()
    ensures r.outcome.Success? ==>
      r.outcome.value == l.params[l.cursor] && r.next.cursor == l.cursor + 1
    ensures r.outcome.Failure? ==>
      r.outcome.error == NotEnoughParameters(tokenName) && r.next == l
  {
    NextToken(l, tokenName)
  }

  /** `NextInt`: take the next token, then parse it; a token that does not
      parse is still consumed. */
  function NextInt(l: ActionLine, tokenName: string): (r: Step<int>)
    ensures r.next.action == l.action && r.next.params == l.params
    ensures r.next.cursor == if l.Exhausted() then l.cursor else l.cursor + 1
    ensures l.Exhausted() ==> r.outcome == Failure(NotEnoughParameters(tokenName))
    ensures !l.Exhausted() ==>
      match ParseInt(l.params[l.cursor])
      case Some(v) => r.outcome == Success(v)
      case None => r.outcome == Failure(UnableToParse("integer", tokenName, l.params[l.cursor]))
    ensures r.outcome.Success? ==> InInt32Range(r.outcome.value)
  {
    var step := NextToken(l, tokenName);
    match step.outcome
    case Failure(e) => Step(Failure(e), step.next)
    case Success(token) =>
      match ParseInt(token)
      case Some(value) => Step(Success(value), step.next)
      case None => Step(Failure(UnableToParse("integer", tokenName, token)), step.next)
  }

  /** `NextFloat`, with `float.TryParse` (invariant culture, any number
      style) supplied as `tryParseFloat`: the cursor and error behaviour do
      not depend on how the text is read as a number. */
  function NextFloat<F>(l: ActionLine, tokenName: string, tryParseFloat: string -> Option<F>): (r: Step<F>)
    ensures r.next.action == l.action && r.next.params == l.params
    ensures r.next.cursor == if l.Exhausted() then l.cursor else l.cursor + 1
    ensures l.Exhausted() ==> r.outcome == Failure(NotEnoughParameters(tokenName))
    ensures !l.Exhausted() ==>
      match tryParseFloat(l.params[l.cursor])
      case Some(v) => r.outcome == Success(v)
      case None => r.outcome == Failure(UnableToParse("decimal value", tokenName, l.params[l.cursor]))
  {
    var step := NextToken(l, tokenName);
    match step.outcome
    case Failure(e) => Step(Failure(e), step.next)
    case Success(token) =>
      match tryParseFloat(token)
      case Some(value) => Step(Success(value), step.next)
      case None => Step(Failure(UnableToParse("decimal value", tokenName, token)), step.next)
  }

  /** `NextOneBasedInt`: an integer that must be positive. A non-positive
      value is reported with its own text (which parses back to it), after
      its token has been consumed. */
  function NextOneBasedInt(l: ActionLine, tokenName: string): (r: Step<int>)
    ensures r.next == NextInt(l, tokenName).next
    ensures r.outcome.Success? ==>
      r.outcome.value > 0 && NextInt(l, tokenName).outcome == r.outcome
    ensures r.outcome.Failure? && r.outcome.error.UnableToParse? && r.outcome.error.typeName == "one-based integer" ==>
      && !l.Exhausted()
      && r.outcome.error.parameterName == tokenName
      && ParseInt(l.params[l.cursor]).Some?
      && ParseInt(l.params[l.cursor]).value <= 0
      && ParseInt(r.outcome.error.token) == ParseInt(l.params[l.cursor])
    ensures NextInt(l, tokenName).outcome.Failure? ==> r.outcome == NextInt(l, tokenName).outcome
    ensures !l.Exhausted() && ParseInt(l.params[l.cursor]).Some? && ParseInt(l.params[l.cursor]).value > 0 ==>
      r.outcome == Success(ParseInt(l.params[l.cursor]).value)
    ensures !l.Exhausted() && ParseInt(l.params[l.cursor]).Some? && ParseInt(l.params[l.cursor]).value <= 0 ==>
      r.outcome == Failure(UnableToParse("one-based integer", tokenName, IntToString(ParseInt(l.params[l.cursor]).value)))
  {
    var step := NextInt(l, tokenName);
    match step.outcome
    case Failure(e) => Step(Failure(e), step.next)
    case Success(value) =>
      if value > 0 then Step(Success(value), step.next)
      else
        ParseIntToString(value);
        Step(Failure(UnableToParse("one-based integer", tokenName, IntToString(value))), step.next)
  }

  /** `NextOptionalString`: like `NextString`, except that running out of
      parameters gives an absent value instead of an error. */
  function NextOptionalString(l: ActionLine, tokenName: string): (r: Step<Option<string>>)
    ensures r.outcome.Success?
    ensures r.outcome.value.None? <==> l.Exhausted()
    ensures r.outcome.value.None? ==> r.next == l
    ensures r.outcome.value.Some? ==>
      NextString(l, tokenName) == Step(Success(r.outcome.value.value), r.next)
  {
    var step := NextString(l, tokenName);
    match step.outcome
    case Success(token) => Step(Success(Some(token)), step.next)
    case Failure(e) =>
      if e.NotEnoughParameters? then Step(Success(None), step.next)
      else Step(Failure(e), step.next)
  }
}
