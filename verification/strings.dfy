/** Splitting a string on one separator character and joining it back,
    with the conventions of .NET's `String.Split(char)`: a string with k
    occurrences of the separator yields exactly k + 1 pieces, so the empty
    string yields one empty piece. */
module Strings {

  /** Number of occurrences of `c` in `s`. */
  function Count(s: string, c: char): nat
  {
    if |s| == 0 then 0 else (if s[0] == c then 1 else 0) + Count(s[1..], c)
  }

  /** Pieces of `s` between occurrences of `sep`, in order. */
  function Split(s: string, sep: char): (parts: seq<string>)
    ensures |parts| == Count(s, sep) + 1
    ensures forall i :: 0 <= i < |parts| ==> sep !in parts[i]
  {
    if |s| == 0 then [""]
    else
      var rest := Split(s[1..], sep);
      if s[0] == sep then [""] + rest
      else [[s[0]] + rest[0]] + rest[1..]
  }

  /** The pieces glued back together with `sep` between neighbours. */
  function Join(parts: seq<string>, sep: char): string
  {
    if |parts| == 0 then ""
    else if |parts| == 1 then parts[0]
    else parts[0] + [sep] + Join(parts[1..], sep)
  }

  /** Joining the pieces of a split gives back the original string. */
  lemma {:induction false} JoinSplit(s: string, sep: char)
    ensures Join(Split(s, sep), sep) == s
    decreases |s|
  {
    if |s| == 0 {
    } else {
      var rest := Split(s[1..], sep);
      JoinSplit(s[1..], sep);
      if s[0] == sep {
        assert Split(s, sep) == [""] + rest;
        assert s == [sep] + s[1..];
      } else if |rest| == 1 {
        assert Split(s, sep) == [[s[0]] + rest[0]];
        assert s == [s[0]] + s[1..];
      } else {
        var parts := Split(s, sep);
        assert parts[1..] == rest[1..];
        assert Join(rest, sep) == rest[0] + [sep] + Join(rest[1..], sep);
        assert Join(parts, sep) == [s[0]] + rest[0] + [sep] + Join(rest[1..], sep);
        assert s == [s[0]] + s[1..];
      }
    }
  }

  /** Splitting a join of separator-free pieces gives back the pieces:
      with `JoinSplit` this makes `Split` and `Join` mutually inverse. */
  lemma {:induction false} SplitJoin(parts: seq<string>, sep: char)
    requires |parts| >= 1
    requires forall i :: 0 <= i < |parts| ==> sep !in parts[i]
    ensures Split(Join(parts, sep), sep) == parts
    decreases |parts|, |parts[0]|
  {
    if |parts[0]| > 0 {
      // Peel the first character of the first piece.
      var p0 := parts[0];
      var shorter := [p0[1..]] + parts[1..];
      assert forall i :: 0 <= i < |shorter| ==> sep !in shorter[i] by {
        forall i | 0 <= i < |shorter| ensures sep !in shorter[i] {
          if i == 0 {
            assert forall k :: 0 <= k < |p0[1..]| ==> p0[1..][k] == p0[k + 1];
          } else {
            assert shorter[i] == parts[i];
          }
        }
      }
      SplitJoin(shorter, sep);
      var j := Join(parts, sep);
      var js := Join(shorter, sep);
      if |parts| == 1 {
        assert j == p0 && js == p0[1..];
      } else {
        assert shorter[1..] == parts[1..];
        assert js == p0[1..] + [sep] + Join(parts[1..], sep);
      }
      assert j == [p0[0]] + js;
      assert j[1..] == js;
      assert j[0] == p0[0] != sep;
      assert Split(j, sep) == [[p0[0]] + shorter[0]] + shorter[1..];
      assert [p0[0]] + p0[1..] == p0;
      assert Split(j, sep) == parts;
    } else if |parts| == 1 {
      assert Join(parts, sep) == "";
      assert parts == [""];
    } else {
      SplitJoin(parts[1..], sep);
      var j := Join(parts, sep);
      assert j == [sep] + Join(parts[1..], sep);
      assert j[1..] == Join(parts[1..], sep);
      assert parts == [""] + parts[1..];
    }
  }

  /** A character that does not occur in `s` occurs in none of its pieces. */
  lemma {:induction false} SplitKeepsAbsence(s: string, sep: char, c: char)
    requires c !in s
    ensures forall i :: 0 <= i < |Split(s, sep)| ==> c !in Split(s, sep)[i]
    decreases |s|
  {
    if |s| > 0 {
      assert s[0] != c;
      SplitKeepsAbsence(s[1..], sep, c);
      var rest := Split(s[1..], sep);
      if s[0] != sep {
        assert c !in [s[0]] + rest[0];
      }
    }
  }

  /** Without separators, the split is the single whole string. */
  lemma SplitWithoutSeparator(s: string, sep: char)
    requires Count(s, sep) == 0
    ensures Split(s, sep) == [s]
  {
    var parts := Split(s, sep);
    JoinSplit(s, sep);
    assert |parts| == 1;
  }
}
