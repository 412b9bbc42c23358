/** The JavaScript string built-ins the code relies on: `Array.join`, `String.split`, `String.trim`. */
module Text {

  /** `lines.join(sep)`: the elements with one separator between neighbours. */
  function Join(lines: seq<string>, sep: char): string
  {
    if |lines| == 0 then ""
    else if |lines| == 1 then lines[0]
    else lines[0] + [sep] + Join(lines[1..], sep)
  }

  /** `s.split(sep)`: the pieces between separators; always at least one piece. */
  function Split(s: string, sep: char): (pieces: seq<string>)
    ensures |pieces| >= 1
  {
    if |s| == 0 then [""]
    else
      var rest := Split(s[1..], sep);
      if s[0] == sep then [""] + rest
      else [[s[0]] + rest[0]] + rest[1..]
  }

  lemma {:induction false} SplitPlain(s: string, sep: char, tail: string)
    requires sep !in s
    ensures Split(s + tail, sep) == [s + Split(tail, sep)[0]] + Split(tail, sep)[1..]
  {
    if |s| > 0 {
      assert (s + tail)[1..] == s[1..] + tail;
      SplitPlain(s[1..], sep, tail);
      assert [s[0]] + (s[1..] + Split(tail, sep)[0]) == s + Split(tail, sep)[0];
    } else {
      assert s + tail == tail;
      assert s + Split(tail, sep)[0] == Split(tail, sep)[0];
      assert [Split(tail, sep)[0]] + Split(tail, sep)[1..] == Split(tail, sep);
    }
  }

  /** Splitting a join at the separator gives the lines back when no line holds the separator. */
  lemma {:induction false} SplitJoin(lines: seq<string>, sep: char)
    requires |lines| >= 1
    requires forall i :: 0 <= i < |lines| ==> sep !in lines[i]
    ensures Split(Join(lines, sep), sep) == lines
  {
    if |lines| == 1 {
      SplitPlain(lines[0], sep, "");
      assert lines[0] + "" == lines[0];
    } else {
      var tail := [sep] + Join(lines[1..], sep);
      SplitJoin(lines[1..], sep);
      SplitPlain(lines[0], sep, tail);
      assert tail[0] == sep && tail[1..] == Join(lines[1..], sep);
      assert Split(tail, sep) == [""] + Split(Join(lines[1..], sep), sep);
      assert Split(tail, sep)[0] == "" && Split(tail, sep)[1..] == lines[1..];
      assert lines[0] + tail == Join(lines, sep);
      assert lines[0] + Split(tail, sep)[0] == lines[0];
      assert [lines[0]] + lines[1..] == lines;
    }
  }

  /** The characters ECMAScript's `trim` removes: WhiteSpace and LineTerminator (ECMA-262, 12.2 and 12.3). */
  predicate IsWhiteSpace(c: char) {
    || c == '\t' || c == '\U{000B}' || c == '\U{000C}' || c == ' ' || c == '\U{00A0}' || c == '\U{FEFF}'
    || c == '\n' || c == '\r' || c == '\U{2028}' || c == '\U{2029}'
    || c == '\U{1680}' || ('\U{2000}' <= c <= '\U{200A}') || c == '\U{202F}' || c == '\U{205F}' || c == '\U{3000}'
  }

  function TrimStart(s: string): string
  {
    if |s| > 0 && IsWhiteSpace(s[0]) then TrimStart(s[1..]) else s
  }

  function TrimEnd(s: string): string
  {
    if |s| > 0 && IsWhiteSpace(s[|s| - 1]) then TrimEnd(s[..|s| - 1]) else s
  }

  /** `s.trim()`. */
  function Trim(s: string): string
  {
    TrimEnd(TrimStart(s))
  }

  /** How many white-space characters `TrimStart` drops. */
  function Leading(s: string): (n: nat)
    ensures n <= |s|
  {
    if |s| > 0 && IsWhiteSpace(s[0]) then 1 + Leading(s[1..]) else 0
  }

  /** How many white-space characters `TrimEnd` drops. */
  function Trailing(s: string): (n: nat)
    ensures n <= |s|
  {
    if |s| > 0 && IsWhiteSpace(s[|s| - 1]) then 1 + Trailing(s[..|s| - 1]) else 0
  }

  lemma {:induction false} TrimStartShape(s: string)
    ensures TrimStart(s) == s[Leading(s)..]
    ensures forall k :: 0 <= k < Leading(s) ==> IsWhiteSpace(s[k])
    ensures Leading(s) < |s| ==> !IsWhiteSpace(s[Leading(s)])
  {
    if |s| > 0 && IsWhiteSpace(s[0]) {
      TrimStartShape(s[1..]);
      assert s[1..][Leading(s[1..])..] == s[Leading(s)..];
      forall k | 1 <= k < Leading(s) ensures IsWhiteSpace(s[k]) {
        assert s[k] == s[1..][k - 1];
      }
    }
  }

  lemma {:induction false} TrimEndShape(s: string)
    ensures TrimEnd(s) == s[..|s| - Trailing(s)]
    ensures forall k :: |s| - Trailing(s) <= k < |s| ==> IsWhiteSpace(s[k])
    ensures Trailing(s) < |s| ==> !IsWhiteSpace(s[|s| - Trailing(s) - 1])
  {
    if |s| > 0 && IsWhiteSpace(s[|s| - 1]) {
      var p := s[..|s| - 1];
      TrimEndShape(p);
      assert p[..|p| - Trailing(p)] == s[..|s| - Trailing(s)];
      forall k | |s| - Trailing(s) <= k < |s| - 1 ensures IsWhiteSpace(s[k]) {
        assert s[k] == p[k];
      }
    }
  }

  /**
   * What `trim` leaves: an infix of the string with only white space cut on either side, and
   * neither end white.
   */
  lemma TrimShape(s: string)
    ensures Leading(s) <= |s| - Trailing(TrimStart(s))
    ensures Trim(s) == s[Leading(s)..|s| - Trailing(TrimStart(s))]
    ensures forall k :: 0 <= k < Leading(s) ==> IsWhiteSpace(s[k])
    ensures forall k :: |s| - Trailing(TrimStart(s)) <= k < |s| ==> IsWhiteSpace(s[k])
    ensures Trim(s) != "" ==> !IsWhiteSpace(Trim(s)[0]) && !IsWhiteSpace(Trim(s)[|Trim(s)| - 1])
  {
    var t := TrimStart(s);
    TrimStartShape(s);
    TrimEndShape(t);
    var i, j := Leading(s), |t| - Trailing(t);
    assert Trim(s) == t[..j] == s[i..i + j];
    forall k | i + j <= k < |s| ensures IsWhiteSpace(s[k]) {
      assert s[k] == t[k - i];
    }
    if Trim(s) != "" {
      assert Trim(s)[0] == t[0] == s[i];
    }
  }

  /** `trim` yields the empty string exactly when every character is white space. */
  lemma TrimEmpty(s: string)
    ensures Trim(s) == "" <==> forall k :: 0 <= k < |s| ==> IsWhiteSpace(s[k])
  {
    TrimShape(s);
    var t := TrimStart(s);
    if Trim(s) == "" {
      assert Leading(s) == |s| - Trailing(t);
    } else {
      assert !IsWhiteSpace(s[Leading(s)]);
    }
  }

  /** Trimming twice is trimming once. */
  lemma TrimIdempotent(s: string)
    ensures Trim(Trim(s)) == Trim(s)
  {
    var t := Trim(s);
    TrimShape(s);
    if t != "" {
      assert TrimStart(t) == t;
      assert TrimEnd(t) == t;
    }
  }
}
