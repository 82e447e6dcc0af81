/** The string operations of the .NET runtime that the console's
    dispatcher relies on: `Split` on one separator character, `Join` with one,
    and the white-space tests behind `Trim` and `IsNullOrWhiteSpace`.
    A Dafny `char` is a Unicode scalar value while a .NET `char` is a UTF-16
    code unit; the two agree on strings within the Basic Multilingual Plane. */
module Text {

  /** `char.IsWhiteSpace`: the Unicode white-space characters. */
  predicate IsWhiteSpace(c: char) {
    ('\U{9}' <= c <= '\U{D}') || c == ' ' || c == '\U{85}' || c == '\U{A0}' || c == '\U{1680}' ||
    ('\U{2000}' <= c <= '\U{200A}') || c == '\U{2028}' || c == '\U{2029}' || c == '\U{202F}' ||
    c == '\U{205F}' || c == '\U{3000}'
  }

  /** `string.IsNullOrWhiteSpace` on a (non-null) string. */
  predicate AllWhite(s: string) {
    forall i :: 0 <= i < |s| ==> IsWhiteSpace(s[i])
  }

  /** The position of the first occurrence of `c` in `s`. */
  function IndexOf(s: string, c: char): (i: nat)
    requires c in s
    ensures i < |s| && s[i] == c && c !in s[..i]
  {
    if s[0] == c then 0
    else
      assert c in s[1..] by {
        var k :| 0 <= k < |s| && s[k] == c;
        assert s[1..][k - 1] == c;
      }
      var j := IndexOf(s[1..], c);
      assert s[..j + 1] == [s[0]] + s[1..][..j];
      j + 1
  }

  /** `s.Split(sep)`: the pieces between the separators, empty pieces kept. */
  function Split(s: string, sep: char): (parts: seq<string>)
    ensures |parts| >= 1
    ensures |parts| == 1 <==> sep !in s
    ensures forall k :: 0 <= k < |parts| ==> sep !in parts[k]
    decreases |s|
  {
    if sep !in s then [s]
    else
      var i := IndexOf(s, sep);
      [s[..i]] + Split(s[i + 1..], sep)
  }

  /** `string.Join(sep, parts)`. */
  function Join(sep: char, parts: seq<string>): string {
    if |parts| == 0 then ""
    else if |parts| == 1 then parts[0]
    else parts[0] + [sep] + Join(sep, parts[1..])
  }

  /** Joining the pieces of a split restores the string. */
  lemma {:induction false} JoinSplit(s: string, sep: char)
    ensures Join(sep, Split(s, sep)) == s
    decreases |s|
  {
    if sep in s {
      var i := IndexOf(s, sep);
      var head, tail := s[..i], s[i + 1..];
      var rest := Split(tail, sep);
      var parts := Split(s, sep);
      assert parts == [head] + rest;
      assert |rest| >= 1;
      assert parts[0] == head && parts[1..] == rest;
      JoinSplit(tail, sep);
      calc {
        Join(sep, parts);
        parts[0] + [sep] + Join(sep, parts[1..]);
        head + [sep] + tail;
        { Around(s, i); }
        s;
      }
    }
  }

  /** A string is the text before a position, the character there, and
      the text after it. */
  lemma Around(s: string, i: nat)
    requires i < |s|
    ensures s[..i] + [s[i]] + s[i + 1..] == s
  {
    var t := s[..i] + [s[i]] + s[i + 1..];
    assert |t| == |s|;
    forall k | 0 <= k < |s| ensures t[k] == s[k] {
      if k < i {
        assert t[k] == s[..i][k];
      } else if k > i {
        assert t[k] == s[i + 1..][k - i - 1];
      }
    }
  }

  /** Splitting a join of separator-free pieces gives the pieces back. */
  lemma {:induction false} SplitJoin(parts: seq<string>, sep: char)
    requires |parts| >= 1 && forall k :: 0 <= k < |parts| ==> sep !in parts[k]
    ensures Split(Join(sep, parts), sep) == parts
  {
    if |parts| > 1 {
      var rest := Join(sep, parts[1..]);
      assert Join(sep, parts) == parts[0] + [sep] + rest;
      FirstAt(parts[0], sep, rest);
      SplitJoin(parts[1..], sep);
      assert Split(Join(sep, parts), sep) == [parts[0]] + parts[1..];
    }
  }

  /** In a piece without the separator followed by the separator, the
      first separator is the one after the piece. */
  lemma FirstAt(p: string, sep: char, r: string)
    requires sep !in p
    ensures var s := p + [sep] + r;
      sep in s && IndexOf(s, sep) == |p| && s[..|p|] == p && s[|p| + 1..] == r
  {
    var s := p + [sep] + r;
    assert s[|p|] == sep;
    var i := IndexOf(s, sep);
    assert forall k :: 0 <= k < |p| ==> s[k] == p[k];
    assert forall j :: |p| < j <= |s| ==> s[..j][|p|] == sep;
    assert s[..|p|] == p;
    assert s[|p| + 1..] == r;
  }

  /** The pieces after the first, joined again, are the text after the
      first separator, or nothing when there is none. */
  lemma RestAfterFirst(s: string, sep: char)
    ensures sep in s ==> Join(sep, Split(s, sep)[1..]) == s[IndexOf(s, sep) + 1..]
    ensures sep !in s ==> Join(sep, Split(s, sep)[1..]) == ""
  {
    if sep in s {
      var i := IndexOf(s, sep);
      JoinSplit(s[i + 1..], sep);
      assert Split(s, sep)[1..] == Split(s[i + 1..], sep);
    }
  }

  /** The first piece is the text before the first separator. */
  lemma FirstPiece(s: string, sep: char)
    ensures sep in s ==> Split(s, sep)[0] == s[..IndexOf(s, sep)]
    ensures sep !in s ==> Split(s, sep)[0] == s
  {
  }

  function TrimStart(s: string): (r: string)
    ensures |r| <= |s| && r == s[|s| - |r|..]
    ensures r == [] || !IsWhiteSpace(r[0])
    ensures AllWhite(s[..|s| - |r|])
  {
    if |s| > 0 && IsWhiteSpace(s[0]) then
      var r := TrimStart(s[1..]);
      assert s[..|s| - |r|] == [s[0]] + s[1..][..|s| - 1 - |r|];
      r
    else s
  }

  function TrimEnd(s: string): (r: string)
    ensures |r| <= |s| && r == s[..|r|]
    ensures r == [] || !IsWhiteSpace(r[|r| - 1])
    ensures AllWhite(s[|r|..])
  {
    if |s| > 0 && IsWhiteSpace(s[|s| - 1]) then
      var r := TrimEnd(s[..|s| - 1]);
      assert s[|r|..] == s[..|s| - 1][|r|..] + [s[|s| - 1]];
      r
    else s
  }

  /** `s.Trim()`: white space removed from both ends. */
  function Trim(s: string): string {
    TrimEnd(TrimStart(s))
  }

  /** What Trim keeps neither starts nor ends with white space. */
  lemma TrimEnds(s: string)
    ensures Trim(s) == [] || (!IsWhiteSpace(Trim(s)[0]) && !IsWhiteSpace(Trim(s)[|Trim(s)| - 1]))
  {
    var a := TrimStart(s);
    var r := TrimEnd(a);
    if r != [] {
      assert r[0] == a[0];
    }
  }

  /** A string that is all white space trims to nothing, and a string
      that is not keeps a non-empty core. */
  lemma TrimEmpty(s: string)
    ensures Trim(s) == [] <==> AllWhite(s)
  {
    var a := TrimStart(s);
    var n := |s| - |a|;
    assert forall k :: 0 <= k < n ==> s[..n][k] == s[k];
    assert forall k :: n <= k < |s| ==> a[k - n] == s[k];
  }

  /** Trimming a string that has no white space at its ends changes nothing. */
  lemma TrimKeeps(s: string)
    requires s == [] || (!IsWhiteSpace(s[0]) && !IsWhiteSpace(s[|s| - 1]))
    ensures Trim(s) == s
  {
  }
}
