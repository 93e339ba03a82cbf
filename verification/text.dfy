/** String handling the window relies on: `String.Trim()` and
    `String.Split("\r\n".ToCharArray())` as the .NET base library defines them. */
module Text {

  /** `Char.IsWhiteSpace`: the Unicode space, line and paragraph separators
      (categories Zs, Zl, Zp) together with U+0009..U+000D and U+0085, as .NET Core
      3.0 and later define it; U+180E is not in it. This is the set `String.Trim()`
      drops there; .NET Framework runtimes used slightly different sets. */
  predicate IsWhiteSpace(c: char) {
    || ('\t' <= c <= '\r')
    || c == ' '
    || c == '\U{0085}'
    || c == '\U{00A0}'
    || c == '\U{1680}'
    || ('\U{2000}' <= c <= '\U{200A}')
    || c == '\U{2028}'
    || c == '\U{2029}'
    || c == '\U{202F}'
    || c == '\U{205F}'
    || c == '\U{3000}'
  }

  /** The two characters the window splits its text on. */
  predicate IsLineBreak(c: char) {
    c == '\r' || c == '\n'
  }

  /** Drops the leading white space of `s`. */
  function TrimStart(s: string): string {
    if s != [] && IsWhiteSpace(s[0]) then TrimStart(s[1..]) else s
  }

  /** Drops the trailing white space of `s`. */
  function TrimEnd(s: string): string {
    if s != [] && IsWhiteSpace(s[|s| - 1]) then TrimEnd(s[..|s| - 1]) else s
  }

  /** `TrimStart` keeps a suffix of `s`, drops only white space, and stops at the
      first character that is not white space. */
  lemma {:induction false} TrimStartSpec(s: string)
    ensures |TrimStart(s)| <= |s| && TrimStart(s) == s[|s| - |TrimStart(s)|..]
    ensures forall k :: 0 <= k < |s| - |TrimStart(s)| ==> IsWhiteSpace(s[k])
    ensures TrimStart(s) != [] ==> !IsWhiteSpace(TrimStart(s)[0])
    decreases |s|
  {
    if s != [] && IsWhiteSpace(s[0]) {
      TrimStartSpec(s[1..]);
    }
  }

  /** `TrimEnd` keeps a prefix of `s`, drops only white space, and stops at the
      last character that is not white space. */
  lemma {:induction false} TrimEndSpec(s: string)
    ensures |TrimEnd(s)| <= |s| && TrimEnd(s) == s[..|TrimEnd(s)|]
    ensures forall k :: |TrimEnd(s)| <= k < |s| ==> IsWhiteSpace(s[k])
    ensures TrimEnd(s) != [] ==> !IsWhiteSpace(TrimEnd(s)[|TrimEnd(s)| - 1])
    decreases |s|
  {
    if s != [] && IsWhiteSpace(s[|s| - 1]) {
      TrimEndSpec(s[..|s| - 1]);
    }
  }

  /** `r` is the slice of `s` that starts at `i`, and everything of `s` around it is
      white space. */
  predicate TrimmedAt(s: string, i: int, r: string) {
    && 0 <= i <= |s| - |r|
    && s[i..i + |r|] == r
    && (forall k :: 0 <= k < i ==> IsWhiteSpace(s[k]))
    && (forall k :: i + |r| <= k < |s| ==> IsWhiteSpace(s[k]))
  }

  /** `String.Trim()`. */
  function Trim(s: string): string {
    TrimEnd(TrimStart(s))
  }

  /** `Trim` keeps the slice of `s` left after dropping white space from both ends,
      and that slice neither starts nor ends with white space. */
  lemma TrimSlice(s: string)
    ensures exists i :: TrimmedAt(s, i, Trim(s))
    ensures Trim(s) != [] ==> !IsWhiteSpace(Trim(s)[0]) && !IsWhiteSpace(Trim(s)[|Trim(s)| - 1])
  {
    var t := TrimStart(s);
    TrimStartSpec(s);
    TrimEndSpec(t);
    assert TrimmedAt(s, |s| - |t|, Trim(s));
  }

  /** Trimming an already trimmed string changes nothing. */
  lemma TrimIdempotent(s: string)
    ensures Trim(Trim(s)) == Trim(s)
  {
    var t := Trim(s);
    TrimSlice(s);
    assert TrimStart(t) == t;
    assert TrimEnd(t) == t;
  }

  /** A string made only of white space trims to the empty string. */
  lemma TrimAllWhiteSpace(s: string)
    requires forall k :: 0 <= k < |s| ==> IsWhiteSpace(s[k])
    ensures Trim(s) == []
  {
    TrimStartSpec(s);
    assert TrimStart(s) == [];
  }

  /** A string that has no white space at either end is its own trim. */
  lemma TrimOfClean(s: string)
    requires s != [] ==> !IsWhiteSpace(s[0]) && !IsWhiteSpace(s[|s| - 1])
    ensures Trim(s) == s
  {
    assert TrimStart(s) == s;
    assert TrimEnd(s) == s;
  }

  /** Leading white space is dropped across a concatenation only as far as it goes:
      once `s` has a character that is not white space, `t` is kept whole. */
  lemma {:induction false} TrimStartConcat(s: string, t: string)
    ensures TrimStart(s + t) == if TrimStart(s) == [] then TrimStart(t) else TrimStart(s) + t
    decreases |s|
  {
    if s == [] {
      assert s + t == t;
    } else if IsWhiteSpace(s[0]) {
      assert (s + t)[1..] == s[1..] + t;
      TrimStartConcat(s[1..], t);
    }
  }

  /** A space appended to any text is trimmed away again. */
  lemma TrimThenSpace(s: string)
    ensures Trim(s + " ") == Trim(s)
  {
    TrimStartConcat(s, " ");
    var u := TrimStart(s);
    if u != [] {
      assert (u + " ")[..|u|] == u;
    }
  }

  /** The line-break characters of `s`, in order. */
  function LineBreaks(s: string): (r: string)
    ensures |r| <= |s|
    ensures forall k :: 0 <= k < |r| ==> IsLineBreak(r[k])
  {
    if s == [] then []
    else (if IsLineBreak(s[0]) then [s[0]] else []) + LineBreaks(s[1..])
  }

  /** `s.Split("\r\n".ToCharArray())` with no options: every line-break character
      ends a piece, empty pieces are kept, and the empty string gives one empty piece. */
  function SplitLines(s: string): (pieces: seq<string>)
    ensures |pieces| == |LineBreaks(s)| + 1
    ensures forall p, k :: 0 <= p < |pieces| && 0 <= k < |pieces[p]| ==> !IsLineBreak(pieces[p][k])
  {
    if s == [] then [[]]
    else
      var rest := SplitLines(s[1..]);
      if IsLineBreak(s[0]) then [[]] + rest
      else [[s[0]] + rest[0]] + rest[1..]
  }

  /** Puts pieces back together with `breaks[i]` between piece `i` and piece `i + 1`. */
  function Join(pieces: seq<string>, breaks: string): string
    requires |pieces| == |breaks| + 1
  {
    if breaks == [] then pieces[0]
    else pieces[0] + [breaks[0]] + Join(pieces[1..], breaks[1..])
  }

  predicate NoLineBreak(s: string) {
    forall k :: 0 <= k < |s| ==> !IsLineBreak(s[k])
  }

  lemma {:induction false} JoinExtendsFirst(c: char, pieces: seq<string>, breaks: string)
    requires |pieces| == |breaks| + 1
    ensures Join([[c] + pieces[0]] + pieces[1..], breaks) == [c] + Join(pieces, breaks)
  {
    var ps := [[c] + pieces[0]] + pieces[1..];
    assert ps[0] == [c] + pieces[0];
    if breaks != [] {
      assert ps[1..] == pieces[1..];
    }
  }

  /** Joining the pieces with the line breaks they were split on gives back the text. */
  lemma {:induction false} SplitThenJoin(s: string)
    ensures Join(SplitLines(s), LineBreaks(s)) == s
  {
    if s != [] {
      var rest := SplitLines(s[1..]);
      SplitThenJoin(s[1..]);
      if IsLineBreak(s[0]) {
        assert SplitLines(s) == [[]] + rest;
        assert LineBreaks(s) == [s[0]] + LineBreaks(s[1..]);
        assert ([[]] + rest)[1..] == rest;
      } else {
        assert LineBreaks(s) == LineBreaks(s[1..]);
        JoinExtendsFirst(s[0], rest, LineBreaks(s[1..]));
        assert [s[0]] + s[1..] == s;
      }
    }
  }

  lemma {:induction false} SplitAfterClean(p: string, t: string)
    requires NoLineBreak(p)
    ensures SplitLines(p + t) == [p + SplitLines(t)[0]] + SplitLines(t)[1..]
    ensures LineBreaks(p + t) == LineBreaks(t)
  {
    if p == [] {
      assert p + t == t;
      var ts := SplitLines(t);
      assert p + ts[0] == ts[0];
      assert [p + ts[0]] + ts[1..] == ts;
    } else {
      assert (p + t)[1..] == p[1..] + t;
      SplitAfterClean(p[1..], t);
      assert [p[0]] + (p[1..] + SplitLines(t)[0]) == p + SplitLines(t)[0];
    }
  }

  /** Splitting text joined from break-free pieces gives back those pieces and breaks. */
  lemma {:induction false} JoinThenSplit(pieces: seq<string>, breaks: string)
    requires |pieces| == |breaks| + 1
    requires forall k :: 0 <= k < |breaks| ==> IsLineBreak(breaks[k])
    requires forall p :: 0 <= p < |pieces| ==> NoLineBreak(pieces[p])
    ensures SplitLines(Join(pieces, breaks)) == pieces
    ensures LineBreaks(Join(pieces, breaks)) == breaks
  {
    if breaks == [] {
      SplitAfterClean(pieces[0], []);
      assert pieces[0] + [] == pieces[0];
    } else {
      var j := Join(pieces[1..], breaks[1..]);
      JoinThenSplit(pieces[1..], breaks[1..]);
      var t := [breaks[0]] + j;
      assert t[1..] == j;
      assert SplitLines(t) == [[]] + pieces[1..];
      assert LineBreaks(t) == breaks;
      assert pieces[0] + [breaks[0]] + j == pieces[0] + t;
      SplitAfterClean(pieces[0], t);
      assert pieces[0] + [] == pieces[0];
      assert [pieces[0]] + pieces[1..] == pieces;
    }
  }

  /** Two line breaks in a row (a CRLF pair, or a blank line) leave an empty piece
      after the first piece. */
  lemma {:induction false} AdjacentBreaksGiveEmptyPiece(s: string, p: int)
    requires 0 <= p && p + 1 < |s|
    requires IsLineBreak(s[p]) && IsLineBreak(s[p + 1])
    ensures exists q :: 1 <= q < |SplitLines(s)| && SplitLines(s)[q] == []
  {
    var rest := SplitLines(s[1..]);
    if p == 0 {
      assert s[1..][0] == s[1];
      assert rest[0] == [];
      assert SplitLines(s)[1] == [];
    } else {
      AdjacentBreaksGiveEmptyPiece(s[1..], p - 1);
      var q :| 1 <= q < |rest| && rest[q] == [];
      if IsLineBreak(s[0]) {
        assert SplitLines(s)[q + 1] == [];
      } else {
        assert SplitLines(s)[q] == [];
      }
    }
  }
}
