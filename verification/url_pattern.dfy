/** The URL check of the window: the fixed pattern
    `((https?):((//)|(\\\\))+[\w\d:#@%/;$()~_?\+-=\\\.&]*)` applied with an
    unanchored `Regex.IsMatch`, so a string passes when ANY of its substrings
    belongs to the pattern's language. */
module UrlPattern {

  /** One repetition of the group `((//)|(\\\\))`: two slashes or two backslashes. */
  predicate IsSlashPair(t: string) {
    t == "//" || t == "\\\\"
  }

  /** `\w`, restricted to ASCII letters, digits and the underscore (`\d` is inside it). */
  predicate IsWordChar(c: char) {
    ('a' <= c <= 'z') || ('A' <= c <= 'Z') || ('0' <= c <= '9') || c == '_'
  }

  /** The bracket class of the pattern. `\+-=` is the range from `+` to `=`. */
  predicate InTailClass(c: char) {
    || IsWordChar(c)
    || c in ":#@%/;$()~_?"
    || ('+' <= c <= '=')
    || c == '\\'
    || c == '.'
    || c == '&'
  }

  /** `(https?):` */
  predicate IsScheme(t: string) {
    t == "http:" || t == "https:"
  }

  /** `((//)|(\\\\))+`: one or more slash pairs. */
  predicate IsSlashRun(t: string)
    decreases |t|
  {
    |t| >= 2 && IsSlashPair(t[..2]) && (|t| == 2 || IsSlashRun(t[2..]))
  }

  /** `s[i..l]` is a word of the pattern's language, read as the scheme `s[i..j]`,
      the slash pairs `s[j..k]` and the starred class `s[k..l]`. */
  predicate MatchSpan(s: string, i: int, j: int, k: int, l: int) {
    && 0 <= i <= j <= k <= l <= |s|
    && IsScheme(s[i..j])
    && IsSlashRun(s[j..k])
    && (forall m :: k <= m < l ==> InTailClass(s[m]))
  }

  /** What `rgxURL.IsMatch(s)` answers: some substring of `s` is in the language. */
  ghost predicate PatternFound(s: string) {
    exists i, j, k, l :: MatchSpan(s, i, j, k, l)
  }

  /** `http:` or `https:` followed by a slash pair starts at position `i` of `s`. */
  predicate MarkerAt(s: string, i: int) {
    && 0 <= i
    && (|| (i + 7 <= |s| && s[i..i + 5] == "http:" && IsSlashPair(s[i + 5..i + 7]))
        || (i + 8 <= |s| && s[i..i + 6] == "https:" && IsSlashPair(s[i + 6..i + 8])))
  }

  /** The unanchored match never depends on the starred class nor on more than one
      slash pair: it holds exactly when the marker occurs somewhere in `s`. */
  lemma PatternFoundIffMarker(s: string)
    ensures PatternFound(s) <==> exists i :: MarkerAt(s, i)
  {
    if PatternFound(s) {
      var i, j, k, l :| MatchSpan(s, i, j, k, l);
      assert s[j..k][..2] == s[j..j + 2];
      if s[i..j] == "http:" {
        assert s[i..i + 5] == s[i..j];
      } else {
        assert s[i..i + 6] == s[i..j];
      }
      assert MarkerAt(s, i);
    }
    if i :| MarkerAt(s, i) {
      var j := if i + 7 <= |s| && s[i..i + 5] == "http:" && IsSlashPair(s[i + 5..i + 7]) then i + 5 else i + 6;
      assert s[j..j + 2][..2] == s[j..j + 2];
      assert MatchSpan(s, i, j, j + 2, j + 2);
    }
  }

  /** Whether the marker occurs at position `i` or later. */
  function MarkerFrom(s: string, i: nat): (b: bool)
    ensures b <==> exists k :: i <= k && MarkerAt(s, k)
    decreases |s| - i
  {
    if i >= |s| then false
    else MarkerAt(s, i) || MarkerFrom(s, i + 1)
  }

  /** `rgxURL.IsMatch(s)`. */
  function IsMatch(s: string): (b: bool)
    ensures b <==> PatternFound(s)
  {
    PatternFoundIffMarker(s);
    MarkerFrom(s, 0)
  }

  /** The empty string, and so every empty line, fails the pattern. */
  lemma EmptyDoesNotMatch()
    ensures !IsMatch("")
  {
    assert !MarkerFrom("", 0);
  }

  /** A plain address passes. */
  lemma SlashAddressMatches()
    ensures PatternFound("http://example.com")
  {
    var s := "http://example.com";
    assert s[0..5] == "http:" && s[5..7] == "//";
    assert MarkerAt(s, 0);
    PatternFoundIffMarker(s);
  }

  /** An address written with two backslashes passes, even in the middle of a line. */
  lemma BackslashAddressMatches()
    ensures PatternFound("see https:\\\\host")
  {
    var s := "see https:\\\\host";
    assert s[4..10] == "https:" && s[10..12] == "\\\\";
    assert MarkerAt(s, 4);
    PatternFoundIffMarker(s);
  }

  /** A single slash after the colon does not pass. */
  lemma SingleSlashFails()
    ensures !PatternFound("http:/x")
  {
    var s := "http:/x";
    assert s[5..7] == "/x";
    assert forall i :: !MarkerAt(s, i);
    PatternFoundIffMarker(s);
  }
}
