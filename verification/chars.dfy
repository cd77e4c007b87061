/** ASCII character classes and the string helpers the expiry rewriter uses:
    `str.strip`, `str.lower`, and "first letter upper, rest lower". */
module Chars {

  /** Python's `str.isspace` on ASCII: tab, line feed, vertical tab, form
      feed, carriage return, the four information separators 0x1C..0x1F,
      and the space. */
  predicate IsSpace(c: char) {
    c == ' ' || (9 <= c as int <= 13) || (28 <= c as int <= 31)
  }

  /** `\d` restricted to ASCII. */
  predicate IsDigit(c: char) {
    '0' <= c <= '9'
  }

  predicate IsUpper(c: char) {
    'A' <= c <= 'Z'
  }

  predicate IsLower(c: char) {
    'a' <= c <= 'z'
  }

  /** `[A-Za-z]` (case-insensitive matching does not widen it on ASCII). */
  predicate IsLetter(c: char) {
    IsUpper(c) || IsLower(c)
  }

  predicate AllDigits(s: string) {
    forall i :: 0 <= i < |s| ==> IsDigit(s[i])
  }

  predicate AllLetters(s: string) {
    forall i :: 0 <= i < |s| ==> IsLetter(s[i])
  }

  predicate AllSpace(s: string) {
    forall i :: 0 <= i < |s| ==> IsSpace(s[i])
  }

  function ToLower(c: char): (d: char)
    ensures !IsUpper(d)
    ensures IsLetter(c) <==> IsLetter(d)
    ensures IsSpace(c) <==> IsSpace(d)
    ensures !IsUpper(c) ==> d == c
  {
    if IsUpper(c) then (c as int + 32) as char else c
  }

  function ToUpper(c: char): (d: char)
    ensures !IsLower(d)
    ensures IsLetter(c) <==> IsLetter(d)
    ensures ToLower(d) == ToLower(c)
  {
    if IsLower(c) then (c as int - 32) as char else c
  }

  /** `str.lower` on ASCII. */
  function Lower(s: string): (r: string)
    ensures |r| == |s|
    ensures forall i :: 0 <= i < |s| ==> r[i] == ToLower(s[i])
  {
    if s == [] then [] else [ToLower(s[0])] + Lower(s[1..])
  }

  /** A word written first letter upper, rest lower. */
  predicate IsCapitalized(s: string) {
    && s != []
    && !IsLower(s[0])
    && forall i :: 1 <= i < |s| ==> !IsUpper(s[i])
  }

  /** `s[0].upper() + s[1:].lower()`: the same word, ignoring case, written
      first letter upper and the rest lower. Indexing `s[0]` demands a
      non-empty word. */
  function Capitalize(s: string): (r: string)
    requires s != []
    ensures |r| == |s|
    ensures Lower(r) == Lower(s)
    ensures IsCapitalized(r)
    ensures AllLetters(s) ==> AllLetters(r)
  {
    var r := [ToUpper(s[0])] + Lower(s[1..]);
    CapitalizeParts(s, r);
    r
  }

  lemma CapitalizeParts(s: string, r: string)
    requires s != [] && r == [ToUpper(s[0])] + Lower(s[1..])
    ensures |r| == |s|
    ensures Lower(r) == Lower(s)
    ensures IsCapitalized(r)
    ensures AllLetters(s) ==> AllLetters(r)
  {
    assert forall i :: 1 <= i < |s| ==> r[i] == ToLower(s[i]);
    assert Lower(r)[0] == ToLower(ToUpper(s[0])) == ToLower(s[0]);
    forall i | 1 <= i < |s| ensures Lower(r)[i] == Lower(s)[i] {
      assert r[i] == ToLower(s[i]);
    }
  }

  /** Capitalizing an already capitalized word leaves it as it is. */
  lemma CapitalizeIdempotent(s: string)
    requires s != []
    ensures Capitalize(Capitalize(s)) == Capitalize(s)
  {
  }

  /** End of the run of whitespace in `s` that starts at `i`. */
  function SkipSpaces(s: string, i: nat): (k: nat)
    requires i <= |s|
    decreases |s| - i
    ensures i <= k <= |s|
    ensures forall j :: i <= j < k ==> IsSpace(s[j])
    ensures k < |s| ==> !IsSpace(s[k])
  {
    if i == |s| || !IsSpace(s[i]) then i else SkipSpaces(s, i + 1)
  }

  /** Start of the run of whitespace in `s` that ends at `k`. */
  function SkipSpacesBack(s: string, k: nat): (i: nat)
    requires k <= |s|
    ensures i <= k
    ensures forall j :: i <= j < k ==> IsSpace(s[j])
    ensures i > 0 ==> !IsSpace(s[i - 1])
  {
    if k == 0 || !IsSpace(s[k - 1]) then k else SkipSpacesBack(s, k - 1)
  }

  /** `s` without its leading run of whitespace. */
  function TrimStart(s: string): (r: string)
    ensures |r| <= |s|
    ensures r != [] ==> !IsSpace(r[0])
  {
    s[SkipSpaces(s, 0)..]
  }

  /** `s` without its trailing run of whitespace. */
  function TrimEnd(s: string): (r: string)
    ensures |r| <= |s|
    ensures r != [] ==> r[0] == s[0] && !IsSpace(r[|r| - 1])
  {
    s[..SkipSpacesBack(s, |s|)]
  }

  /** `str.strip()` on ASCII whitespace: the result neither starts nor ends
      with whitespace (`StripEmpty` and `StripRemovesOnlySpace` state what
      it removes). */
  function Strip(s: string): (r: string)
    ensures |r| <= |s|
    ensures r != [] ==> !IsSpace(r[0]) && !IsSpace(r[|r| - 1])
  {
    TrimEnd(TrimStart(s))
  }

  /** Stripping leaves nothing exactly when there was nothing but
      whitespace. */
  lemma StripEmpty(s: string)
    ensures Strip(s) == [] <==> AllSpace(s)
  {
    var n := SkipSpaces(s, 0);
    if n < |s| {
      var t := TrimStart(s);
      assert t[0] == s[n];
      TrimEndKeepsStart(t);
    }
  }

  /** Trimming the end of a string that starts with a non-space leaves it
      non-empty. */
  lemma TrimEndKeepsStart(t: string)
    requires t != [] && !IsSpace(t[0])
    ensures TrimEnd(t) != []
  {
  }

  /** `s` is `r` with a run of whitespace of length `a` before it and a
      run of whitespace after it. */
  predicate WrappedInSpace(s: string, r: string, a: nat) {
    && a + |r| <= |s|
    && s == s[..a] + r + s[a + |r|..]
    && AllSpace(s[..a])
    && AllSpace(s[a + |r|..])
  }

  /** What `Strip` removes is whitespace only: its argument is the result
      wrapped in a leading and a trailing run of whitespace. */
  lemma StripRemovesOnlySpace(s: string)
    ensures exists a :: WrappedInSpace(s, Strip(s), a)
  {
    var a := SkipSpaces(s, 0);
    var t := s[a..];
    var e := SkipSpacesBack(t, |t|);
    var r := t[..e];
    assert r == Strip(s);
    SliceOfSlice(s, a, e);
    assert forall j :: a + e <= j < |s| ==> s[j] == t[j - a];
    Wrap(s, r, a);
  }

  lemma SliceOfSlice(s: string, a: nat, n: nat)
    requires a + n <= |s|
    ensures s[a..][..n] == s[a..a + n]
    ensures s[a + n..] == s[a..][n..]
  {
  }

  lemma Wrap(s: string, r: string, a: nat)
    requires a + |r| <= |s| && r == s[a..a + |r|]
    requires forall j :: 0 <= j < a ==> IsSpace(s[j])
    requires forall j :: a + |r| <= j < |s| ==> IsSpace(s[j])
    ensures WrappedInSpace(s, r, a)
  {
    assert s == s[..a] + s[a..a + |r|] + s[a + |r|..];
  }

  /** A string that neither starts nor ends with whitespace is its own strip. */
  lemma StripClean(s: string)
    requires s != [] ==> !IsSpace(s[0]) && !IsSpace(s[|s| - 1])
    ensures Strip(s) == s
  {
    assert SkipSpaces(s, 0) == 0;
    assert TrimStart(s) == s;
    assert SkipSpacesBack(s, |s|) == |s|;
  }

  /** Stripping twice is stripping once. */
  lemma StripIdempotent(s: string)
    ensures Strip(Strip(s)) == Strip(s)
  {
    StripClean(Strip(s));
  }
}
