/** String helpers the handlers rely on: Python's `str.strip()`, the
    ASCII-only `LOWER()` of SQLite, Python's `str.lower()` on the ASCII and
    Latin-1 capitals, and the BINARY collation SQLite uses for `ORDER BY`
    on text columns. */
module Text {

  /** The characters Python's `str.isspace()` accepts, which are the ones
      `str.strip()` removes when called without an argument. */
  predicate IsSpace(c: char) {
    || ('\t' <= c <= '\r')
    || ('\U{1C}' <= c <= '\U{1F}')
    || c == ' '
    || c == '\U{85}'
    || c == '\U{A0}'
    || c == '\U{1680}'
    || ('\U{2000}' <= c <= '\U{200A}')
    || c == '\U{2028}'
    || c == '\U{2029}'
    || c == '\U{202F}'
    || c == '\U{205F}'
    || c == '\U{3000}'
  }

  predicate AllSpace(s: string) {
    forall i | 0 <= i < |s| :: IsSpace(s[i])
  }

  /** The first position at or after `i` that holds no whitespace, or
      `|s|` when there is none. */
  function SkipSpace(s: string, i: nat): (k: nat)
    requires i <= |s|
    ensures i <= k <= |s|
    ensures forall m | i <= m < k :: IsSpace(s[m])
    ensures k < |s| ==> !IsSpace(s[k])
    decreases |s| - i
  {
    if i == |s| || !IsSpace(s[i]) then i else SkipSpace(s, i + 1)
  }

  /** Just past the last position below `j` and not below `lo` that holds
      no whitespace, or `lo` when there is none. */
  function SkipSpaceBack(s: string, lo: nat, j: nat): (k: nat)
    requires lo <= j <= |s|
    ensures lo <= k <= j
    ensures forall m | k <= m < j :: IsSpace(s[m])
    ensures k > lo ==> !IsSpace(s[k - 1])
  {
    if j == lo || !IsSpace(s[j - 1]) then j else SkipSpaceBack(s, lo, j - 1)
  }

  /** A string with no whitespace at either end; by `StrippedIsFixed`
      these are exactly the strings `strip()` leaves as they are. */
  predicate IsStripped(s: string) {
    s != [] ==> !IsSpace(s[0]) && !IsSpace(s[|s| - 1])
  }

  /** Python's `s.strip()`: the part of `s` between its leading and its
      trailing whitespace; empty exactly when `s` is all whitespace. */
  function Strip(s: string): (r: string)
    ensures exists i, j | 0 <= i <= j <= |s| :: r == s[i..j] && AllSpace(s[..i]) && AllSpace(s[j..])
    ensures IsStripped(r)
    ensures r == [] <==> AllSpace(s)
  {
    var i := SkipSpace(s, 0);
    var j := SkipSpaceBack(s, i, |s|);
    assert AllSpace(s[..i]) && AllSpace(s[j..]);
    assert i == j ==> s[..i] == s;
    assert i < j ==> !IsSpace(s[i]);
    s[i..j]
  }

  /** `strip()` is determined by the three facts in its contract: any split
      of `s` into whitespace, a stripped middle and whitespace yields that
      middle. */
  lemma {:induction false} StripUnique(s: string, i: nat, j: nat)
    requires i <= j <= |s| && AllSpace(s[..i]) && AllSpace(s[j..]) && IsStripped(s[i..j])
    ensures Strip(s) == s[i..j]
  {
    var a := SkipSpace(s, 0);
    var b := SkipSpaceBack(s, a, |s|);
    if i < j {
      assert s[i..j][0] == s[i] && s[i..j][j - i - 1] == s[j - 1];
      assert a == i;
      assert b == j;
    } else {
      forall m | 0 <= m < |s| ensures IsSpace(s[m]) {
        if m < i { assert s[..i][m] == s[m]; } else { assert s[j..][m - j] == s[m]; }
      }
    }
  }

  /** `strip()` changes a string exactly when it has whitespace at one of
      its ends. */
  lemma {:induction false} StrippedIsFixed(s: string)
    ensures Strip(s) == s <==> IsStripped(s)
  {
    if IsStripped(s) {
      assert s[..0] == [] && s[|s|..] == [] && s[0..|s|] == s;
      StripUnique(s, 0, |s|);
    }
  }

  /** `strip()` is idempotent. */
  lemma {:induction false} StripIdempotent(s: string)
    ensures Strip(Strip(s)) == Strip(s)
  {
    StrippedIsFixed(Strip(s));
  }

  predicate IsAsciiUpper(c: char) {
    'A' <= c <= 'Z'
  }

  /** SQLite's built-in `LOWER()`: without the ICU extension only the ASCII
      capitals A..Z are folded. */
  function SqlLowerChar(c: char): char {
    if IsAsciiUpper(c) then (c as int + 32) as char else c
  }

  function SqlLower(s: string): (r: string)
    ensures |r| == |s|
    ensures forall i | 0 <= i < |r| :: !IsAsciiUpper(r[i])
    ensures forall i | 0 <= i < |s| && !IsAsciiUpper(s[i]) :: r[i] == s[i]
  {
    seq(|s|, i requires 0 <= i < |s| => SqlLowerChar(s[i]))
  }

  /** The capitals Python's `str.lower()` folds by adding 32: ASCII A..Z and
      the Latin-1 letters U+00C0..U+00DE except the sign U+00D7. */
  predicate IsFoldedByAdding32(c: char) {
    IsAsciiUpper(c) || ('\U{C0}' <= c <= '\U{DE}' && c != '\U{D7}')
  }

  function StrLowerChar(c: char): char {
    if IsFoldedByAdding32(c) then (c as int + 32) as char else c
  }

  /** Python's `str.lower()` on the characters up to U+00FF. */
  function StrLower(s: string): (r: string)
    ensures |r| == |s|
    ensures forall i | 0 <= i < |r| :: !IsFoldedByAdding32(r[i])
    ensures forall i | 0 <= i < |s| && !IsFoldedByAdding32(s[i]) :: r[i] == s[i]
  {
    seq(|s|, i requires 0 <= i < |s| => StrLowerChar(s[i]))
  }

  predicate IsLowerCase(s: string) {
    StrLower(s) == s
  }

  /** Lower-casing twice lower-cases once. */
  lemma StrLowerIdempotent(s: string)
    ensures IsLowerCase(StrLower(s))
  {
    var r := StrLower(s);
    assert forall i | 0 <= i < |r| :: StrLower(r)[i] == r[i];
  }

  /** On a lower-case string SQLite's `LOWER()` changes nothing. */
  lemma SqlLowerOfLowerCase(s: string)
    requires IsLowerCase(s)
    ensures SqlLower(s) == s
  {
    forall i | 0 <= i < |s| ensures SqlLower(s)[i] == s[i] {
      assert !IsFoldedByAdding32(StrLower(s)[i]);
    }
  }

  /** On ASCII text the two foldings agree. */
  lemma FoldingsAgreeOnAscii(s: string)
    requires forall i | 0 <= i < |s| :: s[i] < '\U{80}'
    ensures SqlLower(s) == StrLower(s)
  {
    assert forall i | 0 <= i < |s| :: SqlLower(s)[i] == StrLower(s)[i];
  }

  /** SQLite's BINARY collation compares the UTF-8 bytes with `memcmp`,
      the shorter string first on a tie; UTF-8 keeps code-point order, so
      this is lexicographic order on code points. */
  predicate LexLe(a: string, b: string) {
    a == [] || (b != [] && (a[0] < b[0] || (a[0] == b[0] && LexLe(a[1..], b[1..]))))
  }

  lemma {:induction false} LexLeTotal(a: string, b: string)
    ensures LexLe(a, b) || LexLe(b, a)
  {
    if a != [] && b != [] && a[0] == b[0] {
      LexLeTotal(a[1..], b[1..]);
    }
  }

  lemma {:induction false} LexLeTrans(a: string, b: string, c: string)
    requires LexLe(a, b) && LexLe(b, c)
    ensures LexLe(a, c)
  {
    if a != [] && b != [] && c != [] && a[0] == b[0] && b[0] == c[0] {
      LexLeTrans(a[1..], b[1..], c[1..]);
    }
  }

  lemma {:induction false} LexLeAntisymmetric(a: string, b: string)
    requires LexLe(a, b) && LexLe(b, a)
    ensures a == b
  {
    if a != [] && b != [] {
      LexLeAntisymmetric(a[1..], b[1..]);
    }
  }
}
