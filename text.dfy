/** The string primitives the chat component relies on: `String.prototype.trim`,
    `toLowerCase` (ASCII only), `includes`, and `Number.prototype.toString`
    for the clock readings it turns into ids. */
module Text {

  /** ECMAScript WhiteSpace and LineTerminator code points: what `trim` strips. */
  predicate IsSpace(c: char) {
    c == '\t' || c == '\n' || c == '\U{000B}' || c == '\U{000C}' || c == '\r' || c == ' '
    || c == '\U{00A0}' || c == '\U{1680}' || ('\U{2000}' <= c <= '\U{200A}')
    || c == '\U{2028}' || c == '\U{2029}' || c == '\U{202F}' || c == '\U{205F}'
    || c == '\U{3000}' || c == '\U{FEFF}'
  }

  /** Every character of `s` from index `a` up to (not including) `b` is whitespace. */
  predicate SpaceBetween(s: string, a: int, b: int) {
    forall i :: a <= i < b ==> 0 <= i < |s| && IsSpace(s[i])
  }

  predicate AllSpace(s: string) {
    SpaceBetween(s, 0, |s|)
  }

  /** The first index at or after `i` that does not hold whitespace (or `|s|`). */
  function SkipSpaces(s: string, i: nat): (j: nat)
    requires i <= |s|
    ensures i <= j <= |s| && SpaceBetween(s, i, j)
    ensures j < |s| ==> !IsSpace(s[j])
    decreases |s| - i
  {
    if i < |s| && IsSpace(s[i]) then SkipSpaces(s, i + 1) else i
  }

  /** Walking back from `j`, but not past `lo`, over whitespace: the index
      just after the last non-whitespace character (or `lo`). */
  function SkipSpacesBack(s: string, lo: nat, j: nat): (k: nat)
    requires lo <= j <= |s|
    ensures lo <= k <= j && SpaceBetween(s, k, j)
    ensures k > lo ==> !IsSpace(s[k - 1])
    decreases j
  {
    if j > lo && IsSpace(s[j - 1]) then SkipSpacesBack(s, lo, j - 1) else j
  }

  /** No whitespace at either end. */
  predicate IsTrimmed(s: string) {
    s != [] ==> !IsSpace(s[0]) && !IsSpace(s[|s| - 1])
  }

  /** `r` is what is left of `s` once the whitespace run `s[..lo]` in front and
      the whitespace run behind `r` are cut off. */
  predicate Padded(s: string, lo: int, r: string) {
    0 <= lo && lo + |r| <= |s| && SpaceBetween(s, 0, lo) && s[lo..lo + |r|] == r
    && SpaceBetween(s, lo + |r|, |s|)
  }

  /** `String.prototype.trim`. */
  function Trim(s: string): (r: string)
    ensures Padded(s, SkipSpaces(s, 0), r)
    ensures IsTrimmed(r)
    ensures r == [] <==> AllSpace(s)
  {
    var lo := SkipSpaces(s, 0);
    var hi := SkipSpacesBack(s, lo, |s|);
    s[lo..hi]
  }

  /** Trimming is exactly cutting a whitespace border: any split of `s` into
      whitespace, a core without whitespace at its ends, and whitespace, has
      that core as its trim. */
  lemma TrimUnique(s: string, lo: int, r: string)
    requires Padded(s, lo, r)
    requires IsTrimmed(r)
    ensures Trim(s) == r
  {
  }

  lemma TrimIdempotent(s: string)
    ensures Trim(Trim(s)) == Trim(s)
  {
  }

  /** ASCII lower-casing of one character. */
  function LowerChar(c: char): char {
    if 'A' <= c <= 'Z' then (c as int + 32) as char else c
  }

  /** `toLowerCase`, restricted to the ASCII letters. */
  function Lower(s: string): (r: string)
    ensures |r| == |s|
    ensures forall i :: 0 <= i < |r| ==> !('A' <= r[i] <= 'Z')
    ensures forall i :: 0 <= i < |s| && !('A' <= s[i] <= 'Z') ==> r[i] == s[i]
    ensures forall i :: 0 <= i < |s| && 'A' <= s[i] <= 'Z' ==> r[i] as int == s[i] as int + 32
  {
    seq(|s|, i requires 0 <= i < |s| => LowerChar(s[i]))
  }

  /** Lower-casing works character by character, so it commutes with taking
      a slice and leaves whitespace alone. */
  lemma LowerSlice(s: string, a: int, b: int)
    requires 0 <= a <= b <= |s|
    ensures Lower(s[a..b]) == Lower(s)[a..b]
    ensures SpaceBetween(s, a, b) ==> SpaceBetween(Lower(s), a, b)
  {
  }

  /** `p` occurs in `s` starting at index `i`. */
  predicate OccursAt(s: string, p: string, i: int) {
    0 <= i && i + |p| <= |s| && s[i..i + |p|] == p
  }

  /** `p` occurs somewhere in `s`. */
  ghost predicate Occurs(s: string, p: string) {
    exists i :: OccursAt(s, p, i)
  }

  /** The search behind `includes`, from index `i` on. */
  function ContainsFrom(s: string, p: string, i: nat): (b: bool)
    ensures b <==> exists j :: i <= j && OccursAt(s, p, j)
    decreases |s| - i
  {
    if i + |p| > |s| then false
    else if s[i..i + |p|] == p then
      assert OccursAt(s, p, i);
      true
    else
      var b := ContainsFrom(s, p, i + 1);
      assert (exists j :: i <= j && OccursAt(s, p, j)) ==> b by {
        if j :| i <= j && OccursAt(s, p, j) {
          assert j != i;
          assert i + 1 <= j && OccursAt(s, p, j);
        }
      }
      b
  }

  /** `String.prototype.includes`. */
  function Contains(s: string, p: string): (b: bool)
    ensures b == Occurs(s, p)
  {
    ContainsFrom(s, p, 0)
  }

  /** A match of a whitespace-free pattern in a string with a whitespace
      border lies inside the part between the borders. */
  lemma OccursInsideBorder(s: string, p: string, lo: int, hi: int, i: int)
    requires 0 <= lo <= hi <= |s|
    requires SpaceBetween(s, 0, lo) && SpaceBetween(s, hi, |s|)
    requires p != [] && forall k :: 0 <= k < |p| ==> !IsSpace(p[k])
    requires OccursAt(s, p, i)
    ensures OccursAt(s[lo..hi], p, i - lo)
  {
    assert s[i] == s[i..i + |p|][0] == p[0];
    assert !IsSpace(p[0]);
    assert lo <= i;
    var e := i + |p| - 1;
    assert s[e] == s[i..i + |p|][|p| - 1] == p[|p| - 1];
    assert !IsSpace(p[|p| - 1]);
    assert e < hi;
    var w := s[lo..hi];
    var a, b := w[i - lo..i - lo + |p|], s[i..i + |p|];
    assert forall k :: 0 <= k < |p| ==> a[k] == b[k];
    assert a == b;
  }

  /** Searching a string with a whitespace border for a whitespace-free
      pattern gives the same answer as searching the part inside the border. */
  lemma ContainsIgnoresBorder(s: string, p: string, lo: int, hi: int)
    requires 0 <= lo <= hi <= |s|
    requires SpaceBetween(s, 0, lo) && SpaceBetween(s, hi, |s|)
    requires forall k :: 0 <= k < |p| ==> !IsSpace(p[k])
    ensures Occurs(s, p) == Occurs(s[lo..hi], p)
  {
    var w := s[lo..hi];
    if i :| OccursAt(s, p, i) {
      if p == [] {
        assert OccursAt(w, p, 0);
      } else {
        OccursInsideBorder(s, p, lo, hi, i);
      }
    }
    if j :| OccursAt(w, p, j) {
      var a, b := s[lo + j..lo + j + |p|], w[j..j + |p|];
      assert forall k :: 0 <= k < |p| ==> a[k] == b[k];
      assert a == b;
      assert OccursAt(s, p, lo + j);
    }
  }

  /** Lower-casing `s` keeps the whitespace border that `trim` cuts off, and
      the lower-cased trim is what lies inside it. */
  lemma LowerTrimBorder(s: string) returns (lo: int, hi: int)
    ensures 0 <= lo <= hi <= |s|
    ensures SpaceBetween(Lower(s), 0, lo) && SpaceBetween(Lower(s), hi, |s|)
    ensures Lower(Trim(s)) == Lower(s)[lo..hi]
  {
    lo := SkipSpaces(s, 0);
    hi := lo + |Trim(s)|;
    LowerSlice(s, 0, lo);
    LowerSlice(s, lo, hi);
    LowerSlice(s, hi, |s|);
  }

  /** Lower-casing and then searching for a pattern that holds no whitespace
      gives the same answer on `s` and on `Trim(s)`: the border that `trim`
      cuts off can take no part in a match. */
  lemma ContainsLowerIgnoresPadding(s: string, p: string)
    requires forall i :: 0 <= i < |p| ==> !IsSpace(p[i])
    ensures Contains(Lower(s), p) == Contains(Lower(Trim(s)), p)
  {
    var lo, hi := LowerTrimBorder(s);
    ContainsIgnoresBorder(Lower(s), p, lo, hi);
  }

  function DigitChar(d: nat): (c: char)
    requires d < 10
    ensures '0' <= c <= '9'
  {
    (d + '0' as int) as char
  }

  predicate IsDigits(s: string) {
    forall i :: 0 <= i < |s| ==> '0' <= s[i] <= '9'
  }

  /** The number a string of decimal digits denotes. */
  function DecimalValue(s: string): nat
    requires IsDigits(s)
  {
    if s == [] then 0 else DecimalValue(s[..|s| - 1]) * 10 + (s[|s| - 1] as int - '0' as int)
  }

  /** `Number.prototype.toString` on a non-negative integer: its decimal
      digits, without leading zeros. */
  function NatToDecimal(n: nat): (s: string)
    ensures s != [] && IsDigits(s)
    ensures |s| > 1 ==> s[0] != '0'
  {
    if n < 10 then [DigitChar(n)] else NatToDecimal(n / 10) + [DigitChar(n % 10)]
  }

  lemma {:induction false} DecimalRoundTrip(n: nat)
    ensures DecimalValue(NatToDecimal(n)) == n
  {
    var s := NatToDecimal(n);
    if n >= 10 {
      DecimalRoundTrip(n / 10);
      assert s[..|s| - 1] == NatToDecimal(n / 10);
    }
  }

  /** Two clock readings give the same id exactly when they are equal. */
  lemma DecimalInjective(n: nat, m: nat)
    ensures NatToDecimal(n) == NatToDecimal(m) <==> n == m
  {
    DecimalRoundTrip(n);
    DecimalRoundTrip(m);
  }
}
