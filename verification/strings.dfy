/** Character classes and string primitives with Python's semantics:
    `str.isspace`, `str.lower`, `startswith`/`endswith`, `find`/`rfind`,
    `strip`, `replace(p, "")`, and decimal rendering of naturals. */
module Strings {
  import opened Wrappers

  /** Python's `str.isspace()` for a single character. */
  predicate IsSpace(c: char)
  {
    || c == ' '
    || ('\t' <= c <= '\r')
    || ('\U{1C}' <= c <= '\U{1F}')
    || c == '\U{85}' || c == '\U{A0}' || c == '\U{1680}'
    || ('\U{2000}' <= c <= '\U{200A}')
    || c == '\U{2028}' || c == '\U{2029}' || c == '\U{202F}'
    || c == '\U{205F}' || c == '\U{3000}'
  }

  predicate AllSpace(s: string)
  {
    forall i :: 0 <= i < |s| ==> IsSpace(s[i])
  }

  /** Neither end of `s` is whitespace: the fixed points of `Strip`. */
  predicate Trimmed(s: string)
  {
    |s| == 0 || (!IsSpace(s[0]) && !IsSpace(s[|s| - 1]))
  }

  /** Python's `str.lower()` on one character, for the ASCII and Latin-1
      upper-case letters (the only ones the pipeline's text needs). */
  function Lower(c: char): char
  {
    if 'A' <= c <= 'Z' || ('\U{C0}' <= c <= '\U{DE}' && c != '\U{D7}')
    then (c as int + 32) as char
    else c
  }

  function LowerStr(s: string): (r: string)
    ensures |r| == |s|
    ensures forall i :: 0 <= i < |s| ==> r[i] == Lower(s[i])
  {
    seq(|s|, i requires 0 <= i < |s| => Lower(s[i]))
  }

  predicate StartsWith(s: string, p: string)
  {
    |p| <= |s| && s[..|p|] == p
  }

  predicate EndsWith(s: string, p: string)
  {
    |p| <= |s| && s[|s| - |p|..] == p
  }

  /** `p` occurs in `s` starting at index `i`. */
  predicate OccursAt(s: string, p: string, i: nat)
  {
    i + |p| <= |s| && s[i..i + |p|] == p
  }

  /** A one-character pattern occurs exactly where that character is. */
  lemma SingleCharOccurs(s: string, c: char)
    ensures forall j: nat :: OccursAt(s, [c], j) <==> j < |s| && s[j] == c
  {
    forall j: nat | j < |s| ensures OccursAt(s, [c], j) <==> s[j] == c {
      assert s[j..j + 1] == [s[j]];
    }
  }

  /** Equality up to `Lower`, as a case-insensitive regular expression
      compares literal characters. */
  predicate CaseEq(a: string, b: string)
  {
    |a| == |b| && forall i :: 0 <= i < |a| ==> Lower(a[i]) == Lower(b[i])
  }

  predicate StartsWithCI(s: string, p: string)
  {
    |p| <= |s| && CaseEq(s[..|p|], p)
  }

  predicate OccursAtCI(s: string, p: string, i: nat)
  {
    i + |p| <= |s| && CaseEq(s[i..i + |p|], p)
  }

  function FindFrom(s: string, p: string, k: nat): (r: Option<nat>)
    decreases |s| - k
    ensures r.Some? ==> k <= r.value && OccursAt(s, p, r.value)
    ensures r.Some? ==> forall j: nat :: k <= j < r.value ==> !OccursAt(s, p, j)
    ensures r.None? ==> forall j: nat :: k <= j ==> !OccursAt(s, p, j)
  {
    if k + |p| > |s| then None
    else if OccursAt(s, p, k) then Some(k)
    else FindFrom(s, p, k + 1)
  }

  /** Python's `s.find(p)`, with -1 as `None`: the leftmost occurrence. */
  function Find(s: string, p: string): (r: Option<nat>)
    ensures r.Some? ==> OccursAt(s, p, r.value)
    ensures r.Some? ==> forall j: nat :: j < r.value ==> !OccursAt(s, p, j)
    ensures r.None? ==> forall j: nat :: !OccursAt(s, p, j)
  {
    FindFrom(s, p, 0)
  }

  function FindCIFrom(s: string, p: string, k: nat): (r: Option<nat>)
    decreases |s| - k
    ensures r.Some? ==> k <= r.value && OccursAtCI(s, p, r.value)
    ensures r.Some? ==> forall j: nat :: k <= j < r.value ==> !OccursAtCI(s, p, j)
    ensures r.None? ==> forall j: nat :: k <= j ==> !OccursAtCI(s, p, j)
  {
    if k + |p| > |s| then None
    else if OccursAtCI(s, p, k) then Some(k)
    else FindCIFrom(s, p, k + 1)
  }

  /** The leftmost case-insensitive occurrence of `p` in `s`. */
  function FindCI(s: string, p: string): (r: Option<nat>)
    ensures r.Some? ==> OccursAtCI(s, p, r.value)
    ensures r.Some? ==> forall j: nat :: j < r.value ==> !OccursAtCI(s, p, j)
    ensures r.None? ==> forall j: nat :: !OccursAtCI(s, p, j)
  {
    FindCIFrom(s, p, 0)
  }

  function RFindAtMost(s: string, p: string, k: nat): (r: Option<nat>)
    ensures r.Some? ==> r.value <= k && OccursAt(s, p, r.value)
    ensures r.Some? ==> forall j: nat :: r.value < j <= k ==> !OccursAt(s, p, j)
    ensures r.None? ==> forall j: nat :: j <= k ==> !OccursAt(s, p, j)
  {
    if OccursAt(s, p, k) then Some(k)
    else if k == 0 then None
    else RFindAtMost(s, p, k - 1)
  }

  /** Python's `s.rfind(p)`, with -1 as `None`: the rightmost occurrence. */
  function RFind(s: string, p: string): (r: Option<nat>)
    ensures r.Some? ==> OccursAt(s, p, r.value)
    ensures r.Some? ==> forall j: nat :: r.value < j ==> !OccursAt(s, p, j)
    ensures r.None? ==> forall j: nat :: !OccursAt(s, p, j)
  {
    if |p| > |s| then None else RFindAtMost(s, p, |s| - |p|)
  }

  /** Number of leading whitespace characters. */
  function LeadingSpaces(s: string): (n: nat)
    ensures n <= |s| && AllSpace(s[..n])
    ensures n < |s| ==> !IsSpace(s[n])
  {
    if |s| > 0 && IsSpace(s[0]) then
      var n := 1 + LeadingSpaces(s[1..]);
      assert forall i :: 1 <= i < n ==> s[..n][i] == s[1..][..n - 1][i - 1];
      n
    else 0
  }

  function TrimEnd(s: string): (r: string)
    ensures |r| <= |s| && r == s[..|r|]
    ensures AllSpace(s[|r|..])
    ensures |r| > 0 ==> !IsSpace(r[|r| - 1])
  {
    if |s| > 0 && IsSpace(s[|s| - 1]) then
      var r := TrimEnd(s[..|s| - 1]);
      assert s[|r|..] == s[..|s| - 1][|r|..] + [s[|s| - 1]];
      r
    else s
  }

  /** Python's `s.strip()`: the result has no whitespace at either end,
      and a string without whitespace at its ends is left alone. */
  function Strip(s: string): (r: string)
    ensures Trimmed(r)
    ensures Trimmed(s) ==> r == s
    ensures |r| <= |s|
  {
    var a := LeadingSpaces(s);
    var r := TrimEnd(s[a..]);
    if |r| > 0 then
      assert r[0] == s[a];
      r
    else r
  }

  /** `s` is the result of `Strip` framed by whitespace on both sides. */
  lemma StripFrame(s: string)
    ensures var r := Strip(s); var a := LeadingSpaces(s);
      && a + |r| <= |s| && s[a..a + |r|] == r
      && AllSpace(s[..a]) && AllSpace(s[a + |r|..])
  {
    var a := LeadingSpaces(s);
    var t := s[a..];
    var r := TrimEnd(t);
    assert Strip(s) == r;
    assert t[..|r|] == s[a..a + |r|];
    assert s[a + |r|..] == t[|r|..];
  }

  /** `Strip` is idempotent. */
  lemma StripIdempotent(s: string)
    ensures Strip(Strip(s)) == Strip(s)
  {
  }

  /** Python's `s.replace(p, "")`: one left-to-right pass deleting the
      non-overlapping occurrences of `p` (an empty `p` changes nothing). */
  function RemoveAll(s: string, p: string): (r: string)
    decreases |s|
    ensures |r| <= |s|
    ensures (forall j: nat :: !OccursAt(s, p, j)) ==> r == s
  {
    if |p| == 0 || |s| < |p| then s
    else if OccursAt(s, p, 0) then RemoveAll(s[|p|..], p)
    else
      ShiftOccurrences(s, p);
      [s[0]] + RemoveAll(s[1..], p)
  }

  lemma ShiftOccurrences(s: string, p: string)
    requires |s| > 0
    ensures forall j: nat :: OccursAt(s[1..], p, j) ==> OccursAt(s, p, j + 1)
  {
    forall j: nat | OccursAt(s[1..], p, j) ensures OccursAt(s, p, j + 1) {
      assert s[j + 1..j + 1 + |p|] == s[1..][j..j + |p|];
    }
  }

  /** Removing occurrences adds no character: every character of the
      result is one of `s`. */
  lemma {:induction false} RemoveAllChars(s: string, p: string, c: char)
    requires c !in s
    ensures c !in RemoveAll(s, p)
    decreases |s|
  {
    if |p| > 0 && |s| >= |p| {
      assert forall i :: 0 <= i < |s| - |p| ==> s[|p|..][i] == s[|p| + i];
      assert forall i :: 0 <= i < |s| - 1 ==> s[1..][i] == s[1 + i];
      if OccursAt(s, p, 0) {
        RemoveAllChars(s[|p|..], p, c);
      } else {
        RemoveAllChars(s[1..], p, c);
      }
    }
  }

  /** Removing `p` from `x + p` leaves `x` when no occurrence of `p` in
      `x + p` starts inside `x`. */
  lemma {:induction false} RemoveAllTail(x: string, p: string)
    requires |p| > 0
    requires forall j: nat :: j < |x| ==> !OccursAt(x + p, p, j)
    ensures RemoveAll(x + p, p) == x
    decreases |x|
  {
    var s := x + p;
    if |x| == 0 {
      assert s == p;
      assert OccursAt(s, p, 0);
      assert s[|p|..] == [];
    } else {
      assert !OccursAt(s, p, 0);
      assert s[1..] == x[1..] + p;
      forall j: nat | j < |x[1..]|
        ensures !OccursAt(x[1..] + p, p, j)
      {
        assert !OccursAt(s, p, j + 1);
        ShiftOccurrences(s, p);
      }
      RemoveAllTail(x[1..], p);
      assert [x[0]] + x[1..] == x;
    }
  }

  function DigitChar(d: nat): (c: char)
    requires d < 10
    ensures '0' <= c <= '9'
  {
    ('0' as int + d) as char
  }

  function DigitValue(c: char): nat
  {
    if '0' <= c <= '9' then c as int - '0' as int else 0
  }

  predicate AllDigits(s: string)
  {
    forall i :: 0 <= i < |s| ==> '0' <= s[i] <= '9'
  }

  /** The number a string of decimal digits denotes. */
  function DigitsValue(s: string): nat
  {
    if |s| == 0 then 0 else 10 * DigitsValue(s[..|s| - 1]) + DigitValue(s[|s| - 1])
  }

  /** Python's `str(n)` for a natural number. */
  function Decimal(n: nat): (r: string)
    ensures |r| > 0 && AllDigits(r)
    ensures DigitsValue(r) == n
  {
    if n < 10 then [DigitChar(n)]
    else
      var r := Decimal(n / 10) + [DigitChar(n % 10)];
      assert r[..|r| - 1] == Decimal(n / 10);
      r
  }

  function Pow10(w: nat): (p: nat)
    ensures p >= 1
  {
    if w == 0 then 1 else 10 * Pow10(w - 1)
  }

  /** `n` in decimal, zero-padded on the left to exactly `width` digits
      (as `%04d` / `%02d` format a field that fits). */
  function Pad(n: nat, width: nat): (r: string)
    requires n < Pow10(width)
    ensures |r| == width && AllDigits(r)
    ensures DigitsValue(r) == n
  {
    if width == 0 then ""
    else
      var r := Pad(n / 10, width - 1) + [DigitChar(n % 10)];
      assert r[..|r| - 1] == Pad(n / 10, width - 1);
      r
  }
}
