/**
 * The few Python string operations the client relies on: `sub in s`, `s.find(sub)`,
 * `s.rfind(sub)` for one character, `s[a:b]` with Python's index rules, and `str(n)`.
 */
module PyStr {

  /** `sub` occurs in `s` starting at position i. */
  predicate OccursAt(s: string, sub: string, i: nat)
  {
    i + |sub| <= |s| && s[i..i + |sub|] == sub
  }

  /** The first position at or after `from` where `sub` occurs, or -1. */
  function FindFrom(s: string, sub: string, from: nat): (r: int)
    requires from <= |s|
    ensures r == -1 || (from <= r <= |s| && OccursAt(s, sub, r))
    ensures r == -1 ==> forall i | from <= i <= |s| :: !OccursAt(s, sub, i)
    ensures r != -1 ==> forall i | from <= i < r :: !OccursAt(s, sub, i)
    decreases |s| - from
  {
    if OccursAt(s, sub, from) then from
    else if from == |s| then -1
    else FindFrom(s, sub, from + 1)
  }

  /** `s.find(sub)`: the first position where `sub` occurs, or -1. */
  function Find(s: string, sub: string): int
  {
    FindFrom(s, sub, 0)
  }

  /** `sub in s`. */
  predicate Contains(s: string, sub: string)
  {
    Find(s, sub) != -1
  }

  /** `s.rfind(c)` for a single character: the last position of `c`, or -1. */
  function RFindChar(s: string, c: char): (r: int)
    ensures r == -1 || (0 <= r < |s| && s[r] == c)
    ensures forall i | r < i < |s| :: s[i] != c
  {
    if s == [] then -1
    else if s[|s| - 1] == c then |s| - 1
    else RFindChar(s[..|s| - 1], c)
  }

  /** A slice bound as Python reads it: negative counts from the end, then clamped. */
  function Bound(n: int, i: int): (r: nat)
    ensures r <= n || n < 0
  {
    var j := if i < 0 then i + n else i;
    if j < 0 then 0 else if j > n && n >= 0 then n else j
  }

  /** `s[a:b]`. */
  function Slice(s: string, a: int, b: int): (r: string)
    ensures |r| <= |s|
  {
    var i, j := Bound(|s|, a), Bound(|s|, b);
    if i < j then s[i..j] else ""
  }

  /** A decimal digit. */
  predicate IsDigit(c: char)
  {
    '0' <= c <= '9'
  }

  /** `str(n)` for a non-negative integer. */
  function Decimal(n: nat): (r: string)
    ensures |r| >= 1
    ensures forall i | 0 <= i < |r| :: IsDigit(r[i])
  {
    var d := ('0' as int + n % 10) as char;
    if n < 10 then [d] else Decimal(n / 10) + [d]
  }

  /** Reading the digits back gives the number. */
  function DigitsValue(s: string): nat
    requires forall i | 0 <= i < |s| :: IsDigit(s[i])
  {
    if s == [] then 0
    else
      assert IsDigit(s[|s| - 1]);
      10 * DigitsValue(s[..|s| - 1]) + (s[|s| - 1] as int - '0' as int)
  }

  /** `str(n)` loses nothing: its digits spell n. */
  lemma {:induction false} DecimalValue(n: nat)
    ensures DigitsValue(Decimal(n)) == n
  {
    if n >= 10 {
      DecimalValue(n / 10);
      var r := Decimal(n);
      assert r[..|r| - 1] == Decimal(n / 10);
    }
  }

  /** Slicing between two positions inside the string takes exactly those characters. */
  lemma SliceInside(s: string, a: nat, b: nat)
    requires a <= b <= |s|
    ensures Slice(s, a, b) == s[a..b]
  {
  }
}
