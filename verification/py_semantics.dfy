/** The two pieces of Python semantics the cropping arithmetic depends on:
    `int()` applied to a float, and half-open slicing `s[lo:hi]` with a step
    of one (numpy's basic slicing follows the same rules on each axis). */
module PySemantics {

  /** `int(x)` for a finite float `x`: the integer part, truncating toward
      zero rather than flooring. The two pairs of bounds pin `n` down. */
  function TruncToZero(x: real): (n: int)
    ensures x >= 0.0 ==> 0 <= n && n as real <= x < n as real + 1.0
    ensures x < 0.0 ==> n <= 0 && n as real - 1.0 < x <= n as real
  {
    if x >= 0.0 then x.Floor else -((-x).Floor)
  }

  /** Any integer within one of `x` on the side of zero is its truncation. */
  lemma TruncToZeroUnique(x: real, n: int)
    requires (x >= 0.0 && 0 <= n && n as real <= x < n as real + 1.0)
          || (x < 0.0 && n <= 0 && n as real - 1.0 < x <= n as real)
    ensures TruncToZero(x) == n
  {
  }

  /** Truncation toward zero is monotone, so it keeps `min <= max`. */
  lemma TruncToZeroMonotone(a: real, b: real)
    requires a <= b
    ensures TruncToZero(a) <= TruncToZero(b)
  {
  }

  /** Truncation toward zero disagrees with flooring exactly on negative
      non-integers, where it rounds up. */
  lemma TruncToZeroVersusFloor(x: real)
    ensures TruncToZero(x) == x.Floor <==> (x >= 0.0 || x.Floor as real == x)
    ensures TruncToZero(x) != x.Floor ==> TruncToZero(x) == x.Floor + 1
  {
  }

  /** Python's reading of a slice index: a negative index counts from the
      end of the sequence. The result may still lie outside `[0, n]`. */
  function Resolve(i: int, n: nat): int
  {
    if i < 0 then i + n else i
  }

  /** Clamps a resolved slice index into `[0, n]`. */
  function Clamp(j: int, n: nat): nat
  {
    if j < 0 then 0 else if j > n then n else j
  }

  /** Where a slice bound `i` of a length-`n` sequence lands after Python's
      resolution and clamping. */
  function SliceIndex(i: int, n: nat): nat
  {
    Clamp(Resolve(i, n), n)
  }

  /** How many items `s[lo:hi]` has when `|s| == n`. */
  function SliceLength(lo: int, hi: int, n: nat): nat
  {
    if SliceIndex(lo, n) < SliceIndex(hi, n) then SliceIndex(hi, n) - SliceIndex(lo, n) else 0
  }

  /** A bound from `-n` to `-1` counts from the end: it lands at `n + i`,
      not at 0. */
  lemma NegativeIndexCountsFromEnd(i: int, n: nat)
    requires i < 0 && 0 <= n + i
    ensures SliceIndex(i, n) == n + i
  {
  }

  /** `s[lo:hi]`. Total: no pair of integer bounds raises an error; bounds
      past the end clamp to `|s|`, negative bounds count from the end and
      then clamp at 0, and a start at or after the stop gives `[]`. */
  function PySlice<T>(s: seq<T>, lo: int, hi: int): (r: seq<T>)
    ensures |r| <= |s|
    ensures SliceIndex(lo, |s|) < SliceIndex(hi, |s|) ==>
              |r| == SliceIndex(hi, |s|) - SliceIndex(lo, |s|)
    ensures SliceIndex(hi, |s|) <= SliceIndex(lo, |s|) ==> r == []
    ensures forall k :: 0 <= k < |r| ==> r[k] == s[SliceIndex(lo, |s|) + k]
  {
    var a, b := SliceIndex(lo, |s|), SliceIndex(hi, |s|);
    if a < b then s[a..b] else []
  }

  /** The items of `s` whose index `k` satisfies `lo <= k < hi`, in index
      order: the Python language reference's definition of a slice once
      negative bounds have been resolved. */
  function Pick<T>(s: seq<T>, lo: int, hi: int): seq<T>
  {
    if |s| == 0 then []
    else Pick(s[..|s| - 1], lo, hi) + (if lo <= |s| - 1 < hi then [s[|s| - 1]] else [])
  }

  lemma {:induction false} PickIsClampedSlice<T>(s: seq<T>, lo: int, hi: int)
    ensures Pick(s, lo, hi) ==
              (if Clamp(lo, |s|) < Clamp(hi, |s|) then s[Clamp(lo, |s|)..Clamp(hi, |s|)] else [])
  {
    if |s| > 0 {
      var n := |s|;
      var p := s[..n - 1];
      PickIsClampedSlice(p, lo, hi);
      var a1, b1 := Clamp(lo, n - 1), Clamp(hi, n - 1);
      var a2, b2 := Clamp(lo, n), Clamp(hi, n);
      if lo <= n - 1 < hi {
        assert a1 == a2 && b1 == n - 1 && b2 == n;
        if a1 < b1 {
          assert p[a1..b1] + [s[n - 1]] == s[a2..b2];
        } else {
          assert [s[n - 1]] == s[a2..b2];
        }
      } else if lo <= n - 1 {
        assert a1 == a2 && b1 == b2;
        if a1 < b1 {
          assert p[a1..b1] == s[a2..b2];
        }
      }
    }
  }

  /** `PySlice` agrees with the index-filter definition of a slice: the
      clamping it does is exactly what selecting the valid indices in
      `[lo', hi')` amounts to. */
  lemma {:induction false} PySliceIsPick<T>(s: seq<T>, lo: int, hi: int)
    ensures PySlice(s, lo, hi) == Pick(s, Resolve(lo, |s|), Resolve(hi, |s|))
  {
    PickIsClampedSlice(s, Resolve(lo, |s|), Resolve(hi, |s|));
  }

  /** In-range bounds need neither resolution nor clamping. */
  lemma PySliceInRange<T>(s: seq<T>, lo: int, hi: int)
    requires 0 <= lo <= hi <= |s|
    ensures PySlice(s, lo, hi) == s[lo..hi]
  {
  }

  /** `piece` occurs in `s` as a contiguous run. */
  ghost predicate IsWindow<T>(piece: seq<T>, s: seq<T>)
  {
    exists k :: 0 <= k <= |s| && piece <= s[k..]
  }

  /** Whatever the bounds, a slice is a contiguous run of the sequence. */
  lemma PySliceIsWindow<T>(s: seq<T>, lo: int, hi: int)
    ensures IsWindow(PySlice(s, lo, hi), s)
  {
    var k := SliceIndex(lo, |s|);
    assert PySlice(s, lo, hi) <= s[k..];
  }
}
