/**
 * One attempt of the sampler: split a 63-bit random value into a slot draw
 * and a threshold draw, reject either when it is above its bound, resolve
 * the slot against its threshold, and reject the padding index.
 */
module Sampling {
  import opened LittleEndian
  import opened Slots
  import opened Wrappers

  /** A value of the random source: a non-negative 63-bit integer. */
  type Int63 = r: int | 0 <= r < 0x8000_0000_0000_0000

  /**
   * The slot draw `r & (2^31-1)` and the threshold draw `(r >> 31) & (2^31-1)`;
   * on a non-negative value the mask is the remainder by 2^31 and the shift
   * the quotient by 2^31. Together they are the low 62 bits of `r`.
   */
  function Split(r: Int63): (d: (int, int))
    ensures 0 <= d.0 < Bit31 && 0 <= d.1 < Bit31
    ensures r % (Bit31 * Bit31) == d.0 + Bit31 * d.1
  {
    var lo, hi := r % Bit31, r / Bit31;
    DivModUnique(r % (Bit31 * Bit31), Bit31, (r / Bit31) % Bit31, lo);
    (lo, hi % Bit31)
  }

  /** The index a draw lands on: slot `w` itself when the threshold draw `x`
      is at most the slot's threshold, its alias otherwise. */
  function Resolve(s: seq<Piece>, w: nat, x: int): (v: U32)
    requires w < |s| < 0x1_0000_0000
    ensures v == w || v == s[w].alias
    ensures v == w <== x <= s[w].prob
    ensures v == s[w].alias <== x > s[w].prob
  {
    if x > s[w].prob then s[w].alias else w
  }

  /** Both draws pass the rejection bounds. */
  predicate Accepted(t: Table, r: Int63)
  {
    Split(r).0 <= t.maxRi && Split(r).1 <= t.maxRj
  }

  /**
   * One attempt on the random value `r`: None means the source draws again
   * (a draw above a bound, or the padding index).
   */
  function Attempt(t: Table, r: Int63): (w: Option<U32>)
    requires 1 <= |t.pieces| < 0x1_0000_0000 && t.avgP >= 1
    ensures !Accepted(t, r) ==> w == None
    ensures Accepted(t, r) ==>
      var v := Resolve(t.pieces, Split(r).0 % |t.pieces|, Split(r).1 % t.avgP);
      w == if v == t.dummy then None else Some(v)
    ensures w.Some? ==> w.value != t.dummy
    ensures w.Some? && (forall i :: 0 <= i < |t.pieces| ==> t.pieces[i].alias < |t.pieces|) ==>
      w.value < |t.pieces|
  {
    var (ri, rj) := Split(r);
    if ri > t.maxRi || rj > t.maxRj then None
    else
      var w := ri % |t.pieces|;
      var x := rj % t.avgP;
      var v := if x > t.pieces[w].prob then t.pieces[w].alias else w;
      if v == t.dummy then None else Some(v)
  }

  /**
   * The share of slot `w` that resolves to index `j`: every threshold draw
   * keeps `w` when `j == w` (`prob + 1` of them), every other draw goes to
   * the alias (`avgP - 1 - prob` of them).
   */
  function SlotMass(s: seq<Piece>, w: nat, avgP: int, j: int): int
    requires w < |s|
  {
    (if w == j then s[w].prob + 1 else 0) + (if s[w].alias == j then avgP - 1 - s[w].prob else 0)
  }

  /** The number of threshold draws `x < m` for which slot `w` resolves to `j`. */
  function ThresholdHits(s: seq<Piece>, w: nat, m: nat, j: int): nat
    requires w < |s| < 0x1_0000_0000
  {
    if m == 0 then 0 else ThresholdHits(s, w, m - 1, j) + (if Resolve(s, w, m - 1) == j then 1 else 0)
  }

  /** Counting the threshold draws of one slot gives its mass. */
  lemma {:induction false} ThresholdHitsMass(s: seq<Piece>, w: nat, avgP: nat, j: int)
    requires w < |s| < 0x1_0000_0000 && s[w].prob < avgP
    ensures ThresholdHits(s, w, avgP, j) == SlotMass(s, w, avgP, j)
  {
    ThresholdHitsPrefix(s, w, avgP, j);
  }

  lemma {:induction false} ThresholdHitsPrefix(s: seq<Piece>, w: nat, m: nat, j: int)
    requires w < |s| < 0x1_0000_0000
    ensures ThresholdHits(s, w, m, j) ==
      (if w == j then (if m <= s[w].prob + 1 then m else s[w].prob + 1) else 0) +
      (if s[w].alias == j && m > s[w].prob + 1 then m - 1 - s[w].prob else 0)
  {
    if m > 0 {
      ThresholdHitsPrefix(s, w, m - 1, j);
    }
  }
}

/**
 * Counting argument for the distribution of one accepted attempt: every
 * pair of accepted draws is equally likely, and the number of pairs that
 * resolve to an index is proportional to that index's mass in the table.
 */
module Distribution {
  import opened LittleEndian
  import opened Slots
  import opened Sampling

  /** The mass of index `j` in the first `m` slots. */
  function MassUpTo(s: seq<Piece>, m: nat, avgP: int, j: int): int
    requires m <= |s|
  {
    if m == 0 then 0 else MassUpTo(s, m - 1, avgP, j) + SlotMass(s, m - 1, avgP, j)
  }

  /** The mass of index `j` in the whole table: the number of (slot,
      threshold) pairs that resolve to `j`. */
  function Mass(s: seq<Piece>, avgP: int, j: int): int
  {
    MassUpTo(s, |s|, avgP, j)
  }

  /** The number of threshold draws `rj < b` that resolve slot `w` to `j`. */
  function RowHits(t: Table, w: nat, b: nat, j: int): nat
    requires w < |t.pieces| < 0x1_0000_0000 && t.avgP >= 1
  {
    if b == 0 then 0
    else RowHits(t, w, b - 1, j) + (if Resolve(t.pieces, w, (b - 1) % t.avgP) == j then 1 else 0)
  }

  /** The number of draw pairs `(ri, rj)` with `ri < a` and `rj < b` that
      resolve to `j`, the slot being `ri % |t.pieces|`. */
  function PairHits(t: Table, a: nat, b: nat, j: int): nat
    requires 1 <= |t.pieces| < 0x1_0000_0000 && t.avgP >= 1
  {
    if a == 0 then 0 else PairHits(t, a - 1, b, j) + RowHits(t, (a - 1) % |t.pieces|, b, j)
  }

  /** The row counts of the first `y` slots. */
  function RowSum(t: Table, y: nat, b: nat, j: int): nat
    requires y <= |t.pieces| < 0x1_0000_0000 && t.avgP >= 1
  {
    if y == 0 then 0 else RowSum(t, y - 1, b, j) + RowHits(t, y - 1, b, j)
  }

  /** Past a multiple of `n`, the remainder restarts from zero. */
  lemma ModAfterMultiple(base: nat, n: nat, k: nat)
    requires 1 <= n && base % n == 0 && k < n
    ensures (base + k) % n == k
  {
    DivModUnique(base + k, n, base / n, k);
  }

  /** One more period: the quotient by `n` grows by one. */
  lemma QuotientStep(b: nat, n: nat)
    requires 1 <= n && 0 < b && b % n == 0
    ensures n <= b && (b - n) % n == 0 && (b - n) / n == b / n - 1
  {
    var q := b / n;
    assert b == n * q;
    DivModUnique(b - n, n, q - 1, 0);
  }

  lemma {:induction false} RowHitsBlock(t: Table, w: nat, base: nat, x: nat, j: int)
    requires w < |t.pieces| < 0x1_0000_0000 && 1 <= t.avgP && x <= t.avgP && base % t.avgP == 0
    ensures RowHits(t, w, base + x, j) == RowHits(t, w, base, j) + ThresholdHits(t.pieces, w, x, j)
  {
    if x > 0 {
      RowHitsBlock(t, w, base, x - 1, j);
      ModAfterMultiple(base, t.avgP, x - 1);
    }
  }

  /** A whole number of periods of the threshold draw counts each threshold
      once per period. */
  lemma {:induction false} RowHitsPeriods(t: Table, w: nat, b: nat, j: int)
    requires w < |t.pieces| < 0x1_0000_0000 && 1 <= t.avgP && b % t.avgP == 0
    requires t.pieces[w].prob < t.avgP
    ensures RowHits(t, w, b, j) == (b / t.avgP) * SlotMass(t.pieces, w, t.avgP, j)
    decreases b
  {
    if b > 0 {
      var a := t.avgP;
      QuotientStep(b, a);
      RowHitsPeriods(t, w, b - a, j);
      RowHitsBlock(t, w, b - a, a, j);
      ThresholdHitsMass(t.pieces, w, a, j);
      PeriodStep(RowHits(t, w, b, j), RowHits(t, w, b - a, j), SlotMass(t.pieces, w, a, j), b / a);
    }
  }

  /** Summing the rows of the first `y` slots gives their mass, once per period. */
  lemma {:induction false} RowSumMass(t: Table, y: nat, b: nat, j: int)
    requires y <= |t.pieces| < 0x1_0000_0000 && 1 <= t.avgP && b % t.avgP == 0
    requires forall w :: 0 <= w < |t.pieces| ==> t.pieces[w].prob < t.avgP
    ensures RowSum(t, y, b, j) == (b / t.avgP) * MassUpTo(t.pieces, y, t.avgP, j)
  {
    if y > 0 {
      RowSumMass(t, y - 1, b, j);
      RowHitsPeriods(t, y - 1, b, j);
      Distribute(b / t.avgP, MassUpTo(t.pieces, y - 1, t.avgP, j), SlotMass(t.pieces, y - 1, t.avgP, j));
    }
  }

  lemma {:induction false} PairHitsBlock(t: Table, base: nat, y: nat, b: nat, j: int)
    requires 1 <= |t.pieces| < 0x1_0000_0000 && y <= |t.pieces| && 1 <= t.avgP && base % |t.pieces| == 0
    ensures PairHits(t, base + y, b, j) == PairHits(t, base, b, j) + RowSum(t, y, b, j)
  {
    if y > 0 {
      PairHitsBlock(t, base, y - 1, b, j);
      ModAfterMultiple(base, |t.pieces|, y - 1);
    }
  }

  /** A whole number of periods of the slot draw counts each slot once per period. */
  lemma {:induction false} PairHitsPeriods(t: Table, a: nat, b: nat, j: int)
    requires 1 <= |t.pieces| < 0x1_0000_0000 && 1 <= t.avgP && a % |t.pieces| == 0
    ensures PairHits(t, a, b, j) == (a / |t.pieces|) * RowSum(t, |t.pieces|, b, j)
    decreases a
  {
    if a > 0 {
      var m := |t.pieces|;
      QuotientStep(a, m);
      PairHitsPeriods(t, a - m, b, j);
      PairHitsBlock(t, a - m, m, b, j);
      PeriodStep(PairHits(t, a, b, j), PairHits(t, a - m, b, j), RowSum(t, m, b, j), a / m);
    }
  }

  /** `a * q` is `a * (q - 1)` plus one more `a`. */
  lemma MulSucc(a: int, q: int)
    ensures q * a == (q - 1) * a + a
  {
  }

  /** One more period adds one more `r`. */
  lemma PeriodStep(x: int, prev: int, r: int, q: int)
    requires x == prev + r && prev == (q - 1) * r
    ensures x == q * r
  {
    MulSucc(r, q);
  }

  lemma Distribute(q: int, x: int, y: int)
    ensures q * x + q * y == q * (x + y)
  {
  }

  /**
   * In a well-formed table of at most 2^31 slots, among the draw pairs that
   * pass both rejection bounds, the number that resolve to index `j` is the
   * same multiple of `j`'s mass for every `j`; so an accepted attempt
   * yields `j` with probability proportional to `Mass(..., j)`.
   */
  lemma AcceptedPairsProportional(t: Table, j: int)
    requires WellFormed(t) && |t.pieces| <= Bit31
    ensures PairHits(t, t.maxRi + 1, t.maxRj + 1, j)
         == ((t.maxRi + 1) / |t.pieces|) * (((t.maxRj + 1) / t.avgP) * Mass(t.pieces, t.avgP, j))
  {
    PairHitsPeriods(t, t.maxRi + 1, t.maxRj + 1, j);
    RowSumMass(t, |t.pieces|, t.maxRj + 1, j);
  }
}
