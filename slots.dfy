/**
 * The slots of an alias table, the value of a whole table, the rejection
 * bound used to reduce random values without bias, and the well-formedness
 * that the sampler and the binary format rely on.
 */
module Slots {
  import opened LittleEndian

  /** 1 << 31: the number of distinct 31-bit random values. */
  const Bit31: int := 0x8000_0000

  /** One slot: keep this slot's own index when the threshold draw is at most
      `prob`, otherwise redirect to `alias`. */
  datatype Piece = Piece(prob: U32, alias: U32)

  /** The fields of an alias table: the slots, the two rejection bounds,
      the unit `avgP` that `prob` is measured against, and the padding index. */
  datatype Table = Table(pieces: seq<Piece>, maxRi: U32, maxRj: U32, avgP: U32, dummy: U32)

  /**
   * The largest 31-bit value that may be reduced modulo `n` without bias,
   * computed in 32-bit unsigned arithmetic. Zero is a division by zero.
   * Up to 2^31, one more than the bound is the largest multiple of `n` that
   * does not exceed 2^31; above 2^31 the subtraction wraps around.
   */
  function CalcMax(n: U32): (r: U32)
    requires n >= 1
    ensures n <= Bit31 ==> (r + 1) % n == 0 && r + 1 <= Bit31 && Bit31 < r + 1 + n
    ensures n > Bit31 ==> r == 0xFFFF_FFFF
  {
    CalcMaxFacts(n);
    (Bit31 - 1 - Bit31 % n) % 0x1_0000_0000
  }

  /** The arithmetic behind CalcMax: the remainder of 2^31 by `n`, and the
      32-bit wrap-around of the subtraction. */
  lemma CalcMaxFacts(n: int)
    requires 1 <= n < 0x1_0000_0000
    ensures n <= Bit31 ==> 0 <= Bit31 - 1 - Bit31 % n < Bit31
    ensures n <= Bit31 ==> (Bit31 - 1 - Bit31 % n) % 0x1_0000_0000 == Bit31 - 1 - Bit31 % n
    ensures n <= Bit31 ==> (Bit31 - Bit31 % n) % n == 0 && Bit31 < Bit31 - Bit31 % n + n
    ensures n > Bit31 ==> (Bit31 - 1 - Bit31 % n) % 0x1_0000_0000 == 0xFFFF_FFFF
  {
    var q, rem := Bit31 / n, Bit31 % n;
    if n <= Bit31 {
      DivModUnique(Bit31 - rem, n, q, 0);
      DivModUnique(Bit31 - 1 - rem, 0x1_0000_0000, 0, Bit31 - 1 - rem);
    } else {
      DivModUnique(Bit31, n, 0, Bit31);
      DivModUnique(-1, 0x1_0000_0000, -1, 0xFFFF_FFFF);
    }
  }

  /** The number of values `v` with `0 <= v < m` and `v % n == k`. */
  function Hits(m: nat, n: nat, k: nat): nat
    requires n >= 1
  {
    if m == 0 then 0 else Hits(m - 1, n, k) + (if (m - 1) % n == k then 1 else 0)
  }

  lemma MulAtLeast(n: int, d: int)
    requires n >= 0 && d >= 1
    ensures n * d >= n
  {
    assert n * d == n * (d - 1) + n;
  }

  /** Quotient and remainder are unique. */
  lemma DivModUnique(x: int, n: int, q: int, r: int)
    requires n >= 1 && 0 <= r < n && x == n * q + r
    ensures x / n == q && x % n == r
  {
    var q', r' := x / n, x % n;
    assert n * (q - q') == r' - r;
    if q > q' { MulAtLeast(n, q - q'); }
    if q < q' { MulAtLeast(n, q' - q); }
  }

  /** Within one block of `n` values starting at a multiple of `n`, residue
      `k` occurs once, at offset `k`. */
  lemma {:induction false} HitsInBlock(c: nat, j: nat, n: nat, k: nat)
    requires 1 <= n && j <= n
    ensures Hits(n * c + j, n, k) == Hits(n * c, n, k) + (if k < j then 1 else 0)
  {
    if j > 0 {
      HitsInBlock(c, j - 1, n, k);
      DivModUnique(n * c + j - 1, n, c, j - 1);
    }
  }

  /** Among `0 .. q*n-1`, every residue modulo `n` occurs exactly `q` times. */
  lemma {:induction false} UniformResidues(q: nat, n: nat, k: nat)
    requires 1 <= n && k < n
    ensures Hits(n * q, n, k) == q
  {
    if q > 0 {
      UniformResidues(q - 1, n, k);
      HitsInBlock(q - 1, n, n, k);
      assert n * (q - 1) + n == n * q;
    }
  }

  /**
   * Reducing a value accepted by the rejection bound (`0 <= v <= CalcMax(n)`)
   * modulo `n` gives every residue equally often.
   */
  lemma CalcMaxUnbiased(n: U32, k: nat)
    requires 1 <= n <= Bit31 && k < n
    ensures Hits(CalcMax(n) + 1, n, k) == (CalcMax(n) + 1) / n
  {
    var q := (CalcMax(n) + 1) / n;
    assert CalcMax(n) + 1 == n * q;
    UniformResidues(q, n, k);
  }

  /** The largest `prob` among the slots, starting from 0. */
  function MaxProb(s: seq<Piece>): (m: U32)
    ensures forall i :: 0 <= i < |s| ==> s[i].prob <= m
    ensures s == [] ==> m == 0
    ensures s != [] ==> exists i :: 0 <= i < |s| && s[i].prob == m
  {
    if s == [] then 0
    else
      var m := MaxProb(s[..|s| - 1]);
      if s[|s| - 1].prob > m then s[|s| - 1].prob else m
  }

  /** Some slot never redirects: its threshold is the largest, `avgP - 1`. */
  predicate HasFullSlot(s: seq<Piece>, avgP: int)
  {
    exists i :: 0 <= i < |s| && s[i].prob == avgP - 1
  }

  /**
   * What the sampler and the binary format need of a table: a slot count that
   * fits in 32 bits, thresholds below `avgP <= 2^31`, aliases that are slot
   * indices, one slot at `avgP - 1`, and both rejection bounds derived from
   * the slot count and from `avgP`.
   */
  ghost predicate WellFormed(t: Table)
  {
    && 1 <= |t.pieces| < 0x1_0000_0000
    && 1 <= t.avgP <= Bit31
    && (forall i :: 0 <= i < |t.pieces| ==> t.pieces[i].prob < t.avgP && t.pieces[i].alias < |t.pieces|)
    && HasFullSlot(t.pieces, t.avgP)
    && t.maxRi == CalcMax(|t.pieces|)
    && t.maxRj == CalcMax(t.avgP)
  }

  /** In a well-formed table `avgP` is determined by the slots: it is one
      more than the largest threshold. */
  lemma WellFormedUnit(t: Table)
    requires WellFormed(t)
    ensures MaxProb(t.pieces) + 1 == t.avgP
  {
    var i :| 0 <= i < |t.pieces| && t.pieces[i].prob == t.avgP - 1;
    var j :| 0 <= j < |t.pieces| && t.pieces[j].prob == MaxProb(t.pieces);
  }
}
