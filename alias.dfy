/**
 * The alias object: a table of slots that its builder fills in place, a
 * sampler, and the binary encoding of the table.
 */
module AliasMethod {
  import opened Wrappers
  import opened LittleEndian
  import opened Slots
  import opened Sampling
  import opened Codec
  import opened Distribution
  import opened VoseSpec

  /** Why the integer builder refuses its weights. */
  datatype BuildError = TooFewWeights | NonPositiveWeight

  class Alias {
    var table: array<Piece>
    var maxRi: U32
    var maxRj: U32
    var avgP: U32
    var dummy: U32

    /** The alias as a value. */
    ghost function Value(): Table
      reads this, table
    {
      Table(table[..], maxRi, maxRj, avgP, dummy)
    }

    /** The zero alias: no slot, every field zero. */
    constructor Empty()
      ensures table.Length == 0 && maxRi == 0 && maxRj == 0 && avgP == 0 && dummy == 0
    {
      table := new Piece[0];
      maxRi, maxRj, avgP, dummy := 0, 0, 0, 0;
    }

    /** An alias made of the given fields. */
    constructor Of(table: array<Piece>, maxRi: U32, maxRj: U32, avgP: U32, dummy: U32)
      ensures this.table == table && this.maxRi == maxRi && this.maxRj == maxRj
      ensures this.avgP == avgP && this.dummy == dummy
    {
      this.table := table;
      this.maxRi, this.maxRj, this.avgP, this.dummy := maxRi, maxRj, avgP, dummy;
    }

    /**
     * Looks for a slot whose threshold is `avgP - 1`, computed in 32-bit
     * unsigned arithmetic (so for `avgP == 0` it looks for 2^32 - 1).
     */
    method CheckAvgP() returns (found: bool)
      ensures found <==> exists i :: 0 <= i < table.Length && table[i].prob == (avgP + 0xFFFF_FFFF) % 0x1_0000_0000
      ensures avgP >= 1 ==> (found <==> HasFullSlot(table[..], avgP))
    {
      var target := (avgP + 0xFFFF_FFFF) % 0x1_0000_0000;
      for i := 0 to table.Length
        invariant forall k :: 0 <= k < i ==> table[k].prob != target
      {
        if table[i].prob == target {
          return true;
        }
      }
      return false;
    }

    /**
     * Sampling with a finite supply of 63-bit draws: the attempts are made
     * in order until one is accepted and does not land on the padding
     * index. `used` is the number of draws consumed.
     */
    method Gen(draws: seq<Int63>) returns (w: Option<U32>, used: nat)
      requires 1 <= table.Length < 0x1_0000_0000 && avgP >= 1
      ensures used <= |draws|
      ensures forall k :: 0 <= k < used - 1 ==> Attempt(Value(), draws[k]) == None
      ensures w.Some? ==> used >= 1 && Attempt(Value(), draws[used - 1]) == w
      ensures w.None? ==> used == |draws| && forall k :: 0 <= k < |draws| ==> Attempt(Value(), draws[k]) == None
    {
      for i := 0 to |draws|
        invariant forall k :: 0 <= k < i ==> Attempt(Value(), draws[k]) == None
      {
        var r := draws[i];
        var ri := r % Bit31;
        var rj := (r / Bit31) % Bit31;
        if ri <= maxRi && rj <= maxRj {
          var v := ri % table.Length;
          var x := rj % avgP;
          if x > table[v].prob {
            v := table[v].alias;
          }
          if v != dummy {
            return Some(v), i + 1;
          }
        }
      }
      return None, |draws|;
    }

    /** The binary encoding: eight bytes per slot, then the padding index
        as a trailing word when it is not the slot count. */
    method MarshalBinary() returns (out: seq<Byte>)
      requires table.Length < 0x1_0000_0000
      ensures out == Encode(Value())
    {
      var n := table.Length;
      var buf := new Byte[8 * n];
      for i := 0 to n
        invariant buf[..8 * i] == EncodeSlots(table[..i])
      {
        ghost var done := buf[..8 * i];
        WriteSlot(buf, 8 * i, table[i]);
        assert buf[..8 * i + 8] == done + EncodePiece(table[i]);
        assert table[..i + 1][..i] == table[..i];
      }
      assert table[..n] == table[..];
      out := buf[..];
      if dummy != n {
        out := out + PutU32(dummy);
      }
    }

    /**
     * Decoding into this alias. On a bad length or a too large buffer
     * nothing changes; on a refused slot the table has already been
     * replaced by one holding the slots read so far; on success the alias
     * is the decoded table.
     */
    method UnmarshalBinary(p: seq<Byte>) returns (err: Option<DecodeError>)
      requires |p| % 4 != 0 || |p| >= 8
      modifies this
      ensures err == None <==> Decode(p).Success?
      ensures err != None ==> Decode(p) == Failure(err.value)
      ensures err == None ==> fresh(table) && Value() == Decode(p).value
      ensures err == Some(BadLength) || err == Some(TooLarge) ==> table == old(table)
      ensures err != None ==> maxRi == old(maxRi) && maxRj == old(maxRj) && avgP == old(avgP) && dummy == old(dummy)
      ensures err == Some(ProbOutOfRange) || err == Some(AliasOutOfRange) ==>
        var m, k := |p| / 8, FirstBad(PiecesOf(p, |p| / 8), |p| / 8);
        && fresh(table) && k < m
        && table[..] == PiecesOf(p, m)[..k] + Repeat(Piece(0, 0), m - k)
    {
      if |p| % 4 != 0 {
        return Some(BadLength);
      }
      if |p| / 8 >= 0x1_0000_0000 {
        return Some(TooLarge);
      }
      err := Load(p);
    }

    /** Decoding a buffer of whole records, perhaps followed by a padding
        index, into this alias. */
    method Load(p: seq<Byte>) returns (err: Option<DecodeError>)
      requires |p| % 4 == 0 && 8 <= |p| && |p| / 8 < 0x1_0000_0000
      modifies this
      ensures fresh(table)
      ensures err == None <==> Decode(p).Success?
      ensures err != None ==> Decode(p) == Failure(err.value) && err != Some(BadLength) && err != Some(TooLarge)
      ensures err == None ==> Value() == Decode(p).value
      ensures err != None ==> maxRi == old(maxRi) && maxRj == old(maxRj) && avgP == old(avgP) && dummy == old(dummy)
      ensures err != None ==>
        var m, k := |p| / 8, FirstBad(PiecesOf(p, |p| / 8), |p| / 8);
        && k < m && table[..] == PiecesOf(p, m)[..k] + Repeat(Piece(0, 0), m - k)
    {
      err := LoadRecords(p);
      ghost var m := |p| / 8;
      ghost var pieces := PiecesOf(p, m);
      if err != None {
        DecodeRefused(p, FirstBad(pieces, m));
      } else {
        LoadedValue(p, Value());
      }
    }

    /** Decoding the records of a buffer of the right length into this
        alias. */
    method LoadRecords(p: seq<Byte>) returns (err: Option<DecodeError>)
      requires |p| % 4 == 0 && 8 <= |p| && |p| / 8 < 0x1_0000_0000
      modifies this
      ensures fresh(table) && table.Length == |p| / 8
      ensures SlotsRead(p, |p| / 8, err, table[..])
      ensures err != None ==> maxRi == old(maxRi) && maxRj == old(maxRj) && avgP == old(avgP) && dummy == old(dummy)
      ensures err == None ==>
        && maxRi == CalcMax(|p| / 8) && avgP == MaxProb(table[..]) + 1 && maxRj == CalcMax(avgP)
        && dummy == DummyOf(p, |p| / 8)
    {
      var m := |p| / 8;
      var t := NewPieces(m);
      table := t;
      err := ReadSlots(p, t);
      if err == None {
        ghost var read := t[..];
        RecoverMetadata(p);
        assert t[..] == read;
      }
    }

    /** With the slots in place, `avgP` is one more than the largest
        threshold, the two rejection bounds follow from the slot count and
        from `avgP`, and the padding index is the trailing word, if any. */
    method RecoverMetadata(p: seq<Byte>)
      requires 8 <= |p| && |p| / 8 < 0x1_0000_0000 && table.Length == |p| / 8
      requires forall i :: 0 <= i < table.Length ==> table[i].prob < Bit31
      modifies this
      ensures table == old(table)
      ensures maxRi == CalcMax(|p| / 8) && avgP == MaxProb(table[..]) + 1 && maxRj == CalcMax(avgP)
      ensures dummy == DummyOf(p, |p| / 8)
    {
      var m := |p| / 8;
      var maxProb := LargestProb(table);
      avgP := maxProb + 1;
      maxRi := CalcMax(m);
      maxRj := CalcMax(avgP);
      dummy := m;
      if |p| % 8 != 0 {
        dummy := GetU32(p[|p| - 4..]);
      }
    }
  }

  /**
   * The outcome of reading the first `m` records of `p` into a zeroed
   * table that ends up holding `contents`: the error of the first refused
   * record and the records before it, or all the records.
   */
  ghost predicate SlotsRead(p: seq<Byte>, m: nat, err: Option<DecodeError>, contents: seq<Piece>)
    requires 8 * m <= |p|
  {
    var s := PiecesOf(p, m);
    var k := FirstBad(s, m);
    && (err == None <==> k == m)
    && (err == None ==> contents == s)
    && (err.Some? ==> k < m && err == SlotError(s[k], m) && contents == s[..k] + Repeat(Piece(0, 0), m - k))
  }

  /** `n` copies of `x`. */
  ghost function Repeat<T>(x: T, n: nat): (r: seq<T>)
    ensures |r| == n && forall k :: 0 <= k < n ==> r[k] == x
  {
    if n == 0 then [] else Repeat(x, n - 1) + [x]
  }

  /** A fresh table of `n` zero slots. */
  method NewPieces(n: nat) returns (a: array<Piece>)
    ensures fresh(a) && a.Length == n && forall k :: 0 <= k < n ==> a[k] == Piece(0, 0)
  {
    a := new Piece[n](_ => Piece(0, 0));
  }

  /** A table holding all the records of a buffer, with `avgP` one more
      than their largest threshold, the rejection bounds of its size and
      unit, and the buffer's padding index, is what decoding gives. */
  lemma LoadedValue(p: seq<Byte>, t: Table)
    requires |p| % 4 == 0 && 8 <= |p| && |p| / 8 < 0x1_0000_0000
    requires t.pieces == PiecesOf(p, |p| / 8) && FirstBad(t.pieces, |p| / 8) == |p| / 8
    requires t.maxRi == CalcMax(|p| / 8) && t.avgP == MaxProb(t.pieces) + 1 && t.maxRj == CalcMax(t.avgP)
    requires t.dummy == DummyOf(p, |p| / 8)
    ensures Decode(p) == Success(t)
  {
    var m := |p| / 8;
    DecodeAccepted(p, t.pieces);
    assert |t.pieces| == m;
    var f := FromSlots(t.pieces, t.dummy);
    assert f.maxRi == CalcMax(m) && f.avgP == t.avgP && f.maxRj == CalcMax(t.avgP);
  }

  /** Writes the eight bytes of slot `pc` at offset `o` of `buf`. */
  method WriteSlot(buf: array<Byte>, o: nat, pc: Piece)
    requires o + 8 <= buf.Length
    modifies buf
    ensures buf[..o + 8] == old(buf[..o]) + EncodePiece(pc)
    ensures forall k :: o + 8 <= k < buf.Length ==> buf[k] == old(buf[k])
  {
    ghost var before := buf[..o];
    var prob, alias := PutU32(pc.prob), PutU32(pc.alias);
    buf[o], buf[o + 1], buf[o + 2], buf[o + 3] := prob[0], prob[1], prob[2], prob[3];
    buf[o + 4], buf[o + 5], buf[o + 6], buf[o + 7] := alias[0], alias[1], alias[2], alias[3];
    ghost var bs := before + prob + alias;
    assert |bs| == o + 8;
    assert forall k :: 0 <= k < o + 8 ==> buf[k] == bs[k];
  }

  /**
   * Reads the slot records of `p` into the zeroed table `t` in index order,
   * stopping at the first one whose threshold is 2^31 or more or whose
   * alias is not a slot index.
   */
  method ReadSlots(p: seq<Byte>, t: array<Piece>) returns (err: Option<DecodeError>)
    requires t.Length == |p| / 8 && forall k :: 0 <= k < t.Length ==> t[k] == Piece(0, 0)
    modifies t
    ensures SlotsRead(p, t.Length, err, t[..])
    ensures err == None ==> forall k :: 0 <= k < t.Length ==> t[k].prob < Bit31 && t[k].alias < t.Length
  {
    var m := t.Length;
    ghost var s := PiecesOf(p, m);
    assert t[..] == s[..0] + Repeat(Piece(0, 0), m);
    for i := 0 to m
      invariant t[..] == s[..i] + Repeat(Piece(0, 0), m - i)
      invariant forall k :: 0 <= k < i ==> SlotError(s[k], m) == None
    {
      var prob := GetU32(p[8 * i .. 8 * i + 4]);
      var alias := GetU32(p[8 * i + 4 .. 8 * i + 8]);
      if prob >= Bit31 {
        FirstBadAt(s, m, i);
        return Some(ProbOutOfRange);
      }
      if alias >= m {
        FirstBadAt(s, m, i);
        return Some(AliasOutOfRange);
      }
      t[i] := t[i].(prob := prob);
      t[i] := t[i].(alias := alias);
      assert t[..] == s[..i + 1] + Repeat(Piece(0, 0), m - i - 1);
    }
    assert s[..m] == s;
    return None;
  }

  /** The largest threshold in the table, starting from 0. */
  method LargestProb(t: array<Piece>) returns (maxProb: U32)
    ensures maxProb == MaxProb(t[..])
  {
    maxProb := 0;
    for i := 0 to t.Length
      invariant maxProb == MaxProb(t[..i])
    {
      if t[i].prob > maxProb {
        maxProb := t[i].prob;
      }
      assert t[..i + 1][..i] == t[..i];
    }
    assert t[..t.Length] == t[..];
  }

  /** The first refused slot is the first one whose check fails. */
  lemma FirstBadAt(s: seq<Piece>, m: nat, i: nat)
    requires i < |s| && SlotError(s[i], m) != None
    requires forall k :: 0 <= k < i ==> SlotError(s[k], m) == None
    ensures FirstBad(s, m) == i
  {
  }

  /**
   * The integer builder (Vose's method): refuses an empty weight list and
   * a non-positive weight; otherwise pads the weights so that they divide
   * evenly, splits them into a small and a large stack sharing one array,
   * pairs each small item with a large one, fills the slots left over to
   * the unit, and sets the rejection bounds from the slot count and the
   * unit. The padding index is the original weight count.
   */
  method NewInt(prob: seq<Int32>) returns (res: Result<Alias, BuildError>)
    requires |prob| < Bit31
    ensures res == Failure(TooFewWeights) <==> |prob| == 0
    ensures res == Failure(NonPositiveWeight) <==> |prob| >= 1 && !AllPositive(prob)
    ensures res.Success? <==> |prob| >= 1 && AllPositive(prob)
    ensures res.Success? ==> |prob| >= 1 && fresh(res.value) && fresh(res.value.table)
    ensures res.Success? ==> Built(prob, res.value.Value())
  {
    if |prob| < 1 {
      return Failure(TooFewWeights);
    }
    var ok, total := SumWeights(prob);
    if !ok {
      return Failure(NonPositiveWeight);
    }
    var w, avg := Pad(prob, total);
    var table := Build(w, avg);
    var al := new Alias.Of(table, CalcMax(table.Length), CalcMax(avg), avg, |prob|);
    var found := al.CheckAvgP();
    if !found {
      assert false;
    }
    BuiltFrom(prob, al.Value());
    return Success(al);
  }

  /** The padding step: the unit is the average weight, rounded up, and
      when it is rounded up a last weight brings the total to the unit times
      the new count. */
  method Pad(prob: seq<Int32>, total: int) returns (w: seq<int>, avg: int)
    requires 1 <= |prob| < Bit31 && AllPositive(prob) && total == Sum(prob)
    ensures w == Padded(prob) && avg == Unit(prob)
    ensures Storable(w) && |w| >= 1 && 1 <= avg < Bit31 && Sum(w) == avg * |w|
  {
    PaddingExact(prob);
    var n := |prob|;
    w := prob;
    avg := total / n;
    if avg * n < total {
      avg := avg + 1;
      n := n + 1;
      var dummy := avg * n - total;
      w := w + [dummy];
    }
  }

  /** Vose's construction on weights that divide evenly into slots of
      `avg`: every slot gets a threshold below the unit and a slot as its
      alias, every index owns exactly its weight, and some slot is full. */
  method Build(w: seq<int>, avg: int) returns (table: array<Piece>)
    requires Storable(w) && |w| >= 1 && 1 <= avg && Sum(w) == avg * |w|
    ensures fresh(table) && table.Length == |w|
    ensures forall s :: 0 <= s < table.Length ==> table[s].prob < avg && table[s].alias < table.Length
    ensures forall j :: 0 <= j < |w| ==> Mass(table[..], avg, j) == w[j]
    ensures HasFullSlot(table[..], avg)
  {
    var twins, smTop, lgBot;
    ghost var done, where;
    twins, table, smTop, lgBot, done, where := Stacks(w, avg);
    done := Clear(w, avg, twins, lgBot, table, done, where);
    if smTop != -1 {
      assert false;
    }
    ClearDone(w, avg, twins[..], lgBot, table[..], done, where);
  }

  /** The first two phases of the construction: the partition into two
      stacks, and the pairing, which leaves the small stack empty. */
  method Stacks(w: seq<int>, avg: int)
    returns (twins: array<Piece>, table: array<Piece>, smTop: int, lgBot: int, ghost done: seq<bool>,
             ghost where: seq<int>)
    requires Storable(w) && |w| >= 1 && 1 <= avg && Sum(w) == avg * |w|
    ensures fresh(twins) && fresh(table) && twins != table && smTop == -1
    ensures ClearInv(w, avg, twins[..], lgBot, twins.Length, table[..], done, where)
  {
    var n := |w|;
    twins, smTop, lgBot, where := Partition(w, avg);
    table := NewPieces(n);
    done := Repeat(false, n);
    PartitionDone(w, avg, twins[..], smTop, lgBot, where, table[..], done);
    if lgBot != smTop + 1 {
      assert false;
    }
    smTop, lgBot, done, where := Pair(w, avg, twins, smTop, lgBot, table, done, where);
    ClearStart(w, avg, twins[..], smTop, lgBot, table[..], done, where);
  }

  /** A built table survives the binary encoding: decoding its encoding
      gives it back, with `avgP` recovered from the full slot. */
  lemma BuiltRoundTrip(w: seq<Int32>, t: Table)
    requires 1 <= |w| && Built(w, t)
    ensures Decode(Encode(t)) == Success(t)
  {
    DecodeEncode(t);
  }

  /** The marshalling round trip on integer weights: build, encode, decode
      into a zero alias, and compare field by field. */
  method MarshalRoundTrip(prob: seq<Int32>) returns (a: Alias, b: Alias, err: Option<DecodeError>)
    requires 1 <= |prob| < Bit31 && AllPositive(prob)
    ensures err == None && b.Value() == a.Value()
  {
    var res := NewInt(prob);
    a := res.value;
    var data := a.MarshalBinary();
    EncodedLength(a.Value());
    b := new Alias.Empty();
    err := b.UnmarshalBinary(data);
    BuiltRoundTrip(prob, a.Value());
  }

  /** Checks that every weight is positive and adds them up. */
  method SumWeights(prob: seq<Int32>) returns (ok: bool, total: int)
    ensures ok <==> AllPositive(prob)
    ensures ok ==> total == Sum(prob)
  {
    total := 0;
    for i := 0 to |prob|
      invariant AllPositive(prob[..i]) && total == Sum(prob[..i])
    {
      if prob[i] <= 0 {
        return false, total;
      }
      assert prob[..i + 1] == prob[..i] + [prob[i]];
      SumAppend(prob[..i], prob[i]);
      total := total + prob[i];
    }
    assert prob[..|prob|] == prob;
    return true, total;
  }

  /** Pushes each weight, as an item holding its index, onto the large
      stack (growing down from the top of `twins`) when it is at least the
      unit, else onto the small stack (growing up from the bottom). */
  method Partition(w: seq<int>, avg: int) returns (twins: array<Piece>, smTop: int, lgBot: int, ghost where: seq<int>)
    requires Storable(w)
    ensures fresh(twins)
    ensures PartitionInv(w, avg, |w|, twins[..], smTop, lgBot, where)
  {
    var n := |w|;
    twins := NewPieces(n);
    smTop, lgBot := -1, n;
    where := Repeat(0, n);
    PartitionStart(w, avg, twins[..], where);
    for i := 0 to n
      invariant -1 <= smTop < lgBot <= n && smTop + 1 + n - lgBot == i
      invariant PartitionInv(w, avg, i, twins[..], smTop, lgBot, where)
    {
      ghost var tw, sm, lg, wh := twins[..], smTop, lgBot, where;
      var x := Piece(w[i], i);
      if w[i] >= avg {
        lgBot := lgBot - 1;
        twins[lgBot] := x;
        where := where[i := lgBot];
      } else {
        smTop := smTop + 1;
        twins[smTop] := x;
        where := where[i := smTop];
      }
      PartitionStep(w, avg, i, tw, sm, lg, wh, twins[..], smTop, lgBot, where);
    }
  }

  /** Vose's pairing loop: while both stacks hold an item, the top small
      item's slot takes the top large item as its alias, and what is left of
      the large item goes back onto the stack its weight calls for. */
  method Pair(w: seq<int>, avg: int, twins: array<Piece>, smTop0: int, lgBot0: int, table: array<Piece>,
              ghost done0: seq<bool>, ghost where0: seq<int>)
    returns (smTop: int, lgBot: int, ghost done: seq<bool>, ghost where: seq<int>)
    requires twins != table
    requires PairingInv(w, avg, twins[..], smTop0, lgBot0, table[..], done0, where0)
    modifies twins, table
    ensures PairingInv(w, avg, twins[..], smTop, lgBot, table[..], done, where)
    ensures !(smTop >= 0 && lgBot < twins.Length)
  {
    smTop, lgBot, done, where := smTop0, lgBot0, done0, where0;
    var n := twins.Length;
    while smTop >= 0 && lgBot < n
      invariant PairingInv(w, avg, twins[..], smTop, lgBot, table[..], done, where)
      decreases smTop + 1 + n - lgBot
    {
      ghost var tw, sm, lg, tab, dn, wh := twins[..], smTop, lgBot, table[..], done, where;
      var l := twins[smTop];
      smTop := smTop - 1;
      var g := twins[lgBot];
      lgBot := lgBot + 1;
      table[l.alias] := table[l.alias].(prob := l.prob - 1);
      table[l.alias] := table[l.alias].(alias := g.alias);
      g := g.(prob := g.prob + l.prob - avg);
      done := done[l.alias := true];
      if g.prob < avg {
        smTop := smTop + 1;
        twins[smTop] := g;
        where := where[g.alias := smTop];
      } else {
        lgBot := lgBot - 1;
        twins[lgBot] := g;
      }
      PairingStep(w, avg, tw, sm, lg, tab, dn, wh, twins[..], smTop, lgBot, table[..], done, where);
    }
  }

  /** Fills the slot of every item left on the large stack, from the top
      of the array down, to the unit. */
  method Clear(w: seq<int>, avg: int, twins: array<Piece>, lgBot: int, table: array<Piece>,
               ghost done0: seq<bool>, ghost where: seq<int>)
    returns (ghost done: seq<bool>)
    requires twins != table
    requires ClearInv(w, avg, twins[..], lgBot, twins.Length, table[..], done0, where)
    modifies table
    ensures ClearInv(w, avg, twins[..], lgBot, lgBot, table[..], done, where)
  {
    done := done0;
    var i := twins.Length - 1;
    while i >= lgBot
      invariant lgBot - 1 <= i
      invariant ClearInv(w, avg, twins[..], lgBot, i + 1, table[..], done, where)
    {
      ghost var tab := table[..];
      ClearStep(w, avg, twins[..], lgBot, i + 1, tab, done, where);
      var a := twins[i].alias;
      table[a] := table[a].(prob := avg - 1);
      assert table[..] == tab[a := Piece(avg - 1, 0)];
      done := done[a := true];
      i := i - 1;
    }
  }
}
