/**
 * The binary form of a table: for each slot in index order its threshold
 * and its alias as little-endian 32-bit words, then the padding index as a
 * third kind of word only when it differs from the slot count. The unit
 * `avgP` is not stored: decoding recovers it as one more than the largest
 * threshold, and recomputes both rejection bounds.
 */
module Codec {
  import opened Wrappers
  import opened LittleEndian
  import opened Slots

  datatype DecodeError = BadLength | TooLarge | ProbOutOfRange | AliasOutOfRange

  /** The eight bytes of one slot. */
  function EncodePiece(pc: Piece): (bs: seq<Byte>)
    ensures |bs| == 8
  {
    PutU32(pc.prob) + PutU32(pc.alias)
  }

  /** The slot records of `s`, in index order. */
  function EncodeSlots(s: seq<Piece>): (bs: seq<Byte>)
    ensures |bs| == 8 * |s|
  {
    if s == [] then [] else EncodeSlots(s[..|s| - 1]) + EncodePiece(s[|s| - 1])
  }

  /** The whole buffer written for a table. */
  function Encode(t: Table): (bs: seq<Byte>)
    requires |t.pieces| < 0x1_0000_0000
    ensures |bs| == if t.dummy == |t.pieces| then 8 * |t.pieces| else 8 * |t.pieces| + 4
  {
    EncodeSlots(t.pieces) + (if t.dummy != |t.pieces| then PutU32(t.dummy) else [])
  }

  /** The slot stored at record `i` of the buffer. */
  function PieceAt(p: seq<Byte>, i: nat): Piece
    requires 8 * i + 8 <= |p|
  {
    Piece(GetU32(p[8 * i .. 8 * i + 4]), GetU32(p[8 * i + 4 .. 8 * i + 8]))
  }

  /** The first `m` slot records of the buffer. */
  function PiecesOf(p: seq<Byte>, m: nat): (s: seq<Piece>)
    requires 8 * m <= |p|
    ensures |s| == m && forall i :: 0 <= i < m ==> s[i] == PieceAt(p, i)
  {
    seq(m, i requires 0 <= i < m => PieceAt(p, i))
  }

  /** Why a decoded slot is refused, if it is: a threshold of 2^31 or more
      is checked before an alias that is not a slot index. */
  function SlotError(pc: Piece, m: nat): (e: Option<DecodeError>)
    ensures e == None <==> pc.prob < Bit31 && pc.alias < m
    ensures e == Some(ProbOutOfRange) <==> pc.prob >= Bit31
  {
    if pc.prob >= Bit31 then Some(ProbOutOfRange)
    else if pc.alias >= m then Some(AliasOutOfRange)
    else None
  }

  /** The index of the first refused slot, or `|s|` when there is none. */
  function FirstBad(s: seq<Piece>, m: nat): (k: nat)
    ensures k <= |s|
    ensures forall i :: 0 <= i < k ==> SlotError(s[i], m) == None
    ensures k < |s| ==> SlotError(s[k], m) != None
  {
    if s == [] then 0
    else if SlotError(s[0], m) != None then 0
    else 1 + FirstBad(s[1..], m)
  }

  /** The first `m` records of the buffer, or the error for the first
      refused one, checked in index order. */
  function DecodeSlots(p: seq<Byte>, m: nat): (r: Result<seq<Piece>, DecodeError>)
    requires 8 * m <= |p|
    ensures r.Success? <==> forall i :: 0 <= i < m ==> SlotError(PieceAt(p, i), m) == None
    ensures r.Success? ==> r.value == PiecesOf(p, m)
    ensures r.Failure? ==> exists k :: 0 <= k < m && Some(r.error) == SlotError(PieceAt(p, k), m)
  {
    var s := PiecesOf(p, m);
    var k := FirstBad(s, m);
    if k < m then Failure(SlotError(s[k], m).value) else Success(s)
  }

  /** The table of decoded slots: `avgP` recovered as one more than the
      largest threshold, and the rejection bounds recomputed. */
  function FromSlots(s: seq<Piece>, dummy: U32): (t: Table)
    requires 1 <= |s| < 0x1_0000_0000
    requires forall i :: 0 <= i < |s| ==> s[i].prob < Bit31 && s[i].alias < |s|
    ensures WellFormed(t) && t.pieces == s && t.dummy == dummy
  {
    var avgP := MaxProb(s) + 1;
    Table(s, CalcMax(|s|), CalcMax(avgP), avgP, dummy)
  }

  /** A well-formed table is determined by its slots and its padding index. */
  lemma FromSlotsOfWellFormed(t: Table)
    requires WellFormed(t)
    ensures FromSlots(t.pieces, t.dummy) == t
  {
    WellFormedUnit(t);
  }

  /** The padding index stored in a buffer: the trailing word when the
      length is not a multiple of 8, the slot count otherwise. */
  function DummyOf(p: seq<Byte>, m: U32): U32
    requires |p| >= 4
  {
    if |p| % 8 != 0 then GetU32(p[|p| - 4..]) else m
  }

  /**
   * Decoding a buffer. Buffers of 0 or 4 bytes hold no slot, and computing
   * the slot bound for them would divide by zero, so they are excluded.
   */
  function Decode(p: seq<Byte>): (r: Result<Table, DecodeError>)
    requires |p| % 4 != 0 || |p| >= 8
    ensures r == Failure(BadLength) <==> |p| % 4 != 0
    ensures r == Failure(TooLarge) <==> |p| % 4 == 0 && |p| / 8 >= 0x1_0000_0000
    ensures r.Success? <==>
      && |p| % 4 == 0 && |p| / 8 < 0x1_0000_0000
      && forall i :: 0 <= i < |p| / 8 ==> PieceAt(p, i).prob < Bit31 && PieceAt(p, i).alias < |p| / 8
    ensures r.Success? ==>
      && WellFormed(r.value)
      && |r.value.pieces| == |p| / 8
      && r.value.dummy == DummyOf(p, |p| / 8)
  {
    if |p| % 4 != 0 then Failure(BadLength)
    else if |p| / 8 >= 0x1_0000_0000 then Failure(TooLarge)
    else
      var m := |p| / 8;
      match DecodeSlots(p, m)
      case Failure(e) => Failure(e)
      case Success(s) =>
        Success(FromSlots(s, DummyOf(p, m)))
  }

  /** Decoding a buffer of whole records (and perhaps a trailing word)
      fails with the error of the first refused record, if there is one. */
  lemma DecodeRefused(p: seq<Byte>, k: nat)
    requires |p| % 4 == 0 && 8 <= |p| && |p| / 8 < 0x1_0000_0000
    requires k == FirstBad(PiecesOf(p, |p| / 8), |p| / 8) < |p| / 8
    ensures Decode(p) == Failure(SlotError(PiecesOf(p, |p| / 8)[k], |p| / 8).value)
  {
  }

  /** ... and otherwise gives the table of its records: `avgP` one more
      than the largest threshold, and the padding index of the buffer. */
  lemma DecodeAccepted(p: seq<Byte>, pieces: seq<Piece>)
    requires |p| % 4 == 0 && 8 <= |p| && |p| / 8 < 0x1_0000_0000
    requires pieces == PiecesOf(p, |p| / 8) && FirstBad(pieces, |p| / 8) == |p| / 8
    ensures forall i :: 0 <= i < |pieces| ==> pieces[i].prob < Bit31 && pieces[i].alias < |pieces|
    ensures Decode(p) == Success(FromSlots(pieces, DummyOf(p, |p| / 8)))
  {
    assert DecodeSlots(p, |p| / 8) == Success(pieces);
  }

  /** Each slot of a decoded table re-encodes to its record of the buffer. */
  lemma DecodedRecords(p: seq<Byte>)
    requires |p| % 4 != 0 || |p| >= 8
    requires Decode(p).Success?
    ensures forall i :: 0 <= i < |p| / 8 ==> EncodePiece(Decode(p).value.pieces[i]) == p[8 * i .. 8 * i + 8]
  {
    var m := |p| / 8;
    assert Decode(p).value.pieces == PiecesOf(p, m);
    DecodedSlots(p, m);
  }

  /** The records of a buffer re-encode to the buffer's bytes. */
  lemma DecodedSlots(p: seq<Byte>, m: nat)
    requires 8 * m <= |p|
    ensures forall i :: 0 <= i < m ==> EncodePiece(PiecesOf(p, m)[i]) == p[8 * i .. 8 * i + 8]
  {
    forall i | 0 <= i < m
      ensures EncodePiece(PiecesOf(p, m)[i]) == p[8 * i .. 8 * i + 8]
    {
      PutGetU32(p[8 * i .. 8 * i + 4]);
      PutGetU32(p[8 * i + 4 .. 8 * i + 8]);
      assert p[8 * i .. 8 * i + 8] == p[8 * i .. 8 * i + 4] + p[8 * i + 4 .. 8 * i + 8];
    }
  }

  /** Record `i` of the encoding is slot `i`. */
  lemma {:induction false} EncodeSlotsAt(s: seq<Piece>, i: nat)
    requires i < |s|
    ensures EncodeSlots(s)[8 * i .. 8 * i + 8] == EncodePiece(s[i])
  {
    var n := |s| - 1;
    assert EncodeSlots(s) == EncodeSlots(s[..n]) + EncodePiece(s[n]);
    if i < n {
      EncodeSlotsAt(s[..n], i);
    }
  }

  /** A record that holds the encoding of a slot reads back as that slot. */
  lemma RecordReadsBack(p: seq<Byte>, lo: nat, pc: Piece)
    requires lo + 8 <= |p| && p[lo .. lo + 8] == EncodePiece(pc)
    ensures GetU32(p[lo .. lo + 4]) == pc.prob && GetU32(p[lo + 4 .. lo + 8]) == pc.alias
  {
    assert p[lo .. lo + 4] == p[lo .. lo + 8][..4] == PutU32(pc.prob);
    assert p[lo + 4 .. lo + 8] == p[lo .. lo + 8][4..] == PutU32(pc.alias);
    GetPutU32(pc.prob);
    GetPutU32(pc.alias);
  }

  /** Reading back record `i` of an encoding gives slot `i`. */
  lemma EncodedPieceAt(s: seq<Piece>, tail: seq<Byte>, i: nat)
    requires i < |s|
    ensures PieceAt(EncodeSlots(s) + tail, i) == s[i]
  {
    var e := EncodeSlots(s);
    var lo := 8 * i;
    assert e[lo .. lo + 8] == EncodePiece(s[i]) by {
      EncodeSlotsAt(s, i);
    }
    SliceOfPrefix(e, tail, lo, lo + 8);
    RecordReadsBack(e + tail, lo, s[i]);
  }

  lemma SliceOfPrefix<T>(a: seq<T>, b: seq<T>, lo: nat, hi: nat)
    requires lo <= hi <= |a|
    ensures (a + b)[lo .. hi] == a[lo .. hi]
  {
  }

  /** The trailing word of an encoding, when there is one. */
  function Trailer(t: Table): seq<Byte>
  {
    if t.dummy != |t.pieces| then PutU32(t.dummy) else []
  }

  /** The length of an encoding is a whole number of records, plus one word
      exactly when the padding index differs from the slot count. */
  lemma EncodedLength(t: Table)
    requires |t.pieces| < 0x1_0000_0000
    ensures Encode(t) == EncodeSlots(t.pieces) + Trailer(t)
    ensures |Encode(t)| % 4 == 0 && |Encode(t)| / 8 == |t.pieces|
    ensures |Encode(t)| % 8 == 0 <==> t.dummy == |t.pieces|
  {
    var m, n := |t.pieces|, |Encode(t)|;
    var k := |Trailer(t)|;
    DivModUnique(n, 8, m, k);
    DivModUnique(n, 4, 2 * m + k / 4, 0);
  }

  /** The records of an encoding decode to the slots. */
  lemma EncodedSlotsDecode(s: seq<Piece>, tail: seq<Byte>)
    requires forall i :: 0 <= i < |s| ==> s[i].prob < Bit31 && s[i].alias < |s|
    ensures DecodeSlots(EncodeSlots(s) + tail, |s|) == Success(s)
  {
    var p := EncodeSlots(s) + tail;
    forall i | 0 <= i < |s| ensures PieceAt(p, i) == s[i] {
      EncodedPieceAt(s, tail, i);
    }
    assert PiecesOf(p, |s|) == s;
  }

  /** The padding index of an encoding reads back. */
  lemma EncodedDummy(t: Table)
    requires 1 <= |t.pieces| < 0x1_0000_0000
    ensures DummyOf(Encode(t), |t.pieces|) == t.dummy
  {
    EncodedLength(t);
    var p := Encode(t);
    if t.dummy != |t.pieces| {
      assert p[|p| - 4..] == PutU32(t.dummy);
      GetPutU32(t.dummy);
    }
  }

  /** Round trip: decoding the encoding of a well-formed table gives the
      table back, field for field. */
  lemma DecodeEncode(t: Table)
    requires WellFormed(t)
    ensures Decode(Encode(t)) == Success(t)
  {
    EncodedLength(t);
    EncodedSlotsDecode(t.pieces, Trailer(t));
    EncodedDummy(t);
    FromSlotsOfWellFormed(t);
  }

  /** Conversely, a decoded table re-encodes to the buffer it came from,
      unless the buffer spelled out a padding index equal to the slot count,
      which the encoder leaves implicit. */
  lemma EncodeDecode(p: seq<Byte>)
    requires |p| % 4 != 0 || |p| >= 8
    requires Decode(p).Success?
    requires |p| % 8 == 0 || Decode(p).value.dummy != |p| / 8
    ensures Encode(Decode(p).value) == p
  {
    var t := Decode(p).value;
    var m := |p| / 8;
    var e := EncodeSlots(t.pieces);
    DecodedRecords(p);
    LengthShape(|p|);
    assert e == p[..8 * m] by {
      forall i | 0 <= i < m ensures e[8 * i .. 8 * i + 8] == p[8 * i .. 8 * i + 8] {
        EncodeSlotsAt(t.pieces, i);
      }
      SlotRecordsEqual(e, p, m);
    }
    if |p| % 8 != 0 {
      assert PutU32(t.dummy) == p[|p| - 4..] by {
        PutGetU32(p[|p| - 4..]);
      }
      assert p == p[..8 * m] + p[|p| - 4..];
    } else {
      assert p == p[..8 * m];
    }
  }

  /** A length that is a multiple of 4 is a whole number of records,
      possibly followed by one 4-byte word. */
  lemma LengthShape(n: nat)
    requires n % 4 == 0
    ensures n % 8 == 0 || n % 8 == 4
    ensures n == 8 * (n / 8) + n % 8
  {
    var m, r := n / 8, n % 8;
    DivModUnique(n, 4, 2 * m + r / 4, r % 4);
  }

  /** Two buffers of `m` records agree when every record does. */
  lemma {:induction false} SlotRecordsEqual(a: seq<Byte>, b: seq<Byte>, m: nat)
    requires |a| == 8 * m && |b| >= 8 * m
    requires forall i :: 0 <= i < m ==> a[8 * i .. 8 * i + 8] == b[8 * i .. 8 * i + 8]
    ensures a == b[..8 * m]
  {
    forall k | 0 <= k < 8 * m ensures a[k] == b[k] {
      var i := k / 8;
      assert a[8 * i .. 8 * i + 8][k - 8 * i] == b[8 * i .. 8 * i + 8][k - 8 * i];
    }
  }
}
