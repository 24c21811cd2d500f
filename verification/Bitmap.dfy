/** The page bitmap of kernel/utils/bitmap.h. */
module Bitmap {

  function Mask(i: nat): bv8
    requires i < 8
  {
    if i == 0 then 1 else if i == 1 then 2 else if i == 2 then 4 else if i == 3 then 8
    else if i == 4 then 16 else if i == 5 then 32 else if i == 6 then 64 else 128
  }

  /** Bit `index` of a byte string, as Get reads it. */
  predicate Bit(data: seq<bv8>, index: nat)
    requires index < 8 * |data|
  {
    data[index / 8] & Mask(index % 8) != 0
  }

  /** Bits are numbered from the low end of each byte. */
  lemma BitIs(data: seq<bv8>, index: nat)
    requires index < 8 * |data|
    ensures Bit(data, index) <==> (data[index / 8] >> (index % 8)) & 1 == 1
  {
    MaskIs(data[index / 8], index % 8);
  }

  lemma MaskIs(b: bv8, i: nat)
    requires i < 8
    ensures b & Mask(i) != 0 <==> (b >> i) & 1 == 1
  {
    if i == 0 {
    } else if i == 1 {
    } else if i == 2 {
    } else if i == 3 {
    } else if i == 4 {
    } else if i == 5 {
    } else if i == 6 {
    }
  }

  /** All bits of a byte string. */
  function Bits(data: seq<bv8>): (bits: seq<bool>)
    ensures |bits| == 8 * |data|
    ensures forall i :: 0 <= i < |bits| ==> bits[i] == Bit(data, i)
  {
    seq(8 * |data|, i requires 0 <= i < 8 * |data| => Bit(data, i))
  }

  /** Setting bits one at a time, in increasing order: the reference for SetRange. */
  function SetEach(bits: seq<bool>, index: nat, count: nat, value: bool): (r: seq<bool>)
    requires index + count <= |bits|
    ensures |r| == |bits|
    decreases count
  {
    if count == 0 then bits else SetEach(bits[index := value], index + 1, count - 1, value)
  }

  lemma {:induction false} SetEachAt(bits: seq<bool>, index: nat, count: nat, value: bool, j: nat)
    requires index + count <= |bits| && j < |bits|
    ensures SetEach(bits, index, count, value)[j] == if index <= j < index + count then value else bits[j]
    decreases count
  {
    if count > 0 {
      SetEachAt(bits[index := value], index + 1, count - 1, value, j);
    }
  }

  /** Setting or clearing one bit of a byte leaves the other seven alone. */
  lemma MaskedUpdate(b: bv8, i: nat, j: nat)
    requires i < 8 && j < 8
    ensures (b | Mask(i)) & Mask(j) != 0 <==> i == j || b & Mask(j) != 0
    ensures (b & !Mask(i)) & Mask(j) != 0 <==> i != j && b & Mask(j) != 0
  {
  }

  lemma FullAndEmptyByte(i: nat)
    requires i < 8
    ensures 0xFF as bv8 & Mask(i) != 0
    ensures 0 as bv8 & Mask(i) == 0
  {
  }

  /** A byte with one bit changed, as Set computes it. */
  function WithBit(b: bv8, i: nat, value: bool): bv8
    requires i < 8
  {
    if value then b | Mask(i) else b & !Mask(i)
  }

  lemma OneBitAt(was: seq<bv8>, index: nat, value: bool, j: nat)
    requires index < 8 * |was| && j < 8 * |was|
    ensures Bit(was[index / 8 := WithBit(was[index / 8], index % 8, value)], j) ==
            if j == index then value else Bit(was, j)
  {
    if j / 8 == index / 8 {
      MaskedUpdate(was[index / 8], index % 8, j % 8);
    }
  }

  lemma OneBitSet(was: seq<bv8>, index: nat, value: bool)
    requires index < 8 * |was|
    ensures Bits(was[index / 8 := WithBit(was[index / 8], index % 8, value)]) == Bits(was)[index := value]
  {
    var now := was[index / 8 := WithBit(was[index / 8], index % 8, value)];
    forall j | 0 <= j < 8 * |was| ensures Bits(now)[j] == Bits(was)[index := value][j] {
      OneBitAt(was, index, value, j);
    }
  }

  /** The bits agree with `was`, except that lo..hi now hold `value`. */
  ghost predicate RangeSet(was: seq<bv8>, now: seq<bv8>, lo: nat, hi: nat, value: bool)
  {
    && |now| == |was|
    && forall j :: 0 <= j < 8 * |was| ==> Bit(now, j) == if lo <= j < hi then value else Bit(was, j)
  }

  class Bitmap {
    const data: array<bv8>

    constructor (bytes: nat)
      ensures fresh(data) && data.Length == bytes
      ensures forall i :: 0 <= i < bytes ==> data[i] == 0xFF
    {
      data := new bv8[bytes](_ => 0xFF);
    }

    method Get(index: nat) returns (value: bool)
      requires index < 8 * data.Length
      ensures value == Bits(data[..])[index]
      ensures value <==> (data[index / 8] >> (index % 8)) & 1 == 1
    {
      BitIs(data[..], index);
      value := data[index / 8] & Mask(index % 8) != 0;
    }

    method Set(index: nat, value: bool)
      requires index < 8 * data.Length
      modifies data
      ensures Bits(data[..]) == old(Bits(data[..]))[index := value]
    {
      ghost var was := data[..];
      data[index / 8] := WithBit(data[index / 8], index % 8, value);
      OneBitSet(was, index, value);
      assert data[..] == was[index / 8 := data[index / 8]];
    }

    /** Single bits up to a byte boundary, whole bytes, single bits after the last boundary. */
    method SetRange(index: nat, count: nat, value: bool)
      requires index + count <= 8 * data.Length
      modifies data
      ensures Bits(data[..]) == SetEach(old(Bits(data[..])), index, count, value)
    {
      ghost var was := data[..];
      var end := index + count;
      var i := index;
      while i % 8 != 0 && i < end
        invariant index <= i <= end && RangeSet(was, data[..], index, i, value)
        decreases end - i
      {
        SetNext(i, value, was, index);
        i := i + 1;
      }
      var byteStart, byteEnd := i / 8, end / 8;
      if byteEnd > byteStart {
        FillBytes(byteStart, byteEnd, value, was, index);
        i := byteEnd * 8;
      }
      while i < end
        invariant index <= i <= end && RangeSet(was, data[..], index, i, value)
      {
        SetNext(i, value, was, index);
        i := i + 1;
      }
      RangeIsEach(was, data[..], index, count, value);
    }

    /** One step of either edge loop. */
    method SetNext(i: nat, value: bool, ghost was: seq<bv8>, ghost lo: nat)
      requires lo <= i < 8 * data.Length && RangeSet(was, data[..], lo, i, value)
      modifies data
      ensures RangeSet(was, data[..], lo, i + 1, value)
    {
      ghost var before := Bits(data[..]);
      Set(i, value);
      assert forall j :: 0 <= j < |before| ==> Bit(data[..], j) == before[i := value][j];
    }

    /** The bulk loop: bytes from..to become 0xFF or 0x00. */
    method FillBytes(from: nat, to: nat, value: bool, ghost was: seq<bv8>, ghost lo: nat)
      requires from < to <= data.Length && lo <= 8 * from && RangeSet(was, data[..], lo, 8 * from, value)
      modifies data
      ensures RangeSet(was, data[..], lo, 8 * to, value)
    {
      var fill := if value then 0xFF as bv8 else 0;
      for k := from to to
        invariant RangeSet(was, data[..], lo, 8 * k, value)
      {
        ghost var before := data[..];
        data[k] := fill;
        ByteFilled(was, before, k, fill, lo, value);
        assert data[..] == before[k := fill];
      }
    }
  }

  lemma ByteFilled(was: seq<bv8>, before: seq<bv8>, k: nat, fill: bv8, lo: nat, value: bool)
    requires k < |was| && lo <= 8 * k && RangeSet(was, before, lo, 8 * k, value)
    requires fill == if value then 0xFF else 0
    ensures RangeSet(was, before[k := fill], lo, 8 * (k + 1), value)
  {
    var now := before[k := fill];
    forall j | 0 <= j < 8 * |was|
      ensures Bit(now, j) == if lo <= j < 8 * (k + 1) then value else Bit(was, j)
    {
      if j / 8 == k {
        FullAndEmptyByte(j % 8);
      } else {
        assert Bit(now, j) == Bit(before, j);
      }
    }
  }

  lemma RangeIsEach(was: seq<bv8>, now: seq<bv8>, index: nat, count: nat, value: bool)
    requires index + count <= 8 * |was| && RangeSet(was, now, index, index + count, value)
    ensures Bits(now) == SetEach(Bits(was), index, count, value)
  {
    forall j | 0 <= j < 8 * |was| ensures Bits(now)[j] == SetEach(Bits(was), index, count, value)[j] {
      SetEachAt(Bits(was), index, count, value, j);
    }
  }
}
