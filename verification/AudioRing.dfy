/** The lock-free audio ring of kernel/hal/audio/ring_buffer.h.

    `x & (SIZE - 1)` is written `x % size`: the source's static_assert makes SIZE a power of two. */
module AudioRing {
  import opened Basics
  import opened Modular

  const WORD: nat := 0x1_0000_0000  // positions are uint32_t

  function Pow2(k: nat): (p: nat)
    ensures p > 0
  {
    if k == 0 then 1 else 2 * Pow2(k - 1)
  }

  /** Sizes a uint32_t template argument can have under the static_assert. */
  ghost predicate GoodSize(size: nat)
  {
    exists k: nat :: k <= 31 && size == Pow2(k)
  }

  lemma {:induction false} Pow2Product(a: nat, b: nat)
    ensures Pow2(a + b) == Pow2(a) * Pow2(b)
  {
    if a > 0 {
      Pow2Product(a - 1, b);
      assert Pow2(a + b) == 2 * Pow2(a - 1 + b);
    }
  }

  lemma WordIsPow2()
    ensures Pow2(32) == WORD
  {
    assert Pow2(4) == 16;
    Pow2Product(4, 4);
    Pow2Product(8, 8);
    Pow2Product(16, 16);
  }

  /** Why wrap-around of the positions is harmless: the size divides 2^32. */
  lemma SizeDividesWord(size: nat) returns (k: nat)
    requires GoodSize(size)
    ensures size > 0 && k > 0 && size * k == WORD
  {
    var e: nat :| e <= 31 && size == Pow2(e);
    Pow2Product(e, 32 - e);
    k := Pow2(32 - e);
    WordIsPow2();
  }

  /** (w - r) & (SIZE - 1) on wrapped positions counts the pending bytes. */
  function Pending(size: nat, w: nat, r: nat): nat
    requires size > 0
  {
    (w - r) % WORD % size
  }

  /** The masked difference of two wrapped positions is their true distance. */
  lemma PendingExact(size: nat, w: nat, r: nat)
    requires GoodSize(size) && r <= w < r + size
    ensures size > 0 && Pending(size, w % WORD, r % WORD) == w - r
  {
    var k := SizeDividesWord(size);
    SubResidue(w, r, WORD);
    CoarseResidue(w - r, size, k);
    Small(w - r, size);
  }

  lemma SlotOf(size: nat, w: nat)
    requires GoodSize(size)
    ensures size > 0 && w % WORD % size == w % size
  {
    var k := SizeDividesWord(size);
    CoarseResidue(w, size, k);
  }

  // --- one producer and one consumer, interleaved byte by byte ---

  datatype Producer = PIdle | PCopy(data: seq<byte>, w: nat, i: nat)
  datatype Consumer = CIdle | CCopy(len: nat, r: nat, i: nat)

  datatype State = State(
    buffer: seq<byte>,
    writePos: nat,
    readPos: nat,
    prod: Producer,
    cons: Consumer,
    written: seq<byte>,  // auxiliary: every byte published so far
    taken: seq<byte>,    // auxiliary: every byte copied out so far
    retired: nat         // auxiliary: bytes whose Read has advanced read_pos
  )

  ghost predicate Init(s: State, size: nat)
  {
    && |s.buffer| == size
    && s == State(s.buffer, 0, 0, PIdle, CIdle, [], [], 0)
  }

  /** Write: read both positions and clip the length to the free space. */
  ghost predicate WriteStart(s: State, s': State, data: seq<byte>)
    requires |s.buffer| > 0
  {
    var size := |s.buffer|;
    var available := size - 1 - Pending(size, s.writePos, s.readPos);
    && s.prod.PIdle?
    && s' == s.(prod := PCopy(if |data| > available then data[..available] else data, s.writePos % size, 0))
  }

  ghost predicate WriteByte(s: State, s': State)
    requires |s.buffer| > 0
  {
    && s.prod.PCopy? && s.prod.i < |s.prod.data| && s.prod.w < |s.buffer|
    && s' == s.(buffer := s.buffer[s.prod.w := s.prod.data[s.prod.i]],
                prod := PCopy(s.prod.data, (s.prod.w + 1) % |s.buffer|, s.prod.i + 1))
  }

  ghost predicate WriteFinish(s: State, s': State)
  {
    && s.prod.PCopy? && s.prod.i == |s.prod.data|
    && s' == s.(writePos := (s.writePos + |s.prod.data|) % WORD, prod := PIdle,
                written := s.written + s.prod.data)
  }

  /** Read: read both positions and clip the length to what is pending. */
  ghost predicate ReadStart(s: State, s': State, len: nat)
    requires |s.buffer| > 0
  {
    var size := |s.buffer|;
    var available := Pending(size, s.writePos, s.readPos);
    && s.cons.CIdle?
    && s' == s.(cons := CCopy(if len > available then available else len, s.readPos % size, 0))
  }

  ghost predicate ReadByte(s: State, s': State)
    requires |s.buffer| > 0
  {
    && s.cons.CCopy? && s.cons.i < s.cons.len && s.cons.r < |s.buffer|
    && s' == s.(cons := CCopy(s.cons.len, (s.cons.r + 1) % |s.buffer|, s.cons.i + 1),
                taken := s.taken + [s.buffer[s.cons.r]])
  }

  ghost predicate ReadFinish(s: State, s': State)
  {
    && s.cons.CCopy? && s.cons.i == s.cons.len
    && s' == s.(readPos := (s.readPos + s.cons.len) % WORD, cons := CIdle,
                retired := s.retired + s.cons.len)
  }

  ghost predicate Next(s: State, s': State)
    requires |s.buffer| > 0
  {
    || (exists data: seq<byte> :: WriteStart(s, s', data)) || WriteByte(s, s') || WriteFinish(s, s')
    || (exists len: nat :: ReadStart(s, s', len)) || ReadByte(s, s') || ReadFinish(s, s')
  }

  ghost predicate IsRun(run: seq<State>, size: nat)
  {
    && GoodSize(size)
    && |run| > 0
    && Init(run[0], size)
    && (forall i :: 0 <= i < |run| ==> |run[i].buffer| == size > 0)
    && forall i :: 0 <= i < |run| - 1 ==> Next(run[i], run[i + 1])
  }

  function Slot(from: nat, k: nat, size: nat): (j: nat)
    requires size > 0
    ensures j < size
  {
    (from + k) % size
  }

  /** The bytes stand in consecutive slots, starting at the slot of stream position `from`. */
  ghost predicate Slots(buffer: seq<byte>, from: nat, bytes: seq<byte>)
    requires |buffer| > 0
  {
    forall k :: 0 <= k < |bytes| ==> buffer[Slot(from, k, |buffer|)] == bytes[k]
  }

  /** Storing the next byte in the next slot extends a stretch of occupied slots. */
  lemma CopyStep(buffer: seq<byte>, from: nat, bytes: seq<byte>, b: byte, w: nat)
    requires |bytes| < |buffer| && Slots(buffer, from, bytes) && w == Slot(from, |bytes|, |buffer|)
    ensures Slots(buffer[w := b], from, bytes + [b])
    ensures (w + 1) % |buffer| == Slot(from, |bytes| + 1, |buffer|)
  {
    SlotsExtend(buffer, from, bytes, b);
    AddResidue(from + |bytes|, 1, |buffer|);
  }

  lemma SlotsExtend(buffer: seq<byte>, from: nat, bytes: seq<byte>, b: byte)
    requires |bytes| < |buffer| && Slots(buffer, from, bytes)
    ensures Slots(buffer[Slot(from, |bytes|, |buffer|) := b], from, bytes + [b])
  {
    var at := Slot(from, |bytes|, |buffer|);
    forall k | 0 <= k < |bytes| + 1
      ensures buffer[at := b][Slot(from, k, |buffer|)] == (bytes + [b])[k]
    {
      if k < |bytes| {
        Distinct(from + k, from + |bytes|, |buffer|);
      }
    }
  }

  /** Dropping the oldest bytes moves the start of the stretch forward. */
  lemma SlotsDrop(buffer: seq<byte>, from: nat, bytes: seq<byte>, n: nat)
    requires |buffer| > 0 && n <= |bytes| && Slots(buffer, from, bytes)
    ensures Slots(buffer, from + n, bytes[n..])
  {
    forall k | 0 <= k < |bytes[n..]|
      ensures buffer[Slot(from + n, k, |buffer|)] == bytes[n..][k]
    {
      assert Slot(from + n, k, |buffer|) == Slot(from, n + k, |buffer|);
    }
  }

  ghost predicate Inv(s: State)
  {
    var size := |s.buffer|;
    && GoodSize(size) && size > 0
    && s.retired <= |s.taken| <= |s.written|
    && s.taken == s.written[..|s.taken|]
    && |s.written| - s.retired <= size - 1
    && s.writePos == |s.written| % WORD
    && s.readPos == s.retired % WORD
    && Slots(s.buffer, s.retired, s.written[s.retired..] + InProgress(s.prod))
    && ProducerInv(s) && ConsumerInv(s)
  }

  /** Bytes a running Write has stored but not yet published. */
  ghost function InProgress(p: Producer): seq<byte>
  {
    if p.PCopy? && p.i <= |p.data| then p.data[..p.i] else []
  }

  ghost predicate ProducerInv(s: State)
    requires |s.buffer| > 0
  {
    s.prod.PCopy? ==>
      && s.prod.i <= |s.prod.data|
      && |s.written| + |s.prod.data| - s.retired <= |s.buffer| - 1
      && s.prod.w == (|s.written| + s.prod.i) % |s.buffer|
  }

  ghost predicate ConsumerInv(s: State)
    requires |s.buffer| > 0
  {
    match s.cons
    case CIdle => |s.taken| == s.retired
    case CCopy(len, r, i) =>
      && i <= len && s.retired + len <= |s.written|
      && |s.taken| == s.retired + i
      && r == (s.retired + i) % |s.buffer|
  }

  lemma WriteStartKeepsInv(s: State, s': State, data: seq<byte>)
    requires Inv(s) && WriteStart(s, s', data)
    ensures Inv(s')
  {
    PendingExact(|s.buffer|, |s.written|, s.retired);
    SlotOf(|s.buffer|, |s.written|);
    assert InProgress(s'.prod) == [];
  }

  lemma WriteByteKeepsInv(s: State, s': State)
    requires Inv(s) && WriteByte(s, s')
    ensures Inv(s')
  {
    AddResidue(|s.written| + s.prod.i, 1, |s.buffer|);
    var stored := s.written[s.retired..] + InProgress(s.prod);
    SlotsExtend(s.buffer, s.retired, stored, s.prod.data[s.prod.i]);
    assert stored + [s.prod.data[s.prod.i]] == s.written[s.retired..] + InProgress(s'.prod);
  }

  lemma WriteFinishKeepsInv(s: State, s': State)
    requires Inv(s) && WriteFinish(s, s')
    ensures Inv(s')
  {
    AddResidue(|s.written|, |s.prod.data|, WORD);
    assert s.written[s.retired..] + InProgress(s.prod) == s'.written[s.retired..] + InProgress(s'.prod);
  }

  lemma ReadStartKeepsInv(s: State, s': State, len: nat)
    requires Inv(s) && ReadStart(s, s', len)
    ensures Inv(s')
  {
    PendingExact(|s.buffer|, |s.written|, s.retired);
    SlotOf(|s.buffer|, s.retired);
  }

  lemma NextSlot(from: nat, k: nat, size: nat)
    requires size > 0
    ensures (Slot(from, k, size) + 1) % size == Slot(from, k + 1, size)
  {
    AddResidue(from + k, 1, size);
  }

  /** The byte in the slot of the i-th pending one is the one that was written there. */
  lemma StoredByte(buffer: seq<byte>, retired: nat, written: seq<byte>, more: seq<byte>, i: nat)
    requires |buffer| > 0 && retired + i < |written| && Slots(buffer, retired, written[retired..] + more)
    ensures buffer[Slot(retired, i, |buffer|)] == written[retired + i]
  {
    assert (written[retired..] + more)[i] == written[retired + i];
  }

  lemma ReadByteKeepsInv(s: State, s': State)
    requires Inv(s) && ReadByte(s, s')
    ensures Inv(s')
  {
    assert s'.cons.r == Slot(s.retired, s.cons.i + 1, |s.buffer|) by {
      NextSlot(s.retired, s.cons.i, |s.buffer|);
    }
    StoredByte(s.buffer, s.retired, s.written, InProgress(s.prod), s.cons.i);
    assert s.written[..|s.taken| + 1] == s.written[..|s.taken|] + [s.written[|s.taken|]];
  }

  /** What is stored once n bytes are retired. */
  lemma RetireSlots(buffer: seq<byte>, written: seq<byte>, retired: nat, n: nat, more: seq<byte>)
    requires |buffer| > 0 && retired + n <= |written| && Slots(buffer, retired, written[retired..] + more)
    ensures Slots(buffer, retired + n, written[retired + n..] + more)
  {
    var stored := written[retired..] + more;
    SlotsDrop(buffer, retired, stored, n);
    assert stored[n..] == written[retired + n..] + more;
  }

  lemma ReadFinishKeepsInv(s: State, s': State)
    requires Inv(s) && ReadFinish(s, s')
    ensures Inv(s')
  {
    assert s'.readPos == s'.retired % WORD by {
      AddResidue(s.retired, s.cons.len, WORD);
    }
    RetireSlots(s.buffer, s.written, s.retired, s.cons.len, InProgress(s.prod));
  }

  lemma StepKeepsInv(s: State, s': State)
    requires Inv(s) && Next(s, s')
    ensures Inv(s')
  {
    if data: seq<byte> :| WriteStart(s, s', data) {
      WriteStartKeepsInv(s, s', data);
    } else if WriteByte(s, s') {
      WriteByteKeepsInv(s, s');
    } else if WriteFinish(s, s') {
      WriteFinishKeepsInv(s, s');
    } else if len: nat :| ReadStart(s, s', len) {
      ReadStartKeepsInv(s, s', len);
    } else if ReadByte(s, s') {
      ReadByteKeepsInv(s, s');
    } else {
      ReadFinishKeepsInv(s, s');
    }
  }

  /** Under any interleaving the bytes taken are a prefix of the bytes written and at most
      SIZE - 1 bytes are pending, however often the 32-bit positions wrap. */
  lemma {:induction false} TakenIsPrefixOfWritten(run: seq<State>, size: nat, i: nat)
    requires IsRun(run, size) && i < |run|
    ensures run[i].taken <= run[i].written
    ensures |run[i].written| - run[i].retired <= size - 1
    ensures Inv(run[i])
  {
    if i > 0 {
      TakenIsPrefixOfWritten(run, size, i - 1);
      assert Next(run[i - 1], run[i - 1 + 1]);
      StepKeepsInv(run[i - 1], run[i]);
    }
  }

  /** In every state of every run a Write takes all of its data that fits beside the bytes not yet retired, and a
      Read as much as is published and not yet retired. */
  lemma TakeWhatFits(run: seq<State>, size: nat, i: nat, s': State, data: seq<byte>, len: nat)
    requires IsRun(run, size) && i < |run|
    ensures var s := run[i];
            var room := size - 1 - (|s.written| - s.retired);
            && room >= 0
            && (WriteStart(s, s', data) ==> s'.prod.data == if |data| <= room then data else data[..room])
            && (ReadStart(s, s', len) ==> s'.cons.len == if len <= size - 1 - room then len else size - 1 - room)
  {
    TakenIsPrefixOfWritten(run, size, i);
    PendingExact(size, |run[i].written|, run[i].retired);
  }

  // --- the operations themselves ---

  /** AudioRingBuffer<size>, called without interference. */
  class Ring {
    const size: nat
    const buffer: array<byte>
    var writePos: nat
    var readPos: nat
    ghost var written: seq<byte>  // all bytes ever accepted
    ghost var retired: nat        // how many of them were read back

    ghost predicate Valid()
      reads this, buffer
    {
      && GoodSize(size) && size > 0 && buffer.Length == size
      && retired <= |written| < retired + size
      && writePos == |written| % WORD && readPos == retired % WORD
      && Slots(buffer[..], retired, Contents())
    }

    /** The bytes waiting to be read, oldest first. */
    ghost function Contents(): seq<byte>
      requires retired <= |written|
      reads this
    {
      written[retired..]
    }

    constructor (size: nat)
      requires GoodSize(size) && size > 0
      ensures Valid() && Contents() == [] && this.size == size && fresh(buffer)
    {
      this.size := size;
      buffer := new byte[size](_ => 0);
      writePos, readPos, written, retired := 0, 0, [], 0;
    }

    /** The copy loop of Write. */
    method CopyIn(data: seq<byte>, len: nat)
      requires Valid() && len <= |data| && |Contents()| + len < size
      modifies buffer
      ensures Slots(buffer[..], retired, Contents() + data[..len])
    {
      ghost var before := Contents();
      assert writePos % size == Slot(retired, |before|, size) by { SlotOf(size, |written|); }
      var w := writePos % size;
      for i := 0 to len
        invariant w == Slot(retired, |before| + i, size)
        invariant Slots(buffer[..], retired, before + data[..i])
        modifies buffer
      {
        CopyStep(buffer[..], retired, before + data[..i], data[i], w);
        ghost var was := buffer[..];
        buffer[w] := data[i];
        assert buffer[..] == was[w := data[i]];
        assert before + data[..i] + [data[i]] == before + data[..i + 1];
        w := (w + 1) % size;
      }
    }

    /** Appends as much of data as fits and returns how much that was. */
    method Write(data: seq<byte>) returns (len: nat)
      requires Valid()
      modifies this`writePos, this`written, buffer
      ensures Valid()
      ensures len == if |data| > size - 1 - |old(Contents())| then size - 1 - |old(Contents())| else |data|
      ensures Contents() == old(Contents()) + data[..len] && retired == old(retired)
    {
      assert Pending(size, writePos, readPos) == |Contents()| by {
        PendingExact(size, |written|, retired);
      }
      var available := size - 1 - Pending(size, writePos, readPos);
      len := |data|;
      if len > available { len := available; }
      CopyIn(data, len);
      ghost var before := Contents();
      Publish(len, data[..len]);
      assert Contents() == before + data[..len];
    }

    /** The end of Write: the position moves past the new bytes. */
    method Publish(len: nat, ghost bytes: seq<byte>)
      requires writePos == |written| % WORD && len == |bytes|
      modifies this`writePos, this`written
      ensures written == old(written) + bytes && writePos == |written| % WORD
    {
      AddResidue(|written|, len, WORD);
      writePos := (writePos + len) % WORD;
      written := written + bytes;
    }

    /** Removes and returns the oldest bytes, at most len of them. */
    method Read(len: nat) returns (out: seq<byte>)
      requires Valid()
      modifies this`readPos, this`retired
      ensures Valid()
      ensures out == old(Contents())[..if len > |old(Contents())| then |old(Contents())| else len]
      ensures Contents() == old(Contents())[|out|..] && written == old(written)
    {
      assert Pending(size, writePos, readPos) == |written| - retired by { PendingExact(size, |written|, retired); }
      assert readPos % size == Slot(retired, 0, size) by { SlotOf(size, retired); }
      var available := Pending(size, writePos, readPos);
      var n := if len > available then available else len;
      var r := readPos % size;
      ghost var before := Contents();
      out := [];
      for i := 0 to n
        invariant r == Slot(retired, i, size)
        invariant out == before[..i]
      {
        assert buffer[..][r] == before[i];
        out := out + [buffer[r]];
        assert (r + 1) % size == (retired + (i + 1)) % size by { AddResidue(retired + i, 1, size); }
        r := (r + 1) % size;
      }
      assert (readPos + n) % WORD == (retired + n) % WORD by { AddResidue(retired, n, WORD); }
      readPos := (readPos + n) % WORD;
      retired := retired + n;
      SlotsDrop(buffer[..], old(retired), before, n);
      assert Contents() == before[n..];
    }
  }
}
