/** Buffer/Buffer.h and Buffer/Buffer.cpp: a byte deque over one growable array with headroom
    in front, so that a length can be put before data already appended. */
module BufferDeque {
  import opened Bytes
  import opened ByteOrder

  const DEFAULT_BUFFER_SIZE: nat := 4096
  const TINY_BUFFER_SIZE: nat := 64
  const IDX_BEGIN: nat := 8

  /** What a Buffer means: its readable bytes, where they start, and the size of its array. */
  datatype BufferState = BufferState(bytes: seq<byte>, readIdx: nat, capacity: nat) {
    function WriteIdx(): nat { readIdx + |bytes| }

    ghost predicate Valid() { IDX_BEGIN <= WriteIdx() <= capacity }

    function Writable(): nat
      requires Valid()
    {
      capacity - WriteIdx()
    }
  }

  datatype DequeOp =
    | Append(data: seq<byte>)
    | PushFront(front: seq<byte>)
    | Drop(count: nat)
    | Compact
    | ExternalWrite(written: seq<byte>)

  /** What the source demands before each operation: its assertion, the precondition of
      std::copy that its destination is not inside its source, and the bound of the array. */
  ghost predicate Allowed(s: BufferState, op: DequeOp)
    requires s.Valid()
  {
    match op
    case Append(_) => s.readIdx >= IDX_BEGIN
    case PushFront(d) => s.readIdx >= |d|
    case Drop(_) => true
    case Compact => s.readIdx >= IDX_BEGIN
    case ExternalWrite(d) => |d| <= s.Writable()
  }

  function Apply(s: BufferState, op: DequeOp): (t: BufferState)
    requires s.Valid() && Allowed(s, op)
    ensures t.Valid()
  {
    match op
    case Append(d) =>
      var room := s.capacity - IDX_BEGIN - |s.bytes|;
      BufferState(s.bytes + d, IDX_BEGIN,
                  if |d| > room then s.capacity + (|d| - room) + IDX_BEGIN else s.capacity)
    case PushFront(d) => s.(bytes := d + s.bytes, readIdx := s.readIdx - |d|)
    case Drop(n) =>
      var k := if n > |s.bytes| then |s.bytes| else n;
      s.(bytes := s.bytes[k..], readIdx := s.readIdx + k)
    case Compact => s.(readIdx := IDX_BEGIN)
    case ExternalWrite(d) => s.(bytes := s.bytes + d)
  }

  ghost predicate AllAllowed(s: BufferState, ops: seq<DequeOp>)
    requires s.Valid()
    decreases |ops|
  {
    ops == [] || (Allowed(s, ops[0]) && AllAllowed(Apply(s, ops[0]), ops[1..]))
  }

  function Run(s: BufferState, ops: seq<DequeOp>): (t: BufferState)
    requires s.Valid() && AllAllowed(s, ops)
    ensures t.Valid()
    decreases |ops|
  {
    if ops == [] then s else Run(Apply(s, ops[0]), ops[1..])
  }

  /** The bytes an operation adds behind the others. */
  function Added(op: DequeOp): seq<byte> {
    match op
    case Append(d) => d
    case ExternalWrite(d) => d
    case _ => []
  }

  function Entered(ops: seq<DequeOp>): seq<byte> {
    if ops == [] then [] else Added(ops[0]) + Entered(ops[1..])
  }

  ghost predicate NoFrontInsertion(ops: seq<DequeOp>) {
    forall op :: op in ops ==> !op.PushFront?
  }

  /** The bytes an operation takes away in front. */
  function Removed(s: BufferState, op: DequeOp): seq<byte> {
    if !op.Drop? then [] else if op.count > |s.bytes| then s.bytes else s.bytes[..op.count]
  }

  function Gone(s: BufferState, ops: seq<DequeOp>): seq<byte>
    requires s.Valid() && AllAllowed(s, ops)
    decreases |ops|
  {
    if ops == [] then [] else Removed(s, ops[0]) + Gone(Apply(s, ops[0]), ops[1..])
  }

  lemma StepConserves(s: BufferState, op: DequeOp)
    requires s.Valid() && Allowed(s, op) && !op.PushFront?
    ensures Removed(s, op) + Apply(s, op).bytes == s.bytes + Added(op)
  {
  }

  /** Without front insertions the buffer is a queue: what left, followed by what is readable, is what
      entered, so growth and compaction never change, duplicate or reorder a byte. */
  lemma {:induction false} QueueConserves(s: BufferState, ops: seq<DequeOp>)
    requires s.Valid() && AllAllowed(s, ops) && NoFrontInsertion(ops)
    ensures Gone(s, ops) + Run(s, ops).bytes == s.bytes + Entered(ops)
    decreases |ops|
  {
    hide Apply, Allowed, Removed, Added;
    if ops != [] {
      var t, r, a := Apply(s, ops[0]), Removed(s, ops[0]), Added(ops[0]);
      StepConserves(s, ops[0]);
      QueueConserves(t, ops[1..]);
      calc {
        Gone(s, ops) + Run(s, ops).bytes;
        r + Gone(t, ops[1..]) + Run(t, ops[1..]).bytes;
        r + (Gone(t, ops[1..]) + Run(t, ops[1..]).bytes);
        r + (t.bytes + Entered(ops[1..]));
        r + t.bytes + Entered(ops[1..]);
        s.bytes + a + Entered(ops[1..]);
        s.bytes + Entered(ops);
      }
    }
  }

  /** The layout is never visible: buffers that hold the same bytes, whatever their headroom, position and
      capacity, hold the same bytes after the same operations, front insertions included. */
  lemma {:induction false} LayoutIsInvisible(s: BufferState, t: BufferState, ops: seq<DequeOp>)
    requires s.Valid() && t.Valid() && s.bytes == t.bytes && AllAllowed(s, ops) && AllAllowed(t, ops)
    ensures Run(s, ops).bytes == Run(t, ops).bytes
    decreases |ops|
  {
    if ops != [] {
      LayoutIsInvisible(Apply(s, ops[0]), Apply(t, ops[0]), ops[1..]);
    }
  }

  /** An appended number can always be preceded by a pushed-front one of up to 8 bytes, and
      dropping both restores exactly what was there before. */
  lemma AppendThenFrameThenDrop(s: BufferState, d: seq<byte>, prefix: seq<byte>)
    requires s.Valid() && Allowed(s, Append(d)) && |prefix| <= IDX_BEGIN
    ensures Allowed(Apply(s, Append(d)), PushFront(prefix))
    ensures var t := Apply(Apply(s, Append(d)), PushFront(prefix));
            t.bytes == prefix + s.bytes + d &&
            Apply(t, Drop(|prefix|)) == Apply(s, Append(d))
  {
    var u := Apply(s, Append(d));
    assert prefix + (s.bytes + d) == prefix + s.bytes + d;
    assert (prefix + u.bytes)[|prefix|..] == u.bytes;
  }

  /** An append grows the array exactly if what is readable, the headroom and the new bytes exceed it, and then leaves
      eight bytes to write. */
  lemma GrowthLeavesEight(s: BufferState, d: seq<byte>)
    requires s.Valid() && Allowed(s, Append(d))
    ensures var t := Apply(s, Append(d));
            && (8 + |s.bytes| + |d| <= s.capacity ==> t.capacity == s.capacity)
            && (8 + |s.bytes| + |d| > s.capacity ==> t.capacity == 8 + |s.bytes| + |d| + 8 && t.Writable() == 8)
  {
  }

  lemma Written(was: seq<byte>, d: seq<byte>, from: nat, at: nat)
    requires from <= at && at + |d| <= |was|
    ensures (was[..at] + d + was[at + |d|..])[from..at + |d|] == was[from..at] + d
  {
  }

  lemma Inserted(was: seq<byte>, d: seq<byte>, at: nat, to: nat)
    requires at + |d| <= to <= |was|
    ensures (was[..at] + d + was[at + |d|..])[at..to] == d + was[at + |d|..to]
  {
  }

  class Buffer {
    const little: bool  // byte order of the host
    var data: array<byte>
    var readIdx: nat
    var writeIdx: nat

    ghost predicate Valid()
      reads this
    {
      readIdx <= writeIdx && IDX_BEGIN <= writeIdx <= data.Length
    }

    ghost function State(): (s: BufferState)
      reads this, data
      requires Valid()
      ensures s.Valid() && s.WriteIdx() == writeIdx
      ensures s.readIdx == readIdx && s.capacity == data.Length
    {
      BufferState(data[readIdx..writeIdx], readIdx, data.Length)
    }

    constructor (little: bool, size: nat)
      ensures Valid() && fresh(data) && this.little == little
      ensures State() == BufferState([], IDX_BEGIN, size + IDX_BEGIN)
    {
      this.little := little;
      data := new byte[size + IDX_BEGIN](_ => 0);
      readIdx := IDX_BEGIN;
      writeIdx := IDX_BEGIN;
    }

    function ReadableSize(): (n: nat)
      reads this, data
      requires Valid()
      ensures n == |State().bytes|
    {
      writeIdx - readIdx
    }

    function WritableSize(): (n: nat)
      reads this, data
      requires Valid()
      ensures n == State().Writable()
    {
      data.Length - writeIdx
    }

    /** The read side of the raw pointer interface: the first n readable bytes. */
    function ReadBegin(n: nat): (d: seq<byte>)
      reads this, data
      requires Valid() && n <= ReadableSize()
      ensures d == State().bytes[..n]
    {
      data[readIdx..readIdx + n]
    }

    /** A write through WriteBegin() by the socket, followed by AddWriteIndex. */
    method WriteAndAddIndex(d: seq<byte>)
      requires Valid() && Allowed(State(), ExternalWrite(d))
      modifies this`writeIdx, data
      ensures Valid() && State() == Apply(old(State()), ExternalWrite(d))
    {
      ghost var was := data[..];
      CopyIn(d, writeIdx);
      Written(was, d, readIdx, writeIdx);
      writeIdx := writeIdx + |d|;
      assert data[readIdx..writeIdx] == data[..][readIdx..writeIdx];
      assert was[readIdx..writeIdx - |d|] == old(data[readIdx..writeIdx]);
    }

    /** memcpy into the array. */
    method CopyIn(d: seq<byte>, at: nat)
      requires at + |d| <= data.Length
      modifies data
      ensures data[..] == old(data[..at]) + d + old(data[at + |d|..])
    {
      ghost var was := data[..];
      for k := 0 to |d|
        invariant data[..] == was[..at] + d[..k] + was[at + k..]
      {
        data[at + k] := d[k];
      }
      assert d[..|d|] == d;
    }

    method AddReadIndex(n: nat)
      requires Valid()
      modifies this`readIdx
      ensures Valid() && State() == Apply(old(State()), Drop(n))
    {
      if n > ReadableSize() {
        readIdx := readIdx + ReadableSize();
      } else {
        readIdx := readIdx + n;
      }
    }

    /** std::copy of n bytes to a place in front of them, which they may overlap. */
    method CopyDown(from: nat, n: nat, to: nat)
      requires to <= from && from + n <= data.Length
      modifies data
      ensures data[to..to + n] == old(data[from..from + n])
    {
      ghost var was := data[..];
      for i := 0 to n
        modifies data
        invariant forall j :: to <= j < to + i ==> data[j] == was[from - to + j]
        invariant forall j :: from + i <= j < data.Length ==> data[j] == was[j]
      {
        data[to + i] := data[from + i];
      }
      assert data[to..to + n] == was[from..from + n];
    }

    method AdjustBuffer()
      requires Valid() && Allowed(State(), Compact)
      modifies this`readIdx, this`writeIdx, data
      ensures Valid() && State() == Apply(old(State()), Compact)
    {
      var length := ReadableSize();
      CopyDown(readIdx, length, IDX_BEGIN);
      readIdx := IDX_BEGIN;
      writeIdx := IDX_BEGIN + length;
    }

    /** std::vector::resize to newSize + IDX_BEGIN: keeps what fits, fills with zero. The indices stay, so shrinking
        below the write index leaves an invalid buffer. */
    method ReSize(newSize: nat)
      requires Valid()
      modifies this`data
      ensures fresh(data) && data.Length == newSize + IDX_BEGIN
      ensures forall i :: 0 <= i < data.Length ==> data[i] == if i < old(data.Length) then old(data[..])[i] else 0
      ensures Valid() <==> writeIdx <= newSize + IDX_BEGIN
      ensures Valid() ==> State() == old(State()).(capacity := newSize + IDX_BEGIN)
    {
      var grown := new byte[newSize + IDX_BEGIN](_ => 0);
      var n := if data.Length < grown.Length then data.Length else grown.Length;
      for i := 0 to n
        modifies grown
        invariant forall j :: 0 <= j < i ==> grown[j] == data[j]
        invariant forall j :: i <= j < grown.Length ==> grown[j] == 0
      {
        grown[i] := data[i];
      }
      data := grown;
      assert Valid() ==> data[readIdx..writeIdx] == old(data[readIdx..writeIdx]);
    }

    method AppendData(d: seq<byte>)
      requires Valid() && Allowed(State(), Append(d))
      modifies this`data, this`readIdx, this`writeIdx, data
      ensures Valid() && (data == old(data) || fresh(data))
      ensures State() == Apply(old(State()), Append(d))
    {
      AdjustBuffer();
      if |d| > WritableSize() {
        var remain := |d| - WritableSize();
        ReSize(data.Length + remain);
      }
      WriteAndAddIndex(d);
    }

    method PreAppendData(d: seq<byte>)
      requires Valid() && Allowed(State(), PushFront(d))
      modifies this`readIdx, data
      ensures Valid() && State() == Apply(old(State()), PushFront(d))
    {
      ghost var was := data[..];
      readIdx := readIdx - |d|;
      CopyIn(d, readIdx);
      Inserted(was, d, readIdx, writeIdx);
      assert data[readIdx..writeIdx] == data[..][readIdx..writeIdx];
      assert was[readIdx + |d|..writeIdx] == old(data[readIdx..writeIdx]);
    }

    /** The object bytes of hton(v). */
    method ToWire(n: nat, v: nat) returns (d: seq<byte>)
      requires v < Pow256(n)
      ensures d == BigEndian(n, v)
    {
      var converted := v;
      if IsLittleEndian(little) {
        converted := SwapEndian(little, n, v);
      }
      d := ObjectBytes(little, n, converted);
      HtonWritesNetworkOrder(little, n, v);
    }

    method AppendNumber(n: nat, v: nat)
      requires Valid() && readIdx >= IDX_BEGIN && v < Pow256(n)
      modifies this`data, this`readIdx, this`writeIdx, data
      ensures Valid() && (data == old(data) || fresh(data))
      ensures State() == Apply(old(State()), Append(BigEndian(n, v)))
    {
      var d := ToWire(n, v);
      AppendData(d);
    }

    method PreAppendNumber(n: nat, v: nat)
      requires Valid() && readIdx >= n && v < Pow256(n)
      modifies this`readIdx, data
      ensures Valid() && State() == Apply(old(State()), PushFront(BigEndian(n, v)))
    {
      var d := ToWire(n, v);
      PreAppendData(d);
    }

    method PeekNumber(n: nat) returns (v: nat)
      requires Valid() && ReadableSize() >= n
      ensures v == FromBigEndian(State().bytes[..n]) && v < Pow256(n)
    {
      var raw := ReadBegin(n);
      v := FromObjectBytes(little, raw);
      NtohReadsNetworkOrder(little, raw);
      FromObjectBytesRoundTrip(little, raw);
      if IsLittleEndian(little) {
        v := SwapEndian(little, n, v);
      }
      BigEndianOfFromBigEndian(raw);
    }

    method ReadNumber(n: nat) returns (v: nat)
      requires Valid() && ReadableSize() >= n
      modifies this`readIdx
      ensures v == FromBigEndian(old(State()).bytes[..n]) && v < Pow256(n)
      ensures Valid() && State() == Apply(old(State()), Drop(n))
    {
      v := PeekNumber(n);
      AddReadIndex(n);
    }
  }

  /** Any sequence of operations on a buffer object does what it does to the sequence of its bytes; by
      LayoutIsInvisible, two objects that hold the same bytes cannot be told apart by them. */
  method Perform(buffer: Buffer, ops: seq<DequeOp>)
    requires buffer.Valid() && AllAllowed(buffer.State(), ops)
    modifies buffer, buffer.data
    ensures buffer.Valid() && (buffer.data == old(buffer.data) || fresh(buffer.data))
    ensures buffer.State() == Run(old(buffer.State()), ops)
  {
    hide Apply, Allowed, Buffer.State;
    ghost var goal := Run(buffer.State(), ops);
    var i := 0;
    assert ops[0..] == ops;
    while i < |ops|
      invariant i <= |ops| && buffer.Valid() && (buffer.data == old(buffer.data) || fresh(buffer.data))
      invariant AllAllowed(buffer.State(), ops[i..]) && Run(buffer.State(), ops[i..]) == goal
    {
      assert ops[i..][0] == ops[i] && ops[i..][1..] == ops[i + 1..];
      match ops[i] {
        case Append(data) =>
          buffer.AppendData(data);
        case PushFront(front) =>
          buffer.PreAppendData(front);
        case Drop(count) =>
          buffer.AddReadIndex(count);
        case Compact =>
          buffer.AdjustBuffer();
        case ExternalWrite(written) =>
          buffer.WriteAndAddIndex(written);
      }
      i := i + 1;
    }
  }
}
