/** Third/asio/asio/buffer.hpp: the overloads of buffer_copy, over one memory in which buffers are regions. */
module BufferCopy {
  import opened Bytes

  /** mutable_buffer and const_buffer: an address and a size. */
  datatype Region = Region(data: nat, size: nat)

  /** The clamped operator+. */
  function Offset(b: Region, n: nat): Region {
    var k := if n < b.size then n else b.size;
    Region(b.data + k, b.size - k)
  }

  /** asio::buffer(b, n). */
  function Clamp(b: Region, n: nat): Region {
    Region(b.data, if b.size < n then b.size else n)
  }

  function Span(b: Region): (s: seq<nat>)
    ensures |s| == b.size && forall k :: 0 <= k < b.size ==> s[k] == b.data + k
  {
    seq(b.size, k requires k >= 0 => b.data + k)
  }

  /** The addresses of a buffer sequence, flattened. */
  function Addresses(bufs: seq<Region>): seq<nat> {
    if bufs == [] then [] else Span(bufs[0]) + Addresses(bufs[1..])
  }

  function BufferSize(bufs: seq<Region>): nat {
    |Addresses(bufs)|
  }

  ghost predicate InMemory(addresses: seq<nat>, size: nat) {
    forall k :: 0 <= k < |addresses| ==> addresses[k] < size
  }

  /** The bytes of a buffer sequence, flattened. */
  function View(mem: seq<byte>, addresses: seq<nat>): (v: seq<byte>)
    requires InMemory(addresses, |mem|)
    ensures |v| == |addresses|
  {
    seq(|addresses|, k requires 0 <= k < |addresses| && InMemory(addresses, |mem|) => mem[addresses[k]])
  }

  ghost predicate Disjoint(t: seq<nat>, s: seq<nat>) {
    && (forall i, j :: 0 <= i < j < |t| ==> t[i] != t[j])
    && (forall i, j :: 0 <= i < |t| && 0 <= j < |s| ==> t[i] != s[j])
  }

  /** now is old with the first n bytes at s written to the first n addresses of t, and nothing else. */
  ghost predicate Copied(was: seq<byte>, now: seq<byte>, t: seq<nat>, s: seq<nat>, n: nat) {
    && |now| == |was| && n <= |t| && n <= |s|
    && InMemory(t, |was|) && InMemory(s, |was|)
    && (forall k :: 0 <= k < n ==> now[t[k]] == was[s[k]])
    && (forall a :: 0 <= a < |was| && a !in t[..n] ==> now[a] == was[a])
  }

  /** The specification determines the whole memory: every overload that meets it does the same. */
  lemma CopiedIsUnique(was: seq<byte>, x: seq<byte>, y: seq<byte>, t: seq<nat>, s: seq<nat>, n: nat)
    requires Copied(was, x, t, s, n) && Copied(was, y, t, s, n)
    ensures x == y
  {
    forall a | 0 <= a < |was|
      ensures x[a] == y[a]
    {
      if a in t[..n] {
        var k :| 0 <= k < n && t[..n][k] == a;
        assert x[t[k]] == was[s[k]] == y[t[k]];
      }
    }
  }

  /** Seen through the buffers: the target starts with the source bytes and keeps its old tail, the source and
      all other memory are unchanged. */
  lemma CopiedViews(was: seq<byte>, now: seq<byte>, t: seq<nat>, s: seq<nat>, n: nat)
    requires Copied(was, now, t, s, n) && Disjoint(t, s)
    ensures View(now, t) == View(was, s)[..n] + View(was, t)[n..]
    ensures View(now, s) == View(was, s)
    ensures forall a :: 0 <= a < |was| && a !in t ==> now[a] == was[a]
  {
    forall k | n <= k < |t|
      ensures now[t[k]] == was[t[k]]
    {
      assert t[k] !in t[..n];
    }
    forall k | 0 <= k < |s|
      ensures now[s[k]] == was[s[k]]
    {
      assert s[k] !in t[..n];
    }
  }

  lemma {:induction false} AddressAt(bufs: seq<Region>, i: nat, j: nat)
    requires i < |bufs| && j < bufs[i].size
    ensures BufferSize(bufs[..i]) + j < BufferSize(bufs)
    ensures Addresses(bufs)[BufferSize(bufs[..i]) + j] == bufs[i].data + j
  {
    if i > 0 {
      AddressAt(bufs[1..], i - 1, j);
      assert bufs[..i][1..] == bufs[1..][..i - 1];
    }
  }

  lemma {:induction false} SizeNext(bufs: seq<Region>, i: nat)
    requires i < |bufs|
    ensures BufferSize(bufs[..i + 1]) == BufferSize(bufs[..i]) + bufs[i].size
  {
    if i > 0 {
      SizeNext(bufs[1..], i - 1);
      assert bufs[..i][1..] == bufs[1..][..i - 1];
      assert bufs[..i + 1][1..] == bufs[1..][..i];
    } else {
      assert bufs[..1][1..] == [];
    }
  }

  lemma {:induction false} SizeAtMost(bufs: seq<Region>, i: nat)
    requires i <= |bufs|
    ensures BufferSize(bufs[..i]) <= BufferSize(bufs)
    decreases |bufs| - i
  {
    if i == |bufs| {
      assert bufs[..i] == bufs;
    } else {
      SizeNext(bufs, i);
      SizeAtMost(bufs, i + 1);
    }
  }

  /** Where the walk is: `offset` bytes into buffer `i`, `total` bytes from the beginning. */
  ghost predicate At(bufs: seq<Region>, i: nat, offset: nat, total: nat) {
    && i <= |bufs| && total == BufferSize(bufs[..i]) + offset
    && (if i < |bufs| then offset <= bufs[i].size else offset == 0)
  }

  /** Addresses [from, from + n) of the flattened sequence are consecutive, beginning at `data`. */
  ghost predicate Stretch(addresses: seq<nat>, from: nat, data: nat, n: nat) {
    && from + n <= |addresses|
    && forall x :: from <= x < from + n ==> addresses[x] == data + (x - from)
  }

  /** The piece of the current buffer that starts at the place of the walk is the next stretch of addresses. */
  lemma PieceAt(bufs: seq<Region>, i: nat, offset: nat, total: nat, n: nat)
    requires At(bufs, i, offset, total) && i < |bufs| && offset + n <= bufs[i].size
    ensures Stretch(Addresses(bufs), total, bufs[i].data + offset, n)
  {
    SizeNext(bufs, i);
    SizeAtMost(bufs, i + 1);
    forall x | total <= x < total + n
      ensures Addresses(bufs)[x] == bufs[i].data + offset + (x - total)
    {
      hide Addresses, BufferSize;
      AddressAt(bufs, i, offset + (x - total));
    }
  }

  /** The step after n bytes: to the next buffer exactly when this one is used up. */
  lemma StepAt(bufs: seq<Region>, i: nat, offset: nat, total: nat, n: nat)
    requires At(bufs, i, offset, total) && i < |bufs| && offset + n <= bufs[i].size
    ensures if offset + n == bufs[i].size then At(bufs, i + 1, 0, total + n) else At(bufs, i, offset + n, total + n)
  {
    SizeNext(bufs, i);
  }

  /** n bytes moved from one consecutive stretch of memory to another. */
  ghost predicate Moved(was: seq<byte>, now: seq<byte>, target: nat, source: nat, n: nat) {
    && |now| == |was| && (n > 0 ==> target + n <= |was| && source + n <= |was|)
    && (forall a :: target <= a < target + n ==> now[a] == was[source + (a - target)])
    && (forall a :: 0 <= a < |was| && !(target <= a < target + n) ==> now[a] == was[a])
  }

  lemma CopiedStep(was: seq<byte>, mid: seq<byte>, now: seq<byte>, t: seq<nat>, s: seq<nat>, total: nat,
                   target: nat, source: nat, n: nat)
    requires Disjoint(t, s) && Copied(was, mid, t, s, total)
    requires Stretch(t, total, target, n) && Stretch(s, total, source, n) && Moved(mid, now, target, source, n)
    ensures Copied(was, now, t, s, total + n)
  {
    forall k | 0 <= k < total + n
      ensures now[t[k]] == was[s[k]]
    {
      assert t[k] < |was| && s[k] < |was|;
      if k < total {
        NotInStretch(t, total, target, n, k);
      } else {
        assert s[k] == source + (t[k] - target);
        assert s[k] !in t[..total];
      }
    }
    forall a | 0 <= a < |was| && a !in t[..total + n]
      ensures now[a] == was[a]
    {
      if target <= a < target + n {
        var x := IndexInStretch(t, total, target, n, a);
      } else {
        assert forall j :: 0 <= j < total ==> t[..total][j] == t[..total + n][j];
      }
    }
  }

  lemma IndexInStretch(t: seq<nat>, total: nat, target: nat, n: nat, a: nat) returns (x: nat)
    requires Stretch(t, total, target, n) && target <= a < target + n
    ensures total <= x < total + n && t[x] == a && a in t[..total + n]
  {
    x := total + (a - target);
    assert t[..total + n][x] == t[x];
  }

  lemma NotInStretch(t: seq<nat>, total: nat, target: nat, n: nat, k: nat)
    requires Disjoint(t, []) && Stretch(t, total, target, n) && k < total
    ensures !(target <= t[k] < target + n)
  {
    if target <= t[k] < target + n {
      var x := IndexInStretch(t, total, target, n, t[k]);
    }
  }

  function Min(a: nat, b: nat): nat {
    if a < b then a else b
  }

  ghost predicate Apart(t: Region, s: Region) {
    t.size == 0 || s.size == 0 || t.data + t.size <= s.data || s.data + s.size <= t.data
  }

  ghost predicate Fits(b: Region, size: nat) {
    b.size > 0 ==> b.data + b.size <= size
  }

  /** buffer_copy_1: one memcpy of the smaller size. */
  method BufferCopy1(mem: array<byte>, target: Region, source: Region) returns (n: nat)
    requires Fits(target, mem.Length) && Fits(source, mem.Length) && Apart(target, source)
    modifies mem
    ensures n == Min(target.size, source.size)
    ensures Moved(old(mem[..]), mem[..], target.data, source.data, n)
  {
    n := if target.size < source.size then target.size else source.size;
    ghost var was := mem[..];
    for k := 0 to n
      invariant Moved(was, mem[..], target.data, source.data, k)
    {
      assert mem[..][source.data + k] == was[source.data + k];
      mem[target.data + k] := mem[source.data + k];
    }
  }

  /** What every overload promises; t and s are the flattened addresses. */
  ghost predicate CopiesPrefix(was: seq<byte>, now: seq<byte>, t: seq<nat>, s: seq<nat>, max: nat, n: nat) {
    n == Min(Min(|t|, |s|), max) && Copied(was, now, t, s, n)
  }

  /** What every overload demands: valid buffers, no overlap. */
  ghost predicate Separate(ts: seq<Region>, ss: seq<Region>, size: nat) {
    && InMemory(Addresses(ts), size) && InMemory(Addresses(ss), size)
    && Disjoint(Addresses(ts), Addresses(ss))
  }

  /** `piece` is the rest of buffer i behind `offset`, or the beginning of that rest. */
  ghost predicate PieceOf(piece: Region, bufs: seq<Region>, i: nat, offset: nat) {
    i < |bufs| && piece.data == bufs[i].data + offset && offset + piece.size <= bufs[i].size
  }

  /** buffer_copy_1 on two pieces inside a walk over both sequences. */
  method CopyPiece(mem: array<byte>, target: Region, source: Region, ghost was: seq<byte>, ghost total: nat,
                   ghost ts: seq<Region>, ghost ti: nat, ghost tOffset: nat,
                   ghost ss: seq<Region>, ghost si: nat, ghost sOffset: nat)
    returns (n: nat)
    requires At(ts, ti, tOffset, total) && At(ss, si, sOffset, total) && Separate(ts, ss, mem.Length)
    requires PieceOf(target, ts, ti, tOffset) && PieceOf(source, ss, si, sOffset)
    requires Copied(was, mem[..], Addresses(ts), Addresses(ss), total)
    modifies mem
    ensures n == Min(target.size, source.size)
    ensures Copied(was, mem[..], Addresses(ts), Addresses(ss), total + n)
  {
    hide Copied, Disjoint, Stretch, Moved, Addresses, InMemory;
    PieceAt(ts, ti, tOffset, total, target.size);
    PieceAt(ss, si, sOffset, total, source.size);
    PiecesApart(Addresses(ts), Addresses(ss), total, target, source, mem.Length);
    ghost var mid := mem[..];
    n := BufferCopy1(mem, target, source);
    PieceAt(ts, ti, tOffset, total, n);
    PieceAt(ss, si, sOffset, total, n);
    CopiedStep(was, mid, mem[..], Addresses(ts), Addresses(ss), total, target.data, source.data, n);
  }

  lemma PiecesApart(t: seq<nat>, s: seq<nat>, total: nat, target: Region, source: Region, size: nat)
    requires InMemory(t, size) && InMemory(s, size) && Disjoint(t, s)
    requires Stretch(t, total, target.data, target.size) && Stretch(s, total, source.data, source.size)
    ensures Apart(target, source) && Fits(target, size) && Fits(source, size)
  {
    if target.size > 0 {
      assert t[total + target.size - 1] < size;
    }
    if source.size > 0 {
      assert s[total + source.size - 1] < size;
    }
    if !Apart(target, source) {
      var a := if target.data < source.data then source.data else target.data;
      var x := IndexInStretch(t, total, target.data, target.size, a);
      var y := IndexInStretch(s, total, source.data, source.size, a);
    }
  }

  /** One buffer to one buffer. */
  method BufferCopyOneOne(mem: array<byte>, target: Region, source: Region, max: nat) returns (n: nat)
    requires Separate([target], [source], mem.Length)
    modifies mem
    ensures CopiesPrefix(old(mem[..]), mem[..], Addresses([target]), Addresses([source]), max, n)
  {
    hide Copied, Disjoint;
    ghost var was := mem[..];
    WalkStarts(was, [target], [source]);
    n := CopyPiece(mem, target, Clamp(source, max), was, 0, [target], 0, 0, [source], 0, 0);
    SingleSize(target);
    SingleSize(source);
  }

  /** One buffer filled from many. */
  method BufferCopyOneMany(mem: array<byte>, target: Region, ss: seq<Region>, max: nat) returns (total: nat)
    requires Separate([target], ss, mem.Length)
    modifies mem
    ensures CopiesPrefix(old(mem[..]), mem[..], Addresses([target]), Addresses(ss), max, total)
  {
    hide Copied, Disjoint, Addresses, InMemory;
    ghost var was := mem[..];
    ghost var ts := [target];
    total := 0;
    var targetBuffer, si := Clamp(target, max), 0;
    WalkStarts(was, ts, ss);
    SingleSize(target);
    while targetBuffer.size != 0 && si != |ss|
      invariant total + targetBuffer.size == Min(target.size, max) && targetBuffer.data == target.data + total
      invariant At(ts, 0, total, total) && total <= BufferSize(ss)
      invariant targetBuffer.size != 0 ==> At(ss, si, 0, total)
      invariant Copied(was, mem[..], Addresses(ts), Addresses(ss), total)
      decreases |ss| - si
    {
      var sourceBuffer := ss[si];
      var n := CopyPiece(mem, targetBuffer, sourceBuffer, was, total, ts, 0, total, ss, si, 0);
      StepAt(ss, si, 0, total, n);
      PieceAt(ss, si, 0, total, n);
      total := total + n;
      targetBuffer := Offset(targetBuffer, n);
      si := si + 1;
    }
    if targetBuffer.size != 0 {
      WalkEnds(ss, si, 0, total);
    }
  }

  /** Many buffers filled from one. */
  method BufferCopyManyOne(mem: array<byte>, ts: seq<Region>, source: Region, max: nat) returns (total: nat)
    requires Separate(ts, [source], mem.Length)
    modifies mem
    ensures CopiesPrefix(old(mem[..]), mem[..], Addresses(ts), Addresses([source]), max, total)
  {
    hide Copied, Disjoint, Addresses, InMemory;
    ghost var was := mem[..];
    ghost var ss := [source];
    total := 0;
    var sourceBuffer, ti := Clamp(source, max), 0;
    WalkStarts(was, ts, ss);
    SingleSize(source);
    while sourceBuffer.size != 0 && ti != |ts|
      invariant total + sourceBuffer.size == Min(source.size, max) && sourceBuffer.data == source.data + total
      invariant At(ss, 0, total, total) && total <= BufferSize(ts)
      invariant sourceBuffer.size != 0 ==> At(ts, ti, 0, total)
      invariant Copied(was, mem[..], Addresses(ts), Addresses(ss), total)
      decreases |ts| - ti
    {
      var targetBuffer := ts[ti];
      var n := CopyPiece(mem, targetBuffer, sourceBuffer, was, total, ts, ti, 0, ss, 0, total);
      StepAt(ts, ti, 0, total, n);
      PieceAt(ts, ti, 0, total, n);
      total := total + n;
      sourceBuffer := Offset(sourceBuffer, n);
      ti := ti + 1;
    }
    if sourceBuffer.size != 0 {
      WalkEnds(ts, ti, 0, total);
    }
  }

  /** Many to many without a limit. */
  method BufferCopyManyMany(mem: array<byte>, ts: seq<Region>, ss: seq<Region>) returns (total: nat)
    requires Separate(ts, ss, mem.Length)
    modifies mem
    ensures CopiesPrefix(old(mem[..]), mem[..], Addresses(ts), Addresses(ss), BufferSize(ts), total)
  {
    hide Copied, Disjoint, Addresses, InMemory;
    ghost var was := mem[..];
    total := 0;
    var ti, tOffset, si, sOffset := 0, 0, 0, 0;
    WalkStarts(was, ts, ss);
    while ti != |ts| && si != |ss|
      invariant At(ts, ti, tOffset, total) && At(ss, si, sOffset, total)
      invariant Copied(was, mem[..], Addresses(ts), Addresses(ss), total)
      decreases |ts| - ti + |ss| - si
    {
      var targetBuffer, sourceBuffer := Offset(ts[ti], tOffset), Offset(ss[si], sOffset);
      var n := CopyPiece(mem, targetBuffer, sourceBuffer, was, total, ts, ti, tOffset, ss, si, sOffset);
      StepAt(ts, ti, tOffset, total, n);
      StepAt(ss, si, sOffset, total, n);
      total := total + n;
      if n == targetBuffer.size {
        ti, tOffset := ti + 1, 0;
      } else {
        tOffset := tOffset + n;
      }
      if n == sourceBuffer.size {
        si, sOffset := si + 1, 0;
      } else {
        sOffset := sOffset + n;
      }
    }
    WalkEnds(ts, ti, tOffset, total);
    WalkEnds(ss, si, sOffset, total);
  }

  /** Many to many with a limit: only the piece offered to buffer_copy_1 is clamped, so a clamped copy stays
      inside both buffers and ends the loop. */
  method BufferCopyManyManyMax(mem: array<byte>, ts: seq<Region>, ss: seq<Region>, max: nat) returns (total: nat)
    requires Separate(ts, ss, mem.Length)
    modifies mem
    ensures CopiesPrefix(old(mem[..]), mem[..], Addresses(ts), Addresses(ss), max, total)
  {
    hide Copied, Disjoint, Addresses, InMemory;
    ghost var was := mem[..];
    total := 0;
    var ti, tOffset, si, sOffset := 0, 0, 0, 0;
    WalkStarts(was, ts, ss);
    while total != max && ti != |ts| && si != |ss|
      invariant total <= max && At(ts, ti, tOffset, total) && At(ss, si, sOffset, total)
      invariant Copied(was, mem[..], Addresses(ts), Addresses(ss), total)
      decreases |ts| - ti + |ss| - si, max - total
    {
      var targetBuffer, sourceBuffer := Offset(ts[ti], tOffset), Offset(ss[si], sOffset);
      var n := CopyPiece(mem, targetBuffer, Clamp(sourceBuffer, max - total), was, total,
                         ts, ti, tOffset, ss, si, sOffset);
      StepAt(ts, ti, tOffset, total, n);
      StepAt(ss, si, sOffset, total, n);
      total := total + n;
      if n == targetBuffer.size {
        ti, tOffset := ti + 1, 0;
      } else {
        tOffset := tOffset + n;
      }
      if n == sourceBuffer.size {
        si, sOffset := si + 1, 0;
      } else {
        sOffset := sOffset + n;
      }
    }
    WalkEnds(ts, ti, tOffset, total);
    WalkEnds(ss, si, sOffset, total);
  }

  lemma SingleSize(b: Region)
    ensures Addresses([b]) == Span(b)
  {
    var one := [b];
    assert one[1..] == [];
  }

  lemma WalkStarts(was: seq<byte>, ts: seq<Region>, ss: seq<Region>)
    requires InMemory(Addresses(ts), |was|) && InMemory(Addresses(ss), |was|)
    ensures At(ts, 0, 0, 0) && At(ss, 0, 0, 0) && Copied(was, was, Addresses(ts), Addresses(ss), 0)
  {
    assert ts[..0] == [] && ss[..0] == [];
  }

  /** A walk never passes the end, and it is at the end when it has passed the last buffer. */
  lemma WalkEnds(bufs: seq<Region>, i: nat, offset: nat, total: nat)
    requires At(bufs, i, offset, total)
    ensures total <= BufferSize(bufs) && (i == |bufs| ==> total == BufferSize(bufs))
  {
    if i < |bufs| {
      SizeNext(bufs, i);
      SizeAtMost(bufs, i + 1);
    } else {
      assert bufs[..i] == bufs;
    }
  }

  /** The overloads agree: whatever two of them did to the same memory with the same buffers and limit, they
      returned the same count and left the same memory, and the target reads as the source's prefix. */
  lemma OverloadsAgree(was: seq<byte>, x: seq<byte>, y: seq<byte>, ts: seq<Region>, ss: seq<Region>,
                       max: nat, n: nat, m: nat)
    requires Separate(ts, ss, |was|)
    requires CopiesPrefix(was, x, Addresses(ts), Addresses(ss), max, n)
    requires CopiesPrefix(was, y, Addresses(ts), Addresses(ss), max, m)
    ensures n == m && x == y
    ensures var t, s := Addresses(ts), Addresses(ss);
            && View(x, t) == View(was, s)[..n] + View(was, t)[n..]
            && View(x, s) == View(was, s)
  {
    CopiedIsUnique(was, x, y, Addresses(ts), Addresses(ss), n);
    CopiedViews(was, x, Addresses(ts), Addresses(ss), n);
  }
}
