/** Third/asio/asio/buffers_iterator.hpp: a random access iterator over the bytes of a sequence of buffers. */
module BuffersIterator {
  import opened Bytes
  import opened Chunks

  /** The number of bytes in front of buffer i. */
  function Start(bufs: seq<seq<byte>>, i: nat): nat
    requires i <= |bufs|
  {
    |Flatten(bufs[..i])|
  }

  lemma StartNext(bufs: seq<seq<byte>>, i: nat)
    requires i < |bufs|
    ensures Start(bufs, i + 1) == Start(bufs, i) + |bufs[i]|
  {
    var one := [bufs[i]];
    assert bufs[..i + 1] == bufs[..i] + one;
    FlattenAppend(bufs[..i], one);
    assert one[1..] == [];
  }

  lemma {:induction false} StartIsMonotone(bufs: seq<seq<byte>>, i: nat, j: nat)
    requires i <= j <= |bufs|
    ensures Start(bufs, i) <= Start(bufs, j) <= |Flatten(bufs)|
    decreases |bufs| - i
  {
    assert bufs[..|bufs|] == bufs;
    if i < j {
      StartNext(bufs, i);
      StartIsMonotone(bufs, i + 1, j);
    } else if i < |bufs| {
      StartNext(bufs, i);
      StartIsMonotone(bufs, i + 1, i + 1);
    }
  }

  /** Byte k of buffer i is byte Start(i) + k of all of them. */
  lemma ByteOfBuffer(bufs: seq<seq<byte>>, i: nat, k: nat)
    requires i < |bufs| && k < |bufs[i]|
    ensures Start(bufs, i) + k < |Flatten(bufs)|
    ensures Flatten(bufs)[Start(bufs, i) + k] == bufs[i][k]
  {
    assert bufs == bufs[..i] + bufs[i..];
    FlattenAppend(bufs[..i], bufs[i..]);
  }

  /** A place an iterator can be at: inside a non-empty buffer, or at the end. */
  ghost predicate IsPlace(bufs: seq<seq<byte>>, current: nat, offset: nat) {
    current <= |bufs| && if current < |bufs| then offset < |bufs[current]| else offset == 0
  }

  /** The place is determined by the number of bytes before it, with empty buffers anywhere. */
  lemma PlaceIsUnique(bufs: seq<seq<byte>>, c: nat, o: nat, d: nat, p: nat)
    requires IsPlace(bufs, c, o) && IsPlace(bufs, d, p)
    ensures Start(bufs, c) + o == Start(bufs, d) + p <==> c == d && o == p
  {
    if c < d {
      StartNext(bufs, c);
      StartIsMonotone(bufs, c + 1, d);
    } else if d < c {
      StartNext(bufs, d);
      StartIsMonotone(bufs, d + 1, c);
    }
  }

  class Iterator {
    const bufs: seq<seq<byte>>
    var currentBuffer: seq<byte>
    var currentBufferPosition: nat
    var current: nat
    var position: nat

    ghost predicate Valid()
      reads this
    {
      && IsPlace(bufs, current, currentBufferPosition)
      && (current < |bufs| ==> currentBuffer == bufs[current])
      && position == Start(bufs, current) + currentBufferPosition
    }

    constructor Begin(bufs: seq<seq<byte>>)
      ensures Valid() && this.bufs == bufs && position == 0
    {
      this.bufs := bufs;
      currentBuffer, currentBufferPosition, current, position := [], 0, 0, 0;
      new;
      while current != |bufs|
        invariant this.bufs == bufs && current <= |bufs| && currentBufferPosition == 0 == position
        invariant Start(bufs, current) == 0
      {
        currentBuffer := bufs[current];
        if |currentBuffer| > 0 {
          break;
        }
        StartNext(bufs, current);
        current := current + 1;
      }
    }

    constructor End(bufs: seq<seq<byte>>)
      ensures Valid() && this.bufs == bufs && position == |Flatten(bufs)|
    {
      this.bufs := bufs;
      currentBuffer, currentBufferPosition, current, position := [], 0, 0, 0;
      new;
      while current != |bufs|
        invariant this.bufs == bufs && current <= |bufs| && currentBufferPosition == 0
        invariant position == Start(bufs, current)
      {
        StartNext(bufs, current);
        position := position + |bufs[current]|;
        current := current + 1;
      }
      assert bufs[..|bufs|] == bufs;
    }

    method Dereference() returns (b: byte)
      requires Valid() && position < |Flatten(bufs)|
      ensures b == Flatten(bufs)[position]
    {
      assert bufs[..|bufs|] == bufs;
      ByteOfBuffer(bufs, current, currentBufferPosition);
      b := currentBuffer[currentBufferPosition];
    }

    method Increment()
      requires Valid() && current != |bufs|
      modifies this
      ensures Valid() && position == old(position) + 1
    {
      position := position + 1;
      currentBufferPosition := currentBufferPosition + 1;
      if currentBufferPosition != |currentBuffer| {
        return;
      }
      StartNext(bufs, current);
      current := current + 1;
      currentBufferPosition := 0;
      while current != |bufs|
        invariant current <= |bufs| && currentBufferPosition == 0
        invariant position == old(position) + 1 == Start(bufs, current)
      {
        currentBuffer := bufs[current];
        if |currentBuffer| > 0 {
          return;
        }
        StartNext(bufs, current);
        current := current + 1;
      }
    }

    /** The inner loop of decrement and of a backward advance. */
    method PreviousNonEmpty() returns (iter: nat)
      requires current <= |bufs| && Start(bufs, current) > 0
      ensures iter < current && |bufs[iter]| > 0
      ensures Start(bufs, iter) + |bufs[iter]| == Start(bufs, current)
    {
      iter := current;
      while iter != 0
        invariant iter <= current && Start(bufs, iter) == Start(bufs, current)
      {
        iter := iter - 1;
        StartNext(bufs, iter);
        if |bufs[iter]| > 0 {
          return;
        }
      }
      assert false;
    }

    method Decrement()
      requires Valid() && position > 0
      modifies this
      ensures Valid() && position == old(position) - 1
    {
      position := position - 1;
      if currentBufferPosition != 0 {
        currentBufferPosition := currentBufferPosition - 1;
        return;
      }
      var iter := PreviousNonEmpty();
      current := iter;
      currentBuffer := bufs[iter];
      currentBufferPosition := |bufs[iter]| - 1;
    }

    method Advance(n: int)
      requires Valid() && 0 <= position + n <= |Flatten(bufs)|
      modifies this
      ensures Valid() && position == old(position) + n
    {
      if n > 0 {
        AdvanceForward(n);
      } else if n < 0 {
        AdvanceBackward(-n);
      }
    }

    method AdvanceForward(distance: nat)
      requires Valid() && 0 < distance && position + distance <= |Flatten(bufs)|
      modifies this
      ensures Valid() && position == old(position) + distance
    {
      var n := distance;
      assert bufs[..|bufs|] == bufs;
      while true
        invariant current < |bufs| && currentBuffer == bufs[current] && currentBufferPosition <= |currentBuffer|
        invariant position == Start(bufs, current) + currentBufferPosition
        invariant 0 <= n && position + n == old(position) + distance
        decreases |bufs| - current
      {
        var balance := |currentBuffer| - currentBufferPosition;
        if balance > n {
          position := position + n;
          currentBufferPosition := currentBufferPosition + n;
          return;
        }
        n := n - balance;
        position := position + balance;
        StartNext(bufs, current);
        current := current + 1;
        if current == |bufs| {
          currentBuffer := [];
          currentBufferPosition := 0;
          return;
        }
        currentBuffer := bufs[current];
        currentBufferPosition := 0;
      }
    }

    method AdvanceBackward(distance: nat)
      requires Valid() && 0 < distance <= position
      modifies this
      ensures Valid() && position == old(position) - distance
    {
      var absN := distance;
      while true
        invariant current <= |bufs| && 0 < absN <= position
        invariant if current == |bufs| then currentBufferPosition == 0
                  else currentBuffer == bufs[current] && currentBufferPosition <= |currentBuffer|
        invariant position == Start(bufs, current) + currentBufferPosition
        invariant position - absN == old(position) - distance
        decreases current
      {
        if currentBufferPosition >= absN {
          position := position - absN;
          currentBufferPosition := currentBufferPosition - absN;
          return;
        }
        absN := absN - currentBufferPosition;
        position := position - currentBufferPosition;
        if current == 0 {
          assert false;
        }
        var iter := PreviousNonEmpty();
        current := iter;
        currentBuffer := bufs[iter];
        currentBufferPosition := |bufs[iter]|;
      }
    }

    /** Element access at a signed distance, through a copy of the iterator. */
    method At(difference: int) returns (b: byte)
      requires Valid() && 0 <= position + difference < |Flatten(bufs)|
      ensures b == Flatten(bufs)[position + difference]
    {
      var tmp := new Iterator.Copy(this);
      tmp.Advance(difference);
      b := tmp.Dereference();
    }

    constructor Copy(other: Iterator)
      requires other.Valid()
      ensures Valid() && bufs == other.bufs && position == other.position
    {
      bufs := other.bufs;
      currentBuffer, currentBufferPosition := other.currentBuffer, other.currentBufferPosition;
      current, position := other.current, other.position;
    }

    /** Equality compares positions only, and that is exact: equal positions are the same place. */
    method Equal(other: Iterator) returns (same: bool)
      requires Valid() && other.Valid() && bufs == other.bufs
      ensures same <==> current == other.current && currentBufferPosition == other.currentBufferPosition
    {
      PlaceIsUnique(bufs, current, currentBufferPosition, other.current, other.currentBufferPosition);
      same := position == other.position;
    }

    /** The distance between two iterators is the advance that takes one to the place of the other. */
    method MoveTo(other: Iterator)
      requires Valid() && other.Valid() && bufs == other.bufs
      modifies this
      ensures Valid() && position == old(other.position)
      ensures current == old(other.current) && currentBufferPosition == old(other.currentBufferPosition)
    {
      var distance := other.position - position;
      StartIsMonotone(bufs, other.current, other.current);
      if other.current < |bufs| {
        ByteOfBuffer(bufs, other.current, other.currentBufferPosition);
      }
      ghost var c, o := other.current, other.currentBufferPosition;
      Advance(distance);
      PlaceIsUnique(bufs, current, currentBufferPosition, c, o);
    }
  }

  /** A long advance is the same as single steps: it ends at the same place, not only at the same position. */
  method AdvanceEqualsSteps(i: Iterator, j: Iterator, n: int)
    requires i != j && i.Valid() && j.Valid() && i.bufs == j.bufs && i.position == j.position
    requires 0 <= i.position + n <= |Flatten(i.bufs)|
    modifies i, j
    ensures i.Valid() && i.position == old(i.position) + n
    ensures i.current == j.current && i.currentBufferPosition == j.currentBufferPosition
    ensures i.position == j.position
  {
    i.Advance(n);
    var k := 0;
    while k != n
      invariant j.Valid() && i.Valid() && i.position == old(i.position) + n
      invariant j.position == old(i.position) + k
      invariant if n >= 0 then 0 <= k <= n else n <= k <= 0
      decreases if n >= 0 then n - k else k - n
    {
      if n > 0 {
        assert i.bufs[..|i.bufs|] == i.bufs;
        j.Increment();
        k := k + 1;
      } else {
        j.Decrement();
        k := k - 1;
      }
    }
    PlaceIsUnique(i.bufs, i.current, i.currentBufferPosition, j.current, j.currentBufferPosition);
  }
}
