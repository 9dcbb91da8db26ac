/** Byte strings cut into pieces. */
module Chunks {
  import opened Bytes
  import opened Sequences

  function Flatten(cs: seq<seq<byte>>): seq<byte> {
    if cs == [] then [] else cs[0] + Flatten(cs[1..])
  }

  lemma {:induction false} FlattenAppend(a: seq<seq<byte>>, b: seq<seq<byte>>)
    ensures Flatten(a + b) == Flatten(a) + Flatten(b)
  {
    if a == [] {
      assert a + b == b;
    } else {
      FlattenAppend(a[1..], b);
      assert (a + b)[1..] == a[1..] + b;
      Assoc(a[0], Flatten(a[1..]), Flatten(b));
    }
  }

  /** How many of the pieces are complete within the first k bytes. */
  function CompleteWithin(cs: seq<seq<byte>>, k: nat): (n: nat)
    ensures n <= |cs|
  {
    if cs == [] || k < |cs[0]| then 0 else 1 + CompleteWithin(cs[1..], k - |cs[0]|)
  }

  /** The part of the prefix p behind its complete pieces. */
  function TailOf(cs: seq<seq<byte>>, p: seq<byte>): seq<byte> {
    if cs == [] || |p| < |cs[0]| then p else TailOf(cs[1..], p[|cs[0]|..])
  }

  lemma PrefixOfSum(p: seq<byte>, a: seq<byte>, b: seq<byte>)
    requires p <= a + b
    ensures |p| < |a| ==> p < a
    ensures |p| >= |a| ==> p == a + p[|a|..] && p[|a|..] <= b
  {
    assert p == (a + b)[..|p|];
    if |p| < |a| {
      assert p == a[..|p|];
    } else {
      assert p[..|a|] == a;
      assert p[|a|..] == b[..|p| - |a|];
    }
  }

  lemma {:induction false} PrefixIsPiecesAndTail(cs: seq<seq<byte>>, p: seq<byte>)
    requires p <= Flatten(cs)
    ensures var n := CompleteWithin(cs, |p|);
            && p == Flatten(cs[..n]) + TailOf(cs, p)
            && (n == |cs| ==> TailOf(cs, p) == [])
            && (n < |cs| ==> TailOf(cs, p) < cs[n])
  {
    TakeFlatten(cs);
    hide Flatten;
    if cs != [] {
      var first, q := cs[0], p[if |p| < |cs[0]| then 0 else |cs[0]|..];
      PrefixOfSum(p, first, Flatten(cs[1..]));
      if |p| >= |first| {
        var m := CompleteWithin(cs[1..], |q|);
        PrefixIsPiecesAndTail(cs[1..], q);
        Assoc(first, Flatten(cs[1..][..m]), TailOf(cs[1..], q));
        assert p == Flatten(cs[..m + 1]) + TailOf(cs[1..], q);
      } else {
        assert [] + p == p;
      }
    }
  }

  lemma TakeFlatten(cs: seq<seq<byte>>)
    ensures Flatten(cs[..0]) == []
    ensures cs == [] ==> Flatten(cs) == []
    ensures cs != [] ==> Flatten(cs) == cs[0] + Flatten(cs[1..])
    ensures forall m :: 0 <= m < |cs| ==> Flatten(cs[..m + 1]) == cs[0] + Flatten(cs[1..][..m])
  {
    forall m | 0 <= m < |cs|
      ensures Flatten(cs[..m + 1]) == cs[0] + Flatten(cs[1..][..m])
    {
      assert cs[..m + 1][1..] == cs[1..][..m];
    }
  }

  lemma {:induction false} CompleteWithinAll(cs: seq<seq<byte>>)
    ensures CompleteWithin(cs, |Flatten(cs)|) == |cs|
  {
    if cs != [] {
      CompleteWithinAll(cs[1..]);
    }
  }
}
