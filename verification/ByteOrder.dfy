/** Buffer/ByteOrder.h: byte swapping between host and network order.

    A number of width n is an unsigned value below 256^n; `little` says whether the host
    stores its least significant byte first. */
module ByteOrder {
  import opened Bytes

  /** The bytes of the object holding v, in address order. */
  function ObjectBytes(little: bool, n: nat, v: nat): (s: seq<byte>)
    ensures |s| == n
  {
    if little then Reverse(BigEndian(n, v)) else BigEndian(n, v)
  }

  function FromObjectBytes(little: bool, s: seq<byte>): nat {
    FromBigEndian(if little then Reverse(s) else s)
  }

  lemma FromObjectBytesRoundTrip(little: bool, s: seq<byte>)
    ensures FromObjectBytes(little, s) < Pow256(|s|)
    ensures ObjectBytes(little, |s|, FromObjectBytes(little, s)) == s
  {
    if little {
      BigEndianOfFromBigEndian(Reverse(s));
      assert Reverse(Reverse(s)) == s;
    } else {
      BigEndianOfFromBigEndian(s);
    }
  }

  /** The endianness probe: the first byte in memory of 0x12345678. */
  predicate IsLittleEndian(little: bool) {
    ObjectBytes(little, 4, 0x12345678)[0] == 0x78
  }

  lemma ProbeIsExact(little: bool)
    ensures IsLittleEndian(little) <==> little
  {
    var b := BigEndian(4, 0x12345678);
    assert b == BigEndian(3, 0x123456) + [0x78];
    assert BigEndian(3, 0x123456) == BigEndian(2, 0x1234) + [0x56];
    assert BigEndian(2, 0x1234) == BigEndian(1, 0x12) + [0x34];
    assert BigEndian(1, 0x12) == BigEndian(0, 0) + [0x12];
  }

  /** The value whose bytes are those of v in the opposite order. */
  function Swapped(n: nat, v: nat): nat {
    FromBigEndian(Reverse(BigEndian(n, v)))
  }

  lemma SwappedBytes(n: nat, v: nat)
    ensures Swapped(n, v) < Pow256(n)
    ensures BigEndian(n, Swapped(n, v)) == Reverse(BigEndian(n, v))
  {
    BigEndianOfFromBigEndian(Reverse(BigEndian(n, v)));
  }

  lemma SwapIsInvolution(n: nat, v: nat)
    requires v < Pow256(n)
    ensures Swapped(n, Swapped(n, v)) == v
  {
    SwappedBytes(n, v);
    assert Reverse(Reverse(BigEndian(n, v))) == BigEndian(n, v);
    FromBigEndianOfBigEndian(n, v);
  }

  /** The swap loop, run on the object bytes of v. */
  method SwapEndian(little: bool, n: nat, v: nat) returns (r: nat)
    requires v < Pow256(n)
    ensures r == Swapped(n, v)
  {
    var source := ObjectBytes(little, n, v);
    var dest := new byte[n];
    for k := 0 to n
      invariant forall j :: 0 <= j < k ==> dest[j] == source[n - j - 1]
    {
      dest[k] := source[n - k - 1];
    }
    assert dest[..] == Reverse(source);
    assert Reverse(Reverse(source)) == source;
    r := FromObjectBytes(little, dest[..]);
  }

  function Hton(little: bool, n: nat, v: nat): nat {
    if IsLittleEndian(little) then Swapped(n, v) else v
  }

  function Ntoh(little: bool, n: nat, v: nat): nat {
    if IsLittleEndian(little) then Swapped(n, v) else v
  }

  lemma NtohOfHton(little: bool, n: nat, v: nat)
    requires v < Pow256(n)
    ensures Hton(little, n, v) < Pow256(n)
    ensures Ntoh(little, n, Hton(little, n, v)) == v
  {
    SwappedBytes(n, v);
    SwapIsInvolution(n, v);
  }

  /** On either host, converting and then copying the object out puts network order in memory. */
  lemma HtonWritesNetworkOrder(little: bool, n: nat, v: nat)
    requires v < Pow256(n)
    ensures ObjectBytes(little, n, Hton(little, n, v)) == BigEndian(n, v)
  {
    ProbeIsExact(little);
    SwappedBytes(n, v);
    assert Reverse(Reverse(BigEndian(n, v))) == BigEndian(n, v);
  }

  /** On either host, copying bytes into an object and converting reads them in network order. */
  lemma NtohReadsNetworkOrder(little: bool, s: seq<byte>)
    ensures Ntoh(little, |s|, FromObjectBytes(little, s)) == FromBigEndian(s)
  {
    ProbeIsExact(little);
    BigEndianOfFromBigEndian(Reverse(s));
    assert Reverse(Reverse(s)) == s;
  }
}
