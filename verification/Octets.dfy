/** One byte as a number and as a bit vector. */
module OneOctet {
  lemma BackFromBits(b: int)
    requires 0 <= b < 0x100
    ensures (b as bv8) as int == b
  {
  }

  lemma SameBits(a: int, b: int)
    requires 0 <= a < 0x100 && 0 <= b < 0x100 && a as bv8 == b as bv8
    ensures a == b
  {
    BackFromBits(a);
    BackFromBits(b);
  }
}

/** The same bytes as numbers and as bit vectors. */
module Octets {
  import Words
  import OneOctet

  function Bits(b: seq<Words.byte>): (r: seq<bv8>)
    ensures |r| == |b|
    ensures forall k :: 0 <= k < |b| ==> r[k] == b[k] as bv8
  {
    seq(|b|, k requires 0 <= k < |b| => b[k] as bv8)
  }

  lemma BitsAppend(a: seq<Words.byte>, b: seq<Words.byte>)
    ensures Bits(a + b) == Bits(a) + Bits(b)
  {
  }

  lemma BitsAreInjective(a: seq<Words.byte>, b: seq<Words.byte>)
    requires |a| == |b| && Bits(a) == Bits(b)
    ensures a == b
  {
    forall k | 0 <= k < |a| ensures a[k] == b[k] {
      assert Bits(a)[k] == Bits(b)[k];
      OneOctet.SameBits(a[k], b[k]);
    }
  }

  function FromBits(b: seq<bv8>): (r: seq<Words.byte>)
    ensures |r| == |b|
    ensures forall k :: 0 <= k < |b| ==> r[k] == b[k] as int
  {
    seq(|b|, k requires 0 <= k < |b| => b[k] as int)
  }

  lemma BitsFromBits(b: seq<bv8>)
    ensures Bits(FromBits(b)) == b
  {
  }
}
