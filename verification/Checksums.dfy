/**
 The checksum that IPMB packets and FRU areas share: the byte that brings the sum to a multiple
 of 256.
 */
module Checksums {
  import opened Ipmi

  function Sum(bytes: seq<byte>): nat {
    if bytes == [] then 0 else bytes[0] + Sum(bytes[1..])
  }

  /** The byte that makes the sum a multiple of 256. */
  function Checksum(bytes: seq<byte>): (c: byte)
    ensures (Sum(bytes) + c) % 0x100 == 0
  {
    (0x100 - Sum(bytes) % 0x100) % 0x100
  }

  lemma {:induction false} SumOfConcat(a: seq<byte>, b: seq<byte>)
    ensures Sum(a + b) == Sum(a) + Sum(b)
  {
    if a == [] {
      assert a + b == b;
    } else {
      assert (a + b)[1..] == a[1..] + b;
      SumOfConcat(a[1..], b);
    }
  }

  lemma SumOfOne(b: byte)
    ensures Sum([b]) == b
  {
    assert Sum([b]) == b + Sum([]);
  }

  /** The checksum is the only last byte with which the sum comes out. */
  lemma ChecksumIsUnique(bytes: seq<byte>, last: byte)
    ensures (Sum(bytes + [last])) % 0x100 == 0 <==> last == Checksum(bytes)
  {
    SumOfConcat(bytes, [last]);
    SumOfOne(last);
    assert 0 <= Checksum(bytes) < 0x100 && 0 <= last < 0x100;
  }

  /** One changed byte changes the sum modulo 256. */
  lemma OneByteShows(bytes: seq<byte>, other: seq<byte>, i: nat)
    requires |bytes| == |other| && i < |bytes| && bytes[i] != other[i]
    requires forall k | 0 <= k < |bytes| && k != i :: bytes[k] == other[k]
    ensures Sum(bytes) % 0x100 != Sum(other) % 0x100
  {
    hide Sum;
    var head, tail := bytes[..i], bytes[i + 1..];
    assert bytes == head + ([bytes[i]] + tail) && other == head + ([other[i]] + tail);
    SumOfConcat(head, [bytes[i]] + tail);
    SumOfConcat(head, [other[i]] + tail);
    SumOfConcat([bytes[i]], tail);
    SumOfConcat([other[i]], tail);
    SumOfOne(bytes[i]);
    SumOfOne(other[i]);
    if Sum(bytes) % 0x100 == Sum(other) % 0x100 {
      SameRemainderMeansSame(Sum(head) + Sum(tail), bytes[i], other[i]);
    }
  }

  lemma SameRemainderMeansSame(n: nat, a: byte, b: byte)
    requires (n + a) % 0x100 == (n + b) % 0x100
    ensures a == b
  {
  }

  lemma ChecksumVanishes(bytes: seq<byte>)
    ensures Checksum(bytes) == 0 <==> Sum(bytes) % 0x100 == 0
  {
  }
}
