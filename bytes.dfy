/** Byte strings and the XOR arithmetic every codec in the library is built on. */
module Bytes {
  type byte = bv8

  /** `n` zero bytes: what `calloc` / `memset(…, 0, n)` leave in a fresh buffer. */
  function Zeros(n: nat): (z: seq<byte>)
    ensures |z| == n
    ensures forall i :: 0 <= i < n ==> z[i] == 0
  {
    seq(n, _ => 0 as byte)
  }

  /** Byte-wise XOR of two equally long strings. */
  function Xor(a: seq<byte>, b: seq<byte>): (c: seq<byte>)
    requires |a| == |b|
    ensures |c| == |a|
    ensures forall i :: 0 <= i < |a| ==> c[i] == a[i] ^ b[i]
  {
    seq(|a|, i requires 0 <= i < |a| => a[i] ^ b[i])
  }

  lemma XorComm(a: seq<byte>, b: seq<byte>)
    requires |a| == |b|
    ensures Xor(a, b) == Xor(b, a)
  {
    assert forall i :: 0 <= i < |a| ==> Xor(a, b)[i] == Xor(b, a)[i];
  }

  lemma XorAssoc(a: seq<byte>, b: seq<byte>, c: seq<byte>)
    requires |a| == |b| == |c|
    ensures Xor(Xor(a, b), c) == Xor(a, Xor(b, c))
  {
    assert forall i :: 0 <= i < |a| ==> Xor(Xor(a, b), c)[i] == Xor(a, Xor(b, c))[i];
  }

  lemma XorZeros(a: seq<byte>)
    ensures Xor(a, Zeros(|a|)) == a && Xor(Zeros(|a|), a) == a
  {
    assert forall i :: 0 <= i < |a| ==> Xor(a, Zeros(|a|))[i] == a[i];
    assert forall i :: 0 <= i < |a| ==> Xor(Zeros(|a|), a)[i] == a[i];
  }

  lemma XorSelf(a: seq<byte>)
    ensures Xor(a, a) == Zeros(|a|)
  {
    assert forall i :: 0 <= i < |a| ==> Xor(a, a)[i] == 0;
  }

  /** XOR-ing the same string in twice cancels: the involution every decoder step relies on. */
  lemma XorCancel(a: seq<byte>, b: seq<byte>)
    requires |a| == |b|
    ensures Xor(Xor(a, b), b) == a
  {
    XorAssoc(a, b, b);
    XorSelf(b);
    XorZeros(a);
  }
}
