/** The node's custom 32-byte digest (src/hash.rs). Every byte of the
    stream `timestamp ++ prev_block_hash ++ data` is mixed into three
    consecutive slots of a 32-byte accumulator — XOR into the first,
    wrapping add into the second, wrapping subtract from the third — and the
    slot index then advances by three. */
module Hashing {
  import opened Prelude

  const HashSize: nat := 32

  type Hash256 = s: seq<byte> | |s| == HashSize witness Zeros(HashSize)

  /** The all-zero digest, the `[0; 32]` of the source. */
  const ZeroHash: Hash256 := Zeros(HashSize)

  /** The slot hit by operation `op` (0 = XOR, 1 = add, 2 = subtract) of the
      byte at stream position `k`, i.e. `(index + op) % 32` with
      `index == 3 * k`. */
  function Slot(k: nat, op: nat): nat {
    (3 * k + op) % HashSize
  }

  /** One iteration of the loop: absorb byte `b` found at stream position
      `k`, with the three slot updates in the order the source makes them. */
  function Mix(r: Hash256, k: nat, b: byte): Hash256 {
    var r1 := r[Slot(k, 0) := Xor(r[Slot(k, 0)], b)];
    var r2 := r1[Slot(k, 1) := WrappingAdd(r1[Slot(k, 1)], b)];
    r2[Slot(k, 2) := WrappingSub(r2[Slot(k, 2)], b)]
  }

  /** The accumulator after the whole stream `s` has been absorbed. */
  function Digest(s: seq<byte>): Hash256
    decreases |s|
  {
    if s == [] then ZeroHash else Mix(Digest(s[..|s| - 1]), |s| - 1, s[|s| - 1])
  }

  /** The byte stream that the source iterates over. */
  function Stream(timestamp: string, prevBlockHash: Hash256, data: string): seq<byte> {
    Utf8(timestamp) + prevBlockHash + Utf8(data)
  }

  /** What `calculate_hash(timestamp, prev_block_hash, data)` returns. */
  function Hash(timestamp: string, prevBlockHash: Hash256, data: string): Hash256 {
    Digest(Stream(timestamp, prevBlockHash, data))
  }

  /** `hash::calculate_hash`: the in-place loop over a 32-byte array. */
  method CalculateHash(timestamp: string, prevBlockHash: Hash256, data: string)
    returns (h: Hash256)
    ensures h == Digest(Utf8(timestamp) + prevBlockHash + Utf8(data))
  {
    var result := new byte[HashSize](_ => 0);
    var index := 0;
    var stream := Utf8(timestamp) + prevBlockHash + Utf8(data);
    var n := 0;
    while n < |stream|
      invariant 0 <= n <= |stream|
      invariant index == 3 * n
      invariant result[..] == Digest(stream[..n])
    {
      var b := stream[n];
      SlotsOfIndex(index, n);
      ghost var r0 := result[..];
      result[index % 32] := Xor(result[index % 32], b);
      ghost var r1 := result[..];
      result[(index + 1) % 32] := WrappingAdd(result[(index + 1) % 32], b);
      ghost var r2 := result[..];
      result[(index + 2) % 32] := WrappingSub(result[(index + 2) % 32], b);
      MixSteps(r0, r1, r2, result[..], n, b);
      DigestSnoc(stream, n);
      index := index + 3;
      n := n + 1;
    }
    assert stream[..n] == stream;
    h := result[..];
  }

  lemma SlotsOfIndex(index: int, k: nat)
    requires index == 3 * k
    ensures index % 32 == Slot(k, 0) && (index + 1) % 32 == Slot(k, 1) && (index + 2) % 32 == Slot(k, 2)
  {
  }

  /** The three array writes of one loop iteration make up one `Mix`. */
  lemma MixSteps(r0: Hash256, r1: seq<byte>, r2: seq<byte>, r3: seq<byte>, k: nat, b: byte)
    requires r1 == r0[Slot(k, 0) := Xor(r0[Slot(k, 0)], b)]
    requires r2 == r1[Slot(k, 1) := WrappingAdd(r1[Slot(k, 1)], b)]
    requires r3 == r2[Slot(k, 2) := WrappingSub(r2[Slot(k, 2)], b)]
    ensures r3 == Mix(r0, k, b)
  {
  }

  /** Absorbing one more byte of the stream. */
  lemma DigestSnoc(s: seq<byte>, n: nat)
    requires n < |s|
    ensures Digest(s[..n + 1]) == Mix(Digest(s[..n]), n, s[n])
  {
    assert s[..n + 1][..n] == s[..n];
  }

  // ---------------------------------------------------------------------
  // Properties of the mixing step

  /** The three slots a byte touches are distinct, each gets its own
      operation, and every other slot keeps its value. */
  lemma MixEffect(r: Hash256, k: nat, b: byte)
    ensures Slot(k, 0) != Slot(k, 1) && Slot(k, 1) != Slot(k, 2) && Slot(k, 0) != Slot(k, 2)
    ensures Mix(r, k, b)[Slot(k, 0)] == Xor(r[Slot(k, 0)], b)
    ensures Mix(r, k, b)[Slot(k, 1)] == WrappingAdd(r[Slot(k, 1)], b)
    ensures Mix(r, k, b)[Slot(k, 2)] == WrappingSub(r[Slot(k, 2)], b)
    ensures forall i :: 0 <= i < HashSize && i != Slot(k, 0) && i != Slot(k, 1) && i != Slot(k, 2)
                        ==> Mix(r, k, b)[i] == r[i]
  {
  }

  /** A zero byte leaves the accumulator as it was. */
  lemma MixZero(r: Hash256, k: nat)
    ensures Mix(r, k, 0) == r
  {
  }

  /** Trailing zero bytes do not change the digest (the index still moves,
      but nothing follows them). */
  lemma {:induction false} DigestZeroSuffix(s: seq<byte>, n: nat)
    ensures Digest(s + Zeros(n)) == Digest(s)
  {
    if n > 0 {
      ZerosSnoc(s, n);
      DigestAppendZero(s + Zeros(n - 1));
      DigestZeroSuffix(s, n - 1);
    } else {
      assert s + Zeros(0) == s;
    }
  }

  /** One trailing zero byte does not change the digest. */
  lemma DigestAppendZero(u: seq<byte>)
    ensures Digest(u + [0]) == Digest(u)
  {
    var t := u + [0];
    assert t[..|t| - 1] == u;
    MixZero(Digest(u), |u|);
  }

  lemma ZerosSnoc(s: seq<byte>, n: nat)
    requires n > 0
    ensures s + Zeros(n) == (s + Zeros(n - 1)) + [0]
  {
    assert Zeros(n) == Zeros(n - 1) + [0];
  }

  /** A stream made only of zero bytes digests to the zero hash. */
  lemma DigestOfZeros(n: nat)
    ensures Digest(Zeros(n)) == ZeroHash
  {
    DigestZeroSuffix([], n);
    assert [] + Zeros(n) == Zeros(n);
  }

  // ---------------------------------------------------------------------
  // Properties of the hash of (timestamp, prev_block_hash, data)

  /** Empty timestamp, all-zero previous hash and empty data hash to zero. */
  lemma EmptyInputsHashToZero()
    ensures Hash("", ZeroHash, "") == ZeroHash
  {
    assert Stream("", ZeroHash, "") == Zeros(HashSize);
    DigestOfZeros(HashSize);
  }

  /** The hash sees only the concatenated stream: the boundaries between the
      timestamp, the previous hash and the data are not part of it. */
  lemma HashDependsOnlyOnStream(t1: string, p1: Hash256, d1: string,
                                t2: string, p2: Hash256, d2: string)
    requires Utf8(t1) + p1 + Utf8(d1) == Utf8(t2) + p2 + Utf8(d2)
    ensures Hash(t1, p1, d1) == Hash(t2, p2, d2)
  {
  }

  /** NUL characters appended to the data never change the hash, so two
      different payloads can share a digest. */
  lemma TrailingNulsIgnored(timestamp: string, prevBlockHash: Hash256, data: string, n: nat)
    ensures Hash(timestamp, prevBlockHash, data + seq(n, _ => '\0'))
         == Hash(timestamp, prevBlockHash, data)
  {
    var nuls: string := seq(n, _ => '\0');
    Utf8Append(data, nuls);
    Utf8Nul(n);
    assert Stream(timestamp, prevBlockHash, data + nuls)
        == Stream(timestamp, prevBlockHash, data) + Zeros(n);
    DigestZeroSuffix(Stream(timestamp, prevBlockHash, data), n);
  }
}
