/** Bytes, digests and the pair hash of the tree. SHA-1 itself is a parameter: every
    member that hashes takes the digest function `sha`, so nothing is assumed about it. */
module Hashes {

  type byte = x: int | 0 <= x < 256

  const HASH_SIZE := 20

  type Hash = h: seq<byte> | |h| == HASH_SIZE witness seq(HASH_SIZE, _ => 0)

  const ZERO_HASH: Hash := [0, 0, 0, 0, 0, 0, 0, 0, 0, 0, 0, 0, 0, 0, 0, 0, 0, 0, 0, 0]

  type Digest = seq<byte> -> Hash

  datatype Option<+T> = None | Some(value: T)

  datatype Result<+T> = Ok(value: T) | Err

  /** A place of the tree: a shared pointer that may be null. */
  type Slot = Option<Hash>

  /** Two digests fed to one hasher, left before right. */
  function Combine(sha: Digest, l: Hash, r: Hash): Hash {
    sha(l + r)
  }

  /** Two different byte strings with the same digest, named explicitly. */
  predicate Collides(sha: Digest, pair: (seq<byte>, seq<byte>)) {
    pair.0 != pair.1 && sha(pair.0) == sha(pair.1)
  }

  lemma SliceOfTail<T>(a: seq<T>, b: seq<T>, at: nat, n: nat)
    requires at + n <= |b|
    ensures (a + b)[|a| + at..|a| + at + n] == b[at..at + n]
  {
  }

  lemma SliceOfHead<T>(a: seq<T>, b: seq<T>, at: nat, n: nat)
    requires at + n <= |a|
    ensures (a + b)[at..at + n] == a[at..at + n]
  {
  }

  lemma JoinSlices<T>(s: seq<T>, a: nat, b: nat, c: nat)
    requires a <= b <= c <= |s|
    ensures s[a..b] + s[b..c] == s[a..c]
  {
  }

  lemma ConcatInjective(l1: Hash, r1: Hash, l2: Hash, r2: Hash)
    requires l1 + r1 == l2 + r2
    ensures l1 == l2 && r1 == r2
  {
    assert l1 == (l1 + r1)[..HASH_SIZE] && l2 == (l2 + r2)[..HASH_SIZE];
    assert r1 == (l1 + r1)[HASH_SIZE..] && r2 == (l2 + r2)[HASH_SIZE..];
  }
}
