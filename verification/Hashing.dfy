/**
 Hash values as the chain uses them: 64 hexadecimal characters, joined without separators.

 No hash function is fixed here.  Every statement takes the hasher `h` and, where it needs to go
 back from a hash to what was hashed, assumes only that `h` does not collide on the finite set of
 strings that the computations in question feed to it.
*/
module Hashing {

  const DIGEST_LENGTH := 64

  type Digest = s: string | |s| == DIGEST_LENGTH witness seq(DIGEST_LENGTH, _ => '0')

  /**
   The hash function and the decimal rendering of section ids that is hashed along.  The rendering is
   a parameter too: nothing is assumed of it.
  */
  datatype Hasher = Hasher(digest: string -> Digest, decimal: int -> string)

  ghost predicate Collide(h: Hasher, x: string, y: string) {
    x != y && h.digest(x) == h.digest(y)
  }

  ghost predicate NoCollision(h: Hasher, inputs: set<string>) {
    forall x, y {:trigger Collide(h, x, y)} | x in inputs && y in inputs :: !Collide(h, x, y)
  }

  /** The only use of the assumption: equal hashes of two recorded inputs are hashes of one input. */
  lemma SameInput(h: Hasher, inputs: set<string>, x: string, y: string)
    requires NoCollision(h, inputs)
    requires x in inputs && y in inputs
    requires h.digest(x) == h.digest(y)
    ensures x == y
  {
    assert !Collide(h, x, y);
  }

  /** Digests appended one after the other, as the `+=` loops over section and transaction hashes do. */
  function Concat(ds: seq<Digest>): (s: string)
    ensures |s| == DIGEST_LENGTH * |ds|
  {
    if |ds| == 0 then "" else Concat(ds[..|ds| - 1]) + ds[|ds| - 1]
  }

  /** Fixed width makes the concatenation readable again. */
  lemma {:induction false} ConcatInjective(a: seq<Digest>, b: seq<Digest>)
    requires Concat(a) == Concat(b)
    ensures a == b
  {
    if |a| == 0 || |b| == 0 {
      assert |a| == |b|;
    } else {
      var s := Concat(a);
      var a', b' := a[..|a| - 1], b[..|b| - 1];
      var n := |s| - DIGEST_LENGTH;
      assert s[..n] == Concat(a') && s[n..] == a[|a| - 1];
      assert s[..n] == Concat(b') && s[n..] == b[|b| - 1];
      ConcatInjective(a', b');
      assert a == a' + [a[|a| - 1]] && b == b' + [b[|b| - 1]];
    }
  }

  /** Two digests joined are the two digests. */
  lemma PairInjective(a: Digest, b: Digest, c: Digest, d: Digest)
    requires a + b == c + d
    ensures a == c && b == d
  {
    assert (a + b)[..DIGEST_LENGTH] == a && (a + b)[DIGEST_LENGTH..] == b;
    assert (c + d)[..DIGEST_LENGTH] == c && (c + d)[DIGEST_LENGTH..] == d;
  }
}
