/** The proof-of-work that makes a root principal scarce: counting the leading zero bits of a
    digest, and searching for a nonce. The hash is a parameter. */
module ProofOfWork {
  import opened Bits

  /** The digest of a root identifier and a nonce. */
  type Digest = (string, int) -> Bytes

  function ZeroBits(digest: Bytes): nat {
    if |digest| == 0 then 0
    else if digest[0] == 0 then 8 + ZeroBits(digest[1..])
    else
      ByteLength(digest[0]);
      8 - BitLength(digest[0])
  }

  lemma {:induction false} ByteLength(b: byte)
    ensures BitLength(b) <= 8
  {
    Pow2Small(8);
    BitLengthBounds(b, 8);
  }

  method LeadingZeroBits(digest: Bytes) returns (bits: nat)
    ensures bits == ZeroBits(digest)
  {
    bits := 0;
    var i := 0;
    while i < |digest|
      invariant i <= |digest|
      invariant bits + ZeroBits(digest[i..]) == ZeroBits(digest)
    {
      var b := digest[i];
      assert digest[i..][1..] == digest[i + 1..];
      if b == 0 {
        bits := bits + 8;
      } else {
        ByteLength(b);
        bits := bits + (8 - BitLength(b));
        return;
      }
      i := i + 1;
    }
  }

  predicate PowValid(root: string, nonce: int, difficulty: int, digest: Digest) {
    ZeroBits(digest(root, nonce)) >= difficulty
  }

  /** The search returns the least valid nonce from start on and the number of hashes it took. */
  method Mine(root: string, difficulty: int, start: int, digest: Digest) returns (nonce: int, tried: int)
    requires exists n :: n >= start && PowValid(root, n, difficulty, digest)
    ensures nonce >= start && PowValid(root, nonce, difficulty, digest)
    ensures forall n :: start <= n < nonce ==> !PowValid(root, n, difficulty, digest)
    ensures tried == nonce - start + 1
  {
    ghost var target :| target >= start && PowValid(root, target, difficulty, digest);
    nonce := start;
    while true
      invariant start <= nonce <= target
      invariant forall n :: start <= n < nonce ==> !PowValid(root, n, difficulty, digest)
      decreases target - nonce
    {
      var zeros := LeadingZeroBits(digest(root, nonce));
      if zeros >= difficulty {
        return nonce, nonce - start + 1;
      }
      nonce := nonce + 1;
    }
  }

  // ----- what leading zero bits mean -----

  /** The number a digest writes, most significant byte first. */
  function BigEndian(digest: Bytes): nat {
    if |digest| == 0 then 0 else digest[0] * Pow2(8 * (|digest| - 1)) + BigEndian(digest[1..])
  }

  lemma {:induction false} Pow2Monotone(e: nat, f: nat)
    requires e <= f
    ensures Pow2(e) <= Pow2(f)
  {
    if e < f { Pow2Monotone(e, f - 1); }
  }

  /** A leading digit b over a tail below p stays below bound * p exactly when b < bound. */
  lemma LeadingDigit(b: nat, bound: nat, tail: nat, p: nat)
    requires tail < p
    ensures b * p + tail < bound * p <==> b < bound
  {
    if b < bound {
      assert (b + 1) * p <= bound * p;
    } else {
      assert b * p >= bound * p;
    }
  }

  /** A leading byte over m more bytes: below 2^(8m + k) exactly when the byte is below 2^k. */
  lemma LeadingByte(b: nat, k: nat, tail: nat, e: nat)
    requires tail < Pow2(e)
    ensures b * Pow2(e) + tail < Pow2(e + k) <==> b < Pow2(k)
  {
    Pow2Add(k, e);
    LeadingDigit(b, Pow2(k), tail, Pow2(e));
  }

  lemma {:induction false} BigEndianBound(digest: Bytes)
    ensures BigEndian(digest) < Pow2(8 * |digest|)
  {
    if |digest| > 0 {
      BigEndianBound(digest[1..]);
      Pow2Small(8);
      LeadingByte(digest[0], 8, BigEndian(digest[1..]), 8 * (|digest| - 1));
    }
  }

  /** At least d leading zero bits means exactly: the digest, as a number, is below 2^(8n - d). */
  lemma {:induction false} ZeroBitsMeaning(digest: Bytes, d: nat)
    requires d <= 8 * |digest|
    ensures ZeroBits(digest) >= d <==> BigEndian(digest) < Pow2(8 * |digest| - d)
  {
    if |digest| > 0 {
      var tail, e, b := digest[1..], 8 * (|digest| - 1), digest[0];
      BigEndianBound(tail);
      if d <= 8 {
        BitLengthBounds(b, 8 - d);
        LeadingByte(b, 8 - d, BigEndian(tail), e);
      } else if b == 0 {
        ZeroBitsMeaning(tail, d - 8);
      } else {
        Pow2Monotone(8 * |digest| - d, e);
        LeadingByte(b, 0, BigEndian(tail), e);
      }
    } else {
      Pow2Small(0);
    }
  }

  lemma {:induction false} ZeroBitsBound(digest: Bytes)
    ensures ZeroBits(digest) <= 8 * |digest|
  {
    if |digest| > 0 && digest[0] == 0 { ZeroBitsBound(digest[1..]); }
  }

  /** A nonce is valid exactly when its digest, as a number, is below 2^(8n - difficulty); it never
      is when the difficulty exceeds the length of the digest. */
  lemma {:induction false} PowValidMeaning(root: string, nonce: int, difficulty: int, digest: Digest)
    ensures
      var h := digest(root, nonce);
      PowValid(root, nonce, difficulty, digest) <==>
      difficulty <= 8 * |h| && BigEndian(h) < Pow2(8 * |h| - (if difficulty < 0 then 0 else difficulty))
  {
    var h := digest(root, nonce);
    ZeroBitsBound(h);
    BigEndianBound(h);
    if 0 <= difficulty <= 8 * |h| { ZeroBitsMeaning(h, difficulty); }
  }
}
