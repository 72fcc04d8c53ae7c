/** What holders can do with issued tokens but without the secret: everything they can derive that
    the verifier accepts extends an issued token. */
module ChainIntegrity {
  import opened Common
  import opened ProofOfWork
  import opened Tokens

  /** A term a holder can write down after the terms in prior: any atom but the secret, an issued
      signature, or a keyed hash of any message under a term already known. */
  ghost predicate Justified(t: Term, prior: seq<Term>, issued: set<Token>, secret: Term) {
    || (t.Atom? && t != secret)
    || (exists token :: token in issued && token.sig == t)
    || (t.Hmac? && t.key in prior)
  }

  /** A run of such steps. */
  ghost predicate Derivation(terms: seq<Term>, issued: set<Token>, secret: Term) {
    forall k :: 0 <= k < |terms| ==> Justified(terms[k], terms[..k], issued, secret)
  }

  ghost predicate AllGenuine(issued: set<Token>, secret: Term) {
    forall token :: token in issued ==> Genuine(token, secret)
  }

  lemma {:induction false} ChainSigInjective(secret: Term, i: Identifier, c: seq<Caveat>, j: Identifier, d: seq<Caveat>)
    requires secret.Atom? && ChainSig(secret, i, c) == ChainSig(secret, j, d)
    ensures i == j && c == d
    decreases |c|
  {
    if |c| > 0 && |d| > 0 {
      ChainSigInjective(secret, i, c[..|c| - 1], j, d[..|d| - 1]);
      assert c == c[..|c| - 1] + [c[|c| - 1]] && d == d[..|d| - 1] + [d[|d| - 1]];
    }
  }

  lemma SecretUnderived(terms: seq<Term>, issued: set<Token>, secret: Term)
    requires secret.Atom? && AllGenuine(issued, secret) && Derivation(terms, issued, secret)
    ensures secret !in terms
  {
    forall k | 0 <= k < |terms|
      ensures terms[k] != secret
    {
      assert Justified(terms[k], terms[..k], issued, secret);
    }
  }

  /** A derived signature chain starts from an issued token. */
  lemma {:induction false} DerivedChainExtendsIssued(terms: seq<Term>, issued: set<Token>, secret: Term,
                                                    i: Identifier, caveats: seq<Caveat>) returns (source: Token)
    requires secret.Atom? && AllGenuine(issued, secret) && Derivation(terms, issued, secret)
    requires ChainSig(secret, i, caveats) in terms
    ensures source in issued && source.identifier == i && source.caveats <= caveats
    decreases |caveats|
  {
    SecretUnderived(terms, issued, secret);
    var t := ChainSig(secret, i, caveats);
    var k :| 0 <= k < |terms| && terms[k] == t;
    assert Justified(t, terms[..k], issued, secret);
    if token :| token in issued && token.sig == t {
      ChainSigInjective(secret, token.identifier, token.caveats, i, caveats);
      source := token;
    } else if |caveats| == 0 {
      assert false;  // the secret itself would have to be known
    } else {
      source := DerivedChainExtendsIssued(terms[..k], issued, secret, i, caveats[..|caveats| - 1]);
    }
  }

  /** Chain integrity: whatever holders derive from the issued tokens, an accepted token extends an
      issued one by further caveats, so its root is that token's and its claims are no wider. */
  lemma AcceptedExtendsIssued(terms: seq<Term>, issued: set<Token>, secret: Term, token: Token,
                              now: Option<real>, digest: Digest) returns (source: Token)
    requires secret.Atom? && AllGenuine(issued, secret) && Derivation(terms, issued, secret)
    requires token.sig in terms && Verified(token, secret, now, digest).Accepted?
    ensures source in issued && source.identifier == token.identifier && source.caveats <= token.caveats
    ensures Verified(source, secret, now, digest).Accepted?
    ensures Narrower(Verified(token, secret, now, digest).claims, Verified(source, secret, now, digest).claims)
  {
    source := DerivedChainExtendsIssued(terms, issued, secret, token.identifier, token.caveats);
    ExtensionNarrows(token.identifier, source.caveats, token.caveats);
    assert forall c :: c in source.caveats ==> c in token.caveats;
  }

  /** Tampering: with a genuine token's signature, any change of identifier or caveats is rejected. */
  lemma TamperingRejected(genuine: Token, forged: Token, secret: Term, now: Option<real>, digest: Digest)
    requires secret.Atom? && Genuine(genuine, secret) && forged.sig == genuine.sig
    ensures Verified(forged, secret, now, digest).Accepted? ==> forged == genuine
  {
    if Genuine(forged, secret) {
      ChainSigInjective(secret, genuine.identifier, genuine.caveats, forged.identifier, forged.caveats);
    }
  }
}
