/** What the latest holder caveat is worth: whoever has a token may bind it to a key of his own, and exactly
    when the gateway then accepts him. */
module Rebinding {
  import opened Common
  import opened Bits
  import opened Tokens
  import opened ChainIntegrity
  import opened Signatures
  import opened Policy
  import opened Storage
  import opened Gateway
  import opened GatewayRuns
  import opened Authn
  import opened Replay

  /** The same call with its token bound to another key, and signed by whoever holds that. */
  function Rebound(inv: Invocation, key: string, signer: Challenge -> string): Invocation {
    inv.(token := Attenuate(inv.token, None, None, None, None, Some(key)), signer := Some(signer))
  }

  /** The signer's proof passes for the key it is presented with. */
  predicate Proves(trust: Trust, s: GatewayState, inv: Invocation, key: string) {
    inv.signer.Some? && trust.verifyPop(key, ChallengeFor(s, inv), inv.signer.value(ChallengeFor(s, inv)))
  }

  /** Rebinding takes no secret: the new signature is one more step after whatever holders derived. */
  lemma ReboundDerivable(terms: seq<Term>, issued: set<Token>, secret: Term, inv: Invocation, key: string,
                         signer: Challenge -> string)
    requires Derivation(terms, issued, secret) && inv.token.sig in terms
    ensures Derivation(terms + [Rebound(inv, key, signer).token.sig], issued, secret)
  {
    var more := terms + [Rebound(inv, key, signer).token.sig];
    forall k | 0 <= k < |more|
      ensures Justified(more[k], more[..k], issued, secret)
    {
      if k < |terms| { assert more[..k] == terms[..k]; } else { assert more[..k] == terms; }
    }
  }

  lemma ReboundClaims(keys: Keys, inv: Invocation, key: string, signer: Challenge -> string)
    ensures
      var v := Verified(inv.token, keys.secret, Some(inv.now), keys.digest);
      var v' := Verified(Rebound(inv, key, signer).token, keys.secret, Some(inv.now), keys.digest);
      (v'.Accepted? <==> v.Accepted?) && (v.Accepted? ==> v'.claims == v.claims.(holder := Some(key)))
  {
    AttenuateVerifies(inv.token, None, None, None, None, Some(key), keys.secret, Some(inv.now), keys.digest);
  }

  /** A call that passes authentication still does once rebound to another key, by one who can sign for
      that, exactly when no issuers are trusted or the key was the bound one all along. */
  lemma ReboundAuthenticated(keys: Keys, trust: Trust, s: GatewayState, inv: Invocation, key: string,
                             signer: Challenge -> string)
    requires Authenticated(keys, trust, s, inv) && Proves(trust, s, Rebound(inv, key, signer), key)
    ensures Authenticated(keys, trust, s, Rebound(inv, key, signer)) <==>
            trust.issuers == {} || ClaimsOf(keys, inv).holder == Some(key)
  {
    ReboundClaims(keys, inv, key, signer);
  }

  /** It is then also cleared as before. */
  lemma ReboundCleared(keys: Keys, trust: Trust, s: GatewayState, inv: Invocation, key: string,
                       signer: Challenge -> string)
    requires Cleared(keys, trust, s, inv) && Proves(trust, s, Rebound(inv, key, signer), key)
    ensures Cleared(keys, trust, s, Rebound(inv, key, signer)) <==>
            trust.issuers == {} || ClaimsOf(keys, inv).holder == Some(key)
  {
    ReboundAuthenticated(keys, trust, s, inv, key, signer);
    ReboundClaims(keys, inv, key, signer);
  }

  // ----- a token used without its bound key -----

  /** A call of a token bound to a key, with nobody to sign for it. */
  function BoundCall(keys: Keys, key: string): Invocation {
    var i := Identifier("r", {}, 1.0, 0.0, 0, 0);
    var root := Token(i, Hmac(keys.secret, Ident(i)), []);
    var token := Attenuate(root, None, None, None, None, Some(key));
    Invocation(token, "t", {}, [], 0.0, None, None, false, "", false)
  }

  lemma {:induction false} BoundClaims(keys: Keys, key: string)
    ensures Verified(BoundCall(keys, key).token, keys.secret, Some(0.0), keys.digest)
            == Accepted(Claims("r", "r", {}, 1.0, 0.0, 0, Some(key)))
  {
    var i := Identifier("r", {}, 1.0, 0.0, 0, 0);
    var root := Token(i, Hmac(keys.secret, Ident(i)), []);
    AttenuateVerifies(root, None, None, None, None, Some(key), keys.secret, Some(0.0), keys.digest);
  }

  /** The call of one who has a token bound to another's key, rebinds it and signs with a secret of his own. */
  ghost function RebindersCall(keys: Keys, bound: string, own: Bytes, codec: Codec, hash: Hash): Invocation
    requires SixtyFourBytes(hash) && RoundTrips(codec)
  {
    var key := codec.hex(PublicKey(own, hash));
    Rebound(BoundCall(keys, bound), key, ch => Prove(own, key, ch, codec, hash))
  }

  lemma {:induction false} RebinderProves(keys: Keys, trust: Trust, s: GatewayState, bound: string, own: Bytes,
                                          codec: Codec, hash: Hash)
    requires CurveFacts() && SixtyFourBytes(hash) && RoundTrips(codec)
    ensures Proves(Checking(trust, codec, hash), s, RebindersCall(keys, bound, own, codec, hash),
                   codec.hex(PublicKey(own, hash)))
  {
    var call := RebindersCall(keys, bound, own, codec, hash);
    SignThenCheck(codec.bytes(ChallengeFor(s, call)), own, hash);
  }

  lemma {:induction false} BearerRefused(keys: Keys, trust: Trust, s: GatewayState, bound: string)
    requires trust.issuers == {} && "t" in s.tools
    ensures Step(keys, trust, s, BoundCall(keys, bound)).1 == AUTHENTICATION
  {
    BoundClaims(keys, bound);
  }

  lemma {:induction false} RebinderExecutes(keys: Keys, trust: Trust, s: GatewayState, bound: string, own: Bytes,
                                            codec: Codec, hash: Hash)
    requires CurveFacts() && SixtyFourBytes(hash) && RoundTrips(codec) && trust.issuers == {}
    requires "t" in s.tools && s.tools["t"] == FreeTool && SpentOn(s.tables.spending, "r") <= 0.0
    ensures Step(keys, Checking(trust, codec, hash), s, RebindersCall(keys, bound, own, codec, hash)).1 == EXECUTED
  {
    var call, key := RebindersCall(keys, bound, own, codec, hash), codec.hex(PublicKey(own, hash));
    BoundClaims(keys, bound);
    ReboundClaims(keys, BoundCall(keys, bound), key, call.signer.value);
    RebinderProves(keys, trust, s, bound, own, codec, hash);
    StepMeaning(keys, Checking(trust, codec, hash), s, call);
  }

  /** Without trusted issuers, a call of a token bound to any key at all runs, whoever rebinds it: the
      holder of the bound key takes no part. Bearer use of the same token is refused. */
  lemma {:induction false} ReboundTokenExecutes(keys: Keys, trust: Trust, bound: string, own: Bytes, codec: Codec,
                                                hash: Hash)
    requires CurveFacts() && SixtyFourBytes(hash) && RoundTrips(codec) && trust.issuers == {}
    ensures
      var checking := Checking(trust, codec, hash);
      var s := Run(keys, checking, Init, [Registering(FreeTool)]);
      && Step(keys, checking, s, BoundCall(keys, bound)).1 == AUTHENTICATION
      && Step(keys, checking, s, RebindersCall(keys, bound, own, codec, hash)).1 == EXECUTED
  {
    var checking := Checking(trust, codec, hash);
    var acts := [Registering(FreeTool)];
    var s := Run(keys, checking, Init, acts);
    RunStep(keys, checking, Init, acts, 0);
    assert acts[..1] == acts && Run(keys, checking, Init, acts[..0]) == Init;
    BearerRefused(keys, checking, s, bound);
    RebinderExecutes(keys, trust, s, bound, own, codec, hash);
  }
}
