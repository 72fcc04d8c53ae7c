/** Presenting a proof of possession a second time: exactly when it is refused. */
module Replay {
  import opened NumberTheory
  import opened Common
  import opened Bits
  import opened Tokens
  import opened Ed25519
  import opened Signatures
  import opened CheckMeaning
  import opened ProofReuse
  import opened Policy
  import opened Storage
  import opened Gateway
  import opened GatewayRuns
  import opened Authn

  /** The proof a challenged call presents. */
  function ProofOf(s: GatewayState, inv: Invocation): string
    requires inv.signer.Some?
  {
    inv.signer.value(ChallengeFor(s, inv))
  }

  /** The key the call's token is bound to. */
  function KeyOf(keys: Keys, trust: Trust, s: GatewayState, inv: Invocation): string
    requires IssuesChallenge(keys, trust, s, inv)
  {
    ClaimsOf(keys, inv).holder.value
  }

  /** In the two states, the first call passed the possession check and the second is challenged in turn
      and presents the very same proof. */
  ghost predicate PresentsAgain(keys: Keys, trust: Trust, s: GatewayState, inv: Invocation, s': GatewayState,
                                inv': Invocation) {
    && IssuesChallenge(keys, trust, s, inv) && Authenticated(keys, trust, s, inv)
    && IssuesChallenge(keys, trust, s', inv') && ProofOf(s', inv') == ProofOf(s, inv)
  }

  /** The proof fits both challenges: both keys are hexadecimal and have the same multiples by the hash
      scalars of the two challenges. */
  ghost predicate FitsBoth(keys: Keys, trust: Trust, s: GatewayState, inv: Invocation, s': GatewayState,
                           inv': Invocation, codec: Codec, hash: Hash)
    requires SixtyFourBytes(hash) && IssuesChallenge(keys, trust, s, inv) && IssuesChallenge(keys, trust, s', inv')
  {
    var m, m' := codec.bytes(ChallengeFor(s, inv)), codec.bytes(ChallengeFor(s', inv'));
    var key, key' := KeyOf(keys, trust, s, inv), KeyOf(keys, trust, s', inv');
    match (codec.unhex(ProofOf(s, inv)), codec.unhex(key), codec.unhex(key'))
    case (Some(proof), Some(pk), Some(pk')) => SameMultiple(proof, m, pk, m', pk', hash)
    case _ => false
  }

  /** A proof that once passed is refused when presented again, unexecuted and uncharged, exactly when it
      does not fit both challenges. */
  lemma {:induction false} ReusedProofRefused(keys: Keys, trust: Trust, s: GatewayState, inv: Invocation,
                                             s': GatewayState, inv': Invocation, codec: Codec, hash: Hash)
    requires CurveFacts() && SixtyFourBytes(hash)
    ensures
      var checking := Checking(trust, codec, hash);
      var (after, code) := Step(keys, checking, s', inv');
      PresentsAgain(keys, checking, s, inv, s', inv') ==>
        && (code == AUTHENTICATION <==> !FitsBoth(keys, checking, s, inv, s', inv', codec, hash))
        && (code == AUTHENTICATION ==> after.fired == s'.fired && after.tables.spending == s'.tables.spending)
  {
    var checking := Checking(trust, codec, hash);
    if PresentsAgain(keys, checking, s, inv, s', inv') {
      var ch, ch' := ChallengeFor(s, inv), ChallengeFor(s', inv');
      ProofDecides(keys, checking, s, inv);
      ProofDecides(keys, checking, s', inv');
      var proof, pk := codec.unhex(ProofOf(s, inv)).value, codec.unhex(KeyOf(keys, checking, s, inv)).value;
      match codec.unhex(KeyOf(keys, checking, s', inv'))
      case None =>
      case Some(pk') => PassesAgain(proof, codec.bytes(ch), pk, codec.bytes(ch'), pk', hash);
    }
  }

  /** Over every run, a proof presented again meets another challenge, and is refused exactly when it does
      not fit both. */
  lemma {:induction false} ReplayIsRefused(keys: Keys, trust: Trust, s: GatewayState, acts: seq<Action>, i: nat, j: nat,
                                          codec: Codec, hash: Hash)
    requires CurveFacts() && SixtyFourBytes(hash) && i < j < |acts| && acts[i].Call? && acts[j].Call?
    ensures
      var checking := Checking(trust, codec, hash);
      var s1, s2 := Run(keys, checking, s, acts[..i]), Run(keys, checking, s, acts[..j]);
      var (after, code) := Step(keys, checking, s2, acts[j].inv);
      PresentsAgain(keys, checking, s1, acts[i].inv, s2, acts[j].inv) ==>
        && ChallengeFor(s1, acts[i].inv) != ChallengeFor(s2, acts[j].inv)
        && (code == AUTHENTICATION <==> !FitsBoth(keys, checking, s1, acts[i].inv, s2, acts[j].inv, codec, hash))
        && (code == AUTHENTICATION ==> after.fired == s2.fired && after.tables.spending == s2.tables.spending)
  {
    var checking := Checking(trust, codec, hash);
    var s1, s2 := Run(keys, checking, s, acts[..i]), Run(keys, checking, s, acts[..j]);
    if PresentsAgain(keys, checking, s1, acts[i].inv, s2, acts[j].inv) {
      ChallengesAreFresh(keys, checking, s, acts, i, j);
      ReusedProofRefused(keys, trust, s1, acts[i].inv, s2, acts[j].inv, codec, hash);
    }
  }

  /** For tokens bound to a key made from a secret, a proof presented again is refused unless the hash
      scalars of the two challenges collide modulo the order of the base point. */
  lemma {:induction false} ReplayUnderPublicKey(keys: Keys, trust: Trust, s: GatewayState, inv: Invocation,
                                               s': GatewayState, inv': Invocation, sk: Bytes, codec: Codec, hash: Hash)
    requires CurveFacts() && IsPrime(L) && SixtyFourBytes(hash) && RoundTrips(codec)
    ensures
      var checking, pk := Checking(trust, codec, hash), PublicKey(sk, hash);
      PresentsAgain(keys, checking, s, inv, s', inv')
      && KeyOf(keys, checking, s, inv) == codec.hex(pk) == KeyOf(keys, checking, s', inv') ==>
        var proof := codec.unhex(ProofOf(s, inv));
        var m, m' := codec.bytes(ChallengeFor(s, inv)), codec.bytes(ChallengeFor(s', inv'));
        && proof.Some? && |proof.value| == 64
        && (Step(keys, checking, s', inv').1 == AUTHENTICATION <==>
            HashScalar(proof.value, m, pk, hash) % L != HashScalar(proof.value, m', pk, hash) % L)
  {
    var checking := Checking(trust, codec, hash);
    if PresentsAgain(keys, checking, s, inv, s', inv')
       && KeyOf(keys, checking, s, inv) == codec.hex(PublicKey(sk, hash)) == KeyOf(keys, checking, s', inv') {
      ProofDecides(keys, checking, s, inv);
      ProofDecides(keys, checking, s', inv');
      PassesAgainUnderPublicKey(codec.unhex(ProofOf(s, inv)).value, codec.bytes(ChallengeFor(s, inv)),
                                codec.bytes(ChallengeFor(s', inv')), sk, hash);
    }
  }

  // ----- a replay that is executed -----

  const FreeTool := Tool("t", {}, UNATTESTED, 0.0, true)

  /** A token bound to the encoding of the neutral element, and a call of it that always presents the same
      proof. */
  ghost function WeakCall(keys: Keys, codec: Codec): Invocation {
    var i := Identifier("r", {}, 1.0, 0.0, 0, 0);
    var root := Token(i, Hmac(keys.secret, Ident(i)), []);
    var token := Attenuate(root, None, None, None, None, Some(codec.hex(NeutralKey)));
    var proof := codec.hex(NeutralSignature);
    Invocation(token, "t", {}, [], 0.0, Some(_ => proof), None, false, "", false)
  }

  lemma {:induction false} WeakClaims(keys: Keys, codec: Codec)
    ensures
      var v := Verified(WeakCall(keys, codec).token, keys.secret, Some(0.0), keys.digest);
      v == Accepted(Claims("r", "r", {}, 1.0, 0.0, 0, Some(codec.hex(NeutralKey))))
  {
    var i := Identifier("r", {}, 1.0, 0.0, 0, 0);
    var root := Token(i, Hmac(keys.secret, Ident(i)), []);
    AttenuateVerifies(root, None, None, None, None, Some(codec.hex(NeutralKey)), keys.secret, Some(0.0), keys.digest);
  }

  lemma {:induction false} WeakCallExecutes(keys: Keys, trust: Trust, s: GatewayState, codec: Codec, hash: Hash)
    requires IsPrime(Q) && SixtyFourBytes(hash) && RoundTrips(codec) && trust.issuers == {}
    requires "t" in s.tools && s.tools["t"] == FreeTool && SpentOn(s.tables.spending, "r") <= 0.0
    ensures
      var checking, inv := Checking(trust, codec, hash), WeakCall(keys, codec);
      var (after, code) := Step(keys, checking, s, inv);
      && IssuesChallenge(keys, checking, s, inv) && Authenticated(keys, checking, s, inv)
      && code == EXECUTED && after.tools == s.tools && SpentOn(after.tables.spending, "r") <= 0.0
  {
    var checking, inv := Checking(trust, codec, hash), WeakCall(keys, codec);
    WeakClaims(keys, codec);
    NeutralKeyPassesAll(codec.bytes(ChallengeFor(s, inv)), hash);
    StepMeaning(keys, checking, s, inv);
  }

  /** Under such a key a replay is executed: the same call, with the same proof, runs twice. */
  lemma {:induction false} ReplayExecuted(keys: Keys, trust: Trust, codec: Codec, hash: Hash)
    requires IsPrime(Q) && SixtyFourBytes(hash) && RoundTrips(codec) && trust.issuers == {}
    ensures
      var checking, call := Checking(trust, codec, hash), WeakCall(keys, codec);
      var acts := [Registering(FreeTool), Call(call), Call(call)];
      var s1, s2 := Run(keys, checking, Init, acts[..1]), Run(keys, checking, Init, acts[..2]);
      && PresentsAgain(keys, checking, s1, call, s2, call)
      && Step(keys, checking, s1, call).1 == EXECUTED && Step(keys, checking, s2, call).1 == EXECUTED
      && s2 == Step(keys, checking, s1, call).0
  {
    var checking, call := Checking(trust, codec, hash), WeakCall(keys, codec);
    var acts := [Registering(FreeTool), Call(call), Call(call)];
    RunStep(keys, checking, Init, acts, 0);
    RunStep(keys, checking, Init, acts, 1);
    var s1, s2 := Run(keys, checking, Init, acts[..1]), Run(keys, checking, Init, acts[..2]);
    assert Run(keys, checking, Init, acts[..0]) == Init;
    WeakCallExecutes(keys, trust, s1, codec, hash);
    WeakCallExecutes(keys, trust, s2, codec, hash);
  }
}
