/** What one call of the gateway does, said without its own checks: who passes authentication, why others are
    refused, what each outcome is, and what is written down. */
module CallMeaning {
  import opened Common
  import opened Tokens
  import opened Policy
  import opened Audit
  import opened Storage
  import opened Autonomy
  import opened Gateway
  import opened GatewayRuns

  // ----- authentication -----

  /** The root has a document from a trusted issuer, signed by it and not expired. */
  predicate Documented(trust: Trust, s: GatewayState, root: string, now: real) {
    && root in s.tables.attestations
    && var svid := s.tables.attestations[root].0;
    && svid.issuer in trust.issuers && trust.signedByIssuer(svid) && (svid.notAfter.Some? ==> now < svid.notAfter.value)
  }

  /** No issuers are trusted, or the root is documented, under the token's own key and within its role. */
  predicate Attested(trust: Trust, s: GatewayState, c: Claims, now: real) {
    || trust.issuers == {}
    || (&& Documented(trust, s, c.accountableRoot, now)
        && c.holder == Some(s.tables.attestations[c.accountableRoot].0.holder)
        && c.caps <= s.tables.attestations[c.accountableRoot].1)
  }

  /** The token is a bearer token, or a signer's proof passes the fresh challenge under the bound key. */
  predicate Possessed(trust: Trust, s: GatewayState, inv: Invocation, c: Claims) {
    || c.holder.None?
    || (&& inv.signer.Some?
        && var ch := Challenge(inv.now, s.challenges + 1, inv.token.sig, inv.toolName);
        && trust.verifyPop(c.holder.value, ch, inv.signer.value(ch)))
  }

  lemma WithinRole(caps: Caps, role: Caps)
    ensures caps * role == caps <==> caps <= role
  {}

  lemma AttestationMeaning(trust: Trust, s: GatewayState, c: Claims, now: real)
    ensures
      var failure, root := AttestationFailure(trust, s.tables, c, now), c.accountableRoot;
      && (failure.None? <==> Attested(trust, s, c, now))
      && (failure.Some? ==>
            failure.value ==
            if !Documented(trust, s, root, now) then (IDENTITY, NoValidSvid)
            else if c.holder != Some(s.tables.attestations[root].0.holder) then (AUTHENTICATION, HolderMismatch)
            else (CAPABILITY, CapsExceedRole))
  {
    if c.accountableRoot in s.tables.attestations {
      WithinRole(c.caps, s.tables.attestations[c.accountableRoot].1);
    }
  }

  /** A call of a known tool with an accepted token passes authentication, and only then reaches the audit
      log, exactly when it is attested and the key possessed. */
  lemma AuthenticationMeaning(keys: Keys, trust: Trust, s: GatewayState, inv: Invocation)
    requires inv.toolName in s.tools && Verified(inv.token, keys.secret, Some(inv.now), keys.digest).Accepted?
    ensures
      var c := ClaimsOf(keys, inv);
      var passes := Attested(trust, s, c, inv.now) && Possessed(trust, s, inv, c);
      && (Authenticated(keys, trust, s, inv) <==> passes)
      && |Step(keys, trust, s, inv).0.tables.rows| == |s.tables.rows| + (if passes then 1 else 0)
  {
    AttestationMeaning(trust, s, ClaimsOf(keys, inv), inv.now);
    StepTrails(keys, trust, s, inv);
  }

  /** Why a call that does not pass is refused, by the first condition that fails: the code of the call and
      the incident it leaves. */
  lemma RefusalMeaning(keys: Keys, trust: Trust, s: GatewayState, inv: Invocation)
    requires inv.toolName in s.tools && Verified(inv.token, keys.secret, Some(inv.now), keys.digest).Accepted?
    ensures
      var c := ClaimsOf(keys, inv);
      var root, tool := c.accountableRoot, s.tools[inv.toolName];
      var (s', code) := Step(keys, trust, s, inv);
      !(Attested(trust, s, c, inv.now) && Possessed(trust, s, inv, c)) ==>
        var (expected, detail) :=
          if Attested(trust, s, c, inv.now) then (AUTHENTICATION, if inv.signer.None? then NoProof else ProofFailed)
          else if !Documented(trust, s, root, inv.now) then (IDENTITY, NoValidSvid)
          else if c.holder != Some(s.tables.attestations[root].0.holder) then (AUTHENTICATION, HolderMismatch)
          else (CAPABILITY, CapsExceedRole);
        var p := Incident(AUTHENTICATION, Some(root), Some(c.actor), tool.name, tool.requiredCaps, tool.riskFloor,
                          None, None, detail, inv.now);
        && code == expected
        && s'.tables.incidents == if p in s.tables.incidents then s.tables.incidents else s.tables.incidents + [p]
  {
    AttestationMeaning(trust, s, ClaimsOf(keys, inv), inv.now);
    AuthenticationMeaning(keys, trust, s, inv);
    if !Authenticated(keys, trust, s, inv) { UnauthenticatedIncident(keys, trust, s, inv); }
  }

  // ----- outcomes -----

  /** What every call comes to: an unknown tool changes nothing, an invalid token only leaves an event, and
      an authenticated call ends as it is decided or, permitted, as the acting node allows. */
  lemma OutcomeOfCall(keys: Keys, trust: Trust, s: GatewayState, inv: Invocation)
    ensures
      var (s', code) := Step(keys, trust, s, inv);
      var v := Verified(inv.token, keys.secret, Some(inv.now), keys.digest);
      && (inv.toolName !in s.tools ==> code == UNKNOWN_TOOL && s' == s)
      && (inv.toolName in s.tools && v.Rejected? ==>
            code == IDENTITY && s' == s.(events := s'.events, calls := s'.calls))
      && (Authenticated(keys, trust, s, inv) ==>
            var tool := s.tools[inv.toolName];
            var d := Decide(Request(inv.token, tool, inv.purpose, inv.manifest, inv.now), keys.secret,
                s.tables.spending,
                            WeakestLink(s.tables.tiers, inv.manifest), keys.digest);
            code ==
            if d.code == PROVENANCE then PENDING
            else if d.code != ALLOW then d.code
            else if inv.node.Some? && !inv.node.value.alive then CONTAINED_DENY
            else if inv.node.Some? && tool.reversible && inv.node.value.level == SHADOW then SHADOWED
            else if inv.raises then RAISED
            else EXECUTED)
  {
    if Authenticated(keys, trust, s, inv) {
      var tool := s.tools[inv.toolName];
      var s1 := s.(challenges := ChallengesAfter(s, inv, ClaimsOf(keys, inv)));
      StepOfAuthenticated(keys, trust, s, inv);
      AuthorizationMeaning(keys, s1, inv, tool);
      DecideMeaning(RequestOf(inv, tool), keys.secret, s.tables.spending, WeakestLink(s.tables.tiers, inv.manifest),
                    keys.digest);
    }
  }

  // ----- records -----

  /** The event of a call, field by field; it is logged unless the tool raised. */
  lemma EventMeaning(keys: Keys, trust: Trust, s: GatewayState, inv: Invocation)
    requires inv.toolName in s.tools
    ensures
      var (s', code) := Step(keys, trust, s, inv);
      var v := Verified(inv.token, keys.secret, Some(inv.now), keys.digest);
      && |s'.calls| == |s.calls| + 1
      && var e := s'.calls[|s.calls|];
      && s'.calls == s.calls + [e] && s'.events == (if code == RAISED then s.events else s.events + [e])
      && e.ts == inv.now && e.tool == inv.toolName && e.purpose == inv.purpose && e.payload == inv.args
      && e.decision == code && e.cost == s.tools[inv.toolName].estCost
      && e.tier == WeakestLink(s.tables.tiers, inv.manifest)
      && e.root == (if v.Accepted? then Some(v.claims.accountableRoot) else None)
      && e.actor == (if v.Accepted? then Some(v.claims.actor) else None)
  {
    StepTrails(keys, trust, s, inv);
  }

  /** The sources a manifest lists, in order. */
  function Listed(manifest: Manifest): seq<string> {
    seq(|manifest|, i requires 0 <= i < |manifest| => manifest[i].sourceId)
  }

  lemma {:induction false} SourceBagMeaning(manifest: Manifest)
    ensures SourceBag(manifest) == multiset(Listed(manifest))
  {
    if |manifest| > 0 {
      SourceBagMeaning(manifest[1..]);
      assert Listed(manifest) == [manifest[0].sourceId] + Listed(manifest[1..]);
    }
  }

  /** An audit entry hashes the request's tool, needs, purpose, sources with repetitions and time, and holds
      the decision's code as text. */
  lemma EntryMeaning(keys: Keys, req: Request, d: Decision)
    ensures
      var e := AuditEntry(keys, req, d);
      && e.ts == req.now && e.tool == req.tool.name && e.code == CodeName(d.code)
      && e.root == (if d.claims.Some? then Some(d.claims.value.accountableRoot) else None)
      && e.actor == (if d.claims.Some? then Some(d.claims.value.actor) else None)
      && e.requestHash == keys.requestHash(RequestKey(req.tool.name, req.tool.requiredCaps, req.purpose,
                                                      multiset(Listed(req.manifest)), req.now))
  {
    SourceBagMeaning(req.manifest);
  }

  /** An authenticated call leaves one audit row more: the entry of its decision, chained to the last. */
  lemma RowMeaning(keys: Keys, trust: Trust, s: GatewayState, inv: Invocation)
    requires Authenticated(keys, trust, s, inv)
    ensures
      var req := Request(inv.token, s.tools[inv.toolName], inv.purpose, inv.manifest, inv.now);
      var d := Decide(req, keys.secret, s.tables.spending, WeakestLink(s.tables.tiers, inv.manifest), keys.digest);
      var e, prev := AuditEntry(keys, req, d), LastHash(s.tables.rows);
      Step(keys, trust, s, inv).0.tables.rows == s.tables.rows + [Row(e, prev, RowHash(e, prev, keys.hasher))]
  {
    StepTrails(keys, trust, s, inv);
  }

  /** The decisions' codes as the audit log writes them. */
  lemma CodeTexts()
    ensures CodeName(ALLOW) == "ALLOW" && CodeName(IDENTITY) == "IDENTITY" && CodeName(CAPABILITY) == "CAPABILITY"
    ensures CodeName(PURPOSE) == "PURPOSE" && CodeName(PROVENANCE) == "PROVENANCE" && CodeName(BUDGET) == "BUDGET"
  {}

  /** Two challenges are the same exactly when time, count, token signature and tool are. */
  lemma ChallengeMeaning(s: GatewayState, inv: Invocation, s': GatewayState, inv': Invocation)
    ensures ChallengeFor(s, inv) == ChallengeFor(s', inv') <==>
            && inv.now == inv'.now && s.challenges == s'.challenges
            && inv.token.sig == inv'.token.sig && inv.toolName == inv'.toolName
  {}
}
