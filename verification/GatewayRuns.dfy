/** Properties of every run of the gateway: complete mediation, conservation of spend, a matching
    audit trail, the spend ceiling, fresh challenges, and nothing beyond what was issued. */
module GatewayRuns {
  import opened Common
  import opened Tokens
  import opened ChainIntegrity
  import opened Policy
  import opened Audit
  import opened Storage
  import opened Autonomy
  import opened Detective
  import opened Gateway

  datatype Action =
    | Call(inv: Invocation)
    | Vouching(vouch: Vouch)
    | Enrolling(svid: Svid, roleCaps: Caps)
    | Registering(tool: Tool)

  function Apply(keys: Keys, trust: Trust, s: GatewayState, a: Action): GatewayState {
    match a
    case Call(inv) => Step(keys, trust, s, inv).0
    case Vouching(v) => s.(tables := s.tables.(tiers := s.tables.tiers[v.source := v.tier]))
    case Enrolling(svid, caps) =>
      s.(tables := s.tables.(attestations := s.tables.attestations[svid.spiffeId := (svid, caps)]))
    case Registering(tool) => s.(tools := s.tools[tool.name := tool])
  }

  function Run(keys: Keys, trust: Trust, s: GatewayState, acts: seq<Action>): GatewayState {
    if |acts| == 0 then s
    else Apply(keys, trust, Run(keys, trust, s, acts[..|acts| - 1]), acts[|acts| - 1])
  }

  const Init := GatewayState(Tables(map[], [], map[], [], map[]), map[], 0, [], [], [])

  lemma {:induction false} RunStep(keys: Keys, trust: Trust, s: GatewayState, acts: seq<Action>, k: nat)
    requires k < |acts|
    ensures Run(keys, trust, s, acts[..k + 1]) == Apply(keys, trust, Run(keys, trust, s, acts[..k]), acts[k])
  {
    assert acts[..k + 1][..k] == acts[..k];
  }

  // ----- what one invocation does -----

  /** Past authentication: a registered tool, an accepted token, attested and possessed. */
  predicate Authenticated(keys: Keys, trust: Trust, s: GatewayState, inv: Invocation) {
    && inv.toolName in s.tools
    && var v := Verified(inv.token, keys.secret, Some(inv.now), keys.digest);
    && v.Accepted?
    && AttestationFailure(trust, s.tables, v.claims, inv.now).None?
    && PossessionFailure(trust, s, inv, v.claims).None?
  }

  function ClaimsOf(keys: Keys, inv: Invocation): Claims
    requires Verified(inv.token, keys.secret, Some(inv.now), keys.digest).Accepted?
  {
    Verified(inv.token, keys.secret, Some(inv.now), keys.digest).claims
  }

  /** Authenticated and permitted: entitled, on vouched data, within budget. */
  predicate Cleared(keys: Keys, trust: Trust, s: GatewayState, inv: Invocation) {
    && Authenticated(keys, trust, s, inv)
    && var tool, c := s.tools[inv.toolName], ClaimsOf(keys, inv);
    && Entitled(RequestOf(inv, tool), c)
    && WeakestLink(s.tables.tiers, inv.manifest) >= tool.riskFloor
    && SpentOn(s.tables.spending, c.accountableRoot) + tool.estCost <= c.budget
  }

  /** The codes of calls that were charged: run, whether the tool returned or raised, shadowed, or stopped
      at a reaped node. */
  predicate ChargedCode(code: Code) {
    RanCode(code) || code == SHADOWED || code == CONTAINED_DENY
  }

  predicate Runnable(s: GatewayState, inv: Invocation)
    requires inv.toolName in s.tools
  {
    inv.node.None? ||
    var reversible := s.tools[inv.toolName].reversible;
    VerdictFor(inv.node.value.alive, inv.node.value.level, reversible, inv.sampled) in {EXECUTE, GATE}
  }

  lemma StepOfAuthenticated(keys: Keys, trust: Trust, s: GatewayState, inv: Invocation)
    requires Authenticated(keys, trust, s, inv)
    ensures
      var c := ClaimsOf(keys, inv);
      Step(keys, trust, s, inv)
      == AuthorizeAndRun(keys, s.(challenges := ChallengesAfter(s, inv, c)), inv, s.tools[inv.toolName])
  {}

  /** Before authorization nothing runs, nothing is charged and nothing is audited. */
  lemma StepOfUnauthenticated(keys: Keys, trust: Trust, s: GatewayState, inv: Invocation)
    requires !Authenticated(keys, trust, s, inv)
    ensures
      var (s', code) := Step(keys, trust, s, inv);
      && !ChargedCode(code) && s'.fired == s.fired && s'.tools == s.tools
      && s'.tables.spending == s.tables.spending && s'.tables.rows == s.tables.rows
  {}

  /** Authorization: the code, what runs and what is charged. */
  lemma AuthorizationMeaning(keys: Keys, s: GatewayState, inv: Invocation, tool: Tool)
    ensures
      var (s', code) := AuthorizeAndRun(keys, s, inv, tool);
      var d := StoreDecision(keys, s.tables, RequestOf(inv, tool));
      && code == AuthorizedCode(d, inv, tool) && (ChargedCode(code) <==> d.Allowed())
      && s'.fired == (if RanCode(code) then s.fired + [Firing(inv.now, inv.toolName, inv.args)] else s.fired)
      && s'.tools == s.tools
      && s'.tables.spending ==
           (if d.Allowed() then Charged(s.tables.spending, d.claims.value.accountableRoot, tool.estCost)
            else s.tables.spending)
  {
    DecideMeaning(RequestOf(inv, tool), keys.secret, s.tables.spending, WeakestLink(s.tables.tiers, inv.manifest),
        keys.digest);
  }

  /** Complete mediation: a tool runs exactly on a cleared call of a node that may act, and that call
      alone is appended to what ran; budget is charged exactly on cleared calls, and then the root's
      total stays within the token's folded budget. */
  lemma StepMeaning(keys: Keys, trust: Trust, s: GatewayState, inv: Invocation)
    ensures
      var (s', code) := Step(keys, trust, s, inv);
      && (RanCode(code) <==> Cleared(keys, trust, s, inv) && Runnable(s, inv))
      && (RanCode(code) ==> (code == RAISED <==> inv.raises))
      && (ChargedCode(code) <==> Cleared(keys, trust, s, inv))
      && s'.fired == (if RanCode(code) then s.fired + [Firing(inv.now, inv.toolName, inv.args)] else s.fired)
      && s'.tools == s.tools
    ensures
      var s' := Step(keys, trust, s, inv).0;
      if Cleared(keys, trust, s, inv) then
        var c := ClaimsOf(keys, inv);
        && s'.tables.spending == Charged(s.tables.spending, c.accountableRoot, s.tools[inv.toolName].estCost)
        && SpentOn(s'.tables.spending, c.accountableRoot) <= c.budget
      else s'.tables.spending == s.tables.spending
  {
    if Authenticated(keys, trust, s, inv) {
      var tool, s1 := s.tools[inv.toolName], s.(challenges := ChallengesAfter(s, inv, ClaimsOf(keys, inv)));
      StepOfAuthenticated(keys, trust, s, inv);
      AuthorizationMeaning(keys, s1, inv, tool);
      DecideMeaning(RequestOf(inv, tool), keys.secret, s.tables.spending, WeakestLink(s.tables.tiers, inv.manifest),
          keys.digest);
    } else {
      StepOfUnauthenticated(keys, trust, s, inv);
    }
  }

  /** What a node's autonomy makes of a cleared call: a reaped node is denied, a SHADOW node runs
      irreversible tools only and observes otherwise, and every other node runs. */
  lemma AutonomyDecides(keys: Keys, trust: Trust, s: GatewayState, inv: Invocation)
    requires inv.toolName in s.tools && inv.node.Some?
    ensures
      var code, cleared := Step(keys, trust, s, inv).1, Cleared(keys, trust, s, inv);
      var node, reversible := inv.node.value, s.tools[inv.toolName].reversible;
      && (RanCode(code) <==> cleared && node.alive && (node.level != SHADOW || !reversible))
      && (code == SHADOWED <==> cleared && node.alive && node.level == SHADOW && reversible)
      && (code == CONTAINED_DENY <==> cleared && !node.alive)
  {
    StepMeaning(keys, trust, s, inv);
  }

  /** A reputation never decides more: above SHADOW, and for irreversible tools at any level, neither the
      level nor sampling changes anything about a call or the state after it. */
  lemma OnlyShadowMatters(keys: Keys, trust: Trust, s: GatewayState, inv: Invocation, other: Level, sampled: bool)
    requires inv.toolName in s.tools && inv.node.Some?
    requires (inv.node.value.level > SHADOW && other > SHADOW) || !s.tools[inv.toolName].reversible
    ensures Step(keys, trust, s, inv.(node := Some(NodeView(inv.node.value.alive, other)), sampled := sampled))
            == Step(keys, trust, s, inv)
  {
    if Authenticated(keys, trust, s, inv) {
      var s1 := s.(challenges := ChallengesAfter(s, inv, ClaimsOf(keys, inv)));
      SameRun(keys, s1, inv, s.tools[inv.toolName], other, sampled);
    }
  }

  lemma SameRun(keys: Keys, s: GatewayState, inv: Invocation, tool: Tool, other: Level, sampled: bool)
    requires inv.node.Some? && ((inv.node.value.level > SHADOW && other > SHADOW) || !tool.reversible)
    ensures
      var inv' := inv.(node := Some(NodeView(inv.node.value.alive, other)), sampled := sampled);
      AuthorizeAndRun(keys, s, inv', tool) == AuthorizeAndRun(keys, s, inv, tool)
  {
    var inv' := inv.(node := Some(NodeView(inv.node.value.alive, other)), sampled := sampled);
    var d := StoreDecision(keys, s.tables, RequestOf(inv, tool));
    assert ContainedCode(inv'.node, tool, sampled) == ContainedCode(inv.node, tool, inv.sampled);
    assert RequestOf(inv', tool) == RequestOf(inv, tool)
        && AuthorizedCode(d, inv', tool) == AuthorizedCode(d, inv, tool);
  }

  /** The one event a call leaves, if its tool is known and does not raise; the audit row it leaves, if
      authenticated. */
  lemma StepTrails(keys: Keys, trust: Trust, s: GatewayState, inv: Invocation)
    ensures
      var (s', code) := Step(keys, trust, s, inv);
      if inv.toolName !in s.tools then s' == s
      else
        var tool := s.tools[inv.toolName];
        var v := Verified(inv.token, keys.secret, Some(inv.now), keys.digest);
        var claims := if v.Accepted? then Some(v.claims) else None;
        && s'.calls == s.calls + [EventOf(inv, tool, s.tables.tiers, claims, code)]
        && s'.events ==
             (if code == RAISED then s.events else s.events + [EventOf(inv, tool, s.tables.tiers, claims, code)])
        && s'.tables.tiers == s.tables.tiers && s'.tables.attestations == s.tables.attestations
        && s'.tables.rows ==
             if Authenticated(keys, trust, s, inv) then
               var d := StoreDecision(keys, s.tables, RequestOf(inv, tool));
               Recorded(s.tables.rows, AuditEntry(keys, RequestOf(inv, tool), d), keys.hasher)
             else s.tables.rows
  {
    if Authenticated(keys, trust, s, inv) {
      DecideMeaning(RequestOf(inv, s.tools[inv.toolName]), keys.secret, s.tables.spending,
                    WeakestLink(s.tables.tiers, inv.manifest), keys.digest);
    }
  }

  /** With trusted issuers, a tool only ever runs for an attested principal, within the role granted to
      it, and only when a fresh challenge was signed with the key the identity document names. */
  lemma RunsAreAttested(keys: Keys, trust: Trust, s: GatewayState, inv: Invocation)
    requires trust.issuers != {} && RanCode(Step(keys, trust, s, inv).1)
    ensures
      var root := ClaimsOf(keys, inv).accountableRoot;
      && root in s.tables.attestations
      && var (svid, role) := s.tables.attestations[root];
      && svid.issuer in trust.issuers && ValidSvid(trust, svid, inv.now)
      && s.tools[inv.toolName].requiredCaps <= inv.purpose <= role
      && inv.signer.Some?
      && trust.verifyPop(svid.holder, ChallengeFor(s, inv), inv.signer.value(ChallengeFor(s, inv)))
  {
    StepMeaning(keys, trust, s, inv);
    var c := ClaimsOf(keys, inv);
    var role := s.tables.attestations[c.accountableRoot].1;
    assert c.caps <= role by { assert c.caps * role == c.caps; }
  }

  // ----- conservation -----

  /** The summed cost of a root's charged events. */
  function ChargedCost(events: seq<Event>, root: string): real {
    if |events| == 0 then 0.0
    else
      var e := events[|events| - 1];
      ChargedCost(events[..|events| - 1], root)
      + if ChargedCode(e.decision) && e.root == Some(root) then e.cost else 0.0
  }

  datatype Trace = Trace(ts: real, root: Option<string>, actor: Option<string>, tool: string)

  function ChargedTrail(events: seq<Event>): seq<Trace> {
    if |events| == 0 then []
    else
      var e, front := events[|events| - 1], ChargedTrail(events[..|events| - 1]);
      if ChargedCode(e.decision) then front + [Trace(e.ts, e.root, e.actor, e.tool)] else front
  }

  function AllowTrail(rows: seq<Row>): seq<Trace> {
    if |rows| == 0 then []
    else
      var e, front := rows[|rows| - 1].entry, AllowTrail(rows[..|rows| - 1]);
      if e.code == "ALLOW" then front + [Trace(e.ts, e.root, e.actor, e.tool)] else front
  }

  function ExecutedTrail(events: seq<Event>): seq<Firing> {
    if |events| == 0 then []
    else
      var e, front := events[|events| - 1], ExecutedTrail(events[..|events| - 1]);
      if RanCode(e.decision) then front + [Firing(e.ts, e.tool, e.payload)] else front
  }

  /** The calls that reach the event log: all but those whose tool raised. */
  function LoggedCalls(calls: seq<Event>): seq<Event> {
    if |calls| == 0 then []
    else
      var e, front := calls[|calls| - 1], LoggedCalls(calls[..|calls| - 1]);
      if e.decision == RAISED then front else front + [e]
  }

  function RaisedCost(calls: seq<Event>, root: string): real {
    if |calls| == 0 then 0.0
    else
      var e := calls[|calls| - 1];
      RaisedCost(calls[..|calls| - 1], root) + if e.decision == RAISED && e.root == Some(root) then e.cost else 0.0
  }

  /** The ledger holds exactly what the charged calls cost; those match the ALLOW audit rows one for one
      and in order; the tools that ran are the calls that returned or raised; the event log holds the
      calls but those that raised; the audit chain verifies. */
  ghost predicate Balanced(s: GatewayState, h: Hasher) {
    && (forall root :: SpentOn(s.tables.spending, root) == ChargedCost(s.calls, root))
    && ChargedTrail(s.calls) == AllowTrail(s.tables.rows)
    && ExecutedTrail(s.calls) == s.fired
    && s.events == LoggedCalls(s.calls)
    && Chained(s.tables.rows, h)
    && (forall name :: name in s.tools ==> s.tools[name].name == name)
  }

  lemma {:induction false} TrailSnoc(events: seq<Event>, e: Event, root: string)
    ensures ChargedCost(events + [e], root) ==
            ChargedCost(events, root) + if ChargedCode(e.decision) && e.root == Some(root) then e.cost else 0.0
    ensures ChargedTrail(events + [e]) ==
            if ChargedCode(e.decision) then ChargedTrail(events) + [Trace(e.ts, e.root, e.actor, e.tool)]
            else ChargedTrail(events)
    ensures ExecutedTrail(events + [e]) ==
            if RanCode(e.decision) then ExecutedTrail(events) + [Firing(e.ts, e.tool, e.payload)]
            else ExecutedTrail(events)
    ensures LoggedCalls(events + [e]) == if e.decision == RAISED then LoggedCalls(events) else LoggedCalls(events) + [e]
  {
    assert (events + [e])[..|events|] == events;
  }

  lemma {:induction false} AllowTrailSnoc(rows: seq<Row>, e: Entry, h: Hasher)
    ensures AllowTrail(Recorded(rows, e, h)) ==
            if e.code == "ALLOW" then AllowTrail(rows) + [Trace(e.ts, e.root, e.actor, e.tool)] else AllowTrail(rows)
  {
    assert Recorded(rows, e, h)[..|rows|] == rows;
  }

  lemma CodeNameAllow(c: Code)
    ensures CodeName(c) == "ALLOW" <==> c == ALLOW
  {}

  lemma CallKeepsBalance(keys: Keys, trust: Trust, s: GatewayState, inv: Invocation)
    requires Balanced(s, keys.hasher)
    ensures Balanced(Step(keys, trust, s, inv).0, keys.hasher)
  {
    StepMeaning(keys, trust, s, inv);
    StepTrails(keys, trust, s, inv);
    var (s', code) := Step(keys, trust, s, inv);
    if inv.toolName in s.tools {
      var tool := s.tools[inv.toolName];
      var e := s'.calls[|s.calls|];
      forall root
        ensures SpentOn(s'.tables.spending, root) == ChargedCost(s'.calls, root)
      {
        TrailSnoc(s.calls, e, root);
      }
      TrailSnoc(s.calls, e, "");
      if Authenticated(keys, trust, s, inv) {
        var req := RequestOf(inv, tool);
        var d := StoreDecision(keys, s.tables, req);
        DecideMeaning(req, keys.secret, s.tables.spending, WeakestLink(s.tables.tiers, inv.manifest), keys.digest);
        CodeNameAllow(d.code);
        AllowTrailSnoc(s.tables.rows, AuditEntry(keys, req, d), keys.hasher);
        RecordKeepsChain(s.tables.rows, AuditEntry(keys, req, d), keys.hasher);
      }
    }
  }

  lemma ApplyKeepsBalance(keys: Keys, trust: Trust, s: GatewayState, a: Action)
    ensures Balanced(s, keys.hasher) ==> Balanced(Apply(keys, trust, s, a), keys.hasher)
  {
    if Balanced(s, keys.hasher) {
      if a.Call? {
        CallKeepsBalance(keys, trust, s, a.inv);
      } else {
        var s' := Apply(keys, trust, s, a);
        assert s'.calls == s.calls && s'.events == s.events && s'.fired == s.fired;
        assert s'.tables.spending == s.tables.spending && s'.tables.rows == s.tables.rows;
      }
    }
  }

  /** Conservation over every run, whatever is invoked, vouched, enrolled and registered. */
  lemma {:induction false} EveryRunBalances(keys: Keys, trust: Trust, acts: seq<Action>)
    ensures Balanced(Run(keys, trust, Init, acts), keys.hasher)
  {
    if |acts| > 0 {
      EveryRunBalances(keys, trust, acts[..|acts| - 1]);
      ApplyKeepsBalance(keys, trust, Run(keys, trust, Init, acts[..|acts| - 1]), acts[|acts| - 1]);
    }
  }

  lemma {:induction false} ChargedCostSnoc(events: seq<Event>, e: Event, root: string)
    ensures ChargedCost(events + [e], root)
            == ChargedCost(events, root) + if ChargedCode(e.decision) && e.root == Some(root) then e.cost else 0.0
  {
    assert (events + [e])[..|events|] == events;
  }

  lemma {:induction false} LoggedCosts(calls: seq<Event>, root: string)
    ensures ChargedCost(LoggedCalls(calls), root) + RaisedCost(calls, root) == ChargedCost(calls, root)
  {
    if |calls| > 0 {
      var front, e := calls[..|calls| - 1], calls[|calls| - 1];
      LoggedCosts(front, root);
      ChargedCostSnoc(LoggedCalls(front), e, root);
    }
  }

  lemma {:induction false} AllLogged(calls: seq<Event>)
    requires forall e :: e in calls ==> e.decision != RAISED
    ensures LoggedCalls(calls) == calls
  {
    if |calls| > 0 {
      var front, e := calls[..|calls| - 1], calls[|calls| - 1];
      assert calls == front + [e] && e in calls;
      AllLogged(front);
    }
  }

  /** A root's spend is what its EXECUTED, SHADOWED and CONTAINED_DENY events cost exactly when the calls
      whose tool raised, charged but never logged, cost nothing. */
  lemma {:induction false} LedgerMatchesLog(keys: Keys, trust: Trust, acts: seq<Action>, root: string)
    ensures
      var s := Run(keys, trust, Init, acts);
      && SpentOn(s.tables.spending, root) == ChargedCost(s.events, root) + RaisedCost(s.calls, root)
      && (SpentOn(s.tables.spending, root) == ChargedCost(s.events, root) <==> RaisedCost(s.calls, root) == 0.0)
      && ((forall e :: e in s.calls ==> e.decision != RAISED) ==>
            ChargedTrail(s.events) == AllowTrail(s.tables.rows) && ExecutedTrail(s.events) == s.fired)
  {
    EveryRunBalances(keys, trust, acts);
    var calls := Run(keys, trust, Init, acts).calls;
    LoggedCosts(calls, root);
    if forall e :: e in calls ==> e.decision != RAISED { AllLogged(calls); }
  }

  // ----- incidents -----

  /** The code that a refusal for this reason has in the event log. */
  function LoggedAs(detail: Detail): Code {
    match detail
    case Passed => ALLOW
    case TokenInvalid(_) => IDENTITY
    case LacksCapability(_) => CAPABILITY
    case PurposeExceedsGrant => PURPOSE
    case IntentDrift => PURPOSE
    case LineageBelowFloor(_, _, _) => PENDING
    case BudgetExhausted(_, _, _) => BUDGET
    case NoValidSvid => IDENTITY
    case HolderMismatch => AUTHENTICATION
    case CapsExceedRole => CAPABILITY
    case NoProof => AUTHENTICATION
    case ProofFailed => AUTHENTICATION
  }

  /** The incident and the event of the same refused call. */
  predicate SameCall(p: Incident, e: Event) {
    && p.root == e.root && p.actor == e.actor && p.tool == e.tool && p.now == e.ts
    && LoggedAs(p.detail) == e.decision
    && (p.purpose.Some? ==> p.purpose.value == e.purpose) && (p.actualTier.Some? ==> p.actualTier.value == e.tier)
  }

  predicate RefusedEvent(e: Event) {
    e.root.Some? && !ChargedCode(e.decision)
  }

  predicate HasIncident(incidents: seq<Incident>, e: Event) {
    exists p :: p in incidents && SameCall(p, e)
  }

  predicate HasRefusal(events: seq<Event>, p: Incident) {
    exists e :: e in events && RefusedEvent(e) && SameCall(p, e)
  }

  predicate AllReported(events: seq<Event>, incidents: seq<Incident>) {
    forall e {:trigger HasIncident(incidents, e)} :: e in events && RefusedEvent(e) ==> HasIncident(incidents, e)
  }

  predicate AllBacked(events: seq<Event>, incidents: seq<Incident>) {
    forall p {:trigger HasRefusal(events, p)} :: p in incidents ==> HasRefusal(events, p)
  }

  /** Every refusal of an accepted token has its incident, and every incident its refusal. */
  predicate Chronicled(events: seq<Event>, incidents: seq<Incident>) {
    AllReported(events, incidents) && AllBacked(events, incidents)
  }

  lemma StillHasIncident(incidents: seq<Incident>, later: seq<Incident>, e: Event)
    requires HasIncident(incidents, e) && forall p :: p in incidents ==> p in later
    ensures HasIncident(later, e)
  {}

  lemma StillHasRefusal(events: seq<Event>, later: seq<Event>, p: Incident)
    requires HasRefusal(events, p) && forall e :: e in events ==> e in later
    ensures HasRefusal(later, p)
  {}

  lemma StillReported(events: seq<Event>, incidents: seq<Incident>, e: Event, later: seq<Incident>)
    requires AllReported(events, incidents) && forall p :: p in incidents ==> p in later
    requires RefusedEvent(e) ==> HasIncident(later, e)
    ensures AllReported(events + [e], later)
  {
    forall x | x in events + [e] && RefusedEvent(x)
      ensures HasIncident(later, x)
    {
      if x in events {
        assert HasIncident(incidents, x);
        StillHasIncident(incidents, later, x);
      }
    }
  }

  lemma StillBacked(events: seq<Event>, incidents: seq<Incident>, longer: seq<Event>, p: Incident)
    requires AllBacked(events, incidents) && forall e :: e in events ==> e in longer
    ensures AllBacked(longer, incidents)
    ensures HasRefusal(longer, p) ==> AllBacked(longer, Emitted(incidents, p))
  {
    forall q | q in incidents
      ensures HasRefusal(longer, q)
    {
      assert HasRefusal(events, q);
      StillHasRefusal(events, longer, q);
    }
  }

  lemma ChronicledStep(events: seq<Event>, incidents: seq<Incident>, e: Event, p: Incident)
    requires Chronicled(events, incidents) && (RefusedEvent(e) ==> SameCall(p, e))
    ensures Chronicled(events + [e], if RefusedEvent(e) then Emitted(incidents, p) else incidents)
  {
    StillBacked(events, incidents, events + [e], p);
    if RefusedEvent(e) {
      var later := Emitted(incidents, p);
      assert p in later && e in events + [e];
      StillReported(events, incidents, e, later);
    } else {
      StillReported(events, incidents, e, incidents);
    }
  }

  /** The reason a call of an accepted token is refused before authorization, if it is. */
  function AuthnReason(keys: Keys, trust: Trust, s: GatewayState, inv: Invocation): Option<Detail>
    requires Verified(inv.token, keys.secret, Some(inv.now), keys.digest).Accepted?
  {
    match AttestationFailure(trust, s.tables, ClaimsOf(keys, inv), inv.now)
    case Some((_, detail)) => Some(detail)
    case None => PossessionFailure(trust, s, inv, ClaimsOf(keys, inv))
  }

  /** A refused call of an accepted token adds its incident, once, with the tool's demands and the reason:
      refused before authorization, the incident is an authentication one without purpose or tier;
      after it, the incident carries the decision's code and reason, the declared purpose and the tier of
      the lineage. No other call adds any. */
  lemma StepIncidents(keys: Keys, trust: Trust, s: GatewayState, inv: Invocation) returns (p: Incident)
    requires inv.toolName in s.tools && s.tools[inv.toolName].name == inv.toolName
    ensures
      var (s', tool) := (Step(keys, trust, s, inv).0, s.tools[inv.toolName]);
      var e := s'.calls[|s'.calls| - 1];
      && s'.calls == s.calls + [e] && s'.events == (if e.decision == RAISED then s.events else s.events + [e])
      && s'.tables.incidents == (if RefusedEvent(e) then Emitted(s.tables.incidents, p) else s.tables.incidents)
      && (RefusedEvent(e) ==>
            && SameCall(p, e) && p.requiredCaps == tool.requiredCaps && p.requiredTier == tool.riskFloor
            && match AuthnReason(keys, trust, s, inv)
               case Some(detail) =>
                 p.code == AUTHENTICATION && p.detail == detail && p.purpose.None? && p.actualTier.None?
               case None =>
                 var d := StoreDecision(keys, s.tables, RequestOf(inv, tool));
                 p.code == d.code && p.detail == d.detail && p.purpose == Some(inv.purpose)
                 && p.actualTier == Some(WeakestLink(s.tables.tiers, inv.manifest)))
  {
    var tool, req := s.tools[inv.toolName], RequestOf(inv, s.tools[inv.toolName]);
    StepTrails(keys, trust, s, inv);
    StepMeaning(keys, trust, s, inv);
    p := DecisionIncident(req, StoreDecision(keys, s.tables, req), WeakestLink(s.tables.tiers, inv.manifest));
    if Authenticated(keys, trust, s, inv) {
      StepOfAuthenticated(keys, trust, s, inv);
      AuthorizationIncident(keys, s.(challenges := ChallengesAfter(s, inv, ClaimsOf(keys, inv))), inv, tool);
    } else {
      UnauthenticatedIncident(keys, trust, s, inv);
      var v := Verified(inv.token, keys.secret, Some(inv.now), keys.digest);
      if v.Accepted? { p := AuthnIncident(v.claims, tool, inv.now, AuthnReason(keys, trust, s, inv).value); }
    }
  }

  lemma AuthorizationIncident(keys: Keys, s: GatewayState, inv: Invocation, tool: Tool)
    ensures
      var (s', code) := AuthorizeAndRun(keys, s, inv, tool);
      var d := StoreDecision(keys, s.tables, RequestOf(inv, tool));
      var p := DecisionIncident(RequestOf(inv, tool), d, WeakestLink(s.tables.tiers, inv.manifest));
      && s'.tables.incidents == (if d.Allowed() then s.tables.incidents else Emitted(s.tables.incidents, p))
      && (d.claims.Some? && !d.Allowed() ==> code == LoggedAs(d.detail))
  {}

  lemma UnauthenticatedIncident(keys: Keys, trust: Trust, s: GatewayState, inv: Invocation)
    requires inv.toolName in s.tools && !Authenticated(keys, trust, s, inv)
    ensures
      var (s', code) := Step(keys, trust, s, inv);
      var v := Verified(inv.token, keys.secret, Some(inv.now), keys.digest);
      if v.Rejected? then s'.tables.incidents == s.tables.incidents
      else
        var reason := AuthnReason(keys, trust, s, inv);
        && reason.Some? && code == LoggedAs(reason.value)
        && s'.tables.incidents
           == Emitted(s.tables.incidents, AuthnIncident(v.claims, s.tools[inv.toolName], inv.now, reason.value))
  {}

  /** Over every run, refusals and incidents stand for each other. */
  lemma {:induction false} EveryRefusalIsChronicled(keys: Keys, trust: Trust, acts: seq<Action>)
    ensures
      var s := Run(keys, trust, Init, acts);
      Chronicled(s.events, s.tables.incidents)
  {
    if |acts| > 0 {
      var front, a := acts[..|acts| - 1], acts[|acts| - 1];
      var s, s' := Run(keys, trust, Init, front), Run(keys, trust, Init, acts);
      EveryRefusalIsChronicled(keys, trust, front);
      EveryRunBalances(keys, trust, front);
      if a.Call? && a.inv.toolName in s.tools {
        var p := StepIncidents(keys, trust, s, a.inv);
        var e := s'.calls[|s'.calls| - 1];
        if e.decision != RAISED { ChronicledStep(s.events, s.tables.incidents, e, p); }
      }
    }
  }

  // ----- the spend ceiling -----

  /** The call at position k of a run was cleared. */
  predicate ClearedAt(keys: Keys, trust: Trust, s: GatewayState, acts: seq<Action>, k: nat)
    requires k < |acts|
  {
    acts[k].Call? && Cleared(keys, trust, Run(keys, trust, s, acts[..k]), acts[k].inv)
  }

  /** Position k was a call, cleared on behalf of root, whose token allows a total this large. */
  predicate Covers(keys: Keys, trust: Trust, s: GatewayState, acts: seq<Action>, k: nat, root: string, total: real)
    requires k < |acts|
  {
    && ClearedAt(keys, trust, s, acts, k)
    && ClaimsOf(keys, acts[k].inv).accountableRoot == root == acts[k].inv.token.identifier.root
    && total <= ClaimsOf(keys, acts[k].inv).budget <= acts[k].inv.token.identifier.budget
  }

  /** Spend ceiling: at the end of any run, a root's total is what it was at the start, or at most the
      folded budget, and so the minted budget, of a token permitted for that root during the run. */
  lemma {:induction false} SpendCeiling(keys: Keys, trust: Trust, s: GatewayState, acts: seq<Action>, root: string)
    ensures
      var total := SpentOn(Run(keys, trust, s, acts).tables.spending, root);
      || total == SpentOn(s.tables.spending, root)
      || exists k :: 0 <= k < |acts| && Covers(keys, trust, s, acts, k, root, total)
  {
    if |acts| > 0 {
      var n := |acts| - 1;
      var front, a := acts[..n], acts[n];
      var before := Run(keys, trust, s, front);
      SpendCeiling(keys, trust, s, front, root);
      SameTotals(keys, trust, before, a, root);
      if a.Call? && Cleared(keys, trust, before, a.inv) && ClaimsOf(keys, a.inv).accountableRoot == root {
        ClearedIsCovered(keys, trust, before, a.inv);
        assert Covers(keys, trust, s, acts, n, root, SpentOn(Run(keys, trust, s, acts).tables.spending, root));
      } else if SpentOn(before.tables.spending, root) != SpentOn(s.tables.spending, root) {
        var k :| 0 <= k < |front| && Covers(keys, trust, s, front, k, root, SpentOn(before.tables.spending, root));
        assert front[..k] == acts[..k];
        assert Covers(keys, trust, s, acts, k, root, SpentOn(before.tables.spending, root));
      }
    }
  }

  lemma ClearedIsCovered(keys: Keys, trust: Trust, s: GatewayState, inv: Invocation)
    requires Cleared(keys, trust, s, inv)
    ensures
      var c := ClaimsOf(keys, inv);
      && c.accountableRoot == inv.token.identifier.root
      && SpentOn(Step(keys, trust, s, inv).0.tables.spending, c.accountableRoot) <= c.budget
      && c.budget <= inv.token.identifier.budget
  {
    StepMeaning(keys, trust, s, inv);
    ClaimsMeaning(inv.token.identifier, inv.token.caveats);
  }

  /** Only a cleared call on a root's behalf changes the root's total. */
  lemma SameTotals(keys: Keys, trust: Trust, s: GatewayState, a: Action, root: string)
    ensures (a.Call? && Cleared(keys, trust, s, a.inv) && ClaimsOf(keys, a.inv).accountableRoot == root)
            || SpentOn(Apply(keys, trust, s, a).tables.spending, root) == SpentOn(s.tables.spending, root)
  {
    if a.Call? { StepMeaning(keys, trust, s, a.inv); }
  }

  // ----- challenges -----

  /** The call gets as far as issuing a challenge. */
  predicate IssuesChallenge(keys: Keys, trust: Trust, s: GatewayState, inv: Invocation) {
    && inv.toolName in s.tools
    && var v := Verified(inv.token, keys.secret, Some(inv.now), keys.digest);
    && v.Accepted? && AttestationFailure(trust, s.tables, v.claims, inv.now).None?
    && v.claims.holder.Some? && inv.signer.Some?
  }

  lemma StepChallenges(keys: Keys, trust: Trust, s: GatewayState, inv: Invocation)
    ensures Step(keys, trust, s, inv).0.challenges ==
            if IssuesChallenge(keys, trust, s, inv) then s.challenges + 1 else s.challenges
  {}

  lemma {:induction false} ChallengesGrow(keys: Keys, trust: Trust, s: GatewayState, acts: seq<Action>, i: nat)
    requires i <= |acts|
    ensures Run(keys, trust, s, acts[..i]).challenges <= Run(keys, trust, s, acts).challenges
    decreases |acts|
  {
    if i == |acts| {
      assert acts[..i] == acts;
    } else {
      var front, a := acts[..|acts| - 1], acts[|acts| - 1];
      ChallengesGrow(keys, trust, s, front, i);
      assert front[..i] == acts[..i];
      if a.Call? { StepChallenges(keys, trust, Run(keys, trust, s, front), a.inv); }
    }
  }

  /** No challenge is ever issued twice in a run. */
  lemma {:induction false} ChallengesAreFresh(keys: Keys, trust: Trust, s: GatewayState, acts: seq<Action>, i: nat,
                                              j: nat)
    requires i < j < |acts| && acts[i].Call? && acts[j].Call?
    requires IssuesChallenge(keys, trust, Run(keys, trust, s, acts[..i]), acts[i].inv)
    ensures ChallengeFor(Run(keys, trust, s, acts[..i]), acts[i].inv)
            != ChallengeFor(Run(keys, trust, s, acts[..j]), acts[j].inv)
  {
    RunStep(keys, trust, s, acts, i);
    StepChallenges(keys, trust, Run(keys, trust, s, acts[..i]), acts[i].inv);
    ChallengesGrow(keys, trust, s, acts[..j], i + 1);
    assert acts[..j][..i + 1] == acts[..i + 1];
  }

  /** Once challenged, a call is turned away exactly when the proof does not pass the check for the
      fresh challenge; it is then neither run nor charged. */
  lemma ProofDecides(keys: Keys, trust: Trust, s: GatewayState, inv: Invocation)
    requires IssuesChallenge(keys, trust, s, inv)
    ensures
      var (after, code) := Step(keys, trust, s, inv);
      var ch := ChallengeFor(s, inv);
      && (code == AUTHENTICATION <==> !trust.verifyPop(ClaimsOf(keys, inv).holder.value, ch, inv.signer.value(ch)))
      && (code == AUTHENTICATION <==> !Authenticated(keys, trust, s, inv))
      && (code == AUTHENTICATION ==> after.fired == s.fired && after.tables.spending == s.tables.spending)
  {
    StepMeaning(keys, trust, s, inv);
  }

  // ----- nothing beyond what was issued -----

  /** End to end: when the tokens presented are ones holders could derive from the issued tokens, every
      cleared call is covered by an issued token of the same root: its capabilities include what the
      tool needs, it has not expired, and the root's total stays within its budget. */
  lemma NothingBeyondIssued(keys: Keys, trust: Trust, s: GatewayState, inv: Invocation,
                            terms: seq<Term>, issued: set<Token>) returns (source: Token)
    requires keys.secret.Atom? && AllGenuine(issued, keys.secret) && Derivation(terms, issued, keys.secret)
    requires inv.token.sig in terms && Cleared(keys, trust, s, inv)
    ensures source in issued && source.identifier == inv.token.identifier && source.caveats <= inv.token.caveats
    ensures
      var c := Fold(source.identifier, source.caveats);
      && s.tools[inv.toolName].requiredCaps <= c.caps && inv.now < c.exp
      && SpentOn(Step(keys, trust, s, inv).0.tables.spending, c.accountableRoot) <= c.budget
  {
    source := AcceptedExtendsIssued(terms, issued, keys.secret, inv.token, Some(inv.now), keys.digest);
    StepMeaning(keys, trust, s, inv);
  }

  /** Over a whole run of such tokens, no root ever spends past the budget of some token issued for it. */
  lemma {:induction false} SpendWithinIssued(keys: Keys, trust: Trust, s: GatewayState, acts: seq<Action>, root: string,
                          terms: seq<Term>, issued: set<Token>)
    requires keys.secret.Atom? && AllGenuine(issued, keys.secret) && Derivation(terms, issued, keys.secret)
    requires forall k :: 0 <= k < |acts| && acts[k].Call? ==> acts[k].inv.token.sig in terms
    ensures
      var total := SpentOn(Run(keys, trust, s, acts).tables.spending, root);
      total == SpentOn(s.tables.spending, root)
      || exists source :: source in issued && source.identifier.root == root
           && total <= Fold(source.identifier, source.caveats).budget
  {
    var total := SpentOn(Run(keys, trust, s, acts).tables.spending, root);
    SpendCeiling(keys, trust, s, acts, root);
    if total != SpentOn(s.tables.spending, root) {
      var k :| 0 <= k < |acts| && Covers(keys, trust, s, acts, k, root, total);
      var token := acts[k].inv.token;
      var source := AcceptedExtendsIssued(terms, issued, keys.secret, token, Some(acts[k].inv.now), keys.digest);
    }
  }
}
