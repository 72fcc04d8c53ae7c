/** The authorization decision: five ordered checks over a verified token, a tool, a declared purpose
    and the trust tier of the data reasoned on, with a charge to the spend ledger on a permit. */
module Policy {
  import opened Common
  import opened ProofOfWork
  import opened Tokens

  /** The trust lattice. */
  type Tier = t: int | 0 <= t <= 3
  const UNATTESTED: Tier := 0
  const SELF_SIGNED: Tier := 1
  const ORG_ATTESTED: Tier := 2
  const HUMAN_VOUCHED: Tier := 3

  datatype ProvenanceRecord = ProvenanceRecord(sourceId: string, tier: Tier)

  type Manifest = seq<ProvenanceRecord>

  datatype Tool = Tool(name: string, requiredCaps: Caps, riskFloor: Tier, estCost: real, reversible: bool)

  datatype Request = Request(token: Token, tool: Tool, purpose: Caps, manifest: Manifest, now: real)

  datatype AccessState = Permit | Deny | Pending

  /** Decision codes, the codes the gateway adds to them, and RAISED for a call whose tool raised. */
  datatype Code =
    | ALLOW | IDENTITY | CAPABILITY | PURPOSE | PROVENANCE | BUDGET
    | AUTHENTICATION | UNKNOWN_TOOL | PENDING | SHADOWED | CONTAINED_DENY | EXECUTED
    | RAISED

  datatype Detail =
    | Passed
    | TokenInvalid(error: VerifyError)
    | LacksCapability(missing: Caps)
    | PurposeExceedsGrant
    | IntentDrift
    | LineageBelowFloor(actual: Tier, floor: Tier, sources: set<string>)
    | BudgetExhausted(spent: real, cost: real, ceiling: real)
    | NoValidSvid | HolderMismatch | CapsExceedRole | NoProof | ProofFailed

  datatype Decision = Decision(state: AccessState, code: Code, detail: Detail, claims: Option<Claims>) {
    predicate Allowed() { state.Permit? }
  }

  datatype Incident = Incident(
    code: Code, root: Option<string>, actor: Option<string>, tool: string, requiredCaps: Caps,
    requiredTier: Tier, actualTier: Option<Tier>, purpose: Option<Caps>, detail: Detail, now: real)

  type Tiers = map<string, Tier>
  type Spending = map<string, real>

  // ----- provenance: authoritative tiers, weakest link -----

  function TierOf(tiers: Tiers, source: string): Tier {
    if source in tiers then tiers[source] else UNATTESTED
  }

  function WeakestLink(tiers: Tiers, manifest: Manifest): Tier {
    if |manifest| == 0 then UNATTESTED
    else if |manifest| == 1 then TierOf(tiers, manifest[0].sourceId)
    else
      var rest, first := WeakestLink(tiers, manifest[1..]), TierOf(tiers, manifest[0].sourceId);
      if rest < first then rest else first
  }

  predicate AllAtLeast(tiers: Tiers, manifest: Manifest, floor: Tier) {
    forall r :: r in manifest ==> TierOf(tiers, r.sourceId) >= floor
  }

  /** A lineage meets a floor exactly when it is nonempty with every source at the floor, whatever
      tiers it claims for itself; an empty lineage only meets the lowest floor. */
  lemma {:induction false} WeakestLinkMeaning(tiers: Tiers, manifest: Manifest, floor: Tier)
    ensures WeakestLink(tiers, manifest) >= floor <==>
            floor == UNATTESTED || (manifest != [] && AllAtLeast(tiers, manifest, floor))
  {
    if |manifest| > 1 {
      WeakestLinkMeaning(tiers, manifest[1..], floor);
      assert manifest == [manifest[0]] + manifest[1..];
    } else if |manifest| == 1 {
      assert manifest[0] in manifest;
    }
  }

  // ----- the decision -----

  function SpentOn(spending: Spending, root: string): real {
    if root in spending then spending[root] else 0.0
  }

  function Charged(spending: Spending, root: string, amount: real): Spending {
    spending[root := SpentOn(spending, root) + amount]
  }

  function Sources(manifest: Manifest): set<string> {
    set r | r in manifest :: r.sourceId
  }

  function Decide(req: Request, secret: Term, spending: Spending, tier: Tier, digest: Digest): Decision {
    match Verified(req.token, secret, Some(req.now), digest)
    case Rejected(e) => Decision(Deny, IDENTITY, TokenInvalid(e), None)
    case Accepted(c) =>
      var tool := req.tool;
      if tool.requiredCaps * c.caps != tool.requiredCaps then
        Decision(Deny, CAPABILITY, LacksCapability(tool.requiredCaps - c.caps), Some(c))
      else if req.purpose * c.caps != req.purpose then
        Decision(Deny, PURPOSE, PurposeExceedsGrant, Some(c))
      else if tool.requiredCaps * req.purpose != tool.requiredCaps then
        Decision(Deny, PURPOSE, IntentDrift, Some(c))
      else if tier < tool.riskFloor then
        Decision(Pending, PROVENANCE, LineageBelowFloor(tier, tool.riskFloor, Sources(req.manifest)), Some(c))
      else if SpentOn(spending, c.accountableRoot) + tool.estCost > c.budget then
        Decision(Deny, BUDGET, BudgetExhausted(SpentOn(spending, c.accountableRoot), tool.estCost, c.budget), Some(c))
      else
        Decision(Permit, ALLOW, Passed, Some(c))
  }

  function RootOf(claims: Option<Claims>): Option<string> {
    if claims.Some? then Some(claims.value.accountableRoot) else None
  }

  function ActorOf(claims: Option<Claims>): Option<string> {
    if claims.Some? then Some(claims.value.actor) else None
  }

  function DecisionIncident(req: Request, d: Decision, tier: Tier): Incident {
    Incident(d.code, RootOf(d.claims), ActorOf(d.claims), req.tool.name, req.tool.requiredCaps,
             req.tool.riskFloor, Some(tier), Some(req.purpose), d.detail, req.now)
  }

  /** Identical incidents are kept once. */
  function Emitted(incidents: seq<Incident>, p: Incident): seq<Incident> {
    if p in incidents then incidents else incidents + [p]
  }

  class SpendLedger {
    var spending: Spending

    constructor ()
      ensures spending == map[]
    {
      spending := map[];
    }

    function Spent(root: string): real
      reads this
    {
      SpentOn(spending, root)
    }

    method Charge(root: string, amount: real)
      modifies this
      ensures Spent(root) == old(Spent(root)) + amount
      ensures forall r :: r != root ==> Spent(r) == old(Spent(r))
      ensures spending == Charged(old(spending), root, amount)
    {
      spending := spending[root := Spent(root) + amount];
    }
  }

  class TriageSink {
    var incidents: seq<Incident>

    constructor ()
      ensures incidents == []
    {
      incidents := [];
    }

    method Emit(p: Incident)
      modifies this
      ensures incidents == if p in old(incidents) then old(incidents) else old(incidents) + [p]
      ensures incidents == Emitted(old(incidents), p)
    {
      if p !in incidents {
        incidents := incidents + [p];
      }
    }
  }

  method Authorize(req: Request, secret: Term, ledger: SpendLedger, sink: TriageSink, tier: Tier, digest: Digest)
    returns (d: Decision)
    modifies ledger, sink
    ensures d == Decide(req, secret, old(ledger.spending), tier, digest)
    ensures ledger.spending == if d.Allowed()
                               then Charged(old(ledger.spending), d.claims.value.accountableRoot, req.tool.estCost)
                               else old(ledger.spending)
    ensures sink.incidents == if d.Allowed() then old(sink.incidents)
                              else Emitted(old(sink.incidents), DecisionIncident(req, d, tier))
  {
    var v := Verify(req.token, secret, Some(req.now), digest);
    if v.Rejected? {
      d := Decision(Deny, IDENTITY, TokenInvalid(v.error), None);
      sink.Emit(DecisionIncident(req, d, tier));
      return;
    }
    var c, tool := v.claims, req.tool;
    if tool.requiredCaps * c.caps != tool.requiredCaps {
      d := Decision(Deny, CAPABILITY, LacksCapability(tool.requiredCaps - c.caps), Some(c));
    } else if req.purpose * c.caps != req.purpose {
      d := Decision(Deny, PURPOSE, PurposeExceedsGrant, Some(c));
    } else if tool.requiredCaps * req.purpose != tool.requiredCaps {
      d := Decision(Deny, PURPOSE, IntentDrift, Some(c));
    } else if tier < tool.riskFloor {
      d := Decision(Pending, PROVENANCE, LineageBelowFloor(tier, tool.riskFloor, Sources(req.manifest)), Some(c));
    } else if ledger.Spent(c.accountableRoot) + tool.estCost > c.budget {
      d := Decision(Deny, BUDGET, BudgetExhausted(ledger.Spent(c.accountableRoot), tool.estCost, c.budget), Some(c));
    } else {
      ledger.Charge(c.accountableRoot, tool.estCost);
      d := Decision(Permit, ALLOW, Passed, Some(c));
      return;
    }
    sink.Emit(DecisionIncident(req, d, tier));
  }

  // ----- what a decision means -----

  /** The request is entitled: accepted claims cover the tool and the purpose, and the purpose covers
      the tool. */
  predicate Entitled(req: Request, c: Claims) {
    req.tool.requiredCaps <= req.purpose <= c.caps
  }

  /** A permit means all five checks, and nothing else, in any order: an accepted token, entitlement,
      lineage at the floor and room in the budget. Pending means exactly that entitlement holds and
      the lineage alone stands in the way. */
  lemma DecideMeaning(req: Request, secret: Term, spending: Spending, tier: Tier, digest: Digest)
    ensures
      var v := Verified(req.token, secret, Some(req.now), digest);
      var d := Decide(req, secret, spending, tier, digest);
      && (d.claims == if v.Accepted? then Some(v.claims) else None)
      && (d.Allowed() <==> v.Accepted? && Entitled(req, v.claims) && tier >= req.tool.riskFloor
                           && SpentOn(spending, v.claims.accountableRoot) + req.tool.estCost <= v.claims.budget)
      && (d.state == Pending <==> v.Accepted? && Entitled(req, v.claims) && tier < req.tool.riskFloor)
      && (d.Allowed() <==> d.code == ALLOW) && (d.state == Pending <==> d.code == PROVENANCE)
      && (d.code == IDENTITY <==> v.Rejected?)
  {
    var v := Verified(req.token, secret, Some(req.now), digest);
    if v.Accepted? {
      var t, p, c := req.tool.requiredCaps, req.purpose, v.claims.caps;
      assert t * c == t <==> t <= c;
      assert p * c == p <==> p <= c;
      assert t * p == t <==> t <= p;
    }
  }

  /** Each decision with its reason, by the first check that fails. */
  lemma DecisionReasons(req: Request, secret: Term, spending: Spending, tier: Tier, digest: Digest)
    ensures
      var v, d := Verified(req.token, secret, Some(req.now), digest), Decide(req, secret, spending, tier, digest);
      var needs, purpose, floor, cost := req.tool.requiredCaps, req.purpose, req.tool.riskFloor, req.tool.estCost;
      if v.Rejected? then d == Decision(Deny, IDENTITY, TokenInvalid(v.error), None)
      else
        var c := v.claims;
        var spent := SpentOn(spending, c.accountableRoot);
        && (!(needs <= c.caps) ==> d == Decision(Deny, CAPABILITY, LacksCapability(needs - c.caps), Some(c)))
        && (needs <= c.caps && !(purpose <= c.caps) ==> d == Decision(Deny, PURPOSE, PurposeExceedsGrant, Some(c)))
        && (needs <= c.caps && purpose <= c.caps && !(needs <= purpose) ==>
              d == Decision(Deny, PURPOSE, IntentDrift, Some(c)))
        && (needs <= purpose <= c.caps && tier < floor ==>
              d == Decision(Pending, PROVENANCE,
                  LineageBelowFloor(tier, floor, set r | r in req.manifest :: r.sourceId), Some(c)))
        && (needs <= purpose <= c.caps && tier >= floor && spent + cost > c.budget ==>
              d == Decision(Deny, BUDGET, BudgetExhausted(spent, cost, c.budget), Some(c)))
        && (needs <= purpose <= c.caps && tier >= floor && spent + cost <= c.budget ==>
              d == Decision(Permit, ALLOW, Passed, Some(c)))
  {
    var v := Verified(req.token, secret, Some(req.now), digest);
    if v.Accepted? {
      var t, p, c := req.tool.requiredCaps, req.purpose, v.claims.caps;
      assert t * c == t <==> t <= c;
      assert p * c == p <==> p <= c;
      assert t * p == t <==> t <= p;
    }
  }

  /** Delegation never gains a decision: what is permitted to a token with further caveats, of whatever
      kind and number, is permitted to the token they were appended to. */
  lemma {:induction false} DelegationNeverGains(req: Request, caveats: seq<Caveat>, secret: Term, spending: Spending,
                                                tier: Tier, digest: Digest)
    requires Decide(req.(token := ChainAll(req.token, caveats)), secret, spending, tier, digest).Allowed()
    ensures Decide(req, secret, spending, tier, digest).Allowed()
  {
    var child := ChainAll(req.token, caveats);
    DecideMeaning(req.(token := child), secret, spending, tier, digest);
    DecideMeaning(req, secret, spending, tier, digest);
    ChainAllGenuine(req.token, caveats, secret);
    ExtensionNarrows(req.token.identifier, req.token.caveats, child.caveats);
    assert forall c :: c in req.token.caveats ==> c in child.caveats;
  }

  // ----- approval -----

  datatype Vouch = Vouch(source: string, tier: Tier)

  function Vouched(tiers: Tiers, vouches: seq<Vouch>): Tiers
    decreases |vouches|
  {
    if |vouches| == 0 then tiers
    else Vouched(tiers[vouches[0].source := vouches[0].tier], vouches[1..])
  }

  /** Approval progress: a pending request is decided by its budget check alone once some vouches
      leave every listed source at the tool's floor; with no source listed no vouches ever help. */
  lemma {:induction false} ApprovalProgress(req: Request, secret: Term, spending: Spending, tiers: Tiers,
                                            vouches: seq<Vouch>, digest: Digest)
    requires Decide(req, secret, spending, WeakestLink(tiers, req.manifest), digest).state == Pending
    ensures
      var later := Vouched(tiers, vouches);
      var d := Decide(req, secret, spending, WeakestLink(later, req.manifest), digest);
      var c := Verified(req.token, secret, Some(req.now), digest).claims;
      if req.manifest != [] && AllAtLeast(later, req.manifest, req.tool.riskFloor) then
        d.code == if SpentOn(spending, c.accountableRoot) + req.tool.estCost <= c.budget then ALLOW else BUDGET
      else
        d.state == Pending
  {
    var later := Vouched(tiers, vouches);
    DecideMeaning(req, secret, spending, WeakestLink(tiers, req.manifest), digest);
    DecideMeaning(req, secret, spending, WeakestLink(later, req.manifest), digest);
    WeakestLinkMeaning(later, req.manifest, req.tool.riskFloor);
    WeakestLinkMeaning(tiers, req.manifest, req.tool.riskFloor);
  }

  /** Raising the tiers of sources never turns a permit into a refusal. */
  lemma {:induction false} RaisingTiersKeepsPermit(req: Request, secret: Term, spending: Spending, tiers: Tiers,
                                                   higher: Tiers, digest: Digest)
    requires forall s :: TierOf(tiers, s) <= TierOf(higher, s)
    requires Decide(req, secret, spending, WeakestLink(tiers, req.manifest), digest).Allowed()
    ensures Decide(req, secret, spending, WeakestLink(higher, req.manifest), digest).Allowed()
  {
    DecideMeaning(req, secret, spending, WeakestLink(tiers, req.manifest), digest);
    DecideMeaning(req, secret, spending, WeakestLink(higher, req.manifest), digest);
    WeakestLinkMeaning(tiers, req.manifest, req.tool.riskFloor);
    WeakestLinkMeaning(higher, req.manifest, req.tool.riskFloor);
  }
}
