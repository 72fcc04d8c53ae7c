/** The persistent tables behind the decision point: spend ledger, triage sink, authoritative
    provenance, hash-chained audit and identity attestations. */
module Storage {
  import opened Common
  import opened ProofOfWork
  import opened Tokens
  import opened Policy
  import opened Audit

  /** A SPIFFE identity document: identity only. */
  datatype Svid = Svid(
    spiffeId: string, holder: string, notAfter: Option<real>, trustDomain: string, issuer: string, sig: string)

  /** What the audit log hashes of a request. */
  datatype RequestKey = RequestKey(tool: string, requiredCaps: Caps, purpose: Caps, sources: multiset<string>,
      now: real)

  /** The keys and hashes the deployment supplies. */
  datatype Keys = Keys(secret: Term, digest: Digest, hasher: Hasher, requestHash: RequestKey -> string)

  /** The tables' contents. */
  datatype Tables = Tables(
    spending: Spending, incidents: seq<Incident>, tiers: Tiers, rows: seq<Row>, attestations: map<string, (Svid, Caps)>)

  function CodeName(c: Code): string {
    match c
    case ALLOW => "ALLOW"
    case IDENTITY => "IDENTITY"
    case CAPABILITY => "CAPABILITY"
    case PURPOSE => "PURPOSE"
    case PROVENANCE => "PROVENANCE"
    case BUDGET => "BUDGET"
    case AUTHENTICATION => "AUTHENTICATION"
    case UNKNOWN_TOOL => "UNKNOWN_TOOL"
    case PENDING => "PENDING"
    case SHADOWED => "SHADOWED"
    case CONTAINED_DENY => "CONTAINED_DENY"
    case EXECUTED => "EXECUTED"
    case RAISED => "RAISED"
  }

  function SourceBag(manifest: Manifest): multiset<string> {
    if |manifest| == 0 then multiset{} else multiset{manifest[0].sourceId} + SourceBag(manifest[1..])
  }

  function AuditEntry(keys: Keys, req: Request, d: Decision): Entry {
    var key := RequestKey(req.tool.name, req.tool.requiredCaps, req.purpose, SourceBag(req.manifest), req.now);
    Entry(req.now, keys.requestHash(key), CodeName(d.code), RootOf(d.claims), ActorOf(d.claims), req.tool.name)
  }

  function StoreDecision(keys: Keys, t: Tables, req: Request): Decision {
    Decide(req, keys.secret, t.spending, WeakestLink(t.tiers, req.manifest), keys.digest)
  }

  /** The tables after one authorization: a permit charges, anything else is chronicled, and every
      decision is audited. */
  function Authorized(keys: Keys, t: Tables, req: Request): Tables {
    var d := StoreDecision(keys, t, req);
    t.(spending := if d.Allowed() then Charged(t.spending, d.claims.value.accountableRoot, req.tool.estCost)
                   else t.spending,
       incidents := if d.Allowed() then t.incidents
                    else Emitted(t.incidents, DecisionIncident(req, d, WeakestLink(t.tiers, req.manifest))),
       rows := Recorded(t.rows, AuditEntry(keys, req, d), keys.hasher))
  }

  class Provenance {
    var tiers: Tiers
    /** Who vouched for each source last, and when. */
    var vouchers: map<string, (string, real)>

    constructor ()
      ensures tiers == map[] && vouchers == map[]
    {
      tiers, vouchers := map[], map[];
    }

    method Vouch(source: string, tier: Tier, attestedBy: string, at: real)
      modifies this
      ensures TierOf(tiers, source) == tier && forall s :: s != source ==> TierOf(tiers, s) == TierOf(old(tiers), s)
      ensures tiers == old(tiers)[source := tier]
      ensures vouchers == old(vouchers)[source := (attestedBy, at)]
      ensures old(tiers.Keys == vouchers.Keys) ==> tiers.Keys == vouchers.Keys
    {
      tiers := tiers[source := tier];
      vouchers := vouchers[source := (attestedBy, at)];
    }
  }

  class Store {
    const keys: Keys
    const ledger: SpendLedger
    const sink: TriageSink
    const provenance: Provenance
    const audit: DecisionAuditLog
    var attestations: map<string, (Svid, Caps)>

    constructor (keys: Keys)
      ensures this.keys == keys && audit.hasher == keys.hasher
      ensures fresh(ledger) && fresh(sink) && fresh(provenance) && fresh(audit)
      ensures Contents() == Tables(map[], [], map[], [], map[])
    {
      this.keys := keys;
      ledger := new SpendLedger();
      sink := new TriageSink();
      provenance := new Provenance();
      audit := new DecisionAuditLog(keys.hasher);
      attestations := map[];
    }

    function Contents(): Tables
      reads this, ledger, sink, provenance, audit
    {
      Tables(ledger.spending, sink.incidents, provenance.tiers, audit.rows, attestations)
    }

    method Enroll(svid: Svid, roleCaps: Caps)
      modifies this
      ensures Contents() == old(Contents()).(attestations := old(attestations)[svid.spiffeId := (svid, roleCaps)])
    {
      attestations := attestations[svid.spiffeId := (svid, roleCaps)];
    }

    /** Decide a request and record it. */
    method Decide(req: Request) returns (d: Decision)
      requires audit.hasher == keys.hasher
      modifies ledger, sink, audit
      ensures d == StoreDecision(keys, old(Contents()), req)
      ensures Contents() == Authorized(keys, old(Contents()), req)
    {
      d := Authorize(req, keys.secret, ledger, sink, WeakestLink(provenance.tiers, req.manifest), keys.digest);
      var _ := audit.Record(AuditEntry(keys, req, d));
    }
  }
}
