/** The enforcement point: every invocation authenticates, authorizes, applies containment and only
    then fires the tool. Step says what one invocation does to the whole state; the class does it. */
module Gateway {
  import opened Common
  import opened Tokens
  import opened Policy
  import opened Storage
  import opened Autonomy
  import opened Containment
  import opened Detective

  /** What the holder is asked to sign: fresh for every invocation. */
  datatype Challenge = Challenge(now: real, number: nat, sig: Term, tool: string)

  /** How proofs and identity documents are checked, and whose documents are trusted. */
  datatype Trust = Trust(
    issuers: set<string>, signedByIssuer: Svid -> bool, verifyPop: (string, Challenge, string) -> bool)

  datatype NodeView = NodeView(alive: bool, level: Level)

  datatype Invocation = Invocation(
    token: Token, toolName: string, purpose: Caps, manifest: Manifest, now: real,
    signer: Option<Challenge -> string>, node: Option<NodeView>, sampled: bool, args: string, raises: bool)

  /** A tool that actually ran, with its rendered arguments. */
  datatype Firing = Firing(now: real, tool: string, args: string)

  /** The event log misses the calls whose tool raised; calls has them too. */
  datatype GatewayState = GatewayState(
    tables: Tables, tools: map<string, Tool>, challenges: nat, events: seq<Event>, calls: seq<Event>,
    fired: seq<Firing>)

  // ----- the checks before authorization -----

  predicate ValidSvid(trust: Trust, svid: Svid, now: real) {
    trust.signedByIssuer(svid) && (svid.notAfter.Some? ==> now < svid.notAfter.value)
  }

  /** Why an accepted token's principal is turned away when attestation is required. */
  function AttestationFailure(trust: Trust, t: Tables, c: Claims, now: real): Option<(Code, Detail)> {
    if trust.issuers == {} then None
    else if c.accountableRoot !in t.attestations then Some((IDENTITY, NoValidSvid))
    else
      var (svid, ceiling) := t.attestations[c.accountableRoot];
      if svid.issuer !in trust.issuers || !ValidSvid(trust, svid, now) then Some((IDENTITY, NoValidSvid))
      else if Some(svid.holder) != c.holder then Some((AUTHENTICATION, HolderMismatch))
      else if c.caps * ceiling != c.caps then Some((CAPABILITY, CapsExceedRole))
      else None
  }

  function ChallengeFor(s: GatewayState, inv: Invocation): Challenge {
    Challenge(inv.now, s.challenges + 1, inv.token.sig, inv.toolName)
  }

  function PossessionFailure(trust: Trust, s: GatewayState, inv: Invocation, c: Claims): Option<Detail> {
    if c.holder.None? then None
    else if inv.signer.None? then Some(NoProof)
    else
      var challenge := ChallengeFor(s, inv);
      if trust.verifyPop(c.holder.value, challenge, inv.signer.value(challenge)) then None else Some(ProofFailed)
  }

  /** A challenge is issued exactly when a holder-bound token comes with a signer. */
  function ChallengesAfter(s: GatewayState, inv: Invocation, c: Claims): nat {
    if c.holder.Some? && inv.signer.Some? then s.challenges + 1 else s.challenges
  }

  /** What the acting node's autonomy makes of an authorized call. */
  function ContainedCode(node: Option<NodeView>, tool: Tool, sampled: bool): Code {
    if node.None? then EXECUTED
    else
      match VerdictFor(node.value.alive, node.value.level, tool.reversible, sampled)
      case DENY => CONTAINED_DENY
      case OBSERVE_ONLY => SHADOWED
      case _ => EXECUTED
  }

  // ----- one invocation -----

  function AuthnIncident(c: Claims, tool: Tool, now: real, detail: Detail): Incident {
    Incident(AUTHENTICATION, Some(c.accountableRoot), Some(c.actor), tool.name, tool.requiredCaps, tool.riskFloor,
             None, None, detail, now)
  }

  function EventOf(inv: Invocation, tool: Tool, tiers: Tiers, claims: Option<Claims>, code: Code): Event {
    Event(inv.now, RootOf(claims), ActorOf(claims), inv.toolName, inv.purpose, inv.args,
          WeakestLink(tiers, inv.manifest), tool.estCost, code)
  }

  function Logged(s: GatewayState, inv: Invocation, tool: Tool, claims: Option<Claims>, code: Code): GatewayState {
    var e := EventOf(inv, tool, s.tables.tiers, claims, code);
    s.(events := if code == RAISED then s.events else s.events + [e], calls := s.calls + [e])
  }

  function Refused(s: GatewayState, inv: Invocation, tool: Tool, c: Claims, code: Code, detail: Detail): GatewayState {
    var t := s.tables.(incidents := Emitted(s.tables.incidents, AuthnIncident(c, tool, inv.now, detail)));
    Logged(s.(tables := t), inv, tool, Some(c), code)
  }

  function RequestOf(inv: Invocation, tool: Tool): Request {
    Request(inv.token, tool, inv.purpose, inv.manifest, inv.now)
  }

  /** The tool fired, whether it returned or raised. */
  predicate RanCode(code: Code) {
    code == EXECUTED || code == RAISED
  }

  /** The code of an authorized or denied call, once past authentication. */
  function AuthorizedCode(d: Decision, inv: Invocation, tool: Tool): Code {
    if d.Allowed() then
      var code := ContainedCode(inv.node, tool, inv.sampled);
      if code == EXECUTED && inv.raises then RAISED else code
    else if d.state == Pending then PENDING
    else d.code
  }

  /** The call is on record, and its tool has run if the code says so. */
  function Concluded(s: GatewayState, inv: Invocation, tool: Tool, claims: Option<Claims>, code: Code): GatewayState {
    var s' := Logged(s, inv, tool, claims, code);
    if RanCode(code) then s'.(fired := s.fired + [Firing(inv.now, inv.toolName, inv.args)]) else s'
  }

  function AuthorizeAndRun(keys: Keys, s: GatewayState, inv: Invocation, tool: Tool): (GatewayState, Code) {
    var req := RequestOf(inv, tool);
    var d := StoreDecision(keys, s.tables, req);
    var code := AuthorizedCode(d, inv, tool);
    (Concluded(s.(tables := Authorized(keys, s.tables, req)), inv, tool, d.claims, code), code)
  }

  function Step(keys: Keys, trust: Trust, s: GatewayState, inv: Invocation): (GatewayState, Code) {
    if inv.toolName !in s.tools then (s, UNKNOWN_TOOL)
    else
      var tool := s.tools[inv.toolName];
      match Verified(inv.token, keys.secret, Some(inv.now), keys.digest)
      case Rejected(_) => (Logged(s, inv, tool, None, IDENTITY), IDENTITY)
      case Accepted(c) =>
        match AttestationFailure(trust, s.tables, c, inv.now)
        case Some((code, detail)) => (Refused(s, inv, tool, c, code, detail), code)
        case None =>
          var s1 := s.(challenges := ChallengesAfter(s, inv, c));
          match PossessionFailure(trust, s, inv, c)
          case Some(detail) => (Refused(s1, inv, tool, c, AUTHENTICATION, detail), AUTHENTICATION)
          case None => AuthorizeAndRun(keys, s1, inv, tool)
  }

  // ----- the enforcement point itself -----

  class Gateway {
    const store: Store
    const trust: Trust
    var tools: map<string, Tool>
    var challengesIssued: nat
    var eventLog: seq<Event>
    /** Every call of a known tool, logged or not, and the tools that ran, in order. */
    ghost var calls: seq<Event>
    ghost var fired: seq<Firing>

    constructor (store: Store, trust: Trust)
      ensures this.store == store && this.trust == trust
      ensures tools == map[] && challengesIssued == 0 && eventLog == [] && calls == [] && fired == []
    {
      this.store, this.trust := store, trust;
      tools, challengesIssued, eventLog, calls, fired := map[], 0, [], [], [];
    }

    ghost function State(): GatewayState
      reads this, store, store.ledger, store.sink, store.provenance, store.audit
    {
      GatewayState(store.Contents(), tools, challengesIssued, eventLog, calls, fired)
    }

    method Register(tool: Tool)
      modifies this`tools
      ensures State() == old(State()).(tools := old(tools)[tool.name := tool])
    {
      tools := tools[tool.name := tool];
    }

    method Log(inv: Invocation, tool: Tool, claims: Option<Claims>, code: Code)
      requires code != RAISED
      modifies this`eventLog, this`calls
      ensures State() == Logged(old(State()), inv, tool, claims, code)
    {
      eventLog := eventLog + [EventOf(inv, tool, store.provenance.tiers, claims, code)];
      calls := calls + [EventOf(inv, tool, store.provenance.tiers, claims, code)];
    }

    method Refuse(inv: Invocation, tool: Tool, c: Claims, code: Code, detail: Detail)
      requires code != RAISED
      modifies this`eventLog, this`calls, store.sink
      ensures State() == Refused(old(State()), inv, tool, c, code, detail)
    {
      store.sink.Emit(AuthnIncident(c, tool, inv.now, detail));
      Log(inv, tool, Some(c), code);
    }

    /** The principal must present a document from a trusted issuer, for the token's holder, and the
        token must stay within the role granted to that identity. */
    method CheckAttestation(inv: Invocation, tool: Tool, c: Claims) returns (ok: bool, reason: Code)
      modifies this`eventLog, this`calls, store.sink
      ensures
        match AttestationFailure(trust, old(store.Contents()), c, inv.now)
        case None => ok && State() == old(State())
        case Some((code, detail)) =>
          !ok && reason == code && State() == Refused(old(State()), inv, tool, c, code, detail)
    {
      if trust.issuers == {} {
        return true, ALLOW;
      }
      if c.accountableRoot !in store.attestations {
        Refuse(inv, tool, c, IDENTITY, NoValidSvid);
        return false, IDENTITY;
      }
      var (svid, ceiling) := store.attestations[c.accountableRoot];
      if svid.issuer !in trust.issuers || !ValidSvid(trust, svid, inv.now) {
        Refuse(inv, tool, c, IDENTITY, NoValidSvid);
        return false, IDENTITY;
      }
      if Some(svid.holder) != c.holder {
        Refuse(inv, tool, c, AUTHENTICATION, HolderMismatch);
        return false, AUTHENTICATION;
      }
      if c.caps * ceiling != c.caps {
        Refuse(inv, tool, c, CAPABILITY, CapsExceedRole);
        return false, CAPABILITY;
      }
      return true, ALLOW;
    }

    /** The presenter of a holder-bound token must sign a fresh challenge with the bound key. */
    method CheckPossession(inv: Invocation, tool: Tool, c: Claims) returns (ok: bool)
      modifies this`challengesIssued, this`eventLog, this`calls, store.sink
      ensures
        var s1 := old(State()).(challenges := ChallengesAfter(old(State()), inv, c));
        match PossessionFailure(trust, old(State()), inv, c)
        case None => ok && State() == s1
        case Some(detail) => !ok && State() == Refused(s1, inv, tool, c, AUTHENTICATION, detail)
    {
      if c.holder.None? {
        return true;
      }
      if inv.signer.None? {
        Refuse(inv, tool, c, AUTHENTICATION, NoProof);
        return false;
      }
      challengesIssued := challengesIssued + 1;
      var challenge := Challenge(inv.now, challengesIssued, inv.token.sig, inv.toolName);
      var proof := inv.signer.value(challenge);
      if !trust.verifyPop(c.holder.value, challenge, proof) {
        Refuse(inv, tool, c, AUTHENTICATION, ProofFailed);
        return false;
      }
      return true;
    }

    /** Invoke a tool; the result is the code of the call, and EXECUTED when the tool ran. When the tool
        raises, the exception leaves the call, here as RAISED, before the call is logged. */
    method Invoke(token: Token, toolName: string, purpose: Caps, manifest: Manifest, now: real,
                  signer: Option<Challenge -> string>, node: Contained?, sampled: bool, args: string, raises: bool)
      returns (executed: bool, code: Code)
      requires store.audit.hasher == store.keys.hasher
      modifies this`challengesIssued, this`eventLog, this`calls, this`fired, store.ledger, store.sink, store.audit
      ensures
        var view := if node == null then None else Some(NodeView(old(node.alive), old(node.level)));
        var inv := Invocation(token, toolName, purpose, manifest, now, signer, view, sampled, args, raises);
        (State(), code) == Step(store.keys, trust, old(State()), inv)
      ensures executed <==> code == EXECUTED
    {
      var view := if node == null then None else Some(NodeView(node.alive, node.level));
      var inv := Invocation(token, toolName, purpose, manifest, now, signer, view, sampled, args, raises);
      if toolName !in tools {
        return false, UNKNOWN_TOOL;
      }
      var tool := tools[toolName];
      var v := Verify(token, store.keys.secret, Some(now), store.keys.digest);
      if v.Rejected? {
        Log(inv, tool, None, IDENTITY);
        return false, IDENTITY;
      }
      var attested, reason := CheckAttestation(inv, tool, v.claims);
      if !attested {
        return false, reason;
      }
      var possessed := CheckPossession(inv, tool, v.claims);
      if !possessed {
        return false, AUTHENTICATION;
      }
      code := Run(inv, tool);
      executed := code == EXECUTED;
    }

    /** Authorization, containment and execution. */
    method Run(inv: Invocation, tool: Tool) returns (code: Code)
      requires store.audit.hasher == store.keys.hasher
      modifies this`eventLog, this`calls, this`fired, store.ledger, store.sink, store.audit
      ensures (State(), code) == AuthorizeAndRun(store.keys, old(State()), inv, tool)
    {
      var d := store.Decide(RequestOf(inv, tool));
      code := Conclude(inv, tool, d);
    }

    method Conclude(inv: Invocation, tool: Tool, d: Decision) returns (code: Code)
      requires !RanCode(d.code)
      modifies this`eventLog, this`calls, this`fired
      ensures code == AuthorizedCode(d, inv, tool)
      ensures State() == Concluded(old(State()), inv, tool, d.claims, code)
    {
      if !d.Allowed() {
        code := if d.state == Pending then PENDING else d.code;
        Log(inv, tool, d.claims, code);
        return;
      }
      if inv.node.Some? {
        var verdict := VerdictFor(inv.node.value.alive, inv.node.value.level, tool.reversible, inv.sampled);
        if verdict == DENY {
          Log(inv, tool, d.claims, CONTAINED_DENY);
          return CONTAINED_DENY;
        }
        if verdict == OBSERVE_ONLY {
          Log(inv, tool, d.claims, SHADOWED);
          return SHADOWED;
        }
      }
      code := Fire(inv, tool, d.claims);
    }

    /** The only way to the tool. */
    method Fire(inv: Invocation, tool: Tool, claims: Option<Claims>) returns (code: Code)
      modifies this`eventLog, this`calls, this`fired
      ensures code == if inv.raises then RAISED else EXECUTED
      ensures State() == Concluded(old(State()), inv, tool, claims, code)
    {
      fired := fired + [Firing(inv.now, inv.toolName, inv.args)];
      if inv.raises {
        calls := calls + [EventOf(inv, tool, store.provenance.tiers, claims, RAISED)];
        return RAISED;
      }
      Log(inv, tool, claims, EXECUTED);
      return EXECUTED;
    }
  }
}
