/** The autonomy ladder: sandbox profiles, runtime verdicts, and how a node's standing changes with
    its outcomes. */
module Autonomy {
  import opened Common
  import opened ProofOfWork
  import opened Tokens
  import opened Policy

  type Level = l: int | 0 <= l <= 3
  const SHADOW: Level := 0
  const CONTAINED: Level := 1
  const SUPERVISED: Level := 2
  const TRUSTED: Level := 3

  datatype Gating = OBSERVE | GATE_EACH | SAMPLE | MINIMAL

  datatype Verdict = EXECUTE | OBSERVE_ONLY | GATE | DENY

  datatype SandboxProfile = SandboxProfile(capsCeiling: Caps, ttlSeconds: real, gating: Gating, maxChildren: nat)

  function Profile(level: Level): SandboxProfile {
    match level
    case 0 => SandboxProfile(READ, 60.0, OBSERVE, 0)
    case 1 => SandboxProfile(READ + ENRICH, 120.0, GATE_EACH, 1)
    case 2 => SandboxProfile(READ + ENRICH + WRITE, 600.0, SAMPLE, 3)
    case _ => SandboxProfile(READ + ENRICH + WRITE + SPAWN, 3600.0, MINIMAL, 8)
  }

  /** How many children a level has room for: none in SHADOW, one, three, eight at TRUSTED; and every level
      has room and time for more than the one below and keeps its capabilities. */
  lemma RoomMeaning(level: Level)
    ensures Profile(level).maxChildren == if level == 0 then 0 else if level == 1 then 1 else if level == 2 then 3
            else 8
    ensures level > 0 ==>
              && Profile(level - 1).maxChildren < Profile(level).maxChildren
              && Profile(level - 1).ttlSeconds < Profile(level).ttlSeconds
              && Profile(level - 1).capsCeiling < Profile(level).capsCeiling
  {}

  const PROMOTE_AFTER := 5

  function VerdictFor(alive: bool, level: Level, reversible: bool, sampled: bool): Verdict {
    if !alive then DENY
    else if !reversible then GATE
    else
      match Profile(level).gating
      case OBSERVE => OBSERVE_ONLY
      case GATE_EACH => GATE
      case SAMPLE => if sampled then GATE else EXECUTE
      case MINIMAL => EXECUTE
  }

  // ----- standing -----

  datatype Standing = Standing(level: Level, streak: nat, good: nat, demotions: nat)

  const Newborn := Standing(SHADOW, 0, 0, 0)

  datatype Outcome = Outcome(verifiedGood: bool, floorViolation: bool)

  /** The standing after an outcome, with the parent's present level as the ceiling. */
  function AfterOutcome(s: Standing, o: Outcome, ceiling: Level): Standing {
    if o.floorViolation then
      Standing(SHADOW, 0, s.good, s.demotions + 1)
    else if !o.verifiedGood then
      Standing(if s.level > CONTAINED then CONTAINED else s.level, 0, s.good, s.demotions + 1)
    else if s.streak + 1 >= PROMOTE_AFTER && s.level < TRUSTED then
      Standing(if s.level < ceiling then s.level + 1 else s.level, 0, s.good + 1, s.demotions)
    else
      Standing(s.level, s.streak + 1, s.good + 1, s.demotions)
  }

  /** The level a bad outcome leaves. */
  function Dropped(level: Level, floorViolation: bool): Level {
    if floorViolation then SHADOW else if level > CONTAINED then CONTAINED else level
  }

  function History(outcomes: seq<(Outcome, Level)>): Standing {
    if |outcomes| == 0 then Newborn
    else
      var last := outcomes[|outcomes| - 1];
      AfterOutcome(History(outcomes[..|outcomes| - 1]), last.0, last.1)
  }

  predicate Good(o: Outcome) {
    o.verifiedGood && !o.floorViolation
  }

  function GoodCount(outcomes: seq<(Outcome, Level)>): nat {
    if |outcomes| == 0 then 0
    else GoodCount(outcomes[..|outcomes| - 1]) + if Good(outcomes[|outcomes| - 1].0) then 1 else 0
  }

  /** Good outcomes pay for autonomy: five for every level held. */
  predicate Earned(s: Standing) {
    5 * s.level + s.streak <= s.good && (s.level < TRUSTED ==> s.streak < PROMOTE_AFTER)
  }

  /** Earned autonomy over every history of outcomes since birth: every outcome is counted once, five
      good ones stand behind every level, and the level was within the ceiling at some promotion. */
  lemma {:induction false} AutonomyIsEarned(outcomes: seq<(Outcome, Level)>)
    ensures
      var s := History(outcomes);
      && Earned(s)
      && s.good == GoodCount(outcomes) && s.good + s.demotions == |outcomes|
      && (s.level == SHADOW || exists k :: 0 <= k < |outcomes| && Good(outcomes[k].0) && outcomes[k].1 >= s.level)
  {
    if |outcomes| > 0 {
      var front := outcomes[..|outcomes| - 1];
      AutonomyIsEarned(front);
      assert forall k :: 0 <= k < |front| ==> outcomes[k] == front[k];
      var last := outcomes[|outcomes| - 1];
      var s := History(outcomes);
      if s.level > History(front).level {
        assert Good(outcomes[|outcomes| - 1].0) && outcomes[|outcomes| - 1].1 >= s.level;
      }
    }
  }

  /** Revoked instantly: one bad outcome leaves at most CONTAINED, one floor violation leaves SHADOW,
      and with five good outcomes per level it takes at least five more to rise again. */
  lemma {:induction false} RevokedInstantly(s: Standing, o: Outcome, ceiling: Level, later: seq<(Outcome, Level)>)
    requires !Good(o)
    ensures
      var t := Afterwards(AfterOutcome(s, o, ceiling), later);
      AfterOutcome(s, o, ceiling).level <= (if o.floorViolation then SHADOW else CONTAINED)
      && 5 * t.level + t.streak <= 5 * AfterOutcome(s, o, ceiling).level + GoodCount(later)
  {
    if |later| > 0 {
      RevokedInstantly(s, o, ceiling, later[..|later| - 1]);
    }
  }

  function Afterwards(s: Standing, later: seq<(Outcome, Level)>): Standing {
    if |later| == 0 then s
    else AfterOutcome(Afterwards(s, later[..|later| - 1]), later[|later| - 1].0, later[|later| - 1].1)
  }

  /** One outcome: it raises the level if and only if it is good, the fifth in a row, and the level is below
      both TRUSTED and the ceiling, and then by exactly one; a bad one drops it at once and starts over. */
  lemma OutcomeMeaning(s: Standing, o: Outcome, ceiling: Level)
    ensures
      var t := AfterOutcome(s, o, ceiling);
      && (t.level > s.level <==> Good(o) && s.streak + 1 >= 5 && s.level < TRUSTED && s.level < ceiling)
      && (t.level > s.level ==> t.level == s.level + 1)
      && (Good(o) ==>
            && t.level >= s.level && t.good == s.good + 1 && t.demotions == s.demotions
            && t.streak == if s.streak + 1 >= 5 && s.level < TRUSTED then 0 else s.streak + 1)
      && (!Good(o) ==>
            && t.streak == 0 && t.good == s.good && t.demotions == s.demotions + 1
            && t.level == if o.floorViolation || s.level == SHADOW then SHADOW else CONTAINED)
  {}

  /** How many outcomes since the last bad one. */
  function GoodRun(outcomes: seq<(Outcome, Level)>): nat {
    if |outcomes| == 0 || !Good(outcomes[|outcomes| - 1].0) then 0 else 1 + GoodRun(outcomes[..|outcomes| - 1])
  }

  /** The streak counts good outcomes in a row by fives, until TRUSTED is reached. */
  lemma {:induction false} StreakMeaning(outcomes: seq<(Outcome, Level)>)
    ensures
      var s, run := History(outcomes), GoodRun(outcomes);
      && s.streak <= run && (run - s.streak) % 5 == 0
      && (s.level < TRUSTED ==> s.streak == run % 5)
  {
    if |outcomes| > 0 { StreakMeaning(outcomes[..|outcomes| - 1]); }
  }

  /** Where n good outcomes in a row lead from a level, under a constant ceiling. */
  function Climbed(level: Level, ceiling: Level, n: nat): Level {
    if level >= ceiling then level else if level + n / 5 >= ceiling then ceiling else level + n / 5
  }

  /** The climb: from any standing without a streak, n good outcomes in a row under a constant ceiling lead
      up one level for every five of them, to the ceiling and no further. */
  lemma {:induction false} Climb(s: Standing, outcomes: seq<(Outcome, Level)>, ceiling: Level)
    requires s.streak == 0 && forall k :: 0 <= k < |outcomes| ==> Good(outcomes[k].0) && outcomes[k].1 == ceiling
    ensures
      var t, n := Afterwards(s, outcomes), |outcomes|;
      && t.level == Climbed(s.level, ceiling, n) && t.good == s.good + n && t.demotions == s.demotions
      && t.streak == if t.level < TRUSTED then n % 5 else n - 5 * (t.level - s.level)
  {
    if |outcomes| > 0 {
      var front, last := outcomes[..|outcomes| - 1], outcomes[|outcomes| - 1];
      assert forall k :: 0 <= k < |front| ==> front[k] == outcomes[k];
      Climb(s, front, ceiling);
      OutcomeMeaning(Afterwards(s, front), last.0, ceiling);
    }
  }

  lemma {:induction false} HistoryIsAfterwards(outcomes: seq<(Outcome, Level)>)
    ensures History(outcomes) == Afterwards(Newborn, outcomes)
  {
    if |outcomes| > 0 { HistoryIsAfterwards(outcomes[..|outcomes| - 1]); }
  }

  /** From birth, n good outcomes under a constant ceiling lead to the level n / 5, or to the ceiling. */
  lemma ClimbFromBirth(outcomes: seq<(Outcome, Level)>, ceiling: Level)
    requires forall k :: 0 <= k < |outcomes| ==> Good(outcomes[k].0) && outcomes[k].1 == ceiling
    ensures History(outcomes).level == if |outcomes| / 5 < ceiling then |outcomes| / 5 else ceiling
  {
    HistoryIsAfterwards(outcomes);
    Climb(Newborn, outcomes, ceiling);
  }

  // ----- tokens shaped by the level -----

  function AttenuateToLevel(parent: Token, level: Level, spiffeId: string, now: real, holder: Option<string>): Token {
    Attenuate(parent, Some(Profile(level).capsCeiling), Some(now + Profile(level).ttlSeconds), None, Some(spiffeId),
        holder)
  }

  /** A capability bit that a token of this level may hold: READ; from CONTAINED ENRICH; from SUPERVISED
      WRITE; at TRUSTED SPAWN. */
  predicate Grants(level: Level, bit: nat) {
    bit == 0 || (bit == 1 && level >= 1) || (bit == 2 && level >= 2) || (bit == 5 && level == 3)
  }

  /** What shaping a token to a level leaves of its claims: the capabilities the level grants, an expiry at
      most a minute, two, ten or an hour away, and responsibility with the node. */
  lemma ShapedClaims(parent: Token, level: Level, spiffeId: string, now: real, holder: Option<string>, secret: Term)
    ensures
      var shaped := AttenuateToLevel(parent, level, spiffeId, now, holder);
      var c, p := Fold(shaped.identifier, shaped.caveats), Fold(parent.identifier, parent.caveats);
      && (Genuine(shaped, secret) <==> Genuine(parent, secret)) && c.accountableRoot == p.accountableRoot
      && (forall bit :: bit in c.caps <==> bit in p.caps && Grants(level, bit))
      && c.exp == Min(p.exp, now + [60.0, 120.0, 600.0, 3600.0][level]) && c.budget == p.budget
      && c.actor == spiffeId && c.depth == p.depth + 1 && c.holder == (if holder.Some? then holder else p.holder)
  {
    AttenuateClaims(parent, Some(Profile(level).capsCeiling), Some(now + Profile(level).ttlSeconds), None,
                    Some(spiffeId), holder, secret);
    assert forall bit :: bit in Profile(level).capsCeiling <==> Grants(level, bit);
  }

  const FLOOR_CAPS: Caps := DELETE + SPEND + RED_FLAG

  /** The floor stays closed: after shaping a token to any level, whatever caveats follow, its claims
      hold no floor capability and end within the level's window, so no tool that needs one is ever
      permitted and nothing at all is after the window. */
  lemma FloorStaysClosed(parent: Token, level: Level, spiffeId: string, issued: real, holder: Option<string>,
                         req: Request, secret: Term, spending: Spending, tier: Tier, digest: Digest)
    requires
      var shaped := AttenuateToLevel(parent, level, spiffeId, issued, holder);
      req.token.identifier == shaped.identifier && shaped.caveats <= req.token.caveats
    ensures
      var c := Fold(req.token.identifier, req.token.caveats);
      c.caps !! FLOOR_CAPS && c.exp <= issued + Profile(level).ttlSeconds
    ensures !(req.tool.requiredCaps !! FLOOR_CAPS) || req.now >= issued + Profile(level).ttlSeconds ==>
              !Decide(req, secret, spending, tier, digest).Allowed()
  {
    var shaped := AttenuateToLevel(parent, level, spiffeId, issued, holder);
    ShapedClaims(parent, level, spiffeId, issued, holder, secret);
    assert forall bit :: bit in FLOOR_CAPS ==> !Grants(level, bit);
    ExtensionNarrows(shaped.identifier, shaped.caveats, req.token.caveats);
    DecideMeaning(req, secret, spending, tier, digest);
  }
}
