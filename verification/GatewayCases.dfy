/** Two short runs of the gateway: what a node in SHADOW runs, and what is charged without being run. */
module GatewayCases {
  import opened Common
  import opened Tokens
  import opened Policy
  import opened Storage
  import opened Autonomy
  import opened Gateway
  import opened GatewayRuns

  /** A call, by a live node, of a token that needs no signer and has a budget of two. */
  function BearerCall(keys: Keys, tool: string, level: Level, raises: bool): Invocation {
    var i := Identifier("r", {}, 1.0, 2.0, 0, 0);
    var token := Token(i, Hmac(keys.secret, Ident(i)), []);
    Invocation(token, tool, {}, [], 0.0, None, Some(NodeView(true, level)), false, "", raises)
  }

  /** A tool that needs no capability and costs one. */
  function Priced(name: string, reversible: bool): Tool {
    Tool(name, {}, UNATTESTED, 1.0, reversible)
  }

  /** Within the budget, such a call is charged and ends by level, reversibility and whether the tool raises. */
  lemma BearerStep(keys: Keys, trust: Trust, s: GatewayState, tool: string, level: Level, raises: bool)
    requires trust.issuers == {} && tool in s.tools && SpentOn(s.tables.spending, "r") <= 1.0
    requires s.tools[tool] == Priced(tool, s.tools[tool].reversible)
    ensures
      var (after, code) := Step(keys, trust, s, BearerCall(keys, tool, level, raises));
      && code == (if level == SHADOW && s.tools[tool].reversible then SHADOWED else if raises then RAISED else EXECUTED)
      && after.tools == s.tools && SpentOn(after.tables.spending, "r") == SpentOn(s.tables.spending, "r") + 1.0
      && |after.fired| == |s.fired| + (if RanCode(code) then 1 else 0)
      && |after.events| == |s.events| + (if code == RAISED then 0 else 1)
  {
    var call := BearerCall(keys, tool, level, raises);
    AutonomyDecides(keys, trust, s, call);
    StepMeaning(keys, trust, s, call);
    StepTrails(keys, trust, s, call);
  }

  lemma {:induction false} TwoActions(keys: Keys, trust: Trust, a: Action, b: Action)
    ensures Run(keys, trust, Init, [a, b]) == Apply(keys, trust, Apply(keys, trust, Init, a), b)
  {
    var acts := [a, b];
    RunStep(keys, trust, Init, acts, 0);
    RunStep(keys, trust, Init, acts, 1);
    assert acts[..2] == acts && Run(keys, trust, Init, acts[..0]) == Init;
  }

  /** A live node in SHADOW does run an irreversible tool, while its reversible calls are only observed. */
  lemma ShadowRunsIrreversible(keys: Keys, trust: Trust)
    requires trust.issuers == {}
    ensures
      var s := Run(keys, trust, Init, [Registering(Priced("wipe", false)), Registering(Priced("note", true))]);
      && Step(keys, trust, s, BearerCall(keys, "wipe", SHADOW, false)).1 == EXECUTED
      && Step(keys, trust, s, BearerCall(keys, "note", SHADOW, false)).1 == SHADOWED
  {
    TwoActions(keys, trust, Registering(Priced("wipe", false)), Registering(Priced("note", true)));
    var s := Run(keys, trust, Init, [Registering(Priced("wipe", false)), Registering(Priced("note", true))]);
    BearerStep(keys, trust, s, "wipe", SHADOW, false);
    BearerStep(keys, trust, s, "note", SHADOW, false);
  }

  /** A call that is only observed is charged, and so is one whose tool raises: with one of each, the
      ledger holds two, one tool has fired and one event is logged. */
  lemma ChargedWithoutResult(keys: Keys, trust: Trust)
    requires trust.issuers == {}
    ensures
      var observed, raising := BearerCall(keys, "note", SHADOW, false), BearerCall(keys, "note", TRUSTED, true);
      var s1 := Run(keys, trust, Init, [Registering(Priced("note", true)), Call(observed)]);
      var (s2, code) := Step(keys, trust, s1, raising);
      && SpentOn(s1.tables.spending, "r") == 1.0 && |s1.fired| == 0 && |s1.events| == 1
      && code == RAISED && SpentOn(s2.tables.spending, "r") == 2.0 && |s2.fired| == 1 && |s2.events| == 1
  {
    var observed := BearerCall(keys, "note", SHADOW, false);
    TwoActions(keys, trust, Registering(Priced("note", true)), Call(observed));
    var s := Apply(keys, trust, Init, Registering(Priced("note", true)));
    BearerStep(keys, trust, s, "note", SHADOW, false);
    BearerStep(keys, trust, Step(keys, trust, s, observed).0, "note", TRUSTED, true);
  }
}
