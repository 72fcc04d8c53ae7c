/** The out-of-band triggers: one pass over the event log with a pruned bucket per key. */
module Detective {
  import opened Common
  import opened Tokens
  import opened Policy

  datatype Event = Event(
    ts: real, root: Option<string>, actor: Option<string>, tool: string, purpose: Caps, payload: string,
    tier: Tier, cost: real, decision: Code)

  datatype Trigger =
    | LoopStutter(window: real, threshold: int)
    | FanOut(window: real, threshold: int)
    | BudgetVelocity(window: real, maxSpend: real)

  datatype Key = CallKey(actor: Option<string>, tool: string, payload: string) | RootKey(root: Option<string>)

  /** An incident: the trigger, the event it was raised at, and the count or spend that raised it. */
  datatype Alert = Alert(trigger: Trigger, event: Event, measure: Measure)

  datatype Measure = Count(calls: nat) | Spend(spent: real)

  /** The bucket an event falls into; events that did not execute spend nothing. */
  function KeyOf(tr: Trigger, e: Event): Option<Key> {
    match tr
    case LoopStutter(_, _) => Some(CallKey(e.actor, e.tool, e.payload))
    case FanOut(_, _) => Some(RootKey(e.root))
    case BudgetVelocity(_, _) => if e.decision == EXECUTED then Some(RootKey(e.root)) else None
  }

  // ----- the pass, one key at a time -----

  /** An event with its position in the log. */
  datatype Hit = Hit(index: nat, event: Event)

  type Hits = seq<Hit>

  function Prune(b: Hits, now: real, window: real): Hits {
    if |b| == 0 then []
    else
      var rest := Prune(b[..|b| - 1], now, window);
      if now - b[|b| - 1].event.ts < window then rest + [b[|b| - 1]] else rest
  }

  /** The bucket once an event is counted in: the loop trigger prunes after adding, the others before. */
  function Kept(tr: Trigger, b: Hits, h: Hit): Hits {
    if tr.LoopStutter? then Prune(b + [h], h.event.ts, tr.window)
    else Prune(b, h.event.ts, tr.window) + [h]
  }

  function CostOf(b: Hits): real {
    if |b| == 0 then 0.0 else CostOf(b[..|b| - 1]) + b[|b| - 1].event.cost
  }

  function Measured(tr: Trigger, b: Hits): Measure {
    if tr.BudgetVelocity? then Spend(CostOf(b)) else Count(|b|)
  }

  predicate Trips(tr: Trigger, b: Hits) {
    if tr.BudgetVelocity? then CostOf(b) > tr.maxSpend else |b| >= tr.threshold
  }

  /** The bucket of key after the first n events. */
  function Bucket(tr: Trigger, ev: seq<Event>, key: Key, n: nat): Hits
    requires n <= |ev|
    decreases n, 0
  {
    if n == 0 then []
    else if KeyOf(tr, ev[n - 1]) != Some(key) then Bucket(tr, ev, key, n - 1)
    else if Fires(tr, ev, n - 1) then []
    else Deciding(tr, ev, n - 1)
  }

  /** The bucket that decides at event i. */
  function Deciding(tr: Trigger, ev: seq<Event>, i: nat): Hits
    requires i < |ev| && KeyOf(tr, ev[i]).Some?
    decreases i, 1
  {
    Kept(tr, Bucket(tr, ev, KeyOf(tr, ev[i]).value, i), Hit(i, ev[i]))
  }

  predicate Fires(tr: Trigger, ev: seq<Event>, i: nat)
    requires i < |ev|
    decreases i, 2
  {
    KeyOf(tr, ev[i]).Some? && Trips(tr, Deciding(tr, ev, i))
  }

  function Alerts(tr: Trigger, ev: seq<Event>, n: nat): seq<Alert>
    requires n <= |ev|
  {
    if n == 0 then []
    else if Fires(tr, ev, n - 1) then
      Alerts(tr, ev, n - 1) + [Alert(tr, ev[n - 1], Measured(tr, Deciding(tr, ev, n - 1)))]
    else Alerts(tr, ev, n - 1)
  }

  /** Every incident the trigger raises on a log, in order. */
  function Raised(tr: Trigger, ev: seq<Event>): seq<Alert> {
    Alerts(tr, ev, |ev|)
  }

  // ----- the scans -----

  function Times(b: Hits): seq<real> {
    if |b| == 0 then [] else Times(b[..|b| - 1]) + [b[|b| - 1].event.ts]
  }

  function Spends(b: Hits): seq<(real, real)> {
    if |b| == 0 then [] else Spends(b[..|b| - 1]) + [(b[|b| - 1].event.ts, b[|b| - 1].event.cost)]
  }

  function Recent(times: seq<real>, now: real, window: real): seq<real> {
    if |times| == 0 then []
    else
      var rest := Recent(times[..|times| - 1], now, window);
      if now - times[|times| - 1] < window then rest + [times[|times| - 1]] else rest
  }

  function RecentSpends(hist: seq<(real, real)>, now: real, window: real): seq<(real, real)> {
    if |hist| == 0 then []
    else
      var rest := RecentSpends(hist[..|hist| - 1], now, window);
      if now - hist[|hist| - 1].0 < window then rest + [hist[|hist| - 1]] else rest
  }

  function Total(hist: seq<(real, real)>): real {
    if |hist| == 0 then 0.0 else Total(hist[..|hist| - 1]) + hist[|hist| - 1].1
  }

  function Lookup<V>(m: map<Key, seq<V>>, key: Key): seq<V> {
    if key in m then m[key] else []
  }

  lemma {:induction false} Snoc(b: Hits, h: Hit)
    ensures Times(b + [h]) == Times(b) + [h.event.ts] && Spends(b + [h]) == Spends(b) + [(h.event.ts, h.event.cost)]
  {
    assert (b + [h])[..|b|] == b;
  }

  /** Pruning the stored times is storing the times of the pruned events, and so for spends. */
  lemma {:induction false} RecentMirrors(b: Hits, now: real, window: real)
    ensures Recent(Times(b), now, window) == Times(Prune(b, now, window))
    ensures RecentSpends(Spends(b), now, window) == Spends(Prune(b, now, window))
  {
    if |b| > 0 {
      var front, last := b[..|b| - 1], b[|b| - 1];
      RecentMirrors(front, now, window);
      Snoc(Prune(front, now, window), last);
      assert Times(b)[..|Times(b)| - 1] == Times(front);
      assert Spends(b)[..|Spends(b)| - 1] == Spends(front);
    }
  }

  lemma {:induction false} TotalMirrors(b: Hits)
    ensures |Times(b)| == |b| && Total(Spends(b)) == CostOf(b)
  {
    if |b| > 0 {
      TotalMirrors(b[..|b| - 1]);
      assert Spends(b)[..|Spends(b)| - 1] == Spends(b[..|b| - 1]);
    }
  }

  /** One step of the loop trigger on the stored times. */
  lemma {:induction false} LoopStep(tr: Trigger, b: Hits, h: Hit)
    requires tr.LoopStutter?
    ensures
      var kept := Kept(tr, b, h);
      var recent := Recent(Times(b) + [h.event.ts], h.event.ts, tr.window);
      recent == Times(kept) && |recent| == |kept|
  {
    Snoc(b, h);
    RecentMirrors(b + [h], h.event.ts, tr.window);
    TotalMirrors(Kept(tr, b, h));
  }

  /** One step of the other two triggers on the stored times and spends. */
  lemma {:induction false} RootStep(tr: Trigger, b: Hits, h: Hit)
    requires !tr.LoopStutter?
    ensures
      var kept, e := Kept(tr, b, h), h.event;
      var bucket := Recent(Times(b), e.ts, tr.window) + [e.ts];
      var hist := RecentSpends(Spends(b), e.ts, tr.window) + [(e.ts, e.cost)];
      bucket == Times(kept) && |bucket| == |kept| && hist == Spends(kept) && Total(hist) == CostOf(kept)
  {
    RecentMirrors(b, h.event.ts, tr.window);
    Snoc(Prune(b, h.event.ts, tr.window), h);
    TotalMirrors(Kept(tr, b, h));
  }

  ghost predicate TimesAt(m: map<Key, seq<real>>, tr: Trigger, ev: seq<Event>, n: nat, key: Key)
    requires n <= |ev|
  {
    Lookup(m, key) == Times(Bucket(tr, ev, key, n))
  }

  ghost predicate SpendsAt(m: map<Key, seq<(real, real)>>, tr: Trigger, ev: seq<Event>, n: nat, key: Key)
    requires n <= |ev|
  {
    Lookup(m, key) == Spends(Bucket(tr, ev, key, n))
  }

  ghost predicate TracksTimes(m: map<Key, seq<real>>, tr: Trigger, ev: seq<Event>, n: nat)
    requires n <= |ev|
  {
    forall k :: TimesAt(m, tr, ev, n, k)
  }

  ghost predicate TracksSpends(m: map<Key, seq<(real, real)>>, tr: Trigger, ev: seq<Event>, n: nat)
    requires n <= |ev|
  {
    forall k :: SpendsAt(m, tr, ev, n, k)
  }

  /** What one step of a counting trigger stores and raises. */
  lemma {:induction false} CountStep(m: map<Key, seq<real>>, tr: Trigger, ev: seq<Event>, i: nat, key: Key,
                                     stored: seq<real>)
    requires !tr.BudgetVelocity? && i < |ev| && TimesAt(m, tr, ev, i, key) && KeyOf(tr, ev[i]) == Some(key)
    requires stored == if tr.LoopStutter? then Recent(Lookup(m, key) + [ev[i].ts], ev[i].ts, tr.window)
                       else Recent(Lookup(m, key), ev[i].ts, tr.window) + [ev[i].ts]
    ensures Fires(tr, ev, i) <==> |stored| >= tr.threshold
    ensures Measured(tr, Deciding(tr, ev, i)) == Count(|stored|)
    ensures Times(Bucket(tr, ev, key, i + 1)) == if |stored| >= tr.threshold then [] else stored
  {
    var b, h := Bucket(tr, ev, key, i), Hit(i, ev[i]);
    if tr.LoopStutter? { LoopStep(tr, b, h); } else { RootStep(tr, b, h); }
  }

  /** What one step of the spend trigger stores and raises. */
  lemma {:induction false} SpendStep(m: map<Key, seq<(real, real)>>, tr: Trigger, ev: seq<Event>, i: nat, key: Key,
                                     stored: seq<(real, real)>)
    requires tr.BudgetVelocity? && i < |ev| && SpendsAt(m, tr, ev, i, key) && KeyOf(tr, ev[i]) == Some(key)
    requires stored == RecentSpends(Lookup(m, key), ev[i].ts, tr.window) + [(ev[i].ts, ev[i].cost)]
    ensures Fires(tr, ev, i) <==> Total(stored) > tr.maxSpend
    ensures Measured(tr, Deciding(tr, ev, i)) == Spend(Total(stored))
    ensures Spends(Bucket(tr, ev, key, i + 1)) == if Total(stored) > tr.maxSpend then [] else stored
  {
    RootStep(tr, Bucket(tr, ev, key, i), Hit(i, ev[i]));
  }

  lemma OtherKeys(tr: Trigger, ev: seq<Event>, i: nat, key: Key)
    requires i < |ev| && KeyOf(tr, ev[i]) != Some(key)
    ensures Bucket(tr, ev, key, i + 1) == Bucket(tr, ev, key, i)
  {}

  lemma {:induction false} TimesTracked(m: map<Key, seq<real>>, tr: Trigger, ev: seq<Event>, i: nat, key: Key,
                                        v: seq<real>)
    requires i < |ev| && TracksTimes(m, tr, ev, i) && KeyOf(tr, ev[i]) == Some(key)
    requires v == Times(Bucket(tr, ev, key, i + 1))
    ensures TracksTimes(m[key := v], tr, ev, i + 1)
  {
    var n, later := i + 1, m[key := v];
    forall k
      ensures TimesAt(later, tr, ev, n, k)
    {
      assert TimesAt(m, tr, ev, i, k);
      if k != key { OtherKeys(tr, ev, i, k); }
    }
  }

  lemma {:induction false} SpendsTracked(m: map<Key, seq<(real, real)>>, tr: Trigger, ev: seq<Event>, i: nat,
                                         key: Key, v: seq<(real, real)>)
    requires i < |ev| && TracksSpends(m, tr, ev, i) && KeyOf(tr, ev[i]) == Some(key)
    requires v == Spends(Bucket(tr, ev, key, i + 1))
    ensures TracksSpends(m[key := v], tr, ev, i + 1)
  {
    var n, later := i + 1, m[key := v];
    forall k
      ensures SpendsAt(later, tr, ev, n, k)
    {
      assert SpendsAt(m, tr, ev, i, k);
      if k != key { OtherKeys(tr, ev, i, k); }
    }
  }

  /** One turn of a counting trigger: what it stores and what it raises. */
  lemma {:induction false} CountTurn(m: map<Key, seq<real>>, tr: Trigger, ev: seq<Event>, i: nat, key: Key,
                                     stored: seq<real>, out: seq<Alert>)
    requires !tr.BudgetVelocity? && i < |ev| && KeyOf(tr, ev[i]) == Some(key)
    requires TracksTimes(m, tr, ev, i) && out == Alerts(tr, ev, i)
    requires stored == if tr.LoopStutter? then Recent(Lookup(m, key) + [ev[i].ts], ev[i].ts, tr.window)
                       else Recent(Lookup(m, key), ev[i].ts, tr.window) + [ev[i].ts]
    ensures TracksTimes(m[key := if |stored| >= tr.threshold then [] else stored], tr, ev, i + 1)
    ensures Alerts(tr, ev, i + 1) == if |stored| >= tr.threshold then out + [Alert(tr, ev[i], Count(|stored|))] else out
  {
    assert TimesAt(m, tr, ev, i, key);
    CountStep(m, tr, ev, i, key, stored);
    TimesTracked(m, tr, ev, i, key, if |stored| >= tr.threshold then [] else stored);
  }

  /** One turn of the spend trigger. */
  lemma {:induction false} SpendTurn(m: map<Key, seq<(real, real)>>, tr: Trigger, ev: seq<Event>, i: nat, key: Key,
                                     stored: seq<(real, real)>, out: seq<Alert>)
    requires tr.BudgetVelocity? && i < |ev| && KeyOf(tr, ev[i]) == Some(key)
    requires TracksSpends(m, tr, ev, i) && out == Alerts(tr, ev, i)
    requires stored == RecentSpends(Lookup(m, key), ev[i].ts, tr.window) + [(ev[i].ts, ev[i].cost)]
    ensures TracksSpends(m[key := if Total(stored) > tr.maxSpend then [] else stored], tr, ev, i + 1)
    ensures Alerts(tr, ev, i + 1)
            == if Total(stored) > tr.maxSpend then out + [Alert(tr, ev[i], Spend(Total(stored)))] else out
  {
    assert SpendsAt(m, tr, ev, i, key);
    SpendStep(m, tr, ev, i, key, stored);
    SpendsTracked(m, tr, ev, i, key, if Total(stored) > tr.maxSpend then [] else stored);
  }

  lemma SkippedTracked(m: map<Key, seq<(real, real)>>, tr: Trigger, ev: seq<Event>, i: nat)
    requires i < |ev| && TracksSpends(m, tr, ev, i) && KeyOf(tr, ev[i]).None?
    ensures TracksSpends(m, tr, ev, i + 1)
  {
    var n := i + 1;
    forall k
      ensures SpendsAt(m, tr, ev, n, k)
    {
      assert SpendsAt(m, tr, ev, i, k);
      OtherKeys(tr, ev, i, k);
    }
  }

  lemma Overwritten<V>(m: map<Key, V>, key: Key, v: V, w: V)
    ensures m[key := v][key := w] == m[key := w]
  {}

  method ScanLoopStutter(ev: seq<Event>, window: real, threshold: int) returns (out: seq<Alert>)
    ensures out == Raised(LoopStutter(window, threshold), ev)
  {
    var tr := LoopStutter(window, threshold);
    out := [];
    var seen: map<Key, seq<real>> := map[];
    for i := 0 to |ev|
      invariant out == Alerts(tr, ev, i)
      invariant TracksTimes(seen, tr, ev, i)
    {
      var e := ev[i];
      var key := CallKey(e.actor, e.tool, e.payload);
      var recent := Recent(Lookup(seen, key) + [e.ts], e.ts, window);
      CountTurn(seen, tr, ev, i, key, recent, out);
      Overwritten(seen, key, recent, []);
      seen := seen[key := recent];
      if |recent| >= threshold {
        out := out + [Alert(tr, e, Count(|recent|))];
        seen := seen[key := []];
      }
    }
  }

  method ScanFanOut(ev: seq<Event>, window: real, threshold: int) returns (out: seq<Alert>)
    ensures out == Raised(FanOut(window, threshold), ev)
  {
    var tr := FanOut(window, threshold);
    out := [];
    var byRoot: map<Key, seq<real>> := map[];
    for i := 0 to |ev|
      invariant out == Alerts(tr, ev, i)
      invariant TracksTimes(byRoot, tr, ev, i)
    {
      var e := ev[i];
      var key := RootKey(e.root);
      var bucket := Recent(Lookup(byRoot, key), e.ts, window) + [e.ts];
      CountTurn(byRoot, tr, ev, i, key, bucket, out);
      Overwritten(byRoot, key, bucket, []);
      byRoot := byRoot[key := bucket];
      if |bucket| >= threshold {
        out := out + [Alert(tr, e, Count(|bucket|))];
        byRoot := byRoot[key := []];
      }
    }
  }

  method ScanBudgetVelocity(ev: seq<Event>, window: real, maxSpend: real) returns (out: seq<Alert>)
    ensures out == Raised(BudgetVelocity(window, maxSpend), ev)
  {
    var tr := BudgetVelocity(window, maxSpend);
    out := [];
    var byRoot: map<Key, seq<(real, real)>> := map[];
    for i := 0 to |ev|
      invariant out == Alerts(tr, ev, i)
      invariant TracksSpends(byRoot, tr, ev, i)
    {
      var e := ev[i];
      if e.decision != EXECUTED {
        SkippedTracked(byRoot, tr, ev, i);
        continue;
      }
      var key := RootKey(e.root);
      var hist := RecentSpends(Lookup(byRoot, key), e.ts, window) + [(e.ts, e.cost)];
      SpendTurn(byRoot, tr, ev, i, key, hist, out);
      Overwritten(byRoot, key, hist, []);
      byRoot := byRoot[key := hist];
      if Total(hist) > maxSpend {
        out := out + [Alert(tr, e, Spend(Total(hist)))];
        byRoot := byRoot[key := []];
      }
    }
  }
}
