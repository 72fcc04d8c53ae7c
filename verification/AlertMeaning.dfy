/** What the three scans raise, from the events' own fields: which events belong together, how they are
    counted, and at which of them an alert is raised. */
module AlertMeaning {
  import opened Common
  import opened Policy
  import opened Detective
  import opened TriggerMeaning

  /** The same call by the same actor, an action of the same root, or executed calls of the same root. */
  predicate Together(tr: Trigger, e: Event, f: Event) {
    match tr
    case LoopStutter(_, _) => e.actor == f.actor && e.tool == f.tool && e.payload == f.payload
    case FanOut(_, _) => e.root == f.root
    case BudgetVelocity(_, _) => e.decision == EXECUTED && f.decision == EXECUTED && e.root == f.root
  }

  lemma SharedBucket(tr: Trigger, e: Event, f: Event)
    ensures KeyOf(tr, e).Some? && KeyOf(tr, e) == KeyOf(tr, f) <==> Together(tr, e, f)
  {}

  /** How many of the events lo..n that belong with event i lie within the window before it. */
  function CallsWithin(tr: Trigger, ev: seq<Event>, i: nat, lo: nat, n: nat): nat
    requires i < |ev| && n <= |ev|
  {
    if n <= lo then 0
    else
      CallsWithin(tr, ev, i, lo, n - 1)
      + if Together(tr, ev[n - 1], ev[i]) && ev[i].ts - ev[n - 1].ts < tr.window then 1 else 0
  }

  /** What they cost. */
  function SpendWithin(tr: Trigger, ev: seq<Event>, i: nat, lo: nat, n: nat): real
    requires i < |ev| && n <= |ev|
  {
    if n <= lo then 0.0
    else
      SpendWithin(tr, ev, i, lo, n - 1)
      + if Together(tr, ev[n - 1], ev[i]) && ev[i].ts - ev[n - 1].ts < tr.window then ev[n - 1].cost else 0.0
  }

  /** Since the last alert at an event that belongs with i, those within the window are as many as the
      threshold, or have cost more than the maximum. */
  predicate Due(tr: Trigger, ev: seq<Event>, i: nat)
    requires i < |ev|
    decreases i, 1
  {
    match tr
    case LoopStutter(_, threshold) => CallsWithin(tr, ev, i, SinceAlert(tr, ev, i, i), i + 1) >= threshold
    case FanOut(_, threshold) => CallsWithin(tr, ev, i, SinceAlert(tr, ev, i, i), i + 1) >= threshold
    case BudgetVelocity(_, maxSpend) =>
      ev[i].decision == EXECUTED && SpendWithin(tr, ev, i, SinceAlert(tr, ev, i, i), i + 1) > maxSpend
  }

  /** The position after the last of the first n events that belongs with i and raised an alert. */
  function SinceAlert(tr: Trigger, ev: seq<Event>, i: nat, n: nat): nat
    requires n <= i < |ev|
    decreases n, 0
  {
    if n == 0 then 0
    else if Together(tr, ev[n - 1], ev[i]) && Due(tr, ev, n - 1) then n
    else SinceAlert(tr, ev, i, n - 1)
  }

  /** What an alert at event i reports. */
  function Reported(tr: Trigger, ev: seq<Event>, i: nat): Measure
    requires i < |ev|
  {
    if tr.BudgetVelocity? then Spend(SpendWithin(tr, ev, i, SinceAlert(tr, ev, i, i), i + 1))
    else Count(CallsWithin(tr, ev, i, SinceAlert(tr, ev, i, i), i + 1))
  }

  // ----- the naive recount, from the fields -----

  lemma {:induction false} WindowCounted(tr: Trigger, ev: seq<Event>, key: Key, i: nat, lo: nat, n: nat)
    requires i < |ev| && n <= |ev| && KeyOf(tr, ev[i]) == Some(key)
    ensures |InWindow(tr, ev, key, lo, n, ev[i].ts)| == CallsWithin(tr, ev, i, lo, n)
    ensures CostOf(InWindow(tr, ev, key, lo, n, ev[i].ts)) == SpendWithin(tr, ev, i, lo, n)
  {
    if n > lo {
      WindowCounted(tr, ev, key, i, lo, n - 1);
      SharedBucket(tr, ev[n - 1], ev[i]);
      CostSnoc(InWindow(tr, ev, key, lo, n - 1, ev[i].ts), Hit(n - 1, ev[n - 1]));
    }
  }

  lemma {:induction false} CostSnoc(b: Hits, h: Hit)
    ensures CostOf(b + [h]) == CostOf(b) + h.event.cost
  {
    assert (b + [h])[..|b|] == b;
  }

  lemma {:induction false} SinceLastFire(tr: Trigger, ev: seq<Event>, key: Key, i: nat, n: nat)
    requires n <= i < |ev| && KeyOf(tr, ev[i]) == Some(key)
    ensures AfterLastFire(tr, ev, key, n) == SinceAlert(tr, ev, i, n)
    decreases n, 0
  {
    if n > 0 {
      SharedBucket(tr, ev[n - 1], ev[i]);
      SinceLastFire(tr, ev, key, i, n - 1);
      if KeyOf(tr, ev[n - 1]) == Some(key) {
        LastFireStep(tr, ev, key, n - 1);
        NaiveIsDue(tr, ev, n - 1);
      }
    }
  }

  lemma {:induction false} NaiveIsDue(tr: Trigger, ev: seq<Event>, i: nat)
    requires i < |ev|
    ensures NaiveFires(tr, ev, i) <==> Due(tr, ev, i)
    ensures KeyOf(tr, ev[i]).Some? ==>
              Measured(tr, NaiveGroup(tr, ev, KeyOf(tr, ev[i]).value, i)) == Reported(tr, ev, i)
    decreases i, 1
  {
    if KeyOf(tr, ev[i]).Some? {
      var key := KeyOf(tr, ev[i]).value;
      SinceLastFire(tr, ev, key, i, i);
      WindowCounted(tr, ev, key, i, AfterLastFire(tr, ev, key, i), i + 1);
    }
  }

  // ----- what the scans raise -----

  /** Events that belong together are in time order, whatever the others are. */
  predicate InOrder(tr: Trigger, ev: seq<Event>) {
    forall i, j {:trigger Together(tr, ev[i], ev[j])} ::
      0 <= i < j < |ev| && Together(tr, ev[i], ev[j]) ==> ev[i].ts <= ev[j].ts
  }

  lemma InOrderIsSteady(tr: Trigger, ev: seq<Event>, key: Key)
    requires InOrder(tr, ev)
    ensures Steady(tr, ev, key)
  {
    forall i, j | 0 <= i < j < |ev| && KeyOf(tr, ev[i]) == Some(key) && KeyOf(tr, ev[j]) == Some(key)
      ensures ev[i].ts <= ev[j].ts
    {
      SharedBucket(tr, ev[i], ev[j]);
    }
    SortedIsSteady(tr, ev, key);
  }

  lemma {:induction false} FiresWhenDue(tr: Trigger, ev: seq<Event>, i: nat)
    requires InOrder(tr, ev) && tr.window > 0.0 && i < |ev|
    ensures Fires(tr, ev, i) <==> Due(tr, ev, i)
    ensures Fires(tr, ev, i) ==> Measured(tr, Deciding(tr, ev, i)) == Reported(tr, ev, i)
  {
    NaiveIsDue(tr, ev, i);
    if KeyOf(tr, ev[i]).Some? {
      var key := KeyOf(tr, ev[i]).value;
      InOrderIsSteady(tr, ev, key);
      DecidesLikeNaive(tr, ev, key, i);
    }
  }

  /** The alerts a scan raises, and the positions they are raised at: exactly those where one is due, in
      order, each with its event and with what was counted. */
  lemma {:induction false} AlertsAreDue(tr: Trigger, ev: seq<Event>, n: nat) returns (at: seq<nat>)
    requires InOrder(tr, ev) && tr.window > 0.0 && n <= |ev|
    ensures |at| == |Alerts(tr, ev, n)|
    ensures forall k :: 0 <= k < |at| ==>
              at[k] < n && Alerts(tr, ev, n)[k] == Alert(tr, ev[at[k]], Reported(tr, ev, at[k]))
    ensures forall k, l :: 0 <= k < l < |at| ==> at[k] < at[l]
    ensures forall i :: 0 <= i < n ==> (i in at <==> Due(tr, ev, i))
  {
    at := [];
    if n > 0 {
      at := AlertsAreDue(tr, ev, n - 1);
      FiresWhenDue(tr, ev, n - 1);
      if Due(tr, ev, n - 1) { at := at + [n - 1]; }
    }
  }

  /** What a scan returns: an alert at event i if and only if one is due there, in order, with the event
      and with what was counted. */
  lemma {:induction false} RaisedMeaning(tr: Trigger, ev: seq<Event>) returns (at: seq<nat>)
    requires InOrder(tr, ev) && tr.window > 0.0
    ensures |at| == |Raised(tr, ev)| && forall i :: 0 <= i < |ev| ==> (i in at <==> Due(tr, ev, i))
    ensures forall k :: 0 <= k < |at| ==>
              at[k] < |ev| && Raised(tr, ev)[k] == Alert(tr, ev[at[k]], Reported(tr, ev, at[k]))
    ensures forall k, l :: 0 <= k < l < |at| ==> at[k] < at[l]
  {
    at := AlertsAreDue(tr, ev, |ev|);
  }

  lemma SortedIsInOrder(tr: Trigger, ev: seq<Event>)
    requires Sorted(ev)
    ensures InOrder(tr, ev)
  {}
}
