/** What the triggers' pruned buckets mean: exactly when they agree with recounting the whole history,
    that no burst then goes unnoticed, and that on every log no event counts towards two incidents. */
module TriggerMeaning {
  import opened Common
  import opened Policy
  import opened Detective

  predicate Sorted(ev: seq<Event>) {
    forall i, j :: 0 <= i < j < |ev| ==> ev[i].ts <= ev[j].ts
  }

  /** The events of key are in time order, whatever the others are. */
  predicate KeySorted(tr: Trigger, ev: seq<Event>, key: Key) {
    forall i, j :: 0 <= i < j < |ev| && KeyOf(tr, ev[i]) == Some(key) && KeyOf(tr, ev[j]) == Some(key) ==>
      ev[i].ts <= ev[j].ts
  }

  /** An event i within the window at k was within it at j. */
  predicate Keeps(tr: Trigger, ev: seq<Event>, i: nat, j: nat, k: nat)
    requires i < |ev| && j < |ev| && k < |ev|
  {
    ev[k].ts - ev[i].ts < tr.window ==> ev[j].ts - ev[i].ts < tr.window
  }

  /** No event of key leaves the window of a later one and is back in that of a still later one. */
  predicate Steady(tr: Trigger, ev: seq<Event>, key: Key) {
    forall i, j, k {:trigger Keeps(tr, ev, i, j, k)} ::
      (0 <= i < j < k < |ev| && KeyOf(tr, ev[i]) == KeyOf(tr, ev[j]) == KeyOf(tr, ev[k]) == Some(key)) ==>
        Keeps(tr, ev, i, j, k)
  }

  lemma SortedIsSteady(tr: Trigger, ev: seq<Event>, key: Key)
    ensures Sorted(ev) ==> KeySorted(tr, ev, key)
    ensures KeySorted(tr, ev, key) ==> Steady(tr, ev, key)
  {}

  /** The events of key among positions lo..n that lie within the window before now. */
  function InWindow(tr: Trigger, ev: seq<Event>, key: Key, lo: nat, n: nat, now: real): Hits
    requires n <= |ev|
  {
    if n <= lo then []
    else
      var rest := InWindow(tr, ev, key, lo, n - 1, now);
      if KeyOf(tr, ev[n - 1]) == Some(key) && now - ev[n - 1].ts < tr.window then rest + [Hit(n - 1, ev[n - 1])]
      else rest
  }

  /** The naive trigger: recount the events of the same key since its last incident. */
  predicate NaiveFires(tr: Trigger, ev: seq<Event>, i: nat)
    requires i < |ev|
    decreases i, 2
  {
    KeyOf(tr, ev[i]).Some? && Trips(tr, NaiveGroup(tr, ev, KeyOf(tr, ev[i]).value, i))
  }

  function NaiveGroup(tr: Trigger, ev: seq<Event>, key: Key, i: nat): Hits
    requires i < |ev|
    decreases i, 1
  {
    InWindow(tr, ev, key, AfterLastFire(tr, ev, key, i), i + 1, ev[i].ts)
  }

  /** The position after the last incident of key among the first n events. */
  function AfterLastFire(tr: Trigger, ev: seq<Event>, key: Key, n: nat): (r: nat)
    requires n <= |ev|
    ensures r <= n
    decreases n, 0
  {
    if n == 0 then 0
    else if KeyOf(tr, ev[n - 1]) == Some(key) && NaiveFires(tr, ev, n - 1) then n
    else AfterLastFire(tr, ev, key, n - 1)
  }

  // ----- pruning loses nothing -----

  lemma {:induction false} PruneSnoc(b: Hits, h: Hit, now: real, window: real)
    ensures Prune(b + [h], now, window) ==
            if now - h.event.ts < window then Prune(b, now, window) + [h] else Prune(b, now, window)
  {
    assert (b + [h])[..|b|] == b;
  }

  /** Pruning one window again gives another, if whatever is in the other is in the one. */
  lemma {:induction false} PruneAgain(tr: Trigger, ev: seq<Event>, key: Key, lo: nat, n: nat, then_: real, now: real)
    requires n <= |ev|
    requires forall i :: lo <= i < n && KeyOf(tr, ev[i]) == Some(key) && now - ev[i].ts < tr.window ==>
               then_ - ev[i].ts < tr.window
    ensures Prune(InWindow(tr, ev, key, lo, n, then_), now, tr.window) == InWindow(tr, ev, key, lo, n, now)
  {
    if n > lo {
      PruneAgain(tr, ev, key, lo, n - 1, then_, now);
      PruneSnoc(InWindow(tr, ev, key, lo, n - 1, then_), Hit(n - 1, ev[n - 1]), now, tr.window);
    }
  }

  /** Pruning the window of one event of a key again at a later one loses nothing that the later one counts. */
  lemma {:induction false} PruneSteady(tr: Trigger, ev: seq<Event>, key: Key, lo: nat, n: nat, k: nat)
    requires Steady(tr, ev, key) && tr.window > 0.0 && 0 < n <= k < |ev|
    requires KeyOf(tr, ev[k]) == Some(key) && KeyOf(tr, ev[n - 1]) == Some(key)
    ensures Prune(InWindow(tr, ev, key, lo, n, ev[n - 1].ts), ev[k].ts, tr.window)
            == InWindow(tr, ev, key, lo, n, ev[k].ts)
  {
    forall i | lo <= i < n && KeyOf(tr, ev[i]) == Some(key) && ev[k].ts - ev[i].ts < tr.window
      ensures ev[n - 1].ts - ev[i].ts < tr.window
    {
      if i < n - 1 { assert Keeps(tr, ev, i, n - 1, k); }
    }
    PruneAgain(tr, ev, key, lo, n, ev[n - 1].ts, ev[k].ts);
  }

  lemma {:induction false} BucketStep(tr: Trigger, ev: seq<Event>, key: Key, i: nat)
    requires i < |ev| && KeyOf(tr, ev[i]) == Some(key)
    ensures Bucket(tr, ev, key, i + 1) == if Fires(tr, ev, i) then [] else Deciding(tr, ev, i)
  {}

  lemma {:induction false} LastFireStep(tr: Trigger, ev: seq<Event>, key: Key, i: nat)
    requires i < |ev| && KeyOf(tr, ev[i]) == Some(key)
    ensures AfterLastFire(tr, ev, key, i + 1) == if NaiveFires(tr, ev, i) then i + 1 else AfterLastFire(tr, ev, key, i)
  {}

  lemma {:induction false} PrunedBucketIsWindow(tr: Trigger, ev: seq<Event>, key: Key, n: nat, k: nat)
    requires Steady(tr, ev, key) && tr.window > 0.0 && n <= k < |ev| && KeyOf(tr, ev[k]) == Some(key)
    ensures Prune(Bucket(tr, ev, key, n), ev[k].ts, tr.window)
            == InWindow(tr, ev, key, AfterLastFire(tr, ev, key, n), n, ev[k].ts)
    decreases n, 0
  {
    if n > 0 {
      if KeyOf(tr, ev[n - 1]) == Some(key) {
        BucketStep(tr, ev, key, n - 1);
        LastFireStep(tr, ev, key, n - 1);
        DecidesLikeNaive(tr, ev, key, n - 1);
        PruneSteady(tr, ev, key, AfterLastFire(tr, ev, key, n - 1), n, k);
      } else {
        PrunedBucketIsWindow(tr, ev, key, n - 1, k);
      }
    }
  }

  lemma {:induction false} KeptIsPruned(tr: Trigger, b: Hits, h: Hit)
    requires tr.window > 0.0
    ensures Kept(tr, b, h) == Prune(b, h.event.ts, tr.window) + [h]
  {
    PruneSnoc(b, h, h.event.ts, tr.window);
  }

  /** When no event of the key drops out of the window and comes back, as when the key's events are in
      time order, the pruned bucket that decides at an event is the naive group: the events of its key
      since the key's last incident within the window. */
  lemma {:induction false} DecidesLikeNaive(tr: Trigger, ev: seq<Event>, key: Key, i: nat)
    requires Steady(tr, ev, key) && tr.window > 0.0 && i < |ev| && KeyOf(tr, ev[i]) == Some(key)
    ensures Fires(tr, ev, i) <==> NaiveFires(tr, ev, i)
    ensures Deciding(tr, ev, i) == NaiveGroup(tr, ev, key, i)
    decreases i, 1
  {
    PrunedBucketIsWindow(tr, ev, key, i, i);
    KeptIsPruned(tr, Bucket(tr, ev, key, i), Hit(i, ev[i]));
    assert Deciding(tr, ev, i) == NaiveGroup(tr, ev, key, i);
  }

  // ----- any log, sorted or not -----

  /** The position after the last incident of key that the pass raised among the first n events. */
  function AfterLastReset(tr: Trigger, ev: seq<Event>, key: Key, n: nat): (r: nat)
    requires n <= |ev|
    ensures r <= n
  {
    if n == 0 then 0
    else if KeyOf(tr, ev[n - 1]) == Some(key) && Fires(tr, ev, n - 1) then n
    else AfterLastReset(tr, ev, key, n - 1)
  }

  /** Event j was within the window at every later event of the key. */
  predicate Survives(tr: Trigger, ev: seq<Event>, key: Key, j: nat, n: nat)
    requires j <= n <= |ev|
  {
    forall k :: j <= k < n && KeyOf(tr, ev[k]) == Some(key) ==> ev[k].ts - ev[j].ts < tr.window
  }

  lemma {:induction false} PruneMembers(b: Hits, now: real, window: real, h: Hit)
    ensures h in Prune(b, now, window) <==> h in b && now - h.event.ts < window
  {
    if |b| > 0 {
      PruneMembers(b[..|b| - 1], now, window, h);
      assert b == b[..|b| - 1] + [b[|b| - 1]];
    }
  }

  lemma KeptSubset(tr: Trigger, b: Hits, last: Hit, h: Hit)
    requires h in Kept(tr, b, last)
    ensures h == last || h in b
  {
    PruneMembers(b, last.event.ts, tr.window, h);
    PruneMembers(b + [last], last.event.ts, tr.window, h);
  }

  /** A bucket holds events of its key since the last reset. */
  lemma {:induction false} BucketIndices(tr: Trigger, ev: seq<Event>, key: Key, n: nat, h: Hit)
    requires n <= |ev| && h in Bucket(tr, ev, key, n)
    ensures AfterLastReset(tr, ev, key, n) <= h.index < n && h.event == ev[h.index] && KeyOf(tr, h.event) == Some(key)
  {
    var b := Bucket(tr, ev, key, n - 1);
    if KeyOf(tr, ev[n - 1]) == Some(key) { KeptSubset(tr, b, Hit(n - 1, ev[n - 1]), h); }
    if h in b { BucketIndices(tr, ev, key, n - 1, h); }
  }

  lemma KeptMembers(tr: Trigger, b: Hits, last: Hit, h: Hit)
    requires tr.window > 0.0
    ensures h in Kept(tr, b, last) <==> h == last || (h in b && last.event.ts - h.event.ts < tr.window)
  {
    PruneMembers(b, last.event.ts, tr.window, h);
    PruneMembers(b + [last], last.event.ts, tr.window, h);
  }

  lemma {:induction false} NewestIsKept(tr: Trigger, ev: seq<Event>, key: Key, i: nat)
    requires tr.window > 0.0 && i < |ev|
    ensures Hit(i, ev[i]) in Bucket(tr, ev, key, i + 1) <==> KeyOf(tr, ev[i]) == Some(key) && !Fires(tr, ev, i)
  {
    var h, b := Hit(i, ev[i]), Bucket(tr, ev, key, i);
    KeptMembers(tr, b, h, h);
    if h in b { BucketIndices(tr, ev, key, i, h); }
  }

  lemma {:induction false} ResetStep(tr: Trigger, ev: seq<Event>, key: Key, n: nat)
    requires n < |ev|
    ensures AfterLastReset(tr, ev, key, n + 1)
            == if KeyOf(tr, ev[n]) == Some(key) && Fires(tr, ev, n) then n + 1 else AfterLastReset(tr, ev, key, n)
  {}

  lemma SurvivesStep(tr: Trigger, ev: seq<Event>, key: Key, j: nat, n: nat)
    requires j <= n < |ev|
    ensures Survives(tr, ev, key, j, n + 1) <==>
            Survives(tr, ev, key, j, n) && (KeyOf(tr, ev[n]) == Some(key) ==> ev[n].ts - ev[j].ts < tr.window)
  {}

  /** An earlier event stays in its bucket unless the next one of its key resets it or is too late for it. */
  lemma {:induction false} StaysInBucket(tr: Trigger, ev: seq<Event>, key: Key, n: nat, j: nat)
    requires tr.window > 0.0 && j < n < |ev|
    ensures Hit(j, ev[j]) in Bucket(tr, ev, key, n + 1) <==>
            && Hit(j, ev[j]) in Bucket(tr, ev, key, n)
            && (KeyOf(tr, ev[n]) == Some(key) ==> !Fires(tr, ev, n) && ev[n].ts - ev[j].ts < tr.window)
  {
    if KeyOf(tr, ev[n]) == Some(key) {
      BucketStep(tr, ev, key, n);
      KeptMembers(tr, Bucket(tr, ev, key, n), Hit(n, ev[n]), Hit(j, ev[j]));
    }
  }

  /** On every log: a bucket holds exactly the events of its key since the last reset that were within
      the window at every later event of the key. */
  lemma {:induction false} BucketMeaning(tr: Trigger, ev: seq<Event>, key: Key, n: nat, j: nat)
    requires tr.window > 0.0 && j < n <= |ev|
    ensures Hit(j, ev[j]) in Bucket(tr, ev, key, n) <==>
            AfterLastReset(tr, ev, key, n) <= j && KeyOf(tr, ev[j]) == Some(key) && Survives(tr, ev, key, j, n)
  {
    if j == n - 1 {
      NewestIsKept(tr, ev, key, j);
      ResetStep(tr, ev, key, j);
    } else {
      BucketMeaning(tr, ev, key, n - 1, j);
      StaysInBucket(tr, ev, key, n - 1, j);
      SurvivesStep(tr, ev, key, j, n - 1);
      ResetStep(tr, ev, key, n - 1);
    }
  }

  /** Three events of one key; the clock reads too late for the first at the second, and then steps
      back. The second prunes the first, which the naive recount at the third still counts. */
  predicate ClockStepsBack(tr: Trigger, ev: seq<Event>, key: Key) {
    && tr.FanOut? && tr.threshold == 3 && tr.window > 0.0 && |ev| == 3
    && (forall i :: 0 <= i < 3 ==> KeyOf(tr, ev[i]) == Some(key))
    && ev[1].ts - ev[0].ts >= tr.window && ev[2].ts - ev[0].ts < tr.window && ev[2].ts - ev[1].ts < tr.window
  }

  lemma {:induction false} PrunedForGood(tr: Trigger, ev: seq<Event>, key: Key)
    requires ClockStepsBack(tr, ev, key)
    ensures !Fires(tr, ev, 2)
  {
    var h0, h1, h2 := Hit(0, ev[0]), Hit(1, ev[1]), Hit(2, ev[2]);
    assert Bucket(tr, ev, key, 0) == [];
    assert Kept(tr, [], h0) == [h0];
    assert Bucket(tr, ev, key, 1) == [h0];
    PruneSnoc([], h0, ev[1].ts, tr.window);
    assert [] + [h0] == [h0];
    assert Kept(tr, [h0], h1) == [h1];
    assert Bucket(tr, ev, key, 2) == [h1];
    PruneSnoc([], h1, ev[2].ts, tr.window);
    assert [] + [h1] == [h1];
  }

  lemma {:induction false} StillCounted(tr: Trigger, ev: seq<Event>, key: Key)
    requires ClockStepsBack(tr, ev, key)
    ensures NaiveFires(tr, ev, 2)
  {
    assert AfterLastFire(tr, ev, key, 0) == 0;
    InWindowSize(tr, ev, key, 0, 1, ev[0].ts);
    assert !NaiveFires(tr, ev, 0) && AfterLastFire(tr, ev, key, 1) == 0;
    InWindowSize(tr, ev, key, 0, 2, ev[1].ts);
    assert !NaiveFires(tr, ev, 1) && AfterLastFire(tr, ev, key, 2) == 0;
    InWindowFull(tr, ev, key, 0, 3, ev[2].ts);
  }

  lemma {:induction false} InWindowSize(tr: Trigger, ev: seq<Event>, key: Key, lo: nat, n: nat, now: real)
    requires lo <= n <= |ev|
    ensures |InWindow(tr, ev, key, lo, n, now)| <= n - lo
  {
    if n > lo { InWindowSize(tr, ev, key, lo, n - 1, now); }
  }

  lemma {:induction false} InWindowFull(tr: Trigger, ev: seq<Event>, key: Key, lo: nat, n: nat, now: real)
    requires lo <= n <= |ev|
    requires forall j :: lo <= j < n ==> KeyOf(tr, ev[j]) == Some(key) && now - ev[j].ts < tr.window
    ensures |InWindow(tr, ev, key, lo, n, now)| == n - lo
  {
    if n > lo { InWindowFull(tr, ev, key, lo, n - 1, now); }
  }

  /** On an unsorted log pruning can lose an event that the naive recount still counts. */
  lemma UnsortedLogDiffers()
    ensures
      var tr := FanOut(5.0, 3);
      var ev := seq(3, i => Event(if i == 1 then 20.0 else 10.0, None, None, "t", {}, "", 0, 0.0, EXECUTED));
      !Sorted(ev) && NaiveFires(tr, ev, 2) && !Fires(tr, ev, 2)
  {
    var tr := FanOut(5.0, 3);
    var ev := seq(3, i => Event(if i == 1 then 20.0 else 10.0, None, None, "t", {}, "", 0, 0.0, EXECUTED));
    assert ev[1].ts == 20.0 && ev[2].ts == 10.0;
    assert ClockStepsBack(tr, ev, RootKey(None));
    PrunedForGood(tr, ev, RootKey(None));
    StillCounted(tr, ev, RootKey(None));
  }

  // ----- weights -----

  /** What an event adds to its bucket: one call, or what it spends. */
  function Weight(tr: Trigger, e: Event): real {
    if !tr.BudgetVelocity? then 1.0 else if e.cost > 0.0 then e.cost else 0.0
  }

  /** How much the events of key among positions lo..n weigh: their number, or their spend. */
  function Load(tr: Trigger, ev: seq<Event>, key: Key, lo: nat, n: nat): real
    requires n <= |ev|
  {
    if n <= lo then 0.0
    else Load(tr, ev, key, lo, n - 1) + if KeyOf(tr, ev[n - 1]) == Some(key) then Weight(tr, ev[n - 1]) else 0.0
  }

  function Heft(tr: Trigger, b: Hits): real {
    if |b| == 0 then 0.0 else Heft(tr, b[..|b| - 1]) + Weight(tr, b[|b| - 1].event)
  }

  /** What a bucket amounts to: its size, or its spend. */
  function Amount(tr: Trigger, b: Hits): real {
    if tr.BudgetVelocity? then CostOf(b) else |b| as real
  }

  /** The amount an incident takes. */
  function Limit(tr: Trigger): real {
    if tr.BudgetVelocity? then tr.maxSpend else tr.threshold as real
  }

  predicate Reaches(tr: Trigger, amount: real) {
    if tr.BudgetVelocity? then amount > Limit(tr) else amount >= Limit(tr)
  }

  lemma TripsReaches(tr: Trigger, b: Hits)
    ensures Trips(tr, b) <==> Reaches(tr, Amount(tr, b))
  {}

  lemma {:induction false} HeftSnoc(tr: Trigger, b: Hits, h: Hit)
    ensures Heft(tr, b + [h]) == Heft(tr, b) + Weight(tr, h.event)
  {
    assert (b + [h])[..|b|] == b;
  }

  /** A bucket weighs at least what the trigger makes of it, and no more unless some cost is negative. */
  lemma {:induction false} AmountHeft(tr: Trigger, b: Hits)
    ensures Amount(tr, b) <= Heft(tr, b)
    ensures !tr.BudgetVelocity? || (forall h :: h in b ==> h.event.cost >= 0.0) ==> Amount(tr, b) == Heft(tr, b)
  {
    if |b| > 0 {
      AmountHeft(tr, b[..|b| - 1]);
      assert b == b[..|b| - 1] + [b[|b| - 1]];
    }
  }

  lemma {:induction false} PruneHeft(tr: Trigger, b: Hits, now: real)
    ensures Heft(tr, Prune(b, now, tr.window)) <= Heft(tr, b)
  {
    if |b| > 0 {
      PruneHeft(tr, b[..|b| - 1], now);
      HeftSnoc(tr, Prune(b[..|b| - 1], now, tr.window), b[|b| - 1]);
    }
  }

  lemma {:induction false} KeptHeft(tr: Trigger, b: Hits, h: Hit)
    ensures Heft(tr, Kept(tr, b, h)) <= Heft(tr, b) + Weight(tr, h.event)
  {
    PruneHeft(tr, b, h.event.ts);
    PruneHeft(tr, b + [h], h.event.ts);
    HeftSnoc(tr, b, h);
    HeftSnoc(tr, Prune(b, h.event.ts, tr.window), h);
  }

  /** A window weighs at most what it spans, and at least any stretch whose events it holds. */
  lemma {:induction false} WindowHeft(tr: Trigger, ev: seq<Event>, key: Key, lo: nat, n: nat, now: real)
    requires n <= |ev|
    ensures Heft(tr, InWindow(tr, ev, key, lo, n, now)) <= Load(tr, ev, key, lo, n)
  {
    if n > lo {
      WindowHeft(tr, ev, key, lo, n - 1, now);
      HeftSnoc(tr, InWindow(tr, ev, key, lo, n - 1, now), Hit(n - 1, ev[n - 1]));
    }
  }

  lemma {:induction false} HeftNonnegative(tr: Trigger, b: Hits)
    ensures Heft(tr, b) >= 0.0
  {
    if |b| > 0 { HeftNonnegative(tr, b[..|b| - 1]); }
  }

  lemma {:induction false} WindowHoldsLoad(tr: Trigger, ev: seq<Event>, key: Key, lo: nat, mid: nat, n: nat, now: real)
    requires n <= |ev| && lo <= mid
    requires forall j :: mid <= j < n && KeyOf(tr, ev[j]) == Some(key) ==> now - ev[j].ts < tr.window
    ensures Load(tr, ev, key, mid, n) <= Heft(tr, InWindow(tr, ev, key, lo, n, now))
  {
    if n > mid {
      WindowHoldsLoad(tr, ev, key, lo, mid, n - 1, now);
      HeftSnoc(tr, InWindow(tr, ev, key, lo, n - 1, now), Hit(n - 1, ev[n - 1]));
    } else {
      HeftNonnegative(tr, InWindow(tr, ev, key, lo, n, now));
    }
  }

  // ----- agreement with the naive recount, both ways -----

  /** The same trigger with another limit. */
  function Relimited(tr: Trigger, limit: int): Trigger {
    match tr
    case LoopStutter(w, _) => LoopStutter(w, limit)
    case FanOut(w, _) => FanOut(w, limit)
    case BudgetVelocity(w, _) => BudgetVelocity(w, limit as real)
  }

  predicate AgreesAt(tr: Trigger, ev: seq<Event>, key: Key, i: nat) {
    i < |ev| && KeyOf(tr, ev[i]) == Some(key) ==> Deciding(tr, ev, i) == NaiveGroup(tr, ev, key, i)
  }

  /** Whatever the limit, the pass decides on the naive group at every event of the key. */
  ghost predicate AlwaysAgrees(tr: Trigger, ev: seq<Event>, key: Key) {
    forall limit: int, i: nat {:trigger AgreesAt(Relimited(tr, limit), ev, key, i)} ::
      AgreesAt(Relimited(tr, limit), ev, key, i)
  }

  lemma {:induction false} LoadGrows(tr: Trigger, ev: seq<Event>, key: Key, lo: nat, m: nat, n: nat)
    requires m <= n <= |ev|
    ensures Load(tr, ev, key, lo, m) <= Load(tr, ev, key, 0, n)
  {
    if m < n { LoadGrows(tr, ev, key, lo, m, n - 1); } else if n > 0 { LoadGrows(tr, ev, key, lo, n - 1, n - 1); }
  }

  lemma {:induction false} BucketHeft(tr: Trigger, ev: seq<Event>, key: Key, n: nat)
    requires n <= |ev|
    ensures Heft(tr, Bucket(tr, ev, key, n)) <= Load(tr, ev, key, 0, n)
  {
    if n > 0 {
      BucketHeft(tr, ev, key, n - 1);
      HeftNonnegative(tr, Bucket(tr, ev, key, n - 1));
      KeptHeft(tr, Bucket(tr, ev, key, n - 1), Hit(n - 1, ev[n - 1]));
    }
  }

  lemma {:induction false} DecidingHeft(tr: Trigger, ev: seq<Event>, key: Key, i: nat)
    requires i < |ev| && KeyOf(tr, ev[i]) == Some(key)
    ensures Heft(tr, Deciding(tr, ev, i)) <= Load(tr, ev, key, 0, |ev|)
  {
    BucketHeft(tr, ev, key, i);
    KeptHeft(tr, Bucket(tr, ev, key, i), Hit(i, ev[i]));
    LoadGrows(tr, ev, key, 0, i + 1, |ev|);
  }

  lemma {:induction false} GroupHeft(tr: Trigger, ev: seq<Event>, key: Key, i: nat)
    requires i < |ev|
    ensures Heft(tr, NaiveGroup(tr, ev, key, i)) <= Load(tr, ev, key, 0, |ev|)
  {
    WindowHeft(tr, ev, key, AfterLastFire(tr, ev, key, i), i + 1, ev[i].ts);
    LoadGrows(tr, ev, key, AfterLastFire(tr, ev, key, i), i + 1, |ev|);
  }

  lemma {:induction false} LightDoesNotTrip(tr: Trigger, b: Hits)
    requires Heft(tr, b) < Limit(tr)
    ensures !Trips(tr, b)
  {
    AmountHeft(tr, b);
    TripsReaches(tr, b);
  }

  /** A limit above all that the key's events weigh is never reached. */
  lemma {:induction false} NeverReached(tr: Trigger, ev: seq<Event>, key: Key, i: nat)
    requires i < |ev| && KeyOf(tr, ev[i]) == Some(key) && Limit(tr) > Load(tr, ev, key, 0, |ev|)
    ensures !Fires(tr, ev, i) && !NaiveFires(tr, ev, i)
  {
    DecidingHeft(tr, ev, key, i);
    GroupHeft(tr, ev, key, i);
    LightDoesNotTrip(tr, Deciding(tr, ev, i));
    LightDoesNotTrip(tr, NaiveGroup(tr, ev, key, i));
  }

  lemma {:induction false} NeverReset(tr: Trigger, ev: seq<Event>, key: Key, n: nat)
    requires n <= |ev| && Limit(tr) > Load(tr, ev, key, 0, |ev|)
    ensures AfterLastReset(tr, ev, key, n) == 0 == AfterLastFire(tr, ev, key, n)
  {
    if n > 0 {
      NeverReset(tr, ev, key, n - 1);
      if KeyOf(tr, ev[n - 1]) == Some(key) { NeverReached(tr, ev, key, n - 1); }
    }
  }

  lemma {:induction false} WindowHas(tr: Trigger, ev: seq<Event>, key: Key, n: nat, now: real, i: nat)
    requires i < n <= |ev| && KeyOf(tr, ev[i]) == Some(key) && now - ev[i].ts < tr.window
    ensures Hit(i, ev[i]) in InWindow(tr, ev, key, 0, n, now)
  {
    if i < n - 1 { WindowHas(tr, ev, key, n - 1, now, i); }
  }

  /** With an event that drops out and comes back, a limit that is never reached tells the two apart. */
  lemma {:induction false} DropOutDiffers(tr: Trigger, ev: seq<Event>, key: Key, i: nat, j: nat, k: nat)
    requires tr.window > 0.0 && i < j < k < |ev| && !Keeps(tr, ev, i, j, k)
    requires KeyOf(tr, ev[i]) == Some(key) && KeyOf(tr, ev[j]) == Some(key) && KeyOf(tr, ev[k]) == Some(key)
    requires Limit(tr) > Load(tr, ev, key, 0, |ev|)
    ensures !AgreesAt(tr, ev, key, k)
  {
    NeverReset(tr, ev, key, k);
    BucketMeaning(tr, ev, key, k, i);
    KeptMembers(tr, Bucket(tr, ev, key, k), Hit(k, ev[k]), Hit(i, ev[i]));
    WindowHas(tr, ev, key, k + 1, ev[k].ts, i);
  }

  lemma {:induction false} LoadRelimited(tr: Trigger, limit: int, ev: seq<Event>, key: Key, lo: nat, n: nat)
    requires n <= |ev|
    ensures Load(Relimited(tr, limit), ev, key, lo, n) == Load(tr, ev, key, lo, n)
  {
    if n > lo { LoadRelimited(tr, limit, ev, key, lo, n - 1); }
  }

  /** The exact condition: on any log and with a positive window, the pass decides on the naive groups
      of a key, whatever the limit, if and only if no event of the key drops out of the window and comes
      back. */
  lemma {:induction false} AgreesIffSteady(tr: Trigger, ev: seq<Event>, key: Key)
    requires tr.window > 0.0
    ensures AlwaysAgrees(tr, ev, key) <==> Steady(tr, ev, key)
  {
    if Steady(tr, ev, key) {
      forall limit: int, i: nat
        ensures AgreesAt(Relimited(tr, limit), ev, key, i)
      {
        SteadyRelimited(tr, limit, ev, key);
        if i < |ev| && KeyOf(tr, ev[i]) == Some(key) { DecidesLikeNaive(Relimited(tr, limit), ev, key, i); }
      }
    } else {
      var i, j, k :| 0 <= i < j < k < |ev| && !Keeps(tr, ev, i, j, k) && KeyOf(tr, ev[i]) == Some(key)
                     && KeyOf(tr, ev[j]) == Some(key) && KeyOf(tr, ev[k]) == Some(key);
      var limit := Load(tr, ev, key, 0, |ev|).Floor + 1;
      LoadRelimited(tr, limit, ev, key, 0, |ev|);
      DropOutDiffers(Relimited(tr, limit), ev, key, i, j, k);
    }
  }

  lemma SteadyRelimited(tr: Trigger, limit: int, ev: seq<Event>, key: Key)
    requires Steady(tr, ev, key)
    ensures Steady(Relimited(tr, limit), ev, key)
  {
    var other := Relimited(tr, limit);
    forall i, j, k | 0 <= i < j < k < |ev| && KeyOf(other, ev[i]) == Some(key) && KeyOf(other, ev[j]) == Some(key)
                     && KeyOf(other, ev[k]) == Some(key)
      ensures Keeps(other, ev, i, j, k)
    {
      assert Keeps(tr, ev, i, j, k);
    }
  }

  // ----- completeness -----

  lemma {:induction false} NoFireNoReset(tr: Trigger, ev: seq<Event>, key: Key, lo: nat, n: nat)
    requires Steady(tr, ev, key) && tr.window > 0.0 && lo <= n <= |ev|
    requires forall j :: lo <= j < n && KeyOf(tr, ev[j]) == Some(key) ==> !Fires(tr, ev, j)
    ensures AfterLastFire(tr, ev, key, n) <= lo
  {
    if n > lo {
      if KeyOf(tr, ev[n - 1]) == Some(key) { DecidesLikeNaive(tr, ev, key, n - 1); }
      NoFireNoReset(tr, ev, key, lo, n - 1);
    }
  }

  lemma {:induction false} WindowMembers(tr: Trigger, ev: seq<Event>, key: Key, lo: nat, n: nat, now: real, h: Hit)
    requires n <= |ev| && h in InWindow(tr, ev, key, lo, n, now)
    ensures lo <= h.index < n && h.event == ev[h.index] && KeyOf(tr, h.event) == Some(key)
  {
    if h in InWindow(tr, ev, key, lo, n - 1, now) { WindowMembers(tr, ev, key, lo, n - 1, now, h); }
  }

  predicate CostsNonnegative(ev: seq<Event>) {
    forall i :: 0 <= i < |ev| ==> ev[i].cost >= 0.0
  }

  lemma {:induction false} QuietBurstFires(tr: Trigger, ev: seq<Event>, key: Key, lo: nat, hi: nat)
    requires (tr.BudgetVelocity? ==> CostsNonnegative(ev)) && lo <= hi < |ev| && KeyOf(tr, ev[hi]) == Some(key)
    requires forall j :: lo <= j <= hi && KeyOf(tr, ev[j]) == Some(key) ==> ev[hi].ts - ev[j].ts < tr.window
    requires Reaches(tr, Load(tr, ev, key, lo, hi + 1)) && AfterLastFire(tr, ev, key, hi) <= lo
    ensures NaiveFires(tr, ev, hi)
  {
    var from, g := AfterLastFire(tr, ev, key, hi), NaiveGroup(tr, ev, key, hi);
    WindowHoldsLoad(tr, ev, key, from, lo, hi + 1, ev[hi].ts);
    forall h | h in g && tr.BudgetVelocity?
      ensures h.event.cost >= 0.0
    {
      WindowMembers(tr, ev, key, from, hi + 1, ev[hi].ts, h);
    }
    AmountHeft(tr, g);
    TripsReaches(tr, g);
  }

  /** Completeness: when the events of a key from lo to hi all lie within the window of the last of them
      and reach the limit, one of them raises an incident. */
  lemma {:induction false} BurstRaisesIncident(tr: Trigger, ev: seq<Event>, key: Key, lo: nat, hi: nat)
    requires Steady(tr, ev, key) && tr.window > 0.0 && (tr.BudgetVelocity? ==> CostsNonnegative(ev))
    requires lo <= hi < |ev| && KeyOf(tr, ev[hi]) == Some(key)
    requires forall j :: lo <= j <= hi && KeyOf(tr, ev[j]) == Some(key) ==> ev[hi].ts - ev[j].ts < tr.window
    requires Reaches(tr, Load(tr, ev, key, lo, hi + 1))
    ensures exists i :: lo <= i <= hi && KeyOf(tr, ev[i]) == Some(key) && Fires(tr, ev, i)
  {
    if exists i :: lo <= i < hi && KeyOf(tr, ev[i]) == Some(key) && Fires(tr, ev, i) {
    } else {
      NoFireNoReset(tr, ev, key, lo, hi);
      QuietBurstFires(tr, ev, key, lo, hi);
      DecidesLikeNaive(tr, ev, key, hi);
    }
  }

  /** On a time-sorted log it is enough that the burst spans less than the window. */
  lemma {:induction false} SortedBurstRaisesIncident(tr: Trigger, ev: seq<Event>, key: Key, lo: nat, hi: nat)
    requires Sorted(ev) && tr.window > 0.0 && (tr.BudgetVelocity? ==> CostsNonnegative(ev))
    requires lo <= hi < |ev| && KeyOf(tr, ev[hi]) == Some(key) && ev[hi].ts - ev[lo].ts < tr.window
    requires Reaches(tr, Load(tr, ev, key, lo, hi + 1))
    ensures exists i :: lo <= i <= hi && KeyOf(tr, ev[i]) == Some(key) && Fires(tr, ev, i)
  {
    SortedIsSteady(tr, ev, key);
    BurstRaisesIncident(tr, ev, key, lo, hi);
  }

  // ----- no double counting, on any log -----

  /** The number of incidents of key among the first n events. */
  function Incidents(tr: Trigger, ev: seq<Event>, key: Key, n: nat): nat
    requires n <= |ev|
  {
    if n == 0 then 0
    else Incidents(tr, ev, key, n - 1) + if KeyOf(tr, ev[n - 1]) == Some(key) && Fires(tr, ev, n - 1) then 1 else 0
  }

  /** What so many incidents take. */
  function Price(incidents: nat, limit: real): real {
    if incidents == 0 then 0.0 else Price(incidents - 1, limit) + limit
  }

  lemma {:induction false} PriceIsProduct(incidents: nat, limit: real)
    ensures Price(incidents, limit) == incidents as real * limit
  {
    if incidents > 0 {
      PriceIsProduct(incidents - 1, limit);
      var k := (incidents - 1) as real;
      assert incidents as real == k + 1.0;
      assert (k + 1.0) * limit == k * limit + limit;
    }
  }

  lemma {:induction false} PaidInFull(incidents: nat, limit: real, rest: real, load: real)
    requires Price(incidents, limit) + rest <= load
    ensures incidents as real * limit + rest <= load
  {
    PriceIsProduct(incidents, limit);
  }

  lemma {:induction false} IncidentsStep(tr: Trigger, ev: seq<Event>, key: Key, n: nat)
    requires n < |ev|
    ensures Incidents(tr, ev, key, n + 1)
            == Incidents(tr, ev, key, n) + if KeyOf(tr, ev[n]) == Some(key) && Fires(tr, ev, n) then 1 else 0
  {}

  /** An event of the key adds its weight, and an incident takes the limit out of the bucket. */
  predicate PaysAt(tr: Trigger, ev: seq<Event>, key: Key, n: nat, limit: real)
    requires n < |ev|
  {
    Heft(tr, Bucket(tr, ev, key, n + 1)) + (if Fires(tr, ev, n) then limit else 0.0)
    <= Heft(tr, Bucket(tr, ev, key, n)) + Weight(tr, ev[n])
  }

  lemma {:induction false} BucketPays(tr: Trigger, ev: seq<Event>, key: Key, n: nat)
    requires n < |ev| && KeyOf(tr, ev[n]) == Some(key)
    ensures PaysAt(tr, ev, key, n, Limit(tr))
  {
    KeptHeft(tr, Bucket(tr, ev, key, n), Hit(n, ev[n]));
    AmountHeft(tr, Deciding(tr, ev, n));
    TripsReaches(tr, Deciding(tr, ev, n));
    BucketStep(tr, ev, key, n);
  }

  /** Incidents and the present bucket are paid for by different events. */
  lemma {:induction false} IncidentsPaidFor(tr: Trigger, ev: seq<Event>, key: Key, n: nat, limit: real)
    requires n <= |ev|
    requires forall i {:trigger PaysAt(tr, ev, key, i, limit)} ::
               0 <= i < |ev| && KeyOf(tr, ev[i]) == Some(key) ==> PaysAt(tr, ev, key, i, limit)
    ensures Price(Incidents(tr, ev, key, n), limit) + Heft(tr, Bucket(tr, ev, key, n)) <= Load(tr, ev, key, 0, n)
  {
    if n > 0 {
      IncidentsPaidFor(tr, ev, key, n - 1, limit);
      IncidentsStep(tr, ev, key, n - 1);
      if KeyOf(tr, ev[n - 1]) == Some(key) { assert PaysAt(tr, ev, key, n - 1, limit); }
    }
  }

  /** No double counting, on any log: a key's incidents times the limit, and what is still in its bucket,
      never exceed what its events weigh in all. */
  lemma {:induction false} NoDoubleCounting(tr: Trigger, ev: seq<Event>, key: Key, incidents: nat, limit: real)
    requires incidents == Incidents(tr, ev, key, |ev|) && limit == Limit(tr)
    ensures incidents as real * limit + Heft(tr, Bucket(tr, ev, key, |ev|)) <= Load(tr, ev, key, 0, |ev|)
  {
    var rest, load := Heft(tr, Bucket(tr, ev, key, |ev|)), Load(tr, ev, key, 0, |ev|);
    forall i | 0 <= i < |ev| && KeyOf(tr, ev[i]) == Some(key)
      ensures PaysAt(tr, ev, key, i, limit)
    {
      BucketPays(tr, ev, key, i);
    }
    IncidentsPaidFor(tr, ev, key, |ev|, limit);
    PaidInFull(incidents, limit, rest, load);
  }

  lemma {:induction false} ResetGrows(tr: Trigger, ev: seq<Event>, key: Key, m: nat, n: nat)
    requires m <= n <= |ev|
    ensures AfterLastReset(tr, ev, key, m) <= AfterLastReset(tr, ev, key, n)
  {
    if m < n {
      ResetGrows(tr, ev, key, m, n - 1);
      ResetStep(tr, ev, key, n - 1);
    }
  }

  lemma {:induction false} ResetBefore(tr: Trigger, ev: seq<Event>, key: Key, i: nat, n: nat)
    requires i < n <= |ev| && KeyOf(tr, ev[i]) == Some(key) && Fires(tr, ev, i)
    ensures AfterLastReset(tr, ev, key, n) > i
  {
    ResetStep(tr, ev, key, i);
    ResetGrows(tr, ev, key, i + 1, n);
  }

  /** What decides at an event are events of its key since the last reset. */
  lemma {:induction false} DecidingIndices(tr: Trigger, ev: seq<Event>, i: nat, h: Hit)
    requires i < |ev| && KeyOf(tr, ev[i]).Some? && h in Deciding(tr, ev, i)
    ensures AfterLastReset(tr, ev, KeyOf(tr, ev[i]).value, i) <= h.index <= i
    ensures h.event == ev[h.index] && KeyOf(tr, h.event) == KeyOf(tr, ev[i])
  {
    var key := KeyOf(tr, ev[i]).value;
    KeptSubset(tr, Bucket(tr, ev, key, i), Hit(i, ev[i]), h);
    if h != Hit(i, ev[i]) { BucketIndices(tr, ev, key, i, h); }
  }

  /** On any log, the events behind two different incidents are different events. */
  lemma {:induction false} IncidentGroupsDisjoint(tr: Trigger, ev: seq<Event>, i: nat, j: nat, a: Hit, b: Hit)
    requires i < j < |ev| && Fires(tr, ev, i) && Fires(tr, ev, j)
    requires a in Deciding(tr, ev, i) && b in Deciding(tr, ev, j)
    ensures a.index != b.index
  {
    DecidingIndices(tr, ev, i, a);
    DecidingIndices(tr, ev, j, b);
    if KeyOf(tr, ev[i]) == KeyOf(tr, ev[j]) { ResetBefore(tr, ev, KeyOf(tr, ev[i]).value, i, j); }
  }
}
