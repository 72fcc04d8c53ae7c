/** The containment tree: nodes born inside their parent's box, recursive teardown, and graduated
    standing, with the invariants every operation keeps. */
module Containment {
  import opened Common
  import opened Autonomy

  class Contained {
    const name: string
    const spiffeId: string
    const parent: Contained?
    var level: Level
    var children: seq<Contained>
    var alive: bool
    var streak: nat
    var good: nat
    var demotions: nat
    /** The distance from the root. */
    ghost const depth: nat
    /** Every level held so far, oldest first. */
    ghost var held: seq<Level>
    /** How many levels the parent had held when this node was born, less one. */
    ghost const bornAt: nat

    constructor Root(name: string, spiffeId: string, level: Level)
      ensures this.name == name && this.spiffeId == spiffeId && parent == null && children == [] && alive
      ensures CurrentStanding() == Standing(level, 0, 0, 0) && depth == 0 && held == [level]
    {
      this.name, this.spiffeId, this.parent, this.level := name, spiffeId, null, level;
      children, alive, streak, good, demotions := [], true, 0, 0, 0;
      depth, held, bornAt := 0, [level], 0;
    }

    constructor Child(parent: Contained, name: string)
      requires |parent.held| > 0
      ensures this.name == name && spiffeId == parent.spiffeId + "/" + name && this.parent == parent
      ensures children == [] && alive && CurrentStanding() == Newborn
      ensures depth == parent.depth + 1 && held == [SHADOW] && bornAt == |parent.held| - 1
    {
      this.name, this.spiffeId, this.parent, this.level := name, parent.spiffeId + "/" + name, parent, SHADOW;
      children, alive, streak, good, demotions := [], true, 0, 0, 0;
      depth, held, bornAt := parent.depth + 1, [SHADOW], |parent.held| - 1;
    }

    function CurrentStanding(): Standing
      reads this
    {
      Standing(level, streak, good, demotions)
    }

    /** A child can never be promoted past its parent's present level. */
    function Ceiling(): Level
      reads this, parent
    {
      if parent != null then parent.level else TRUSTED
    }

    /** The new level, streak and counters after one outcome. */
    method Count(verifiedGood: bool, floorViolation: bool)
      modifies `level, `streak, `good, `demotions, `held
      ensures CurrentStanding()
              == AfterOutcome(old(CurrentStanding()), Outcome(verifiedGood, floorViolation), old(Ceiling()))
      ensures held == old(held) + [level]
    {
      if floorViolation {
        level := SHADOW;
        streak := 0;
        demotions := demotions + 1;
      } else if !verifiedGood {
        level := if level > CONTAINED then CONTAINED else level;
        streak := 0;
        demotions := demotions + 1;
      } else {
        good := good + 1;
        streak := streak + 1;
        if streak >= PROMOTE_AFTER && level < TRUSTED {
          if level < Ceiling() {
            level := level + 1;
          }
          streak := 0;
        }
      }
      held := held + [level];
    }
  }

  class SimRuntime {
    var running: set<string>
    var killed: seq<string>

    constructor ()
      ensures running == {} && killed == []
    {
      running, killed := {}, [];
    }

    method Spawn(id: string)
      modifies this
      ensures running == old(running) + {id} && killed == old(killed)
    {
      running := running + {id};
    }

    method Kill(id: string)
      modifies this
      ensures running == old(running) - {id} && killed == old(killed) + [id]
    {
      running := running - {id};
      killed := killed + [id];
    }
  }

  /** A root may rise to TRUSTED, a child to its parent's present level. */
  lemma CeilingMeaning(n: Contained)
    ensures n.Ceiling() == if n.parent == null then TRUSTED else n.parent.level
  {}

  // ----- shape of the tree -----

  /** m is top or lies below it. */
  ghost predicate Under(top: Contained, m: Contained)
    decreases m.depth
  {
    m == top || (m.parent != null && m.parent.depth < m.depth && Under(top, m.parent))
  }

  ghost function Deeper(nodes: set<Contained>, n: Contained): set<Contained> {
    set m | m in nodes && m.depth > n.depth
  }

  ghost predicate UnderAny(tops: seq<Contained>, m: Contained) {
    exists c :: c in tops && Under(c, m)
  }

  /** Names, identifiers and parents fit together; all of these never change after birth. */
  ghost predicate Lineage(nodes: set<Contained>) {
    forall n :: n in nodes && n.parent != null ==>
      n.parent in nodes && n.depth == n.parent.depth + 1 && n.spiffeId == n.parent.spiffeId + "/" + n.name
  }

  ghost predicate DistinctIds(nodes: set<Contained>) {
    forall a, b :: a in nodes && b in nodes && a.spiffeId == b.spiffeId ==> a == b
  }

  ghost predicate ChildLinks(nodes: set<Contained>)
    reads nodes`children
  {
    && (forall n, c :: n in nodes && c in n.children ==> c in nodes && c.parent == n)
    && (forall n :: n in nodes && n.parent != null && n.parent in nodes ==> n in n.parent.children)
    && (forall n, i, j :: n in nodes && 0 <= i < j < |n.children| ==> n.children[i] != n.children[j])
  }

  ghost predicate NoOrphans(nodes: set<Contained>)
    reads nodes
  {
    forall n :: n in nodes && n.parent != null && n.parent in nodes && n.alive ==> n.parent.alive
  }

  /** The parent has held at least this level since the node's birth. */
  ghost predicate WithinParent(n: Contained)
    reads n, n.parent
  {
    n.parent != null ==> exists k :: n.bornAt <= k < |n.parent.held| && n.parent.held[k] >= n.level
  }

  /** No node is above its parent's level. */
  ghost predicate Ranked(nodes: set<Contained>)
    reads nodes
  {
    forall n :: n in nodes && n.parent != null && n.parent in nodes ==> n.level <= n.parent.level
  }

  ghost predicate Graduated(n: Contained)
    reads n, n.parent
  {
    && |n.held| > 0 && n.held[|n.held| - 1] == n.level
    && (n.level < TRUSTED ==> n.streak < PROMOTE_AFTER)
    && (n.parent != null ==> Earned(n.CurrentStanding()) && WithinParent(n) && n.bornAt < |n.parent.held|)
  }

  ghost function LiveIds(nodes: set<Contained>): set<string>
    reads nodes
  {
    set n | n in nodes && n.alive && n.parent != null :: n.spiffeId
  }

  ghost function Ids(order: seq<Contained>): seq<string> {
    seq(|order|, i requires 0 <= i < |order| => order[i].spiffeId)
  }

  ghost function Members(order: seq<Contained>): set<Contained> {
    set m | m in order
  }

  ghost function IdSet(order: seq<Contained>): set<string> {
    set m | m in order :: m.spiffeId
  }

  lemma {:induction false} ParentUnder(top: Contained, m: Contained, nodes: set<Contained>)
    requires Lineage(nodes) && m in nodes && Under(top, m) && top in nodes
    ensures top.depth <= m.depth && (m != top ==> m.depth > top.depth && m.parent != null && Under(top, m.parent))
    decreases m.depth
  {
    if m != top { ParentUnder(top, m.parent, nodes); }
  }

  /** Below a node is below one of its children. */
  lemma {:induction false} UnderChildren(top: Contained, m: Contained, nodes: set<Contained>)
    requires Lineage(nodes) && ChildLinks(nodes) && m in nodes && top in nodes
    ensures Under(top, m) <==> m == top || UnderAny(top.children, m)
    decreases m.depth
  {
    if m != top {
      if m.parent != null {
        UnderChildren(top, m.parent, nodes);
        if Under(top, m.parent) {
          if m.parent == top {
            assert m in top.children && Under(m, m);
          } else {
            var c :| c in top.children && Under(c, m.parent);
            assert Under(c, m);
          }
        }
      }
      if UnderAny(top.children, m) {
        var c :| c in top.children && Under(c, m);
        UnderTransitive(top, c, m, nodes);
      }
    }
  }

  lemma {:induction false} UnderTransitive(a: Contained, b: Contained, c: Contained, nodes: set<Contained>)
    requires Lineage(nodes) && a in nodes && b in nodes && c in nodes
    requires b.parent == a && Under(b, c)
    ensures Under(a, c)
    decreases c.depth
  {
    assert Under(a, a);
    if c != b { UnderTransitive(a, b, c.parent, nodes); }
  }

  /** Two nodes of the same depth have no common descendant. */
  lemma {:induction false} SubtreesDisjoint(a: Contained, b: Contained, m: Contained, nodes: set<Contained>)
    requires Lineage(nodes) && a in nodes && b in nodes && m in nodes
    requires a.depth == b.depth && Under(a, m) && Under(b, m)
    ensures a == b
    decreases m.depth
  {
    ParentUnder(a, m, nodes);
    ParentUnder(b, m, nodes);
    if m != a && m != b { SubtreesDisjoint(a, b, m.parent, nodes); }
  }

  // ----- the manager -----

  class ContainmentManager {
    const runtime: SimRuntime
    /** Every node handed to or born under this manager. */
    ghost var nodes: set<Contained>

    ghost predicate Valid()
      reads this, nodes, runtime
    {
      && Lineage(nodes)
      && ChildLinks(nodes)
      && NoOrphans(nodes)
      && (forall n :: n in nodes ==> Graduated(n))
      && runtime.running <= LiveIds(nodes)
      && (DistinctIds(nodes) ==> runtime.running == LiveIds(nodes))
    }

    constructor (runtime: SimRuntime)
      requires runtime.running == {}
      ensures Valid() && nodes == {} && this.runtime == runtime
    {
      this.runtime := runtime;
      nodes := {};
    }

    /** Take a newly made root into account. */
    ghost method Admit(root: Contained)
      requires Valid() && root !in nodes
      requires root.parent == null && root.children == [] && root.streak == 0 && root.held == [root.level]
      modifies this`nodes
      ensures Valid() && nodes == old(nodes) + {root} && (old(Ranked(nodes)) ==> Ranked(nodes))
    {
      nodes := nodes + {root};
      RootLinks(root);
      RootRunning(root);
    }

    twostate lemma RootLinks(root: Contained)
      requires old(Lineage(nodes) && ChildLinks(nodes) && NoOrphans(nodes)) && nodes == old(nodes) + {root}
               && root !in old(nodes)
      requires root.parent == null && root.children == [] && forall n :: n in nodes ==> unchanged(n)
      ensures Lineage(nodes) && ChildLinks(nodes) && NoOrphans(nodes)
    {}

    twostate lemma RootRunning(root: Contained)
      requires nodes == old(nodes) + {root} && root.parent == null && forall n :: n in nodes ==> unchanged(n)
      ensures LiveIds(nodes) == old(LiveIds(nodes))
      ensures DistinctIds(nodes) ==> DistinctIds(old(nodes))
    {}

    /** Create a child inside the parent's box; None under a reaped or full parent. */
    method Spawn(parent: Contained, name: string) returns (child: Option<Contained>)
      requires Valid() && parent in nodes
      modifies this`nodes, parent`children, runtime
      ensures Valid()
      ensures child.Some? <==> old(parent.alive && |parent.children| < Profile(parent.level).maxChildren)
      ensures child.None? ==> nodes == old(nodes) && parent.children == old(parent.children)
                              && runtime.running == old(runtime.running) && runtime.killed == old(runtime.killed)
      ensures child.Some? ==>
                var c := child.value;
                && fresh(c) && nodes == old(nodes) + {c} && parent.children == old(parent.children) + [c]
                && c.parent == parent && c.name == name && c.spiffeId == parent.spiffeId + "/" + name
                && c.alive && c.CurrentStanding() == Newborn && c.children == []
                && runtime.running == old(runtime.running) + {c.spiffeId} && runtime.killed == old(runtime.killed)
      ensures old(Ranked(nodes)) ==> Ranked(nodes)
    {
      if !parent.alive {
        return None;
      }
      if |parent.children| >= Profile(parent.level).maxChildren {
        return None;
      }
      var c := new Contained.Child(parent, name);
      parent.children := parent.children + [c];
      runtime.Spawn(c.spiffeId);
      nodes := nodes + {c};
      BornLinks(parent, c);
      BornGraduated(parent, c);
      BornRunning(parent, c);
      BornRanks(parent, c);
      return Some(c);
    }

    /** What a spawn changed: c was born under parent, and nothing else happened to old nodes. */
    twostate predicate Born(parent: Contained, new c: Contained)
      reads this, nodes, parent, c, runtime
    {
      && parent in old(nodes) && old(parent.alive)
      && c !in old(nodes) && nodes == old(nodes) + {c}
      && (forall n :: n in old(nodes) && n != parent ==> unchanged(n))
      && parent.children == old(parent.children) + [c] && c !in old(parent.children)
      && parent.alive && parent.CurrentStanding() == old(parent.CurrentStanding()) && parent.held == old(parent.held)
      && c.parent == parent && c.spiffeId == parent.spiffeId + "/" + c.name && c.depth == parent.depth + 1
      && c.children == [] && c.alive && c.CurrentStanding() == Newborn
      && c.held == [SHADOW] && c.bornAt == |parent.held| - 1
      && runtime.running == old(runtime.running) + {c.spiffeId}
    }

    twostate lemma BornLinks(parent: Contained, new c: Contained)
      requires old(Lineage(nodes) && ChildLinks(nodes) && NoOrphans(nodes)) && Born(parent, c)
      ensures Lineage(nodes) && ChildLinks(nodes) && NoOrphans(nodes)
    {
      var kids := parent.children;
      assert forall x :: x in kids <==> x in old(parent.children) || x == c;
      forall n, x | n in nodes && x in n.children
        ensures x in nodes && x.parent == n
      {
        if n == parent && x != c { assert x in old(parent.children); }
      }
      forall n, i, j | n in nodes && 0 <= i < j < |n.children|
        ensures n.children[i] != n.children[j]
      {
        if n == parent && j == |kids| - 1 { assert kids[i] in old(parent.children); }
      }
    }

    twostate lemma BornGraduated(parent: Contained, new c: Contained)
      requires old(Lineage(nodes)) && old(forall n :: n in nodes ==> Graduated(n)) && Born(parent, c)
      ensures forall n :: n in nodes ==> Graduated(n)
    {
      forall n | n in nodes
        ensures Graduated(n)
      {
        assert old(Graduated(parent));
        if n == c {
          assert parent.held[c.bornAt] >= c.level;
        } else {
          assert old(Graduated(n));
        }
      }
    }

    twostate lemma BornRanks(parent: Contained, new c: Contained)
      requires old(Lineage(nodes)) && Born(parent, c)
      ensures old(Ranked(nodes)) ==> Ranked(nodes)
    {
      if old(Ranked(nodes)) {
        forall n | n in nodes && n.parent != null && n.parent in nodes
          ensures n.level <= n.parent.level
        {
          if n != c { assert old(n.level) <= old(n.parent.level); }
        }
      }
    }

    twostate lemma BornRunning(parent: Contained, new c: Contained)
      requires Born(parent, c)
      requires old(runtime.running <= LiveIds(nodes) && (DistinctIds(nodes) ==> runtime.running == LiveIds(nodes)))
      ensures runtime.running <= LiveIds(nodes) && (DistinctIds(nodes) ==> runtime.running == LiveIds(nodes))
    {
      assert LiveIds(nodes) == old(LiveIds(nodes)) + {c.spiffeId};
    }

    // ----- standing -----

    /** Count an outcome for or against a node, with its parent's present level as the ceiling. */
    method RecordOutcome(node: Contained, verifiedGood: bool, floorViolation: bool)
      requires Valid() && node in nodes
      modifies node`level, node`streak, node`good, node`demotions, node`held
      ensures Valid()
      ensures node.CurrentStanding() ==
              AfterOutcome(old(node.CurrentStanding()), Outcome(verifiedGood, floorViolation), old(node.Ceiling()))
      ensures node.held == old(node.held) + [node.level]
      ensures old(Ranked(nodes)) ==>
                (Ranked(nodes) <==>
                 (verifiedGood && !floorViolation)
                 || forall c :: c in node.children ==> old(c.level) <= Dropped(old(node.level), floorViolation))
    {
      node.Count(verifiedGood, floorViolation);
      OutcomeKeepsGraduated(node, Outcome(verifiedGood, floorViolation));
      if old(Ranked(nodes)) { OutcomeRanks(node, Outcome(verifiedGood, floorViolation)); }
    }

    /** A good outcome leaves no child above its parent; a bad one does exactly when some child of the node
        is above the level it drops to. */
    twostate lemma OutcomeRanks(node: Contained, new o: Outcome)
      requires old(Lineage(nodes) && ChildLinks(nodes) && Ranked(nodes)) && nodes == old(nodes) && node in nodes
      requires forall n :: n in nodes && n != node ==> unchanged(n)
      requires node.CurrentStanding() == AfterOutcome(old(node.CurrentStanding()), o, old(node.Ceiling()))
      ensures Ranked(nodes) <==>
              || Good(o)
              || forall c :: c in old(node.children) ==> old(c.level) <= Dropped(old(node.level), o.floorViolation)
    {
      forall c | c in nodes && c.parent == node
        ensures c != node && c in old(node.children) && c.level == old(c.level) <= old(node.level)
      {
        assert c.depth == node.depth + 1;
      }
      forall c | c in old(node.children)
        ensures c in nodes && c.parent == node
      {}
      if Good(o) {
        assert old(node.level) <= node.level;
      } else {
        assert node.level == Dropped(old(node.level), o.floorViolation);
      }
    }

    twostate lemma OutcomeKeepsGraduated(node: Contained, new o: Outcome)
      requires old(Valid()) && nodes == old(nodes) && node in nodes
      requires forall n :: n in nodes && n != node ==> unchanged(n)
      requires node.CurrentStanding() == AfterOutcome(old(node.CurrentStanding()), o, old(node.Ceiling()))
      requires node.held == old(node.held) + [node.level]
      ensures forall n :: n in nodes ==> Graduated(n)
    {
      forall n | n in nodes
        ensures Graduated(n)
      {
        assert old(Graduated(n));
        var p := n.parent;
        if n == node && p != null {
          assert old(Graduated(p));
          assert p.held[|p.held| - 1] == p.level;
        }
        if p == node { assert forall k :: 0 <= k < |old(p.held)| ==> p.held[k] == old(p.held)[k]; }
      }
    }

    /** Only a live node from SUPERVISED up ever runs ungated, and only reversibly; a spawned one has then
        earned ten good outcomes under a parent that has held SUPERVISED since. */
    method MayExecute(node: Contained, reversible: bool, sampled: bool) returns (v: Verdict)
      ensures v == DENY <==> !node.alive
      ensures v == OBSERVE_ONLY <==> node.alive && reversible && node.level == SHADOW
      ensures v == EXECUTE <==>
              node.alive && reversible && (node.level == TRUSTED || (node.level == SUPERVISED && !sampled))
      ensures v == EXECUTE && Valid() && node in nodes && node.parent != null ==>
                && node.good >= 10
                && exists k :: node.bornAt <= k < |node.parent.held| && node.parent.held[k] >= SUPERVISED
    {
      v := VerdictFor(node.alive, node.level, reversible, sampled);
    }

    // ----- teardown -----

    /** Tear down a node and its whole subtree, children before parents; order lists the nodes killed. */
    method Reap(node: Contained) returns (ghost order: seq<Contained>)
      requires Lineage(nodes) && ChildLinks(nodes) && node in nodes
      modifies nodes`alive, runtime
      ensures ChildLinks(nodes) && (old(Valid()) ==> Valid()) && (old(Ranked(nodes)) ==> Ranked(nodes))
      ensures Teardown(order, [node], nodes)
      ensures forall m :: m in nodes ==> (m.alive <==> old(m.alive) && m !in Members(order))
      ensures runtime.killed == old(runtime.killed) + Ids(order)
      ensures runtime.running == old(runtime.running) - IdSet(order)
      decreases Deeper(nodes, node), 2
    {
      order := ReapAll(node, node.children);
      CloseTeardown(order, node, nodes);
      node.alive := false;
      runtime.Kill(node.spiffeId);
      order := order + [node];
      ReapKeepsValid(node, order);
    }

    /** The loop of a teardown: the children's subtrees, one after the other. */
    method ReapAll(node: Contained, kids: seq<Contained>) returns (ghost order: seq<Contained>)
      requires Lineage(nodes) && ChildLinks(nodes) && node in nodes && kids == node.children
      modifies nodes`alive, runtime
      ensures ChildLinks(nodes) && Teardown(order, kids, nodes)
      ensures forall m :: m in nodes ==> (m.alive <==> old(m.alive) && m !in Members(order))
      ensures runtime.killed == old(runtime.killed) + Ids(order)
      ensures runtime.running == old(runtime.running) - IdSet(order)
      decreases Deeper(nodes, node), 1
    {
      order := [];
      for i := 0 to |kids|
        invariant ChildLinks(nodes) && node.children == kids
        invariant Teardown(order, kids[..i], nodes)
        invariant forall m :: m in nodes ==> (m.alive <==> old(m.alive) && m !in Members(order))
        invariant runtime.killed == old(runtime.killed) + Ids(order)
        invariant runtime.running == old(runtime.running) - IdSet(order)
      {
        ghost var below;
        order, below := ReapNext(node, i, order);
      }
      assert kids[..|kids|] == kids;
    }

    /** One turn of that loop. */
    method ReapNext(node: Contained, i: nat, ghost done: seq<Contained>)
      returns (ghost order: seq<Contained>, ghost below: seq<Contained>)
      requires Lineage(nodes) && ChildLinks(nodes) && node in nodes && i < |node.children|
      requires Teardown(done, node.children[..i], nodes)
      modifies nodes`alive, runtime
      ensures ChildLinks(nodes) && Teardown(order, node.children[..i + 1], nodes)
      ensures forall m :: m in nodes ==> (m.alive <==> old(m.alive) && m !in Members(below))
      ensures runtime.killed == old(runtime.killed) + Ids(below)
      ensures runtime.running == old(runtime.running) - IdSet(below)
      ensures Ids(order) == Ids(done) + Ids(below)
      ensures IdSet(order) == IdSet(done) + IdSet(below) && Members(order) == Members(done) + Members(below)
      decreases Deeper(nodes, node), 0
    {
      ChildIsDeeper(node, i, nodes);
      below := Reap(node.children[i]);
      ExtendTeardown(node, i, done, below, nodes);
      order := done + below;
    }

    twostate lemma ReapKeepsValid(node: Contained, new order: seq<Contained>)
      requires nodes == old(nodes) && node in nodes
      requires forall n :: n in nodes ==>
                 && n.children == old(n.children) && n.CurrentStanding() == old(n.CurrentStanding())
                 && n.held == old(n.held)
      requires Teardown(order, [node], nodes)
      requires forall m :: m in nodes ==> (m.alive <==> old(m.alive) && m !in Members(order))
      requires runtime.running == old(runtime.running) - IdSet(order)
      ensures old(Valid()) ==> Valid()
    {
      forall m | m in nodes
        ensures m in order <==> Under(node, m)
      {
        UnderOne(node, m);
      }
      forall n | n in nodes && old(Graduated(n) && (n.parent != null ==> n.parent in nodes))
        ensures Graduated(n)
      {
        SameGraduated(n);
      }
    }
  }

  twostate lemma SameGraduated(n: Contained)
    requires old(Graduated(n)) && n.CurrentStanding() == old(n.CurrentStanding()) && n.held == old(n.held)
    requires n.parent != null ==> n.parent.held == old(n.parent.held)
    ensures Graduated(n)
  {}

  /** order lists exactly the nodes at or below tops, none twice and none before a node below it. */
  ghost predicate Teardown(order: seq<Contained>, tops: seq<Contained>, nodes: set<Contained>) {
    && (forall m :: m in order ==> m in nodes)
    && (forall m {:trigger UnderAny(tops, m)} :: m in nodes ==> (m in order <==> UnderAny(tops, m)))
    && (forall i, j {:trigger Under(order[i], order[j])} :: 0 <= i < j < |order| ==> !Under(order[i], order[j]))
  }

  lemma {:induction false} UnderOne(top: Contained, m: Contained)
    ensures UnderAny([top], m) <==> Under(top, m)
  {
    assert top in [top];
  }

  lemma ChildIsDeeper(node: Contained, i: nat, nodes: set<Contained>)
    requires Lineage(nodes) && ChildLinks(nodes) && node in nodes && i < |node.children|
    ensures
      var c := node.children[i];
      c in nodes && c.parent == node && c.depth == node.depth + 1 && Deeper(nodes, c) < Deeper(nodes, node)
  {
    var c := node.children[i];
    assert c in node.children;
    assert c in nodes && c.parent == node;
    assert c.depth == node.depth + 1;
    assert c in Deeper(nodes, node) && c !in Deeper(nodes, c);
  }

  /** Nothing torn down for earlier siblings lies above anything torn down for this one. */
  lemma {:induction false} SiblingsApart(tops: seq<Contained>, c: Contained, x: Contained, y: Contained,
                                         nodes: set<Contained>)
    requires Lineage(nodes) && c in nodes && x in nodes && y in nodes
    requires forall t :: t in tops ==> t in nodes && t.depth == c.depth && t != c
    requires UnderAny(tops, x) && Under(c, y)
    ensures !Under(x, y)
  {
    var t :| t in tops && Under(t, x);
    if Under(x, y) {
      UnderChain(t, x, y, nodes);
      SubtreesDisjoint(t, c, y, nodes);
      assert false;
    }
  }

  lemma {:induction false} UnderOneMore(tops: seq<Contained>, c: Contained, m: Contained)
    ensures UnderAny(tops + [c], m) <==> UnderAny(tops, m) || Under(c, m)
  {
    assert forall x :: x in tops + [c] <==> x in tops || x == c;
  }

  /** The teardown of one more sibling may follow that of the earlier ones. */
  lemma JoinTeardowns(order: seq<Contained>, below: seq<Contained>, tops: seq<Contained>, c: Contained,
                      nodes: set<Contained>)
    requires Lineage(nodes) && c in nodes && (forall t :: t in tops ==> t in nodes && t.depth == c.depth && t != c)
    requires Teardown(order, tops, nodes) && Teardown(below, [c], nodes)
    ensures Teardown(order + below, tops + [c], nodes)
    ensures Ids(order + below) == Ids(order) + Ids(below)
    ensures IdSet(order + below) == IdSet(order) + IdSet(below)
    ensures Members(order + below) == Members(order) + Members(below)
  {
    var all := order + below;
    assert forall m :: m in all <==> m in order || m in below;
    forall m | m in nodes
      ensures m in all <==> UnderAny(tops + [c], m)
    {
      UnderOne(c, m);
      UnderOneMore(tops, c, m);
    }
    forall i, j | 0 <= i < |order| <= j < |all|
      ensures !Under(all[i], all[j])
    {
      assert all[i] in order && all[j] in below;
      UnderOne(c, all[j]);
      SiblingsApart(tops, c, all[i], all[j], nodes);
    }
  }

  lemma ExtendTeardown(node: Contained, i: nat, order: seq<Contained>, below: seq<Contained>, nodes: set<Contained>)
    requires Lineage(nodes) && ChildLinks(nodes) && node in nodes && i < |node.children|
    requires Teardown(order, node.children[..i], nodes) && Teardown(below, [node.children[i]], nodes)
    ensures Teardown(order + below, node.children[..i + 1], nodes)
    ensures Ids(order + below) == Ids(order) + Ids(below)
    ensures IdSet(order + below) == IdSet(order) + IdSet(below)
    ensures Members(order + below) == Members(order) + Members(below)
  {
    var tops, c := node.children[..i], node.children[i];
    assert node.children[..i + 1] == tops + [c];
    ChildIsDeeper(node, i, nodes);
    forall t | t in tops
      ensures t in nodes && t.depth == c.depth && t != c
    {
      var k :| 0 <= k < i && tops[k] == t;
      ChildIsDeeper(node, k, nodes);
      assert node.children[k] != node.children[i];
    }
    JoinTeardowns(order, below, tops, c, nodes);
  }

  lemma {:induction false} UnderChain(a: Contained, b: Contained, c: Contained, nodes: set<Contained>)
    requires Lineage(nodes) && a in nodes && b in nodes && c in nodes
    requires Under(a, b) && Under(b, c)
    ensures Under(a, c)
    decreases c.depth
  {
    if c != b {
      ParentUnder(b, c, nodes);
      UnderChain(a, b, c.parent, nodes);
    }
  }

  /** The parent goes last. */
  lemma CloseTeardown(order: seq<Contained>, node: Contained, nodes: set<Contained>)
    requires Lineage(nodes) && ChildLinks(nodes) && node in nodes && Teardown(order, node.children, nodes)
    ensures Teardown(order + [node], [node], nodes)
    ensures Ids(order) + [node.spiffeId] == Ids(order + [node])
    ensures IdSet(order + [node]) == IdSet(order) + {node.spiffeId}
    ensures Members(order + [node]) == Members(order) + {node}
  {
    assert forall m :: m in order + [node] <==> m in order || m == node;
    forall m | m in nodes
      ensures m in order + [node] <==> UnderAny([node], m)
    {
      UnderOne(node, m);
      UnderChildren(node, m, nodes);
    }
    forall m | m in order
      ensures !Under(m, node)
    {
      AboveNotUnder(node, m, nodes);
    }
  }

  lemma {:induction false} AboveNotUnder(node: Contained, m: Contained, nodes: set<Contained>)
    requires Lineage(nodes) && ChildLinks(nodes) && node in nodes && m in nodes && UnderAny(node.children, m)
    ensures !Under(m, node)
  {
    var k :| k in node.children && Under(k, m);
    ParentUnder(k, m, nodes);
    if Under(m, node) { ParentUnder(m, node, nodes); }
  }
}
