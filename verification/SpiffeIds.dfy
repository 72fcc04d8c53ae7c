/** The identifiers of a containment tree: unique, and nested exactly as the tree is. */
module SpiffeIds {
  import opened Text
  import opened Autonomy
  import opened Containment
  import opened Ranks

  /** Below the roots, no name holds a slash. */
  ghost predicate SlashFree(nodes: set<Contained>) {
    forall n :: n in nodes && n.parent != null ==> '/' !in n.name
  }

  /** Two nodes in the same place: siblings of one name, or roots of one identifier. */
  predicate Twins(a: Contained, b: Contained) {
    a != b && a.parent == b.parent && (if a.parent == null then a.spiffeId == b.spiffeId else a.name == b.name)
  }

  ghost predicate NoTwins(nodes: set<Contained>) {
    forall a, b {:trigger Twins(a, b)} :: a in nodes && b in nodes ==> !Twins(a, b)
  }

  ghost predicate Childless(nodes: set<Contained>, a: Contained) {
    forall c :: c in nodes ==> c.parent != a
  }

  /** Only nodes without children have twins. */
  ghost predicate TwinsChildless(nodes: set<Contained>) {
    forall a, b {:trigger Twins(a, b)} :: a in nodes && b in nodes && Twins(a, b) ==> Childless(nodes, a)
  }

  /** The identifier of p and a slash begin that of n. */
  predicate Extends(p: Contained, n: Contained) {
    p.spiffeId + ['/'] <= n.spiffeId
  }

  /** No root's identifier and a slash begin another root's. */
  ghost predicate RootsApart(nodes: set<Contained>) {
    forall a, b {:trigger Extends(a, b)} ::
      a in nodes && b in nodes && a.parent == null && b.parent == null ==> !Extends(a, b)
  }

  ghost predicate WellNamed(nodes: set<Contained>) {
    SlashFree(nodes) && RootsApart(nodes) && NoTwins(nodes)
  }

  lemma ChildExtends(n: Contained, nodes: set<Contained>)
    requires Lineage(nodes) && n in nodes && n.parent != null
    ensures n.spiffeId == n.parent.spiffeId + ['/'] + n.name && Extends(n.parent, n)
  {
    assert "/" == ['/'];
    assert n.spiffeId[..|n.parent.spiffeId| + 1] == n.parent.spiffeId + ['/'];
  }

  lemma ExtendsOn(a: Contained, b: Contained, c: Contained)
    requires Extends(a, b) && b.spiffeId <= c.spiffeId
    ensures Extends(a, c)
  {}

  /** Every node lies under a root, whose identifier its own extends. */
  lemma {:induction false} RootOf(n: Contained, nodes: set<Contained>) returns (root: Contained)
    requires Lineage(nodes) && n in nodes
    ensures root in nodes && root.parent == null && (n == root || (n.parent != null && Extends(root, n)))
    decreases n.depth
  {
    if n.parent == null {
      root := n;
    } else {
      root := RootOf(n.parent, nodes);
      ChildExtends(n, nodes);
      if n.parent != root { ExtendsOn(root, n.parent, n); }
    }
  }

  /** Nodes of one identifier are in the same place. */
  lemma {:induction false} SameIdTwins(a: Contained, b: Contained, nodes: set<Contained>)
    requires Lineage(nodes) && SlashFree(nodes) && RootsApart(nodes) && TwinsChildless(nodes)
    requires a in nodes && b in nodes && a.spiffeId == b.spiffeId
    ensures a == b || Twins(a, b)
    decreases a.depth
  {
    if a.parent == null || b.parent == null {
      var r := RootOf(a, nodes);
      var t := RootOf(b, nodes);
      if a.parent != null { ExtendsOn(r, a, b); }
      if b.parent != null { ExtendsOn(t, b, a); }
    } else {
      ChildExtends(a, nodes);
      ChildExtends(b, nodes);
      AfterLast('/', a.parent.spiffeId, a.name, b.parent.spiffeId, b.name);
      SameIdTwins(a.parent, b.parent, nodes);
    }
  }

  /** In a well-named tree, identifiers are injective. */
  lemma IdDeterminesNode(a: Contained, b: Contained, nodes: set<Contained>)
    requires Lineage(nodes) && WellNamed(nodes) && a in nodes && b in nodes && a.spiffeId == b.spiffeId
    ensures a == b
  {
    SameIdTwins(a, b, nodes);
  }

  /** With slash-free names and roots apart, identifiers are distinct exactly when there are no twins. */
  lemma IdsAreDistinct(nodes: set<Contained>)
    requires Lineage(nodes) && SlashFree(nodes) && RootsApart(nodes)
    ensures DistinctIds(nodes) <==> NoTwins(nodes)
  {
    if NoTwins(nodes) {
      forall a, b | a in nodes && b in nodes && a.spiffeId == b.spiffeId
        ensures a == b
      {
        IdDeterminesNode(a, b, nodes);
      }
    } else {
      var a, b :| a in nodes && b in nodes && Twins(a, b);
      SameIdOfTwins(a, b, nodes);
    }
  }

  lemma SameIdOfTwins(a: Contained, b: Contained, nodes: set<Contained>)
    requires Lineage(nodes) && a in nodes && b in nodes && Twins(a, b)
    ensures a.spiffeId == b.spiffeId
  {
    if a.parent != null {
      ChildExtends(a, nodes);
      ChildExtends(b, nodes);
    }
  }

  /** The id of p and a slash begin the id of n exactly when n lies strictly below p. */
  ghost predicate Nested(p: Contained, n: Contained) {
    Extends(p, n) <==> p != n && Under(p, n)
  }

  ghost predicate AllNested(nodes: set<Contained>) {
    forall p, n {:trigger Nested(p, n)} :: p in nodes && n in nodes ==> Nested(p, n)
  }

  /** When twins are childless, an identity proves whose reach it is within. */
  lemma {:induction false} PrefixIffAncestor(p: Contained, n: Contained, nodes: set<Contained>)
    requires Lineage(nodes) && SlashFree(nodes) && RootsApart(nodes) && TwinsChildless(nodes)
    requires p in nodes && n in nodes
    ensures Nested(p, n)
    decreases n.depth
  {
    if n.parent == null {
      var r := RootOf(p, nodes);
      if Extends(p, n) && p != r { ExtendsOn(r, p, n); }
    } else {
      var up := n.parent;
      ChildExtends(n, nodes);
      PrefixIffAncestor(p, up, nodes);
      ParentUnder(p, p, nodes);
      if Extends(p, n) {
        SlashInsideParent(p.spiffeId, up.spiffeId, n.name);
        if |p.spiffeId| == |up.spiffeId| { SameIdTwins(up, p, nodes); }
      }
      if p != n && Under(p, n) && p != up { ExtendsOn(p, up, n); }
    }
  }

  /** A slash of id + "/" + name, with name slash-free, is at the end of id or inside it. */
  lemma SlashInsideParent(p: string, id: string, name: string)
    requires '/' !in name && p + ['/'] <= id + ['/'] + name
    ensures |p| <= |id| && p == id[..|p|] && (|p| < |id| ==> p + ['/'] <= id)
  {
    var s := id + ['/'] + name;
    assert (p + ['/'])[|p|] == '/' && s[|p|] == '/';
    assert forall k :: |id| < k < |s| ==> s[k] == name[k - |id| - 1];
    assert |p| <= |id|;
    assert p == s[..|p|] == id[..|p|];
    if |p| < |id| { assert p + ['/'] == id[..|p| + 1]; }
  }

  /** With slash-free names, identifiers are nested exactly as the tree is if and only if no root's
      identifier extends another's and only nodes without children have twins. */
  lemma NestedIffTwinsChildless(nodes: set<Contained>)
    requires Lineage(nodes) && SlashFree(nodes)
    ensures AllNested(nodes) <==> RootsApart(nodes) && TwinsChildless(nodes)
  {
    if RootsApart(nodes) && TwinsChildless(nodes) {
      forall p, n | p in nodes && n in nodes
        ensures Nested(p, n)
      {
        PrefixIffAncestor(p, n, nodes);
      }
    } else if !RootsApart(nodes) {
      var a, b :| a in nodes && b in nodes && a.parent == null && b.parent == null && Extends(a, b);
      assert |a.spiffeId| < |b.spiffeId| && !Nested(a, b);
    } else {
      var a, b :| a in nodes && b in nodes && Twins(a, b) && !Childless(nodes, a);
      var c :| c in nodes && c.parent == a;
      TwinClaimsChild(a, b, c, nodes);
    }
  }

  /** A node's twin has the identifier that its children's extend, and is not above them. */
  lemma TwinClaimsChild(a: Contained, b: Contained, c: Contained, nodes: set<Contained>)
    requires Lineage(nodes) && a in nodes && b in nodes && c in nodes && Twins(a, b) && c.parent == a
    ensures !Nested(b, c)
  {
    SameIdOfTwins(a, b, nodes);
    ChildExtends(c, nodes);
    if Under(b, c) && b != c {
      assert Under(b, a);
      ParentUnder(b, a, nodes);
      assert false;
    }
    assert b != c;
  }

  lemma {:induction false} AncestorsInside(p: Contained, n: Contained, nodes: set<Contained>)
    requires Lineage(nodes) && n in nodes && Under(p, n)
    ensures p in nodes
    decreases n.depth
  {
    if p != n { AncestorsInside(p, n.parent, nodes); }
  }

  /** Whatever the names: where identifiers are nested as the tree is, they still are with one more child
      exactly when its identifier extends only those of its parent and the nodes above that, and none
      extends it. */
  lemma NestedAfterSpawn(nodes: set<Contained>, c: Contained)
    requires Lineage(nodes) && AllNested(nodes) && c !in nodes && c.parent != null && c.parent in nodes
    requires Lineage(nodes + {c})
    ensures AllNested(nodes + {c}) <==>
            (forall n :: n in nodes ==> !Extends(c, n) && (Extends(n, c) ==> Under(n, c.parent)))
  {
    ChildExtends(c, nodes + {c});
    assert Nested(c, c);
    forall n | n in nodes
      ensures Nested(c, n) <==> !Extends(c, n)
      ensures Nested(n, c) <==> (Extends(n, c) ==> Under(n, c.parent))
    {
      if Under(c, n) { AncestorsInside(c, n, nodes); }
      if Under(n, c.parent) { ExtendedBelow(n, c, nodes); }
    }
  }

  lemma ExtendedBelow(n: Contained, c: Contained, nodes: set<Contained>)
    requires Lineage(nodes) && AllNested(nodes) && n in nodes && c.parent != null && c.parent in nodes
    requires Extends(c.parent, c) && Under(n, c.parent)
    ensures Extends(n, c)
  {
    if n != c.parent {
      assert Nested(n, c.parent);
      ExtendsOn(n, c.parent, c);
    }
  }

  /** No live node has a dead ancestor, and the runtime runs exactly the live spawned nodes when their
      identifiers are distinct, as in a well-named tree. */
  lemma {:induction false} RunningIsLive(m: ContainmentManager, n: Contained, p: Contained)
    requires m.Valid() && n in m.nodes && p in m.nodes
    ensures n.alive && Under(p, n) ==> p.alive
    ensures DistinctIds(m.nodes) || WellNamed(m.nodes) ==> m.runtime.running == LiveIds(m.nodes)
    decreases n.depth
  {
    if WellNamed(m.nodes) { IdsAreDistinct(m.nodes); }
    if n.alive && Under(p, n) && n != p { RunningIsLive(m, n.parent, p); }
  }

  method SpawnTwo(m: ContainmentManager, parent: Contained, name: string, other: string)
    returns (first: Contained, second: Contained)
    requires m.Valid() && parent in m.nodes && parent.alive
    requires |parent.children| + 2 <= Profile(parent.level).maxChildren
    modifies m`nodes, parent`children, m.runtime
    ensures m.Valid() && first in m.nodes && second in m.nodes && first != second && fresh(second)
    ensures first.parent == parent == second.parent && first.name == name && second.name == other
    ensures first.spiffeId == parent.spiffeId + "/" + name && second.spiffeId == parent.spiffeId + "/" + other
    ensures second.alive && second.children == [] && second.CurrentStanding() == Newborn
  {
    var c := m.Spawn(parent, name);
    first := c.value;
    assert parent.alive && |parent.children| < Profile(parent.level).maxChildren;
    c := m.Spawn(parent, other);
    second := c.value;
  }

  /** Nothing keeps siblings from being given the same name, and so the same identifier. */
  method SpawnTwins(m: ContainmentManager, parent: Contained, name: string)
    returns (first: Contained, second: Contained)
    requires m.Valid() && parent in m.nodes && parent.alive
    requires |parent.children| + 2 <= Profile(parent.level).maxChildren
    modifies m`nodes, parent`children, m.runtime
    ensures m.Valid() && first in m.nodes && second in m.nodes && first != second
    ensures first.parent == parent == second.parent && first.spiffeId == second.spiffeId && second.alive
  {
    first, second := SpawnTwo(m, parent, name, name);
  }

  method SpawnGrandchild(m: ContainmentManager, n: Contained) returns (child: Contained)
    requires m.Valid() && n in m.nodes && n.parent != null && n.parent != n && n.parent.level > SHADOW
    requires n.CurrentStanding() == Newborn && n.alive && n.children == []
    modifies n, m`nodes, m.runtime
    ensures m.Valid() && fresh(child) && m.nodes == old(m.nodes) + {child}
    ensures child.parent == n && child.name == "b" && child.spiffeId == n.spiffeId + "/" + "b"
  {
    Graduate(m, n);
    var c := m.Spawn(n, "b");
    child := c.value;
  }

  /** Nor does anything keep slashes out of names: a child "a/b" of a node has the identifier of the
      child "b" of its child "a", and so claims to lie within the reach of "a". */
  method SpawnSlashed(m: ContainmentManager, parent: Contained) returns (first: Contained, second: Contained)
    requires m.Valid() && parent in m.nodes && parent.alive && parent.level > SHADOW
    requires |parent.children| + 2 <= Profile(parent.level).maxChildren
    modifies m`nodes, parent`children, m.runtime
    ensures m.Valid() && first in m.nodes && second in m.nodes && first != second
    ensures first.parent == parent && first.name == "a/b"
    ensures second.parent != null && second.parent.parent == parent && second.parent.name == "a" && second.name == "b"
    ensures first.spiffeId == second.spiffeId && !Nested(second.parent, first)
  {
    var a;
    first, a := SpawnTwo(m, parent, "a/b", "a");
    second := SpawnGrandchild(m, a);
    SlashMoves(parent.spiffeId);
    ChildExtends(second, m.nodes);
    NotUnderSibling(a, first, m.nodes);
  }

  lemma SlashMoves(id: string)
    ensures id + "/" + "a/b" == id + "/" + "a" + "/" + "b"
  {
    assert "a/b" == "a" + "/" + "b";
  }

  /** Tearing one twin down then loses track of the other, which lives on unlisted. */
  method ReapTwin(m: ContainmentManager, first: Contained, second: Contained)
    requires m.Valid() && first in m.nodes && second in m.nodes && first != second && second.alive
    requires first.parent != null && first.parent == second.parent && first.spiffeId == second.spiffeId
    modifies m.nodes`alive, m.runtime
    ensures m.Valid() && second.alive && second.spiffeId !in m.runtime.running
  {
    NotUnderSibling(first, second, m.nodes);
    ghost var order := m.Reap(first);
    UnderOne(first, first);
    UnderOne(first, second);
    assert Under(first, first);
    assert first in order && first in Members(order) && first.spiffeId in IdSet(order);
  }

  lemma {:induction false} NotUnderSibling(a: Contained, b: Contained, nodes: set<Contained>)
    requires Lineage(nodes) && a in nodes && b in nodes && a != b && a.depth == b.depth
    ensures !Under(a, b)
  {
    if Under(a, b) { ParentUnder(a, b, nodes); }
  }
}
