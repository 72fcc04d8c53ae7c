/** How a child comes to stand above its parent. */
module Ranks {
  import opened Autonomy
  import opened Containment

  /** Five good outcomes in a row take a newborn out of SHADOW. */
  method Graduate(m: ContainmentManager, n: Contained)
    requires m.Valid() && n in m.nodes && n.parent != null && n.parent != n && n.parent.level > SHADOW
    requires n.CurrentStanding() == Newborn
    modifies n`level, n`streak, n`good, n`demotions, n`held
    ensures m.Valid() && n.level == CONTAINED
  {
    for i := 0 to PROMOTE_AFTER
      invariant m.Valid() && n.parent.level > SHADOW
      invariant n.CurrentStanding() == if i < PROMOTE_AFTER then Standing(SHADOW, i, i, 0)
                else Standing(CONTAINED, 0, i, 0)
    {
      m.RecordOutcome(n, true, false);
    }
  }

  method SpawnGraduate(m: ContainmentManager, parent: Contained) returns (c: Contained)
    requires m.Valid() && parent in m.nodes && parent.alive && parent.level > SHADOW
    requires |parent.children| < Profile(parent.level).maxChildren
    modifies m`nodes, parent`children, m.runtime
    ensures m.Valid() && parent in m.nodes && c in m.nodes && c != parent && c.parent == parent && c.level == CONTAINED
  {
    var spawned := m.Spawn(parent, "child");
    c := spawned.value;
    Graduate(m, c);
  }

  /** A parent's demotion does not reach its children: a child that has graduated stands above a parent
      that then breaches the floor. */
  method OutrankParent(m: ContainmentManager, parent: Contained) returns (c: Contained)
    requires m.Valid() && parent in m.nodes && parent.alive && parent.level > SHADOW
    requires |parent.children| < Profile(parent.level).maxChildren
    modifies m`nodes, parent, m.runtime
    ensures m.Valid() && c in m.nodes && c.parent == parent && c.level > parent.level
    ensures !Ranked(m.nodes)
  {
    c := SpawnGraduate(m, parent);
    m.RecordOutcome(parent, false, true);
  }
}
