/**
 A reference account of the traversal that separates its ORDER from its
 EFFECTS: the depth-first pre-order sequence of visits (node plus the parent
 it is reached from), and the per-visit events. The main theorem says the
 traversal's trace is exactly the per-visit events laid end to end in
 pre-order; the others say the visits cover each tree exactly once.
 */
module PreOrder {
  import opened SceneGraph
  import opened GlTrace
  import opened Render

  /** A node reached by the traversal, with the parent it was reached from. */
  datatype Visit = Visit(node: Node, parent: Option<Node>)

  /** Depth-first pre-order: the node, then each child's visits in list order. */
  function Visits(n: Node, parent: Option<Node>): seq<Visit>
    decreases n
  {
    [Visit(n, parent)] + ChildVisits(n.children, n)
  }

  function ChildVisits(cs: seq<Node>, parent: Node): seq<Visit>
    decreases cs
  {
    if |cs| == 0 then [] else Visits(cs[0], Some(parent)) + ChildVisits(cs[1..], parent)
  }

  /** The visits of a frame: each root's visits, with no parent, in scene order. */
  function SceneVisits(scene: Scene): seq<Visit>
    decreases scene
  {
    if |scene| == 0 then [] else Visits(scene[0], None) + SceneVisits(scene[1..])
  }

  /** The events one visit emits. */
  function Step(v: Visit, dt: real, P: Matrix, V: Matrix): seq<Event> {
    UpdateStep(v.node, dt) + DrawStep(v.node, v.parent, P, V)
  }

  /** The events of a visit sequence, each visit's in turn. */
  function Expand(vs: seq<Visit>, dt: real, P: Matrix, V: Matrix): seq<Event>
    decreases |vs|
  {
    if |vs| == 0 then [] else Step(vs[0], dt, P, V) + Expand(vs[1..], dt, P, V)
  }

  /** The nodes of a visit sequence, in order. */
  function NodesOf(vs: seq<Visit>): seq<Node>
  {
    seq(|vs|, i requires 0 <= i < |vs| => vs[i].node)
  }

  /** The node ids of a visit sequence, in order. */
  function IdsOf(vs: seq<Visit>): seq<NodeId>
  {
    seq(|vs|, i requires 0 <= i < |vs| => vs[i].node.id)
  }

  lemma IdsOfAppend(a: seq<Visit>, b: seq<Visit>)
    ensures IdsOf(a + b) == IdsOf(a) + IdsOf(b)
  {
    var l, r := IdsOf(a + b), IdsOf(a) + IdsOf(b);
    assert |l| == |r|;
    forall i | 0 <= i < |l| ensures l[i] == r[i] {
      if i < |a| { assert (a + b)[i] == a[i]; } else { assert (a + b)[i] == b[i - |a|]; }
    }
  }

  lemma NodesOfAppend(a: seq<Visit>, b: seq<Visit>)
    ensures NodesOf(a + b) == NodesOf(a) + NodesOf(b)
  {
    var l, r := NodesOf(a + b), NodesOf(a) + NodesOf(b);
    assert |l| == |r|;
    forall i | 0 <= i < |l| ensures l[i] == r[i] {
      if i < |a| { assert (a + b)[i] == a[i]; } else { assert (a + b)[i] == b[i - |a|]; }
    }
  }

  lemma {:induction false} ExpandAppend(a: seq<Visit>, b: seq<Visit>, dt: real, P: Matrix, V: Matrix)
    ensures Expand(a + b, dt, P, V) == Expand(a, dt, P, V) + Expand(b, dt, P, V)
    decreases |a|
  {
    if |a| == 0 {
      assert a + b == b;
    } else {
      assert (a + b)[1..] == a[1..] + b;
      ExpandAppend(a[1..], b, dt, P, V);
    }
  }

  /** The trace of `drawGraph` is the per-visit events of its pre-order visits. */
  lemma {:induction false} GraphIsExpandedVisits(n: Node, parent: Option<Node>, dt: real, P: Matrix, V: Matrix)
    ensures DrawGraph(n, parent, dt, P, V) == Expand(Visits(n, parent), dt, P, V)
    decreases n
  {
    ChildrenAreExpandedVisits(n.children, n, dt, P, V);
    var rest := ChildVisits(n.children, n);
    assert ([Visit(n, parent)] + rest)[1..] == rest;
  }

  lemma {:induction false} ChildrenAreExpandedVisits(cs: seq<Node>, parent: Node, dt: real, P: Matrix, V: Matrix)
    ensures DrawChildren(cs, parent, dt, P, V) == Expand(ChildVisits(cs, parent), dt, P, V)
    decreases cs
  {
    if |cs| > 0 {
      GraphIsExpandedVisits(cs[0], Some(parent), dt, P, V);
      ChildrenAreExpandedVisits(cs[1..], parent, dt, P, V);
      ExpandAppend(Visits(cs[0], Some(parent)), ChildVisits(cs[1..], parent), dt, P, V);
    }
  }

  /** The node events of a frame are the per-visit events of the scene's pre-order visits. */
  lemma {:induction false} RootsAreExpandedVisits(scene: Scene, dt: real, P: Matrix, V: Matrix)
    ensures DrawRoots(scene, dt, P, V) == Expand(SceneVisits(scene), dt, P, V)
    decreases scene
  {
    if |scene| > 0 {
      GraphIsExpandedVisits(scene[0], None, dt, P, V);
      RootsAreExpandedVisits(scene[1..], dt, P, V);
      ExpandAppend(Visits(scene[0], None), SceneVisits(scene[1..]), dt, P, V);
    }
  }

  /** The visits of a tree reach exactly the nodes it contains. */
  lemma {:induction false} VisitedIffContained(n: Node, parent: Option<Node>, m: Node)
    ensures m in NodesOf(Visits(n, parent)) <==> Contains(n, m)
    decreases n
  {
    ChildVisitedIffContained(n.children, n, m);
    var vs := Visits(n, parent);
    var rest := ChildVisits(n.children, n);
    NodesOfAppend([Visit(n, parent)], rest);
    assert NodesOf(vs) == [n] + NodesOf(rest);
    assert Contains(n, m) <==> n == m || exists k :: 0 <= k < |n.children| && Contains(n.children[k], m);
  }

  lemma {:induction false} ChildVisitedIffContained(cs: seq<Node>, parent: Node, m: Node)
    ensures m in NodesOf(ChildVisits(cs, parent)) <==> exists k :: 0 <= k < |cs| && Contains(cs[k], m)
    decreases cs
  {
    if |cs| > 0 {
      VisitedIffContained(cs[0], Some(parent), m);
      ChildVisitedIffContained(cs[1..], parent, m);
      var a := Visits(cs[0], Some(parent));
      var b := ChildVisits(cs[1..], parent);
      NodesOfAppend(a, b);
      if exists k :: 0 <= k < |cs| && Contains(cs[k], m) {
        var k :| 0 <= k < |cs| && Contains(cs[k], m);
        if k > 0 {
          assert Contains(cs[1..][k - 1], m);
        }
      }
      if exists k :: 0 <= k < |cs[1..]| && Contains(cs[1..][k], m) {
        var k :| 0 <= k < |cs[1..]| && Contains(cs[1..][k], m);
        assert Contains(cs[k + 1], m);
      }
    }
  }

  /** Every node of a tree is visited exactly as often as its id occurs in the tree. */
  lemma {:induction false} VisitIdsAreTreeIds(n: Node, parent: Option<Node>)
    ensures multiset(IdsOf(Visits(n, parent))) == TreeIds(n)
    decreases n
  {
    ChildVisitIdsAreForestIds(n.children, n);
    var rest := ChildVisits(n.children, n);
    IdsOfAppend([Visit(n, parent)], rest);
  }

  lemma {:induction false} ChildVisitIdsAreForestIds(cs: seq<Node>, parent: Node)
    ensures multiset(IdsOf(ChildVisits(cs, parent))) == ForestIds(cs)
    decreases cs
  {
    if |cs| > 0 {
      VisitIdsAreTreeIds(cs[0], Some(parent));
      ChildVisitIdsAreForestIds(cs[1..], parent);
      var a := Visits(cs[0], Some(parent));
      var b := ChildVisits(cs[1..], parent);
      IdsOfAppend(a, b);
    }
  }

  /**
   Each node of a scene is visited once when ids are unique: the visit ids
   are the scene's ids, each occurring at most once.
   */
  lemma {:induction false} SceneVisitedOnce(scene: Scene)
    requires UniqueIds(scene)
    ensures multiset(IdsOf(SceneVisits(scene))) == ForestIds(scene)
    ensures forall id :: id in ForestIds(scene) ==> multiset(IdsOf(SceneVisits(scene)))[id] == 1
  {
    SceneVisitIds(scene);
  }

  lemma {:induction false} SceneVisitIds(scene: Scene)
    ensures multiset(IdsOf(SceneVisits(scene))) == ForestIds(scene)
    decreases scene
  {
    if |scene| > 0 {
      VisitIdsAreTreeIds(scene[0], None);
      SceneVisitIds(scene[1..]);
      var a := Visits(scene[0], None);
      var b := SceneVisits(scene[1..]);
      IdsOfAppend(a, b);
    }
  }
}
