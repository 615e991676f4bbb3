/**
 Properties of one frame's trace: program blocks, update-before-subtree,
 every node reached whatever its ancestors' programs, exactly-once updates,
 and draw order as depth-first pre-order over the scene.
 */
module FrameProperties {
  import opened SceneGraph
  import opened GlTrace
  import opened Render
  import opened PreOrder

  /** `s` occurs in `t` as the contiguous slice starting at `i`. */
  ghost predicate Segment(t: seq<Event>, s: seq<Event>, i: nat) {
    i + |s| <= |t| && t[i..i + |s|] == s
  }

  lemma SegmentOfSelf(t: seq<Event>)
    ensures Segment(t, t, 0)
  {
    assert t[0..|t|] == t;
  }

  lemma SegmentInLeft(a: seq<Event>, b: seq<Event>, s: seq<Event>, i: nat)
    requires Segment(a, s, i)
    ensures Segment(a + b, s, i)
  {
    assert (a + b)[i..i + |s|] == a[i..i + |s|];
  }

  lemma SegmentInRight(a: seq<Event>, b: seq<Event>, s: seq<Event>, i: nat)
    requires Segment(b, s, i)
    ensures Segment(a + b, s, |a| + i)
  {
    assert (a + b)[|a| + i..|a| + i + |s|] == b[i..i + |s|];
  }

  lemma SegmentTrans(t: seq<Event>, u: seq<Event>, s: seq<Event>, i: nat, j: nat)
    requires Segment(t, u, i) && Segment(u, s, j)
    ensures Segment(t, s, i + j)
  {
    forall k | 0 <= k < |s| ensures t[i + j + k] == s[k] {
      assert u[j + k] == s[k];
      assert t[i + (j + k)] == u[j + k];
    }
    assert t[i + j..i + j + |s|] == s;
  }

  /** The traversal of the `k`-th child is a contiguous part of the children's traversal. */
  lemma {:induction false} ChildSegment(cs: seq<Node>, parent: Node, k: nat, dt: real, P: Matrix, V: Matrix)
    returns (off: nat)
    requires k < |cs|
    ensures Segment(DrawChildren(cs, parent, dt, P, V), DrawGraph(cs[k], Some(parent), dt, P, V), off)
    decreases cs
  {
    var first := DrawGraph(cs[0], Some(parent), dt, P, V);
    var rest := DrawChildren(cs[1..], parent, dt, P, V);
    if k == 0 {
      SegmentOfSelf(first);
      SegmentInLeft(first, rest, first, 0);
      off := 0;
    } else {
      var o := ChildSegment(cs[1..], parent, k - 1, dt, P, V);
      assert cs[1..][k - 1] == cs[k];
      SegmentInRight(first, rest, DrawGraph(cs[k], Some(parent), dt, P, V), o);
      off := |first| + o;
    }
  }

  /** The traversal of the `k`-th root is a contiguous part of the roots' traversal. */
  lemma {:induction false} RootSegment(roots: seq<Node>, k: nat, dt: real, P: Matrix, V: Matrix)
    returns (off: nat)
    requires k < |roots|
    ensures Segment(DrawRoots(roots, dt, P, V), DrawGraph(roots[k], None, dt, P, V), off)
    decreases roots
  {
    var first := DrawGraph(roots[0], None, dt, P, V);
    var rest := DrawRoots(roots[1..], dt, P, V);
    if k == 0 {
      SegmentOfSelf(first);
      SegmentInLeft(first, rest, first, 0);
      off := 0;
    } else {
      var o := RootSegment(roots[1..], k - 1, dt, P, V);
      assert roots[1..][k - 1] == roots[k];
      SegmentInRight(first, rest, DrawGraph(roots[k], None, dt, P, V), o);
      off := |first| + o;
    }
  }

  /** A block inside the traversal of the `k`-th child is a block of its parent's traversal. */
  lemma ChildBlockInParent(n: Node, parent: Option<Node>, k: nat, s: seq<Event>, j: nat,
                           dt: real, P: Matrix, V: Matrix)
    returns (i: nat)
    requires k < |n.children|
    requires Segment(DrawGraph(n.children[k], Some(n), dt, P, V), s, j)
    ensures Segment(DrawGraph(n, parent, dt, P, V), s, i)
  {
    var off := ChildSegment(n.children, n, k, dt, P, V);
    var kids := DrawChildren(n.children, n, dt, P, V);
    var own := UpdateStep(n, dt) + DrawStep(n, parent, P, V);
    SegmentTrans(kids, DrawGraph(n.children[k], Some(n), dt, P, V), s, off, j);
    SegmentInRight(own, kids, s, off + j);
    i := |own| + off + j;
  }

  /**
   Every node below `n` is traversed as one contiguous block of `n`'s trace,
   and it is reached from its direct parent (or is `n` itself, under `parent`).
   */
  lemma {:induction false} SubtreeSegment(n: Node, parent: Option<Node>, m: Node, dt: real, P: Matrix, V: Matrix)
    returns (i: nat, mp: Option<Node>)
    requires Contains(n, m)
    ensures Segment(DrawGraph(n, parent, dt, P, V), DrawGraph(m, mp, dt, P, V), i)
    ensures (m == n && mp == parent) || (mp.Some? && m in mp.value.children && Contains(n, mp.value))
    decreases n
  {
    if n == m {
      SegmentOfSelf(DrawGraph(n, parent, dt, P, V));
      i, mp := 0, parent;
    } else {
      var k :| 0 <= k < |n.children| && Contains(n.children[k], m);
      var j;
      j, mp := SubtreeSegment(n.children[k], Some(n), m, dt, P, V);
      i := ChildBlockInParent(n, parent, k, DrawGraph(m, mp, dt, P, V), j, dt, P, V);
      if mp != Some(n) || m != n.children[k] {
        ContainsThroughChild(n, k, mp.value);
      }
    }
  }

  /** Every node of the scene is traversed as one contiguous block of the roots' traversal. */
  lemma RootsSegment(scene: Scene, m: Node, dt: real, P: Matrix, V: Matrix)
    returns (i: nat, mp: Option<Node>)
    requires InScene(scene, m)
    ensures (mp == None && m in scene) || (mp.Some? && m in mp.value.children && InScene(scene, mp.value))
    ensures Segment(DrawRoots(scene, dt, P, V), DrawGraph(m, mp, dt, P, V), i)
  {
    var k :| 0 <= k < |scene| && Contains(scene[k], m);
    var j;
    j, mp := SubtreeSegment(scene[k], None, m, dt, P, V);
    var off := RootSegment(scene, k, dt, P, V);
    SegmentTrans(DrawRoots(scene, dt, P, V), DrawGraph(scene[k], None, dt, P, V), DrawGraph(m, mp, dt, P, V), off, j);
    i := off + j;
  }

  /**
   Every node of the scene is traversed as one contiguous block of the frame,
   after the viewport and the clear, reached from its direct parent — or with
   no parent when it is a root.
   */
  lemma FrameSegment(scene: Scene, m: Node, dt: real, width: nat, height: nat, P: Matrix, V: Matrix)
    returns (i: nat, mp: Option<Node>)
    requires InScene(scene, m)
    ensures (mp == None && m in scene) || (mp.Some? && m in mp.value.children && InScene(scene, mp.value))
    ensures 2 <= i && Segment(Frame(scene, dt, width, height, P, V), DrawGraph(m, mp, dt, P, V), i)
  {
    var j;
    j, mp := RootsSegment(scene, m, dt, P, V);
    SegmentInRight([Viewport(0, 0, width, height), Clear(FrameClearMask)], DrawRoots(scene, dt, P, V),
                   DrawGraph(m, mp, dt, P, V), j);
    i := 2 + j;
  }

  /**
   The viewport and the clear are set once per frame, not per node, and
   before any node event.
   */
  lemma ViewportAndClearOnce(scene: Scene, dt: real, width: nat, height: nat, P: Matrix, V: Matrix)
    ensures var t := Frame(scene, dt, width, height, P, V);
      && multiset(t)[Viewport(0, 0, width, height)] == 1
      && multiset(t)[Clear(FrameClearMask)] == 1
      && forall i :: 0 <= i < |t| && (t[i].Viewport? || t[i].Clear?) ==> i < 2
  {
  }

  /**
   A node's update comes first in its block: before its own program binding,
   projection upload and draw, and before every event of its children. The
   block is reached from the node's direct parent, or from none for a root.
   */
  lemma UpdatePrecedesSubtree(scene: Scene, m: Node, dt: real, width: nat, height: nat, P: Matrix, V: Matrix)
    returns (i: nat, j: nat, mp: Option<Node>)
    requires InScene(scene, m) && m.update.Some?
    ensures (mp == None && m in scene) || (mp.Some? && m in mp.value.children && InScene(scene, mp.value))
    ensures var t := Frame(scene, dt, width, height, P, V);
      && 2 <= i < j <= |t|
      && t[i] == Update(m, dt)
      && t[i..j] == DrawGraph(m, mp, dt, P, V)
      && (m.program.Some? ==>
            && i + 4 <= j
            && t[i + 1] == UseProgram(m.program.value)
            && t[i + 2] == UploadP(m.program.value, P)
            && t[i + 3] == Draw(m, m.program.value, mp, V)
            && t[i + 4..j] == DrawChildren(m.children, m, dt, P, V))
      && (m.program.None? ==> t[i + 1..j] == DrawChildren(m.children, m, dt, P, V))
  {
    i, mp := FrameSegment(scene, m, dt, width, height, P, V);
    j := BlockShape(Frame(scene, dt, width, height, P, V), i, m, mp, dt, P, V);
  }

  /** The layout of a node's block, wherever it sits in a trace. */
  lemma BlockShape(t: seq<Event>, i: nat, m: Node, mp: Option<Node>, dt: real, P: Matrix, V: Matrix)
    returns (j: nat)
    requires Segment(t, DrawGraph(m, mp, dt, P, V), i)
    requires m.update.Some?
    ensures i < j <= |t|
    ensures t[i] == Update(m, dt)
    ensures t[i..j] == DrawGraph(m, mp, dt, P, V)
    ensures m.program.Some? ==>
              && i + 4 <= j
              && t[i + 1] == UseProgram(m.program.value)
              && t[i + 2] == UploadP(m.program.value, P)
              && t[i + 3] == Draw(m, m.program.value, mp, V)
              && t[i + 4..j] == DrawChildren(m.children, m, dt, P, V)
    ensures m.program.None? ==> t[i + 1..j] == DrawChildren(m.children, m, dt, P, V)
  {
    var d := DrawStep(m, mp, P, V);
    var kids := DrawChildren(m.children, m, dt, P, V);
    j := i + |DrawGraph(m, mp, dt, P, V)|;
    SliceParts(t, i, [Update(m, dt)], d, kids);
    if m.program.Some? {
      assert t[i + 1..i + 4] == d;
      assert t[i + 1] == d[0] && t[i + 2] == d[1] && t[i + 3] == d[2];
    }
  }

  /** The three consecutive parts of a slice `x + y + z` of `t` are slices of `t` themselves. */
  lemma SliceParts(t: seq<Event>, i: nat, x: seq<Event>, y: seq<Event>, z: seq<Event>)
    requires Segment(t, x + y + z, i)
    ensures t[i..i + |x|] == x
    ensures t[i + |x|..i + |x| + |y|] == y
    ensures t[i + |x| + |y|..i + |x| + |y| + |z|] == z
  {
    var s := x + y + z;
    assert forall k :: 0 <= k < |s| ==> t[i + k] == s[k] by {
      forall k | 0 <= k < |s| ensures t[i + k] == s[k] {
        assert t[i..i + |s|][k] == s[k];
      }
    }
    assert forall k :: 0 <= k < |x| ==> s[k] == x[k];
    assert forall k :: 0 <= k < |y| ==> s[|x| + k] == y[k];
    assert forall k :: 0 <= k < |z| ==> s[|x| + |y| + k] == z[k];
  }

  /** A node's own update and draw lie inside any block holding its traversal. */
  lemma OwnEventsInBlock(t: seq<Event>, m: Node, mp: Option<Node>, i: nat, dt: real, P: Matrix, V: Matrix)
    requires Segment(t, DrawGraph(m, mp, dt, P, V), i)
    ensures m.update.Some? ==> Update(m, dt) in t
    ensures m.program.Some? ==> Draw(m, m.program.value, mp, V) in t
  {
    var s := DrawGraph(m, mp, dt, P, V);
    var u := UpdateStep(m, dt);
    assert t[i..i + |s|] == s;
    if m.update.Some? {
      assert t[i] == s[0];
    }
    if m.program.Some? {
      assert s[|u| + 2] == Draw(m, m.program.value, mp, V);
      assert t[i + |u| + 2] == s[|u| + 2];
    }
  }

  /**
   Every node of the scene is reached, whatever programs its ancestors have:
   its hook is called if it has one and it is drawn under its direct parent
   (none for a root) if it has a program.
   */
  lemma EveryNodeReached(scene: Scene, m: Node, dt: real, width: nat, height: nat, P: Matrix, V: Matrix)
    returns (mp: Option<Node>)
    requires InScene(scene, m)
    ensures var t := Frame(scene, dt, width, height, P, V);
      && (m.update.Some? ==> Update(m, dt) in t)
      && (m.program.Some? ==> Draw(m, m.program.value, mp, V) in t)
    ensures (mp == None && m in scene) || (mp.Some? && m in mp.value.children && InScene(scene, mp.value))
  {
    var i: nat;
    i, mp := FrameSegment(scene, m, dt, width, height, P, V);
    OwnEventsInBlock(Frame(scene, dt, width, height, P, V), m, mp, i, dt, P, V);
  }

  /**
   Children are traversed whether or not their parent has a program: each
   child's update and draw appear in the parent's trace, drawn under the
   parent, and a parent without a program contributes exactly its children's
   draws.
   */
  lemma ChildrenTraversedRegardless(n: Node, parent: Option<Node>, dt: real, P: Matrix, V: Matrix)
    ensures forall k :: 0 <= k < |n.children| && n.children[k].update.Some? ==>
              Update(n.children[k], dt) in DrawGraph(n, parent, dt, P, V)
    ensures forall k :: 0 <= k < |n.children| && n.children[k].program.Some? ==>
              Draw(n.children[k], n.children[k].program.value, Some(n), V) in DrawGraph(n, parent, dt, P, V)
    ensures n.program.None? ==>
              Draws(DrawGraph(n, parent, dt, P, V)) == Draws(DrawChildren(n.children, n, dt, P, V))
  {
    var t := DrawGraph(n, parent, dt, P, V);
    forall k | 0 <= k < |n.children|
      ensures n.children[k].update.Some? ==> Update(n.children[k], dt) in t
      ensures n.children[k].program.Some? ==> Draw(n.children[k], n.children[k].program.value, Some(n), V) in t
    {
      var s := DrawGraph(n.children[k], Some(n), dt, P, V);
      SegmentOfSelf(s);
      var i := ChildBlockInParent(n, parent, k, s, 0, dt, P, V);
      OwnEventsInBlock(t, n.children[k], Some(n), i, dt, P, V);
    }
    if n.program.None? {
      var own := UpdateStep(n, dt) + DrawStep(n, parent, P, V);
      DrawsAppend(own, DrawChildren(n.children, n, dt, P, V));
      DrawsAppend(UpdateStep(n, dt), DrawStep(n, parent, P, V));
      UpdateStepShape(n, dt);
      DrawStepShape(n, parent, P, V);
    }
  }

  /** What a node's own update step contributes to the update ids and to the draws. */
  lemma UpdateStepShape(n: Node, dt: real)
    ensures UpdatedIds(UpdateStep(n, dt)) == (if n.update.Some? then [n.id] else [])
    ensures Draws(UpdateStep(n, dt)) == []
  {
    if n.update.Some? {
      assert UpdateStep(n, dt)[1..] == [];
    }
  }

  /** What a node's own draw step contributes to the update ids and to the draws. */
  lemma DrawStepShape(n: Node, parent: Option<Node>, P: Matrix, V: Matrix)
    ensures UpdatedIds(DrawStep(n, parent, P, V)) == []
    ensures Draws(DrawStep(n, parent, P, V))
            == (match n.program case Some(p) => [Draw(n, p, parent, V)] case None => [])
  {
    var d := DrawStep(n, parent, P, V);
    if n.program.Some? {
      assert d[1..][1..][1..] == [];
      assert UpdatedIds(d[1..][1..]) == [];
      assert Draws(d[1..][1..]) == [d[2]];
    }
  }

  /** The update ids a traversal emits are the updatable ids of the tree, counted alike. */
  lemma {:induction false} GraphUpdates(n: Node, parent: Option<Node>, dt: real, P: Matrix, V: Matrix)
    ensures multiset(UpdatedIds(DrawGraph(n, parent, dt, P, V))) == UpdatableIds(n)
    decreases n
  {
    var u := UpdateStep(n, dt);
    var d := DrawStep(n, parent, P, V);
    var kids := DrawChildren(n.children, n, dt, P, V);
    ChildUpdates(n.children, n, dt, P, V);
    UpdatedIdsAppend(u + d, kids);
    UpdatedIdsAppend(u, d);
    UpdateStepShape(n, dt);
    DrawStepShape(n, parent, P, V);
  }

  lemma {:induction false} ChildUpdates(cs: seq<Node>, parent: Node, dt: real, P: Matrix, V: Matrix)
    ensures multiset(UpdatedIds(DrawChildren(cs, parent, dt, P, V))) == UpdatableForestIds(cs)
    decreases cs
  {
    if |cs| > 0 {
      GraphUpdates(cs[0], Some(parent), dt, P, V);
      ChildUpdates(cs[1..], parent, dt, P, V);
      UpdatedIdsAppend(DrawGraph(cs[0], Some(parent), dt, P, V), DrawChildren(cs[1..], parent, dt, P, V));
    }
  }

  lemma {:induction false} RootUpdates(roots: seq<Node>, dt: real, P: Matrix, V: Matrix)
    ensures multiset(UpdatedIds(DrawRoots(roots, dt, P, V))) == UpdatableForestIds(roots)
    decreases roots
  {
    if |roots| > 0 {
      GraphUpdates(roots[0], None, dt, P, V);
      RootUpdates(roots[1..], dt, P, V);
      UpdatedIdsAppend(DrawGraph(roots[0], None, dt, P, V), DrawRoots(roots[1..], dt, P, V));
    }
  }

  /**
   Each frame updates every node with a hook exactly once when node ids are
   unique, and no id is updated twice.
   */
  lemma UpdatedExactlyOnce(scene: Scene, m: Node, dt: real, width: nat, height: nat, P: Matrix, V: Matrix)
    requires UniqueIds(scene)
    ensures var ups := multiset(UpdatedIds(Frame(scene, dt, width, height, P, V)));
      && (forall id :: id in ups ==> ups[id] == 1)
      && (InScene(scene, m) && m.update.Some? ==> ups[m.id] == 1)
  {
    var head := [Viewport(0, 0, width, height), Clear(FrameClearMask)];
    var roots := DrawRoots(scene, dt, P, V);
    UpdatedIdsAppend(head, roots);
    assert UpdatedIds(head) == [] by {
      assert head[1..][1..] == [];
    }
    RootUpdates(scene, dt, P, V);
    UpdatableSubForest(scene);
    if InScene(scene, m) && m.update.Some? {
      var k :| 0 <= k < |scene| && Contains(scene[k], m);
      UpdatableContained(scene[k], m);
      UpdatableInForest(scene, k, m.id);
    }
  }

  lemma StepBlocks(v: Visit, dt: real, P: Matrix, V: Matrix)
    ensures ProgramBlocks(Step(v, dt, P, V), P)
  {
    var u := UpdateStep(v.node, dt);
    var d := DrawStep(v.node, v.parent, P, V);
    assert ProgramBlocks(u, P);
    assert ProgramBlocks(d, P);
    ProgramBlocksAppend(u, d, P);
  }

  lemma {:induction false} ExpandBlocks(vs: seq<Visit>, dt: real, P: Matrix, V: Matrix)
    ensures ProgramBlocks(Expand(vs, dt, P, V), P)
    decreases |vs|
  {
    if |vs| > 0 {
      StepBlocks(vs[0], dt, P, V);
      ExpandBlocks(vs[1..], dt, P, V);
      ProgramBlocksAppend(Step(vs[0], dt, P, V), Expand(vs[1..], dt, P, V), P);
    }
  }

  /**
   Within a frame, drawing a node is always the three calls `useProgram(p)`,
   the projection upload to `p`, and the node's draw with program `p`, in that
   order, back to back, and never any one of them alone.
   */
  lemma FrameBlocks(scene: Scene, dt: real, width: nat, height: nat, P: Matrix, V: Matrix)
    ensures ProgramBlocks(Frame(scene, dt, width, height, P, V), P)
  {
    RootsAreExpandedVisits(scene, dt, P, V);
    ExpandBlocks(SceneVisits(scene), dt, P, V);
    ProgramBlocksAppend([Viewport(0, 0, width, height), Clear(FrameClearMask)], DrawRoots(scene, dt, P, V), P);
  }

  /** The draw each visit stands for: one for a node with a program, none otherwise. */
  function DrawsOf(vs: seq<Visit>, V: Matrix): seq<Event>
    decreases |vs|
  {
    if |vs| == 0 then []
    else
      (match vs[0].node.program
       case Some(p) => [Draw(vs[0].node, p, vs[0].parent, V)]
       case None => [])
      + DrawsOf(vs[1..], V)
  }

  lemma {:induction false} ExpandDraws(vs: seq<Visit>, dt: real, P: Matrix, V: Matrix)
    ensures Draws(Expand(vs, dt, P, V)) == DrawsOf(vs, V)
    decreases |vs|
  {
    if |vs| > 0 {
      var v := vs[0];
      var u := UpdateStep(v.node, dt);
      var d := DrawStep(v.node, v.parent, P, V);
      ExpandDraws(vs[1..], dt, P, V);
      DrawsAppend(u + d, Expand(vs[1..], dt, P, V));
      DrawsAppend(u, d);
      UpdateStepShape(v.node, dt);
      DrawStepShape(v.node, v.parent, P, V);
    }
  }

  /**
   The frame draws in depth-first pre-order: its draws are exactly those of
   the scene's pre-order visits with a program, each under its visit's parent.
   */
  lemma DrawOrderIsPreOrder(scene: Scene, dt: real, width: nat, height: nat, P: Matrix, V: Matrix)
    ensures Draws(Frame(scene, dt, width, height, P, V)) == DrawsOf(SceneVisits(scene), V)
  {
    var head := [Viewport(0, 0, width, height), Clear(FrameClearMask)];
    RootsAreExpandedVisits(scene, dt, P, V);
    ExpandDraws(SceneVisits(scene), dt, P, V);
    DrawsAppend(head, DrawRoots(scene, dt, P, V));
    assert Draws(head) == [] by {
      assert head[1..][1..] == [];
    }
  }

  /** Roots A and B, A with child C, all with a program: the frame draws A, C, B. */
  lemma DrawOrderExample(dt: real, width: nat, height: nat, P: Matrix, V: Matrix)
    ensures var prog := Program(0);
      var c := Node(3, None, Some(prog), []);
      var a := Node(1, None, Some(prog), [c]);
      var b := Node(2, None, Some(prog), []);
      Draws(Frame([a, b], dt, width, height, P, V))
        == [Draw(a, prog, None, V), Draw(c, prog, Some(a), V), Draw(b, prog, None, V)]
  {
    var prog := Program(0);
    var c := Node(3, None, Some(prog), []);
    var a := Node(1, None, Some(prog), [c]);
    var b := Node(2, None, Some(prog), []);
    DrawOrderIsPreOrder([a, b], dt, width, height, P, V);
    assert [a, b][1..] == [b];
    assert [c][1..] == [];
    assert ChildVisits([], c) == [];
    assert Visits(c, Some(a)) == [Visit(c, Some(a))];
    assert ChildVisits([c], a) == [Visit(c, Some(a))];
    assert Visits(a, None) == [Visit(a, None), Visit(c, Some(a))];
    assert Visits(b, None) == [Visit(b, None)];
    assert SceneVisits([b]) == [Visit(b, None)];
    var vs := [Visit(a, None), Visit(c, Some(a)), Visit(b, None)];
    assert SceneVisits([a, b]) == vs;
    assert vs[1..] == [Visit(c, Some(a)), Visit(b, None)];
    assert vs[1..][1..] == [Visit(b, None)];
    assert vs[1..][1..][1..] == [];
    assert DrawsOf(vs[1..][1..], V) == [Draw(b, prog, None, V)];
    assert DrawsOf(vs[1..], V) == [Draw(c, prog, Some(a), V), Draw(b, prog, None, V)];
  }
}
