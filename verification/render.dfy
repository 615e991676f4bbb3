/**
 The per-frame traversal: `drawGraph` and the frame driver `window.loop`,
 as pure functions from the scene and the frame's opaque inputs to the event
 trace of the calls they make.
 */
module Render {
  import opened SceneGraph
  import opened GlTrace

  /** The events a node's own update step emits: its hook, called with `dt`, if it has one. */
  function UpdateStep(node: Node, dt: real): seq<Event> {
    if node.update.Some? then [Update(node, dt)] else []
  }

  /** The events a node's own draw step emits: bind, upload `P`, draw — only when it has a program. */
  function DrawStep(node: Node, parent: Option<Node>, P: Matrix, V: Matrix): seq<Event> {
    match node.program
    case None => []
    case Some(p) => [UseProgram(p), UploadP(p, P), Draw(node, p, parent, V)]
  }

  /**
   An event a traversal may emit for frame inputs `dt`, `P`, `V`: no viewport
   or clear, the frame's own `dt`, `P` and `V` unchanged, updates only for
   nodes with a hook and draws only for nodes with that very program.
   */
  ghost predicate NodeEvent(e: Event, dt: real, P: Matrix, V: Matrix) {
    match e
    case Update(n, d) => d == dt && n.update.Some?
    case UseProgram(_) => true
    case UploadP(_, p) => p == P
    case Draw(n, prog, _, v) => v == V && n.program == Some(prog)
    case _ => false
  }

  /**
   A `Draw` event in the trace of `node` drawn under `parent` is either the
   node's own, with that parent, or one drawn under its direct parent.
   */
  ghost predicate LinkedBelow(e: Event, node: Node, parent: Option<Node>) {
    e.Draw? ==>
      (e.node == node && e.parent == parent)
      || (e.parent.Some? && e.node in e.parent.value.children)
  }

  /** A node with a program is drawn, with that program, under `parent` somewhere in `t`. */
  ghost predicate DrawnUnder(t: seq<Event>, n: Node, parent: Option<Node>, V: Matrix) {
    n.program.Some? ==> Draw(n, n.program.value, parent, V) in t
  }

  /** `drawGraph(node, parent, dt, P, V)`: update, draw if programmed, then every child in order. */
  function DrawGraph(node: Node, parent: Option<Node>, dt: real, P: Matrix, V: Matrix): (t: seq<Event>)
    ensures forall i :: 0 <= i < |t| ==> NodeEvent(t[i], dt, P, V)
    ensures forall i :: 0 <= i < |t| ==> LinkedBelow(t[i], node, parent)
    decreases node
  {
    UpdateStep(node, dt) + DrawStep(node, parent, P, V) + DrawChildren(node.children, node, dt, P, V)
  }

  /**
   The `for (const child of children)` loop of `drawGraph`: every child with a
   program is drawn under `parent`, and a draw under `parent` is of a listed
   child or of another child of `parent`.
   */
  function DrawChildren(children: seq<Node>, parent: Node, dt: real, P: Matrix, V: Matrix): (t: seq<Event>)
    ensures forall i :: 0 <= i < |t| ==> NodeEvent(t[i], dt, P, V)
    ensures forall i :: 0 <= i < |t| ==> t[i].Draw? ==>
              (t[i].parent == Some(parent) && t[i].node in children)
              || (t[i].parent.Some? && t[i].node in t[i].parent.value.children)
    ensures forall k {:trigger DrawnUnder(t, children[k], Some(parent), V)} ::
              0 <= k < |children| ==> DrawnUnder(t, children[k], Some(parent), V)
    decreases children
  {
    if |children| == 0 then []
    else
      var rest := DrawChildren(children[1..], parent, dt, P, V);
      assert forall k :: 1 <= k < |children| ==> DrawnUnder(rest, children[k], Some(parent), V);
      DrawGraph(children[0], Some(parent), dt, P, V) + rest
  }

  /**
   The `for (const node of scene)` loop of `window.loop`: every root with a
   program is drawn with a null parent, and a draw with a null parent is of a root.
   */
  function DrawRoots(roots: seq<Node>, dt: real, P: Matrix, V: Matrix): (t: seq<Event>)
    ensures forall i :: 0 <= i < |t| ==> NodeEvent(t[i], dt, P, V)
    ensures forall i :: 0 <= i < |t| ==> t[i].Draw? ==>
              (t[i].parent == None && t[i].node in roots)
              || (t[i].parent.Some? && t[i].node in t[i].parent.value.children)
    ensures forall k {:trigger DrawnUnder(t, roots[k], None, V)} ::
              0 <= k < |roots| ==> DrawnUnder(t, roots[k], None, V)
    decreases roots
  {
    if |roots| == 0 then []
    else
      var rest := DrawRoots(roots[1..], dt, P, V);
      assert forall k :: 1 <= k < |roots| ==> DrawnUnder(rest, roots[k], None, V);
      DrawGraph(roots[0], None, dt, P, V) + rest
  }

  /**
   One frame of `window.loop`: the viewport and the clear, once each and first,
   then every root's traversal in scene order.
   */
  function Frame(scene: Scene, dt: real, width: nat, height: nat, P: Matrix, V: Matrix): (t: seq<Event>)
    ensures |t| >= 2 && t[0] == Viewport(0, 0, width, height) && t[1] == Clear(FrameClearMask)
    ensures forall i :: 2 <= i < |t| ==> NodeEvent(t[i], dt, P, V)
    ensures forall i :: 2 <= i < |t| ==> t[i].Draw? ==>
              (t[i].parent == None && t[i].node in scene)
              || (t[i].parent.Some? && t[i].node in t[i].parent.value.children)
    ensures forall k {:trigger DrawnUnder(t[2..], scene[k], None, V)} ::
              0 <= k < |scene| ==> DrawnUnder(t[2..], scene[k], None, V)
  {
    [Viewport(0, 0, width, height), Clear(FrameClearMask)] + DrawRoots(scene, dt, P, V)
  }

  /** `window.loop` written as its loop over the roots, accumulating the trace. */
  method Loop(scene: Scene, dt: real, width: nat, height: nat, P: Matrix, V: Matrix)
    returns (trace: seq<Event>)
    ensures trace == Frame(scene, dt, width, height, P, V)
  {
    trace := [Viewport(0, 0, width, height), Clear(FrameClearMask)];
    var i := 0;
    while i < |scene|
      invariant 0 <= i <= |scene|
      invariant trace + DrawRoots(scene[i..], dt, P, V) == Frame(scene, dt, width, height, P, V)
    {
      assert scene[i..][1..] == scene[i + 1..];
      trace := trace + DrawGraph(scene[i], None, dt, P, V);
      i := i + 1;
    }
  }
}
