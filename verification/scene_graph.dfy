/**
 The data model of the scene graph: nodes with an optional per-frame update
 hook, an optional shader program and an ordered list of owned children, and
 the scene as an ordered list of root nodes.

 Because `Node` is an inductive datatype, every tree is finite and acyclic by
 construction. That is an assumption of the model, not something the frame
 code checks: a children graph with a cycle would make `drawGraph` recurse
 without bound. Handles (programs, matrices, hooks) are opaque values that
 the traversal only passes along.
 */
module SceneGraph {

  datatype Option<T> = None | Some(value: T)

  /** Stands for the identity of a node object. */
  type NodeId = nat

  /** An opaque 4x4 matrix (the projection `P` or the view `V`). */
  datatype Matrix = Matrix(handle: nat)

  /** A linked shader program; its `uniforms.P` location belongs to the handle. */
  datatype Program = Program(handle: nat)

  /** The update closure of a node; the tag stands for whatever it captured. */
  datatype UpdateHook = UpdateHook(tag: nat)

  datatype Node = Node(
    id: NodeId,
    update: Option<UpdateHook>,
    program: Option<Program>,
    children: seq<Node>)

  /** The scene: root nodes in submission order, with no shared root. */
  type Scene = seq<Node>

  /** `m` is `n` itself or a node somewhere below it. */
  ghost predicate Contains(n: Node, m: Node)
    decreases n
  {
    n == m || exists k :: 0 <= k < |n.children| && Contains(n.children[k], m)
  }

  /** `m` is a node of one of the scene's trees. */
  ghost predicate InScene(scene: Scene, m: Node) {
    exists k :: 0 <= k < |scene| && Contains(scene[k], m)
  }

  /** The ids of all nodes of a tree, as an orderless multiset. */
  function TreeIds(n: Node): multiset<NodeId>
    decreases n
  {
    multiset{n.id} + ForestIds(n.children)
  }

  function ForestIds(ns: seq<Node>): multiset<NodeId>
    decreases ns
  {
    if |ns| == 0 then multiset{} else TreeIds(ns[0]) + ForestIds(ns[1..])
  }

  /** The ids of the nodes of a tree that carry an update hook. */
  function UpdatableIds(n: Node): multiset<NodeId>
    decreases n
  {
    (if n.update.Some? then multiset{n.id} else multiset{}) + UpdatableForestIds(n.children)
  }

  function UpdatableForestIds(ns: seq<Node>): multiset<NodeId>
    decreases ns
  {
    if |ns| == 0 then multiset{} else UpdatableIds(ns[0]) + UpdatableForestIds(ns[1..])
  }

  /** No two nodes of the scene share an id: ids faithfully stand for object identity. */
  ghost predicate UniqueIds(scene: Scene) {
    forall id :: id in ForestIds(scene) ==> ForestIds(scene)[id] <= 1
  }

  /** A tree contains every node below any of its children. */
  lemma ContainsThroughChild(n: Node, k: nat, m: Node)
    requires k < |n.children|
    requires Contains(n.children[k], m)
    ensures Contains(n, m)
  {
  }

  /** Every node of a tree with an update hook contributes its id to `UpdatableIds`. */
  lemma {:induction false} UpdatableContained(n: Node, m: Node)
    requires Contains(n, m) && m.update.Some?
    ensures m.id in UpdatableIds(n)
    decreases n
  {
    if n != m {
      var k :| 0 <= k < |n.children| && Contains(n.children[k], m);
      UpdatableContained(n.children[k], m);
      UpdatableInForest(n.children, k, m.id);
    }
  }

  lemma {:induction false} UpdatableInForest(ns: seq<Node>, k: nat, id: NodeId)
    requires k < |ns| && id in UpdatableIds(ns[k])
    ensures id in UpdatableForestIds(ns)
    decreases ns
  {
    if k > 0 {
      UpdatableInForest(ns[1..], k - 1, id);
    }
  }

  /** The updatable ids are a sub-multiset of all ids. */
  lemma {:induction false} UpdatableSubTree(n: Node)
    ensures UpdatableIds(n) <= TreeIds(n)
    decreases n
  {
    UpdatableSubForest(n.children);
  }

  lemma {:induction false} UpdatableSubForest(ns: seq<Node>)
    ensures UpdatableForestIds(ns) <= ForestIds(ns)
    decreases ns
  {
    if |ns| > 0 {
      UpdatableSubTree(ns[0]);
      UpdatableSubForest(ns[1..]);
    }
  }
}
