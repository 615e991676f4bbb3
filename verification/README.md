# Scene-graph frame traversal, modelled in Dafny

This project models the per-frame render loop of a small WebGL scene-graph
renderer: `window.loop`, which sets the viewport, clears the colour and depth
buffers and then walks every root of the `scene` list, and `drawGraph`,
which for each node calls its `update(dt)` hook if it has one, binds its
shader program, uploads the projection matrix and calls its `draw` hook if
it has a program, and then recurses into every child in list order, passing
itself as the child's `parent`.

Every side effect is abstracted into an event of a trace (`GlTrace.Event`):
`Viewport`, `Clear`, `Update(node, dt)`, `UseProgram(p)`, `UploadP(p, P)`
and `Draw(node, p, parent, V)`. The traversal is a pure recursive function
from an inductive node tree to that trace, so trees are finite and acyclic
by construction. `P`, `V` and `dt` are opaque values the traversal only
passes along.

Files and modules:

- `scene_graph.dfy`, module `SceneGraph`: nodes, the scene, tree membership
  (`Contains`, `InScene`) and the orderless multisets of a tree's ids.
- `gl_trace.dfy`, module `GlTrace`: the events, WebGL's clear-mask bits,
  trace projections (`UpdatedIds`, `Draws`) and the `ProgramBlocks` shape.
- `render.dfy`, module `Render`: `DrawGraph` (`drawGraph`), `DrawChildren`
  and `DrawRoots` (its two `for … of` loops), `Frame` and the method `Loop`
  (`window.loop`).
- `pre_order.dfy`, module `PreOrder`: an independent account that separates
  the traversal's order (the depth-first pre-order sequence of visits) from
  its effects (the events each visit emits), and the theorem that the trace
  is exactly the per-visit events in pre-order.
- `frame_properties.dfy`, module `FrameProperties`: the frame-level
  properties.

Modelling decisions:

- A node's identity (a JavaScript object reference) is its `id`. Statements
  about "exactly once" assume `UniqueIds(scene)`, which is what distinct
  objects give in the original.
- Events carry the node value for the receiver of `update`/`draw` and for
  the `parent` argument, so "drawn under its direct parent" is the
  structural fact `node in parent.children`.
- The projection upload `gl.uniformMatrix4fv(uniforms.P, false, P)` is the
  event `UploadP(p, P)`: the uniform location belongs to the program and
  the transpose flag is always false.
- The clear mask is `COLOR_BUFFER_BIT | DEPTH_BUFFER_BIT` (0x4000 | 0x100)
  and the viewport is `(0, 0, width, height)` of the canvas.
- `drawGraph` reads `program`, `update`, `draw` and `children` from the
  node before calling the hook; the model likewise reads the node once.
- `drawGraph` composes no world transform: the draw hook receives
  `{program, parent, V}`, where `parent` is the parent node itself (not a
  matrix) and `P` is not passed; every root is drawn with a `null` parent.

## Model

| member | source | states |
|---|---|---|
| Render.DrawGraph | code/src/solution.js:104-124 | every event of a node's traversal carries the frame's own `dt`, `P` and `V` unchanged; updates happen only for nodes with a hook and draws only for nodes with a program, with that very program; every draw is the node's own under the given parent or one under the drawn node's direct parent |
| Render.DrawChildren | code/src/solution.js:120-123 | every child with a program is drawn under the loop's parent, and every draw under that parent is of a listed child or of another child of that parent; the loop emits only node events with unchanged `dt`, `P`, `V`, and every other draw is under the drawn node's direct parent |
| Render.DrawRoots | code/src/solution.js:98-101 | every root with a program is drawn with a null parent, a draw with a null parent is of a root, and every other draw is under the drawn node's direct parent; `dt`, `P`, `V` are passed unchanged |
| Render.Frame | code/src/solution.js:81-101 | a frame starts with the viewport `(0, 0, width, height)` and a colour-and-depth clear, and every later event is a node event (no second viewport or clear) with the frame's `dt`, `P`, `V`; after those two events every root with a program is drawn with a null parent, and every null-parent draw is of a root |
| Render.Loop | code/src/solution.js:81-102 | the frame driver's loop over the roots accumulates exactly the frame trace |
| PreOrder.GraphIsExpandedVisits | code/src/solution.js:104-124 | a node's trace is the events of its depth-first pre-order visits (node first, then each child's subtree in list order), each visit emitting update then bind/upload/draw |
| PreOrder.ChildrenAreExpandedVisits | code/src/solution.js:120-123 | the children loop's trace is the per-visit events of the children's pre-order visits, in list order |
| PreOrder.RootsAreExpandedVisits | code/src/solution.js:98-101 | the roots loop's trace is the per-visit events of the scene's pre-order visits, roots in scene order |
| PreOrder.VisitedIffContained | code/src/solution.js:104-124 | the traversal reaches a node if and only if it belongs to the tree |
| PreOrder.VisitIdsAreTreeIds | code/src/solution.js:104-124 | the traversal visits each node of a tree exactly as often as it occurs in the tree |
| PreOrder.SceneVisitedOnce | code/src/solution.js:99-123 | with unique ids, every node of the scene is visited exactly once per frame |
| FrameProperties.SubtreeSegment | code/src/solution.js:104-124 | every node below a node is traversed as one contiguous block of that node's trace, reached from its direct parent |
| FrameProperties.RootsSegment | code/src/solution.js:98-124 | every node of the scene is traversed as one contiguous block of the roots loop's trace, under its direct parent, or under no parent when it is a root |
| FrameProperties.FrameSegment | code/src/solution.js:98-124 | every node of the scene is traversed as one contiguous block of the frame after the viewport and clear, under its direct parent, or under no parent when it is a root |
| FrameProperties.ViewportAndClearOnce | code/src/solution.js:84-101 | the viewport and the clear each occur exactly once per frame, at positions 0 and 1, before any node event |
| FrameProperties.UpdatePrecedesSubtree | code/src/solution.js:104-123 | a node with an update hook starts its block with its update; when it has a program the next three events are its bind, the projection upload and its draw under its direct parent (none for a root), and the rest of the block is its children's traversal |
| FrameProperties.BlockShape | code/src/solution.js:104-123 | wherever a node's traversal sits in a trace, a node with an update hook opens it with its update, followed (when it has a program) by its bind, projection upload and draw under the given parent, then its children's traversal |
| FrameProperties.EveryNodeReached | code/src/solution.js:99-123 | every node of the scene, whatever its ancestors' programs, is updated if it has a hook and drawn with its program under its direct parent (none for a root) if it has one |
| FrameProperties.ChildrenTraversedRegardless | code/src/solution.js:110-123 | each child is updated and drawn under its parent whether or not the parent has a program, and a parent without a program contributes no draw of its own, only its descendants' |
| FrameProperties.UpdatedExactlyOnce | code/src/solution.js:99-123 | with unique ids, every node with an update hook is updated exactly once per frame and no node is updated twice |
| FrameProperties.FrameBlocks | code/src/solution.js:110-118 | every program binding is followed at once by the projection upload to the same program and a draw with it; every draw is preceded at once by both, for its own program; none appears alone |
| FrameProperties.DrawOrderIsPreOrder | code/src/solution.js:99-123 | the frame's draws are exactly those of the scene's depth-first pre-order visits of nodes with a program, in that order, each under its visit's parent |
| FrameProperties.DrawOrderExample | code/src/solution.js:99-123 | for roots A and B with A's child C, all with a program, the frame draws A (no parent), C (parent A), B (no parent) in that order |

## Left out

- `window.init` (code/src/solution.js:18-79): WebGL context set-up, shader loading, geometry construction, the asynchronous texture load and the later `textures.diffuse` assignment; these are I/O and calls into `geo.js`, `shaders.js` and `textures.js`, which are not part of this model. The scene is a parameter of the frame.
- Construction of the projection and view matrices (code/src/solution.js:88-96): floating-point `glMatrix` calls; `P` and `V` are opaque parameters of the frame.
- The body of the cube's update hook (code/src/solution.js:62-67): quaternion arithmetic on the node's rotation. A hook is an opaque tag and its effect on the node's transform is not modelled; the tree's structure and programs are fixed during a frame.
- `node.js` (`create`, the `draw` hook's body, world-transform composition, `addChild`) is not part of this model: `Draw` records the call and its arguments only.
- The GPU effects of `gl.*` calls: they are events of the trace only.
- Acyclic, uniquely owned trees are an assumption of the model (`Node` is an inductive datatype). The frame code checks neither: `scene.push` (code/src/solution.js:52, 69) adds any object, a node reachable along two paths is traversed once per path, and a cycle in the children graph would make `drawGraph` (code/src/solution.js:121-123) recurse until the stack overflows.
- Malformed nodes, which make the original throw, are not modelled: a node without a `children` list (code/src/solution.js:121), a programmed node without a `draw` function (116), a program without `uniforms`, where reading `uniforms.P` throws after `gl.useProgram` has run (111-114), and a truthy `update` that is not a function (106-107). The model's nodes always have a children list, a callable hook and a drawable program.
- Hooks and `gl.*` calls are assumed to return normally. In the original nothing catches an exception thrown by a hook or a WebGL call (code/src/solution.js:99-101, 104-124), so it aborts the rest of the frame; the model has no partial frames.
