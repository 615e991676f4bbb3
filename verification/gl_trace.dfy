/**
 The observable side effects of one frame, as an event trace. Each event
 stands for one WebGL call or one call into a node's hook; the GPU effect of
 the call itself is outside the model.
 */
module GlTrace {
  import opened SceneGraph

  /** WebGL's `COLOR_BUFFER_BIT` and `DEPTH_BUFFER_BIT`. */
  const ColorBufferBit: bv32 := 0x4000
  const DepthBufferBit: bv32 := 0x100

  /** The mask the frame clears with: colour and depth together. */
  const FrameClearMask: bv32 := ColorBufferBit | DepthBufferBit

  datatype Event =
      /** `gl.viewport(x, y, width, height)` */
    | Viewport(x: int, y: int, width: nat, height: nat)
      /** `gl.clear(mask)` */
    | Clear(mask: bv32)
      /** the node's `update(dt)` hook */
    | Update(node: Node, dt: real)
      /** `gl.useProgram(program)` */
    | UseProgram(program: Program)
      /** `gl.uniformMatrix4fv(program.uniforms.P, false, P)` */
    | UploadP(program: Program, projection: Matrix)
      /** the node's `draw({program, parent, V})` hook; `parent` is null for a root */
    | Draw(node: Node, program: Program, parent: Option<Node>, view: Matrix)

  /** The node ids of the `Update` events of a trace, in trace order. */
  function UpdatedIds(t: seq<Event>): (ids: seq<NodeId>)
    ensures |ids| <= |t|
  {
    if |t| == 0 then []
    else (if t[0].Update? then [t[0].node.id] else []) + UpdatedIds(t[1..])
  }

  /** The `Draw` events of a trace, in trace order. */
  function Draws(t: seq<Event>): (ds: seq<Event>)
    ensures |ds| <= |t|
    ensures forall i :: 0 <= i < |ds| ==> ds[i].Draw?
  {
    if |t| == 0 then []
    else (if t[0].Draw? then [t[0]] else []) + Draws(t[1..])
  }

  lemma {:induction false} UpdatedIdsAppend(a: seq<Event>, b: seq<Event>)
    ensures UpdatedIds(a + b) == UpdatedIds(a) + UpdatedIds(b)
    decreases |a|
  {
    if |a| > 0 {
      assert (a + b)[1..] == a[1..] + b;
      UpdatedIdsAppend(a[1..], b);
    } else {
      assert a + b == b;
    }
  }

  lemma {:induction false} DrawsAppend(a: seq<Event>, b: seq<Event>)
    ensures Draws(a + b) == Draws(a) + Draws(b)
    decreases |a|
  {
    if |a| > 0 {
      assert (a + b)[1..] == a[1..] + b;
      DrawsAppend(a[1..], b);
    } else {
      assert a + b == b;
    }
  }

  /**
   Every `UseProgram(p)` is followed at once by `UploadP(p, P)` and a `Draw`
   with program `p`, every `UploadP` sits between those two, and every `Draw`
   is preceded at once by `UseProgram(p)` and `UploadP(p, P)` of its own program.
   */
  ghost predicate ProgramBlocks(t: seq<Event>, P: Matrix) {
    && (forall i :: 0 <= i < |t| && t[i].UseProgram? ==>
          i + 2 < |t| && t[i + 1] == UploadP(t[i].program, P)
          && t[i + 2].Draw? && t[i + 2].program == t[i].program)
    && (forall i :: 0 <= i < |t| && t[i].UploadP? ==>
          1 <= i && i + 1 < |t| && t[i - 1] == UseProgram(t[i].program)
          && t[i + 1].Draw? && t[i + 1].program == t[i].program)
    && (forall i :: 0 <= i < |t| && t[i].Draw? ==>
          2 <= i && t[i - 2] == UseProgram(t[i].program) && t[i - 1] == UploadP(t[i].program, P))
  }

  /** Program blocks never straddle a concatenation point. */
  lemma ProgramBlocksAppend(a: seq<Event>, b: seq<Event>, P: Matrix)
    requires ProgramBlocks(a, P) && ProgramBlocks(b, P)
    ensures ProgramBlocks(a + b, P)
  {
    var t := a + b;
    forall i | 0 <= i < |t| && t[i].UseProgram?
      ensures i + 2 < |t| && t[i + 1] == UploadP(t[i].program, P)
        && t[i + 2].Draw? && t[i + 2].program == t[i].program
    {
      if i < |a| {
        assert a[i] == t[i];
      } else {
        assert b[i - |a|] == t[i];
      }
    }
    forall i | 0 <= i < |t| && t[i].UploadP?
      ensures 1 <= i && i + 1 < |t| && t[i - 1] == UseProgram(t[i].program)
        && t[i + 1].Draw? && t[i + 1].program == t[i].program
    {
      if i < |a| {
        assert a[i] == t[i];
      } else {
        assert b[i - |a|] == t[i];
      }
    }
    forall i | 0 <= i < |t| && t[i].Draw?
      ensures 2 <= i && t[i - 2] == UseProgram(t[i].program) && t[i - 1] == UploadP(t[i].program, P)
    {
      if i < |a| {
        assert a[i] == t[i];
      } else {
        assert b[i - |a|] == t[i];
      }
    }
  }
}
