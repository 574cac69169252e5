/** The state `OpenGLRenderer` keeps so that it need not ask the driver what is
    bound: the cached uniform-buffer binding `currentUBO`, the debug-group
    profiling storage, and the per-frame counters of `Renderer`.

    `uploadUBO` is a pure transition returning the new state and the GL calls
    it issues. A small model of what the GL context itself holds for the
    uniform-buffer target serves as the reference the cache is checked
    against: replaying the calls on it shows that eliding a bind loses nothing
    while the cache is in step with the context. */
module GLRenderer {
  import opened GLTypes
  import Profiling

  /** The calls `uploadUBO` issues, both on the `GL_UNIFORM_BUFFER` target:
      `glBindBuffer(GL_UNIFORM_BUFFER, buffer)` and
      `glBufferData(GL_UNIFORM_BUFFER, sizeof(T), &data, GL_DYNAMIC_DRAW)`. */
  datatype GLCall =
    | BindUniformBuffer(buffer: GLuint)
    | UniformBufferData(size: nat)

  datatype RendererState = RendererState(
    currentUBO: GLuint,
    profile: Profiling.ProfileStack,
    drawCounter: Int32,
    textureCounter: Int32,
    bufferCounter: Int32)

  /** A transition's new state and the calls it issued, in order. */
  datatype Step = Step(state: RendererState, calls: seq<GLCall>)

  predicate Valid(s: RendererState)
  {
    Profiling.Valid(s.profile)
  }

  function Binds(calls: seq<GLCall>): nat
  {
    if |calls| == 0 then 0
    else (if calls[0].BindUniformBuffer? then 1 else 0) + Binds(calls[1..])
  }

  function Uploads(calls: seq<GLCall>): nat
  {
    if |calls| == 0 then 0
    else (if calls[0].UniformBufferData? then 1 else 0) + Uploads(calls[1..])
  }

  lemma {:induction false} CountsConcat(a: seq<GLCall>, b: seq<GLCall>)
    ensures Binds(a + b) == Binds(a) + Binds(b)
    ensures Uploads(a + b) == Uploads(a) + Uploads(b)
    decreases |a|
  {
    if |a| > 0 {
      assert (a + b)[1..] == a[1..] + b;
      CountsConcat(a[1..], b);
    } else {
      assert a + b == b;
    }
  }

  /** `uploadUBO(buffer, data)` for a `data` of `size` bytes. The bind is
      issued only when `buffer` is not the cached one; the data upload always
      is, and comes last; `profiler` stands for `RW_USING(RENDER_PROFILER)`.
      Apart from the cached binding and the profiling tally nothing changes. */
  function UploadUBO(s: RendererState, buffer: GLuint, size: nat, profiler: bool): (r: Step)
    requires Valid(s)
    ensures Valid(r.state)
    ensures r.state.currentUBO == buffer
    ensures Binds(r.calls) == (if s.currentUBO != buffer then 1 else 0)
    ensures Uploads(r.calls) == 1
    ensures forall i :: 0 <= i < |r.calls| && r.calls[i].BindUniformBuffer? ==>
              r.calls[i].buffer == buffer && i + 1 < |r.calls|
    ensures |r.calls| > 0 && r.calls[|r.calls| - 1] == UniformBufferData(size)
    ensures r.state.profile == Profiling.CountUpload(s.profile, profiler)
    ensures r.state.profile.currentDebugDepth == s.profile.currentDebugDepth
    ensures r.state.(currentUBO := s.currentUBO, profile := s.profile) == s
  {
    var bind := if s.currentUBO != buffer then [BindUniformBuffer(buffer)] else [];
    var calls := bind + [UniformBufferData(size)];
    CountsConcat(bind, [UniformBufferData(size)]);
    Step(s.(currentUBO := buffer, profile := Profiling.CountUpload(s.profile, profiler)), calls)
  }

  /** What the GL context itself holds for the uniform-buffer target: the
      buffer bound to it, and the size of the data store last specified for
      each buffer. Buffer name 0 is treated like any other name here, although
      GL reads a bind of 0 as unbinding the target. */
  datatype UniformBufferContext = UniformBufferContext(bound: GLuint, storeSize: map<GLuint, nat>)

  function Execute(ctx: UniformBufferContext, c: GLCall): UniformBufferContext
  {
    match c
    case BindUniformBuffer(b) => ctx.(bound := b)
    case UniformBufferData(n) => ctx.(storeSize := ctx.storeSize[ctx.bound := n])
  }

  function Run(ctx: UniformBufferContext, calls: seq<GLCall>): UniformBufferContext
    decreases |calls|
  {
    if |calls| == 0 then ctx else Run(Execute(ctx, calls[0]), calls[1..])
  }

  lemma {:induction false} RunConcat(ctx: UniformBufferContext, a: seq<GLCall>, b: seq<GLCall>)
    ensures Run(ctx, a + b) == Run(Run(ctx, a), b)
    decreases |a|
  {
    if |a| > 0 {
      assert (a + b)[1..] == a[1..] + b;
      RunConcat(Execute(ctx, a[0]), a[1..], b);
    } else {
      assert a + b == b;
    }
  }

  /** The cache believes what the context holds. */
  predicate InSync(s: RendererState, ctx: UniformBufferContext)
  {
    s.currentUBO == ctx.bound
  }

  /** Binding the buffer that is already bound has no effect on anything that
      follows, which is why the cache may drop it. */
  lemma ElidedBindChangesNothing(ctx: UniformBufferContext, rest: seq<GLCall>)
    ensures Run(ctx, [BindUniformBuffer(ctx.bound)] + rest) == Run(ctx, rest)
  {
    assert ([BindUniformBuffer(ctx.bound)] + rest)[1..] == rest;
  }

  /** While the cache is in step with the context, the data of one
      `uploadUBO` lands in the requested buffer and in no other, whether or
      not the bind was elided, and the cache is still in step afterwards. */
  lemma UploadUBOReachesRequestedBuffer(s: RendererState, ctx: UniformBufferContext, buffer: GLuint, size: nat, profiler: bool)
    requires Valid(s)
    requires InSync(s, ctx)
    ensures var r := UploadUBO(s, buffer, size, profiler);
            var after := Run(ctx, r.calls);
            && after.bound == buffer
            && after.storeSize == ctx.storeSize[buffer := size]
            && InSync(r.state, after)
  {
    var r := UploadUBO(s, buffer, size, profiler);
    var data := [UniformBufferData(size)];
    if s.currentUBO != buffer {
      assert r.calls == [BindUniformBuffer(buffer)] + data;
      RunConcat(ctx, [BindUniformBuffer(buffer)], data);
    } else {
      assert r.calls == data;
    }
  }

  /** One `uploadUBO(buffer, data)` call of a run: the buffer and
      `sizeof(T)` of the data. Scene data and object data differ in size. */
  datatype UploadRequest = UploadRequest(buffer: GLuint, size: nat)

  /** `uploadUBO` for each request in turn. */
  function UploadAll(s: RendererState, reqs: seq<UploadRequest>, profiler: bool): (r: Step)
    requires Valid(s)
    ensures Valid(r.state)
    ensures r.state.currentUBO == if |reqs| == 0 then s.currentUBO else reqs[|reqs| - 1].buffer
    ensures r.state.profile.currentDebugDepth == s.profile.currentDebugDepth
    ensures r.state.(currentUBO := s.currentUBO, profile := s.profile) == s
    decreases |reqs|
  {
    if |reqs| == 0 then
      Step(s, [])
    else
      var first := UploadUBO(s, reqs[0].buffer, reqs[0].size, profiler);
      var rest := UploadAll(first.state, reqs[1..], profiler);
      Step(rest.state, first.calls + rest.calls)
  }

  /** The buffer requested just before position `i`; before the first, the
      one the cache started with. */
  function Previous(cur: GLuint, reqs: seq<UploadRequest>, i: nat): GLuint
    requires i < |reqs|
  {
    if i == 0 then cur else reqs[i - 1].buffer
  }

  /** The number of positions whose requested buffer differs from the one
      requested just before it. */
  function Transitions(cur: GLuint, reqs: seq<UploadRequest>): nat
    decreases |reqs|
  {
    if |reqs| == 0 then 0
    else
      var last := |reqs| - 1;
      Transitions(cur, reqs[..last]) + (if reqs[last].buffer != Previous(cur, reqs, last) then 1 else 0)
  }

  lemma {:induction false} TransitionsCons(cur: GLuint, q: UploadRequest, reqs: seq<UploadRequest>)
    ensures Transitions(cur, [q] + reqs) == (if q.buffer != cur then 1 else 0) + Transitions(q.buffer, reqs)
    decreases |reqs|
  {
    var s := [q] + reqs;
    if |reqs| == 0 {
      assert s[..0] == [];
    } else {
      var last := |reqs| - 1;
      assert s[..|s| - 1] == [q] + reqs[..last];
      TransitionsCons(cur, q, reqs[..last]);
      assert Previous(cur, s, |s| - 1) == Previous(q.buffer, reqs, last);
    }
  }

  /** Over any run of uploads, whatever the sizes, exactly one data upload is
      issued per call, and a bind exactly at each change of requested buffer. */
  lemma {:induction false} UploadAllCounts(s: RendererState, reqs: seq<UploadRequest>, profiler: bool)
    requires Valid(s)
    ensures var r := UploadAll(s, reqs, profiler);
            && Uploads(r.calls) == |reqs|
            && Binds(r.calls) == Transitions(s.currentUBO, reqs)
    decreases |reqs|
  {
    if |reqs| > 0 {
      var first := UploadUBO(s, reqs[0].buffer, reqs[0].size, profiler);
      var rest := UploadAll(first.state, reqs[1..], profiler);
      UploadAllCounts(first.state, reqs[1..], profiler);
      CountsConcat(first.calls, rest.calls);
      TransitionsCons(s.currentUBO, reqs[0], reqs[1..]);
      assert [reqs[0]] + reqs[1..] == reqs;
    }
  }

  lemma {:induction false} TransitionsOfRepeats(cur: GLuint, b: GLuint, reqs: seq<UploadRequest>)
    requires forall i :: 0 <= i < |reqs| ==> reqs[i].buffer == b
    ensures Transitions(cur, reqs) == if |reqs| > 0 && cur != b then 1 else 0
    decreases |reqs|
  {
    if |reqs| > 0 {
      TransitionsOfRepeats(cur, b, reqs[..|reqs| - 1]);
    }
  }

  /** N uploads to one buffer issue N data uploads and at most one bind, none
      at all when that buffer was already the cached one. */
  lemma RepeatedUploadsBindAtMostOnce(s: RendererState, b: GLuint, reqs: seq<UploadRequest>, profiler: bool)
    requires Valid(s)
    requires forall i :: 0 <= i < |reqs| ==> reqs[i].buffer == b
    ensures var r := UploadAll(s, reqs, profiler);
            && Uploads(r.calls) == |reqs|
            && Binds(r.calls) <= 1
            && (s.currentUBO == b ==> Binds(r.calls) == 0)
  {
    UploadAllCounts(s, reqs, profiler);
    TransitionsOfRepeats(s.currentUBO, b, reqs);
  }

  /** Over a run of uploads with a debug group open, the innermost group's
      `uploads` tally rises by the number of uploads (modulo 2^32) and every
      other slot and field is left as it was; with no group open, or the
      profiler compiled out, the profiling storage is untouched. */
  lemma {:induction false} UploadAllTally(s: RendererState, reqs: seq<UploadRequest>, profiler: bool)
    requires Valid(s)
    ensures var p := s.profile;
            var p' := UploadAll(s, reqs, profiler).state.profile;
            && (!profiler || p.currentDebugDepth == 0 ==> p' == p)
            && (profiler && p.currentDebugDepth > 0 ==>
                  var k := p.currentDebugDepth - 1;
                  && p'.profileInfo[k].uploads as int == (p.profileInfo[k].uploads as int + |reqs|) % TWO_TO_32
                  && p'.profileInfo[k] == p.profileInfo[k].(uploads := p'.profileInfo[k].uploads)
                  && (forall i :: 0 <= i < Profiling.MAX_DEBUG_DEPTH && i != k ==> p'.profileInfo[i] == p.profileInfo[i]))
    decreases |reqs|
  {
    if |reqs| > 0 {
      var first := UploadUBO(s, reqs[0].buffer, reqs[0].size, profiler);
      UploadAllTally(first.state, reqs[1..], profiler);
      if profiler && s.profile.currentDebugDepth > 0 {
        var k := s.profile.currentDebugDepth - 1;
        var x := s.profile.profileInfo[k].uploads as int;
        var n := |reqs| - 1;
        assert ((x + 1) % TWO_TO_32 + n) % TWO_TO_32 == (x + 1 + n) % TWO_TO_32;
      }
    }
  }

  /** For each buffer a run uploads to, the size of its last upload. */
  function LastSizes(reqs: seq<UploadRequest>): (m: map<GLuint, nat>)
    ensures forall b :: b in m <==> exists i :: 0 <= i < |reqs| && reqs[i].buffer == b
    ensures |reqs| > 0 ==> m[reqs[|reqs| - 1].buffer] == reqs[|reqs| - 1].size
    decreases |reqs|
  {
    if |reqs| == 0 then map[]
    else
      var last := reqs[|reqs| - 1];
      var m := LastSizes(reqs[..|reqs| - 1]);
      assert forall i :: 0 <= i < |reqs| - 1 ==> reqs[..|reqs| - 1][i] == reqs[i];
      m[last.buffer := last.size]
  }

  /** Every entry of `LastSizes` comes from a request to that buffer with
      that size, and no later request goes to the same buffer. */
  lemma {:induction false} LastSizesMeaning(reqs: seq<UploadRequest>, b: GLuint) returns (i: nat)
    requires b in LastSizes(reqs)
    ensures i < |reqs| && reqs[i].buffer == b && reqs[i].size == LastSizes(reqs)[b]
    ensures forall j :: i < j < |reqs| ==> reqs[j].buffer != b
    decreases |reqs|
  {
    var last := |reqs| - 1;
    var pre := reqs[..last];
    if reqs[last].buffer == b {
      i := last;
    } else {
      i := LastSizesMeaning(pre, b);
      assert forall j :: 0 <= j < last ==> pre[j] == reqs[j];
    }
  }

  lemma {:induction false} LastSizesCons(q: UploadRequest, reqs: seq<UploadRequest>)
    ensures LastSizes([q] + reqs) == map[q.buffer := q.size] + LastSizes(reqs)
    decreases |reqs|
  {
    var s := [q] + reqs;
    if |reqs| == 0 {
      assert s[..0] == [];
    } else {
      var last := |reqs| - 1;
      var l := reqs[last];
      assert s[..|s| - 1] == [q] + reqs[..last];
      assert s[|s| - 1] == l;
      assert LastSizes(s) == LastSizes([q] + reqs[..last])[l.buffer := l.size];
      assert LastSizes(reqs) == LastSizes(reqs[..last])[l.buffer := l.size];
      LastSizesCons(q, reqs[..last]);
      UnionThenUpdate(map[q.buffer := q.size], LastSizes(reqs[..last]), l.buffer, l.size);
    }
  }

  lemma UnionThenUpdate(m: map<GLuint, nat>, n: map<GLuint, nat>, k: GLuint, v: nat)
    ensures (m + n)[k := v] == m + n[k := v]
  {
    var lhs := (m + n)[k := v];
    var rhs := m + n[k := v];
    assert lhs.Keys == rhs.Keys;
    forall x | x in lhs
      ensures lhs[x] == rhs[x]
    {
    }
  }

  lemma StoreCons(m: map<GLuint, nat>, reqs: seq<UploadRequest>)
    requires |reqs| > 0
    ensures m[reqs[0].buffer := reqs[0].size] + LastSizes(reqs[1..]) == m + LastSizes(reqs)
  {
    var q := reqs[0];
    var tail := LastSizes(reqs[1..]);
    LastSizesCons(q, reqs[1..]);
    assert [q] + reqs[1..] == reqs;
    UpdateThenUnion(m, q.buffer, q.size, tail);
  }

  lemma UpdateThenUnion(m: map<GLuint, nat>, k: GLuint, v: nat, n: map<GLuint, nat>)
    ensures m[k := v] + n == m + (map[k := v] + n)
  {
    var lhs := m[k := v] + n;
    var rhs := m + (map[k := v] + n);
    assert lhs.Keys == rhs.Keys;
    forall x | x in lhs
      ensures lhs[x] == rhs[x]
    {
    }
  }

  /** While the cache is in step with the context, a run of uploads leaves
      each requested buffer holding data of the size last uploaded to it,
      leaves every other buffer as it was, and the cache still in step. */
  lemma {:induction false} UploadAllReachesBuffers(s: RendererState, ctx: UniformBufferContext, reqs: seq<UploadRequest>, profiler: bool)
    requires Valid(s)
    requires InSync(s, ctx)
    ensures var r := UploadAll(s, reqs, profiler);
            var after := Run(ctx, r.calls);
            && InSync(r.state, after)
            && after.storeSize == ctx.storeSize + LastSizes(reqs)
    decreases |reqs|
  {
    var r := UploadAll(s, reqs, profiler);
    if |reqs| > 0 {
      var first := UploadUBO(s, reqs[0].buffer, reqs[0].size, profiler);
      var mid := Run(ctx, first.calls);
      var rest := UploadAll(first.state, reqs[1..], profiler);
      UploadUBOReachesRequestedBuffer(s, ctx, reqs[0].buffer, reqs[0].size, profiler);
      UploadAllReachesBuffers(first.state, mid, reqs[1..], profiler);
      RunConcat(ctx, first.calls, rest.calls);
      assert r.calls == first.calls + rest.calls;
      StoreCons(ctx.storeSize, reqs);
    }
  }

  /** `getDrawCount()`, `getTextureCount()`, `getBufferCount()`. */
  function DrawCount(s: RendererState): Int32 { s.drawCounter }
  function TextureCount(s: RendererState): Int32 { s.textureCounter }
  function BufferCount(s: RendererState): Int32 { s.bufferCounter }

  /** `swap()` as documented: every per-frame counter reads zero afterwards.
      Its body is not shown. The model assumes it leaves the cached binding
      and the profiling storage alone: `Renderer::swap` could reach those
      private `OpenGLRenderer` fields only through a virtual call such as
      `invalidate()` or `popDebugGroup()`. */
  function Swap(s: RendererState): (r: RendererState)
    ensures DrawCount(r) == 0 && TextureCount(r) == 0 && BufferCount(r) == 0
    ensures r.currentUBO == s.currentUBO && r.profile == s.profile
  {
    s.(drawCounter := 0, textureCounter := 0, bufferCounter := 0)
  }

  /** Uploading does not count toward the per-frame counters, so a frame that
      does nothing but upload still reads zero after `swap()`. */
  lemma UploadsAfterSwapLeaveCountersZero(s: RendererState, reqs: seq<UploadRequest>, profiler: bool)
    requires Valid(s)
    ensures var r := UploadAll(Swap(s), reqs, profiler).state;
            DrawCount(r) == 0 && TextureCount(r) == 0 && BufferCount(r) == 0
  {
  }
}
