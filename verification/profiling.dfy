/** The renderer's debug-group profiling storage: the fixed array
    `profileInfo[MAX_DEBUG_DEPTH]` and the depth `currentDebugDepth` that
    indexes it, together with the per-upload tally kept in the innermost open
    group. */
module Profiling {
  import opened GLTypes

  /** Maximum depth of the debug group stack. */
  const MAX_DEBUG_DEPTH: nat := 5

  /** `Renderer::ProfileInfo`: timings and tallies of one debug group. */
  datatype ProfileInfo = ProfileInfo(
    timerStart: GLuint64,
    duration: GLuint64,
    primitives: Uint32,
    draws: Uint32,
    textures: Uint32,
    buffers: Uint32,
    uploads: Uint32)

  /** `profileInfo` and `currentDebugDepth` together. */
  datatype ProfileStack = ProfileStack(profileInfo: seq<ProfileInfo>, currentDebugDepth: int)

  /** The array has its declared length and the depth stays within it, so
      slot `currentDebugDepth - 1` exists whenever the depth is positive. */
  predicate Valid(ps: ProfileStack)
  {
    |ps.profileInfo| == MAX_DEBUG_DEPTH && 0 <= ps.currentDebugDepth <= MAX_DEBUG_DEPTH
  }

  /** The slot of the innermost open debug group, if any is open. */
  function Innermost(ps: ProfileStack): (r: Option<nat>)
    requires Valid(ps)
    ensures r.Some? <==> ps.currentDebugDepth > 0
    ensures r.Some? ==> r.value < |ps.profileInfo| && r.value + 1 == ps.currentDebugDepth
  {
    if ps.currentDebugDepth > 0 then Some(ps.currentDebugDepth - 1) else None
  }

  /** The profiler part of `uploadUBO`: with the profiler compiled in and a
      debug group open, the innermost group's `uploads` goes up by one (as an
      `unsigned int`, so modulo 2^32). No other slot, no other field of that
      slot, and not the depth change. */
  function CountUpload(ps: ProfileStack, profiler: bool): (r: ProfileStack)
    requires Valid(ps)
    ensures Valid(r)
    ensures r.currentDebugDepth == ps.currentDebugDepth
    ensures forall i :: 0 <= i < MAX_DEBUG_DEPTH && (!profiler || i + 1 != ps.currentDebugDepth) ==>
              r.profileInfo[i] == ps.profileInfo[i]
    ensures profiler && ps.currentDebugDepth > 0 ==>
              var k := ps.currentDebugDepth - 1;
              && r.profileInfo[k].uploads as int == (ps.profileInfo[k].uploads as int + 1) % TWO_TO_32
              && r.profileInfo[k] == ps.profileInfo[k].(uploads := r.profileInfo[k].uploads)
  {
    if profiler then
      match Innermost(ps)
      case Some(k) =>
        var slot := ps.profileInfo[k];
        ps.(profileInfo := ps.profileInfo[k := slot.(uploads := Inc32(slot.uploads))])
      case None => ps
    else
      ps
  }
}
