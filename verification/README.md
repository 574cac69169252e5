# openrw OpenGL renderer: render-state caching, modelled in Dafny

This project models the state the OpenGL backend of openrw's renderer keeps in
order to avoid redundant work on the driver, as declared in
`rwengine/include/render/OpenGLRenderer.hpp`:

- **Uniform-location memo** (`OpenGLShaderProgram::getUniformLocation`). A
  shader program caches, per uniform name, the location reported by
  `glGetUniformLocation`, including the `-1` "not present" answer. The GL
  query is a pure oracle `Query = (GLuint, string) -> GLint`. Each lookup also
  reports its name when it missed the memo and so queried the oracle; the
  oracle itself receives `CStr(name)`. Module `UniformCache`, file
  `uniform_cache.dfy`.
- **Uniform-buffer upload with bind elision** (`OpenGLRenderer::uploadUBO`).
  The renderer caches the buffer bound to `GL_UNIFORM_BUFFER` in `currentUBO`.
  It issues `glBindBuffer` only when the requested buffer differs from that
  cache. It always issues one `glBufferData`. With the profiler compiled in,
  it also tallies the upload in the innermost open debug group. The calls are
  returned as a trace of `GLCall` events. A small model of what the GL context
  itself holds for that target (`UniformBufferContext`, `Run`) is the
  reference against which the cache is proved right. Module `GLRenderer`,
  file `renderer.dfy`.
- **Profiling slots.** The array `profileInfo[MAX_DEBUG_DEPTH]` (5 slots) and
  the index `currentDebugDepth`, with the invariant
  `0 <= currentDebugDepth <= 5`. That invariant keeps every
  `profileInfo[currentDebugDepth-1]` access in bounds. Module `Profiling`,
  file `profiling.dfy`.
- **Per-frame counters** (`drawCounter`, `textureCounter`, `bufferCounter`).
  `swap()` resets them, as its doc comment says (module `GLRenderer`).

Fixed-width C/GL integer types are newtypes in `gltypes.dfy` (module
`GLTypes`). The `unsigned int` `uploads` tally wraps modulo 2^32. `CStr` models
what a C API receives from `std::string::c_str()`: the characters before the
first NUL.

Two points about what the header does and does not contain:
- `uploadUBO` (`OpenGLRenderer.hpp:222-235`) touches none of `drawCounter`,
  `textureCounter` or `bufferCounter`, and neither does `UploadUBO`.
- `currentUBO` (line 221) is a plain `GLuint` with no "unknown" sentinel value.

## Model

| member | source | states |
|---|---|---|
| GLTypes.Inc32 | rwengine/include/render/OpenGLRenderer.hpp:133 | `++` on the `unsigned int` tally is addition of one modulo 2^32 |
| GLTypes.CStr | rwengine/include/render/OpenGLRenderer.hpp:172-175 | what `name.c_str()` hands to a C API is the prefix of `name` before its first NUL, and contains no NUL |
| UniformCache.NewShaderProgram | rwengine/include/render/OpenGLRenderer.hpp:165-167 | a newly constructed program has nothing memoised, so its memo agrees with every backend |
| UniformCache.GetUniformLocation | rwengine/include/render/OpenGLRenderer.hpp:171-182 | afterwards the memo maps the name to exactly the value returned; a hit returns the stored value, issues no query and leaves the memo unchanged; a miss queries once, stores the answer (-1 included) and keeps every earlier entry |
| UniformCache.LookupAnswersBackend | rwengine/include/render/OpenGLRenderer.hpp:171-182 | for a fixed backend and a memo that agrees with it, a lookup returns the backend's answer on a hit and on a miss, and the memo still agrees |
| UniformCache.LookupAll | rwengine/include/render/OpenGLRenderer.hpp:171-182 | a run of lookups returns one location per name and never drops or changes a memoised entry |
| UniformCache.LookupAllQueriesOncePerName | rwengine/include/render/OpenGLRenderer.hpp:172-177 | over any run of lookups on one program the backend is asked at most once per distinct lookup name, including names that resolved to -1, and exactly for the names not memoised at the start (two names with the same C string count as two) |
| UniformCache.LookupAllMemoisesEveryName | rwengine/include/render/OpenGLRenderer.hpp:174-177 | after a run of lookups the memo holds exactly the earlier names plus every name looked up |
| UniformCache.LookupAllAnswersBackend | rwengine/include/render/OpenGLRenderer.hpp:171-182 | starting from a memo that agrees with the backend, every lookup in a run returns the backend's answer for its name |
| UniformCache.GetUniformLocationAsWritten | rwengine/include/render/OpenGLRenderer.hpp:171-182 | the lookup as written: the memo is searched under the NUL-truncated name; a hit answers from the memo without a query; a miss queries and stores under the full name, keeping every other entry |
| UniformCache.AsWrittenAnswersBackend | rwengine/include/render/OpenGLRenderer.hpp:172-181 | the as-written lookup still returns the backend's answer and keeps the memo in agreement with it |
| UniformCache.AsWrittenRequeriesNulNames | rwengine/include/render/OpenGLRenderer.hpp:172-176 | for a name that contains a NUL, while its NUL-truncated prefix is not memoised, the as-written lookup queries the backend, and the prefix stays unmemoised afterwards |
| UniformCache.AsWrittenRequeriesEveryCall | rwengine/include/render/OpenGLRenderer.hpp:172-176 | a run of as-written lookups of one name that contains a NUL, with its truncated prefix not memoised, queries the backend on every call |
| UniformCache.AsWrittenAgreesOnNulFreeNames | rwengine/include/render/OpenGLRenderer.hpp:171-182 | for a name without a NUL the as-written lookup returns the same location, memo and queries as the lookup keyed by the full name |
| UniformCache.LookupAllAsWritten | rwengine/include/render/OpenGLRenderer.hpp:171-182 | a run of as-written lookups returns one location per name, on the same program |
| UniformCache.AsWrittenAgreesOnNulFreeRuns | rwengine/include/render/OpenGLRenderer.hpp:171-182 | on runs of names without a NUL the as-written lookups equal the lookups keyed by the full name, so the at-most-once and backend-answer properties hold for the code as written |
| UniformCache.AsWrittenCounterexample | rwengine/include/render/OpenGLRenderer.hpp:172-176 | two lookups of "u\0" on a fresh program query twice as written, and once with the memo keyed by the full name |
| UniformCache.AsWrittenCanQueryLess | rwengine/include/render/OpenGLRenderer.hpp:172-176 | on a fresh program the run "u", "u\0" queries once as written and twice with the memo keyed by the full name, both of those queries sending the backend "u" |
| Profiling.Innermost | rwengine/include/render/OpenGLRenderer.hpp:241-243 | with `0 <= currentDebugDepth <= MAX_DEBUG_DEPTH`, an innermost slot exists exactly when the depth is positive, and its index `currentDebugDepth-1` is inside the array |
| Profiling.CountUpload | rwengine/include/render/OpenGLRenderer.hpp:229-234 | with the profiler on and depth > 0, the innermost slot's `uploads` rises by one modulo 2^32 and no other slot, field or the depth changes; at depth 0 or with the profiler off the storage is unchanged |
| GLRenderer.UploadUBO | rwengine/include/render/OpenGLRenderer.hpp:222-235 | issues one bind, to the requested buffer, exactly when the cached binding differs; always issues one data upload, last; afterwards the cache holds the requested buffer; depth, counters and everything else outside the tally are unchanged |
| GLRenderer.ElidedBindChangesNothing | rwengine/include/render/OpenGLRenderer.hpp:224-227 | binding the buffer the context already has bound changes the effect of no later call, which justifies eliding it |
| GLRenderer.UploadUBOReachesRequestedBuffer | rwengine/include/render/OpenGLRenderer.hpp:224-228 | while the cache agrees with the context, the uploaded data lands in the requested buffer and no other, with or without the bind, and the cache still agrees |
| GLRenderer.UploadAll | rwengine/include/render/OpenGLRenderer.hpp:222-235 | a run of uploads, each with its own buffer and `sizeof(T)` (scene and object data interleaved, say); afterwards the cache holds the last requested buffer, and the depth and counters are unchanged |
| GLRenderer.UploadAllCounts | rwengine/include/render/OpenGLRenderer.hpp:224-228 | over any run of uploads, whatever their sizes, there is exactly one data upload per call, and a bind at exactly each position whose buffer differs from the one before it |
| GLRenderer.RepeatedUploadsBindAtMostOnce | rwengine/include/render/OpenGLRenderer.hpp:224-228 | N consecutive uploads to one buffer issue N data uploads and at most one bind, and none if that buffer was already cached |
| GLRenderer.UploadAllTally | rwengine/include/render/OpenGLRenderer.hpp:229-234 | over N uploads with a group open and the profiler on, the innermost slot's `uploads` rises by N modulo 2^32 and nothing else in the profiling storage changes; otherwise the storage is untouched |
| GLRenderer.UploadAllReachesBuffers | rwengine/include/render/OpenGLRenderer.hpp:224-228 | while the cache agrees with the context, a run of uploads leaves every requested buffer holding the size last uploaded to it, leaves every other buffer alone and keeps the cache in agreement |
| GLRenderer.LastSizesMeaning | rwengine/include/render/OpenGLRenderer.hpp:224-228 | each entry of the per-buffer size map comes from a request to that buffer with that size, and no later request in the run goes to that buffer |
| GLRenderer.Swap | rwengine/include/render/OpenGLRenderer.hpp:106-116 | after `swap()` the counts read by `getDrawCount`, `getTextureCount` and `getBufferCount` (modelled as `DrawCount`, `TextureCount`, `BufferCount`) are all zero |
| GLRenderer.UploadsAfterSwapLeaveCountersZero | rwengine/include/render/OpenGLRenderer.hpp:151-153 | uploads do not count toward the per-frame counters, so they still read zero after a swap followed by uploads |

## Findings

| source | as written | input that shows it | evidently intended | confidence | as-written member | corrected member |
|---|---|---|---|---|---|---|
| rwengine/include/render/OpenGLRenderer.hpp:172-176 | the memo is searched with `uniforms.find(name.c_str())`, which stops at the first NUL, but a miss stores under the full `name` | looking up `"u\0"` twice on a fresh program queries the backend twice | search with `find(name)`, so each lookup name is queried at most once | medium (on runs without a NUL the two agree, as `UniformCache.AsWrittenAgreesOnNulFreeRuns` shows, and the returned value is always correct); not executed | UniformCache.GetUniformLocationAsWritten | UniformCache.LookupAllQueriesOncePerName |

The rest of the model uses the corrected `UniformCache.GetUniformLocation`.
`UniformCache.GetUniformLocationAsWritten` is the header's code as written.
`UniformCache.AsWrittenRequeriesEveryCall` states the discrepancy for every
name containing a NUL whose truncated prefix is not memoised, and `UniformCache.AsWrittenCounterexample` shows it on `"u\0"`.
The correction does not mean fewer queries on every run: on a fresh program
the run `"u"`, `"u\0"` queries once as written (the second search finds `"u"`)
and twice with the memo keyed by the full name, as
`UniformCache.AsWrittenCanQueryLess` shows. Both of those queries send the
backend the same string `"u"`: the correction keys the memo by the lookup name,
not by the string the backend sees. What it promises is at most one query per
distinct lookup name, not per distinct C string.

## Left out

- GL calls (`glGetUniformLocation`, `glBindBuffer`, `glBufferData`, timer queries): modelled only as an oracle (`Query`) or as `GLCall` trace events. The data's bytes are reduced to `sizeof(T)` (`size`).
- Shader creation and compilation (`createShader`, `compileShader`, `compileProgram`): foreign API calls whose bodies are not in the header.
- `draw`, `drawArrays`, `clear`, `setSceneParameters`, `useProgram`, `useTexture`, `useDrawBuffer`, `invalidate`, `setUniform*`, `setUniformTexture`, `setProgramBlockBinding`: their bodies are not in the header, so their caching behaviour (texture-unit elision over `currentTextures` included) cannot be stated from it.
- `pushDebugGroup` / `popDebugGroup`: only their doc comments are in the header. The lifetime of the returned reference is not expressible without their bodies. Their upkeep of the depth bound is taken as `Profiling.Valid`, a precondition.
- The `OpenGLRenderer` constructor: its body is not in the header. The initial `currentUBO` and depth are therefore arbitrary valid values. Agreement between the cache and the GL context (`InSync`) is a precondition of the lemmas that use it.
- GLRenderer.Swap: the body of `swap()` is not in the header; its doc comment (lines 106-108) promises only the counter reset. That `Swap` keeps `currentUBO` and the profiling storage is an assumption of the model, not something the header shows: `Renderer::swap` (line 109) could reach those private `OpenGLRenderer` fields (lines 221, 241-243) through a virtual call such as `invalidate()` (lines 104, 206) or `popDebugGroup()` (lines 145, 209).
- Buffer name 0: the context model (`GLRenderer.Execute`) treats it as an ordinary buffer. In GL, binding 0 unbinds the target and `glBufferData` then fails with `GL_INVALID_OPERATION` and stores nothing, so for `buffer == 0` `GLRenderer.UploadUBOReachesRequestedBuffer` and `GLRenderer.UploadAllReachesBuffers` overstate where the data goes. The bind-elision results do not depend on this: the outcome is the same with or without the elided bind.
- Increments of the draw, texture and buffer counters: they happen in member bodies the header does not contain.
- `RW_USING(RENDER_PROFILER)`: a compile-time switch, modelled as the `profiler` parameter.
- Vertex attribute lists (`VertexP3`, `VertexP2`), uniform data records, `DrawParameters`, viewport and `get2DProjection`, `getIDString`, `getSceneData`, `getName`: floating-point data or plain accessors with no caching logic.
- `timerStart`, `duration` and `debugQuery`: timer-query results are never written by the code in the header.
- Thread safety: the header has no synchronisation, and concurrent use is not modelled.
