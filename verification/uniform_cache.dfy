/** `OpenGLRenderer::OpenGLShaderProgram`: a linked GL program name plus a
    lazily filled memo from uniform name to uniform location.

    The GL query `glGetUniformLocation(program, name)` is an oracle `Query`
    supplied by the caller; it receives the C string of the name, and answers
    -1 for a uniform the program does not have. Every lookup reports the names
    whose lookup missed the memo and so queried the oracle, so the number of
    backend queries is visible in the result; the oracle itself receives
    `CStr(name)`, which differs from `name` when the name holds a NUL. */
module UniformCache {
  import opened GLTypes

  /** `glGetUniformLocation(program, cname)`. */
  type Query = (GLuint, string) -> GLint

  /** The location the backend reports for a uniform the program lacks. */
  const NOT_PRESENT: GLint := -1

  datatype ShaderProgram = ShaderProgram(program: GLuint, uniforms: map<string, GLint>)

  /** One lookup: the location returned, the program with its updated memo, and
      the lookup name if it missed the memo and so queried the backend (empty
      on a hit). The backend was sent `CStr` of that name. */
  datatype Lookup = Lookup(loc: GLint, shader: ShaderProgram, queried: seq<string>)

  /** Several lookups in a row, with the location returned for each. */
  datatype Lookups = Lookups(locs: seq<GLint>, shader: ShaderProgram, queried: seq<string>)

  /** Every memoised location is the one the backend reports for that name. */
  ghost predicate Coherent(sp: ShaderProgram, query: Query)
  {
    forall n :: n in sp.uniforms ==> sp.uniforms[n] == query(sp.program, CStr(n))
  }

  ghost predicate NoDuplicates(s: seq<string>)
  {
    forall i, j :: 0 <= i < j < |s| ==> s[i] != s[j]
  }

  /** The constructor: a program name with nothing memoised yet. Such a memo
      agrees with every backend. */
  function NewShaderProgram(p: GLuint): (r: ShaderProgram)
    ensures r.program == p
    ensures forall n :: n !in r.uniforms
    ensures forall query: Query :: Coherent(r, query)
  {
    ShaderProgram(p, map[])
  }

  /** `getUniformLocation(name)`, with the memo keyed by the full name.
      A hit answers from the memo, asks nothing and leaves the memo alone; a
      miss asks the backend once and memoises whatever it said, -1 included. */
  function GetUniformLocation(sp: ShaderProgram, name: string, query: Query): (r: Lookup)
    ensures r.shader.program == sp.program
    ensures name in r.shader.uniforms && r.shader.uniforms[name] == r.loc
    ensures name in sp.uniforms ==>
              r.loc == sp.uniforms[name] && r.shader == sp && r.queried == []
    ensures name !in sp.uniforms ==>
              && r.loc == query(sp.program, CStr(name))
              && r.queried == [name]
              && r.shader.uniforms.Keys == sp.uniforms.Keys + {name}
              && (forall n :: n in sp.uniforms ==> r.shader.uniforms[n] == sp.uniforms[n])
  {
    if name in sp.uniforms then
      Lookup(sp.uniforms[name], sp, [])
    else
      var loc := query(sp.program, CStr(name));
      Lookup(loc, sp.(uniforms := sp.uniforms[name := loc]), [name])
  }

  /** Whatever the memo holds, once it agrees with the backend a lookup returns
      exactly what the backend would have said, and the memo still agrees. */
  lemma LookupAnswersBackend(sp: ShaderProgram, name: string, query: Query)
    requires Coherent(sp, query)
    ensures GetUniformLocation(sp, name, query).loc == query(sp.program, CStr(name))
    ensures Coherent(GetUniformLocation(sp, name, query).shader, query)
  {
  }

  /** A sequence of lookups on one program, in order. */
  function LookupAll(sp: ShaderProgram, names: seq<string>, query: Query): (r: Lookups)
    ensures |r.locs| == |names|
    ensures r.shader.program == sp.program
    ensures sp.uniforms.Keys <= r.shader.uniforms.Keys
    ensures forall n :: n in sp.uniforms ==> r.shader.uniforms[n] == sp.uniforms[n]
    decreases |names|
  {
    if |names| == 0 then
      Lookups([], sp, [])
    else
      var first := GetUniformLocation(sp, names[0], query);
      var rest := LookupAll(first.shader, names[1..], query);
      Lookups([first.loc] + rest.locs, rest.shader, first.queried + rest.queried)
  }

  /** Over any run of lookups the backend is asked at most once per distinct
      lookup name, and exactly for the names that were not memoised at the
      start, those resolved to -1 included. Distinct names with the same C
      string are distinct queries: the memo is keyed by the lookup name. */
  lemma {:induction false} LookupAllQueriesOncePerName(sp: ShaderProgram, names: seq<string>, query: Query)
    ensures var r := LookupAll(sp, names, query);
            && NoDuplicates(r.queried)
            && (forall n :: n in r.queried <==> n in names && n !in sp.uniforms)
    decreases |names|
  {
    if |names| > 0 {
      var first := GetUniformLocation(sp, names[0], query);
      var rest := LookupAll(first.shader, names[1..], query);
      LookupAllQueriesOncePerName(first.shader, names[1..], query);
      assert forall n :: n in names <==> n == names[0] || n in names[1..];
      var q := first.queried + rest.queried;
      assert LookupAll(sp, names, query).queried == q;
      forall i, j | 0 <= i < j < |q|
        ensures q[i] != q[j]
      {
        if j >= |first.queried| {
          if i < |first.queried| {
            assert q[i] == names[0];
            assert q[j] in rest.queried;
          } else {
            assert q[i] == rest.queried[i - |first.queried|];
            assert q[j] == rest.queried[j - |first.queried|];
          }
        }
      }
    }
  }

  /** After a run of lookups every name looked up is memoised, and nothing
      else was added. */
  lemma {:induction false} LookupAllMemoisesEveryName(sp: ShaderProgram, names: seq<string>, query: Query)
    ensures LookupAll(sp, names, query).shader.uniforms.Keys == sp.uniforms.Keys + set n | n in names
    decreases |names|
  {
    if |names| > 0 {
      var first := GetUniformLocation(sp, names[0], query);
      LookupAllMemoisesEveryName(first.shader, names[1..], query);
      assert (set n | n in names) == {names[0]} + set n | n in names[1..];
    }
  }

  /** Starting from a memo that agrees with the backend (a fresh program's
      does), each lookup in a run returns the backend's answer for its name,
      hit or miss alike, and the memo keeps agreeing. */
  lemma {:induction false} LookupAllAnswersBackend(sp: ShaderProgram, names: seq<string>, query: Query)
    requires Coherent(sp, query)
    ensures var r := LookupAll(sp, names, query);
            && (forall i :: 0 <= i < |names| ==> r.locs[i] == query(sp.program, CStr(names[i])))
            && Coherent(r.shader, query)
    decreases |names|
  {
    if |names| > 0 {
      var first := GetUniformLocation(sp, names[0], query);
      LookupAnswersBackend(sp, names[0], query);
      LookupAllAnswersBackend(first.shader, names[1..], query);
      var r := LookupAll(sp, names, query);
      forall i | 0 <= i < |names|
        ensures r.locs[i] == query(sp.program, CStr(names[i]))
      {
        if i > 0 {
          assert names[i] == names[1..][i - 1];
        }
      }
    }
  }

  /** `getUniformLocation(name)` exactly as written: the memo is searched with
      `uniforms.find(name.c_str())`, whose key is rebuilt from the C string and
      so stops at the first NUL, but a miss stores the result under the full
      `name`, overwriting an entry an earlier miss left there. */
  function GetUniformLocationAsWritten(sp: ShaderProgram, name: string, query: Query): (r: Lookup)
    ensures r.shader.program == sp.program
    ensures CStr(name) in sp.uniforms ==>
              r.loc == sp.uniforms[CStr(name)] && r.shader == sp && r.queried == []
    ensures CStr(name) !in sp.uniforms ==>
              && r.loc == query(sp.program, CStr(name))
              && r.queried == [name]
              && name in r.shader.uniforms && r.shader.uniforms[name] == r.loc
              && r.shader.uniforms.Keys == sp.uniforms.Keys + {name}
              && (forall n :: n in sp.uniforms && n != name ==> r.shader.uniforms[n] == sp.uniforms[n])
  {
    var key := CStr(name);
    if key in sp.uniforms then
      Lookup(sp.uniforms[key], sp, [])
    else
      var loc := query(sp.program, CStr(name));
      Lookup(loc, sp.(uniforms := sp.uniforms[name := loc]), [name])
  }

  /** The as-written lookup still returns the backend's answer: the truncated
      key it searches under is also all the backend ever sees. */
  lemma AsWrittenAnswersBackend(sp: ShaderProgram, name: string, query: Query)
    requires Coherent(sp, query)
    ensures GetUniformLocationAsWritten(sp, name, query).loc == query(sp.program, CStr(name))
    ensures Coherent(GetUniformLocationAsWritten(sp, name, query).shader, query)
  {
    CStrIdempotent(name);
  }

  /** For a name without a NUL the as-written lookup is the memo keyed by the
      full name: the truncated key is the name itself. */
  lemma AsWrittenAgreesOnNulFreeNames(sp: ShaderProgram, name: string, query: Query)
    requires '\0' !in name
    ensures GetUniformLocationAsWritten(sp, name, query) == GetUniformLocation(sp, name, query)
  {
    CStrOfNulFree(name);
  }

  /** A run of as-written lookups, in order. */
  function LookupAllAsWritten(sp: ShaderProgram, names: seq<string>, query: Query): (r: Lookups)
    ensures |r.locs| == |names|
    ensures r.shader.program == sp.program
    decreases |names|
  {
    if |names| == 0 then
      Lookups([], sp, [])
    else
      var first := GetUniformLocationAsWritten(sp, names[0], query);
      var rest := LookupAllAsWritten(first.shader, names[1..], query);
      Lookups([first.loc] + rest.locs, rest.shader, first.queried + rest.queried)
  }

  /** On runs of names without a NUL the as-written lookups behave exactly as
      the memo keyed by the full name, so every property proved of `LookupAll`
      (one query per distinct name, backend answers) holds of them too. */
  lemma {:induction false} AsWrittenAgreesOnNulFreeRuns(sp: ShaderProgram, names: seq<string>, query: Query)
    requires forall i :: 0 <= i < |names| ==> '\0' !in names[i]
    ensures LookupAllAsWritten(sp, names, query) == LookupAll(sp, names, query)
    decreases |names|
  {
    if |names| > 0 {
      AsWrittenAgreesOnNulFreeNames(sp, names[0], query);
      var first := GetUniformLocation(sp, names[0], query);
      AsWrittenAgreesOnNulFreeRuns(first.shader, names[1..], query);
    }
  }

  /** For a name holding a NUL, while its NUL-truncated prefix is not
      memoised, the as-written lookup misses: the entry a miss creates sits
      under the full name, which the next search does not use, so the prefix
      stays unmemoised and the next lookup of the same name asks again. */
  lemma AsWrittenRequeriesNulNames(sp: ShaderProgram, name: string, query: Query)
    requires '\0' in name
    requires CStr(name) !in sp.uniforms
    ensures var first := GetUniformLocationAsWritten(sp, name, query);
            && first.queried == [name]
            && CStr(name) !in first.shader.uniforms
            && GetUniformLocationAsWritten(first.shader, name, query).queried == [name]
  {
    CStrDropsNul(name);
  }

  /** Hence a run of as-written lookups of one such name asks the backend on
      every call, where the memo keyed by the full name asks once. */
  lemma {:induction false} AsWrittenRequeriesEveryCall(sp: ShaderProgram, name: string, names: seq<string>, query: Query)
    requires '\0' in name
    requires CStr(name) !in sp.uniforms
    requires forall i :: 0 <= i < |names| ==> names[i] == name
    ensures LookupAllAsWritten(sp, names, query).queried == names
    decreases |names|
  {
    if |names| > 0 {
      AsWrittenRequeriesNulNames(sp, name, query);
      var first := GetUniformLocationAsWritten(sp, name, query);
      AsWrittenRequeriesEveryCall(first.shader, name, names[1..], query);
      assert [name] + names[1..] == names;
    }
  }

  /** A concrete case: two lookups of "u\0" on a fresh program ask the backend
      twice, where the memo keyed by the full name asks once. */
  lemma AsWrittenCounterexample()
    ensures var sp := NewShaderProgram(1);
            var query: Query := (p, n) => NOT_PRESENT;
            var first := GetUniformLocationAsWritten(sp, "u\0", query);
            var second := GetUniformLocationAsWritten(first.shader, "u\0", query);
            && first.queried + second.queried == ["u\0", "u\0"]
            && LookupAll(sp, ["u\0", "u\0"], query).queried == ["u\0"]
  {
    var sp := NewShaderProgram(1);
    var query: Query := (p, n) => NOT_PRESENT;
    AsWrittenRequeriesNulNames(sp, "u\0", query);
    assert ["u\0", "u\0"][1..] == ["u\0"];
  }

  /** The reverse case: on a fresh program the run "u", "u\0" asks the
      backend once as written, because the second search finds "u", while the
      memo keyed by the full name queries for both names, and both of those
      queries send the backend the same string "u". The correction does not
      mean fewer queries on every run; it means at most one per lookup name. */
  lemma AsWrittenCanQueryLess()
    ensures var sp := NewShaderProgram(1);
            var query: Query := (p, n) => NOT_PRESENT;
            var first := GetUniformLocationAsWritten(sp, "u", query);
            var second := GetUniformLocationAsWritten(first.shader, "u\0", query);
            var corrected := LookupAll(sp, ["u", "u\0"], query).queried;
            && first.queried + second.queried == ["u"]
            && corrected == ["u", "u\0"]
            && CStr(corrected[0]) == "u" && CStr(corrected[1]) == "u"
  {
    assert CStr("u") == "u";
    assert CStr("u\0") == "u";
    assert ["u", "u\0"][1..] == ["u\0"];
  }
}
