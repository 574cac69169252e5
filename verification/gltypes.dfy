/** Fixed-width integer types of the OpenGL API and of the C++ fields that hold
    them, plus the two small helpers every other module needs: an Option type
    and the view a C API gets of a `std::string` through `c_str()`. */
module GLTypes {

  /** `GLuint` and C++ `unsigned int`: 32-bit unsigned. */
  newtype Uint32 = x: int | 0 <= x < 0x1_0000_0000

  /** `GLuint64`: 64-bit unsigned. */
  newtype Uint64 = x: int | 0 <= x < 0x1_0000_0000_0000_0000

  /** `GLint` and C++ `int`: 32-bit signed. */
  newtype Int32 = x: int | -0x8000_0000 <= x < 0x8000_0000

  type GLuint = Uint32
  type GLint = Int32
  type GLuint64 = Uint64

  const TWO_TO_32: int := 0x1_0000_0000

  /** Unsigned `x++` on a 32-bit counter: past 2^32 - 1 it wraps to 0. */
  function Inc32(x: Uint32): (r: Uint32)
    ensures r as int == (x as int + 1) % TWO_TO_32
    ensures x as int < TWO_TO_32 - 1 ==> r as int == x as int + 1
  {
    if x == 0xFFFF_FFFF then 0 else x + 1
  }

  datatype Option<+T> = None | Some(value: T)

  /** The string a C API receives from `s.c_str()`: the characters before the
      first NUL, since the callee stops reading there. */
  function CStr(s: string): (r: string)
    ensures r <= s
    ensures '\0' !in r
    ensures |r| < |s| ==> s[|r|] == '\0'
  {
    if |s| == 0 || s[0] == '\0' then [] else [s[0]] + CStr(s[1..])
  }

  /** A string without a NUL passes through `c_str()` whole. */
  lemma CStrOfNulFree(s: string)
    requires '\0' !in s
    ensures CStr(s) == s
  {
  }

  /** Taking `c_str()` of something already cut at its NUL changes nothing. */
  lemma CStrIdempotent(s: string)
    ensures CStr(CStr(s)) == CStr(s)
  {
    CStrOfNulFree(CStr(s));
  }

  /** A string with a NUL in it is not what the C API receives. */
  lemma CStrDropsNul(s: string)
    requires '\0' in s
    ensures CStr(s) != s
  {
  }
}
