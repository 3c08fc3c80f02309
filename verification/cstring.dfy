/** Null-terminated character buffers: the `strncpy` copy that fills a PRINT
    action's buffer and the string `Keyboard.print` reads back out of it. */
module CString {
  import opened Types

  const NUL: char := '\0'

  /** The C string held by `s`: everything before the first NUL (all of `s`
      when it has none). */
  function CStr(s: seq<char>): (r: seq<char>)
    ensures |r| <= |s| && r == s[..|r|]
    ensures NUL !in r
    ensures |r| < |s| ==> s[|r|] == NUL
  {
    if s == [] || s[0] == NUL then [] else [s[0]] + CStr(s[1..])
  }

  /** `strncpy(dst, src, n)`: copies the characters of `src` up to its first NUL,
      at most `n` of them, and pads the rest of the `n` slots with NUL. */
  function StrNCopy(src: seq<char>, n: nat): (r: seq<char>)
    ensures |r| == n
    ensures r[..Min(|CStr(src)|, n)] == CStr(src)[..Min(|CStr(src)|, n)]
    ensures forall i :: Min(|CStr(src)|, n) <= i < n ==> r[i] == NUL
  {
    if n == 0 then []
    else if src == [] || src[0] == NUL then seq(n, _ => NUL)
    else [src[0]] + StrNCopy(src[1..], n - 1)
  }

  /** A C string followed only by terminators reads back as itself. */
  lemma {:induction false} CStrOfPadded(p: seq<char>, pad: seq<char>)
    requires NUL !in p
    requires |pad| > 0 && forall i :: 0 <= i < |pad| ==> pad[i] == NUL
    ensures CStr(p + pad) == p
  {
    if p == [] {
      assert (p + pad)[0] == NUL;
    } else {
      assert (p + pad)[1..] == p[1..] + pad;
      CStrOfPadded(p[1..], pad);
      assert [p[0]] + p[1..] == p;
    }
  }
}
