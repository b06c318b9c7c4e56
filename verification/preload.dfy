/** `set_ld_preload`: derive the path of a freshly built interception
    library next to the launcher's own path, and choose between it and the
    installed copy. */
module Preload {
  import opened Wrappers
  import opened Environment

  /** The variable the dynamic loader reads. */
  const LD_PRELOAD: string := "LD_PRELOAD"
  /** What replaces everything after the last '/' of the launcher path. */
  const LOCAL_LIB: string := ".libs/libzzuf.so"
  /** The string whose length sizes the buffer (one byte more than needed). */
  const ALLOC_SUFFIX: string := "/.libs/libzzuf.so"
  /** Appended to the configure-time LIBDIR for the installed library. */
  const INSTALLED_LIB: string := "/libzzuf.so"

  /** `strrchr(s, '/')`: the index of the last '/', if any. */
  function LastSlash(s: string): (r: Option<nat>)
    ensures r.Some? ==> r.value < |s| && s[r.value] == '/'
                        && forall j :: r.value < j < |s| ==> s[j] != '/'
    ensures r.None? ==> forall j :: 0 <= j < |s| ==> s[j] != '/'
    decreases |s|
  {
    if s == [] then None
    else if s[|s| - 1] == '/' then Some(|s| - 1)
    else
      var init := s[..|s| - 1];
      assert forall j :: 0 <= j < |init| ==> init[j] == s[j];
      LastSlash(init)
  }

  /** `d` is the directory part of `p`: a prefix of it that is empty or ends
      in '/', with no '/' left in the rest of `p`. */
  ghost predicate IsDirPart(d: string, p: string)
  {
    && d <= p
    && (d == [] || d[|d| - 1] == '/')
    && forall j :: |d| <= j < |p| ==> p[j] != '/'
  }

  /** `p` up to and including its last '/', or nothing if it has none. */
  function DirPart(p: string): (d: string)
    ensures IsDirPart(d, p)
  {
    match LastSlash(p)
    case Some(i) => p[..i + 1]
    case None => []
  }

  /** The directory part is unique: DirPart is the only string with the
      property, so the property may serve as its definition. */
  lemma DirPartUnique(d: string, p: string)
    ensures IsDirPart(d, p) <==> d == DirPart(p)
  {
  }

  /** The candidate path of the library built in the source tree. */
  function LocalLibPath(progpath: string): (r: string)
    ensures |r| >= |LOCAL_LIB| && r[|r| - |LOCAL_LIB|..] == LOCAL_LIB
    ensures IsDirPart(r[..|r| - |LOCAL_LIB|], progpath)
    ensures (forall j :: 0 <= j < |progpath| ==> progpath[j] != '/') ==> r == LOCAL_LIB
    ensures |r| + 1 <= |progpath| + |ALLOC_SUFFIX| + 1
  {
    var d := DirPart(progpath);
    var r := d + LOCAL_LIB;
    assert r[..|r| - |LOCAL_LIB|] == d;
    DirPartUnique([], progpath);
    r
  }

  /** `strcpy(buf + at, s)`: the characters of `s` and a terminator are
      written from index `at` on, and no byte outside those `|s| + 1` is
      touched. */
  method CopyAt(buf: seq<char>, at: nat, s: string) returns (out: seq<char>)
    requires at + |s| < |buf|
    ensures |out| == |buf|
    ensures out[..at] == buf[..at]
    ensures out[at..at + |s|] == s && out[at + |s|] == '\0'
    ensures out[at + |s| + 1..] == buf[at + |s| + 1..]
  {
    out := buf;
    var i := 0;
    while i < |s|
      invariant 0 <= i <= |s|
      invariant |out| == |buf|
      invariant out[..at] == buf[..at]
      invariant forall j :: 0 <= j < i ==> out[at + j] == s[j]
      invariant out[at + |s|..] == buf[at + |s|..]
    {
      out := out[at + i := s[i]];
      i := i + 1;
    }
    out := out[at + |s| := '\0'];
    assert out[at..at + |s|] == s;
  }

  /** `strrchr(buf, '/')` on a terminated buffer: scans up to the first NUL
      and reports the last '/' before it. */
  method FindLastSlash(buf: seq<char>, s: string) returns (r: Option<nat>)
    requires |s| < |buf| && buf[..|s|] == s && buf[|s|] == '\0'
    requires forall j :: 0 <= j < |s| ==> s[j] != '\0'
    ensures r == LastSlash(s)
  {
    r := None;
    var k := 0;
    while buf[k] != '\0'
      invariant 0 <= k <= |s|
      invariant r == LastSlash(s[..k])
      decreases |s| - k
    {
      assert buf[k] == s[k];
      assert s[..k + 1][..k] == s[..k];
      if buf[k] == '/' {
        r := Some(k);
      }
      k := k + 1;
    }
    assert s[..k] == s;
  }

  /** The C buffer steps of `set_ld_preload` on a NUL-free `progpath`:
      allocate `strlen(progpath) + strlen("/.libs/libzzuf.so") + 1` bytes,
      `strcpy` the path in, `strrchr` for the last '/', and `strcpy` the
      library name after it (or at the start). Every write is in bounds,
      and the terminated string left in the buffer is LocalLibPath. */
  method FillLibPath(progpath: string) returns (buf: seq<char>, n: nat)
    requires forall j :: 0 <= j < |progpath| ==> progpath[j] != '\0'
    ensures |buf| == |progpath| + |ALLOC_SUFFIX| + 1
    ensures n < |buf| && buf[n] == '\0'
    ensures buf[..n] == LocalLibPath(progpath)
  {
    var len := |progpath|;
    buf := seq(len + |ALLOC_SUFFIX| + 1, _ => '\0');
    buf := CopyAt(buf, 0, progpath);
    assert buf[..len] == buf[0..len];
    var slash := FindLastSlash(buf, progpath);
    var start := if slash.Some? then slash.value + 1 else 0;
    ghost var dir := buf[..start];
    assert dir == DirPart(progpath) by {
      assert buf[..start] == buf[..len][..start];
    }
    buf := CopyAt(buf, start, LOCAL_LIB);
    n := start + |LOCAL_LIB|;
    assert buf[..n] == buf[..start] + buf[start..n];
  }

  /** The `access(libpath, R_OK)` test decides: the local build when it is
      readable, otherwise LIBDIR "/libzzuf.so" verbatim. */
  function SelectPreload(progpath: string, libdir: string, readable: string -> bool): (path: string)
    ensures readable(LocalLibPath(progpath)) ==> path == LocalLibPath(progpath)
    ensures !readable(LocalLibPath(progpath)) ==> path == libdir + INSTALLED_LIB
  {
    var local := LocalLibPath(progpath);
    if readable(local) then local else libdir + INSTALLED_LIB
  }

  /** `set_ld_preload`: LD_PRELOAD is set, overwriting any earlier value,
      and nothing else in the environment changes. */
  function SetLdPreload(progpath: string, libdir: string, readable: string -> bool, env: Env): (r: Env)
    ensures Lookup(r, LD_PRELOAD) == Some(SelectPreload(progpath, libdir, readable))
    ensures forall k :: k != LD_PRELOAD ==> Lookup(r, k) == Lookup(env, k)
  {
    SetEnv(env, LD_PRELOAD, SelectPreload(progpath, libdir, readable))
  }
}
