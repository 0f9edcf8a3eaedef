/**
 * The two POSIX path functions of Node's `path` module the bookmark scanner
 * uses: `basename` (the last component, ignoring trailing slashes) and
 * `extname` (from the last dot of that component, except for a leading dot
 * and for `..`).
 */
module NodePath {
  import opened Wrappers

  /** The length of `p[..n]` once its trailing slashes are dropped. */
  function KeptLength(p: string, n: nat): (m: nat)
    requires n <= |p|
    ensures m <= n
    ensures m == 0 || p[m - 1] != '/'
    ensures forall i :: m <= i < n ==> p[i] == '/'
    decreases n
  {
    if n > 0 && p[n - 1] == '/' then KeptLength(p, n - 1) else n
  }

  /** `p` without its trailing slashes. */
  function TrimSlashes(p: string): (r: string)
    ensures |r| <= |p| && r == p[..|r|]
    ensures r == [] || r[|r| - 1] != '/'
    ensures forall i :: |r| <= i < |p| ==> p[i] == '/'
  {
    p[..KeptLength(p, |p|)]
  }

  /** The part of `p` after its last slash. */
  function AfterLastSlash(p: string): (r: string)
    ensures |r| <= |p| && r == p[|p| - |r|..]
    ensures '/' !in r
    ensures |r| < |p| ==> p[|p| - |r| - 1] == '/'
  {
    match LastIndexOf(p, '/')
    case None => p
    case Some(k) => p[k + 1..]
  }

  /** `path.basename(p)`. */
  function Basename(p: string): (r: string)
    ensures '/' !in r
  {
    AfterLastSlash(TrimSlashes(p))
  }

  /** The index of the last `c` in `s[..n]`. */
  function LastBefore(s: string, c: char, n: nat): (r: Option<nat>)
    requires n <= |s|
    ensures r.Some? ==> r.value < n && s[r.value] == c && forall j :: r.value < j < n ==> s[j] != c
    ensures r.None? ==> forall j :: 0 <= j < n ==> s[j] != c
    decreases n
  {
    if n == 0 then None
    else if s[n - 1] == c then Some(n - 1)
    else LastBefore(s, c, n - 1)
  }

  /** The index of the last `c` in `s`. */
  function LastIndexOf(s: string, c: char): (r: Option<nat>)
    ensures r.Some? ==> r.value < |s| && s[r.value] == c && c !in s[r.value + 1..]
    ensures r.None? ==> c !in s
  {
    LastBefore(s, c, |s|)
  }

  /**
   * The extension of a path component: empty when it has no dot, when its only
   * dot is its first character, or when it is `..`; otherwise the component
   * from its last dot on.
   */
  function ExtOf(b: string): (r: string)
    requires '/' !in b
    ensures r == [] || (r[0] == '.' && '.' !in r[1..] && '/' !in r)
    ensures r != [] ==> |r| < |b| && b[|b| - |r|..] == r
  {
    match LastIndexOf(b, '.')
    case None => []
    case Some(k) =>
      if k == 0 || b == ".." then []
      else
        DotSuffix(b, k);
        b[k..]
  }

  /** `path.extname(p)`: the extension of the basename. */
  function Extname(p: string): (r: string)
    ensures r == [] || (r[0] == '.' && '.' !in r[1..] && '/' !in r)
    ensures r != [] ==> |r| < |Basename(p)| && Basename(p)[|Basename(p)| - |r|..] == r
  {
    ExtOf(Basename(p))
  }

  /** The suffix of a slash-free name from its last dot starts with that dot and has no other. */
  lemma {:induction false} DotSuffix(b: string, k: nat)
    requires k < |b| && b[k] == '.' && '.' !in b[k + 1..] && '/' !in b
    ensures var r := b[k..];
      r[0] == '.' && '.' !in r[1..] && '/' !in r && |r| <= |b| && b[|b| - |r|..] == r
  {
    var r := b[k..];
    assert r[1..] == b[k + 1..];
    forall i | 0 <= i < |r| ensures r[i] != '/' {
      assert r[i] == b[k + i];
    }
  }

  /** A name without slashes, after a directory and a slash, is its own basename. */
  lemma {:induction false} BasenameOfJoin(dir: string, name: string)
    requires name != [] && '/' !in name
    ensures Basename(dir + "/" + name) == name
    ensures Basename(name) == name
    decreases |name|
  {
    var p := dir + "/" + name;
    assert p[|p| - 1] == name[|name| - 1];
    assert TrimSlashes(p) == p;
    assert TrimSlashes(name) == name;
    AfterLastSlashOfJoin(dir + "/", name);
    AfterLastSlashOfJoin([], name);
    assert [] + name == name;
  }

  /** After a prefix ending in a slash (or an empty one), the slash-free tail is what follows the last slash. */
  lemma {:induction false} AfterLastSlashOfJoin(pre: string, name: string)
    requires pre == [] || pre[|pre| - 1] == '/'
    requires '/' !in name
    ensures AfterLastSlash(pre + name) == name
  {
    var p := pre + name;
    assert p[|pre|..] == name;
    if pre == [] {
      assert p == name;
    } else {
      LastIndexOfAt(p, '/', |pre| - 1);
    }
  }

  /** `LastIndexOf` finds a position exactly when nothing after it matches. */
  lemma {:induction false} LastIndexOfAt(s: string, c: char, k: nat)
    requires k < |s| && s[k] == c && c !in s[k + 1..]
    ensures LastIndexOf(s, c) == Some(k)
  {
  }

  /** A component without a dot, or whose only dot leads it, has no extension. */
  lemma {:induction false} ExtOfNoExtension(b: string)
    requires '/' !in b
    requires '.' !in b || (b[0] == '.' && '.' !in b[1..])
    ensures ExtOf(b) == []
  {
    if '.' in b {
      LastIndexOfAt(b, '.', 0);
    }
  }

  /** A stem followed by `.ext` (a dot, then no dot) has extension `.ext`, unless the component is `..`. */
  lemma {:induction false} ExtOfStemAndExtension(stem: string, ext: string)
    requires stem != [] && stem != "." && '/' !in stem
    requires ext != [] && ext[0] == '.' && '.' !in ext[1..] && '/' !in ext
    ensures ExtOf(stem + ext) == ext
  {
    var b := stem + ext;
    assert b[|stem|..] == ext;
    assert b[|stem| + 1..] == ext[1..];
    assert '/' !in b by {
      forall i | 0 <= i < |b| ensures b[i] != '/' {
        if i < |stem| { assert b[i] == stem[i]; } else { assert b[i] == ext[i - |stem|]; }
      }
    }
    LastIndexOfAt(b, '.', |stem|);
  }
}
