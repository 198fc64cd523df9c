/** File-system paths as the JDK's Unix path implementation treats them:
    `Paths.get` collapses repeated slashes and drops a trailing one, `resolve`
    appends a relative path under a separator, and `toAbsolutePath` resolves a
    relative path against the working directory. Paths stay strings in their
    normal form; nothing here touches a file system. */
module Paths {
  import opened Wrappers

  /** No two slashes in a row, and no trailing slash except for the root. */
  predicate IsNormal(p: string) {
    && (forall i :: 0 <= i < |p| - 1 ==> !(p[i] == '/' && p[i + 1] == '/'))
    && (|p| > 1 ==> p[|p| - 1] != '/')
  }

  predicate IsAbsolute(p: string) {
    |p| > 0 && p[0] == '/'
  }

  /** Repeated slashes collapsed to one. */
  function Collapse(s: string): (r: string)
    ensures |r| <= |s|
    ensures forall i :: 0 <= i < |r| - 1 ==> !(r[i] == '/' && r[i + 1] == '/')
    ensures |s| > 0 ==> |r| > 0 && r[0] == s[0]
    ensures |s| > 0 ==> r[|r| - 1] == s[|s| - 1]
  {
    if |s| <= 1 then s
    else
      var r := Collapse(s[..|s| - 1]);
      var c := s[|s| - 1];
      if c == '/' && r[|r| - 1] == '/' then r else r + [c]
  }

  /** The normal form `Paths.get` produces for text without a NUL character. */
  function Normalize(s: string): (r: string)
    ensures IsNormal(r)
    ensures |s| > 0 ==> |r| > 0 && (IsAbsolute(r) <==> IsAbsolute(s))
  {
    var c := Collapse(s);
    if |c| > 1 && c[|c| - 1] == '/' then c[..|c| - 1] else c
  }

  /** `Paths.get(s)`: fails, as InvalidPathException, on a NUL character. */
  function PathOf(s: string): (r: Option<string>)
    ensures r.Some? <==> '\0' !in s
    ensures r.Some? ==> IsNormal(r.value)
  {
    if '\0' in s then None else Some(Normalize(s))
  }

  lemma {:induction false} CollapseNormal(s: string)
    requires forall i :: 0 <= i < |s| - 1 ==> !(s[i] == '/' && s[i + 1] == '/')
    ensures Collapse(s) == s
  {
    if |s| > 1 {
      var init := s[..|s| - 1];
      CollapseNormal(init);
      assert s == init + [s[|s| - 1]];
    }
  }

  /** Normalizing is idempotent: a path already in normal form is unchanged,
      and so normalizing twice is normalizing once. */
  lemma NormalizeFixesNormal(p: string)
    requires IsNormal(p)
    ensures Normalize(p) == p
  {
    CollapseNormal(p);
  }

  lemma NormalizeIdempotent(s: string)
    ensures Normalize(Normalize(s)) == Normalize(s)
  {
    NormalizeFixesNormal(Normalize(s));
  }

  /** `base.resolve(other)`: an absolute `other` wins, an empty one leaves
      `base`, an empty `base` gives `other`, otherwise one separator joins them. */
  function Resolve(base: string, other: string): (r: string)
    requires IsNormal(base) && IsNormal(other)
    ensures IsNormal(r)
    ensures IsAbsolute(other) ==> r == other
    ensures !IsAbsolute(other) && |base| > 0 ==> (IsAbsolute(r) <==> IsAbsolute(base))
  {
    if IsAbsolute(other) then other
    else if other == "" then base
    else if base == "" then other
    else
      var sep := if base == "/" then "" else "/";
      var r := base + sep + other;
      assert IsNormal(r) by {
        forall i | 0 <= i < |r| - 1 ensures !(r[i] == '/' && r[i + 1] == '/') {
          if i < |base| - 1 {
            assert r[i] == base[i] && r[i + 1] == base[i + 1];
          } else if i >= |base + sep| {
            assert r[i] == other[i - |base + sep|] && r[i + 1] == other[i + 1 - |base + sep|];
          }
        }
      }
      r
  }

  /** Text after the last slash. */
  function FileName(p: string): string {
    if '/' !in p then p
    else if p[|p| - 1] == '/' then ""
    else FileName(p[1..])
  }

  /** Text before the last slash, or "/" when that slash is the first character. */
  function Parent(p: string): string
    decreases |p|
  {
    if '/' !in p then ""
    else if p[|p| - 1] == '/' then (if |p| == 1 then "/" else p[..|p| - 1])
    else Parent(p[..|p| - 1])
  }

  lemma {:induction false} FileNameAfterSlash(prefix: string, name: string)
    requires '/' !in name
    ensures FileName(prefix + "/" + name) == name
    decreases |prefix|
  {
    var p := prefix + "/" + name;
    if |name| == 0 {
      assert p[|p| - 1] == '/';
    } else {
      assert p[|p| - 1] == name[|name| - 1];
      assert '/' in p by { assert p[|prefix|] == '/'; }
      if |prefix| == 0 {
        assert p[1..] == name;
      } else {
        assert p[1..] == prefix[1..] + "/" + name;
        FileNameAfterSlash(prefix[1..], name);
      }
    }
  }

  lemma {:induction false} ParentBeforeSlash(prefix: string, name: string)
    requires '/' !in name
    ensures Parent(prefix + "/" + name) == if prefix == "" then "/" else prefix
    decreases |name|
  {
    var p := prefix + "/" + name;
    assert '/' in p by { assert p[|prefix|] == '/'; }
    if |name| == 0 {
      assert p[..|p| - 1] == prefix;
    } else {
      assert p[|p| - 1] == name[|name| - 1];
      assert p[..|p| - 1] == prefix + "/" + name[..|name| - 1];
      ParentBeforeSlash(prefix, name[..|name| - 1]);
    }
  }

  /** Resolving a single relative name under a non-empty directory is undone by
      splitting at the last slash: the parent is the directory, the file name
      is the name. */
  lemma ResolveChildSplits(base: string, name: string)
    requires IsNormal(base) && IsNormal(name)
    requires |base| > 0 && |name| > 0 && '/' !in name
    ensures Parent(Resolve(base, name)) == base
    ensures FileName(Resolve(base, name)) == name
  {
    if base == "/" {
      assert Resolve(base, name) == "" + "/" + name;
      FileNameAfterSlash("", name);
      ParentBeforeSlash("", name);
    } else {
      FileNameAfterSlash(base, name);
      ParentBeforeSlash(base, name);
    }
  }

  /** A relative multi-segment path lands under `base`, after one separator. */
  lemma ResolveUnder(base: string, other: string)
    requires IsNormal(base) && IsNormal(other)
    requires |base| > 0 && base != "/" && |other| > 0 && !IsAbsolute(other)
    ensures Resolve(base, other) == base + "/" + other
  {
  }

  /** `toAbsolutePath` against the working directory `cwd`. */
  function ToAbsolute(p: string, cwd: string): (r: string)
    requires IsNormal(p) && IsNormal(cwd) && IsAbsolute(cwd)
    ensures IsNormal(r) && IsAbsolute(r)
    ensures IsAbsolute(p) ==> r == p
  {
    if IsAbsolute(p) then p else Resolve(cwd, p)
  }

  /** Making a path absolute twice is making it absolute once. */
  lemma ToAbsoluteIdempotent(p: string, cwd: string)
    requires IsNormal(p) && IsNormal(cwd) && IsAbsolute(cwd)
    ensures ToAbsolute(ToAbsolute(p, cwd), cwd) == ToAbsolute(p, cwd)
  {
  }
}
