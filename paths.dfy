/**
 * Where an `<include file=...>` points: the Vite alias rewrite
 * (`resolveWithAlias`), the choice of base directory, POSIX `path.resolve`
 * and `path.dirname`, and the extension allow-list.
 */
module Paths {
  import opened Options
  import opened JsText

  // ---------------------------------------------------------------- aliases

  /** One entry of Vite's `resolve.alias` array; `replacement` is `None` when undefined. */
  datatype Alias = Alias(find: string, replacement: Option<string>)

  /** The entry is usable (a non-empty `find`, a defined replacement) and `p` starts with `find + '/'`. */
  predicate Applies(a: Alias, p: string) {
    a.find != [] && a.replacement.Some? && StartsWith(p, a.find + "/")
  }

  /**
   * `p.replace(find, replacement)`. Since `p` starts with `find + '/'`, the
   * first occurrence of `find` is the prefix, so the prefix is swapped.
   */
  function Rewrite(a: Alias, p: string): (r: string)
    requires Applies(a, p)
    ensures r == a.replacement.value + p[|a.find|..]
  {
    assert StartsWith(p, a.find) by { assert p[..|a.find|] == (a.find + "/")[..|a.find|]; }
    ReplaceFirst(p, a.find, a.replacement.value)
  }

  /** The first usable alias, in list order, whose `find + '/'` prefixes `p` rewrites it. */
  function AliasRewrite(aliases: seq<Alias>, p: string): (r: string)
    ensures forall i :: 0 <= i < |aliases| && Applies(aliases[i], p)
                     && (forall j :: 0 <= j < i ==> !Applies(aliases[j], p))
                     ==> r == Rewrite(aliases[i], p)
    ensures (forall i :: 0 <= i < |aliases| ==> !Applies(aliases[i], p)) ==> r == p
  {
    if aliases == [] then p
    else if Applies(aliases[0], p) then Rewrite(aliases[0], p)
    else
      var r := AliasRewrite(aliases[1..], p);
      assert forall i :: 1 <= i < |aliases| ==> aliases[1..][i - 1] == aliases[i];
      r
  }

  /** `resolveWithAlias`: scan the aliases and return at the first one that applies. */
  method ResolveWithAlias(aliases: seq<Alias>, p: string) returns (r: string)
    ensures r == AliasRewrite(aliases, p)
  {
    for i := 0 to |aliases|
      invariant AliasRewrite(aliases[i..], p) == AliasRewrite(aliases, p)
    {
      if Applies(aliases[i], p) {
        return Rewrite(aliases[i], p);
      }
      assert aliases[i..][1..] == aliases[i + 1..];
    }
    return p;
  }

  // ---------------------------------------------------------------- POSIX path.resolve

  /** A segment of a normalised path: not empty, not `.` or `..`, no separator. */
  predicate NormalSegment(s: string) {
    s != "" && s != "." && s != ".." && '/' !in s
  }

  predicate NormalSegments(st: seq<string>) {
    forall k :: 0 <= k < |st| ==> NormalSegment(st[k])
  }

  predicate NoSeparator(segs: seq<string>) {
    forall k :: 0 <= k < |segs| ==> '/' !in segs[k]
  }

  /** One segment of `normalizeString` on an absolute path: skip empty and `.`, pop on `..` (never above the root), push the rest. */
  function PushSegment(stack: seq<string>, seg: string): seq<string> {
    if seg == "" || seg == "." then stack
    else if seg == ".." then (if stack == [] then [] else stack[..|stack| - 1])
    else stack + [seg]
  }

  /** The segments left after processing `segs` on top of `stack`. */
  function Canon(stack: seq<string>, segs: seq<string>): (r: seq<string>)
    ensures NormalSegments(stack) && NoSeparator(segs) ==> NormalSegments(r)
    decreases |segs|
  {
    if segs == [] then stack
    else
      assert NoSeparator(segs) ==> NoSeparator(segs[1..]) by {
        assert forall k :: 1 <= k < |segs| ==> segs[1..][k - 1] == segs[k];
      }
      Canon(PushSegment(stack, segs[0]), segs[1..])
  }

  /** The string form of an absolute path given by its segments. */
  function Rooted(st: seq<string>): string {
    "/" + Join(st, "/")
  }

  /** `normalizeString` on an absolute path, with the root put back in front. */
  function Normalize(p: string): (r: string)
    ensures |r| >= 1 && r[0] == '/'
  {
    Rooted(Canon([], SplitOn(p, '/')))
  }

  /** One argument of `path.resolve`: empty ones are skipped, an absolute one starts over. */
  function Combine(acc: string, part: string): string {
    if part == [] then acc
    else if part[0] == '/' then part
    else acc + "/" + part
  }

  function Joined(acc: string, parts: seq<string>): string
    decreases |parts|
  {
    if parts == [] then acc else Joined(Combine(acc, parts[0]), parts[1..])
  }

  /** `path.resolve(...parts)` on POSIX, with `cwd` standing for `process.cwd()`. */
  function Resolve(cwd: string, parts: seq<string>): (r: string)
    ensures |r| >= 1 && r[0] == '/'
  {
    Normalize(Joined(cwd, parts))
  }

  // ---------------------------------------------------------------- lemmas on segments

  lemma {:induction false} JoinConcat(a: seq<string>, b: seq<string>, sep: string)
    requires a != [] && b != []
    ensures Join(a + b, sep) == Join(a, sep) + sep + Join(b, sep)
  {
    if |a| == 1 {
      assert (a + b)[1..] == b;
    } else {
      assert (a + b)[1..] == a[1..] + b;
      JoinConcat(a[1..], b, sep);
    }
  }

  lemma FreeOfConcat(p: seq<string>, q: seq<string>, c: char)
    requires forall k :: 0 <= k < |p| ==> c !in p[k]
    requires forall k :: 0 <= k < |q| ==> c !in q[k]
    ensures forall k :: 0 <= k < |p + q| ==> c !in (p + q)[k]
  {
  }

  /** Splitting at a separator that joins two texts splits each of them. */
  lemma {:induction false} SplitConcat(x: string, y: string, c: char)
    ensures SplitOn(x + [c] + y, c) == SplitOn(x, c) + SplitOn(y, c)
  {
    var p, q := SplitOn(x, c), SplitOn(y, c);
    JoinConcat(p, q, [c]);
    assert Join(p + q, [c]) == x + [c] + y;
    FreeOfConcat(p, q, c);
    SplitJoin(p + q, c);
  }

  lemma {:induction false} CanonConcat(stack: seq<string>, a: seq<string>, b: seq<string>)
    ensures Canon(stack, a + b) == Canon(Canon(stack, a), b)
    decreases |a|
  {
    if a == [] {
      assert a + b == b;
    } else {
      assert (a + b)[0] == a[0] && (a + b)[1..] == a[1..] + b;
      CanonConcat(PushSegment(stack, a[0]), a[1..], b);
    }
  }

  /** Segments that are already normal are pushed as they are. */
  lemma {:induction false} CanonNormal(stack: seq<string>, st: seq<string>)
    requires NormalSegments(st)
    ensures Canon(stack, st) == stack + st
    decreases |st|
  {
    if st != [] {
      assert NormalSegments(st[1..]) by {
        assert forall k :: 1 <= k < |st| ==> st[1..][k - 1] == st[k];
      }
      CanonNormal(stack + [st[0]], st[1..]);
      assert stack + [st[0]] + st[1..] == stack + st;
    }
  }

  /** A rooted path of normal segments splits back into those segments, after the empty root part. */
  lemma {:induction false} SplitRooted(st: seq<string>)
    requires NormalSegments(st)
    ensures Canon([], SplitOn(Rooted(st), '/')) == st
  {
    if st == [] {
      assert SplitOn("/", '/') == ["", ""] by {
        assert Join(["", ""], "/") == "/";
        SplitJoin(["", ""], '/');
      }
      assert Canon([], ["", ""]) == Canon(PushSegment([], ""), [""]) == Canon([], [""]) == [];
    } else {
      assert Join([""] + st, "/") == Rooted(st) by {
        assert ([""] + st)[1..] == st;
      }
      assert forall k :: 0 <= k < |[""] + st| ==> '/' !in ([""] + st)[k] by {
        assert forall k :: 1 <= k < |[""] + st| ==> ([""] + st)[k] == st[k - 1];
      }
      SplitJoin([""] + st, '/');
      CanonConcat([], [""], st);
      CanonNormal([], st);
    }
  }

  /** `path.resolve` of a resolved path changes nothing. */
  lemma {:induction false} NormalizeIdempotent(p: string)
    ensures Normalize(Normalize(p)) == Normalize(p)
  {
    SplitRooted(Canon([], SplitOn(p, '/')));
  }

  /** Splitting at a `/` that joins two texts splits each of them. */
  lemma SplitSlash(x: string, f: string)
    ensures SplitOn(x + "/" + f, '/') == SplitOn(x, '/') + SplitOn(f, '/')
  {
    assert x + "/" + f == x + ['/'] + f;
    SplitConcat(x, f, '/');
  }

  lemma SplitDot(f: string)
    ensures SplitOn("./" + f, '/') == ["."] + SplitOn(f, '/')
  {
    assert "./" + f == "." + ['/'] + f;
    SplitConcat(".", f, '/');
    assert SplitOn(".", '/') == ["."];
  }

  lemma CanonDot(a: seq<string>, b: seq<string>)
    ensures Canon([], a + (["."] + b)) == Canon([], a + b)
  {
    var c := Canon([], a);
    CanonConcat([], a, ["."] + b);
    CanonConcat(c, ["."], b);
    assert Canon(c, ["."]) == c;
    CanonConcat([], a, b);
  }

  /** A `.` segment between two parts of a path makes no difference. */
  lemma {:induction false} DotSegmentIgnored(x: string, f: string)
    ensures Normalize(x + "/" + ("./" + f)) == Normalize(x + "/" + f)
  {
    SplitSlash(x, "./" + f);
    SplitDot(f);
    SplitSlash(x, f);
    CanonDot(SplitOn(x, '/'), SplitOn(f, '/'));
  }

  /** A trailing separator makes no difference. */
  lemma {:induction false} TrailingSeparatorIgnored(x: string)
    ensures Normalize(x + "/" + "") == Normalize(x)
  {
    assert x + "/" + "" == x + ['/'] + "";
    SplitConcat(x, "", '/');
    assert SplitOn("", '/') == [""];
    CanonConcat([], SplitOn(x, '/'), [""]);
  }

  // ---------------------------------------------------------------- path.dirname

  /** Index of the last `/`. */
  function LastSlash(p: string): (i: nat)
    requires '/' in p
    ensures i < |p| && p[i] == '/'
    ensures forall k :: i < k < |p| ==> p[k] != '/'
  {
    if p[|p| - 1] == '/' then |p| - 1
    else
      assert '/' in p[..|p| - 1] by {
        var k :| 0 <= k < |p| && p[k] == '/';
        assert p[..|p| - 1][k] == '/';
      }
      LastSlash(p[..|p| - 1])
  }

  /**
   * `path.dirname` on POSIX for a path that `path.resolve` produced (rooted,
   * no trailing separator except the root itself): everything before the
   * last `/`, or the root.
   */
  function Dirname(p: string): (r: string)
    requires |p| >= 1 && p[0] == '/'
    ensures |r| >= 1 && r[0] == '/' && |r| <= |p|
  {
    var i := LastSlash(p);
    if i == 0 then "/" else p[..i]
  }

  lemma {:induction false} JoinSnoc(init: seq<string>, last: string, sep: string)
    requires init != []
    ensures Join(init + [last], sep) == Join(init, sep) + sep + last
  {
    JoinConcat(init, [last], sep);
  }

  /** The directory of a resolved path is the path of its parent: the last segment is dropped. */
  lemma {:induction false} DirnameParent(st: seq<string>)
    requires NormalSegments(st) && st != []
    ensures Dirname(Rooted(st)) == Rooted(st[..|st| - 1])
  {
    var last := st[|st| - 1];
    assert '/' !in last;
    if |st| == 1 {
      var p := Rooted(st);
      assert p == "/" + last;
      assert forall k :: 0 < k < |p| ==> p[k] == last[k - 1];
      assert LastSlash(p) == 0;
    } else {
      var init := st[..|st| - 1];
      assert st == init + [last];
      JoinSnoc(init, last, "/");
      var head := "/" + Join(init, "/");
      var p := Rooted(st);
      assert p == head + "/" + last;
      assert forall k :: |head| < k < |p| ==> p[k] == last[k - |head| - 1];
      assert p[|head|] == '/';
      assert LastSlash(p) == |head|;
      assert p[..|head|] == head;
    }
  }

  /** Resolving a plain relative path under a resolved directory just appends it. */
  lemma {:induction false} ResolveRelativeAppends(cwd: string, base: seq<string>, rel: seq<string>)
    requires NormalSegments(base) && NormalSegments(rel) && base != [] && rel != []
    ensures Resolve(cwd, [Rooted(base), Join(rel, "/")]) == Rooted(base) + "/" + Join(rel, "/")
  {
    var b, f := Rooted(base), Join(rel, "/");
    assert f[0] != '/' by {
      if |rel| == 1 { assert f == rel[0]; } else { assert f == rel[0] + "/" + Join(rel[1..], "/"); }
      assert rel[0] != "" && '/' !in rel[0];
    }
    assert [b, f][1..] == [f];
    assert Joined(cwd, [b, f]) == Joined(b, [f]);
    assert Joined(b, [f]) == Joined(b + "/" + f, []);
    NormalizeAppend(base, rel);
  }

  /** A rooted path followed by more normal segments is already normal. */
  lemma {:induction false} NormalizeAppend(base: seq<string>, rel: seq<string>)
    requires NormalSegments(base) && NormalSegments(rel) && base != [] && rel != []
    ensures Normalize(Rooted(base) + "/" + Join(rel, "/")) == Rooted(base) + "/" + Join(rel, "/")
  {
    RootedAppend(base, rel);
    assert NormalSegments(base + rel) by {
      assert forall k :: |base| <= k < |base + rel| ==> (base + rel)[k] == rel[k - |base|];
    }
    SplitRooted(base + rel);
  }

  lemma RootedAppend(base: seq<string>, rel: seq<string>)
    requires base != [] && rel != []
    ensures Rooted(base + rel) == Rooted(base) + "/" + Join(rel, "/")
  {
    JoinConcat(base, rel, "/");
  }

  // ---------------------------------------------------------------- which file an include names

  /**
   * The path an include's (interpolated) `file` value resolves to. A path an
   * alias changed is resolved on its own (against the working directory); a
   * path with a leading `/` against the working directory without that
   * slash; any other against the including file's directory, as
   * `base/file` or `base/./file` depending on `allowAbsolutePaths`.
   */
  function ResolveInclude(cwd: string, aliases: seq<Alias>, allowAbsolutePaths: bool, baseDir: string, file: string): (r: string)
    ensures |r| >= 1 && r[0] == '/'
  {
    var aliased := AliasRewrite(aliases, file);
    if aliased != file then Resolve(cwd, [aliased])
    else if StartsWith(file, "/") then Resolve(cwd, [cwd, file[1..]])
    else if allowAbsolutePaths then Resolve(cwd, [baseDir, file])
    else Resolve(cwd, [baseDir, "./" + file])
  }

  /** On POSIX `allowAbsolutePaths` never changes the outcome. */
  lemma {:induction false} AllowAbsolutePathsIrrelevant(cwd: string, aliases: seq<Alias>, baseDir: string, file: string)
    ensures ResolveInclude(cwd, aliases, true, baseDir, file) == ResolveInclude(cwd, aliases, false, baseDir, file)
  {
    var aliased := AliasRewrite(aliases, file);
    if aliased == file && !StartsWith(file, "/") {
      var x := Combine(cwd, baseDir);
      assert [baseDir, file][1..] == [file] && [baseDir, "./" + file][1..] == ["./" + file];
      assert Joined(cwd, [baseDir, "./" + file]) == Joined(x, ["./" + file]);
      assert Joined(x, ["./" + file]) == Joined(x + "/" + ("./" + file), []);
      assert Joined(cwd, [baseDir, file]) == Joined(x, [file]);
      if file == [] {
        assert Joined(x, [file]) == Joined(x, []);
        TrailingSeparatorIgnored(x);
        DotSegmentIgnored(x, file);
        assert x + "/" + file == x + "/" + "";
      } else {
        assert file[0] != '/';
        assert Joined(x, [file]) == Joined(x + "/" + file, []);
        DotSegmentIgnored(x, file);
      }
    }
  }

  /** A path with a leading `/` that no alias rewrites ignores the including file's directory. */
  lemma {:induction false} RootedIgnoresBaseDir(cwd: string, aliases: seq<Alias>, flag: bool, base1: string, base2: string, file: string)
    requires StartsWith(file, "/")
    requires forall i :: 0 <= i < |aliases| ==> !Applies(aliases[i], file)
    ensures ResolveInclude(cwd, aliases, flag, base1, file) == ResolveInclude(cwd, aliases, flag, base2, file)
    ensures ResolveInclude(cwd, aliases, flag, base1, file) == Resolve(cwd, [cwd, file[1..]])
  {
  }

  /** A relative path that no alias rewrites is resolved against the including file's directory. */
  lemma {:induction false} RelativeUsesBaseDir(cwd: string, aliases: seq<Alias>, flag: bool, baseDir: string, file: string)
    requires !StartsWith(file, "/")
    requires forall i :: 0 <= i < |aliases| ==> !Applies(aliases[i], file)
    ensures ResolveInclude(cwd, aliases, flag, baseDir, file) == Resolve(cwd, [baseDir, file])
  {
    AllowAbsolutePathsIrrelevant(cwd, aliases, baseDir, file);
  }

  /** A path an alias rewrites ignores both the including file's directory and `allowAbsolutePaths`. */
  lemma {:induction false} AliasedIgnoresBaseDir(cwd: string, aliases: seq<Alias>, flag1: bool, flag2: bool, base1: string, base2: string, file: string, i: nat)
    requires i < |aliases| && Applies(aliases[i], file)
    requires forall j :: 0 <= j < i ==> !Applies(aliases[j], file)
    requires Rewrite(aliases[i], file) != file
    ensures ResolveInclude(cwd, aliases, flag1, base1, file) == ResolveInclude(cwd, aliases, flag2, base2, file)
    ensures ResolveInclude(cwd, aliases, flag1, base1, file) == Resolve(cwd, [Rewrite(aliases[i], file)])
  {
  }

  // ---------------------------------------------------------------- extensions

  /** `extensions.some(ext => p.endsWith(ext))`. */
  function AllowedExtension(extensions: seq<string>, p: string): (ok: bool)
    ensures ok <==> exists i :: 0 <= i < |extensions| && EndsWith(p, extensions[i])
  {
    if extensions == [] then false
    else if EndsWith(p, extensions[0]) then true
    else
      var ok := AllowedExtension(extensions[1..], p);
      assert forall i :: 1 <= i < |extensions| ==> extensions[1..][i - 1] == extensions[i];
      ok
  }
}
