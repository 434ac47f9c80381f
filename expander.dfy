/**
 * `processIncludes`: parse the page, then repeatedly take the first
 * `<include>` element in document order and either remove it or replace it
 * with the expansion of the file it names, until none is left. The file
 * system is a map from resolved path to content; the recursion into included
 * files and the number of loop iterations are bounded by `fuel`, since the
 * source has no guard against an include cycle.
 */
module Expander {
  import opened Options
  import opened JsText
  import opened Html
  import opened Variables
  import opened Paths
  import opened Slots
  import opened AttrMerge

  /** The plugin options that matter here. */
  datatype Config = Config(extensions: seq<string>, open: string, close: string, allowAbsolutePaths: bool)

  /** The options when none are given: `.html` and `.svg`, `{{ }}`, no absolute paths. */
  function DefaultConfig(): (c: Config)
    ensures c.extensions == [".html", ".svg"] && c.open == "{{" && c.close == "}}" && !c.allowAbsolutePaths
  {
    Config([".html", ".svg"], "{{", "}}", false)
  }

  /**
   * What the expander sees of its environment: `process.cwd()`, Vite's alias
   * list, the readable files (resolved path to UTF-8 content) and the HTML
   * library.
   */
  datatype Host = Host(cwd: string, aliases: seq<Alias>, files: map<string, string>, markup: Markup)

  /** The warnings the expander prints; `referencedIn` is empty for an unknown source. */
  datatype Diagnostic =
    | ExtensionNotAllowed(path: string)
    | UnreadableFile(path: string, referencedIn: string, file: string)
    | Loaded(path: string)
    | MultipleRoots(file: string)

  /** What becomes of one include tag before any recursion. */
  datatype Action =
    | Remove(diags: seq<Diagnostic>)
    | Load(file: string, path: string, content: string)

  /**
   * The checks of one iteration: no (or an empty) `file` attribute, a
   * disallowed extension or an unreadable file remove the tag; otherwise its
   * resolved path and content are loaded.
   */
  function Classify(cfg: Config, host: Host, baseDir: string, vars: Scope, attrs: seq<Attribute>, source: string): (a: Action)
    ensures GetAttribute(attrs, "file").GetOr([]) == [] ==> a == Remove([])
    ensures a.Remove? ==> |a.diags| <= 1
    ensures a.Load? ==>
      && GetAttribute(attrs, "file").Some?
      && a.file == Interpolate(cfg.open, cfg.close, GetAttribute(attrs, "file").value, vars)
      && a.path == ResolveInclude(host.cwd, host.aliases, cfg.allowAbsolutePaths, baseDir, a.file)
      && AllowedExtension(cfg.extensions, a.path)
      && a.path in host.files && a.content == host.files[a.path]
    ensures GetAttribute(attrs, "file").GetOr([]) != [] ==>
      var raw := GetAttribute(attrs, "file").value;
      var path := ResolveInclude(host.cwd, host.aliases, cfg.allowAbsolutePaths, baseDir, Interpolate(cfg.open, cfg.close, raw, vars));
      && (!AllowedExtension(cfg.extensions, path) ==> a == Remove([ExtensionNotAllowed(path)]))
      && (AllowedExtension(cfg.extensions, path) && path !in host.files ==> a == Remove([UnreadableFile(path, source, raw)]))
      && (AllowedExtension(cfg.extensions, path) && path in host.files ==> a == Load(Interpolate(cfg.open, cfg.close, raw, vars), path, host.files[path]))
  {
    var raw := GetAttribute(attrs, "file").GetOr([]);
    if raw == [] then Remove([])
    else
      var file := Interpolate(cfg.open, cfg.close, raw, vars);
      var path := ResolveInclude(host.cwd, host.aliases, cfg.allowAbsolutePaths, baseDir, file);
      if !AllowedExtension(cfg.extensions, path) then Remove([ExtensionNotAllowed(path)])
      else if path !in host.files then Remove([UnreadableFile(path, source, raw)])
      else Load(file, path, host.files[path])
  }

  /**
   * The nodes an include is replaced by, from the expanded content of its
   * file: interpolate, parse, fill the slots, inject the tag's attributes into
   * a single root, and splice in the serialisation.
   */
  function Fragment(cfg: Config, host: Host, tag: Node, vars: Scope, expanded: string, file: string): (r: (seq<Node>, seq<Diagnostic>))
    requires tag.Element?
    ensures |r.1| <= 1
  {
    var parsed := host.markup.parseFragment(Interpolate(cfg.open, cfg.close, expanded, vars));
    var filled := FillSlots(host.markup, SlotMapOf(host.markup, tag.children), parsed);
    var out := ApplyToSingleRoot(filled, tag.attrs);
    var diags := if TopElements(filled) != 1 && HasClassOrStyle(tag.attrs) then [MultipleRoots(file)] else [];
    (Splice(host.markup, host.markup.serialize(out)), diags)
  }

  /** The tree a run leaves, the warnings it printed, and whether it finished within its fuel. */
  datatype Outcome = Outcome(tree: seq<Node>, diags: seq<Diagnostic>, complete: bool)

  /** The source file passed down and named in warnings: `sourceFile || resolvedPath`. */
  function SourceFor(source: string, path: string): string {
    if source != [] then source else path
  }

  /** `processIncludes(input, baseDir, vars, source)` with at most `fuel` nested files and `fuel` iterations per file. */
  function Expansion(cfg: Config, host: Host, fuel: nat, input: string, baseDir: string, vars: Scope, source: string): (o: Outcome)
    decreases fuel, fuel + 2
  {
    var root := host.markup.parseDocument(input);
    if fuel == 0 then Outcome(root, [], false)
    else Loop(cfg, host, fuel, fuel, root, baseDir, vars, source)
  }

  /** The `while (true)` loop from the tree `root`, with `budget` iterations left. */
  function Loop(cfg: Config, host: Host, fuel: nat, budget: nat, root: seq<Node>, baseDir: string, vars: Scope, source: string): (o: Outcome)
    requires fuel >= 1
    decreases fuel, budget + 1
  {
    match FirstTag(root, "include")
    case None => Outcome(root, [], true)
    case Some(p) =>
      if budget == 0 then Outcome(root, [], false)
      else
        var s := Step(cfg, host, fuel, root, p, baseDir, vars, source);
        var rest := Loop(cfg, host, fuel, Spent(budget), s.tree, baseDir, vars, source);
        Outcome(rest.tree, s.diags + rest.diags, s.complete && rest.complete)
  }

  /** The budget after one more pass. */
  function Spent(budget: nat): (r: nat)
    requires budget >= 1
    ensures r < budget
  {
    budget - 1
  }

  /** One iteration on the include at `p`: the tree afterwards and the warnings printed on the way. */
  function Step(cfg: Config, host: Host, fuel: nat, root: seq<Node>, p: Path, baseDir: string, vars: Scope, source: string): (s: Outcome)
    requires fuel >= 1 && ValidPath(root, p) && NodeAt(root, p).Element?
    decreases fuel, 1
  {
    var tag := NodeAt(root, p);
    var merged := MergeScopes(vars, ExtractVars(tag.attrs));
    match Classify(cfg, host, baseDir, merged, tag.attrs, source)
    case Remove(ds) => Outcome(ReplaceAt(root, p, []), ds, true)
    case Load(file, path, content) => LoadStep(cfg, host, fuel, root, p, merged, file, path, content, source)
  }

  /** An iteration that loads `path`: expand its content, then splice the fragment in place of the tag. */
  function LoadStep(cfg: Config, host: Host, fuel: nat, root: seq<Node>, p: Path, merged: Scope,
                    file: string, path: string, content: string, source: string): (s: Outcome)
    requires fuel >= 1 && ValidPath(root, p) && NodeAt(root, p).Element? && |path| >= 1 && path[0] == '/'
    decreases fuel, 0
  {
    var inner := Expansion(cfg, host, fuel - 1, content, Dirname(path), merged, SourceFor(source, path));
    var (frag, fds) := Fragment(cfg, host, NodeAt(root, p), merged, host.markup.serialize(inner.tree), file);
    Outcome(ReplaceAt(root, p, frag), [Loaded(path)] + inner.diags + fds, inner.complete)
  }

  // ---------------------------------------------------------------- properties

  /** An iteration replaces the first include, and only it; a removed tag takes its whole subtree along. */
  lemma StepReplacesFirstInclude(cfg: Config, host: Host, fuel: nat, root: seq<Node>, baseDir: string, vars: Scope, source: string)
    requires fuel >= 1 && FirstTag(root, "include").Some?
    ensures var p := FirstTag(root, "include").value;
      var tag := NodeAt(root, p);
      var s := Step(cfg, host, fuel, root, p, baseDir, vars, source);
      && (forall q :: IsTagAt(root, q, "include") ==> PathLe(p, q))
      && (Classify(cfg, host, baseDir, MergeScopes(vars, ExtractVars(tag.attrs)), tag.attrs, source).Remove? ==>
            s.tree == ReplaceAt(root, p, []) && CountTag(s.tree, "include") < CountTag(root, "include"))
  {
    var p := FirstTag(root, "include").value;
    forall q | IsTagAt(root, q, "include") ensures PathLe(p, q) {
      FirstTagIsFirst(root, "include", q);
    }
    CountReplaceAt(root, p, [], "include");
    assert CountTag([NodeAt(root, p)], "include") >= 1 by {
      assert IsTagAt([NodeAt(root, p)], [0], "include");
      TagAtCounted([NodeAt(root, p)], [0], "include");
    }
  }

  /**
   * An include whose file is named, allowed and readable is replaced by the
   * fragment built from that file, expanded in the tag's merged scope from the
   * file's own directory; the warnings are `Loaded`, the file's own, then the
   * fragment's.
   */
  lemma StepLoadsFile(cfg: Config, host: Host, fuel: nat, root: seq<Node>, p: Path, baseDir: string, vars: Scope, source: string)
    requires fuel >= 1 && ValidPath(root, p) && NodeAt(root, p).Element?
    ensures var tag := NodeAt(root, p);
      var merged := MergeScopes(vars, ExtractVars(tag.attrs));
      var raw := GetAttribute(tag.attrs, "file").GetOr([]);
      var file := Interpolate(cfg.open, cfg.close, raw, merged);
      var path := ResolveInclude(host.cwd, host.aliases, cfg.allowAbsolutePaths, baseDir, file);
      raw != [] && AllowedExtension(cfg.extensions, path) && path in host.files ==>
        var inner := Expansion(cfg, host, fuel - 1, host.files[path], Dirname(path), merged, SourceFor(source, path));
        var (frag, fds) := Fragment(cfg, host, tag, merged, host.markup.serialize(inner.tree), file);
        Step(cfg, host, fuel, root, p, baseDir, vars, source) == Outcome(ReplaceAt(root, p, frag), [Loaded(path)] + inner.diags + fds, inner.complete)
  {
  }

  /** A run that finishes within its fuel leaves no include element behind. */
  lemma {:induction false} LoopCompleteNoInclude(cfg: Config, host: Host, fuel: nat, budget: nat, root: seq<Node>, baseDir: string, vars: Scope, source: string)
    requires fuel >= 1
    ensures Loop(cfg, host, fuel, budget, root, baseDir, vars, source).complete ==>
      CountTag(Loop(cfg, host, fuel, budget, root, baseDir, vars, source).tree, "include") == 0
    decreases budget
  {
    match FirstTag(root, "include")
    case None =>
    case Some(p) =>
      if budget > 0 {
        var s := Step(cfg, host, fuel, root, p, baseDir, vars, source);
        LoopCompleteNoInclude(cfg, host, fuel, Spent(budget), s.tree, baseDir, vars, source);
      }
  }

  lemma ExpansionCompleteNoInclude(cfg: Config, host: Host, fuel: nat, input: string, baseDir: string, vars: Scope, source: string)
    ensures Expansion(cfg, host, fuel, input, baseDir, vars, source).complete ==>
      CountTag(Expansion(cfg, host, fuel, input, baseDir, vars, source).tree, "include") == 0
  {
    if fuel > 0 {
      LoopCompleteNoInclude(cfg, host, fuel, fuel, host.markup.parseDocument(input), baseDir, vars, source);
    }
  }

  /** A page without includes is left as parsed, with nothing printed. */
  lemma NoIncludeUnchanged(cfg: Config, host: Host, fuel: nat, input: string, baseDir: string, vars: Scope, source: string)
    requires fuel >= 1 && CountTag(host.markup.parseDocument(input), "include") == 0
    ensures Expansion(cfg, host, fuel, input, baseDir, vars, source) == Outcome(host.markup.parseDocument(input), [], true)
  {
  }

  /**
   * The scope an included file is expanded with: the tag's own `$`-variables,
   * over the scope the tag itself was expanded in.
   */
  lemma IncludedScope(vars: Scope, attrs: seq<Attribute>)
    requires UniqueNames(attrs)
    ensures var merged := MergeScopes(vars, ExtractVars(attrs));
      && (forall i, k :: 0 <= i < |attrs| && attrs[i].name == "$" + k ==> k in merged && merged[k] == attrs[i].value)
      && (forall k :: k in vars && (forall i :: 0 <= i < |attrs| ==> attrs[i].name != "$" + k) ==> k in merged && merged[k] == vars[k])
  {
    var local := ExtractVars(attrs);
    forall i, k | 0 <= i < |attrs| && attrs[i].name == "$" + k
      ensures k in local && local[k] == attrs[i].value
    {
      ExtractVarsValue(attrs, i, k);
    }
  }

  // ---------------------------------------------------------------- the imperative loop

  /** Lines 107-119: the path chosen for the interpolated `file` value. */
  method ResolvePath(cfg: Config, host: Host, baseDir: string, file: string) returns (path: string)
    ensures path == ResolveInclude(host.cwd, host.aliases, cfg.allowAbsolutePaths, baseDir, file)
  {
    path := ResolveWithAlias(host.aliases, file);
    if path != file {
      path := Resolve(host.cwd, [path]);
    } else if StartsWith(file, "/") {
      path := Resolve(host.cwd, [host.cwd, file[1..]]);
    } else if cfg.allowAbsolutePaths {
      path := Resolve(host.cwd, [baseDir, file]);
    } else {
      path := Resolve(host.cwd, [baseDir, "./" + file]);
    }
  }

  /** Lines 148-199: build the fragment that replaces the tag, and the warning it may cost. */
  method BuildFragment(cfg: Config, host: Host, tag: Node, vars: Scope, expanded: string, file: string)
    returns (frag: seq<Node>, diags: seq<Diagnostic>)
    requires tag.Element?
    ensures (frag, diags) == Fragment(cfg, host, tag, vars, expanded, file)
  {
    var parsed := host.markup.parseFragment(Interpolate(cfg.open, cfg.close, expanded, vars));
    var slots := BuildSlotMap(host.markup, tag.children);
    var filled := FillSlots(host.markup, slots, parsed);
    diags := [];
    if TopElements(filled) == 1 {
      var i := FirstElement(filled);
      var attrs := InjectAttributes(filled[i].attrs, tag.attrs);
      filled := filled[i := filled[i].(attrs := attrs)];
    } else if HasClassOrStyle(tag.attrs) {
      diags := [MultipleRoots(file)];
    }
    frag := Splice(host.markup, host.markup.serialize(filled));
  }

  /** The whole run `e` is what has been gathered so far followed by the rest of the loop, `o`. */
  predicate Finishes(e: Outcome, diags: seq<Diagnostic>, complete: bool, o: Outcome) {
    e.tree == o.tree && e.diags == diags + o.diags && e.complete == (complete && o.complete)
  }

  /** Unfolding helper: moves one step's warnings and completeness into what has been gathered. */
  lemma FinishesStep(e: Outcome, diags: seq<Diagnostic>, complete: bool, stepDiags: seq<Diagnostic>, stepComplete: bool, rest: Outcome)
    requires Finishes(e, diags, complete, Outcome(rest.tree, stepDiags + rest.diags, stepComplete && rest.complete))
    ensures Finishes(e, diags + stepDiags, complete && stepComplete, rest)
  {
  }

  /** Lines 91-146, one pass of the loop body on the include at `p`; each early `return` is a `continue` of the source. */
  method Iterate(cfg: Config, host: Host, fuel: nat, root: seq<Node>, p: Path, baseDir: string, vars: Scope, source: string)
    returns (tree: seq<Node>, diags: seq<Diagnostic>, complete: bool)
    requires fuel >= 1 && ValidPath(root, p) && NodeAt(root, p).Element?
    ensures Outcome(tree, diags, complete) == Step(cfg, host, fuel, root, p, baseDir, vars, source)
    decreases fuel, 1
  {
    var tag := NodeAt(root, p);
    var localVars := ExtractVars(tag.attrs);
    var merged := MergeScopes(vars, localVars);
    var raw := GetAttribute(tag.attrs, "file");
    if raw.None? || raw.value == [] {
      return ReplaceAt(root, p, []), [], true;
    }
    var file := Interpolate(cfg.open, cfg.close, raw.value, merged);
    var path := ResolvePath(cfg, host, baseDir, file);
    if !AllowedExtension(cfg.extensions, path) {
      return ReplaceAt(root, p, []), [ExtensionNotAllowed(path)], true;
    }
    if path !in host.files {
      return ReplaceAt(root, p, []), [UnreadableFile(path, source, raw.value)], true;
    }
    tree, diags, complete := Include(cfg, host, fuel, root, p, merged, file, path, host.files[path], source);
  }

  /** Lines 140-199: the recursion into the loaded file and the splice of its fragment. */
  method Include(cfg: Config, host: Host, fuel: nat, root: seq<Node>, p: Path, merged: Scope,
                 file: string, path: string, content: string, source: string)
    returns (tree: seq<Node>, diags: seq<Diagnostic>, complete: bool)
    requires fuel >= 1 && ValidPath(root, p) && NodeAt(root, p).Element? && |path| >= 1 && path[0] == '/'
    ensures Outcome(tree, diags, complete) == LoadStep(cfg, host, fuel, root, p, merged, file, path, content, source)
    decreases fuel, 0
  {
    var innerTree, innerDiags, innerComplete := ProcessIncludes(cfg, host, fuel - 1, content, Dirname(path), merged, SourceFor(source, path));
    var frag, fragDiags := BuildFragment(cfg, host, NodeAt(root, p), merged, host.markup.serialize(innerTree), file);
    LoadStepIs(cfg, host, fuel, root, p, merged, file, path, content, source, Outcome(innerTree, innerDiags, innerComplete), frag, fragDiags);
    return ReplaceAt(root, p, frag), [Loaded(path)] + innerDiags + fragDiags, innerComplete;
  }

  /** Unfolding helper: `LoadStep` in terms of the values `Include` has computed. */
  lemma LoadStepIs(cfg: Config, host: Host, fuel: nat, root: seq<Node>, p: Path, merged: Scope,
                   file: string, path: string, content: string, source: string,
                   inner: Outcome, frag: seq<Node>, fragDiags: seq<Diagnostic>)
    requires fuel >= 1 && ValidPath(root, p) && NodeAt(root, p).Element? && |path| >= 1 && path[0] == '/'
    requires inner == Expansion(cfg, host, fuel - 1, content, Dirname(path), merged, SourceFor(source, path))
    requires (frag, fragDiags) == Fragment(cfg, host, NodeAt(root, p), merged, host.markup.serialize(inner.tree), file)
    ensures LoadStep(cfg, host, fuel, root, p, merged, file, path, content, source)
         == Outcome(ReplaceAt(root, p, frag), [Loaded(path)] + inner.diags + fragDiags, inner.complete)
  {
  }

  /**
   * One pass of the `while (true)` body, accounted against the rest of the
   * run: stop when no include is left (or the budget is spent), otherwise
   * expand the first include.
   */
  method Pass(cfg: Config, host: Host, fuel: nat, budget: nat, tree: seq<Node>, baseDir: string, vars: Scope, source: string,
              ghost e: Outcome, diags: seq<Diagnostic>, complete: bool)
    returns (tree': seq<Node>, diags': seq<Diagnostic>, complete': bool, stop: bool)
    requires fuel >= 1
    requires Finishes(e, diags, complete, Loop(cfg, host, fuel, budget, tree, baseDir, vars, source))
    ensures stop ==> e == Outcome(tree', diags', complete')
    ensures !stop ==> budget >= 1 && Finishes(e, diags', complete', Loop(cfg, host, fuel, Spent(budget), tree', baseDir, vars, source))
    decreases fuel, 2
  {
    var found := FirstTag(tree, "include");
    if found.None? {
      LoopDone(cfg, host, fuel, budget, tree, baseDir, vars, source);
      return tree, diags, complete, true;
    }
    if budget == 0 {
      LoopStopped(cfg, host, fuel, tree, baseDir, vars, source);
      return tree, diags, false, true;
    }
    var stepTree, stepDiags, stepComplete := Iterate(cfg, host, fuel, tree, found.value, baseDir, vars, source);
    LoopStep(cfg, host, fuel, budget, tree, baseDir, vars, source);
    FinishesStep(e, diags, complete, stepDiags, stepComplete, Loop(cfg, host, fuel, Spent(budget), stepTree, baseDir, vars, source));
    return stepTree, diags + stepDiags, complete && stepComplete, false;
  }

  /** `processIncludes`: parse the input, then run the loop over its tree. */
  method ProcessIncludes(cfg: Config, host: Host, fuel: nat, input: string, baseDir: string, vars: Scope, source: string)
    returns (tree: seq<Node>, diags: seq<Diagnostic>, complete: bool)
    ensures Outcome(tree, diags, complete) == Expansion(cfg, host, fuel, input, baseDir, vars, source)
    decreases fuel, 4
  {
    var root := host.markup.parseDocument(input);
    if fuel == 0 {
      return root, [], false;
    }
    tree, diags, complete := RunLoop(cfg, host, fuel, root, baseDir, vars, source);
    ExpansionStart(cfg, host, fuel, input, baseDir, vars, source);
  }

  /** The `while (true)` loop over the page's tree, one include per pass. */
  method RunLoop(cfg: Config, host: Host, fuel: nat, root: seq<Node>, baseDir: string, vars: Scope, source: string)
    returns (tree: seq<Node>, diags: seq<Diagnostic>, complete: bool)
    requires fuel >= 1
    ensures Outcome(tree, diags, complete) == Loop(cfg, host, fuel, fuel, root, baseDir, vars, source)
    decreases fuel, 3
  {
    ghost var e := Loop(cfg, host, fuel, fuel, root, baseDir, vars, source);
    tree, diags, complete := root, [], true;
    var budget := fuel;
    while true
      invariant Finishes(e, diags, complete, Loop(cfg, host, fuel, budget, tree, baseDir, vars, source))
      decreases budget
    {
      var stop;
      tree, diags, complete, stop := Pass(cfg, host, fuel, budget, tree, baseDir, vars, source, e, diags, complete);
      if stop {
        break;
      }
      budget := Spent(budget);
    }
  }

  /** Unfolding helper: with fuel left, `Expansion` is the loop over the parsed page. */
  lemma ExpansionStart(cfg: Config, host: Host, fuel: nat, input: string, baseDir: string, vars: Scope, source: string)
    requires fuel >= 1
    ensures Expansion(cfg, host, fuel, input, baseDir, vars, source) == Loop(cfg, host, fuel, fuel, host.markup.parseDocument(input), baseDir, vars, source)
  {
  }

  /** Unfolding helper: the loop ends when no include is left. */
  lemma LoopDone(cfg: Config, host: Host, fuel: nat, budget: nat, root: seq<Node>, baseDir: string, vars: Scope, source: string)
    requires fuel >= 1 && FirstTag(root, "include").None?
    ensures Loop(cfg, host, fuel, budget, root, baseDir, vars, source) == Outcome(root, [], true)
  {
  }

  /** Unfolding helper: with the budget spent, the loop stops incomplete. */
  lemma LoopStopped(cfg: Config, host: Host, fuel: nat, root: seq<Node>, baseDir: string, vars: Scope, source: string)
    requires fuel >= 1 && FirstTag(root, "include").Some?
    ensures Loop(cfg, host, fuel, 0, root, baseDir, vars, source) == Outcome(root, [], false)
  {
  }

  /** Unfolding helper: one pass of the loop on the first include, then the rest. */
  lemma LoopStep(cfg: Config, host: Host, fuel: nat, budget: nat, root: seq<Node>, baseDir: string, vars: Scope, source: string)
    requires fuel >= 1 && budget >= 1 && FirstTag(root, "include").Some?
    ensures var s := Step(cfg, host, fuel, root, FirstTag(root, "include").value, baseDir, vars, source);
      var rest := Loop(cfg, host, fuel, Spent(budget), s.tree, baseDir, vars, source);
      Loop(cfg, host, fuel, budget, root, baseDir, vars, source) == Outcome(rest.tree, s.diags + rest.diags, s.complete && rest.complete)
  {
  }
}
