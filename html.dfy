/**
 * The document tree the expander works on, standing in for node-html-parser's
 * `HTMLElement` tree: elements with an ordered attribute list and ordered
 * children, text and comments. The library's tokeniser and serialiser are not
 * modelled; they are passed around as the three functions of `Markup`.
 */
module Html {
  import opened Options

  datatype Attribute = Attribute(name: string, value: string)

  datatype Node =
    | Text(text: string)
    | Comment(text: string)
    | Element(tag: string, attrs: seq<Attribute>, children: seq<Node>)

  /**
   * The HTML library as the expander uses it. `parseDocument` is the parse of a
   * whole input (comments kept, script/noscript/style/pre left raw);
   * `parseFragment` is the parse with default options, which is also what
   * `replaceWith(markup)` splices in; `serialize` is `toString()` of a root and
   * `innerHTML` of an element (the serialisation of its children).
   */
  datatype Markup = Markup(
    parseDocument: string -> seq<Node>,
    parseFragment: string -> seq<Node>,
    serialize: seq<Node> -> string)

  // ---------------------------------------------------------------- attributes

  /** `getAttribute(name)`: the value of the first attribute called `name`. */
  function GetAttribute(attrs: seq<Attribute>, name: string): (r: Option<string>)
    ensures r.None? <==> forall i :: 0 <= i < |attrs| ==> attrs[i].name != name
    ensures r.Some? ==> exists i :: 0 <= i < |attrs| && attrs[i] == Attribute(name, r.value)
  {
    if attrs == [] then None
    else if attrs[0].name == name then Some(attrs[0].value)
    else
      var r := GetAttribute(attrs[1..], name);
      assert r.Some? ==> exists i :: 0 <= i < |attrs[1..]| && attrs[1..][i] == Attribute(name, r.value);
      r
  }

  /** An attribute list as the parser builds it: every name at most once. */
  predicate UniqueNames(attrs: seq<Attribute>) {
    forall i, j :: 0 <= i < j < |attrs| ==> attrs[i].name != attrs[j].name
  }

  /** With unique names, looking an attribute up finds exactly its own value. */
  lemma {:induction false} GetUnique(attrs: seq<Attribute>, i: nat)
    requires UniqueNames(attrs) && i < |attrs|
    ensures GetAttribute(attrs, attrs[i].name) == Some(attrs[i].value)
  {
    if i > 0 {
      assert attrs[0].name != attrs[i].name;
      assert attrs[1..][i - 1] == attrs[i];
      GetUnique(attrs[1..], i - 1);
    }
  }

  /** `setAttribute(name, value)`: overwrite the attribute in place, or append it. */
  function SetAttribute(attrs: seq<Attribute>, name: string, value: string): (r: seq<Attribute>)
    ensures GetAttribute(r, name) == Some(value)
    ensures forall n :: n != name ==> GetAttribute(r, n) == GetAttribute(attrs, n)
    ensures UniqueNames(attrs) ==> UniqueNames(r)
  {
    if attrs == [] then [Attribute(name, value)]
    else if attrs[0].name == name then [Attribute(name, value)] + attrs[1..]
    else
      var rest := SetAttribute(attrs[1..], name, value);
      assert UniqueNames(attrs) ==> UniqueNames([attrs[0]] + rest) by {
        if UniqueNames(attrs) {
          assert UniqueNames(attrs[1..]);
          assert GetAttribute(rest, attrs[0].name).None?;
        }
      }
      [attrs[0]] + rest
  }

  // ---------------------------------------------------------------- positions in the tree

  /** A position in a forest: the child index at each level. */
  type Path = seq<nat>

  predicate ValidPath(ns: seq<Node>, p: Path)
    decreases |p|
  {
    && |p| >= 1 && p[0] < |ns|
    && (|p| == 1 || (ns[p[0]].Element? && ValidPath(ns[p[0]].children, p[1..])))
  }

  function NodeAt(ns: seq<Node>, p: Path): Node
    requires ValidPath(ns, p)
    decreases |p|
  {
    if |p| == 1 then ns[p[0]] else NodeAt(ns[p[0]].children, p[1..])
  }

  predicate IsTagAt(ns: seq<Node>, p: Path, tag: string) {
    ValidPath(ns, p) && NodeAt(ns, p).Element? && NodeAt(ns, p).tag == tag
  }

  /** Document order on positions: `p` is `q`, an ancestor of `q`, or comes before it. */
  predicate PathLe(p: Path, q: Path)
    decreases |p|
  {
    p == [] || (q != [] && (p[0] < q[0] || (p[0] == q[0] && PathLe(p[1..], q[1..]))))
  }

  /** Every node of the forest in document order: a node, then its descendants, then its later siblings. */
  function Preorder(ns: seq<Node>): seq<Node>
    decreases ns
  {
    if ns == [] then []
    else
      var below := match ns[0]
        case Element(_, _, kids) => Preorder(kids)
        case _ => [];
      [ns[0]] + below + Preorder(ns[1..])
  }

  /** Number of elements named `tag` anywhere in the forest. */
  function CountTag(ns: seq<Node>, tag: string): nat
    decreases ns
  {
    if ns == [] then 0
    else
      var here := match ns[0]
        case Element(t, _, kids) => (if t == tag then 1 else 0) + CountTag(kids, tag)
        case _ => 0;
      here + CountTag(ns[1..], tag)
  }

  lemma {:induction false} CountConcat(a: seq<Node>, b: seq<Node>, tag: string)
    ensures CountTag(a + b, tag) == CountTag(a, tag) + CountTag(b, tag)
  {
    if a != [] {
      assert (a + b)[0] == a[0] && (a + b)[1..] == a[1..] + b;
      CountConcat(a[1..], b, tag);
    } else {
      assert a + b == b;
    }
  }

  /** An element found at some position is counted. */
  lemma {:induction false} TagAtCounted(ns: seq<Node>, p: Path, tag: string)
    requires IsTagAt(ns, p, tag)
    ensures CountTag(ns, tag) > 0
    decreases |p|
  {
    assert ns == ns[..p[0]] + [ns[p[0]]] + ns[p[0] + 1..];
    CountConcat(ns[..p[0]] + [ns[p[0]]], ns[p[0] + 1..], tag);
    CountConcat(ns[..p[0]], [ns[p[0]]], tag);
    if |p| > 1 {
      TagAtCounted(ns[p[0]].children, p[1..], tag);
    }
  }

  /** `querySelector(tag)`: the position of the first element named `tag` in document order. */
  function FirstTag(ns: seq<Node>, tag: string): (r: Option<Path>)
    ensures r.None? <==> CountTag(ns, tag) == 0
    ensures r.Some? ==> IsTagAt(ns, r.value, tag)
    decreases ns
  {
    if ns == [] then None
    else if ns[0].Element? && ns[0].tag == tag then Some([0])
    else if ns[0].Element? && FirstTag(ns[0].children, tag).Some? then
      var p := FirstTag(ns[0].children, tag).value;
      assert ([0] + p)[1..] == p;
      Some([0] + p)
    else
      match FirstTag(ns[1..], tag)
      case None => None
      case Some(p) =>
        var q := [p[0] + 1] + p[1..];
        assert q[1..] == p[1..];
        Some(q)
  }

  /** No element named `tag` comes before the one `FirstTag` finds, and none encloses it. */
  lemma {:induction false} FirstTagIsFirst(ns: seq<Node>, tag: string, q: Path)
    requires IsTagAt(ns, q, tag)
    ensures FirstTag(ns, tag).Some? && PathLe(FirstTag(ns, tag).value, q)
    decreases ns
  {
    TagAtCounted(ns, q, tag);
    if ns[0].Element? && ns[0].tag == tag {
    } else if ns[0].Element? && FirstTag(ns[0].children, tag).Some? {
      if q[0] == 0 {
        FirstTagIsFirst(ns[0].children, tag, q[1..]);
      }
    } else {
      if q[0] == 0 {
        TagAtCounted(ns[0].children, q[1..], tag);
        assert false;
      }
      var q' := [q[0] - 1] + q[1..];
      assert q'[1..] == q[1..];
      assert IsTagAt(ns[1..], q', tag);
      FirstTagIsFirst(ns[1..], tag, q');
    }
  }

  /** `node.replaceWith(...repl)` for the node at `p` (and `node.remove()` when `repl` is empty). */
  function ReplaceAt(ns: seq<Node>, p: Path, repl: seq<Node>): (r: seq<Node>)
    requires ValidPath(ns, p)
    ensures |p| == 1 ==> |r| == |ns| - 1 + |repl| && r[p[0]..p[0] + |repl|] == repl
    ensures |p| > 1 ==> |r| == |ns| && r[p[0]].Element? && r[p[0]].tag == ns[p[0]].tag && r[p[0]].attrs == ns[p[0]].attrs
                        && r[p[0]].children == ReplaceAt(ns[p[0]].children, p[1..], repl)
    ensures r[..p[0]] == ns[..p[0]] && r[|r| - (|ns| - p[0] - 1)..] == ns[p[0] + 1..]
    decreases |p|
  {
    if |p| == 1 then ns[..p[0]] + repl + ns[p[0] + 1..]
    else
      var n := ns[p[0]];
      ns[..p[0]] + [n.(children := ReplaceAt(n.children, p[1..], repl))] + ns[p[0] + 1..]
  }

  /** Replacing a node removes its whole subtree's elements and adds the replacement's. */
  lemma {:induction false} CountReplaceAt(ns: seq<Node>, p: Path, repl: seq<Node>, tag: string)
    requires ValidPath(ns, p)
    ensures CountTag(ReplaceAt(ns, p, repl), tag) + CountTag([NodeAt(ns, p)], tag)
         == CountTag(ns, tag) + CountTag(repl, tag)
    decreases |p|
  {
    var i := p[0];
    var pre, post := ns[..i], ns[i + 1..];
    assert ns == pre + [ns[i]] + post;
    CountConcat(pre + [ns[i]], post, tag);
    CountConcat(pre, [ns[i]], tag);
    if |p| == 1 {
      CountConcat(pre + repl, post, tag);
      CountConcat(pre, repl, tag);
    } else {
      var n := ns[i];
      var n' := n.(children := ReplaceAt(n.children, p[1..], repl));
      CountConcat(pre + [n'], post, tag);
      CountConcat(pre, [n'], tag);
      CountReplaceAt(n.children, p[1..], repl, tag);
    }
  }

  /**
   * What `node.replaceWith(markup)` splices in for a string: the nodes it
   * parses to, or a single text node holding it when it parses to nothing.
   */
  function Splice(markup: Markup, s: string): (r: seq<Node>)
    ensures r != []
    ensures markup.parseFragment(s) != [] ==> r == markup.parseFragment(s)
    ensures markup.parseFragment(s) == [] ==> r == [Text(s)]
  {
    var parsed := markup.parseFragment(s);
    if parsed == [] then [Text(s)] else parsed
  }

  /** Number of element nodes at the top level (`childNodes.filter(n => n.nodeType === 1)`). */
  function TopElements(ns: seq<Node>): nat {
    if ns == [] then 0 else (if ns[0].Element? then 1 else 0) + TopElements(ns[1..])
  }
}
