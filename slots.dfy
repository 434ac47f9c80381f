/**
 * Slots: the markup an `<include>` carries between its tags fills the
 * `<slot>` elements of the included fragment. The whole trimmed inner HTML
 * is the `default` entry, every `<template slot="name">` inside adds a named
 * entry, and each `<slot name=...>` of the fragment is replaced by its entry
 * or, failing that, by its own trimmed inner HTML.
 */
module Slots {
  import opened Options
  import opened JsText
  import opened Html

  type SlotMap = map<string, string>

  /** A `<template slot=...>` found in the include: its `slot` value and its trimmed inner HTML. */
  datatype Entry = Entry(name: string, content: string)

  /** An element `querySelectorAll('template[slot]')` selects. */
  predicate IsSlotTemplate(n: Node) {
    n.Element? && n.tag == "template" && GetAttribute(n.attrs, "slot").Some?
  }

  /** The entry such a template contributes: its `slot` value and its trimmed inner HTML. */
  function EntryOf(markup: Markup, n: Node): Entry
    requires IsSlotTemplate(n)
  {
    Entry(GetAttribute(n.attrs, "slot").value, Trim(markup.serialize(n.children)))
  }

  /** The entries of the selected templates of a flat list of nodes, in list order. */
  function SlotTemplatesIn(markup: Markup, nodes: seq<Node>): seq<Entry> {
    if nodes == [] then []
    else OwnEntry(markup, nodes[0]) + SlotTemplatesIn(markup, nodes[1..])
  }

  /** The entry of a node itself, not counting its descendants. */
  function OwnEntry(markup: Markup, n: Node): seq<Entry> {
    if IsSlotTemplate(n) then [EntryOf(markup, n)] else []
  }

  lemma {:induction false} SlotTemplatesInConcat(markup: Markup, a: seq<Node>, b: seq<Node>)
    ensures SlotTemplatesIn(markup, a + b) == SlotTemplatesIn(markup, a) + SlotTemplatesIn(markup, b)
  {
    if a != [] {
      assert (a + b)[0] == a[0] && (a + b)[1..] == a[1..] + b;
      SlotTemplatesInConcat(markup, a[1..], b);
    } else {
      assert a + b == b;
    }
  }

  /**
   * `tag.querySelectorAll('template[slot]')` over the include's children: the
   * entries of the selected templates, in document order.
   */
  function Templates(markup: Markup, ns: seq<Node>): (es: seq<Entry>)
    ensures es == SlotTemplatesIn(markup, Preorder(ns))
    ensures |es| <= CountTag(ns, "template")
    decreases ns
  {
    if ns == [] then []
    else
      var here := match ns[0]
        case Element(_, _, kids) =>
          OwnEntry(markup, ns[0]) + Templates(markup, kids)
        case _ => [];
      var below := match ns[0]
        case Element(_, _, kids) => Preorder(kids)
        case _ => [];
      SlotTemplatesInConcat(markup, [ns[0]] + below, Preorder(ns[1..]));
      SlotTemplatesInConcat(markup, [ns[0]], below);
      here + Templates(markup, ns[1..])
  }

  lemma {:induction false} TemplatesConcat(markup: Markup, a: seq<Node>, b: seq<Node>)
    ensures Templates(markup, a + b) == Templates(markup, a) + Templates(markup, b)
  {
    if a != [] {
      var ab := a + b;
      assert ab[0] == a[0] && ab[1..] == a[1..] + b;
      TemplatesConcat(markup, a[1..], b);
      TemplatesCons(markup, ab);
      TemplatesCons(markup, a);
    } else {
      assert a + b == b;
    }
  }

  lemma TemplatesCons(markup: Markup, ns: seq<Node>)
    requires ns != []
    ensures Templates(markup, ns) == Templates(markup, [ns[0]]) + Templates(markup, ns[1..])
  {
    assert [ns[0]][1..] == [];
  }

  /** Every selected template anywhere in the include yields its entry. */
  lemma {:induction false} TemplateAtYieldsEntry(markup: Markup, ns: seq<Node>, p: Path)
    requires ValidPath(ns, p) && IsSlotTemplate(NodeAt(ns, p))
    ensures EntryOf(markup, NodeAt(ns, p)) in Templates(markup, ns)
    decreases |p|
  {
    var k := p[0];
    assert ns == ns[..k] + [ns[k]] + ns[k + 1..];
    TemplatesConcat(markup, ns[..k] + [ns[k]], ns[k + 1..]);
    TemplatesConcat(markup, ns[..k], [ns[k]]);
    assert [ns[k]][1..] == [];
    if |p| > 1 {
      TemplateAtYieldsEntry(markup, ns[k].children, p[1..]);
    }
  }

  /** The template at `p` is selected and yields `e`. */
  predicate EntryAt(markup: Markup, ns: seq<Node>, p: Path, e: Entry) {
    ValidPath(ns, p) && IsSlotTemplate(NodeAt(ns, p)) && e == EntryOf(markup, NodeAt(ns, p))
  }

  lemma IntoFirstChild(markup: Markup, ns: seq<Node>, q: Path, e: Entry)
    requires ns != [] && ns[0].Element? && EntryAt(markup, ns[0].children, q, e)
    ensures EntryAt(markup, ns, [0] + q, e)
  {
    assert ([0] + q)[1..] == q;
  }

  lemma IntoLaterSibling(markup: Markup, ns: seq<Node>, q: Path, e: Entry)
    requires ns != [] && EntryAt(markup, ns[1..], q, e)
    ensures EntryAt(markup, ns, [q[0] + 1] + q[1..], e)
  {
    assert ([q[0] + 1] + q[1..])[1..] == q[1..];
  }

  /** Every entry comes from a selected template somewhere in the include: the one at `p`. */
  lemma {:induction false} EntryFromTemplate(markup: Markup, ns: seq<Node>, e: Entry) returns (p: Path)
    requires e in Templates(markup, ns)
    ensures EntryAt(markup, ns, p, e)
    decreases ns
  {
    var n := ns[0];
    var kids := if n.Element? then Templates(markup, n.children) else [];
    var own := OwnEntry(markup, n);
    assert Templates(markup, ns) == own + kids + Templates(markup, ns[1..]);
    if e in own {
      p := [0];
    } else if e in kids {
      var q := EntryFromTemplate(markup, n.children, e);
      IntoFirstChild(markup, ns, q, e);
      p := [0] + q;
    } else {
      var q := EntryFromTemplate(markup, ns[1..], e);
      IntoLaterSibling(markup, ns, q, e);
      p := [q[0] + 1] + q[1..];
    }
  }

  /** The map before the templates are read: `default` is the trimmed inner HTML, when there is any. */
  function Initial(innerHtml: string): (m: SlotMap)
    ensures "default" in m <==> innerHtml != []
    ensures "default" in m ==> m["default"] == innerHtml
    ensures forall k :: k in m ==> k == "default"
  {
    if innerHtml != [] then map["default" := innerHtml] else map[]
  }

  /** The entries added one after another, a template with an empty name being skipped. */
  function Fill(init: SlotMap, entries: seq<Entry>): SlotMap
    decreases |entries|
  {
    if entries == [] then init
    else
      var e := entries[|entries| - 1];
      var prev := Fill(init, entries[..|entries| - 1]);
      if e.name != [] then prev[e.name := e.content] else prev
  }

  /** A name is bound exactly when the initial map or a template with that non-empty name binds it. */
  lemma {:induction false} FillKeys(init: SlotMap, entries: seq<Entry>)
    ensures var m := Fill(init, entries);
      forall k :: k in m <==> k in init || exists i :: 0 <= i < |entries| && entries[i].name == k && k != []
    decreases |entries|
  {
    if entries != [] {
      var prefix := entries[..|entries| - 1];
      FillKeys(init, prefix);
      assert forall i :: 0 <= i < |prefix| ==> prefix[i] == entries[i];
    }
  }

  /** The last template with a given non-empty name wins, overriding the inner HTML for `default`. */
  lemma {:induction false} FillLastWins(init: SlotMap, entries: seq<Entry>)
    ensures var m := Fill(init, entries);
      forall i :: 0 <= i < |entries| && entries[i].name != []
               && (forall j :: i < j < |entries| ==> entries[j].name != entries[i].name)
               ==> entries[i].name in m && m[entries[i].name] == entries[i].content
    decreases |entries|
  {
    if entries != [] {
      var prefix := entries[..|entries| - 1];
      FillLastWins(init, prefix);
      assert forall i :: 0 <= i < |prefix| ==> prefix[i] == entries[i];
    }
  }

  /** Names no template mentions keep their initial value. */
  lemma {:induction false} FillKeeps(init: SlotMap, entries: seq<Entry>)
    ensures var m := Fill(init, entries);
      forall k :: k in init && (forall i :: 0 <= i < |entries| ==> entries[i].name != k) ==> k in m && m[k] == init[k]
    decreases |entries|
  {
    if entries != [] {
      var prefix := entries[..|entries| - 1];
      FillKeeps(init, prefix);
      assert forall i :: 0 <= i < |prefix| ==> prefix[i] == entries[i];
    }
  }

  /** The slot map of an include whose children are `kids`. */
  function SlotMapOf(markup: Markup, kids: seq<Node>): SlotMap {
    Fill(Initial(Trim(markup.serialize(kids))), Templates(markup, kids))
  }

  /** The `slotNamedMap` construction: the inner HTML first, then each template in order. */
  method BuildSlotMap(markup: Markup, kids: seq<Node>) returns (m: SlotMap)
    ensures m == SlotMapOf(markup, kids)
  {
    var innerHtml := Trim(markup.serialize(kids));
    m := map[];
    if innerHtml != [] {
      m := m["default" := innerHtml];
    }
    var entries := Templates(markup, kids);
    ghost var init := Initial(innerHtml);
    assert m == init;
    for i := 0 to |entries|
      invariant m == Fill(init, entries[..i])
    {
      var e := entries[i];
      FillNext(init, entries, i);
      if e.name != [] {
        m := m[e.name := e.content];
      }
    }
    assert entries[..|entries|] == entries;
  }

  lemma FillNext(init: SlotMap, entries: seq<Entry>, i: nat)
    requires i < |entries|
    ensures var prev := Fill(init, entries[..i]);
      Fill(init, entries[..i + 1]) == if entries[i].name != [] then prev[entries[i].name := entries[i].content] else prev
  {
    assert entries[..i + 1][..i] == entries[..i];
  }

  predicate HasTemplate(es: seq<Entry>, name: string) {
    exists i :: 0 <= i < |es| && es[i].name == name
  }

  /**
   * The `default` entry exists exactly when the include has non-blank inner
   * HTML or a template named `default`; without such a template it is the
   * inner HTML.
   */
  lemma {:induction false} DefaultEntry(markup: Markup, kids: seq<Node>)
    ensures "default" in SlotMapOf(markup, kids)
        <==> Trim(markup.serialize(kids)) != [] || HasTemplate(Templates(markup, kids), "default")
    ensures !HasTemplate(Templates(markup, kids), "default") && Trim(markup.serialize(kids)) != []
        ==> SlotMapOf(markup, kids)["default"] == Trim(markup.serialize(kids))
  {
    FillDefault(Trim(markup.serialize(kids)), Templates(markup, kids));
  }

  lemma {:induction false} FillDefault(innerHtml: string, es: seq<Entry>)
    ensures "default" in Fill(Initial(innerHtml), es) <==> innerHtml != [] || HasTemplate(es, "default")
    ensures !HasTemplate(es, "default") && innerHtml != [] ==> Fill(Initial(innerHtml), es)["default"] == innerHtml
  {
    var init := Initial(innerHtml);
    var m := Fill(init, es);
    FillKeys(init, es);
    FillKeeps(init, es);
    if innerHtml != [] && !HasTemplate(es, "default") {
      assert init["default"] == innerHtml;
      assert m["default"] == init["default"];
    }
  }

  // ---------------------------------------------------------------- replacing slots

  /** The entry a `<slot>` asks for: its `name`, or `default` when the name is missing or empty. */
  function SlotKey(attrs: seq<Attribute>): (k: string)
    ensures k != []
    ensures GetAttribute(attrs, "name").None? ==> k == "default"
    ensures GetAttribute(attrs, "name") == Some([]) ==> k == "default"
    ensures GetAttribute(attrs, "name").Some? && GetAttribute(attrs, "name").value != [] ==> k == GetAttribute(attrs, "name").value
  {
    match GetAttribute(attrs, "name")
    case Some(name) => if name != [] then name else "default"
    case None => "default"
  }

  /** The markup a slot is replaced by: its entry, else its own trimmed inner HTML. */
  function Replacement(markup: Markup, m: SlotMap, attrs: seq<Attribute>, kids: seq<Node>): string {
    var k := SlotKey(attrs);
    if k in m then m[k] else Trim(markup.serialize(kids))
  }

  /**
   * `parsed.querySelectorAll('slot').forEach(slot => slot.replaceWith(...))`.
   * The slot list is collected before any replacement, so a slot inside a
   * slot is replaced together with its outer slot and the markup put in its
   * place is not searched again: the forest is rewritten in document order
   * without descending into a slot.
   */
  function FillSlots(markup: Markup, m: SlotMap, ns: seq<Node>): seq<Node>
    decreases ns
  {
    if ns == [] then []
    else
      var here := match ns[0]
        case Element(t, attrs, kids) =>
          if t == "slot" then Splice(markup, Replacement(markup, m, attrs, kids))
          else [Element(t, attrs, FillSlots(markup, m, kids))]
        case _ => [ns[0]];
      here + FillSlots(markup, m, ns[1..])
  }

  /** A fragment without slots comes back unchanged. */
  lemma {:induction false} FillSlotsWithoutSlots(markup: Markup, m: SlotMap, ns: seq<Node>)
    requires CountTag(ns, "slot") == 0
    ensures FillSlots(markup, m, ns) == ns
    decreases ns
  {
    if ns != [] {
      if ns[0].Element? {
        FillSlotsWithoutSlots(markup, m, ns[0].children);
      }
      FillSlotsWithoutSlots(markup, m, ns[1..]);
      assert [ns[0]] + ns[1..] == ns;
    }
  }

  /**
   * The slots inside the markup put in place of the slots of `ns`: for each
   * slot the walk of `FillSlots` reaches, those of its replacement.
   */
  function SplicedSlots(markup: Markup, m: SlotMap, ns: seq<Node>): nat
    decreases ns
  {
    if ns == [] then 0
    else
      var here := match ns[0]
        case Element(t, attrs, kids) =>
          if t == "slot" then CountTag(Splice(markup, Replacement(markup, m, attrs, kids)), "slot")
          else SplicedSlots(markup, m, kids)
        case _ => 0;
      here + SplicedSlots(markup, m, ns[1..])
  }

  /** The slots left after the replacement are exactly those the replacement markup brought in. */
  lemma {:induction false} FillSlotsCount(markup: Markup, m: SlotMap, ns: seq<Node>)
    ensures CountTag(FillSlots(markup, m, ns), "slot") == SplicedSlots(markup, m, ns)
    decreases ns
  {
    if ns != [] {
      var rest := FillSlots(markup, m, ns[1..]);
      FillSlotsCount(markup, m, ns[1..]);
      match ns[0]
      case Element(t, attrs, kids) =>
        if t == "slot" {
          CountConcat(Splice(markup, Replacement(markup, m, attrs, kids)), rest, "slot");
        } else {
          FillSlotsCount(markup, m, kids);
          CountConcat([Element(t, attrs, FillSlots(markup, m, kids))], rest, "slot");
        }
      case Text(_) => CountConcat([ns[0]], rest, "slot");
      case Comment(_) => CountConcat([ns[0]], rest, "slot");
    }
  }

  /** Every slot the walk reaches has its own trimmed inner HTML free of slots. */
  predicate OwnContentSlotFree(markup: Markup, ns: seq<Node>)
    decreases ns
  {
    ns == [] ||
    (&& (match ns[0]
         case Element(t, _, kids) =>
           if t == "slot" then CountTag(Splice(markup, Trim(markup.serialize(kids))), "slot") == 0
           else OwnContentSlotFree(markup, kids)
         case _ => true)
     && OwnContentSlotFree(markup, ns[1..]))
  }

  /**
   * No slot survives when neither the entries of the map nor the slots' own
   * contents hold one.
   */
  lemma {:induction false} FillSlotsRemovesSlots(markup: Markup, m: SlotMap, ns: seq<Node>)
    requires forall k :: k in m ==> CountTag(Splice(markup, m[k]), "slot") == 0
    requires OwnContentSlotFree(markup, ns)
    ensures CountTag(FillSlots(markup, m, ns), "slot") == 0
  {
    FillSlotsCount(markup, m, ns);
    NoSplicedSlots(markup, m, ns);
  }

  lemma {:induction false} NoSplicedSlots(markup: Markup, m: SlotMap, ns: seq<Node>)
    requires forall k :: k in m ==> CountTag(Splice(markup, m[k]), "slot") == 0
    requires OwnContentSlotFree(markup, ns)
    ensures SplicedSlots(markup, m, ns) == 0
    decreases ns
  {
    if ns != [] {
      NoSplicedSlots(markup, m, ns[1..]);
      if ns[0].Element? && ns[0].tag != "slot" {
        NoSplicedSlots(markup, m, ns[0].children);
      }
    }
  }

  /**
   * A top-level slot takes its entry when the map has one, and its own
   * trimmed inner HTML otherwise; one without a name takes `default`.
   */
  lemma {:induction false} SlotReplaced(markup: Markup, m: SlotMap, attrs: seq<Attribute>, kids: seq<Node>, rest: seq<Node>)
    ensures var out := FillSlots(markup, m, [Element("slot", attrs, kids)] + rest);
      var k := if GetAttribute(attrs, "name").Some? && GetAttribute(attrs, "name").value != [] then GetAttribute(attrs, "name").value else "default";
      && (k in m ==> out == Splice(markup, m[k]) + FillSlots(markup, m, rest))
      && (k !in m ==> out == Splice(markup, Trim(markup.serialize(kids))) + FillSlots(markup, m, rest))
  {
    assert ([Element("slot", attrs, kids)] + rest)[1..] == rest;
  }

  lemma {:induction false} FillSlotsConcat(markup: Markup, m: SlotMap, a: seq<Node>, b: seq<Node>)
    ensures FillSlots(markup, m, a + b) == FillSlots(markup, m, a) + FillSlots(markup, m, b)
  {
    if a != [] {
      var ab := a + b;
      assert ab[0] == a[0] && ab[1..] == a[1..] + b;
      FillSlotsConcat(markup, m, a[1..], b);
      FillSlotsCons(markup, m, ab);
      FillSlotsCons(markup, m, a);
    } else {
      assert a + b == b;
    }
  }

  lemma FillSlotsCons(markup: Markup, m: SlotMap, ns: seq<Node>)
    requires ns != []
    ensures FillSlots(markup, m, ns) == FillSlots(markup, m, [ns[0]]) + FillSlots(markup, m, ns[1..])
  {
    assert [ns[0]][1..] == [];
  }

  /** No element enclosing the position `p` is a slot. */
  predicate NoSlotAbove(ns: seq<Node>, p: Path)
    requires ValidPath(ns, p)
    decreases |p|
  {
    |p| == 1 || (ns[p[0]].tag != "slot" && NoSlotAbove(ns[p[0]].children, p[1..]))
  }

  lemma FillAround(markup: Markup, m: SlotMap, pre: seq<Node>, x: seq<Node>, post: seq<Node>)
    ensures FillSlots(markup, m, pre + x + post)
         == FillSlots(markup, m, pre) + FillSlots(markup, m, x) + FillSlots(markup, m, post)
  {
    FillSlotsConcat(markup, m, pre + x, post);
    FillSlotsConcat(markup, m, pre, x);
  }

  lemma FillOne(markup: Markup, m: SlotMap, n: Node)
    ensures n.Element? && n.tag == "slot" ==> FillSlots(markup, m, [n]) == Splice(markup, Replacement(markup, m, n.attrs, n.children))
    ensures n.Element? && n.tag != "slot" ==> FillSlots(markup, m, [n]) == [Element(n.tag, n.attrs, FillSlots(markup, m, n.children))]
  {
    assert [n][1..] == [];
  }

  /**
   * A slot at any position the walk reaches is replaced by its entry (or its
   * own content): filling the slots gives the same forest as first putting
   * the slot's replacement in its place, when that replacement holds no slot.
   */
  lemma {:induction false} SlotReplacedAt(markup: Markup, m: SlotMap, ns: seq<Node>, p: Path)
    requires IsTagAt(ns, p, "slot") && NoSlotAbove(ns, p)
    requires CountTag(Splice(markup, Replacement(markup, m, NodeAt(ns, p).attrs, NodeAt(ns, p).children)), "slot") == 0
    ensures var slot := NodeAt(ns, p);
      FillSlots(markup, m, ns)
        == FillSlots(markup, m, ReplaceAt(ns, p, Splice(markup, Replacement(markup, m, slot.attrs, slot.children))))
    decreases |p|
  {
    var k := p[0];
    var slot := NodeAt(ns, p);
    var repl := Splice(markup, Replacement(markup, m, slot.attrs, slot.children));
    var pre, post := ns[..k], ns[k + 1..];
    assert ns == pre + [ns[k]] + post;
    FillAround(markup, m, pre, [ns[k]], post);
    FillOne(markup, m, ns[k]);
    if |p| == 1 {
      assert ReplaceAt(ns, p, repl) == pre + repl + post;
      FillAround(markup, m, pre, repl, post);
      FillSlotsWithoutSlots(markup, m, repl);
    } else {
      var n := ns[k];
      assert NodeAt(ns, p) == NodeAt(n.children, p[1..]);
      var n' := n.(children := ReplaceAt(n.children, p[1..], repl));
      assert ReplaceAt(ns, p, repl) == pre + [n'] + post;
      SlotReplacedAt(markup, m, n.children, p[1..]);
      FillAround(markup, m, pre, [n'], post);
      FillOne(markup, m, n');
    }
  }
}
