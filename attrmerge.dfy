/**
 * Attribute injection: the attributes written on an `<include>` tag (other
 * than `file` and the `$`-variables) are carried over to the single root
 * element of the included fragment. `class` values are concatenated, `style`
 * declarations are concatenated with `; `, any other attribute overwrites.
 */
module AttrMerge {
  import opened Options
  import opened JsText
  import opened Html

  // ---------------------------------------------------------------- class

  /** `(existing + ' ' + val).trim()`. */
  function MergeClass(existing: string, val: string): (r: string)
    ensures |r| <= |existing| + 1 + |val|
    ensures r == [] || (!IsSpace(r[0]) && !IsSpace(r[|r| - 1]))
  {
    Trim(existing + " " + val)
  }

  /** Two non-blank trimmed class lists are joined by one space, the existing one first. */
  lemma MergeClassJoins(existing: string, val: string)
    requires existing != [] && !IsSpace(existing[0]) && !IsSpace(existing[|existing| - 1])
    requires val != [] && !IsSpace(val[0]) && !IsSpace(val[|val| - 1])
    ensures MergeClass(existing, val) == existing + " " + val
  {
    var s := existing + " " + val;
    assert s[0] == existing[0] && s[|s| - 1] == val[|val| - 1];
  }

  /** Without an existing class the include's class is taken, trimmed. */
  lemma MergeClassAlone(val: string)
    ensures MergeClass([], val) == Trim(val)
  {
    assert [] + " " + val == [' '] + val;
    TrimLeadingSpace(' ', val);
  }

  lemma {:induction false} TrimLeadingSpace(c: char, s: string)
    requires IsSpace(c)
    ensures Trim([c] + s) == Trim(s)
  {
    var t := [c] + s;
    assert t[1..] == s;
    var i := LeadingSpace(s);
    assert LeadingSpace(t) == 1 + i;
    assert t[i + 1..] == s[i..];
  }

  // ---------------------------------------------------------------- style

  /** `s.replace(/;*$/, '')`: drop the run of `;` at the end. */
  function StripSemicolons(s: string): (r: string)
    ensures |r| <= |s| && r == s[..|r|]
    ensures r == [] || r[|r| - 1] != ';'
    ensures forall k :: |r| <= k < |s| ==> s[k] == ';'
  {
    if s != [] && s[|s| - 1] == ';' then StripSemicolons(s[..|s| - 1]) else s
  }

  /** One declaration list, trimmed and without its closing semicolons. */
  function CleanStyle(s: string): (r: string)
    ensures r == [] || r[|r| - 1] != ';'
  {
    StripSemicolons(Trim(s))
  }

  function MapClean(parts: seq<string>): (r: seq<string>)
    ensures |r| == |parts| && forall k :: 0 <= k < |r| ==> r[k] == CleanStyle(parts[k])
  {
    if parts == [] then [] else [CleanStyle(parts[0])] + MapClean(parts[1..])
  }

  /** `[existing, val].filter(Boolean).map(clean).join('; ') + ';'`. */
  function MergeStyle(existing: string, val: string): (r: string)
    ensures r != [] && r[|r| - 1] == ';'
    ensures existing == [] && val == [] ==> r == ";"
    ensures existing == [] && val != [] ==> r == CleanStyle(val) + ";"
    ensures existing != [] && val == [] ==> r == CleanStyle(existing) + ";"
    ensures existing != [] && val != [] ==> r == CleanStyle(existing) + "; " + CleanStyle(val) + ";"
  {
    var parts := (if existing != [] then [existing] else []) + (if val != [] then [val] else []);
    var cleaned := MapClean(parts);
    assert existing != [] && val != [] ==>
      && cleaned == [CleanStyle(existing), CleanStyle(val)] && cleaned[1..] == [CleanStyle(val)]
      && Join(cleaned[1..], "; ") == CleanStyle(val)
      && Join(cleaned, "; ") == CleanStyle(existing) + "; " + CleanStyle(val);
    assert existing == [] && val == [] ==> Join(cleaned, "; ") == [];
    Join(cleaned, "; ") + ";"
  }

  // ---------------------------------------------------------------- one attribute

  /** Attributes the injection leaves alone: the variables and `file`. */
  predicate Skipped(name: string) {
    StartsWith(name, "$") || name == "file"
  }

  /** The value an attribute of the root gets from the include's attribute `a`. */
  function NewValue(current: Option<string>, a: Attribute): (r: Option<string>)
    ensures Skipped(a.name) ==> r == current
    ensures !Skipped(a.name) && a.name == "class" ==> r == Some(MergeClass(current.GetOr([]), a.value))
    ensures !Skipped(a.name) && a.name == "style" ==> r == Some(MergeStyle(current.GetOr([]), a.value))
    ensures !Skipped(a.name) && a.name != "class" && a.name != "style" ==> r == Some(a.value)
  {
    if Skipped(a.name) then current
    else if a.name == "class" then Some(MergeClass(current.GetOr([]), a.value))
    else if a.name == "style" then Some(MergeStyle(current.GetOr([]), a.value))
    else Some(a.value)
  }

  /** One iteration of the injection loop on the root's attribute list. */
  function ApplyAttribute(attrs: seq<Attribute>, a: Attribute): (r: seq<Attribute>)
    ensures GetAttribute(r, a.name) == NewValue(GetAttribute(attrs, a.name), a)
    ensures forall n :: n != a.name ==> GetAttribute(r, n) == GetAttribute(attrs, n)
    ensures UniqueNames(attrs) ==> UniqueNames(r)
  {
    var nv := NewValue(GetAttribute(attrs, a.name), a);
    if Skipped(a.name) then attrs else SetAttribute(attrs, a.name, nv.value)
  }

  /** The root's attributes after every attribute of the include, in order, has been applied. */
  function InjectAll(root: seq<Attribute>, inc: seq<Attribute>): seq<Attribute>
    decreases |inc|
  {
    if inc == [] then root else ApplyAttribute(InjectAll(root, inc[..|inc| - 1]), inc[|inc| - 1])
  }

  /** The `for (const [attr, val] of Object.entries(tag.attributes))` loop. */
  method InjectAttributes(root: seq<Attribute>, inc: seq<Attribute>) returns (r: seq<Attribute>)
    ensures r == InjectAll(root, inc)
  {
    r := root;
    for i := 0 to |inc|
      invariant r == InjectAll(root, inc[..i])
    {
      var attr, val := inc[i].name, inc[i].value;
      assert inc[..i + 1][..i] == inc[..i];
      if StartsWith(attr, "$") || attr == "file" {
        continue;
      }
      if attr == "class" {
        var existing := GetAttribute(r, "class").GetOr([]);
        r := SetAttribute(r, "class", Trim(existing + " " + val));
      } else if attr == "style" {
        var existing := GetAttribute(r, "style").GetOr([]);
        r := SetAttribute(r, "style", MergeStyle(existing, val));
      } else {
        r := SetAttribute(r, attr, val);
      }
    }
    assert inc[..|inc|] == inc;
  }

  /**
   * With the include's attribute names distinct (they come from one tag),
   * each of them gives the root the value `NewValue` says, and every other
   * attribute of the root is left as it was.
   */
  lemma {:induction false} InjectAllEffect(root: seq<Attribute>, inc: seq<Attribute>)
    requires UniqueNames(inc)
    ensures forall i :: 0 <= i < |inc| ==> GetAttribute(InjectAll(root, inc), inc[i].name) == NewValue(GetAttribute(root, inc[i].name), inc[i])
    ensures forall n :: (forall i :: 0 <= i < |inc| ==> inc[i].name != n) ==> GetAttribute(InjectAll(root, inc), n) == GetAttribute(root, n)
    decreases |inc|
  {
    if inc != [] {
      var init := inc[..|inc| - 1];
      var last := inc[|inc| - 1];
      assert forall i :: 0 <= i < |init| ==> init[i] == inc[i];
      InjectAllEffect(root, init);
      forall i | 0 <= i < |inc| - 1
        ensures GetAttribute(InjectAll(root, inc), inc[i].name) == NewValue(GetAttribute(root, inc[i].name), inc[i])
      {
        assert inc[i].name != last.name;
      }
    }
  }

  /** The root keeps its attributes, in order, and gains or updates only the include's. */
  lemma {:induction false} InjectAllKeepsUnique(root: seq<Attribute>, inc: seq<Attribute>)
    requires UniqueNames(root)
    ensures UniqueNames(InjectAll(root, inc))
    decreases |inc|
  {
    if inc != [] {
      InjectAllKeepsUnique(root, inc[..|inc| - 1]);
    }
  }

  // ---------------------------------------------------------------- the fragment's root

  /** Index of the first element node of the forest. */
  function FirstElement(ns: seq<Node>): (i: nat)
    requires TopElements(ns) >= 1
    ensures i < |ns| && ns[i].Element?
    ensures forall k :: 0 <= k < i ==> !ns[k].Element?
    ensures TopElements(ns) == 1 ==> forall k :: i < k < |ns| ==> !ns[k].Element?
  {
    if ns[0].Element? then
      assert TopElements(ns) == 1 ==> TopElements(ns[1..]) == 0;
      NoElements(ns[1..]);
      0
    else 1 + FirstElement(ns[1..])
  }

  lemma {:induction false} NoElements(ns: seq<Node>)
    ensures TopElements(ns) == 0 ==> forall k :: 0 <= k < |ns| ==> !ns[k].Element?
  {
    if ns != [] {
      NoElements(ns[1..]);
      assert forall k :: 1 <= k < |ns| ==> ns[k] == ns[1..][k - 1];
    }
  }

  /**
   * Attributes are applied only when the fragment has exactly one top-level
   * element; then that element, and nothing else, gets them.
   */
  function ApplyToSingleRoot(frag: seq<Node>, inc: seq<Attribute>): (r: seq<Node>)
    ensures |r| == |frag|
    ensures TopElements(frag) != 1 ==> r == frag
    ensures TopElements(frag) == 1 ==>
      var i := FirstElement(frag);
      && r[i] == frag[i].(attrs := InjectAll(frag[i].attrs, inc))
      && forall k :: 0 <= k < |frag| && k != i ==> r[k] == frag[k]
  {
    if TopElements(frag) == 1 then
      var i := FirstElement(frag);
      frag[i := frag[i].(attrs := InjectAll(frag[i].attrs, inc))]
    else frag
  }

  /** `tag.getAttribute('class') || tag.getAttribute('style')`: there is something to report when it is dropped. */
  predicate HasClassOrStyle(inc: seq<Attribute>) {
    GetAttribute(inc, "class").GetOr([]) != [] || GetAttribute(inc, "style").GetOr([]) != []
  }
}
