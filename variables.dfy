/**
 * The variable binder of `src/index.ts`: `$`-attributes become a scope, scopes
 * are merged local-over-inherited, and `{{$key=default}}` placeholders are
 * replaced by the regular expression
 *   escapeRegex(open) \s* \$ (.*?) \s* escapeRegex(close)
 * modelled here as a left-to-right scanner over the text.
 */
module Variables {
  import opened Options
  import opened JsText
  import opened Html

  /** A variable scope: variable name (without the `$`) to value. */
  type Scope = map<string, string>

  // ---------------------------------------------------------------- binding

  /** `extractVars`: the `$`-prefixed attributes, with the sigil stripped. */
  function ExtractVars(attrs: seq<Attribute>): (vars: Scope)
    ensures forall k :: k in vars <==> exists i :: 0 <= i < |attrs| && attrs[i].name == "$" + k
    decreases |attrs|
  {
    if attrs == [] then map[]
    else
      var init := attrs[..|attrs| - 1];
      var a := attrs[|attrs| - 1];
      var prev := ExtractVars(init);
      assert forall k :: (exists i :: 0 <= i < |init| && init[i].name == "$" + k)
                     <==> (exists i :: 0 <= i < |attrs| - 1 && attrs[i].name == "$" + k);
      if StartsWith(a.name, "$") then
        assert a.name == "$" + a.name[1..];
        prev[a.name[1..] := a.value]
      else prev
  }

  /** Each bound variable carries the value of its own `$`-attribute. */
  lemma {:induction false} ExtractVarsValue(attrs: seq<Attribute>, i: nat, k: string)
    requires UniqueNames(attrs) && i < |attrs| && attrs[i].name == "$" + k
    ensures k in ExtractVars(attrs) && ExtractVars(attrs)[k] == attrs[i].value
    decreases |attrs|
  {
    var init := attrs[..|attrs| - 1];
    var a := attrs[|attrs| - 1];
    if i < |attrs| - 1 {
      assert init[i] == attrs[i];
      ExtractVarsValue(init, i, k);
      if StartsWith(a.name, "$") {
        assert a.name != attrs[i].name;
        assert a.name == "$" + a.name[1..];
      }
    } else {
      assert a.name[1..] == k;
    }
  }

  /** `{ ...inherited, ...local }`: local bindings override inherited ones key by key. */
  function MergeScopes(inherited: Scope, local: Scope): (merged: Scope)
    ensures merged.Keys == inherited.Keys + local.Keys
    ensures forall k :: k in local ==> merged[k] == local[k]
    ensures forall k :: k in inherited && k !in local ==> merged[k] == inherited[k]
  {
    inherited + local
  }

  // ---------------------------------------------------------------- one placeholder

  /**
   * The replacement for one captured placeholder body:
   * `raw.split('=').map(trim)` gives `[key, def]`, and the value is
   * `vars[key] ?? def ?? ''`.
   */
  function Substitute(capture: string, vars: Scope): (r: string)
    ensures var key := Trim(Before(capture, '='));
      && (key in vars ==> r == vars[key])
      && (key !in vars && '=' in capture ==> r == Trim(Before(After(capture, '='), '=')))
      && (key !in vars && '=' !in capture ==> r == [])
  {
    var parts := SplitOn(capture, '=');
    var key := Trim(parts[0]);
    if key in vars then vars[key]
    else if |parts| > 1 then Trim(parts[1])
    else []
  }

  /** Length of the whitespace run starting at `i`. */
  function SpaceFrom(s: string, i: nat): (n: nat)
    requires i <= |s|
    ensures i + n <= |s|
    ensures forall k :: i <= k < i + n ==> IsSpace(s[k])
    ensures i + n < |s| ==> !IsSpace(s[i + n])
    decreases |s| - i
  {
    if i < |s| && IsSpace(s[i]) then 1 + SpaceFrom(s, i + 1) else 0
  }

  lemma {:induction false} SpaceFromBounded(s: string, i: nat, t: nat)
    requires i + t <= |s| && forall k :: i <= k < i + t ==> IsSpace(s[k])
    ensures t <= SpaceFrom(s, i)
  {
  }

  /** `close` occurs in `s` at index `j`, compared character by character. */
  predicate ClosesAt(close: string, s: string, j: nat)
    decreases |close|
  {
    j + |close| <= |s| && (close == [] || (s[j] == close[0] && ClosesAt(close[1..], s, j + 1)))
  }

  lemma {:induction false} ClosesAtSlice(close: string, s: string, j: nat)
    ensures ClosesAt(close, s, j) <==> j + |close| <= |s| && s[j..j + |close|] == close
    decreases |close|
  {
    if close != [] && j + |close| <= |s| {
      ClosesAtSlice(close[1..], s, j + 1);
      assert s[j..j + |close|] == [s[j]] + s[j + 1..j + 1 + |close[1..]|];
      assert close == [close[0]] + close[1..];
    }
  }

  /** `\s*` followed by the close delimiter can match at `i`. */
  predicate CanClose(close: string, s: string, i: nat) {
    i <= |s| && exists j :: i <= j <= i + SpaceFrom(s, i) && ClosesAt(close, s, j)
  }

  /** Positions of the parts of a placeholder match starting at index 0 of `s`. */
  datatype Span = Span(lead: nat, cap: nat, trail: nat)

  /**
   * From `q`, the capture `(.*?)` takes `cap` characters (none a line
   * terminator), the `\s*` after it takes `trail` whitespace characters, and
   * `close` follows.
   */
  predicate TailAt(close: string, s: string, q: nat, cap: nat, trail: nat) {
    && q + cap + trail <= |s|
    && (forall k :: q <= k < q + cap ==> !IsLineTerminator(s[k]))
    && (forall k :: q + cap <= k < q + cap + trail ==> IsSpace(s[k]))
    && ClosesAt(close, s, q + cap + trail)
  }

  /**
   * `s` starts with a match of `open \s* \$ (.*?) \s* close` in which the
   * first `\s*` takes `lead` characters, the capture `cap` and the second
   * `\s*` takes `trail`.
   */
  predicate PlaceholderAt(open: string, close: string, s: string, lead: nat, cap: nat, trail: nat) {
    && StartsWith(s, open)
    && |open| + lead < |s|
    && (forall k :: |open| <= k < |open| + lead ==> IsSpace(s[k]))
    && s[|open| + lead] == '$'
    && TailAt(close, s, |open| + lead + 1, cap, trail)
  }

  /** The greedy `\s*` before the close delimiter: the longest run (up to `w`) followed by `close`. */
  function LastCloseWithin(close: string, s: string, pos: nat, w: nat): (r: Option<nat>)
    requires pos + w <= |s|
    ensures r.Some? ==> r.value <= w && ClosesAt(close, s, pos + r.value)
    ensures r.Some? ==> forall j :: pos + r.value < j <= pos + w ==> !ClosesAt(close, s, j)
    ensures r.None? ==> forall j :: pos <= j <= pos + w ==> !ClosesAt(close, s, j)
    decreases w
  {
    if ClosesAt(close, s, pos + w) then Some(w)
    else if w == 0 then None
    else LastCloseWithin(close, s, pos, w - 1)
  }

  /**
   * The lazy capture `(.*?)` starting at `q`: try capture lengths `c`,
   * `c + 1`, ... and stop at the first one after which `\s* close` matches;
   * the capture cannot run past a line terminator or the end of the text.
   * The result is the capture length and the whitespace taken before `close`.
   */
  function CaptureFrom(close: string, s: string, q: nat, c: nat): (r: Option<(nat, nat)>)
    requires q + c <= |s|
    ensures r.Some? ==> c <= r.value.0 && q + r.value.0 + r.value.1 <= |s|
    decreases |s| - (q + c)
  {
    var w := SpaceFrom(s, q + c);
    match LastCloseWithin(close, s, q + c, w)
    case Some(t) => Some((c, t))
    case None =>
      if q + c < |s| && !IsLineTerminator(s[q + c]) then CaptureFrom(close, s, q, c + 1)
      else None
  }

  /**
   * A capture of `cap` characters from `q` without a line terminator,
   * followed by `trail` whitespace characters (as many as can precede
   * `close`) and `close`.
   */
  predicate CaptureCloses(close: string, s: string, q: nat, cap: nat, trail: nat)
    requires q + cap <= |s|
  {
    && TailAt(close, s, q, cap, trail)
    && trail <= SpaceFrom(s, q + cap)
    && (forall j :: q + cap + trail < j <= q + cap + SpaceFrom(s, q + cap) ==> !ClosesAt(close, s, j))
  }

  /** What `CaptureFrom` returns is a match: no line terminator in the capture, then whitespace taken greedily, then `close`. */
  lemma {:induction false} CaptureFromMatches(close: string, s: string, q: nat, c: nat)
    requires q + c <= |s|
    requires forall k :: q <= k < q + c ==> !IsLineTerminator(s[k])
    ensures var r := CaptureFrom(close, s, q, c);
      r.Some? ==> CaptureCloses(close, s, q, r.value.0, r.value.1)
    decreases |s| - (q + c)
  {
    var w := SpaceFrom(s, q + c);
    var r := CaptureFrom(close, s, q, c);
    match LastCloseWithin(close, s, q + c, w)
    case Some(t) =>
      assert r == Some((c, t));
      assert ClosesAt(close, s, q + c + t);
      assert CaptureCloses(close, s, q, c, t);
    case None =>
      if q + c < |s| && !IsLineTerminator(s[q + c]) {
        assert r == CaptureFrom(close, s, q, c + 1);
        CaptureFromMatches(close, s, q, c + 1);
      } else {
        assert r == None;
      }
  }

  /** No capture shorter than the one `CaptureFrom` returns can be closed; when it returns nothing, none can. */
  lemma {:induction false} CaptureFromFirst(close: string, s: string, q: nat, c: nat)
    requires q + c <= |s|
    requires forall k :: q <= k < q + c ==> !IsLineTerminator(s[k])
    ensures var r := CaptureFrom(close, s, q, c);
      r.Some? ==> forall i :: q + c <= i < q + r.value.0 ==> !CanClose(close, s, i)
    ensures var r := CaptureFrom(close, s, q, c);
      r.None? ==> forall i :: q + c <= i <= |s| && (forall k :: q <= k < i ==> !IsLineTerminator(s[k])) ==> !CanClose(close, s, i)
    decreases |s| - (q + c)
  {
    var w := SpaceFrom(s, q + c);
    if LastCloseWithin(close, s, q + c, w).None? {
      assert !CanClose(close, s, q + c);
      if q + c < |s| && !IsLineTerminator(s[q + c]) {
        CaptureFromFirst(close, s, q, c + 1);
      }
    }
  }

  /** The placeholder match the regular expression finds when it is tried at index 0 of `s`. */
  function MatchAt(open: string, close: string, s: string): (m: Option<Span>)
    ensures m.Some? ==> PlaceholderAt(open, close, s, m.value.lead, m.value.cap, m.value.trail)
  {
    if !StartsWith(s, open) then None
    else
      var lead := SpaceFrom(s, |open|);
      var d := |open| + lead;
      if d < |s| && s[d] == '$' then
        PlaceholderFromCapture(open, close, s, lead);
        match CaptureFrom(close, s, d + 1, 0)
        case Some((cap, trail)) => Some(Span(lead, cap, trail))
        case None => None
      else None
  }

  lemma PlaceholderFromCapture(open: string, close: string, s: string, lead: nat)
    requires StartsWith(s, open) && lead == SpaceFrom(s, |open|)
    requires |open| + lead < |s| && s[|open| + lead] == '$'
    ensures var r := CaptureFrom(close, s, |open| + lead + 1, 0);
      r.Some? ==> PlaceholderAt(open, close, s, lead, r.value.0, r.value.1)
  {
    CaptureFromMatches(close, s, |open| + lead + 1, 0);
  }

  /**
   * `MatchAt` is the match a backtracking regex engine picks: whenever the
   * pattern matches at index 0 at all, `MatchAt` finds a match, with the same
   * (forced) leading whitespace, the shortest capture (`.*?` is lazy) and,
   * for that capture, the longest whitespace before `close` (`\s*` is greedy).
   */
  lemma {:induction false} MatchAtIsLeftmostLazy(open: string, close: string, s: string, lead: nat, cap: nat, trail: nat)
    requires PlaceholderAt(open, close, s, lead, cap, trail)
    ensures MatchAt(open, close, s).Some?
    ensures var m := MatchAt(open, close, s).value;
      && m.lead == lead
      && (m.cap < cap || (m.cap == cap && trail <= m.trail))
  {
    LeadIsForced(s, |open|, lead);
    CaptureIsLazy(close, s, |open| + lead + 1, cap, trail);
    MatchAtCapture(open, close, s);
  }

  /** Past the forced leading whitespace and the `$`, `MatchAt` is what the lazy capture finds. */
  lemma MatchAtCapture(open: string, close: string, s: string)
    requires StartsWith(s, open)
    requires |open| + SpaceFrom(s, |open|) < |s| && s[|open| + SpaceFrom(s, |open|)] == '$'
    ensures var lead := SpaceFrom(s, |open|);
      var c := CaptureFrom(close, s, |open| + lead + 1, 0);
      c.Some? ==> MatchAt(open, close, s) == Some(Span(lead, c.value.0, c.value.1))
  {
  }

  /** The `\s*` before `\$` always takes the whole whitespace run, since `$` is not whitespace. */
  lemma {:induction false} LeadIsForced(s: string, i: nat, lead: nat)
    requires i + lead < |s| && s[i + lead] == '$'
    requires forall k :: i <= k < i + lead ==> IsSpace(s[k])
    ensures SpaceFrom(s, i) == lead
  {
    SpaceFromBounded(s, i, lead);
  }

  /** Whenever some capture works, `CaptureFrom` stops at the shortest one, with the longest run of whitespace. */
  lemma {:induction false} CaptureIsLazy(close: string, s: string, q: nat, cap: nat, trail: nat)
    requires TailAt(close, s, q, cap, trail)
    ensures CaptureFrom(close, s, q, 0).Some?
    ensures var (c, t) := CaptureFrom(close, s, q, 0).value;
      c < cap || (c == cap && trail <= t)
  {
    SpaceFromBounded(s, q + cap, trail);
    assert CanClose(close, s, q + cap);
    CaptureFromFirst(close, s, q, 0);
    CaptureFromMatches(close, s, q, 0);
  }

  // ---------------------------------------------------------------- the whole text

  /**
   * `interpolateVariables`: `html.replace(regex, callback)` with a global
   * regex. At each position the pattern is tried; a match is replaced by the
   * value of its capture and scanning resumes after it, otherwise one
   * character is copied. The delimiters are taken literally.
   */
  function Interpolate(open: string, close: string, text: string, vars: Scope): (r: string)
    ensures text == [] ==> r == []
    ensures text != [] && !StartsWith(text, open) ==> r != [] && r[0] == text[0]
    decreases |text|
  {
    if text == [] then []
    else
      match MatchAt(open, close, text)
      case Some(m) =>
        var q := |open| + m.lead + 1;
        var end := q + m.cap + m.trail + |close|;
        Substitute(text[q..q + m.cap], vars) + Interpolate(open, close, text[end..], vars)
      case None => [text[0]] + Interpolate(open, close, text[1..], vars)
  }

  /** Text in which the open delimiter never occurs comes back unchanged. */
  lemma {:induction false} InterpolateWithoutOpen(open: string, close: string, text: string, vars: Scope)
    requires forall i :: 0 <= i <= |text| ==> !StartsWith(text[i..], open)
    ensures Interpolate(open, close, text, vars) == text
    decreases |text|
  {
    if text != [] {
      assert text[0..] == text;
      forall i | 0 <= i <= |text[1..]| ensures !StartsWith(text[1..][i..], open) {
        assert text[1..][i..] == text[i + 1..];
      }
      InterpolateWithoutOpen(open, close, text[1..], vars);
    }
  }

  /** Where no placeholder starts, the first character is copied and scanning moves on by one. */
  lemma {:induction false} NoPlaceholderCopies(open: string, close: string, text: string, vars: Scope)
    requires text != []
    requires forall lead: nat, cap: nat, trail: nat :: !PlaceholderAt(open, close, text, lead, cap, trail)
    ensures Interpolate(open, close, text, vars) == [text[0]] + Interpolate(open, close, text[1..], vars)
  {
  }

  /**
   * A placeholder `open $body close` at the front of the text is replaced by
   * the value of `body`, and scanning resumes right after it; `body` is one
   * run of non-whitespace characters in which `close` does not start.
   */
  lemma {:induction false} PlaceholderReplaced(open: string, close: string, body: string, rest: string, vars: Scope)
    requires forall i :: 0 <= i < |body| ==> !IsSpace(body[i])
    requires close != [] && !IsSpace(close[0])
    requires forall i :: 0 <= i < |body| ==> !StartsWith((body + close)[i..], close)
    ensures Interpolate(open, close, open + "$" + body + close + rest, vars)
         == Substitute(body, vars) + Interpolate(open, close, rest, vars)
  {
    PlaceholderMatch(open, close, body, rest);
    PlaceholderLayout(open, close, body, rest, open + "$" + body + close + rest);
    InterpolateAtMatch(open, close, open + "$" + body + close + rest, vars);
    assert (var s := open + "$" + body + close + rest; var m := MatchAt(open, close, s).value;
            s[|open| + m.lead + 1..|open| + m.lead + 1 + m.cap]) == body;
    assert (var s := open + "$" + body + close + rest; var m := MatchAt(open, close, s).value;
            s[|open| + m.lead + 1 + m.cap + m.trail + |close|..]) == rest;
  }

  /** Unfolds `Interpolate` once at a match: the match is replaced and the scan goes on after it. */
  lemma {:induction false} InterpolateAtMatch(open: string, close: string, text: string, vars: Scope)
    requires MatchAt(open, close, text).Some?
    ensures var m := MatchAt(open, close, text).value;
      var q := |open| + m.lead + 1;
      Interpolate(open, close, text, vars)
        == Substitute(text[q..q + m.cap], vars) + Interpolate(open, close, text[q + m.cap + m.trail + |close|..], vars)
  {
  }

  /** The match found at the front of `open $body close rest` spans exactly the placeholder. */
  lemma {:induction false} PlaceholderMatch(open: string, close: string, body: string, rest: string)
    requires forall i :: 0 <= i < |body| ==> !IsSpace(body[i])
    requires close != [] && !IsSpace(close[0])
    requires forall i :: 0 <= i < |body| ==> !StartsWith((body + close)[i..], close)
    ensures MatchAt(open, close, open + "$" + body + close + rest) == Some(Span(0, |body|, 0))
  {
    var s := open + "$" + body + close + rest;
    var q := |open| + 1;
    PlaceholderLayout(open, close, body, rest, s);
    NoEarlyClose(close, body, s, q);
    assert PlaceholderAt(open, close, s, 0, |body|, 0);
    MatchAtIsLeftmostLazy(open, close, s, 0, |body|, 0);
    var m := MatchAt(open, close, s).value;
    assert ClosesAt(close, s, q + m.cap + m.trail);
    var next := s[q + m.cap];
    assert m.cap == |body|;
    assert !IsSpace(s[q + |body|]);
  }

  /** Where the parts of `open $body close rest` sit. */
  lemma {:induction false} PlaceholderLayout(open: string, close: string, body: string, rest: string, s: string)
    requires s == open + "$" + body + close + rest
    ensures |s| == |open| + 1 + |body| + |close| + |rest|
    ensures s[..|open|] == open && s[|open|] == '$'
    ensures forall k :: 0 <= k < |body| ==> s[|open| + 1 + k] == body[k]
    ensures close != [] ==> s[|open| + 1 + |body|] == close[0]
    ensures s[|open| + 1..|open| + 1 + |body| + |close|] == body + close
    ensures s[|open| + 1..|open| + 1 + |body|] == body
    ensures ClosesAt(close, s, |open| + 1 + |body|)
    ensures s[|open| + 1 + |body| + |close|..] == rest
  {
    assert s == open + ("$" + (body + close) + rest);
    ClosesAtSlice(close, s, |open| + 1 + |body|);
  }

  /** `close` does not start inside `body`, so the lazy capture cannot stop early. */
  lemma {:induction false} NoEarlyClose(close: string, body: string, s: string, q: nat)
    requires q + |body| + |close| <= |s| && s[q..q + |body| + |close|] == body + close
    requires forall i :: 0 <= i < |body| ==> !StartsWith((body + close)[i..], close)
    ensures forall j :: q <= j < q + |body| ==> !ClosesAt(close, s, j)
  {
    forall j | q <= j < q + |body| ensures !ClosesAt(close, s, j) {
      assert s[j..j + |close|] == (body + close)[j - q..][..|close|];
      ClosesAtSlice(close, s, j);
    }
  }

  /** A bound key is replaced by its value, even the empty string. */
  lemma {:induction false} BoundKeyYieldsValue(open: string, close: string, key: string, vars: Scope)
    requires key in vars && Plain(key)
    requires close != [] && !IsSpace(close[0])
    requires forall i :: 0 <= i < |key| ==> !StartsWith((key + close)[i..], close)
    ensures Interpolate(open, close, open + "$" + key + close, vars) == vars[key]
  {
    assert open + "$" + key + close == open + "$" + key + close + [];
    PlaceholderReplaced(open, close, key, [], vars);
    assert key != [] ==> !IsSpace(key[0]) && !IsSpace(key[|key| - 1]);
  }

  /** A key or default with neither whitespace nor `=` in it. */
  predicate Plain(s: string) {
    forall i :: 0 <= i < |s| ==> !IsSpace(s[i]) && s[i] != '='
  }

  /**
   * The default is the text between the first `=` and the next one (or the
   * end): `split('=')` keeps only its first two pieces.
   */
  lemma {:induction false} SubstituteDefault(key: string, def: string, more: string, vars: Scope)
    requires key !in vars && Plain(key) && Plain(def)
    requires more == [] || more[0] == '='
    ensures Substitute(key + "=" + def + more, vars) == def
  {
    assert key + "=" + def + more == key + ['='] + (def + more);
    FirstOccurrence(key, '=', def + more);
    BeforeUpTo(def, more, '=');
    TrimNoSpace(key);
    TrimNoSpace(def);
  }

  /**
   * An unbound key falls back to its default; whatever follows a second `=`
   * is dropped.
   */
  lemma {:induction false} UnboundKeyYieldsDefault(open: string, close: string, key: string, def: string, more: string, vars: Scope)
    requires key !in vars && Plain(key) && Plain(def)
    requires (more == [] || more[0] == '=') && forall i :: 0 <= i < |more| ==> !IsSpace(more[i])
    requires close != [] && !IsSpace(close[0])
    requires forall i :: 0 <= i < |key| + 1 + |def| + |more| ==> !StartsWith((key + "=" + def + more + close)[i..], close)
    ensures Interpolate(open, close, open + "$" + key + "=" + def + more + close, vars) == def
  {
    var body := key + "=" + def + more;
    assert open + "$" + key + "=" + def + more + close == open + "$" + body + close + [];
    forall i | 0 <= i < |body| ensures !IsSpace(body[i]) {
      if i < |key| { assert body[i] == key[i]; }
      else if i == |key| { assert body[i] == '='; }
      else if i < |key| + 1 + |def| { assert body[i] == def[i - |key| - 1]; }
      else { assert body[i] == more[i - |key| - 1 - |def|]; }
    }
    assert body + close == key + "=" + def + more + close;
    PlaceholderReplaced(open, close, body, [], vars);
    SubstituteDefault(key, def, more, vars);
    assert Interpolate(open, close, [], vars) == [];
  }

  /** An unbound key without a default yields the empty string. */
  lemma {:induction false} UnboundKeyYieldsEmpty(open: string, close: string, key: string, vars: Scope)
    requires key !in vars && Plain(key)
    requires close != [] && !IsSpace(close[0])
    requires forall i :: 0 <= i < |key| ==> !StartsWith((key + close)[i..], close)
    ensures Interpolate(open, close, open + "$" + key + close, vars) == []
  {
    assert open + "$" + key + close == open + "$" + key + close + [];
    PlaceholderReplaced(open, close, key, [], vars);
    assert key != [] ==> !IsSpace(key[0]) && !IsSpace(key[|key| - 1]);
  }

  /** The default is the text between the first and the second `=`: `{{$a=b=c}}` gives `b`. */
  lemma {:induction false} DefaultStopsAtSecondEquals()
    ensures Interpolate("{{", "}}", "{{$a=b=c}}", map[]) == "b"
  {
    assert "{{" + "$" + "a" + "=" + "b" + "=c" + "}}" == "{{$a=b=c}}";
    var s := "a" + "=" + "b" + "=c" + "}}";
    assert s == "a=b=c}}";
    forall i | 0 <= i < 5 ensures !StartsWith(s[i..], "}}") {
      assert s[i] != '}';
    }
    assert "=c"[1] == 'c';
    UnboundKeyYieldsDefault("{{", "}}", "a", "b", "=c", map[]);
  }

  // ---------------------------------------------------------------- escapeRegex

  /** The characters of the class `[-/\^$*+?.()|[\]{}]`; backslash is not one of them. */
  predicate IsRegexSpecial(c: char) {
    || c == '-' || c == '/' || c == '^' || c == '$' || c == '*' || c == '+' || c == '?'
    || c == '.' || c == '(' || c == ')' || c == '|' || c == '[' || c == ']' || c == '{' || c == '}'
  }

  function CountSpecial(s: string): nat {
    if s == [] then 0 else (if IsRegexSpecial(s[0]) then 1 else 0) + CountSpecial(s[1..])
  }

  /**
   * `escapeRegex`: a backslash before every character of the class above; the
   * escaped text is one character longer per special character, and no longer.
   */
  function EscapeRegex(s: string): (r: string)
    ensures |r| == |s| + CountSpecial(s)
    ensures |s| == 1 ==> r == (if IsRegexSpecial(s[0]) then ['\\', s[0]] else [s[0]])
  {
    if s == [] then []
    else (if IsRegexSpecial(s[0]) then ['\\', s[0]] else [s[0]]) + EscapeRegex(s[1..])
  }

  /** Escaping works character by character: the escape of a concatenation is the concatenation of the escapes. */
  lemma {:induction false} EscapeRegexConcat(a: string, b: string)
    ensures EscapeRegex(a + b) == EscapeRegex(a) + EscapeRegex(b)
  {
    if a != [] {
      assert (a + b)[0] == a[0] && (a + b)[1..] == a[1..] + b;
      EscapeRegexConcat(a[1..], b);
    } else {
      assert a + b == b;
    }
  }

  /** A backslash in the text is copied unescaped, with the text on either side escaped as usual. */
  lemma {:induction false} EscapeRegexKeepsBackslash(a: string, b: string)
    ensures EscapeRegex(a + "\\" + b) == EscapeRegex(a) + "\\" + EscapeRegex(b)
  {
    EscapeRegexConcat(a + "\\", b);
    EscapeRegexConcat(a, "\\");
    assert EscapeRegex("\\") == "\\";
  }

  /** The ECMAScript SyntaxCharacter set: `^ $ \ . * + ? ( ) [ ] { } |`. */
  predicate IsSyntaxChar(c: char) {
    || c == '^' || c == '$' || c == '\\' || c == '.' || c == '*' || c == '+' || c == '?'
    || c == '(' || c == ')' || c == '[' || c == ']' || c == '{' || c == '}' || c == '|'
  }

  function Prepend(c: char, r: Option<string>): Option<string> {
    match r
    case Some(t) => Some([c] + t)
    case None => None
  }

  /**
   * The literal text a regular-expression source matches when it consists
   * only of ordinary characters and identity escapes (`\$`, `\/`, `\-`, ...);
   * `None` for any source that uses other syntax (a class escape such as
   * `\d`, a bare `*`, ...), which then does not simply match itself.
   */
  function Unescape(p: string): Option<string>
    decreases |p|
  {
    if p == [] then Some([])
    else if p[0] == '\\' then
      if |p| >= 2 && (IsSyntaxChar(p[1]) || p[1] == '/' || p[1] == '-') then Prepend(p[1], Unescape(p[2..]))
      else None
    else if IsSyntaxChar(p[0]) then None
    else Prepend(p[0], Unescape(p[1..]))
  }

  /** For a delimiter without a backslash, the escaped pattern matches exactly the delimiter. */
  lemma {:induction false} EscapeRegexLiteralWithoutBackslash(s: string)
    requires '\\' !in s
    ensures Unescape(EscapeRegex(s)) == Some(s)
  {
    if s != [] {
      assert '\\' !in s[1..];
      EscapeRegexLiteralWithoutBackslash(s[1..]);
      var e := EscapeRegex(s[1..]);
      if IsRegexSpecial(s[0]) {
        var p := ['\\', s[0]] + e;
        assert p[0] == '\\' && p[1] == s[0] && p[2..] == e;
        assert Unescape(p) == Some([s[0]] + s[1..]);
      } else {
        var p := [s[0]] + e;
        assert p[0] == s[0] && p[1..] == e;
        assert Unescape(p) == Some([s[0]] + s[1..]);
      }
      assert [s[0]] + s[1..] == s;
    }
  }

  /** With a backslash the escape is not literal: the delimiter `\d` becomes the digit class `\d`. */
  lemma {:induction false} EscapeRegexBackslashNotLiteral()
    ensures EscapeRegex("\\d") == "\\d"
    ensures Unescape(EscapeRegex("\\d")) == None
  {
    assert EscapeRegex("d") == "d";
  }

  /** The intended escape: the same class plus the backslash itself. */
  function EscapeRegexLiteral(s: string): string {
    if s == [] then []
    else (if IsRegexSpecial(s[0]) || s[0] == '\\' then ['\\', s[0]] else [s[0]]) + EscapeRegexLiteral(s[1..])
  }

  /** The source's escape and the intended one differ only on backslashes. */
  lemma {:induction false} EscapeRegexAgreesWithoutBackslash(s: string)
    requires '\\' !in s
    ensures EscapeRegex(s) == EscapeRegexLiteral(s)
  {
    if s != [] {
      assert '\\' !in s[1..];
      EscapeRegexAgreesWithoutBackslash(s[1..]);
    }
  }

  /** Every delimiter, backslash or not, is matched literally after the intended escape. */
  lemma {:induction false} EscapeRegexLiteralRoundTrip(s: string)
    ensures Unescape(EscapeRegexLiteral(s)) == Some(s)
  {
    if s != [] {
      EscapeRegexLiteralRoundTrip(s[1..]);
      var e := EscapeRegexLiteral(s[1..]);
      if IsRegexSpecial(s[0]) || s[0] == '\\' {
        var p := ['\\', s[0]] + e;
        assert p[0] == '\\' && p[1] == s[0] && p[2..] == e;
        assert Unescape(p) == Some([s[0]] + s[1..]);
      } else {
        var p := [s[0]] + e;
        assert p[0] == s[0] && p[1..] == e;
        assert Unescape(p) == Some([s[0]] + s[1..]);
      }
      assert [s[0]] + s[1..] == s;
    }
  }
}
