/**
 * The JavaScript string operations the include expander relies on:
 * `\s` / `String.prototype.trim` whitespace, `startsWith`, `endsWith`
 * and `split` on a single character.
 */
module JsText {
  import opened Options

  /** The ECMAScript LineTerminator code points (what `.` in a regex does not match). */
  predicate IsLineTerminator(c: char) {
    c == '\n' || c == '\r' || c == '\U{2028}' || c == '\U{2029}'
  }

  /** The ECMAScript WhiteSpace and LineTerminator code points: what `\s` matches and `trim` removes. */
  predicate IsSpace(c: char) {
    || IsLineTerminator(c)
    || c == '\t' || c == '\U{000B}' || c == '\U{000C}' || c == ' '
    || c == '\U{00A0}' || c == '\U{FEFF}' || c == '\U{1680}'
    || ('\U{2000}' <= c <= '\U{200A}')
    || c == '\U{202F}' || c == '\U{205F}' || c == '\U{3000}'
  }

  predicate AllSpace(s: string) {
    forall i :: 0 <= i < |s| ==> IsSpace(s[i])
  }

  predicate StartsWith(s: string, prefix: string) {
    |prefix| <= |s| && s[..|prefix|] == prefix
  }

  predicate EndsWith(s: string, suffix: string) {
    |suffix| <= |s| && s[|s| - |suffix|..] == suffix
  }

  /** Length of the longest all-whitespace prefix (what a greedy `\s*` consumes). */
  function LeadingSpace(s: string): (n: nat)
    ensures n <= |s|
    ensures forall i :: 0 <= i < n ==> IsSpace(s[i])
    ensures n < |s| ==> !IsSpace(s[n])
  {
    if s != [] && IsSpace(s[0]) then 1 + LeadingSpace(s[1..]) else 0
  }

  /** Length of the longest all-whitespace suffix. */
  function TrailingSpace(s: string): (n: nat)
    ensures n <= |s|
    ensures forall i :: |s| - n <= i < |s| ==> IsSpace(s[i])
    ensures n < |s| ==> !IsSpace(s[|s| - n - 1])
  {
    if s != [] && IsSpace(s[|s| - 1]) then 1 + TrailingSpace(s[..|s| - 1]) else 0
  }

  /** `String.prototype.trim`: drop leading and trailing whitespace. */
  function Trim(s: string): (r: string)
    ensures |r| <= |s|
    ensures exists i, j :: 0 <= i <= j <= |s| && r == s[i..j] && AllSpace(s[..i]) && AllSpace(s[j..])
    ensures r == [] || (!IsSpace(r[0]) && !IsSpace(r[|r| - 1]))
    ensures r == [] <==> AllSpace(s)
    ensures s == [] || (!IsSpace(s[0]) && !IsSpace(s[|s| - 1])) ==> r == s
  {
    var i := LeadingSpace(s);
    var r := TrimEnd(s[i..]);
    assert r == s[i..i + |r|] && AllSpace(s[..i]) && AllSpace(s[i + |r|..]);
    r
  }

  /** Drop the trailing whitespace. */
  function TrimEnd(u: string): (r: string)
    ensures |r| <= |u| && r == u[..|r|]
    ensures r == [] || !IsSpace(r[|r| - 1])
    ensures forall k :: |r| <= k < |u| ==> IsSpace(u[k])
  {
    u[..|u| - TrailingSpace(u)]
  }

  /** Index of the first occurrence of `c`. */
  function IndexOf(s: string, c: char): (i: nat)
    requires c in s
    ensures i < |s| && s[i] == c && c !in s[..i]
  {
    if s[0] == c then 0
    else
      var i := 1 + IndexOf(s[1..], c);
      assert s[..i] == [s[0]] + s[1..][..i - 1];
      i
  }

  /** The text before the first `c` (all of `s` when there is none). */
  function Before(s: string, c: char): (r: string)
    ensures |r| <= |s| && c !in r && r == s[..|r|]
    ensures c in s ==> |r| < |s| && s[|r|] == c
    ensures c !in s ==> r == s
  {
    if c in s then s[..IndexOf(s, c)] else s
  }

  /** The text after the first `c`. */
  function After(s: string, c: char): (r: string)
    requires c in s
    ensures s == Before(s, c) + [c] + r
  {
    var i := IndexOf(s, c);
    assert s == s[..i] + [s[i]] + s[i + 1..];
    s[i + 1..]
  }

  /** `s.indexOf(t)`: the first index at which `t` occurs in `s`. */
  function FindText(s: string, t: string): (r: Option<nat>)
    ensures r.Some? ==> r.value + |t| <= |s| && s[r.value..r.value + |t|] == t
    ensures r.Some? ==> forall k :: 0 <= k < r.value ==> !StartsWith(s[k..], t)
    ensures r.None? ==> forall k :: 0 <= k <= |s| ==> !StartsWith(s[k..], t)
    decreases |s|
  {
    if StartsWith(s, t) then Some(0)
    else if s == [] then None
    else
      assert forall k :: 1 <= k <= |s| ==> s[1..][k - 1..] == s[k..];
      match FindText(s[1..], t)
      case None => None
      case Some(i) => Some(i + 1)
  }

  /** `s.replace(t, repl)` with a string pattern: the first occurrence of `t`, if any, becomes `repl`. */
  function ReplaceFirst(s: string, t: string, repl: string): string {
    match FindText(s, t)
    case None => s
    case Some(i) => s[..i] + repl + s[i + |t|..]
  }

  /** Text without whitespace is already trimmed. */
  lemma TrimNoSpace(s: string)
    requires forall i :: 0 <= i < |s| ==> !IsSpace(s[i])
    ensures Trim(s) == s
  {
    assert s == [] || (!IsSpace(s[0]) && !IsSpace(s[|s| - 1]));
  }

  /** Around the first `c`: what comes before it and what comes after it. */
  lemma {:induction false} FirstOccurrence(a: string, c: char, b: string)
    requires c !in a
    ensures Before(a + [c] + b, c) == a && After(a + [c] + b, c) == b
  {
    var s := a + [c] + b;
    assert s[|a|] == c;
    assert s[..|a|] == a;
    var r := Before(s, c);
    assert |r| >= |a| by {
      assert forall i :: 0 <= i < |a| ==> s[i] == a[i] && a[i] != c;
    }
    assert forall i :: |a| < i <= |s| ==> c in s[..i] by {
      assert forall i :: |a| < i <= |s| ==> s[..i][|a|] == c;
    }
  }

  /** Text with no `c` before a `c` (or the end) is all `Before` returns. */
  lemma BeforeUpTo(a: string, more: string, c: char)
    requires c !in a && (more == [] || more[0] == c)
    ensures Before(a + more, c) == a
  {
    if more == [] {
      assert a + more == a;
    } else {
      assert more == [c] + more[1..];
      assert a + more == a + [c] + more[1..];
      FirstOccurrence(a, c, more[1..]);
    }
  }

  /** `parts.join(sep)`. */
  function Join(parts: seq<string>, sep: string): string {
    if |parts| == 0 then []
    else if |parts| == 1 then parts[0]
    else parts[0] + sep + Join(parts[1..], sep)
  }

  /** `s.split(c)` for a one-character separator. */
  function SplitOn(s: string, c: char): (parts: seq<string>)
    ensures |parts| >= 1
    ensures parts[0] == Before(s, c)
    ensures |parts| >= 2 <==> c in s
    ensures forall k :: 0 <= k < |parts| ==> c !in parts[k]
    ensures Join(parts, [c]) == s
    decreases |s|
  {
    if c in s then [Before(s, c)] + SplitOn(After(s, c), c) else [s]
  }

  /** Splitting undoes joining with the same separator. */
  lemma {:induction false} SplitJoin(parts: seq<string>, c: char)
    requires |parts| >= 1
    requires forall k :: 0 <= k < |parts| ==> c !in parts[k]
    ensures SplitOn(Join(parts, [c]), c) == parts
  {
    if |parts| > 1 {
      var tail := parts[1..];
      var s := Join(parts, [c]);
      assert s == parts[0] + [c] + Join(tail, [c]);
      FirstOccurrence(parts[0], c, Join(tail, [c]));
      assert s[|parts[0]|] == c;
      assert forall k :: 0 <= k < |tail| ==> c !in tail[k] by {
        assert forall k :: 0 <= k < |tail| ==> tail[k] == parts[k + 1];
      }
      SplitJoin(tail, c);
      assert SplitOn(s, c) == [parts[0]] + tail;
      assert parts == [parts[0]] + tail;
    }
  }
}
