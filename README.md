# vite-plugin-html-include, modelled in Dafny

This project models vite-plugin-html-include, a Vite plugin. Before Vite
sees an HTML page, the plugin replaces every `<include file="...">` element
with the contents of the file it names, and it does so recursively. The
model covers:

- where a `file` value points: Vite aliases, the including file's
  directory, and POSIX `path.resolve` / `path.dirname`;
- the extension allow-list;
- `$`-variables: `extractVars`, the scope merge, and `{{ $key=default }}`
  interpolation, including the regular expression that finds placeholders
  and `escapeRegex`;
- slots: the `default` entry, `<template slot>` entries and `<slot>`
  replacement;
- carrying the include's attributes over to a single-root fragment, with
  `class` and `style` merged;
- the `processIncludes` loop itself.

The document tree is a value (`Html.Node`). node-html-parser's parser and
serialiser are parameters (`Html.Markup`). The file system is a map from a
resolved path to its content, and `process.cwd()` is a parameter.
`processIncludes` is bounded by fuel, which limits both the depth of nested
files and the number of loop passes per file. An outcome records whether the
run finished within that fuel.

Modules, one per concern of `src/index.ts`:

- `Options`, `JsText`: the JavaScript string operations the plugin uses.
- `Html`: tree, attributes, `querySelector`, `replaceWith`.
- `Variables`: variables and interpolation.
- `Paths`: aliases and path resolution.
- `Slots`: slot handling.
- `AttrMerge`: attribute injection.
- `Expander`: the include loop and the recursion.

The loops of the source are methods, each proved against a specification
function:

- `ResolveWithAlias` against `AliasRewrite`;
- `BuildSlotMap` against `SlotMapOf`;
- `InjectAttributes` against `InjectAll`;
- `ProcessIncludes` / `RunLoop` against `Expansion` / `Loop`.

Lemmas state the properties of those functions. The in-place slot
replacement (`slot.replaceWith` inside `forEach`) is not a method. It is
modelled as the pure rewrite `Slots.FillSlots` of the parsed fragment (see
"## Left out").

## Model

| member | source | states |
|---|---|---|
| JsText.Trim | src/index.ts:152 | `trim()`: the result is a slice of the input with only whitespace before and after it; it neither starts nor ends with whitespace; it is empty exactly when the input is all whitespace; already trimmed text is unchanged |
| JsText.SplitOn | src/index.ts:224 | `split('=')`: the first part is the text before the first `=`; there are two or more parts exactly when `=` occurs; no part holds `=`; joining the parts gives the input back |
| JsText.SplitJoin | src/index.ts:224 | splitting undoes joining with the same one-character separator |
| Html.GetAttribute | src/index.ts:100 | `getAttribute`: absent exactly when no attribute has the name; otherwise the value of an attribute with that name |
| Html.GetUnique | src/index.ts:100 | with distinct names, looking up an attribute's name yields that attribute's value |
| Html.SetAttribute | src/index.ts:183 | `setAttribute`: the name then reads the new value; every other name reads as before; distinct names stay distinct |
| Html.FirstTag | src/index.ts:92 | `querySelector('include')`: finds nothing exactly when the tree holds no include element; what it finds is an include element |
| Html.FirstTagIsFirst | src/index.ts:92 | no include element comes before, or encloses, the one found |
| Html.ReplaceAt | src/index.ts:199 | `replaceWith(...)` / `remove()` of the node at a position: the siblings before and after it are kept; at the top level the replacement sits in its place; deeper down, only the enclosing element's children change |
| Html.CountReplaceAt | src/index.ts:199 | `replaceWith` / `remove` drop the replaced subtree's elements and add the replacement's |
| Html.Splice | src/index.ts:199 | `replaceWith(string)` inserts the parsed nodes when there are any, and a single text node holding the string when it parses to nothing; never nothing |
| Variables.ExtractVars | src/index.ts:208-214 | a variable `k` is bound exactly when the tag has an attribute `$k` |
| Variables.ExtractVarsValue | src/index.ts:208-214 | a bound variable has the value of its `$`-attribute |
| Variables.MergeScopes | src/index.ts:97 | the merged keys are the union; a local binding wins; an inherited one survives where no local binding exists |
| Variables.Substitute | src/index.ts:224-225 | the key is the trimmed text before the first `=`. A bound key gives its value. An unbound key gives the trimmed text between the first and the second `=` when there is a `=`, and the empty string otherwise |
| Variables.LastCloseWithin | src/index.ts:222 | greedy `\s*` before the close delimiter: the longest whitespace prefix followed by `close`, or none exists |
| Variables.CaptureFromMatches | src/index.ts:222 | what the lazy `(.*?)` scan returns is a match: no line terminator in the capture, then whitespace, then `close` |
| Variables.CaptureFromFirst | src/index.ts:222 | no shorter capture can be closed; when the scan returns nothing, no capture can be |
| Variables.MatchAt | src/index.ts:222 | a match found at the front of the text is a placeholder: open delimiter, whitespace, `$`, capture, whitespace, close delimiter |
| Variables.LeadIsForced | src/index.ts:222 | the `\s*` before `\$` always takes the whole whitespace run |
| Variables.CaptureIsLazy | src/index.ts:222 | when some capture closes, the scan stops at the shortest one, with the longest whitespace run before `close` |
| Variables.MatchAtIsLeftmostLazy | src/index.ts:222 | whenever a placeholder sits at the front, a match is found: the forced lead, the shortest capture, and the greedy trailing whitespace |
| Variables.Interpolate | src/index.ts:220-227 | `html.replace(regex, callback)`: empty text stays empty; a character where no open delimiter starts is copied. Its placeholder behaviour is stated by the lemmas below |
| Variables.InterpolateWithoutOpen | src/index.ts:220-227 | text in which the open delimiter never occurs comes back unchanged |
| Variables.NoPlaceholderCopies | src/index.ts:220-227 | where no placeholder matches at the front, even when the open delimiter does, the first character is copied and the scan moves on by one |
| Variables.PlaceholderMatch | src/index.ts:222 | for `open $body close rest`, the match spans exactly the placeholder |
| Variables.PlaceholderReplaced | src/index.ts:223-226 | `open $body close rest` becomes the substitution of `body` followed by the interpolated `rest` |
| Variables.BoundKeyYieldsValue | src/index.ts:225 | a bound key is replaced by its value, even an empty one |
| Variables.SubstituteDefault | src/index.ts:224-225 | an unbound `key=def` capture gives `def` |
| Variables.UnboundKeyYieldsDefault | src/index.ts:225 | an unbound key with a default is replaced by the default |
| Variables.UnboundKeyYieldsEmpty | src/index.ts:225 | an unbound key without a default is replaced by the empty string |
| Variables.DefaultStopsAtSecondEquals | src/index.ts:224 | `{{$a=b=c}}` with no variables gives `b` |
| Variables.EscapeRegex | src/index.ts:229-231 | `escapeRegex` as written: a single character is preceded by a backslash exactly when it is in the class `[-/\^$*+?.()\|[\]{}]`, and is otherwise copied; escaping adds exactly one character per special character |
| Variables.EscapeRegexConcat | src/index.ts:229-231 | the escape works character by character, in order: the escape of `a + b` is the escape of `a` followed by the escape of `b` |
| Variables.EscapeRegexKeepsBackslash | src/index.ts:230 | a backslash in the text is copied without an escape, between the escapes of the text on either side |
| Variables.EscapeRegexAgreesWithoutBackslash | src/index.ts:229-231 | on text without a backslash, the escape as written equals the corrected escape |
| Variables.EscapeRegexLiteralWithoutBackslash | src/index.ts:229-231 | a delimiter without a backslash escapes to a pattern that matches exactly that delimiter |
| Variables.EscapeRegexBackslashNotLiteral | src/index.ts:230 | the delimiter `\d` is left as the digit class `\d` and is not matched literally |
| Variables.EscapeRegexLiteralRoundTrip | src/index.ts:229-231 | once backslash is escaped too, every delimiter is matched literally |
| JsText.FindText | src/index.ts:34 | `indexOf` for a string pattern: an occurrence, with none earlier; or none anywhere |
| Paths.Rewrite | src/index.ts:33-34 | `replace(find, replacement)` replaces the first occurrence of `find` (`JsText.ReplaceFirst`); on a path that starts with `find/` this swaps exactly the prefix |
| Paths.AliasRewrite | src/index.ts:29-44 | the first usable alias, in order, whose `find/` prefixes the path rewrites it; with none, the path is unchanged |
| Paths.ResolveWithAlias | src/index.ts:29-44 | the loop with an early return computes `AliasRewrite` |
| Paths.Canon | src/index.ts:112 | processing separator-free segments keeps a stack of normal segments normal |
| Paths.Normalize | src/index.ts:112 | the normalised path is rooted |
| Paths.Resolve | src/index.ts:112-118 | `path.resolve` always yields an absolute path |
| Paths.CanonConcat | src/index.ts:112 | normalising a concatenation is normalising the parts in turn |
| Paths.CanonNormal | src/index.ts:112 | normal segments are kept as they are |
| Paths.SplitRooted | src/index.ts:112 | a rooted path of normal segments splits back into those segments |
| Paths.NormalizeIdempotent | src/index.ts:112 | resolving a resolved path changes nothing |
| Paths.DotSegmentIgnored | src/index.ts:118 | `base/./file` resolves like `base/file` |
| Paths.TrailingSeparatorIgnored | src/index.ts:117 | a trailing `/` makes no difference |
| Paths.Dirname | src/index.ts:143 | the directory of a rooted path is rooted and no longer than the path |
| Paths.DirnameParent | src/index.ts:143 | the directory of a resolved path drops its last segment |
| Paths.ResolveRelativeAppends | src/index.ts:117 | a plain relative path resolved under a resolved directory is simply appended |
| Paths.NormalizeAppend | src/index.ts:117 | a resolved directory followed by normal segments is already normal |
| Paths.ResolveInclude | src/index.ts:107-119 | the resolved path is always absolute |
| Paths.AllowAbsolutePathsIrrelevant | src/index.ts:114-118 | on POSIX, `allowAbsolutePaths` never changes the resolved path |
| Paths.RootedIgnoresBaseDir | src/index.ts:114-115 | an unaliased `/`-path resolves against the working directory and ignores the including file's directory |
| Paths.AliasedIgnoresBaseDir | src/index.ts:108-112 | an aliased path resolves on its own, whatever the base directory or the flag |
| Paths.RelativeUsesBaseDir | src/index.ts:116-118 | an unaliased path without a leading `/` resolves against the including file's directory, whatever the flag |
| Paths.AllowedExtension | src/index.ts:121 | accepted exactly when the path ends with one of the extensions |
| Slots.Initial | src/index.ts:152-156 | `default` is bound, to the trimmed inner HTML, exactly when that is non-empty; nothing else is bound |
| Slots.FillKeys | src/index.ts:157-160 | a name is bound exactly when it was bound initially or some template carries that non-empty name |
| Slots.FillLastWins | src/index.ts:157-160 | the last template with a given name wins |
| Slots.FillKeeps | src/index.ts:157-160 | a name that no template mentions keeps its initial value |
| Slots.Templates | src/index.ts:157 | `querySelectorAll('template[slot]')`: the entries of the `template` elements with a `slot` attribute, taken from the preorder (document-order) listing of the include's nodes, in that order; at most one entry per `template` element |
| Slots.TemplateAtYieldsEntry | src/index.ts:157-159 | every `template` element with a `slot` attribute, at any depth, yields the entry of its `slot` value and its trimmed inner HTML |
| Slots.EntryFromTemplate | src/index.ts:157-159 | every entry comes from such a template, at a position the lemma returns |
| Slots.BuildSlotMap | src/index.ts:152-160 | the map-building loop computes the inner HTML followed by each template in order |
| Slots.DefaultEntry | src/index.ts:152-160 | `default` is bound exactly when the inner HTML is non-blank or a `default` template exists; without such a template, it is the inner HTML |
| Slots.SlotKey | src/index.ts:162-163 | a slot asks for its `name`, or `default` when the name is missing or empty |
| Slots.FillSlots | src/index.ts:161-171 | the slots of the fragment, collected before any replacement, each replaced in document order; markup put in place of a slot is not searched again. Its properties are the lemmas below |
| Slots.FillSlotsCount | src/index.ts:161-171 | the slots left afterwards are exactly those inside the markup put in place of the replaced slots |
| Slots.FillSlotsWithoutSlots | src/index.ts:161-171 | a fragment without slots comes back unchanged |
| Slots.FillSlotsRemovesSlots | src/index.ts:161-171 | no slot survives when no entry of the slot map, and no slot's own trimmed inner HTML, parses to markup holding a slot |
| Slots.SlotReplaced | src/index.ts:161-171 | a slot takes its entry when the map has one, and its own trimmed inner HTML otherwise |
| Slots.SlotReplacedAt | src/index.ts:161-171 | a slot at any depth with no slot above it is replaced by its entry or own content: filling equals first putting that replacement in its place, when the replacement holds no slot |
| AttrMerge.MergeClass | src/index.ts:181-183 | the merged class list is trimmed and at most one character longer than both lists together |
| AttrMerge.MergeClassJoins | src/index.ts:183 | two non-blank trimmed class lists are joined by a single space, the existing one first |
| AttrMerge.MergeClassAlone | src/index.ts:182-183 | without an existing class, the include's class is taken, trimmed |
| AttrMerge.StripSemicolons | src/index.ts:188 | `replace(/;*$/, '')` removes exactly the trailing run of `;` |
| AttrMerge.CleanStyle | src/index.ts:188 | a cleaned declaration list never ends in `;` |
| AttrMerge.MergeStyle | src/index.ts:184-190 | the non-empty parts, cleaned, joined by `; ` and ended with `;`, in all four cases |
| AttrMerge.NewValue | src/index.ts:179-193 | `$`-attributes and `file` are skipped; `class` and `style` merge; anything else overwrites |
| AttrMerge.ApplyAttribute | src/index.ts:179-193 | one loop pass changes only the attribute it names, to `NewValue`, and keeps names distinct |
| AttrMerge.InjectAttributes | src/index.ts:178-194 | the loop over the include's attributes computes `InjectAll` |
| AttrMerge.InjectAllEffect | src/index.ts:178-194 | each include attribute gives the root the value `NewValue` says; root attributes the include does not name are untouched |
| AttrMerge.InjectAllKeepsUnique | src/index.ts:178-194 | the root's attribute names stay distinct |
| AttrMerge.FirstElement | src/index.ts:174-176 | the first element child; when it is the only one, no other child is an element |
| AttrMerge.ApplyToSingleRoot | src/index.ts:174-197 | attributes go to the single root element and nothing else; a fragment without exactly one root element is unchanged |
| Expander.DefaultConfig | src/index.ts:20-25 | the defaults are `.html`/`.svg`, `{{ }}`, and absolute paths off |
| Expander.Classify | src/index.ts:100-138 | a missing or empty `file` removes the tag silently; a disallowed extension, or an unreadable file, removes it with one warning; a named, allowed and readable file is loaded, with its interpolated name, its resolved path and its content |
| Expander.Fragment | src/index.ts:195-197 | building a fragment prints at most one warning |
| Expander.BuildFragment | src/index.ts:148-199 | interpolate, parse, fill slots, inject attributes or warn, then splice: computes `Fragment` |
| Expander.Expansion | src/index.ts:74-203 | the specification of `processIncludes`: parse, then the loop; with no fuel left, the parsed page, marked incomplete |
| Expander.Loop | src/index.ts:91-200 | the specification of the `while (true)` loop: done when no include is left, otherwise one `Step` on the first include and the rest of the loop |
| Expander.Step | src/index.ts:95-199 | the specification of one loop pass: remove the tag as `Classify` says, or `LoadStep` |
| Expander.LoadStep | src/index.ts:140-199 | the specification of loading a file: expand it recursively, then replace the tag by its fragment |
| Expander.StepReplacesFirstInclude | src/index.ts:91-104 | each pass works on the first include in document order; a removed tag takes its subtree along, so the number of includes drops |
| Expander.LoopCompleteNoInclude | src/index.ts:91-93 | a loop that ends within its budget leaves no include element |
| Expander.ExpansionCompleteNoInclude | src/index.ts:74-203 | an expansion that ends within its fuel leaves no include element |
| Expander.NoIncludeUnchanged | src/index.ts:80-93 | a page without includes is left as parsed, and nothing is printed |
| Expander.StepLoadsFile | src/index.ts:140-199 | a named, allowed and readable include is replaced by the fragment of its file. The file is expanded with fuel one less, from its own directory, in the scope `MergeScopes(vars, ExtractVars(tag.attrs))`, with the source file passed on. The warnings are `Loaded`, then the file's, then the fragment's |
| Expander.IncludedScope | src/index.ts:96-97 | in that merged scope, each `$k` attribute of the tag binds `k` to its value, overriding an inherited `k`; every other inherited binding survives |
| Expander.ResolvePath | src/index.ts:107-119 | the branch chain computes `ResolveInclude` |
| Expander.Iterate | src/index.ts:95-146 | one loop body with its early `continue`s computes `Step` |
| Expander.Include | src/index.ts:140-199 | recursing into the loaded file and splicing its fragment computes `LoadStep` |
| Expander.Pass | src/index.ts:91-93 | one pass either stops with the final outcome or leaves the rest of the loop to account for the run |
| Expander.RunLoop | src/index.ts:91-200 | the `while (true)` loop computes `Loop` |
| Expander.ProcessIncludes | src/index.ts:74-203 | `processIncludes` computes `Expansion` |

## Left out

- Vite's hooks are not modelled: `configResolved`, the `transformIndexHtml` handler and `handleHotUpdate` (the watch reload, over a WebSocket). The handler's call is `Expansion(cfg, host, fuel, html, host.cwd, map[], filename)`.
- The package version lookup and the console colouring are left out. The printed messages are `Expander.Diagnostic` values with the path, source and file they name.
- node-html-parser's tokeniser and serialiser are the functions of `Html.Markup`. Nothing is assumed about them, not even that they invert each other.
- `fs.readFile` is a lookup in `Host.files`: a path is either readable with its content or unreadable. Asynchrony and partial reads are not modelled.
- `process.cwd()` is `Host.cwd`, taken to be an absolute path.
- Windows paths are not modelled. `path.sep` is `/`, and `path.resolve` / `path.dirname` follow their POSIX definitions.
- Paths.Dirname: specified only for the rooted paths `path.resolve` produces. Paths with a trailing separator are not covered.
- Paths.Rewrite: `replace` special patterns in a replacement string (`$&`, `$1`, …) are not interpreted.
- Paths.Applies: a `find` that is a regular expression is not modelled; only string `find` values are.
- Paths.AliasRewrite: the object form of `resolve.alias` is not modelled. Vite turns it into an array before `configResolved`, and line 30 ignores a non-array alias anyway.
- Html.GetAttribute: attribute names are compared exactly. The parser's lower-casing and entity decoding are not modelled.
- Html.FirstTag: tag names are compared exactly.
- Attribute order: the model keeps attributes in document order. `Object.entries` would put integer-like names first.
- Variables.Substitute: a key such as `toString` finds nothing in the model. The source's plain object would find an inherited prototype member.
- Expander.ProcessIncludes: bounded by `fuel`, both in nested depth and in passes per file. The source has no cycle guard, so a self-including file does not terminate; the model reports `complete == false` instead.
- Node identity and in-place mutation of the parsed tree are modelled on values. A tree position (`Html.Path`) stands for the `tag` object, and `replaceWith` rebuilds the tree along that path.
- Variables.Interpolate: the delimiters are matched literally, as the corrected `escapeRegex` would make them (see "## Findings"). For a delimiter holding a backslash the source's pattern means something else. When `close` ends in a backslash, the pattern source ends in `\` and `new RegExp` throws at line 222, so `processIncludes` rejects; that exception is not modelled.
- Slots.FillSlots: `slot.replaceWith` inside `forEach` mutates the parsed fragment in place. The model rewrites it as a value in one pass. Replacing a slot that an earlier replacement already detached (a slot inside a slot) changes nothing in the source, and the model does not descend into replaced slots, so the results agree. Node identity is not captured.
- Expander.Fragment: its own contract only bounds the warnings. What it computes is stated by `Slots`, `AttrMerge` and `Expander.BuildFragment`.
- `split('=')` at line 224 keeps only the segment between the first and the second `=` as the default: `{{$a=b=c}}` gives `b`, and the rest after the second `=` is dropped (`Variables.DefaultStopsAtSecondEquals`, `Variables.SubstituteDefault`).

## Findings

| source | as written | input that shows it | evidently intended | confidence | as-written member | corrected member |
|---|---|---|---|---|---|---|
| src/index.ts:229-231 | `escapeRegex` escapes `-/^$*+?.()\|[]{}` but not the backslash, so a backslash in a delimiter keeps its regex meaning | delimiters `['\\d', '}}']`: the pattern starts with the digit class `\d` and never matches the literal text `\d` | every delimiter is matched literally, so the backslash is escaped too | not executed | Variables.EscapeRegexBackslashNotLiteral | Variables.EscapeRegexLiteralRoundTrip |
