# Progressive.js in Dafny

Progressive.js lets a page declare rules `name -> {selector, callback}` and calls each
rule's callback once for every element that matches the selector, as soon as the element
enters the document. When the browser supports CSS animations, `enhance` inserts a
near-zero-length animation, named after the rule, for every rule's selector. It then
listens for `animationstart`, so a newly inserted element whose winning `animation`
declaration is one of these announces itself under that rule's name.
A scan on `DOMContentLoaded` (the *fallback*) resolves every selector once more and calls
back on whatever has not been handled yet. It then detaches the animation handlers.

This project models the decision logic of that engine as pure functions over immutable
values:

- `Selectors`: the selector classifier `getElements`. It decides whether a selector goes
  to a tag lookup, a class lookup, an id lookup or a full query, and with which argument.
- `Features`: capability detection. It decides whether animations are supported and
  whether they need the `-webkit-` prefix.
- `Stylesheet`: the CSS text generated for each rule, with functions that recover the
  text between each rule's fixed head and tail.
- `Registry`: the per-rule state. Each rule has a selector and a list of handled
  elements (`elems`). The module holds the dedup step `issueCallback`, the animation
  handler `onNodeInserted`, the `fallback` scan and `enhance` itself. Every callback
  invocation is appended to a log as a `Call(rule, element)`.
- `Properties`: properties that span several transitions. These include idempotence of
  the scan and the promise that each (rule, element) pair gets at most one callback, over
  any sequence of events.
- `Findings`: two source defects. Each is shown as written and next to a corrected
  definition.

Elements are `Dom.Elem = Null | Node(id)` and are compared by identity, the way `===`
compares them. The document is a snapshot of its four lookup primitives (`Dom.Document`).
The fallback takes a resolver `string -> seq<Elem>`. `Selectors.Resolver(doc)` is the
resolver `getElements` builds, and the scan's properties hold for every resolver.

Behaviours of progressive.js that the model keeps as written:

- Deduplication is by element identity: each rule keeps the list of elements it has
  handled (`elems`, progressive.js:44-48). No invocation counter is kept.
- The fallback detaches the animation handlers whenever `removeEventListener` exists
  (progressive.js:68-71). Elements inserted after the scan are therefore never called back.
- Only the unprefixed and the `-webkit-` property names are probed (progressive.js:33-38).
- An id selector is looked up as `[getElementById(id)]` (progressive.js:25), so an absent
  id yields the one-element list `[null]`.

The selector scan in the source runs over UTF-16 code units, while a Dafny `char` is a
Unicode scalar value. This does not change the classification. A character outside the
Basic Multilingual Plane is special in both views, so a selector containing one always
falls through to the full query.

## Model

| member | source | states |
|---|---|---|
| Features.Detect | progressive.js:32-38 | support is detected iff the unprefixed or the `WebkitAnimationName` property is defined; the prefix is `-webkit-` exactly when only the WebKit property exists, and `""` otherwise (including when nothing is supported) |
| Selectors.SpecialChars | progressive.js:18 | the global match of `[^a-zA-Z0-9-]` holds only special characters, is no longer than the selector, and is empty (the `null` of no match) iff every character is a word character |
| Selectors.SpecialCharsSingle | progressive.js:18-25 | the match has length one iff exactly one position of the selector holds a special character, and then the match is that character |
| Selectors.Classify | progressive.js:17-29 | exactly one strategy applies: a tag lookup on the whole string iff every character is a word character; a class lookup on `selector[1..]` iff class lookup exists and the only special character is `.`; an id lookup on `selector[1..]` iff the only special character is `#`; a full query on the unchanged string otherwise |
| Selectors.ClassIgnoresPosition | progressive.js:22-23 | the special character's position is not checked: `a.b` becomes a class lookup for `.b` |
| Selectors.ClassNeedsClassLookup | progressive.js:22-27 | `.note` is a class lookup for `note` when `getElementsByClassName` exists and a full query otherwise |
| Selectors.UnderscoreIsSpecial | progressive.js:18 | `_` is outside the word class, so `my_tag` goes to the full query |
| Selectors.GetElements | progressive.js:17-30 | an all-word selector goes to the tag lookup on itself; a class selector to the class lookup on `selector[1..]`; an id selector always yields exactly one entry, `[byId(selector[1..])]`, even when the id is absent; anything else to the full query on the unchanged selector |
| Stylesheet.AnimationRule | progressive.js:87 | the style rule `S{<prefix>animation:<name> 0.001s;} ` starts with the selector and holds exactly the rule's name between its fixed head and tail |
| Stylesheet.KeyframesRule | progressive.js:88 | the keyframes definition `@<prefix>keyframes <name>{from{opacity:0.99;}to{opacity:1;}}` holds exactly the rule's name between its fixed head and tail |
| Stylesheet.GeneratedTextSeparatesNames | progressive.js:87-88 | two rules with different names get different style rules, even on the same selector, and different keyframes |
| Stylesheet.OwnKeys | progressive.js:84-85 | the `hasOwnProperty` filter keeps exactly the enumerated names that are own rules |
| Stylesheet.CompileRules | progressive.js:84-90 | exactly two CSS rules are inserted per enumerated name that is an own rule (a `for`-`in` enumeration names each key once) and none for other names |
| Stylesheet.CompileRulesLayout | progressive.js:84-90 | the rules are inserted in enumeration order: position `2i` is the style rule and `2i+1` the keyframes definition of the `i`-th own rule |
| Stylesheet.CompileRulesLayoutAll | progressive.js:84-90 | the same layout, for every position at once |
| Registry.InitialRules | progressive.js:84-86 | every own rule keeps its selector; its handled list is the empty list when animations are supported and undefined otherwise |
| Registry.Enhance | progressive.js:80-99 | a fresh registry has an empty log and keeps every declared selector; when animations are supported every rule starts with an empty handled list, the handlers are attached, and the CSS holds, for the `i`-th own rule in enumeration order, its style rule at `2i` and its keyframes at `2i+1`, both with the detected prefix; otherwise `elems` stays undefined, no CSS is inserted and nothing listens; the invariant holds |
| Registry.LastIndexOf | progressive.js:45-47 | the backward scan finds `t` iff `t` is in the handled list, and then it finds its last occurrence |
| Registry.IssueCallback | progressive.js:43-50 | faults iff the rule's `elems` is undefined; an already handled element changes nothing; otherwise the element is added to that rule's handled list and exactly one call `(rule, element)` is logged; other rules are untouched and the invariant (no duplicates, log equals handled pairs) is kept |
| Registry.OnNodeInserted | progressive.js:75-78 | a firing is ignored when the handlers are detached or its animation name is not a rule; otherwise it acts as `issueCallback` on that rule: it faults iff the rule's `elems` is undefined, afterwards the target is handled, an already handled target changes nothing and a new one logs exactly `Call(rule, target)`; only the named rule changes; from an invariant state it never faults |
| Registry.ScanElems | progressive.js:63-65 | the inner loop succeeds iff the handled list exists or there is nothing to scan, and it only touches the scanned rule |
| Registry.ScanElemsEffect | progressive.js:63-65 | after the inner loop the rule has handled exactly its old elements plus the scanned ones; new calls are only for scanned elements not handled before; the invariant is kept |
| Registry.ScanRules | progressive.js:59-67 | the outer loop succeeds iff every own rule whose selector matches something has a handled list |
| Registry.ScanRulesEffect | progressive.js:59-67 | after the outer loop every own rule has handled everything its selector matches and nothing more; new calls are fresh and for matched elements only |
| Registry.Fallback | progressive.js:54-72 | the scan succeeds iff no own rule with matches lacks a handled list; afterwards the handled pairs are the old ones plus every match; new calls are only for matches not handled before; handlers are detached when `removeEventListener` exists |
| Properties.ScanElemsHandledIsNoOp | progressive.js:45-47 | scanning elements that are all handled already changes nothing |
| Properties.ScanRulesHandledIsNoOp | progressive.js:59-67 | scanning rules whose matches are all handled already changes nothing |
| Properties.FallbackIdempotent | progressive.js:54-72 | a second fallback on the same document snapshot returns the same state and logs nothing |
| Properties.FallbackCoversMatches | progressive.js:59-67 | from an invariant state, after the fallback every rule's callback has been called on every element its selector matches, and no pair is called twice |
| Properties.FallbackStopsDispatch | progressive.js:68-78 | once the fallback has removed the listeners, no animation-start firing dispatches anything |
| Properties.RunKeepsInv | progressive.js:43-78 | any sequence of firings and scans keeps the invariant, only appends to the log and keeps the rule set |
| Properties.RunNeverFaultsWhenInitialised | progressive.js:80-86 | when every rule has a handled list, no sequence of events faults |
| Properties.AtMostOneCallbackPerElement | progressive.js:43-50 | from a fresh `enhance`, over any interleaving of firings and scans, each (rule, element) pair is called back at most once and only declared rules are called; with animation support nothing faults |
| Properties.PassiveFiringCallsBack | progressive.js:75-78 | after any run from a supported `enhance`, while the handlers are attached, a firing for a declared rule leaves `Call(rule, target)` in a duplicate-free log |
| Findings.UnsupportedFallbackFaults | progressive.js:44-45 | without animation support, the fallback faults whenever some rule's selector matches an element |
| Findings.UnsupportedFallbackExample | progressive.js:80-86 | concrete case: no support, rule `highlight` on `.note`, three notes present; the scan faults and no callback was issued |
| Findings.EnhanceCorrected | progressive.js:80-86 | corrected `enhance`: every rule starts with an empty handled list whatever the capability; CSS and listening are as before; the invariant holds |
| Findings.CorrectedFallbackCallsEveryMatch | progressive.js:54-67 | with the correction, the fallback succeeds with or without support and calls every rule back exactly once on every element it matches, provided no lookup throws |
| Findings.AbsentIdCallsBackWithNull | progressive.js:24-25 | a supported rule on an id selector whose element is absent gets its callback called with `null` as its context |
| Findings.GetElementsCorrected | progressive.js:24-25 | corrected lookup: an id lookup yields the empty list when the id is absent and exactly the as-written `[byId(id)]` when it is present; other lookups are unchanged; it adds no `null` |
| Findings.CorrectedLookupIsNullFree | progressive.js:20-28 | on a document whose tag, class and query lookups never return `null`, the corrected lookup never yields `Null` |
| Findings.CorrectedLookupNeverCallsBackWithNull | progressive.js:61-64 | with the corrected lookup, a fallback adds no call whose context is `Null` |

## Left out

- DOM lookups (`getElementsByTagName`, `getElementsByClassName`, `getElementById`, `querySelectorAll`) are abstract functions of a document snapshot. The model decides only which lookup is used and with what argument. Live collections that change during the scan are not modelled.
- Style-sheet insertion (`insertRule`, appending the style element under the first script's parent) is not modelled. The model produces only the CSS text, in insertion order. A rule name or selector that the CSS parser rejects would make `insertRule` throw, and that is not modelled either.
- Registering and removing event listeners is reduced to the `listening` flag. This covers both the `animationstart` and the `webkitAnimationStart` listeners, and `DOMContentLoaded` versus `attachEvent("onload")`. Browser event timing is reduced to an explicit sequence of `Properties.Event`s.
- Which animation-start firings happen is an input of the model (the `Properties.Event` sequence), not derived from the CSS. `animation` is a single property, so an element matched by two rules' selectors keeps only the winning declaration (on equal specificity, the later-inserted rule) and fires only that rule's animation. The other rule reaches the element only through the fallback, and not at all once the fallback has detached the handlers.
- Aliased rule descriptors are not modelled. `elems` lives on the descriptor object (progressive.js:44, 86), so `enhance({x: r, y: r})` shares one handled list between `x` and `y` and calls back once per element; the model keeps a separate record per name and would log both `Call("x", e)` and `Call("y", e)`.
- A rule named `hasOwnProperty` is not modelled. It hides the method, so `enhancements.hasOwnProperty(enhancement)` throws a TypeError at progressive.js:85 (supported) or progressive.js:60 (fallback); the model enhances and scans such a rule like any other.
- User callbacks are recorded in the log and never run. Reentrant DOM changes made by a callback are not modelled.
- The module wrapper and the `window`/`document` globals are host plumbing. Capability detection takes the two property probes as booleans.
- `Stylesheet.AnimationRule`: the model does not promise that a style engine reads the rule's name as the animation name. In the `animation` shorthand, a name such as `linear`, `ease`, `infinite`, `alternate` or `none` is taken as another longhand, and a name with a space is split; such a rule starts no animation, so the passive path never fires for it.
- `Registry.OnNodeInserted`: an animation name that is a property inherited from `Object.prototype` (for example `toString`) is not modelled. In the source it would reach `issueCallback` with a non-rule object.
- `Registry.Fallback`: a lookup that throws is not modelled; every lookup of `Dom.Document` returns a list. `querySelectorAll` throws a SyntaxError on a selector it cannot parse (progressive.js:27), for example `a[`, which classifies as a full query. Without animation support no `insertRule` rejects such a selector first, so in the source the fallback aborts at that rule, skips every later rule and never reaches the listener removal (progressive.js:68-71), while the model's scan succeeds. The success condition of `Registry.Fallback` therefore holds only for selectors the lookups accept.
- `Findings.CorrectedFallbackCallsEveryMatch`: "succeeds with or without support" rests on the same assumption; an unparsable selector would still abort the corrected fallback at progressive.js:27.
- `Registry.Fallback`: when the scan faults, the partial state up to the fault is not returned. From `enhance` the rules are either all initialised or none are, so no callback can precede the fault.

## Findings

| source | as written | input that shows it | evidently intended | confidence | as-written member | corrected member |
|---|---|---|---|---|---|---|
| progressive.js:80-86 | `elems` is only initialised when animations are supported, but the fallback runs in every case and `issueCallback` reads `elems.length` | no animation support, rule `highlight` on `.note`, three `.note` elements: the fallback throws a TypeError and no callback runs | the fallback calls back on every matching element when animations are unsupported, as its comment and its unconditional registration say | high; not executed | Findings.UnsupportedFallbackFaults | Findings.CorrectedFallbackCallsEveryMatch |
| progressive.js:24-25 | the id lookup is wrapped as `[getElementById(id)]`, so an absent id yields `[null]` | rule on `#widget` with no such element: the fallback calls the callback with `null` as the `this` argument of `call` | an absent id yields no element and the callback is not called | medium; not executed | Findings.AbsentIdCallsBackWithNull | Findings.CorrectedLookupNeverCallsBackWithNull |
