# rehype-decorate, modelled in Dafny

rehype-decorate is a transformer for HAST, the HTML syntax tree. It reads
directive comments such as `<!-- {.a #b k="v"} -->` and merges the
properties they encode onto the entry just before them. The comment itself
is then dropped. This project models three parts of it as pure Dafny
functions, and proves lemmas about them:

- **The directive body parser.** This is `getProps`, together with `match`,
  `reduce` and `addClassName`, in src/get_props.js.
  - It is a small lexer. Seven regular-expression rules are tried in a fixed
    priority order, and each step strips the first token that matches from
    the front of the input.
  - When no rule matches, the parse stops and the accumulated state is
    returned.
  - Module `Patterns` writes each regular expression out as an anchored
    prefix matcher.
  - Module `GetProps` models the rule cascade (`Rule`, `Cascade`, `Lex`),
    the branch bodies (`Apply`, `AddClassName`) and the `reduce` driver
    (`Reduce`, `GetProps`).
  - Module `RoundTrip` proves that the lexer and a spelling function are
    inverse to each other.
- **The tree decorator** in src/index.js.
  - Module `CommentPattern` models the `COMMENT` envelope
    `^\s*{\s*(.*?)\s*}\s*$`.
  - Module `Decorator` models `decorate`, `decorateFragment`, `reduceNodes`,
    `parseComment` and `applyProps`.
  - Children are decorated depth-first, and each child list is then folded
    left to right.
  - A directive merges its properties onto the last entry of the output so
    far. That entry is whatever comes last, even a text node.
- **The last-element splitter** `getLastElement` in src/get_last_element.js
  (module `LastElement`).
  - It splits a list around its last element-typed entry into
    `[lefts, item, rights]`.
  - src/index.js does not use it, so it is modelled on its own.

`last` and `trimEnd` are defined identically in src/index.js and
src/get_last_element.js, so module `Lists` models them once. It also models
the JavaScript array operations they rest on: `slice`, `reverse` and
`findIndex`.

Module `Hast` holds the data model, following src/types.d.ts:

- **Nodes**: a text, an element with optional `properties` and optional
  `children`, or a comment.
- **`PropertyMap`**: an optional `className` list plus a map from every
  other key to a string or a flag. `tagName` stands for an element's
  remaining fields, which object spreads copy along.

Modules `PropsExamples` and `DecorateExamples` prove the documented
examples on concrete inputs.

## Model

| member | source | states |
|---|---|---|
| Lists.Last | src/index.js:138-141 | `last` gives nothing exactly for the empty list, and the final item otherwise |
| Lists.TrimEnd | src/index.js:155-158 | `trimEnd(list, n)` is a prefix of the list. For `0 <= n <= |list|` it holds the first `|list| - n` items, and `n` defaults to 1. `n <= 0` keeps the whole list. A larger `n` gives the length that `slice`'s negative end index yields |
| Lists.TrimEndLast | src/index.js:58-59 | on a non-empty list, `trimEnd(list)` followed by `last(list)` is the list again |
| Lists.LastTrimEndExamples | src/index.js:130-152 | the documented examples of `last` and `trimEnd` |
| Lists.Slice | src/get_last_element.js:4-5 | `slice(start, end)` is the run between the indices when they are in range, and empty when they are reversed |
| Lists.Reverse | src/get_last_element.js:2 | the reversed copy has the same length, and item `i` is item `|s|-1-i` of the input |
| Lists.FindIndex | src/get_last_element.js:2 | `findIndex` gives the first index whose item satisfies the predicate, or -1 exactly when no item does |
| Patterns.SigiledMeaning | src/get_props.js:29-32 | `^\s*\.(name)` and `^\s*#(name)` match exactly when a name character follows the sigil after the blanks. The match is blanks, sigil and the whole maximal name run |
| Patterns.QuotedMatches | src/get_props.js:33-36 | a quoted rule matches exactly when `name=` and the opening quote follow the blanks, and a closing quote follows them somewhere |
| Patterns.QuotedCaptures | src/get_props.js:33-36 | a quoted match is blanks, `name="value"`, with a non-empty name. The value keeps its spaces, stops at the first matching quote, and has no escapes |
| Patterns.UnquotedMeaning | src/get_props.js:37-38 | `name=value` matches exactly when `=` follows the name. The value is the maximal, possibly empty, run of non-space characters |
| Patterns.BareMeaning | src/get_props.js:39-40 | a bare name matches exactly when a name character follows the blanks, and takes the whole name run |
| Patterns.SpacesMeaning | src/get_props.js:41-42 | the whitespace rule matches exactly when the input starts with a blank, and takes the whole blank run |
| Patterns.Sigiled | src/get_props.js:29-32 | `^\s*\.([a-zA-Z0-9\-_]+)` and `^\s*#([a-zA-Z0-9\-_]+)` as anchored matchers: a hit is a non-empty prefix of the input. What the hit holds is stated by `Patterns.SigiledMeaning` |
| Patterns.Quoted | src/get_props.js:33-36 | the two quoted-attribute patterns as anchored matchers: a hit is a non-empty prefix of the input. What the hit holds is stated by `Patterns.QuotedMatches` and `Patterns.QuotedCaptures` |
| Patterns.Unquoted | src/get_props.js:37-38 | `^\s*([a-zA-Z0-9\-_]+)=([^ ]*)` as an anchored matcher: a hit is a non-empty prefix of the input. What the hit holds is stated by `Patterns.UnquotedMeaning` |
| Patterns.Bare | src/get_props.js:39-40 | `^\s*([a-zA-Z0-9\-_]+)` as an anchored matcher: a hit is a non-empty prefix of the input. What the hit holds is stated by `Patterns.BareMeaning` |
| Patterns.Spaces | src/get_props.js:41-42 | `^\s+` as an anchored matcher: a hit is a non-empty prefix of the input. What the hit holds is stated by `Patterns.SpacesMeaning` |
| GetProps.Match | src/get_props.js:65-73 | on a hit, the matched text followed by the rest is the input. On a miss there is no hit, and the rest is the input |
| GetProps.Rule | src/get_props.js:29-41 | each of the seven rules, in priority order, matches only a non-empty prefix of its input |
| GetProps.Handle | src/get_props.js:30-42 | the branch for rule `k` produces a token of rank `k`, never the stop token |
| GetProps.Cascade | src/get_props.js:28-45 | from rule `k` on, when no rule matches the rest is `''`, and a non-empty input always shrinks |
| GetProps.Lex | src/get_props.js:28-45 | each step of the callback shortens a non-empty input strictly or sets it to `''`, so `reduce` terminates |
| GetProps.CascadePriority | src/get_props.js:29-42 | from rule `k` on, the token's own rule matched and every rule before it failed |
| GetProps.LexPriority | src/get_props.js:29-42 | first match wins: the chosen rule matched and every earlier rule failed |
| GetProps.LexFirstMatch | src/get_props.js:29-42 | if rule `k` matches and every earlier rule fails, the step gives rule `k`'s token and drops its match |
| GetProps.QuotedRule | src/get_props.js:33-36 | a quoted match reads back as a well-formed attribute token whose spelling it is |
| GetProps.RuleMeaning | src/get_props.js:29-42 | whatever rule `k` matches is the blanks followed by the spelling of a well-formed token |
| GetProps.LexConsumes | src/get_props.js:29-45 | a step consumes blanks and the token's spelling. A failed step drops everything, and its input did not start with a blank |
| GetProps.AddClassName | src/get_props.js:99-103 | the class list grows by the name at its end, and no other key changes |
| GetProps.Apply | src/get_props.js:30-42 | a class token appends its name. `#name` sets `id`, an attribute sets its string and a bare name sets `true`, each overriding the old value. Whitespace and the stop token change nothing |
| GetProps.Step | src/get_props.js:24-46 | the callback shortens every non-empty input |
| GetProps.Reduce | src/get_props.js:84-88 | `reduce` returns the state unchanged on an exhausted input. Otherwise the state only grows: no class is lost and no key is removed. The exact result is stated by `GetProps.ReduceClasses` and `GetProps.ReduceAttrs` |
| GetProps.ReduceUnfold | src/get_props.js:84-88 | one step of `reduce`, with the token it reads |
| GetProps.ReduceClasses | src/get_props.js:84-88 | the result's classes are the start state's followed by every class token read, in order and with duplicates. The key stays as it was when no class was read |
| GetProps.ReduceAttrs | src/get_props.js:84-88 | the result's other keys are the start state's, overridden by the keys the tokens set, later tokens winning |
| GetProps.GetProps | src/get_props.js:23-47 | `className` is absent exactly when no class token was read, and otherwise lists them all in order. Every other key holds what the tokens assigned |
| GetProps.AssignedSomewhere | src/get_props.js:32-40 | a key is in the result exactly when some token sets it |
| GetProps.LastAssignmentWins | src/get_props.js:32-40 | a key holds the value of its last assignment |
| RoundTrip.LexRead | src/get_props.js:29-42 | blanks, a well-formed token's spelling and a rest that fits the token lex back to that token and that rest |
| RoundTrip.LexSpelled | src/get_props.js:29-42 | `Lex(ws + Spelling(t) + rest) == (t, rest)` for blanks `ws`, well-formed `t` and a rest that fits |
| RoundTrip.LexSpells | src/get_props.js:29-42 | the converse: every token short of the stop token is the skipped blanks, a well-formed token's spelling and a rest that fits it |
| RoundTrip.StopOn | src/get_props.js:44-45 | on text no rule can start on, the step stops and drops the input |
| RoundTrip.LexStop | src/get_props.js:44-45 | the step stops exactly when no token can start on the input |
| PropsExamples.ClassesAndId | src/get_props.js:16-17 | `'.hello .hi #world'` gives `{ className: ['hello', 'hi'], id: 'world' }` |
| PropsExamples.HelloOnly | src/get_props.js:19-20 | `'.hello'` gives `{ className: ['hello'] }` |
| PropsExamples.EmptyInput | src/get_props.js:85 | the empty input gives `{}` |
| PropsExamples.LeadingClass | src/get_props.js:29-30 | a class token at the very front of the input is read whole, with the rest left over, when no name character follows it |
| PropsExamples.AdjacentAndSpacedClasses | src/get_props.js:29-30 | `.a.b` and `.a .b` both give the class list `['a', 'b']` |
| PropsExamples.ValuesAndStop | src/get_props.js:33-45 | a double-quoted value keeps its space, and an unquoted value ends at a blank. The first text no rule takes ends the parse, and what follows it is never read |
| PropsExamples.HelloWorld | src/index.js:73-76 | the directive body `.hello.world` gives `{ className: ['hello', 'world'] }` |
| CommentPattern.Envelope | src/index.js:11 | a capture is a trimmed single line |
| CommentPattern.EnvelopeOf | src/index.js:11 | braces around a trimmed body, blanks aside, capture that body when it is a single line, and fail to match otherwise |
| CommentPattern.EnvelopeSplits | src/index.js:11 | a matching text is blanks, `{`, blanks, the capture, blanks, `}`, blanks |
| CommentPattern.EnvelopeIff | src/index.js:11 | a text captures `body` exactly when it is the envelope around `body` |
| CommentPattern.EnvelopeRejectsBreak | src/index.js:11 | a line break inside the trimmed body prevents a match. Line breaks in the blanks around the body do not, since `\s` matches them |
| CommentPattern.BreakInBody | src/index.js:11 | `{.a\n.b}` does not match |
| CommentPattern.BreakBeforeBody | src/index.js:11 | a line break between `{` and a trimmed single-line body is a blank, so `{\n.a}` captures `.a` |
| CommentPattern.BreakAfterBody | src/index.js:11 | a line break between a trimmed single-line body and `}` is a blank, so `{.a\n}` captures `.a` |
| CommentPattern.EnvelopeNeedsOpen | src/index.js:11 | a text that starts with neither a blank nor `{` does not match |
| CommentPattern.EnvelopeNeedsClose | src/index.js:11 | a text that ends with neither a blank nor `}` does not match |
| CommentPattern.EnvelopeRejectsUnbraced | src/index.js:11 | `.a` and `{.a` do not match |
| Decorator.ParseComment | src/index.js:79-86 | a node encodes properties exactly when it is a comment matching the envelope. They are the classes and keys of the captured body, and `className` is absent exactly when the body has no class token |
| Decorator.ApplyProps | src/index.js:105-124 | a non-element comes back as it is. An element keeps its children and `tagName`, which stands for all of its other fields, and its classes are the old ones followed by the directive's, absent when both are empty. Its keys are those of either side: the directive's value wins, and old-only keys survive. Missing `properties` read as `{}` |
| Decorator.ReplaceLast | src/index.js:58-64 | same length; every entry but the last is untouched; the last has the properties applied; an empty list stays empty; a final non-element leaves the list unchanged |
| Decorator.ReduceNodes | src/index.js:50-65 | a non-directive is appended after the untouched list, and a directive replaces only the last entry |
| Decorator.Fold | src/index.js:38 | the output is as long as the accumulator plus the number of non-directives; a directive may rewrite the accumulator's last entry. Without directives the output is the accumulator followed by the nodes. A directive-free accumulator and directive-free non-directives give an output with no directive at any depth |
| Decorator.StepKeepsClean | src/index.js:50-65 | one reducer step keeps a list that has no directive at any depth free of them |
| Decorator.FoldDecoratedLength | src/index.js:36-38 | folding the decorated children keeps one entry per non-directive child |
| Decorator.FoldDecoratedClean | src/index.js:36-38 | folding the decorated children leaves no directive at any depth |
| Decorator.FoldDecoratedSame | src/index.js:36-38 | a directive-free child list decorated into itself folds back into itself |
| Decorator.Decorate | src/index.js:17-24 | a node without children comes back as it is, and any other differs only in its children. A tree without directives comes back equal, and a root that is not a directive keeps none at any depth |
| Decorator.DecorateFragment | src/index.js:34-39 | one output node per non-directive child, none holding a directive at any depth. A directive-free list comes back unchanged |
| Decorator.DirectiveAfterElement | src/index.js:34-64 | a directive-free node followed by a directive decorates into that node with the directive's properties applied |
| DecorateExamples.ParseCommentExample | src/index.js:73-76 | the comment `{.hello.world}` gives `{ className: ['hello', 'world'] }` |
| DecorateExamples.ParseCommentNothing | src/index.js:79-83 | a text node, an element and an unbraced comment encode nothing |
| DecorateExamples.UnbracedComment | src/index.js:82-83 | a comment starting with neither a blank nor `{` encodes nothing |
| DecorateExamples.ApplyPropsExample | src/index.js:94-103 | `applyProps({ type: 'element' }, { className: ['hello'] })` gives an element whose properties are `{ className: ['hello'] }` |
| DecorateExamples.FragmentExample | src/index.js:34-38 | a paragraph followed by `{.hello.world}` decorates into the paragraph with those classes |
| DecorateExamples.AfterText | src/index.js:58-64 | after a text node, a directive has no effect, because `applyProps` returns a text node unchanged |
| LastElement.GetLastElement | src/get_last_element.js:1-8 | with an element present: `lefts ++ [item] ++ rights == list`, the item is an element, and `rights` holds none. Without one: `lefts == list`, no item, and empty `rights` |
| LastElement.ReversedIndex | src/get_last_element.js:2-3 | the index found on the reversed copy, read in the original order, is the last element's. It is -1 exactly when there is no element, which puts `idx` one past the end |
| LastElement.LastElementIsLast | src/get_last_element.js:1-8 | the split is determined by the list: it is cut around its last element |

## Left out

- Decorator.ParseComment, GetProps.GetProps: attribute and bare tokens named
  literally `className` are excluded by the preconditions `GetProps.ClassNameFree`
  and `Decorator.Safe`. An attribute token stores a string under `className`,
  which a later class token (`addClassName`, src/get_props.js:102) or
  `applyProps` (src/index.js:112) would spread character by character. A bare
  token stores `true`, and spreading `true` throws a `TypeError` there.
- Decorator.ApplyProps: a `className` of `undefined` is modelled as an absent
  key. JavaScript keeps the key with the value `undefined`.
- Key order of property objects is not modelled, because maps are unordered.
- The `options` argument of `decorate` and `decorateFragment` is left out. It
  is passed along and never read.
- Strings are sequences of code points. The model does not capture UTF-16
  surrogate pairs in JavaScript strings, and it takes `\s` to be its BMP
  whitespace and line-terminator characters.
- Decorator.ApplyProps: the `if (!node) return` guard is not modelled. The
  only caller passes a present node.
- Plugin wiring and the HTML parser and serialiser are not part of this
  model. They are I/O outside the core.
- The source's `[m, input] = match(...)` chain is modelled as an indexed
  cascade of seven rules, `GetProps.Rule` and `GetProps.Cascade`. The rules,
  their order and their branch bodies are unchanged.
- `reduceNodes` is modelled as written: a directive applies to `last(list)`,
  whatever entry that is, and not to the last element found by skipping
  trailing non-elements. So a directive after a text node is lost
  (`DecorateExamples.AfterText`). `getLastElement` is modelled on its own,
  because nothing in the decorator calls it.
- An element's fields other than `properties` and `children` are folded into
  `tagName`, which the spreads copy unchanged.
- The inputs are never modified, including the reversal in `getLastElement`,
  which works on a copy. This holds by construction, because the model works
  on immutable values.
- Decorator.Decorate: a root that is itself a directive comment has no
  children, so it comes back as it is. Only a root that is not a directive is
  promised to be directive-free.
- src/types.d.ts declares `properties` as always present. The model allows it
  to be missing, as `applyProps` does with `node.properties || {}`.
- src/types.js is a type declaration file only and is not part of this model.
