# html-tagged-template, modelled in Dafny

`html` (index.js) is a generator function used as a JavaScript tagged
template: `html\`<p>${x}</p>\`` calls it with the template's static fragments
`strings` and the dynamic `values`. For every value, in order, it yields the
fragment before it, then the value's text: a symbol yields its `description`,
and any other value yields `String(value)`. After the loop it yields the last
fragment, `strings[strings.length - 1]`.

`html` does no HTML escaping, no safe-marking, no flattening of arrays,
iterators or nested templates, and does not await promise values: a string
value is yielded exactly as given, and an array or a promise is converted by
`String()` like any object.

Files:

- `js_values.dfy` (module `JsValues`): host values as a closed datatype
  `Value`, JavaScript's `String()` for them (`StringOf`, with exact decimal
  text for safe integers), and `Resolve`, the chunk yielded for one value.
- `interleaving.dfy` (module `Interleaving`): the reference reading of the
  output, `Interleave(fragments, values)`, and its inverses `Evens`/`Odds`.
- `template.dfy` (module `Template`): the generator as the sequence of
  everything it yields (`Html`), the loop itself (`Generate`), and lemmas on
  positions, the well-formed case and the mismatched-length cases.

A yielded item is a `Chunk`: `Text(s)` or `Missing` (JavaScript `undefined`).
`undefined` is yielded in two places: by a symbol created without a
description, and by a read of `strings` outside the array. index.js never
checks `strings.length == values.length + 1`, and an out-of-range array read
in JavaScript gives `undefined` rather than failing, so `Html` is total over
all lengths. The shape every tagged template has, one more fragment than
values, is the predicate `WellFormed`, assumed by the lemmas about that case.

## Model

| member | source | states |
|---|---|---|
| JsValues.Resolve | index.js:8-16 | a value yields `undefined` exactly when it is a symbol without a description; a described symbol yields its description; every other value yields `String(value)`, so a string value is yielded verbatim |
| JsValues.SymbolYieldsDescription | index.js:9-11 | a symbol yields its description, which is never the `Symbol(...)` text that `String()` would give it |
| JsValues.NumberYieldsDecimal | index.js:14-15 | a safe integer yields exactly the `String(n)` text (minus sign only for negatives, no leading zero), which parses back to the same number |
| JsValues.StringOf | index.js:14-15 | `String(value)`: a string is returned unchanged; `null`, `undefined`, `true` and `false` give their fixed names; a safe integer gives its decimal text; a symbol gives `Symbol(...)` text; any other value gives the text the host produced |
| JsValues.IntToDecimal | index.js:14-15 | `String(n)` for a safe integer: a minus sign exactly for negative numbers, then decimal digits with no leading zero (only `0` itself starts with `0`) |
| Template.Fragment | index.js:6-19 | the reads `strings[i]` and `strings[strings.length - 1]`: `undefined` exactly when the index is outside the array, the fragment itself otherwise |
| Template.Emitted | index.js:5-17 | after `k` loop iterations exactly `2k` chunks were yielded, one fragment and one value chunk per iteration |
| Template.EmittedAt | index.js:5-17 | after `k` iterations, each even position `j` holds fragment `j/2` and each odd position holds the chunk of value `j/2` |
| Template.ChunksAt | index.js:8-16 | the chunk recorded for value `i` is exactly the one the `switch` yields for `values[i]` |
| Template.Html | index.js:4-20 | the output has length `2n + 1` for `n` values; its first `2n` positions alternate fragment and value chunk in source order; the last position is `strings[strings.length - 1]` |
| Template.Generate | index.js:4-20 | the `for` loop with its `switch (typeof value)`, followed by the final yield, produces exactly `Html(strings, values)` |
| Template.FragmentAt | index.js:5-6 | fragment `i` is yielded at position `2i`, for every `i` below the number of values |
| Template.ValueAt | index.js:8-16 | the chunk of value `i` is yielded at position `2i + 1`, so values keep their order |
| Template.NoValues | index.js:5-19 | with no values the only chunk is the last fragment; for a one-fragment template it is that fragment |
| Template.WellFormedFragments | index.js:5-19 | in a well-formed template every fragment, the last included, is yielded unchanged at position `2i` |
| Template.HtmlIsInterleaving | index.js:4-20 | in a well-formed template the output equals the independent interleaving of the fragments with the values' chunks |
| Template.SplitRecoversParts | index.js:4-20 | splitting the output of a well-formed template into even and odd positions gives back the fragments and the values' chunks |
| Template.WellFormedMissing | index.js:8-16 | in a well-formed template a position holds `undefined` if and only if it is a value position whose value is a symbol without a description |
| Template.OnlyReadFragments | index.js:5-19 | the output depends only on fragments `0 .. n-1` (for `n` values) and the last fragment: two fragment arrays agreeing there give the same output |
| Template.ExtraFragmentsDropped | index.js:5-19 | with more than `n + 1` fragments for `n` values, the fragments from index `n` up to, but not including, the last are silently dropped |
| Template.MissingFragment | index.js:6-19 | some fragment position yields `undefined` if and only if there are fewer fragments than values or no fragments at all |
| Template.StringNotEscaped | index.js:14-15 | `<p>${"<b>hi</b>"}</p>` yields `<p>`, `<b>hi</b>`, `</p>`: markup in a string value is not escaped |
| Template.ScalarForms | index.js:14-15 | `null`, `undefined`, `true`, `false` and `0` yield `null`, `undefined`, `true`, `false` and `0` between the fragments |

## Left out

- `render` (index.js:22-34): it wraps the iterator in a pull-driven `ReadableStream` and UTF-8 encodes it with `TextEncoderStream`; this is platform stream I/O.
- test.mjs: it runs a linter and checks that `html` is a function; this is tooling, not behaviour.
- Laziness and single-pass consumption of the generator: the model is the finite sequence of everything it yields, in order.
- `strings` is read at each resumption of the generator, and its length only at the last one. In a direct call with a mutable array, changes made between `next()` calls (by the consumer or by a value's `toString`) are seen by later reads. Tagged-template `strings` arrays are frozen, so the model takes `strings` as an immutable sequence.
- `String()` of objects, arrays and functions runs user code (`toString`, `Symbol.toPrimitive`); `Other(repr)` carries the text the host produced.
- Bigints and numbers other than safe integers are formatted by the engine itself and are carried as `Other(repr)`.
- Values whose `String()` throws (an object without a callable `toString`/`valueOf`, a boxed symbol, an object whose `toString` throws) are outside `Value`: the generator then ends abruptly with that exception after yielding `strings[i]`, and this abrupt end is not modelled.
- JavaScript strings are UTF-16 code-unit sequences and may hold lone surrogates; Dafny's `string` holds Unicode scalar values, so fragments and values containing lone surrogates cannot be represented.
- JsValues.NumberYieldsDecimal: only integer numbers with magnitude at most 2^53 - 1 are modelled; fractions, `-0`, `NaN`, `Infinity` and exponent forms go through `Other(repr)`.
- A cooked template fragment is `undefined` when the literal holds an invalid escape sequence; fragments are modelled as strings only, and `undefined` arises only from reads outside `strings`.
- HTML escaping, safe-marked values, flattening of arrays, iterators or nested templates, and awaiting promise values: `html` does none of these, so they are not modelled.
