# propsToString, modelled in Dafny

This project models `propsToString`, the attribute serialiser of the
server-side renderer (`packages/ssr/src/util/propsToString.ts`). The function
takes the entries of an attribute object and builds the fragment that follows
the tag name in an HTML start tag:

- entries whose value is `false`, `null` or `undefined` are dropped;
- `true` on a key that does not start with `data-` renders as the bare key;
- the empty string renders as the bare key, whatever the key;
- every other value renders as `key="text"`, where `text` is `String(value)`
  with each `"` replaced by `&quot;`;
- the tokens are joined with single spaces, and a non-empty result gets one
  leading space.

`props_to_string.dfy` holds one module, `PropsToString`:

- `Value` tells apart the kinds of JavaScript value the function looks at:
  `Bool`, `Null`, `Undefined`, `Str` and `Coerced`. `Null` and `Undefined` are
  both dropped (`value == null`), but `String(value)` gives them different
  texts, so they stay two constructors. `Coerced` stands for any
  other value, such as a number or an object, and carries the text that
  `String(value)` gives it. The input is a `seq<Entry>` of `(key, value)`
  pairs in the order `Object.entries` visits them.
- `Token`, `Tokens`, `Join` and `Render` are the specification.
  `Render(props)` is the string the function returns.
- The method `PropsToString` follows the source loop. It skips absent
  entries, builds each `attribute` from its key and an optional value clause,
  and appends it to `handledAttributes`. It then frames the joined tokens. It
  is proved to return `Render(props)`.
- The lemmas describe `Render`. They cover which entries give a token, the
  order of the tokens and their number, the four corners of the value-clause
  rule, the escape and its inverse, and the framing with spaces.
- `ParseAttributes` splits a fragment back into tokens. It splits at spaces
  that lie outside quoted values. It is the inverse of the join when the keys
  of the present entries are attribute names, meaning they hold no space and
  no `"`.

Non-string values cannot simply be folded into text values. The code
compares the value itself with `''` (line 10), so only a real empty string
renders bare. A non-string value whose text is empty, such as an empty array,
still gets `key=""`. That is why `Coerced` is kept apart from `Str`.

## Model

| member | source | states |
|---|---|---|
| `PropsToString.Omitted` | packages/ssr/src/util/propsToString.ts:5-6 | only `false`, `null` and `undefined` are dropped: a boolean is dropped exactly when it is `false`, and no string or other value is ever dropped |
| `PropsToString.IsDataAttribute` | packages/ssr/src/util/propsToString.ts:10 | the character-by-character test is exactly "the key starts with `data-`" |
| `PropsToString.HasValueClause` | packages/ssr/src/util/propsToString.ts:10 | a string gets a value clause exactly when it is non-empty, every other non-boolean value always gets one, and `true` gets one exactly on a `data-` key |
| `PropsToString.Text` | packages/ssr/src/util/propsToString.ts:11 | `String(value)` of `true`, `false`, `null` and `undefined` is non-empty and holds no `"` and no space |
| `PropsToString.ValueClause` | packages/ssr/src/util/propsToString.ts:11 | the clause starts with `="`, ends with `"`, and holds no raw `"` between the two |
| `PropsToString.Token` | packages/ssr/src/util/propsToString.ts:8-11 | the token starts with its key |
| `PropsToString.Join` | packages/ssr/src/util/propsToString.ts:16 | the joined text starts with the first token and has room for the separators between the tokens |
| `PropsToString.Render` | packages/ssr/src/util/propsToString.ts:16 | the result is empty or starts with a space |
| `PropsToString.PropsToString` | packages/ssr/src/util/propsToString.ts:1-17 | the loop over the entries returns exactly `Render(props)`, the fragment the lemmas below describe |
| `PropsToString.Tokens` | packages/ssr/src/util/propsToString.ts:4-13 | each entry contributes at most one token |
| `PropsToString.TokenCount` | packages/ssr/src/util/propsToString.ts:4-13 | the number of tokens equals the number of entries whose value is not `false`, `null` or `undefined` |
| `PropsToString.TokensEmpty` | packages/ssr/src/util/propsToString.ts:5-6 | there is no token at all exactly when every entry is `false`, `null` or `undefined` |
| `PropsToString.TokenAt` | packages/ssr/src/util/propsToString.ts:4-13 | the token of a present entry is at position `Rank(props, i)`, the number of tokens of the entries before it |
| `PropsToString.RankIncreases` | packages/ssr/src/util/propsToString.ts:4-13 | a present entry earlier in the input has its token strictly earlier in the output |
| `PropsToString.RankOnto` | packages/ssr/src/util/propsToString.ts:4-13 | every token position holds the token of some present entry, so tokens and present entries correspond one to one, in order |
| `PropsToString.TokensAppend` | packages/ssr/src/util/propsToString.ts:4-13 | the tokens of a concatenation are the tokens of its parts, one after the other |
| `PropsToString.TokenAfterKey` | packages/ssr/src/util/propsToString.ts:8-11 | anything after the key in a token is a value clause starting with `=`, and it is there only when line 10's condition holds |
| `PropsToString.TrueCorners` | packages/ssr/src/util/propsToString.ts:10-11 | `true` gives the bare key, except on a `data-` key, which gives `key="true"` |
| `PropsToString.ValueCorners` | packages/ssr/src/util/propsToString.ts:10-11 | the empty string gives the bare key on any key; a non-empty string and any non-string value give the key followed by its value clause, and a non-string value with empty text gives `key=""` |
| `PropsToString.TrueClause` | packages/ssr/src/util/propsToString.ts:11 | the value clause of `true` is `="true"`: the text `true`, unescaped |
| `PropsToString.EscapeQuotes` | packages/ssr/src/util/propsToString.ts:11 | the escaped text is never shorter than the original |
| `PropsToString.EscapeQuotesNoQuote` | packages/ssr/src/util/propsToString.ts:11 | the escaped text contains no raw `"` |
| `PropsToString.EscapeQuotesChar` | packages/ssr/src/util/propsToString.ts:11 | one `"` becomes `&quot;`; any other character is kept as it is |
| `PropsToString.EscapeQuotesAppend` | packages/ssr/src/util/propsToString.ts:11 | escaping works character by character: it distributes over concatenation |
| `PropsToString.EscapeQuotesIdentity` | packages/ssr/src/util/propsToString.ts:11 | a text without `"` is left unchanged |
| `PropsToString.UnescapeEscape` | packages/ssr/src/util/propsToString.ts:11 | replacing `&quot;` by `"` restores the original text when that text held no literal `&quot;` |
| `PropsToString.EscapeQuotesCollision` | packages/ssr/src/util/propsToString.ts:11 | a literal `&quot;` and a lone `"` escape to the same text, so the condition of `UnescapeEscape` is needed |
| `PropsToString.RenderFraming` | packages/ssr/src/util/propsToString.ts:16 | the result is `""` exactly when no entry is present; otherwise it is one space followed by the tokens joined with single spaces |
| `PropsToString.RenderEdges` | packages/ssr/src/util/propsToString.ts:16 | when the key of every present entry is non-empty and neither starts nor ends with a space, whatever else it holds (keys of dropped entries are unconstrained), a non-empty result has exactly one leading space and does not end with a space |
| `PropsToString.ValueClauseEnd` | packages/ssr/src/util/propsToString.ts:11 | a value clause is read as one piece up to its closing quote, whatever spaces its text holds |
| `PropsToString.TokensWellFormed` | packages/ssr/src/util/propsToString.ts:8-13 | when the keys of present entries are attribute names, each token ends at its own end when a space follows it, even if its value holds spaces |
| `PropsToString.TokenTrimmed` | packages/ssr/src/util/propsToString.ts:8-11 | a key that is non-empty and neither starts nor ends with a space gives a token with the same three properties |
| `PropsToString.TokensTrimmed` | packages/ssr/src/util/propsToString.ts:4-13 | when the keys of present entries are such keys, every token is non-empty and neither starts nor ends with a space |
| `PropsToString.SplitJoin` | packages/ssr/src/util/propsToString.ts:16 | splitting at spaces outside quotes undoes the join of such tokens |
| `PropsToString.RenderParses` | packages/ssr/src/util/propsToString.ts:13-16 | when the keys of present entries are attribute names, reading the result back gives exactly the tokens, one per present entry |
| `PropsToString.RenderSingle` | packages/ssr/src/util/propsToString.ts:4-16 | a one-entry input renders as nothing when its value is absent, otherwise as one space and its token |
| `PropsToString.BooleanTokenExamples` | packages/ssr/src/util/propsToString.ts:10-11 | `disabled: true` gives `disabled`; `data-test: true` gives `data-test="true"` |
| `PropsToString.StringTokenExamples` | packages/ssr/src/util/propsToString.ts:10-11 | `class: "foo"` gives `class="foo"`; `title: ""` gives `title` |
| `PropsToString.QuotedTokenExample` | packages/ssr/src/util/propsToString.ts:11 | `title: 'a"b'` gives `title="a&quot;b"` |

## Left out

- packages/vue/src/composables/useScript.ts is not part of this model. It is
  reactive glue around an external script loader.
- packages/vue/src/index.ts is not part of this model. It only re-exports.
- test/vue/dom/events.test.ts is not part of this model. It exercises a DOM
  renderer that is not shown, not this serialiser.
- `String(value)` for numbers, objects and functions is not modelled. Number
  formatting and object conversion belong to the JavaScript host. A `Coerced`
  value carries the resulting text as given. A conversion that throws, such
  as one for an object without a prototype, is not modelled.
- The key order of `Object.entries` is not modelled. Integer-like keys come
  first there. The input is taken as an already ordered sequence of entries.
- The regular expression in `.replace(/"/g, '&quot;')` is modelled as a plain
  character-by-character substitution, `EscapeQuotes`.
- RenderParses: is proved for inputs whose present keys hold no space and no
  `"`. The source writes keys unescaped, so the read-back can fail outside
  that: a present key `a b` is split in two, and an unmatched `"` in a present
  key followed by another token swallows the separating space. Other keys
  with a `"`, such as a lone `a"` with `true`, still read back; the lemma does
  not cover them.
- RenderEdges: is proved for inputs whose present keys are non-empty and
  neither start nor end with a space. The framing really fails only at the
  ends: when the first token is empty or starts with a space (an empty bare
  key, or a first present key starting with a space), or when the last token
  is empty or ends with a space (a last token rendered bare whose key is empty
  or ends with a space). A key ending in a space followed by a value clause,
  such as `a ` with `"v"`, still frames correctly; the lemma does not cover it.
- Strings are Dafny strings, sequences of Unicode scalar values. A JavaScript
  string is a sequence of UTF-16 code units and may hold a lone surrogate; a
  key or value holding one has no counterpart in the model. The rules of the
  serialiser are otherwise unaffected, because `"`, the space and `data-` are
  all ASCII.
- UnescapeEscape: is proved for texts with no literal `&quot;`, and fails for
  the others. The escape leaves `&` alone, so such a text cannot be told apart
  from a `"` after escaping, as `EscapeQuotesCollision` shows.
