# Design-token pipeline of style-dictionary-demo, in Dafny

This project models the token pipeline of `style-dictionary.actions.js`, the one
script of the style-dictionary demo. The script sits between a JSON parse of a
design-tool export and a style-dictionary build call. It has four parts:

- **the colour encoder** `rgbToHex`. It writes three channels as `#RRGGBB` (`hex.dfy`);
- **the document flattener** `toStyleDictionaryFormat`. It turns one exported
  collection (its name, modes and variables) into an object from token key to
  token record (`flatten.dfy`);
- **the transforms** registered with the library: the two `name-transform`s,
  `px-value-transform`, `rem-value-transform` and `value-transform`, with the
  matchers of `px-value-transform` and `rem-value-transform`; the others have no
  matcher and always apply (`transforms.dfy`);
- **the `custom/css` formatter**. It groups tokens by collection into sections of
  `--name : value;` lines inside `:root { … }` (`cssformat.dfy`).

The other files hold support code. `tokens.dfy` has the records the parts share.
`strings.dfy` has the JavaScript string operations the script uses: String
`includes`, `replace` with a string pattern, `toUpperCase` and `join`. The Array
`includes` of the formatter (line 154) is Dafny's `in` on the collection list,
in `CssFormat.Collections`.
`Strings.IndexOf` models the first-occurrence search that `replace` performs
internally; the script never calls `indexOf` itself.
`results.dfy` has `Option` and `Result`.

lodash `kebabCase` and `camelCase` are passed in as plain `string -> string`
parameters, `kebab` and `camel`, and nothing is assumed about them. Every
property below holds for any casing function.

Three behaviours of the code are easy to misread, and the model keeps each as written:

- A variable with no value for a mode is not skipped. Line 52 reads
  `variable.resolvedValuesByMode[mode].resolvedValue` without a guard, so a
  missing entry throws and the whole flattening fails. `ToStyleDictionaryFormat`
  returns `Failure` exactly when some (mode, variable) pair has no value.
- The name transform removes `mode-1-`, `typography-` and `effects-` wherever
  each first occurs in the name, not only at its start.
- The script only registers the transforms. The build configuration, which is
  not part of this model, chooses which of them run and in what order. So each
  transform is modelled as its own function.

## Model

| member | source | states |
|---|---|---|
| Hex.ToRadix16 | style-dictionary.actions.js:20-22 | `toString(16)` of an integer starts with `-` exactly for a negative number, has one character exactly for 0..15, and for a non-negative number reads back, upper-cased, as the number |
| Hex.Digits | style-dictionary.actions.js:20-22 | `toString(16)` of a non-negative integer gives one digit exactly below 16, at most two exactly below 256, and only hex digits |
| Hex.ParseDigits | style-dictionary.actions.js:20-26 | reading the upper-cased hex digits of n back as a number gives n |
| Hex.Channel | style-dictionary.actions.js:20-25 | a channel is written as exactly two upper-case hex digits iff it lies in 0..255, and those digits read back as the channel; a channel of 256 or more gives three or more characters because only a one-character string is padded |
| Hex.RgbToHex | style-dictionary.actions.js:8-26 | the output is `#` plus six upper-case hex digits iff all three channels lie in 0..255; then parsing the pairs gives back r, g and b in that order; a channel of 256 or more makes it longer than seven characters (no clamping) |
| Hex.BlackIsAllZeros | style-dictionary.actions.js:20-26 | channels 0, 0, 0 give `#000000` |
| Hex.RedIsFF0000 | style-dictionary.actions.js:20-26 | channels 255, 0, 0 give `#FF0000` |
| Hex.WhiteIsAllFs | style-dictionary.actions.js:20-26 | channels 255, 255, 255 give `#FFFFFF` |
| Strings.ToUpper | style-dictionary.actions.js:26 | `toUpperCase` keeps the length and upper-cases each ASCII letter in place |
| Strings.Join | style-dictionary.actions.js:162-172 | definition, no contract: `join` at lines 169 and 172; `Strings.JoinHasPart` states what the formatter relies on |
| Strings.IndexOf | style-dictionary.actions.js:76-78 | the index found is the first occurrence of the pattern, and none is found exactly when the pattern does not occur |
| Strings.Includes | style-dictionary.actions.js:88-91 | `includes` is true exactly when the pattern occurs somewhere in the string |
| Strings.ReplaceFirst | style-dictionary.actions.js:76-78 | `replace` with a string pattern replaces only the first occurrence and leaves a string without the pattern unchanged |
| Strings.JoinHasPart | style-dictionary.actions.js:162-172 | every element of a joined array occurs in the joined text |
| Tokens.Stringify | style-dictionary.actions.js:95 | definition, no contract: a template literal (here and at lines 107, 132 and 167) prints a colour object as `[object Object]` and any other value as its text |
| Flatten.Key | style-dictionary.actions.js:41-44 | definition, no contract: the key is `kebab` of `collection-modeName-variable.name` with both parts already kebab-cased; `Flatten.FlatMapEntry` states it about the result |
| Flatten.MakeToken | style-dictionary.actions.js:46-54 | definition, no contract: the token record with name, collection, file, mode, value and alias; `Flatten.FlatMapEntry` states its fields about the result |
| Flatten.RowAt | style-dictionary.actions.js:40-55 | one mode's pass makes one token per variable, in variable order: position j holds the token of variable j |
| Flatten.FlattenMode | style-dictionary.actions.js:40-55 | one mode's pass succeeds iff every variable has a value for the mode; then the object is the earlier one with the mode's tokens assigned in order; on failure the error names a missing (mode, variable) pair |
| Flatten.ToStyleDictionaryFormat | style-dictionary.actions.js:33-59 | succeeds iff every variable has a value for every mode; the result is the mode-major, variable-minor sequence of tokens stored by plain assignment; a failure names a (mode, variable) pair that really lacks a value |
| Flatten.EntriesAt | style-dictionary.actions.js:39-44 | the visiting order is modes outer, variables inner: position `Offset(i) + j` holds the token of mode i and variable j |
| Flatten.AssignDomain | style-dictionary.actions.js:46 | the keys of the object are exactly the names of the tokens assigned |
| Flatten.AssignValues | style-dictionary.actions.js:46-48 | every stored token is one of the tokens assigned, stored under its own name |
| Flatten.AssignLast | style-dictionary.actions.js:46 | plain assignment: a token that no later token shares a name with is the one stored under that name |
| Flatten.AssignSize | style-dictionary.actions.js:46 | the object has at most as many keys as tokens assigned, with equality exactly when all names differ |
| Flatten.FlatMapEntry | style-dictionary.actions.js:35-54 | every entry sits under its own name and, for some mode and variable, has key `kebab(kebab(name)-kebab(mode)-variable.name)`, `collection = kebab(name)`, `mode = kebab(mode name)`, the file path, the mode's resolved value and `kebab` of the alias name |
| Flatten.FlatMapLastWriteWins | style-dictionary.actions.js:39-56 | when no later (mode, variable) pair produces the same key, the entry under that key carries exactly that pair's data |
| Flatten.FlatMapSize | style-dictionary.actions.js:39-56 | the object has at most modes × variables entries, with equality exactly when distinct pairs give distinct keys |
| Flatten.CollisionScenario | style-dictionary.actions.js:42-52 | two variables of the same name under one mode give one entry that holds the later variable's value |
| Transforms.NameTransform | style-dictionary.actions.js:75-80 | the result is never longer than the name, and equals it exactly when none of `mode-1-`, `typography-`, `effects-` occurs in it |
| Transforms.RemovalShortens | style-dictionary.actions.js:76-78 | removing the first occurrence of a fragment that occurs shortens the name by the fragment's length; otherwise nothing changes |
| Transforms.NameScenario | style-dictionary.actions.js:76-79 | `typography-mode-1-h1` becomes `h1`: the inner `mode-1-` is removed, then the leading `typography-` |
| Transforms.KeepName | style-dictionary.actions.js:117-120 | the second `name-transform` registration returns the name unchanged |
| Transforms.PxMatcher | style-dictionary.actions.js:86-93 | matches exactly when the collection contains `size`, `breakpoint`, `border` or `space` |
| Transforms.PxTransform | style-dictionary.actions.js:94-96 | the result is the printed value followed by `px` |
| Transforms.RemMatcher | style-dictionary.actions.js:102-104 | matches exactly when the collection contains `typography` |
| Transforms.RemTransform | style-dictionary.actions.js:105-111 | appends `rem` when the name contains `font-size-`, and otherwise returns the value itself |
| Transforms.ValueTransform | style-dictionary.actions.js:126-135 | the chain of three `if`s equals a one-case-per-kind rendering, so at most one branch fires. `semantic` gives `var(--alias, hex)`, `foundation` gives, for channels in 0..255, a hex colour that parses back to the value, `size` appends `px`, and anything else is unchanged |
| Transforms.SizeScenario | style-dictionary.actions.js:132 | a `size` token of value 16 becomes `16px` |
| Transforms.SemanticScenario | style-dictionary.actions.js:128-129 | a `semantic` token aliasing `color-primary` with a pure red value becomes `var(--color-primary, #FF0000)` |
| CssFormat.Collections | style-dictionary.actions.js:150-157 | the collection list has no duplicates and holds exactly the collections of the tokens |
| CssFormat.CollectionsFirstSeen | style-dictionary.actions.js:152-157 | collections are listed in the order of their first tokens |
| CssFormat.Filter | style-dictionary.actions.js:162-165 | a section lists only tokens of its own collection |
| CssFormat.TokenInSection | style-dictionary.actions.js:162-168 | every token appears in its collection's section, at the position given by the number of earlier tokens of that collection |
| CssFormat.SectionKeepsOrder | style-dictionary.actions.js:162-168 | two tokens of one collection keep their relative order inside its section |
| CssFormat.GroupedPermutation | style-dictionary.actions.js:159-172 | concatenating the filtered token lists of any duplicate-free list of collections that covers every token's collection gives a permutation of the tokens |
| CssFormat.SectionsPartitionTokens | style-dictionary.actions.js:159-172 | the sections' token lists together are a permutation of the input: every token is emitted exactly once |
| CssFormat.TokenLineEmitted | style-dictionary.actions.js:159-174 | the line `--name : value;` of every token occurs in the output |
| CssFormat.Line | style-dictionary.actions.js:166-168 | definition, no contract: one token prints as `--name : value;` |
| CssFormat.SectionText | style-dictionary.actions.js:161-170 | definition, no contract: a section is the camel-cased header comment, the lines joined by newlines, and the closing whitespace |
| CssFormat.Sections | style-dictionary.actions.js:159-171 | one section per listed collection |
| CssFormat.LineListsAreGroupedLines | style-dictionary.actions.js:159-172 | for any list of collections, their line lists concatenated are exactly the lines of their grouped tokens, in order |
| CssFormat.SectionsEmitEachTokenOnce | style-dictionary.actions.js:159-172 | section k is the text of collection k's own line list; all sections' line lists, concatenated, are the lines of the grouped tokens, and the grouped tokens are a permutation of the input, so `Format` writes every token's line exactly once |
| CssFormat.Format | style-dictionary.actions.js:174 | the output starts with `/* Generated by friendly robots. */\n\n:root {\n` and ends with `\n}` |
| CssFormat.SectionOrderScenario | style-dictionary.actions.js:150-157 | tokens of collections a, b, a give sections a then b, in first-seen order rather than sorted |
| CssFormat.SectionContentScenario | style-dictionary.actions.js:162-165 | for tokens of collections a, b, a, section a lists the first and third token in that order |

## Left out

- Library plumbing is not modelled: the `style-dictionary` and config requires, `registerParser`, `JSON.parse`, `registerTransformGroup`, `extend` and `buildAllPlatforms` (lines 1-3, 61-66, 138-141, 178-179). They are registration and I/O.
- The build's choice of transforms is not modelled. The transform group names only `name-transform` and `value-transform`. The platform configuration, and the library's handling of two registrations under one name, are not part of this model. Each transform is a standalone function.
- Hex.RgbToHex takes channels that are already integers. The `Math.round(x * 255)` step on floating-point channels (lines 15-17) is floating-point arithmetic and is left out. A negative channel is modelled as `toString(16)` writes it, with a leading `-`.
- Transforms.ValueTransform requires a colour value for `semantic` and `foundation` tokens. On any other value JavaScript's `rgbToHex` produces `NaN` text, and that is not modelled.
- lodash `kebabCase` and `camelCase` are opaque parameters. Their Unicode word splitting is not modelled, and no idempotence or splitting property is claimed for them. A missing `aliasName` is passed to `kebab` as the empty string, because lodash turns `undefined` into `""` before casing.
- Scalar values are held as the text JavaScript's string conversion would print, so number formatting is not modelled. A colour object printed through a template literal gives `[object Object]`, and that is modelled.
- The modes object is a sequence in key-iteration order. JavaScript's rule that integer-like keys come first is not modelled.
- Flatten.ToStyleDictionaryFormat returns a Dafny `map`, which has no key order. A JavaScript object iterates its keys in insertion order, puts integer-like keys first, and keeps a reassigned key at the place of its first write. The library builds the formatter's `allTokens` list from that order, so the order of the flattened tokens, and hence which collection the formatter sees first, is not derived from the flattener here: the formatter is modelled on an arbitrary token list.
- The spread `...variable` copies the variable's other export fields into the token record. The record keeps only the fields the pipeline reads: name, collection, file, mode, value and alias.
- `toUpperCase` is modelled on ASCII only. It only ever sees hex digits and `-`.
- CssFormat.Format copies the section template's whitespace literally, but no property is proved about its layout.
- The unused `collectionName` variable of the formatter (line 153) has no effect and is not modelled.
