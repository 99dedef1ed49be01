# svelte-hmr `makeHot`, modelled in Dafny

svelte-hmr adds hot module replacement to compiled Svelte components. Its
transformer, `lib/make-hot.js`, is a source-to-source rewriter. It takes
the JavaScript the Svelte compiler produced for one component. It replaces
the component's `export default …;` with an activation block that imports
the HMR runtime and a proxy adapter. The block wraps the component with
`applyHmr` and exports it again. Every other character of the module stays
where it was.

The model follows the file piece by piece:

- `HotOptions` (hot_options.dfy): `defaultHotOptions`, the shallow merge of the caller's options, the derived `noPreserveState` flag.
- `ImportPaths` (import_paths.dfy): `posixify`, `applyAbsoluteImports`, `resolveAdapterImport`, `resolveHotApiImport`, the `adapter` override.
- `StringHash` (string_hash.dfy): `stringHashcode`: a bit-vector fold over UTF-16 code units, printed in base 36.
- `CssId` (css_id.dfy): `parseCssId`: the `add_css` span, the `style.id` value, the whole-word deletion, the hash.
- `Accessors` (accessors.dfy): `hasAccessors` and its `enter` visitor, as methods with loops over a template tree.
- `Render` (render.dfy): `renderApplyHmr`: the template, its flattening to one line, the stylesheet guard.
- `Substitution` (substitution.dfy): the `$`-patterns `String.prototype.replace` expands in a replacement text.
- `Splice` (splice.dfy): the `replace` of the default export: the first match only.
- `MakeHot` (make_hot.dfy): `makeHot`: merge, derive, resolve, parse, render, splice.
- `JsValues`, `Json`, `Text`, `Radix`, `Wrappers` (js_values.dfy, json.dfy, text.dfy, radix.dfy, wrappers.dfy): JavaScript values and truthiness, `JSON.stringify` of strings, string scanning, base conversion, `Option`.

Most of the file is expressions over strings and objects. Those parts are
functions, and lemmas state their properties. Two parts work by updating
state. The hash walks the string with a `while (i--)` loop. The accessor
search sets a captured flag inside a visitor callback. Those two are
methods with loops, proved against specification functions
(`StringHash.Hashcode`, `Accessors.Found`).

Regular expressions are modelled as hand-written scanners that return the
leftmost match:

- The lazy, multi-line search for the `add_css` function, from a line-start header to the first line-start closing brace, is `CssId.AddCssAt` and `CssId.FindAddCss`.
- The search for a word-bounded `style.id` assignment of a quoted string is `CssId.StyleIdAt` and `CssId.FindStyleId`.
- The global deletion of the hash as a whole word is `CssId.DeleteFrom`.
- The search for an optional line feed, `export default `, an expression without `;`, and a `;` is `Splice.ExportMatchAt` and `Splice.FindExport`.

JavaScript values are the datatype `JsValues.JsValue`, and `Truthy` is
JavaScript truthiness. The `||` and `&&` of the source yield operands, not
booleans. The model keeps those operand values.

## Model

| member | source | states |
|---|---|---|
| `HotOptions.Merge` | lib/make-hot.js:186 | The merge has every key of either object. A key the caller gave takes the caller's value, even `undefined`. Every other key takes the default. |
| `HotOptions.NoPreserveState` | lib/make-hot.js:190-194 | A truthy raw flag is the result itself. Otherwise the result is a boolean or a falsy operand (the key, `undefined` or the empty code), as `||` and `&&` yield. When it is truthy is stated by `NoPreserveStateTruthy`. |
| `HotOptions.NoPreserveStateTruthy` | lib/make-hot.js:190-194 | The derived flag is truthy iff the raw flag is truthy, or the key is truthy and a non-empty original source contains it. |
| `HotOptions.EscapeHatchByDefault` | lib/make-hot.js:190-194 | With the default options, a non-empty source turns state preservation off iff it contains `@!hmr`. |
| `HotOptions.FinalOptions` | lib/make-hot.js:196 | The serialised options object has exactly the keys of the defaults and of the caller. Its values are stated by `FinalOptionsKeys`. |
| `HotOptions.FinalOptionsKeys` | lib/make-hot.js:196 | The serialised options have exactly the merged keys. They agree with the merge everywhere except `noPreserveState`, which holds the flag derived from the merge and the original code. |
| `ImportPaths.Posixify` | lib/make-hot.js:45 | The path keeps its length and loses every backslash. With `PosixifyConcat`, `PosixifyFixes` and `PosixifyBackslash` this fixes every character of the result. |
| `ImportPaths.PosixifyNormalises` | lib/make-hot.js:45 | No backslash is left, the length is kept, and posixifying twice changes nothing. |
| `ImportPaths.PosixifyBackslash` | lib/make-hot.js:45 | A backslash becomes a slash, wherever it stands. |
| `ImportPaths.PosixifyConcat` | lib/make-hot.js:45 | Posixify works character by character: it distributes over concatenation. |
| `ImportPaths.PosixifyFixes` | lib/make-hot.js:45 | A path without backslashes is left as it is. |
| `ImportPaths.ApplyAbsoluteImports` | lib/make-hot.js:47-52 | The result ends with the target file. It starts with `runtimeDir` and `/` when `absoluteImports` is truthy, and with `svelte-hmr/runtime/` otherwise. |
| `ImportPaths.ResolveAdapterImport` | lib/make-hot.js:59-66 | The resolved adapter path holds no backslash. Its exact value is stated by `AdapterImportChoice`. |
| `ImportPaths.AdapterImport` | lib/make-hot.js:207 | Without a non-empty override, the adapter path holds no backslash. An override is used verbatim (`AdapterImportChoice`). |
| `ImportPaths.AdapterImportChoice` | lib/make-hot.js:59-66 | A non-empty adapter override is used verbatim. Otherwise the path is the base followed by the native adapter file when `native` is truthy, else the DOM adapter file. |
| `ImportPaths.ResolveHotApiImport` | lib/make-hot.js:68-69 | The API path holds no backslash, override or not. Its exact value is stated by `HotApiImportChoice`. |
| `ImportPaths.HotApiImportChoice` | lib/make-hot.js:68-69 | A non-empty API override is posixified. Otherwise the path is the base followed by `hot-api-esm.js`. The result never holds a backslash. |
| `ImportPaths.RelativeImports` | lib/make-hot.js:47-52 | With `absoluteImports` falsy and no overrides, both paths start with `svelte-hmr/runtime/`. |
| `StringHash.Hashcode` | lib/make-hot.js:127-132 | The hash text has 1 to 7 characters, all lower-case base-36 digits, with no leading zero. Read in base 36, it is the unsigned 32-bit fold of the string's UTF-16 code units. |
| `StringHash.Fold` | lib/make-hot.js:128-130 | The reference fold over the code units, last unit first, starting at 5381. Its step is multiplication by 31 and xor (`ShiftSubIsTimes31`). `StringHashcode` is proved to compute it. |
| `StringHash.StringHashcode` | lib/make-hot.js:127-132 | The loop from the last code unit to the first yields `Hashcode` of the string. |
| `StringHash.ShiftSubIsTimes31` | lib/make-hot.js:130 | `(h << 5) - h` is `h * 31` modulo 2^32. |
| `StringHash.Utf16Bmp` | lib/make-hot.js:130 | A string of Basic Multilingual Plane characters has one code unit per character. |
| `StringHash.HashOfEmpty` | lib/make-hot.js:128-131 | The empty string hashes to the seed 5381, printed as `45h`. |
| `StringHash.HashOfA` | lib/make-hot.js:127-132 | `"a"` hashes to `3ksa`. |
| `Radix.FromToRadix` | lib/make-hot.js:131 | The base-36 text read back gives the number: `toString(36)` loses nothing. |
| `Json.QuoteValue` | lib/make-hot.js:100-101 | A quoted value holds no line feed. A quoted string decodes back to the string (`QuoteValueDecodes`). |
| `Json.UnquoteQuote` | lib/make-hot.js:43 | A string quoted with `JSON.stringify` decodes back to the same string. The literal cannot be left early, whatever the string holds. |
| `Json.QuoteHasNoControl` | lib/make-hot.js:43 | A quoted string holds no control character, so it cannot break a line. |
| `Json.QuoteValueDecodes` | lib/make-hot.js:100-101 | A quoted CSS id or hash decodes back to its value. |
| `Json.QuoteValueNoDollar` | lib/make-hot.js:100-101 | Quoting a value brings in no `$`: the output holds one only when the quoted string does. |
| `CssId.AddCssAt` | lib/make-hot.js:138 | Tried at `p`, the pattern matches iff a line-start header is there and a line-start `}` follows it. The match ends just after the first such `}`. |
| `CssId.FindAddCss` | lib/make-hot.js:138-139 | It returns the leftmost match, or nothing when no position matches. |
| `CssId.StyleIdAt` | lib/make-hot.js:143 | A match is a word-bounded `style.id`, optional whitespace, `=`, optional whitespace, then a quote, quote-free text and the same quote. |
| `CssId.StyleIdAtComplete` | lib/make-hot.js:143 | Every text of that shape is found: the scanner misses no match. |
| `CssId.FindStyleId` | lib/make-hot.js:143 | It returns the leftmost `style.id` assignment in the span, or nothing. |
| `CssId.CssIdOf` | lib/make-hot.js:143-144 | The id is `null` or a string, and a string id holds no quote character. |
| `CssId.CssIdLeftmost` | lib/make-hot.js:143-144 | The id is `null` iff no position of the span matches. A string id is the text between the quotes of the leftmost match. |
| `CssId.CssHash` | lib/make-hot.js:148 | The hash part of the id holds no hyphen. Its value is stated by `CssHashOfComponentId` and `CssHashWithoutHyphen`. |
| `CssId.CssHashOfComponentId` | lib/make-hot.js:148 | For an id `name-hash` or `name-hash-…`, the hash part is `hash`. |
| `CssId.CssHashWithoutHyphen` | lib/make-hot.js:148 | An id without a hyphen yields the text `undefined` as its hash part. |
| `CssId.DeleteFrom` | lib/make-hot.js:150 | Deleting from position `i` on never yields more than the characters left after `i`. The exact result is stated by `DeleteWordsRemovesOccurrences`. |
| `CssId.DeleteWords` | lib/make-hot.js:150 | The deletion never lengthens the text. The exact result is stated by `DeleteWordsRemovesOccurrences` and `DeleteWordsNothing`. |
| `CssId.NoOverlap` | lib/make-hot.js:150 | Two whole-word occurrences of a word never overlap. |
| `CssId.DeleteWordsRemovesOccurrences` | lib/make-hot.js:150 | The left-to-right global deletion of a word keeps exactly the characters outside every whole-word occurrence, in order. |
| `CssId.DeleteWordsNothing` | lib/make-hot.js:150 | Without an occurrence, or with an empty pattern, the text is unchanged. |
| `CssId.ParseCssId` | lib/make-hot.js:134-154 | Both fields are `undefined` iff there is no `add_css` span. The id is read from the span. A hash is present iff `parseHash` is truthy and the id is a non-empty string. The hash is `Hashcode` of the code outside the span, with whole words equal to the id's hash part deleted. |
| `CssId.CutAndRestore` | lib/make-hot.js:140-141 | The code outside the span, with the span put back at its start, is the original code. The cut shortens the code by exactly the span's length. |
| `Accessors.FoundPreorder` | lib/make-hot.js:165-174 | The tree sets accessors iff some node the walker enters, in pre-order, sets them. |
| `Accessors.Enter` | lib/make-hot.js:166-173 | The new flag is the old flag, or whether the node is an `Options` node with a truthy `accessors` attribute. A set flag stays set. |
| `Accessors.Walk` | lib/make-hot.js:165-174 | After the walk, the flag is the incoming flag or whether some node of the tree sets accessors. |
| `Accessors.AccessorsValue` | lib/make-hot.js:162-176 | `undefined` without `ast` or `ast.html`. Otherwise a boolean that is true iff a node in walking order sets accessors. |
| `Accessors.HasAccessors` | lib/make-hot.js:162-176 | The walk starting with the flag unset yields `AccessorsValue`. |
| `Render.RenderApplyHmr` | lib/make-hot.js:71-123 | The rendering is non-empty and ends with a line feed. Its full shape is stated by `RenderShape`, and its shape once `$2` is substituted by `RenderReplaced`. |
| `Render.CompactTidy` | lib/make-hot.js:106-107 | Each line kept after trimming and filtering is non-empty and has no whitespace at either end. |
| `Render.CompactAvoids` | lib/make-hot.js:106-107 | Trimming and filtering brings in no new character. |
| `Render.Flatten` | lib/make-hot.js:105-108 | The flattened block holds no line feed. |
| `Render.RenderShape` | lib/make-hot.js:90-123 | The output is the imports, one newline-free block, `\nexport default $2;\n`, the optional guard and a final newline. The guard is there iff `injectCss` and `cssId` are truthy. Its id literal decodes to the CSS id. |
| `Render.TemplateTrimmable` | lib/make-hot.js:91-104 | Each template line is blank indentation followed by a text that is empty or has no whitespace at either end. Each of the twelve `applyHmr` lines is non-empty. |
| `Render.TemplateSingleLine` | lib/make-hot.js:91-104 | Without line feeds in the interpolated texts, no template line breaks. |
| `Render.TemplateFragments` | lib/make-hot.js:91-104 | The non-empty texts of the template are exactly the reference list `Fragments`: the twelve `applyHmr` lines, the `accept` call in Vite mode only, and the closing brace. |
| `Render.FlattenBlock` | lib/make-hot.js:90-109 | Without line feeds in the interpolated texts, splitting, trimming, filtering and re-joining the block gives the `Fragments` joined by single spaces. |
| `Render.RenderComponentOnly` | lib/make-hot.js:90-110 | With dollar-free, single-line inputs, every `$` in the rendering begins `$2`. |
| `Render.RenderReplaced` | lib/make-hot.js:90-123 | Once `$2` stands for an expression `x`, the rendering keeps the imports, replaces `$2` in the block, re-exports `x` and keeps the guard unchanged. |
| `Substitution.Expand` | lib/make-hot.js:227 | The expansion of a replacement text. What it yields is stated by `ExpandPlain`, `ExpandGroup2` and `ExpandComponentOnly`. |
| `Substitution.ExpandPlain` | lib/make-hot.js:227 | Replacement text without `$` is copied as it is. |
| `Substitution.ExpandGroup2` | lib/make-hot.js:227 | `$2` expands to the second capture, the exported expression. |
| `Substitution.ExpandComponentOnly` | lib/make-hot.js:227 | When every `$` begins `$2`, the expansion substitutes the expression for each `$2` and changes nothing else. |
| `Substitution.ReplaceConcat` | lib/make-hot.js:227 | Substituting `$2` distributes over a concatenation whose first part holds only `$2` patterns. |
| `Substitution.ReplacePlain` | lib/make-hot.js:227 | A text without `$` is unchanged by the substitution. |
| `Splice.ExportBodyAt` | lib/make-hot.js:227 | From `q`, `export default ([^;]*);` matches iff the keyword is there and a `;` follows later. The body ends at the first such `;`. |
| `Splice.ExportMatchAt` | lib/make-hot.js:227 | At `p`, the optional line feed is consumed when the rest matches after it. Otherwise the match starts at the keyword. |
| `Splice.FindExport` | lib/make-hot.js:227 | Only the leftmost match is taken, because the expression has no `g` flag. |
| `Splice.ReplaceExport` | lib/make-hot.js:227 | Without a match the code is unchanged. Otherwise everything before the match and after its `;` is kept verbatim. |
| `Splice.ExportFound` | lib/make-hot.js:227 | A match exists iff some `export default ` is followed, somewhere later, by a `;`. |
| `Splice.ExportShape` | lib/make-hot.js:227 | The replaced text is an optional line feed, `export default `, an expression with no `;`, and the first `;` after it. |
| `Splice.ExportTakesLineFeed` | lib/make-hot.js:227 | A line feed right before the keyword is part of the replaced text. |
| `Splice.SpliceComponent` | lib/make-hot.js:227 | A replacement whose only patterns are `$2` takes the place of the match with `$2` read as the expression. |
| `MakeHot.CompileData` | lib/make-hot.js:198-205 | Without `compiled` the text is `null`. Otherwise it is a JSON object text. |
| `MakeHot.CompileDataMembers` | lib/make-hot.js:198-205 | `vars` comes first when defined. `accessors` comes last, holding the walk's verdict, when the template tree exists. With neither the object is `{}`. |
| `MakeHot.RenderArgs` | lib/make-hot.js:207-224 | The CSS id and hash passed to the renderer are values it can quote. |
| `MakeHot.MakeHot` | lib/make-hot.js:178-228 | Without a default export the code comes back unchanged. Otherwise the text before and after the replaced export is kept verbatim. |
| `MakeHot.MakeHotSplices` | lib/make-hot.js:211-227 | With dollar-free, single-line interpolations, the result is: the code before the export, the imports, the block with `$2` read as the exported expression, `export default` of that expression, the optional guard, and the code after the export. |
| `MakeHot.MakeHotCss` | lib/make-hot.js:211-224 | Without `add_css` the id and the hash are `undefined`. A hash appears only with `injectCss` truthy. The guard is emitted iff `injectCss` and the id are truthy. |
| `Text.IndexOf` | lib/make-hot.js:193 | The result is `-1` iff the text never occurs. Otherwise it is the leftmost index where it occurs. |
| `Text.JoinSplit` | lib/make-hot.js:105-108 | Joining the pieces of a split with the separator gives the text back. |
| `Text.SplitJoin` | lib/make-hot.js:105-108 | Splitting a join of separator-free pieces gives the pieces back. |
| `Text.TrimIndented` | lib/make-hot.js:106 | Trimming blank indentation off a tidy text gives the text. |

## Left out

- The absolute runtime directory is resolved against the package's install location on the host filesystem. The runtime directory is the parameter `runtimeDir` of the import functions and of `MakeHot.Factory`.
- `JSON.stringify` of arbitrary objects is not modelled; key order and number formatting depend on the host objects:
  - the merged options arrive through the function parameter `stringify`;
  - `compiled.vars` and `compileOptions` arrive as serialised texts.
  `JSON.stringify` of strings is modelled in `Json`, including the text `undefined` for `undefined`.
- The injected `walk` is a foreign library. It is replaced by recursion over the `children` of `Accessors.Node`, entering parents before children.
- The generated code is only produced as text. What `applyHmr`, `import.meta.hot`, `document.getElementById` and `add_css` do at run time is not modelled.
- `CssId.DeleteWordsRemovesOccurrences`: proved only when the hash part is a non-empty run of word characters. `CssId.DeleteFrom` matches the hash text literally. A hash holding regular-expression metacharacters, or one that makes `new RegExp` throw, behaves differently in the source.
- `Render.RenderComponentOnly`, `Render.RenderReplaced`, `MakeHot.MakeHotSplices`: stated only when the interpolated texts hold no `$` and no line feed (`Render.DollarFree`, `Render.SingleLine`). In the general case `Splice.ReplaceExport` applies the full pattern expansion `Substitution.Expand`, and `Render.Flatten` splits whatever line feeds the texts contain. No lemma describes the result's shape there.
- The export pattern at lib/make-hot.js:227 has no `g` flag, so `replace` acts only on the first, leftmost match. `Splice.FindExport` takes that match, and later exports are kept as they are.
- Dafny characters are Unicode scalar values, so a string holding a lone surrogate code unit cannot be represented. Other characters map to UTF-16 as `charCodeAt` sees them.
- Numbers are integers (`JsValues.Num`). Fractions, `NaN` and infinities among option values are not modelled. An object value carries the text `String(value)` gives for it.
- The `imports` parameter of `renderApplyHmr` is never passed by `makeHot`, so the model always uses its default.
- Exposing the captured `hotApi` as a property of `makeHot` (lib/make-hot.js:231) holds no logic and is not modelled.
