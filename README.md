# markdownload server core in Dafny

This project models the conversion core of the markdownload server,
`server/markdownload.js`. That core turns a parsed web article into Markdown and
has four parts:

- **Options.** `getOptions` layers the built-in defaults, three environment
  variables and the caller's overrides.
- **File names.** `generateValidFileName` strips characters that file systems
  reject, normalises white space, and deletes a caller-chosen set of characters.
- **Templates.** `textReplace` expands `{field}` placeholders in templates. Each
  field has ten case forms. The template language also has `{date:FORMAT}`,
  `{keywords:SEPARATOR}` and a final clean-up of leftover `{…}`.
- **Conversion.** `convertArticleToMarkdown` wraps Turndown's output in the
  expanded front and back matter and sanitises the image path prefix. The model
  also covers the per-image step of `preDownloadImages`.

Modules, one per concern:

| module | file | contents |
|---|---|---|
| `JsStrings` | `js_strings.dfy` | The JavaScript string operations the code relies on, with their exact semantics (see the list below). |
| `JsValues` | `js_values.dfy` | Property values, truthiness, `String(v)`, and the `Result` of an operation that may throw. |
| `Articles` | `articles.dfy` | The article as its own properties in enumeration order, plus the merge of `<meta>` tags of lines 205-217. |
| `FileNames` | `file_names.dfy` | `generateValidFileName` as a function, the method with its loop, and the lemmas about it. |
| `Templates` | `templates.dfy` | `textReplace` as a composition of passes, and the method with its three loops. |
| `TemplateProperties` | `template_properties.dfy` | What an expansion guarantees. |
| `Options` | `options.dfy` | The defaults and `getOptions`. |
| `Images` | `images.dfy` | The per-image step, their fold, and the method with its loop. |
| `Conversion` | `conversion.dfy` | `convertArticleToMarkdown` as a function and as a method that assigns the option fields in turn. |

`JsStrings` models these operations:

- `replace` and `replaceAll` with a string pattern, including the `$$`, `` $` ``, `$&` and `$'` replacement patterns.
- `split` and `join`.
- `substring`, including its clamping and argument swap.
- `trim` over the ECMAScript white-space and line-terminator characters.

Templates are expanded by folding over the article's properties in order, so
the substitution is sequential: a value inserted for one field is itself
scanned for the placeholders of the fields after it. Anything the code leaves to
a library is a function-typed parameter:

- the clock value `now` and `moment(now).format`;
- the JSON round trip that unescapes a separator;
- Turndown;
- `mime.extension`, `path.join`, `fetch` and `uuidv4`.

Points where the code's behaviour is easy to misread, and which the model
follows:

- A bare `{keywords}` has no separator of its own. When the article has a
  `keywords` property, the field pass replaces `{keywords}` by `String(array)`,
  which joins the items with commas (`TemplateProperties.BareKeywordsCommaJoined`).
  Without that property the placeholder disappears. The separator the code
  computes for it is then the closing brace itself, because `substring(10, 9)`
  swaps its arguments (`TemplateProperties.BareKeywordsWithoutProperty`).
- An environment variable overrides a default only when it is set *and
  non-empty*, because the code tests it for truthiness.
- The code defines no error types of its own: a failing call throws whatever
  that call throws. The model returns `Err(TypeError)` where the code throws on
  a value of the wrong type. It returns `Err(OutsideModel)` for inputs whose
  behaviour it does not follow.
- The test `!article[key]` of line 214 also reads the members every object
  inherits from `Object.prototype`. A meta tag named `toString`, `constructor`
  or `__proto__` finds a truthy value there and writes nothing
  (`Articles.MergeMetaSkipsInherited`).
- `convertArticleToMarkdown` creates an empty image list at line 275 and hands
  it to `preDownloadImages` at line 278. So even with `downloadImages` on,
  nothing is downloaded, the returned list is empty and the markdown is left as
  Turndown framed it (`Conversion.Convert`, `Conversion.MarkdownIsFramedBody`).

## Model

| member | source | states |
|---|---|---|
| JsValues.TextOf | server/markdownload.js:73 | `String(v \|\| '')`: a falsy value gives "", a string gives itself, an array gives its items joined with commas. |
| FileNames.RemoveIllegal | server/markdownload.js:58-59 | The result holds exactly the characters of the input other than `/ ? < > \ : * \| "`. |
| FileNames.RemoveIllegalConcat | server/markdownload.js:58-59 | Deleting the illegal characters from two pieces of text joined together gives the two results joined together. |
| FileNames.RemoveIllegalSplits | server/markdownload.js:58-59 | Deleting the illegal characters works piece by piece: around any one character, the result is the result for the text before it, then that character unless it is illegal, then the result for the text after it. The kept characters keep their order and their number. |
| FileNames.NbspToSpace | server/markdownload.js:59 | Every U+00A0 becomes a space and every other character stays in its place, so the length is kept and no U+00A0 remains. |
| FileNames.CollapseRunsShape | server/markdownload.js:59 | After `\s+` becomes one space, no two white-space characters are adjacent and every white-space character is a plain space. |
| FileNames.CollapseRunsConcat | server/markdownload.js:59 | Collapsing `\s+` works piece by piece when the second piece is empty or starts with a character that is not white space, so no run is cut in two. |
| FileNames.CollapseRunsKeeps | server/markdownload.js:59 | A character that is not white space is kept, in its place between the collapsed text before it and the collapsed text after it. |
| FileNames.CollapseRunsWholeRun | server/markdownload.js:59 | A text made only of white space, and not empty, becomes one space. |
| FileNames.CollapseRunsFollowedByRun | server/markdownload.js:59 | A run of white space at the end, after a character that is not white space, adds exactly one space to the collapsed text before it. |
| FileNames.CollapseRunsOfRun | server/markdownload.js:59 | A whole run of white space, between characters that are not white space, becomes one space. |
| FileNames.RemoveChar | server/markdownload.js:61-63 | Deleting one disallowed character, escaped or not, leaves exactly the other characters. |
| FileNames.RemoveCharConcat | server/markdownload.js:61-63 | Deleting one disallowed character from two pieces joined together gives the two results joined together. |
| FileNames.RemoveCharSplits | server/markdownload.js:61-63 | Deleting one disallowed character works piece by piece: the kept characters keep their order and their number. |
| FileNames.DeleteEachMembers | server/markdownload.js:60-65 | After the loop over the disallowed set, a character remains iff it was in the name and is not in the set. |
| FileNames.ValidFileName | server/markdownload.js:55-56 | A falsy (empty) title is returned as it is. |
| FileNames.GenerateValidFileName | server/markdownload.js:55-67 | The method, with its loop over the disallowed characters, returns the sanitised name that `ValidFileName` defines. |
| FileNames.BaseNameIsClean | server/markdownload.js:58-59 | The fixed clean-up leaves no illegal character, no U+00A0, no white space other than single spaces, and no space at either end. |
| FileNames.ValidFileNameIsClean | server/markdownload.js:55-59 | Without a disallowed set, every result (the empty title included) is clean in that sense. |
| FileNames.ValidFileNameDeletesDisallowed | server/markdownload.js:58-65 | With a disallowed set, no character of the set survives, nor any illegal character or U+00A0. |
| FileNames.ValidFileNameIdempotent | server/markdownload.js:55-59 | Without a disallowed set, sanitising a sanitised name changes nothing. |
| Articles.Set | server/markdownload.js:215 | After `article[key] = v` the key reads `v` and every other key reads as before. An existing property keeps its place and every other property is unchanged; a new property goes last. |
| Articles.SetKeys | server/markdownload.js:215 | The assignment adds `key` to the own properties and no other key. |
| Articles.MergeMetaKeepsTruthy | server/markdownload.js:209-217 | A property that already holds a truthy value is never overwritten by a meta tag. |
| Articles.MergeMetaFirstWins | server/markdownload.js:209-217 | The first meta tag that has a non-empty content for a property that reads falsy (own and falsy, or neither own nor inherited from `Object.prototype`) sets it, and later tags leave it alone. |
| Articles.MergeMetaSkipsInherited | server/markdownload.js:209-217 | A key inherited from `Object.prototype` that the article does not own reads truthy, so no meta tag ever adds it: the property stays absent. |
| Articles.KeywordsFromMeta | server/markdownload.js:206-208 | Without a keywords tag the property is `undefined`. With one, it is a list with one item per comma-separated piece of the content (one more than the commas), each item being its piece trimmed, so no item has white space at either end. |
| Articles.KeywordsArePieces | server/markdownload.js:206-208 | The keywords read back against the content: there are comma-free pieces, one per keyword, that joined with commas give the content, and each keyword is its piece with white space removed at its two ends only. |
| JsStrings.Trim | server/markdownload.js:208 | `trim()` cuts white space from both ends only: the result is a stretch of the input with only white space around it, and it has none at its own ends. |
| Templates.CapitalizeWords | server/markdownload.js:84-85 | `replace(/ ./g, str => str.trim().toUpperCase())`: the result is never longer than the input, text without spaces comes back unchanged, and every character is one of the input or the upper-case form of one. |
| TemplateProperties.CapitalizeWordsAtSpace | server/markdownload.js:84-85 | A space followed by a character that is not white space becomes that character upper-cased, and the scan goes on after it. |
| TemplateProperties.CapitalizeWordsKeepsWord | server/markdownload.js:84-85 | A stretch without spaces is kept as it is, and the scan goes on after it. |
| Templates.MapFirst | server/markdownload.js:84-85 | `replace(/^./, f)`: the first character goes through `f` unless it is a line terminator; every other character stays in its place and the length is kept. |
| Templates.Render | server/markdownload.js:76-85 | The case forms character by character. The plain form is the text. `:lower` and `:upper` case-map each character. `:kebab` and `:snake` lower-case every character other than a space and turn each space into `-` or `_`. The mixed forms keep every character other than a space and turn each space into `-` or `_`. The kebab, snake and Obsidian forms hold no space. |
| Templates.KeywordItems | server/markdownload.js:108 | `article.keywords \|\| []` is the empty list when falsy and the items of an array. Any other truthy value has no `join`, and the error is a `TypeError`. |
| Templates.LineEnd | server/markdownload.js:89 | The first line terminator at or after a position, or the end of the text: the stretch a `.` can match runs up to it. |
| Templates.CloseOnLineMeaning | server/markdownload.js:89 | `{date:(.+?)}` is lazy: a match ends at the first `}` before the line ends, and there is none only when the line holds no `}`. |
| Templates.LastCloseOnLineMeaning | server/markdownload.js:98 | `{keywords:?(.*)?}` is greedy: a match ends at the last `}` before the line ends, and there is none only when the line holds no `}`. |
| Templates.TextReplace | server/markdownload.js:70-114 | The method, with its loops over the properties, the date matches and the keyword matches, returns the expansion that `ExpandTemplate` defines. |
| TemplateProperties.NoBraceUnchanged | server/markdownload.js:70-113 | A template without `{` is returned unchanged, whatever the article. |
| TemplateProperties.LaterPassesKeep | server/markdownload.js:88-113 | The date, keyword and clean-up passes leave text without `{` alone. |
| TemplateProperties.ExpandLeavesNoPlaceholder | server/markdownload.js:112-113 | In every successful expansion, no `{` has a `}` after it on the same line. |
| TemplateProperties.PlaceholderInjective | server/markdownload.js:75-85 | The ten placeholders of one key are pairwise distinct. |
| TemplateProperties.RenderKeepsOut | server/markdownload.js:76-85 | A character that is not a letter, `-` or `_` appears in a rendering only if it appears in the field's text. |
| TemplateProperties.FieldPlaceholderBecomesValue | server/markdownload.js:71-113 | In a template whose only `{` is that of the placeholder, and with the key's own field the only one that spells it, the placeholder expands to its form of `String(value \|\| '')` and the text around it is kept. That text is first sanitised when a disallowed set is given. |
| TemplateProperties.ValuesReprocessed | server/markdownload.js:71-87 | Substitution is sequential: the text a field puts in place of its placeholder then goes through the substitutions of every later field. |
| TemplateProperties.BracedValueRemoved | server/markdownload.js:71-113 | A value that is itself a braced word, and that no later field spells, is deleted by the clean-up: the placeholder expands to nothing. |
| TemplateProperties.RepeatedDateRendersIdentically | server/markdownload.js:88-96 | Two `{date:F}` placeholders with the same format, in text with no other `{`, both become `moment(now).format(F)` from the one `now`; the text around and between them is kept. |
| TemplateProperties.KeywordsJoined | server/markdownload.js:98-111 | `{keywords:SEP}` with a literal separator, in text with no other `{` and no `}` after it on its line, becomes the article's keywords joined with SEP, or "" when there are none; the text around it is kept. |
| TemplateProperties.BareKeywordsWithoutProperty | server/markdownload.js:98-113 | Without a `keywords` property, `{keywords}` in text with no other `{` and no `}` after it on its line expands to "", and the text around it is kept. The separator computed for it is `}`. |
| TemplateProperties.BareKeywordsCommaJoined | server/markdownload.js:71-76 | With a keyword list as a property, `{keywords}` in text with no other `{` is consumed by the field pass and becomes the items joined with commas; the text around it is kept. |
| TemplateProperties.RunOnKeywordMatch | server/markdownload.js:98-109 | A keyword match that runs on past a `}` to the last `}` of its line is still replaced as literal text: in `t {keywords:,}x}` the separator is `,}x`, and the keywords `a` and `b` give `t a,}xb`. |
| TemplateProperties.ObsidianCalSingleHyphens | server/markdownload.js:83 | `{key:obsidian-cal}` never holds two hyphens in a row. |
| TemplateProperties.ObsidianCalOfSingleHyphens | server/markdownload.js:83 | When turning spaces into hyphens leaves no `--`, `:obsidian-cal` is the same as `:mixed-kebab`. |
| TemplateProperties.CamelAndPascalForms | server/markdownload.js:84-85 | On one line not ending in a space, `:camel` and `:pascal` hold no space. The first character of `:camel` is no upper-case letter and that of `:pascal` no lower-case letter. |
| TemplateProperties.CamelAndPascalWords | server/markdownload.js:84-85 | For words separated by single spaces, `:pascal` is each word with its first character upper-cased, run together; `:camel` is the same with the first word's first character lower-cased instead. |
| TemplateProperties.CapitalizeWordsJoined | server/markdownload.js:84 | For words separated by single spaces, the space-and-letter step keeps the first word and upper-cases the first character of each later word, dropping the spaces. |
| Options.EnvOptions | server/markdownload.js:46-50 | Each of `downloadImages`, `imageStyle` and `puppeteer` is present iff its variable is set and non-empty. The booleans are true iff the value is exactly `true`. Nothing else is present. |
| Options.Precedence | server/markdownload.js:51 | A property is present iff some layer has it. Its value comes from the caller's overrides, else the environment, else the defaults. |
| Options.NoOverridesGivesDefaults | server/markdownload.js:45-51 | With no variable set and no overrides, the result is the defaults. |
| Options.EnvTouchesThreeKeys | server/markdownload.js:45-51 | A default property other than the three, not overridden by the caller, keeps its default. |
| Options.DownloadImagesPrecedence | server/markdownload.js:48-51 | `downloadImages` is the caller's value, else `DOWNLOAD_IMAGES === 'true'` when that variable is set and non-empty, else `false`. |
| Images.DataUrl | server/markdownload.js:233 | The data URL is `data:`, then the response's content type (`null` when the header is absent), then `;base64,` and the body. |
| Images.ExtensionOf | server/markdownload.js:239 | The extension is `mime.extension`'s answer when it has one and `bin` otherwise, so it is never empty. |
| Images.PreDownloadImages | server/markdownload.js:225-252 | The method, with its loop over the images, returns the list and markdown obtained by applying each image's step in completion order. |
| Images.RenamesFirstUnknown | server/markdownload.js:237-240 | The first `.idunno` of the name, not necessarily the last one, is replaced by `.` and the extension; the rest of the name is kept. |
| Images.RenamesUnknownSuffix | server/markdownload.js:237-240 | A name ending in its only `.idunno` gets the extension as its new ending. |
| Images.StepRenamesEveryMention | server/markdownload.js:237-241 | Saving an image whose name ends in `.idunno` rewrites every mention of the old name in the markdown, left to right, to the new name. |
| Images.InlineKeepsList | server/markdownload.js:233-235 | Inlining as base64 records nothing: the list comes back as it was given. |
| Images.KnownNamesKeepMarkdown | server/markdownload.js:236-241 | When saving, the markdown changes only for names ending in `.idunno`. |
| Images.SavedKeys | server/markdownload.js:243-247 | The recorded paths are the ones given plus the destination of every listed image. |
| Images.SavedLastWins | server/markdownload.js:243-247 | The last image saved to a path names the file recorded there. |
| Images.SavedOthersKept | server/markdownload.js:247 | A path no image is saved at keeps its entry. |
| Conversion.TemplateOption | server/markdownload.js:259-266 | A template option is usable iff it is a string; any other value throws a `TypeError`. |
| Conversion.DisallowedOption | server/markdownload.js:266 | A falsy `disallowedChars` is the empty set; a string is its characters. |
| Conversion.SanitisePathKeepsSlashes | server/markdownload.js:266-269 | Sanitising the prefix keeps the number of `/`. The pieces between them are the sanitised pieces of the expanded prefix. |
| Conversion.EmitterOptionsChangesThree | server/markdownload.js:258-269 | The record Turndown gets differs from the one `getOptions` built only in `frontmatter`, `backmatter` and `imagePrefix`, which hold the framing and the prefix. |
| Conversion.WithoutTemplateNoFraming | server/markdownload.js:262-264 | Without templates both framings are empty. |
| Conversion.WithTemplateFraming | server/markdownload.js:259-261 | With templates, the front matter is the expanded front template followed by a line break. The back matter is a line break followed by the expanded back template. Both are expanded without a disallowed set. |
| Conversion.ConvertWith | server/markdownload.js:258-282 | A successful conversion returns an empty image list. |
| Conversion.Convert | server/markdownload.js:255-283 | A successful conversion returns an empty image list. |
| Conversion.MarkdownIsFramedBody | server/markdownload.js:270-282 | The markdown is the front matter, then Turndown's output under the updated options, then the back matter. The image step leaves it as it was. |
| Conversion.WithoutTemplateMarkdownIsBody | server/markdownload.js:255-283 | With `includeTemplate` falsy, the markdown is exactly Turndown's output. |
| Conversion.WithTemplateMarkdownIsWrapped | server/markdownload.js:255-283 | With `includeTemplate` truthy, the markdown is the expanded front matter, `\n`, Turndown's output, `\n`, then the expanded back matter. |
| Conversion.NonStringFrontmatterThrows | server/markdownload.js:259-260 | With templates on, a front matter option that is not a string makes the conversion throw a `TypeError`. |
| Conversion.ConvertWithOptions | server/markdownload.js:258-282 | The method, assigning the option fields in the code's order, returns the conversion that `ConvertWith` defines. |
| Conversion.ConvertArticleToMarkdown | server/markdownload.js:255-283 | The method returns the conversion that `Convert` defines for the options `getOptions` builds. |

## Left out

- Templates.TextReplace: requires every article key other than `content` to be free of regular-expression metacharacters and not a bare number list. The code builds `new RegExp('{' + key + '}')` unescaped; with such keys the pattern no longer matches the placeholder literally. The same restriction applies to Templates.ExpandTemplate and to every Conversion member that expands templates.
- TemplateProperties.FieldPlaceholderBecomesValue: proved for field texts without `{` or `$`. A `{` in a value is scanned again by later passes (see `ValuesReprocessed` and `BracedValueRemoved`). A `$` in a value is read as a replacement pattern. It is also proved only for a template whose one `{` is that of the placeholder; several placeholders in one template are not covered.
- TemplateProperties.KeywordsJoined: proved for joined keywords without `{` or `$`, for the same two reasons. It is also proved only for text with no other `{` and with no `}` after the placeholder on its line, where the greedy match would run on.
- TemplateProperties.BareKeywordsCommaJoined: proved for joined items without `{` or `$`, for the same two reasons, and for a template whose one `{` is that of the placeholder.
- TemplateProperties.BareKeywordsWithoutProperty: proved for text with no other `{` and with no `}` after the placeholder on its line.
- TemplateProperties.RepeatedDateRendersIdentically: proved for two placeholders of one format in text with no other `{`, and for a rendered date without `{` or `$`; placeholders of other formats in the same template are not covered.
- Templates.CloseOnLine: its own contract states only that a match ends at a `}` of the text; which `}` it is, and when there is none, is stated by `Templates.CloseOnLineMeaning`. The same holds for Templates.LastCloseOnLine and `Templates.LastCloseOnLineMeaning`.
- Templates.ApplyKeywords: a keyword match with any of `^ $ . | ? * + ( ) [` between its outer braces, or with a `{` followed by a digit there, gives `Err(OutsideModel)` instead of the code's result, because line 109 then builds a regular expression that is not read literally (or, for a `{` before a digit that opens no quantifier, one the model does not tell apart from a quantifier). A lone `]`, `}` or other `{` is literal, so a greedy match that runs on past a later `}` on its line is computed (`TemplateProperties.RunOnKeywordMatch`).
- Templates.Unescape: the JSON round trip of line 104 is a parameter. It is consulted only for separators that contain a backslash; without one the round trip returns its input.
- Conversion.DisallowedOption: a truthy `disallowedChars` that is not a string, such as an array of patterns, gives `Err(OutsideModel)`.
- Property enumeration order is taken to be insertion order. JavaScript lists integer-like keys first; such keys are excluded by the key restriction above.
- Case mapping covers ASCII letters only. `toLowerCase` and `toUpperCase` on other scripts are not modelled.
- Numbers are integers; `String` of a fractional or exponent-form number is not modelled.
- Strings are sequences of Unicode scalar values. Indexes into text with characters outside the Basic Multilingual Plane differ from JavaScript's UTF-16 indexes.
- `moment` formatting, Turndown with the GFM plugin and the kept tags, `mime.extension`, `path.join`, `fetch` and `uuidv4` are parameters, not modelled.
- Images.PreDownloadImages: each response is taken to offer `buffer()` (line 231), as the responses of the `node-fetch` package do. The `fetch` of line 7 is the runtime's global one, whose responses offer `arrayBuffer()` but no `buffer()`; there every callback would throw a `TypeError` before either branch runs, and `preDownloadImages` would reject for any non-empty list. `convertArticleToMarkdown` always passes an empty list, so its results are the same either way.
- Images.PreDownloadImages: `Promise.all` runs the callbacks concurrently. The model applies them in a completion order the caller supplies. A rejected fetch, and `fs.mkdirSync` and `fs.writeFileSync` (lines 244-246), are not modelled.
- `getArticleFromDom` (lines 117-222) is DOM traversal and Readability parsing and is not part of this model. Only its keywords split and the meta-tag merge are modelled.
- server/index.js (routing, Puppeteer, result files) is not part of this model.
- The order of errors, when several inputs are unsupported at once, is followed only where both errors are `TypeError`.
