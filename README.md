# A model of the blog builder and the contact form

This project models, in Dafny, the two pieces of logic of a static site for a
mental-health guide:

- `build.js`, the build script. It walks the articles folder for markdown files
  (`collectMarkdownFiles`). It reads the leading `---` block of `key: value`
  lines of each file (`parseFrontmatter`), with special rules for `tags` and for
  the category keys. It derives a title, description, tags, category, summary
  and a unique slug for each file (`extractSummaryFromBody`, `makeUniqueSlug`,
  the `mdFiles.forEach` loop). It then escapes `</script>` in the serialised
  posts and removes the `let blogPosts = [...]` declaration from the page
  template.
- `dist/assets/js/contact.js`, the contact form's client script. It validates
  the form in a fixed order and builds the payload. It picks Formspree,
  FormSubmit or a configuration error from the page's meta tags. It shows the
  outcome in a status line and disables the submit button while sending, then
  restores it.

Each core function is modelled in the form the code has:

- expression code becomes functions;
- loops become methods with invariants, proved against a specification function;
- objects the code updates in place become classes. These are the slug set, the
  status element and the submit button.

The modules are:

- `Text`: the JavaScript string operations the code relies on: `trim`, one-character
  `split`, `/\r?\n/` split, ASCII `toLowerCase`, character-class removal, decimal
  printing.
- `Collector`: the directory walk over a tree of listings.
- `Frontmatter`: the block pattern, the line pattern, key normalisation, quote
  stripping, the bracket-list normaliser with a JSON reader for flat string arrays,
  the comma and fallback splits, and the fold over lines.
- `Summary`: `extractSummaryFromBody`.
- `Slugs`: `makeUniqueSlug` and the `existingSlugs` set.
- `Posts`: the fields of a post and the `forEach` loop that builds `blogPosts`.
- `Template`: script-tag escaping and removal of the declaration.
- `Contact`: the contact form.
- `Wrappers`: `Option`.

The file system, the markdown renderer, `JSON.stringify`, `encodeURIComponent` and
`fetch` are parameters: `read: Path -> Option<string>` (`None` = the read throws),
`render: string -> Option<string>`, `encode: string -> string` and
`send: Route -> Reply`.

In these places the code does something a reader might not expect; the model follows the code:

- The template is not given the serialised posts. The code removes the
  `let blogPosts = [...]` declaration and never writes `postsData` into the page.
  A template without the declaration is left unchanged, and the build goes on
  (`Template.RemoveDeclUnchangedIff`).
- The summary removes every emphasis character `` ` * _ > ~ - `` anywhere in the
  line, not only leading ones (`Summary.SummaryBounds`).
- The catch path for `tags` removes only `[`, `]` and `'`, so double quotes
  survive in those tags (`Frontmatter.TagsValueClean` promises no `'` and no `,`,
  not "no quotes").
- The front-matter `slug` is trimmed and otherwise used as written. Only the
  slugs made from the file name or the title are lower-cased and cleaned
  (`Posts.SlugRules`).
- `meta.cat` is never set, because `cat` is read as a category key
  (`Posts.Category`).
- The non-array arm of line 126 of `build.js` (`String(meta.tags).split(',')`) is dead,
  because `tags` always holds a list (`Posts.TagsRules`).
- The guard `/^\s*[\[,\]]\s*$/` inside the bracket normaliser can never hold of a
  match, which by its pattern contains no bracket and no comma. It is not
  modelled.
- On the contact form, the placeholder endpoint always contains `REPLACE_FORM_ID`.
  Formspree is therefore used only when a `contact:formspree` meta tag is
  configured (`Contact.RouteChoice`).
- When neither service is configured, the button is restored twice: once before
  the `return` and once in `finally`.

## Model

| member | source | states |
|---|---|---|
| Collector.CollectMarkdownFiles | build.js:23-35 | the loop returns exactly the pre-order walk `MarkdownFiles(dir, entries)`: each entry in listing order, a directory's files spliced in its place |
| Collector.MarkdownFilesIff | build.js:23-35 | a path is returned exactly when it lies under the folder, reaches a regular file through directories only, and that file's name has the markdown extension |
| Collector.MarkdownNameIff | build.js:30 | `path.extname(name).toLowerCase() === '.md'` holds exactly when the name ends in `.md` in any letter case with at least one character before it (a bare `.md` has no extension) |
| Collector.LastIndexOf | build.js:30 | the last occurrence of the dot used by `extname`: `None` exactly when there is none, else the index of a dot with no dot after it |
| Frontmatter.FindDashes | build.js:38 | the first `---` at or after a position, and none before it |
| Frontmatter.MatchBlock | build.js:38-40 | the block pattern matches exactly when the text starts with `---` and holds a later `---`; the group starts after the whitespace that follows the opening dashes, neither end of it is whitespace, and no `---` starts before its end |
| Frontmatter.MatchBlockAt | build.js:38-42 | with `j` the first `---` after the opening one, the group is the text between the two dash runs, trimmed, and the match ends after the dashes at `j` and the whitespace after them |
| Frontmatter.NoBlockKeepsInput | build.js:39-41 | without a block, meta is empty and the body is the whole input |
| Frontmatter.BlockContents | build.js:38-44 | with `j` the first `---` after the opening one, the body is the text after the dashes at `j`, trimmed, and meta is read from the lines of the trimmed text between the two dash runs |
| Frontmatter.ParseFrontmatter | build.js:37-91 | the method returns `FrontmatterOf(markdown)`: empty meta and the input when there is no block, else the lines of the block folded into meta and the trimmed rest |
| Frontmatter.FillMeta | build.js:44-89 | the `forEach` over the block's lines yields the fold of their entries, in order, from empty meta |
| Frontmatter.KeyLength | build.js:46 | the length of the longest prefix of characters that are neither whitespace nor `:` |
| Frontmatter.KeySplit | build.js:46 | the key run and the rest rebuild the text, and the rest does not start with a key character |
| Frontmatter.KeySplitOf | build.js:46 | a key run followed by a non-key character is exactly what the key part of the pattern takes |
| Text.TrimStartOf | build.js:46 | leading whitespace is exactly what `\s*` skips before the key |
| Frontmatter.MatchLineShape | build.js:46-50 | every line of the form whitespace, key, whitespace, `:`, value without a line break matches, with that key and the value trimmed |
| Frontmatter.MatchLineSound | build.js:46-50 | every matching line has that form: leading whitespace, a non-empty key run, whitespace, `:`, and a value with no line terminator |
| Frontmatter.LineEntryShape | build.js:45-53 | such a line asks to store the normalised key with the trimmed value, one layer of wrapping quotes removed |
| Frontmatter.StripMarks | build.js:49 | removing U+0300 to U+036F leaves no combining mark, only characters of the input and every character of the input that is not a mark; a text without marks is unchanged, one made only of marks becomes empty |
| Frontmatter.StripMarksAppend | build.js:49 | the removal works character by character: it distributes over concatenation, so the kept characters stay in order |
| Frontmatter.StripQuotes | build.js:51-53 | a value wrapped in the same quote on both ends loses exactly those two characters; a lone quote becomes empty; any other value is kept |
| Frontmatter.ListRun | build.js:58 | the run of `[a-zA-Z0-9_\-\s]` from a position: all such characters, and a character outside the class after it |
| Frontmatter.NormalizeWord | build.js:58-61 | a bare word before a character that is neither a word character nor a quote becomes that word trimmed inside double quotes |
| Frontmatter.NormalizeQuotedWord | build.js:58-61 | a word between two quotes, of either kind and not necessarily matching, becomes the word trimmed inside double quotes |
| Frontmatter.NormalizeCopies | build.js:58-61 | brackets, commas and any other non-word, non-quote character are copied unchanged |
| Frontmatter.NormalizeItem | build.js:58-61 | a list item, a word bare or between two quotes, followed by a comma or a bracket becomes its word trimmed inside double quotes |
| Frontmatter.NormalizeItems | build.js:58-61 | items joined by commas and closed by `]` become the compact JSON text of the trimmed words |
| Frontmatter.NormalizeBracketList | build.js:58-61 | a whole bracket list `[item,item,...]` becomes the JSON array text of the trimmed words |
| Frontmatter.BracketListTags | build.js:54-62 | the JSON path: the tags of a bracket list of items are the trimmed words, in order |
| Frontmatter.BracketListCategory | build.js:69-76 | the JSON path for a category key: the category of a bracket list of items is its first word, trimmed |
| Frontmatter.ParseArrayText | build.js:62 | the JSON reader gives back exactly the list of plain strings whose compact array text it reads |
| Frontmatter.CommaListClean | build.js:64 | each tag of the comma split is non-empty, trimmed, and holds no quote and no comma |
| Frontmatter.FallbackListClean | build.js:67 | each tag of the catch path is non-empty, trimmed, and holds no bracket, no single quote and no comma |
| Frontmatter.TagsValueClean | build.js:54-68 | off the JSON path (no leading `[`, or a bracket list JSON cannot read), every tag is non-empty, trimmed, and holds no `'` and no `,` |
| Frontmatter.CategoryCommaRule | build.js:78-79 | a category with a comma and no bracket is the first non-empty cleaned piece (trimmed, without quotes), or the whole value when every piece is empty; it is never empty |
| Frontmatter.StepField | build.js:86-88 | one line sets an ordinary key when it names it and leaves every other ordinary key as it was |
| Frontmatter.StepSpecial | build.js:54-85 | one line replaces `tags` only when its key is `tags` and `category` only when its key is a category key |
| Frontmatter.FieldsLastWins | build.js:86-88 | an ordinary key is present exactly when some line stores it, and holds the value of the last line that does; lines that do not match are ignored |
| Frontmatter.NoSpecialFields | build.js:54-88 | `tags` and the four category keys never appear among the ordinary fields |
| Frontmatter.TagsLastWins | build.js:54-68 | `tags` is unset exactly when no line has the `tags` key, else it holds the list read from the last such line |
| Frontmatter.CategoryLastWins | build.js:69-85 | `category` is unset exactly when no line has a category key, else it holds the value read from the last line with any of `category`, `categories`, `cat`, `categoria` |
| Summary.Take | build.js:97 | `slice(0, n)`: a prefix of the input of at most `n` characters, the whole input when it is short enough |
| Summary.HashRun | build.js:97 | the number of leading `#`, followed by a character that is not `#` |
| Summary.HeadingIff | build.js:97 | a line of `h` hashes followed by another character is a heading exactly when `h` is at most 6 and that character is whitespace |
| Summary.Clean | build.js:97 | the cleaned line is a prefix of the line with its emphasis characters removed: all of it when that has at most 200 characters, else its first 200; a short line without emphasis is unchanged |
| Text.RemoveCharsAppend | build.js:97 | removing a class of characters works character by character: it distributes over concatenation, so the kept characters stay in order |
| Summary.FirstNonHeading | build.js:96-98 | `None` exactly when every line is a heading, else the first line that is not, every earlier line being a heading |
| Summary.BodyLinesTrimmed | build.js:94 | the candidate lines are trimmed and non-empty |
| Summary.ExtractSummaryFromBody | build.js:93-100 | the method returns `SummaryOf(body)` |
| Summary.PickSummary | build.js:95-99 | the early return and the loop give the first non-heading line cleaned, else the first line cleaned, else `''` |
| Summary.SummaryBounds | build.js:97-99 | every summary has at most 200 characters and holds no emphasis character |
| Summary.BlankBodyHasNoSummary | build.js:94-95 | a body of whitespace only has no lines and the empty summary |
| Summary.SummaryFromFirstText | build.js:96-97 | the summary is the first non-heading line, cleaned |
| Summary.SummaryOfHeadings | build.js:99 | when every line is a heading, the summary is the first line, cleaned |
| Slugs.CandidateInjective | build.js:106 | different counters give different candidates `${base}-${i}` |
| Slugs.FirstFree | build.js:104-107 | the counter found is free and every smaller counter from 1 is taken |
| Slugs.UniqueSlugFresh | build.js:105-108 | the slug returned is never one already in the set |
| Slugs.UniqueSlugSmallest | build.js:103-107 | a free base is returned unchanged; a taken base gets the smallest counter `i >= 1` whose candidate is free |
| Slugs.FirstFreeIs | build.js:104-107 | the first free counter is determined by the set: any free counter with all smaller ones taken is it |
| Slugs.SlugSet.Has | build.js:105 | `existing.has(slug)` is membership in the set |
| Slugs.SlugSet.Add | build.js:108 | `existing.add(slug)` adds exactly that slug |
| Slugs.MakeUniqueSlug | build.js:102-110 | the loop returns `UniqueSlug(base, existing)`, which was not in the set, and the set gains exactly that slug |
| Text.TrimIsSlice | build.js:50 | `trim()` gives a slice of the input with only whitespace before it and after it |
| Text.TrimUnique | build.js:50 | any slice with only whitespace outside it and no whitespace at either end is the trimmed text |
| Text.TrimDropWs | build.js:43 | dropping leading whitespace does not change the trimmed text |
| Text.TrimIdempotent | build.js:124-125 | trimming twice is trimming once |
| Text.Split | build.js:64 | a one-character `split`: there is always at least one piece, no piece holds the separator, and joining the pieces gives back the input |
| Text.SplitJoin | build.js:64 | splitting the join of pieces that do not hold the separator gives back those pieces |
| Text.NatToString | build.js:106 | the decimal text of the counter is non-empty digits with no `-` |
| Text.DecimalRoundTrip | build.js:106 | reading the decimal text back gives the counter |
| Posts.DropMdSuffix | build.js:123 | `.replace(/\.md$/i, '')` changes the name exactly when it ends in `.md` in any letter case, and then drops those three characters |
| Posts.DashesToSpace | build.js:123 | after `.replace(/[-_]+/g, ' ')` no `-` or `_` is left; a text without them is unchanged, and a text made only of them becomes one space |
| Posts.DashesToSpaceAppend | build.js:123 | the replacement works run by run: split where no run is cut in two, a text is replaced piece by piece |
| Posts.KeepSlugChars | build.js:130 | `.replace(/[^\w\s-]/g, '')` keeps only word characters, whitespace and `-`, all from the input, and every such character of the input; a text of only those is unchanged, one with none of them becomes empty |
| Posts.KeepSlugCharsAppend | build.js:130 | the filter works character by character: it distributes over concatenation, so the kept characters stay in order |
| Posts.WsToDash | build.js:130 | `.replace(/\s+/g, '-')` leaves no whitespace and adds only `-`; a text without whitespace is unchanged, and one made only of whitespace becomes `-` |
| Posts.WsToDashAppend | build.js:130 | the replacement works run by run: split where no run is cut in two, a text is replaced piece by piece |
| Posts.BaseSlugChars | build.js:130 | a slug made from the file name holds only lower-case ASCII letters, digits, `_` and `-` |
| Posts.ProcessFiles | build.js:112-145 | the loop's posts and slug set are `Build(files, read, render)`, from a fresh empty set |
| Posts.BuildSlugs | build.js:112-145 | the slugs of the posts are pairwise distinct and are exactly the slug set |
| Posts.BuildFollowsFiles | build.js:114-145 | the posts are the files that can be read and rendered, in file order, one post each, made from that file; each slug is `UniqueSlug` of that file's slug base over the slugs of the posts before it |
| Posts.BuildPostAt | build.js:114-141 | post `k` comes from the `k`-th file that succeeds, keeps that file's text verbatim in `raw` and its rendered body in `content`, and its slug is the first free one for its base among the slugs of posts `0` to `k-1` |
| Posts.KeptSucceed | build.js:115-119 | every file that gives a post could be read and rendered, and is one of the files listed |
| Posts.SkippedFileChangesNothing | build.js:142-144 | a file whose read or render throws adds no post and no slug |
| Posts.TitleRules | build.js:124 | the title is the trimmed front-matter title, else the readable file name, else `Sin título`; it is never empty and is trimmed |
| Posts.DescriptionRules | build.js:125 | the description is the trimmed front-matter description, else the summary of the body |
| Posts.TagsRules | build.js:126 | the tags are the front-matter list, else empty |
| Posts.CategoryRules | build.js:127-128 | the category is the trimmed front-matter category, else the trimmed first tag, else the folder name, else empty (a file at the top) |
| Posts.SummaryRules | build.js:129 | the summary is the description when it has 1 to 140 characters, its first 140 and `...` when longer, the body summary cut to 140 with `...` when it is empty; never more than 143 characters |
| Posts.EmptyDescriptionSummary | build.js:125-129 | a post with an empty description has the summary `...` |
| Posts.SlugRules | build.js:130-131 | the slug base is the trimmed front-matter slug, else the slug made from the file name, else the lower-cased title with whitespace runs turned into `-`; it is never empty |
| Template.EscapeRemovesCloseTags | build.js:147-148 | after the escaping, `</script>` in no letter case occurs anywhere in the text |
| Template.EscapeNoTag | build.js:148 | a text without a close tag is left unchanged |
| Template.DeclAtIff | build.js:151 | the declaration at a position ends at `e` exactly when the text from there is `let`, whitespace, `blogPosts`, optional whitespace, `=`, optional whitespace, `[`, the text up to the first `]`, that `]`, and a `;` when one follows, ending at `e` |
| Template.DeclAtSound | build.js:151 | every declaration found has that shape |
| Template.DeclAtComplete | build.js:151 | every text of that shape is found, with the end the shape gives |
| Text.IndexOfAt | build.js:151 | the first occurrence of a character is the index where it occurs with no earlier occurrence |
| Template.LeftmostNone | build.js:151-152 | the search finds nothing exactly when no match starts in the range |
| Template.LeftmostFirst | build.js:151-153 | no match starts before the one found |
| Template.FindDecl | build.js:151-153 | the declaration found is one, with a non-empty extent within the template |
| Template.FindDeclNone | build.js:151-152 | `varRegex.test(html)` fails exactly when no declaration starts anywhere |
| Template.RemoveDeclUnchangedIff | build.js:151-154 | the template is left unchanged exactly when it holds no declaration |
| Template.RemoveDeclCutsFirst | build.js:151-154 | with a declaration, the leftmost one is cut out and the text on both sides is kept |
| Contact.ValidEmailSound | dist/assets/js/contact.js:30-32 | every valid address is `l@d1.d2` with three non-empty runs of characters that are neither whitespace nor `@` |
| Contact.ValidEmailComplete | dist/assets/js/contact.js:30-32 | every such `l@d1.d2` is valid, whatever dot of the domain is chosen |
| Contact.DomainSplit | dist/assets/js/contact.js:31 | the domain part splits at an inner dot into two non-empty runs |
| Contact.MetaContent | dist/assets/js/contact.js:5-6 | the `content` attribute of the tag, `''` when the tag or attribute is missing |
| Contact.FormspreeEndpoint | dist/assets/js/contact.js:4-8 | the configured endpoint is returned exactly when it starts with `https://formspree.io/`, else `''` |
| Contact.Endpoint | dist/assets/js/contact.js:9 | the endpoint always starts with `https://formspree.io/`, and is the configured one when there is one |
| Contact.ContactEmail | dist/assets/js/contact.js:10-14 | the configured address is returned exactly when it holds an `@`, else `''` |
| Contact.DeployEnv | dist/assets/js/contact.js:38-39 | the environment is the configured one, `development` when it is missing or empty |
| Contact.CaptchaIff | dist/assets/js/contact.js:38-40 | the captcha is on exactly when the page says `production` |
| Contact.DefaultHasPlaceholder | dist/assets/js/contact.js:9 | the fallback endpoint contains `REPLACE_FORM_ID` |
| Contact.ValidateAccepts | dist/assets/js/contact.js:56-81 | the form passes exactly when all three fields exist, the trimmed name is non-empty, the trimmed address is valid and the trimmed message has at least 10 characters; the payload is the trimmed fields and the page |
| Contact.PayloadTrimmed | dist/assets/js/contact.js:76-81 | the payload's text fields are trimmed |
| Contact.ValidationOrder | dist/assets/js/contact.js:56-74 | each error message, with its focused field, is shown exactly when its check is the first that fails: missing field, then name, then address, then message |
| Contact.RouteChoice | dist/assets/js/contact.js:89-124 | Formspree is used exactly when a configured endpoint lacks the placeholder, and the request goes to that endpoint; otherwise FormSubmit is used exactly when the address holds an `@`, at the AJAX URL with the encoded address; otherwise it is a configuration error |
| Contact.FormSubmitBodyRules | dist/assets/js/contact.js:100-111 | FormSubmit gets the same name, address, message and page, and `_captcha` is `'true'` exactly in production and `'false'` otherwise |
| Contact.StatusClassesRules | dist/assets/js/contact.js:16-28 | the status line always has `mt-3` and `text-sm` and exactly one colour: green exactly for success, red exactly for an error, gray otherwise |
| Contact.StatusLine.constructor | dist/assets/js/contact.js:42-47 | a created status element starts with no text, no classes and no role |
| Contact.StatusLine.Show | dist/assets/js/contact.js:16-28 | `showStatus` sets the text, replaces all classes by those of the kind, and sets the role `status` |
| Contact.ReplyStatus | dist/assets/js/contact.js:125-134 | success is shown exactly for an `ok` reply, an error otherwise, and the text is never empty |
| Contact.SubmitReplyText | dist/assets/js/contact.js:125-134 | a sent request that throws shows the network error; an `ok` reply shows the thanks; a failed reply shows its `error`, else its `message`, else the fixed failure text |
| Contact.SubmitRules | dist/assets/js/contact.js:51-140 | only acceptable fields are sent, and never to a missing service; success exactly when a sent request got an `ok` reply; an acceptable form with nothing sent shows the configuration error |
| Contact.SubmitButton.constructor | dist/assets/js/contact.js:49 | the button starts enabled with its text |
| Contact.SubmitButton.StartSending | dist/assets/js/contact.js:83-87 | the button is disabled and shows `Enviando…`, and its previous text is returned |
| Contact.SubmitButton.Restore | dist/assets/js/contact.js:135-140 | the button is enabled again with the saved text |
| Contact.HandleSubmit | dist/assets/js/contact.js:51-140 | the status line, focused field and request sent are those of `SubmitOutcome`; a rejected form leaves the button alone; once sending starts, the button ends enabled with its original text |

## Left out

- File system I/O: `fs.readdirSync` and `readFileSync` are not modelled. The folder is given as a tree of listings, and reads are a parameter whose `None` is a throw. The fatal error when the articles folder is missing is therefore not modelled either.
- The `git submodule update` call and `process.exit` on its failure: an external process.
- The markdown-it renderer is a parameter. `JSON.stringify` is too: `Template.PostsData` takes the serialised text.
- `JSON.parse` is modelled only for flat arrays of strings without escape sequences. Any other text counts as a parse failure, which sends `tags` and `category` to the catch path.
- `normalize('NFD')` is not modelled: only the removal of U+0300 to U+036F is. A precomposed accented key keeps its accent in the model.
- `toLowerCase` is modelled on ASCII letters only.
- String lengths count UTF-16 code units in JavaScript and characters here. They differ only outside the Basic Multilingual Plane.
- The 140 and 200 character cuts are on characters, so they never split a surrogate pair as JavaScript can.
- `encodeURIComponent` is a parameter.
- `fetch`, `async`/`await` and the DOM are not modelled as such. The request sent and the reply are values. `form.reset()` is not modelled, and `focus()` is the outcome's `focus` field.
- Replies whose JSON `error` or `message` member is not a string are not modelled: the reply gives both as strings.
- The `init` lookup of the form (no form: nothing happens) and the insertion of a new status element into the page are not modelled. The handler is given its status element and button.
- Console logging.
- Lines 156-232 of `build.js`: the write of `dist/index.html`, the assets copy, the logging and the `inclusion.html` rewriting. `accessibility.js`, `modelsChart.js`, the CSS build and the Tailwind configuration are not part of this model either.
- The escaped `postsData` is computed but, as in the code, not written into the page.
