# Terminal front end and article helpers, modelled in Dafny

This project models two parts of the site's code. The first is the small
terminal front end in `packages/tui`:

- an **input parser** that sanitises one line of user text and classifies
  it as a `/command` with arguments or as a free-text message;
- a **command dispatcher** that holds named command definitions,
  validates a command name, and routes it to its handler.

The second is the pure helpers of the article loader in `apps/web`:

- file-name-to-slug conversion and the article-file test;
- slug normalisation;
- the word-count-to-minutes arithmetic of the read time;
- the choice of the file that holds the article for a slug.

Modules, one concept each:

- `Wrappers`: `Option` and `Result`. A `Result` error carries the message
  the source would throw.
- `Text`: the string operations the source borrows from JavaScript. These
  are `trim`, ASCII `toLowerCase`, the pattern `/^[a-z0-9-]+$/`,
  `split(/\s+/).filter(Boolean)` (as `Words`), and decimal numerals.
  White space is the ECMAScript set that `trim` and `\s` share: U+0009–U+000D,
  U+0020, U+00A0, U+1680, U+2000–U+200A, U+2028, U+2029, U+202F, U+205F,
  U+3000 and U+FEFF.
- `Parser`: `sanitizeInput` and `parseInput`. They are pure, so they are
  modelled as functions.
- `CommandDispatcher`: the dispatcher is a class.
  - `commands` is a map field.
  - `order` is a sequence field. It records the first-insertion order that
    a JavaScript `Map` iterates in.
  - `Register` modifies the object.
  - `Execute`, `GetCommands` and `HasCommand` only read it.
  - `GetCommands` is the loop that `Array.from(map.values())` performs.
- `Articles`: the slug helpers and the read time, as functions.
  `ResolveArticlePath` is a method whose `for` loop mirrors the source's
  loop, including its `continue` branch. It is proved against the
  function `Lookup`.

Two behaviours of the code are worth stating outright:

- `register` stores a definition under its name exactly as given
  (packages/tui/src/dispatcher.ts:60), with no case folding or check. So a
  definition can be held under "HELP!!", and `Execute` still refuses that
  name before the lookup (`CommandDispatcher.InvalidNameIsHeldButRefused`).
- `getCommands` returns the definitions in first-registration order, the
  iteration order of a JavaScript `Map`, and re-registering a name keeps its
  place (`CommandDispatcher.Dispatcher.GetCommands`,
  `CommandDispatcher.ListingFollowsRegistration`).

## Model

| member | source | states |
|---|---|---|
| Text.IsSpace | packages/tui/src/parser.ts:12 | the white space that `trim` removes and `\s` matches: the ECMAScript WhiteSpace and LineTerminator characters listed above |
| Text.IsControl | packages/tui/src/parser.ts:9 | the characters `/[\u0000-\u001F\u007F]/` matches: U+0000 to U+001F and U+007F |
| Text.Trim | packages/tui/src/parser.ts:12 | `trim` returns a string with no white space at either end that is no longer than its input |
| Text.TrimSlice | packages/tui/src/parser.ts:12 | what `trim` keeps is a contiguous slice of the input, and everything it drops on both sides is white space |
| Text.TrimPadded | packages/tui/src/parser.ts:12 | white space around a trimmed, non-empty string is exactly what `trim` removes |
| Text.Lower | packages/tui/src/parser.ts:35 | lower-casing keeps the length and maps every character to its ASCII lower-case form |
| Text.LowerClasses | packages/tui/src/parser.ts:35 | lower-casing leaves no capital behind, and it keeps a string free of white space and control characters |
| Text.MatchesSafeName | packages/tui/src/dispatcher.ts:16 | `/^[a-z0-9-]+$/` matches exactly the non-empty strings of lower-case ASCII letters, digits and hyphens |
| Text.SafeNameClasses | packages/tui/src/dispatcher.ts:16 | a string matching the safe pattern holds no white space, control character or capital, and is its own trim |
| Text.Words | packages/tui/src/parser.ts:32 | `split(/\s+/).filter(Boolean)` yields only non-empty pieces that hold no white space |
| Text.WordsNoControl | packages/tui/src/parser.ts:32 | the words of a control-free text are control-free |
| Text.WordsSeparated | packages/tui/src/parser.ts:32 | one white-space character splits the word list: the words of a + [c] + b are those of a followed by those of b |
| Text.WordsCollapse | packages/tui/src/parser.ts:32 | a run of white space of any length separates words exactly as a single one does |
| Text.WordsAfterSpace | packages/tui/src/parser.ts:32 | leading white space adds no word |
| Text.WordsOfBlank | packages/tui/src/parser.ts:32 | a text of white space only has no words |
| Text.WordsOfWord | packages/tui/src/parser.ts:32 | a non-empty text without white space is its own single word |
| Text.WordsOfJoin | packages/tui/src/parser.ts:32 | round trip: splitting words joined by single spaces gives back the same list |
| Text.Decimal | apps/web/src/lib/articles.ts:41 | the numeral of a number is non-empty, all digits, and has no leading zero except in "0" |
| Text.DecimalRoundTrip | apps/web/src/lib/articles.ts:41 | round trip: reading the numeral of n back gives n |
| Parser.ParsedInput | packages/tui/src/parser.ts:4-6 | a parse is either a command with its name, arguments and `raw` text, or a message with its `raw` text |
| Parser.RemoveControl | packages/tui/src/parser.ts:9-12 | removing U+0000–U+001F and U+007F leaves a control-free string no longer than its input |
| Parser.RemoveControlCounts | packages/tui/src/parser.ts:9-12 | every other character survives as often as it occurred, and no control character survives |
| Parser.RemoveControlAppend | packages/tui/src/parser.ts:12 | control characters are removed from each part of a concatenation independently |
| Parser.RemoveControlOfControl | packages/tui/src/parser.ts:12 | a string of control characters only vanishes |
| Parser.Truncate | packages/tui/src/parser.ts:8-12 | `slice(0, 1000)` keeps the prefix of length min(length, 1000) |
| Parser.Sanitize | packages/tui/src/parser.ts:11-13 | the sanitised text is control-free, at most 1000 characters long and trimmed |
| Parser.SanitizeIdempotent | packages/tui/src/parser.ts:11-13 | sanitising twice is the same as sanitising once |
| Parser.SanitizeOfClean | packages/tui/src/parser.ts:11-13 | a control-free, trimmed string of at most 1000 characters sanitises to itself |
| Parser.ParseInput | packages/tui/src/parser.ts:26-51 | `raw` is the sanitised text; the result is a command exactly when `raw` starts with "/"; the command has no capital, white space or control character and is empty exactly when there are no words after the slash, in which case there are no arguments; every argument is a non-empty, space-free, control-free word |
| Parser.ParseCommandWords | packages/tui/src/parser.ts:32-36 | the words after the slash are the command (before lower-casing) followed by the arguments, in order |
| Parser.SameSanitizedSameParse | packages/tui/src/parser.ts:27 | the parse depends on the input only through its sanitised text |
| Parser.ParseIdempotent | packages/tui/src/parser.ts:26-51 | parsing the `raw` of a result gives the same result again |
| Parser.ParseOfJunk | packages/tui/src/parser.ts:11-50 | input made only of control characters is the message "" |
| Parser.ParseOfCleanMessage | packages/tui/src/parser.ts:46-50 | a line that sanitises to itself and does not start with "/" is a message carrying that line |
| Parser.ParseOfCleanCommand | packages/tui/src/parser.ts:30-43 | a line that sanitises to itself and starts with "/" is the command built from its words |
| Parser.ParseOfCommandLine | packages/tui/src/parser.ts:30-43 | round trip: "/" + name + " " + args parses to the lower-cased name and exactly those arguments |
| Parser.ParseCollapsesRuns | packages/tui/src/parser.ts:32 | a run of spaces between words parses like a single space |
| Parser.ParseIgnoresPadding | packages/tui/src/parser.ts:12 | white space around a line changes neither its class nor its `raw` |
| Parser.ParseHelp | packages/tui/src/parser.ts:22 | "/help" is the command "help" with no arguments |
| Parser.ParseSkillsReact | packages/tui/src/parser.ts:23 | "/skills react" is the command "skills" with the argument "react" |
| Parser.ParseMessage | packages/tui/src/parser.ts:24 | "tell me about forwheel" is a message |
| Parser.ParseCapitalisedCommand | packages/tui/src/parser.ts:35-36 | the command name is lower-cased and the arguments keep their case |
| Parser.ParseEmpty | packages/tui/src/parser.ts:46-50 | the empty line is the message "" |
| Parser.ParseLoneSlash | packages/tui/src/parser.ts:35 | "/" alone is a command with the empty name and no arguments |
| Parser.ParsePaddedCommand | packages/tui/src/parser.ts:12 | "  /help  " is trimmed first and parses as "/help" |
| Parser.ControlRemovedBeforeTruncation | packages/tui/src/parser.ts:12 | control characters are removed before truncating, so 1000 of them before "hi" leave "hi" |
| Parser.SanitizeTruncatesBeforeTrimming | packages/tui/src/parser.ts:12 | truncation comes before trimming: leading white space counts towards the 1000-character limit |
| Parser.TruncationBeforeTrimming | packages/tui/src/parser.ts:12 | 999 spaces followed by "ab" parse as the message "a" |
| CommandDispatcher.CommandDefinition | packages/tui/src/dispatcher.ts:4-14 | a definition has a name, a description, a usage line and a handler from the arguments to the reply |
| CommandDispatcher.InvalidCommandReply | packages/tui/src/dispatcher.ts:65 | the reply to a name that fails validation: "Invalid command." followed by the help hint |
| CommandDispatcher.IsValidCommandName | packages/tui/src/dispatcher.ts:16-25 | a name is valid exactly when it has 1 to 32 characters, all lower-case ASCII letters, digits or hyphens |
| CommandDispatcher.ValidNameIsLowerCase | packages/tui/src/dispatcher.ts:16-25 | a valid name equals its own lower-case form and holds no white space or control character |
| CommandDispatcher.UnknownCommandReply | packages/tui/src/dispatcher.ts:69 | the reply starts with "Unknown command: /", then names the command, then ends with the help hint |
| CommandDispatcher.RepliesDistinct | packages/tui/src/dispatcher.ts:64-70 | the invalid-command reply differs from every unknown-command reply, and an unknown-command reply determines its command |
| CommandDispatcher.ListingNames | packages/tui/src/dispatcher.ts:74-76 | a listing taken along the insertion order has one entry per key, distinct names, and every key's name |
| CommandDispatcher.Dispatcher.constructor | packages/tui/src/dispatcher.ts:55-56 | a new dispatcher starts with an empty registry that satisfies the invariant |
| CommandDispatcher.Dispatcher.Register | packages/tui/src/dispatcher.ts:59-61 | the definition is stored under its name, replacing any earlier one; a new name goes to the end of the order and an existing name keeps its place; the invariant is kept |
| CommandDispatcher.Dispatcher.Execute | packages/tui/src/dispatcher.ts:63-72 | an invalid name gets the invalid-command reply before any lookup; a valid unregistered name gets the unknown-command reply; a registered one gets its handler's reply to the arguments |
| CommandDispatcher.Dispatcher.GetCommands | packages/tui/src/dispatcher.ts:74-76 | the listing has one definition per registered name, in first-registration order, with distinct names, covering every registered name |
| CommandDispatcher.Dispatcher.HasCommand | packages/tui/src/dispatcher.ts:78-80 | true exactly when a definition is stored under exactly this name |
| CommandDispatcher.EmptyDispatcherReportsUnknown | packages/tui/src/dispatcher.ts:63-76 | an empty dispatcher answers "help" with the unknown-command reply and lists nothing |
| CommandDispatcher.InvalidNameIsHeldButRefused | packages/tui/src/dispatcher.ts:59-66 | a definition registered under an invalid name is held, but executing that name gets the invalid-command reply |
| CommandDispatcher.ReRegisteringReplaces | packages/tui/src/dispatcher.ts:59-76 | registering two definitions under one valid name leaves exactly the second, and its handler answers |
| CommandDispatcher.ListingFollowsRegistration | packages/tui/src/dispatcher.ts:59-76 | two names are listed in the order they were registered |
| Articles.IsMdxFile | apps/web/src/lib/articles.ts:48-50 | a name is an article source exactly when it ends in ".mdx" or in ".md" |
| Articles.ToSlug | apps/web/src/lib/articles.ts:44-46 | a name ending in ".mdx" loses that suffix; otherwise a name ending in ".md" loses that; any other name is unchanged |
| Articles.ToSlugOfExtension | apps/web/src/lib/articles.ts:44-46 | round trip: the slug of s + ".md" and of s + ".mdx" is s, so only one extension is removed |
| Articles.ToSlugStripsIffMdx | apps/web/src/lib/articles.ts:44-50 | `isMdxFile` holds exactly when taking the slug changes the name, and then the name is the slug plus ".md" or ".mdx" |
| Articles.LowerSafe | apps/web/src/lib/articles.ts:53-54 | a lower-cased text matches the safe pattern exactly when the text is non-empty and made of ASCII letters of either case, digits and hyphens |
| Articles.NormalizeSlug | apps/web/src/lib/articles.ts:52-58 | succeeds exactly when the trimmed slug is non-empty and made of ASCII letters, digits and hyphens, and then yields the trimmed slug lower-cased; otherwise fails with "Invalid slug: " and the slug as given |
| Articles.NormalizeSlugIdempotent | apps/web/src/lib/articles.ts:52-58 | a normalised slug normalises to itself |
| Articles.ReadMinutes | apps/web/src/lib/articles.ts:38-39 | the minutes m satisfy words <= 180·m < words + 180, that is, m is the ceiling of words / 180 |
| Articles.ReadTime | apps/web/src/lib/articles.ts:38-41 | the read time is a non-empty numeral of decimal digits, with no leading zero unless it is "0", followed by " min read", and the numeral's value is the minutes for the text's word count; these fix the string uniquely |
| Articles.ReadTimeOfWords | apps/web/src/lib/articles.ts:38-41 | for words joined by single spaces, the read time depends only on how many words there are |
| Articles.ReadTimeOfBlank | apps/web/src/lib/articles.ts:38-41 | a text without words reads in "0 min read" |
| Articles.ReadTimeAtBoundary | apps/web/src/lib/articles.ts:7-41 | 180 words read in "1 min read" and 181 in "2 min read" |
| Articles.ResolvePath | apps/web/src/lib/articles.ts:65 | `path.resolve` of a resolved directory and a separator-free name: the name after one separator, with none added when the directory is the root |
| Articles.Inside | apps/web/src/lib/articles.ts:66 | the containment guard: the path starts with the directory followed by the separator |
| Articles.Candidates | apps/web/src/lib/articles.ts:62 | the names tried for a slug are exactly slug + ".mdx" and then slug + ".md" |
| Articles.Lookup | apps/web/src/lib/articles.ts:64-74 | the first name, in order, whose resolved path passes the guard and exists, or nothing; its properties are `Articles.LookupSound` and `Articles.LookupOrder` |
| Articles.LookupSound | apps/web/src/lib/articles.ts:64-74 | what is found is the resolved path of a candidate, exists and passes the containment guard; nothing is found exactly when no candidate does |
| Articles.ResolvedInside | apps/web/src/lib/articles.ts:65-68 | below a directory that is not the root, every candidate passes the containment guard |
| Articles.LookupOrder | apps/web/src/lib/articles.ts:62-74 | below such a directory, "slug.mdx" wins if it exists, else "slug.md" if it exists, else nothing is found |
| Articles.LookupAtRoot | apps/web/src/lib/articles.ts:65-68 | with the root as the content directory, the guard rejects every candidate of a safe slug; the source's directory (articles.ts:6, 8) is never the root, so there the guard never fires |
| Articles.ResolveArticlePath | apps/web/src/lib/articles.ts:60-75 | an invalid slug is an error raised before any lookup; otherwise the result is the first candidate, in the order ".mdx" then ".md", that passes the guard and exists, or nothing |

## Left out

- Unicode case mapping: `toLowerCase` is modelled for ASCII letters only. JavaScript also lower-cases other letters, and some of them become ASCII. For example, the Kelvin sign U+212A lower-cases to "k". So in the source a slug or command holding such a letter can pass the safe pattern, and the model does not capture that.
- UTF-16: JavaScript strings are sequences of UTF-16 code units. The model works on Unicode scalar values, so the 1000-unit limit of `slice(0, 1000)` is counted in characters, and input holding astral characters can be cut at a different place. (The 32-unit name limit is unaffected: a name matching `/^[a-z0-9-]+$/` is ASCII, and an astral name fails the pattern both in the source and in the model.)
- Aliasing of definitions: `register` stores the caller's object, and `getCommands` returns those same objects (`Array.from` copies only the array, packages/tui/src/dispatcher.ts:60, 75). A caller who later changes `name` or `handler` on a registered object changes the registry. The model treats definitions as immutable values, so the invariant that every definition is stored under its own name holds in the source only while no registered definition is mutated.
- Asynchrony and failures of handlers: a handler is a total function from arguments to a reply. A returned `Promise`, the `await`, and a handler that throws or rejects (which `execute` passes on to its caller) are not modelled.
- `getAllArticles` and the I/O half of `getArticleBySlug` call `fs`, `gray-matter` and React's `cache`. Those are foreign library and filesystem calls. The "Article not found" error built on a null path is left out with them.
- `formatDate` and the sort by date: they rely on locale-dependent `Date` parsing and floating-point timestamps.
- The markup-stripping chain of `calculateReadTime` (apps/web/src/lib/articles.ts:30-36) is not modelled. It is a series of lazy regular-expression replacements. `Articles.ReadTime` takes the text after that chain and counts its words the way `split(/\s+/).filter(Boolean)` does. The final whitespace-collapse and `trim` steps of the chain are also left out.
- `Math.ceil` of a floating-point division is modelled as exact integer ceiling division. The two agree for every word count a document can have.
- `path.resolve` is modelled only for a resolved directory and a file name without separators. The name is appended after one separator, and none is added when the directory already ends in one (the root). A slug that passes normalisation never holds a separator or a dot segment, so this covers every call the source makes. Windows separators and relative directories are not modelled.
- The content directory and the set of existing files are parameters. The source reads them from `process.cwd()` and `fs.existsSync`.
- The rest of the repository (pages, components, visual effects, styling, configuration) is not part of this model.
