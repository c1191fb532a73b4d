# qa-bot dialogue plugin, modelled in Dafny

This project models the core of the `qa` plugin of a chat bot. The plugin is a knowledge base of
question/answer pairs called *dialogues*. The model covers three source files.

- `src/plugins/qa/search.ts`:
  - the `qa.status` reply;
  - the `dialogue/execute` listener that turns a `qa` command with the `search` option into a search;
  - `showSearch` and the answer formatter (`formatAnswer`, `getDetails`, `formatDetails`,
    `formatPrefix`, `formatAnswers`, `formatQuestionAnswers`);
  - the `dialogue/search` listener. When an answer is a reference `%{dialogue <question>}`, this
    listener fetches the dialogues of the referenced question. It attaches them as redirections
    and memoises every fetched question in a per-search question map, so a cycle ends.
- `src/plugins/qa/internal.ts`:
  - the `qa` command's check hook, which normalises the question and answer arguments;
  - the regular-expression and creation validators;
  - the modify hook and the flag hooks (flag options to test fields, to query clauses and to
    flag updates);
  - the interpolation guard;
  - the base query builder. For a question or original, it chooses between a pattern match and
    a literal match, or an OR of both keyed on the dialogue's `regexp` flag bit.
- `src/plugins/qa/index.ts`:
  - the two `parse` listeners. The first recognises the shorthand `#<ids>`, `##` and `## words`
    through the pattern `^P(L?)((G(,G)*)?|L?)$`. The second recognises the word `搜索`;
  - the `qa` action's `validate || execute || create` chain.

Modules:

- `Wrappers`: an Option type.
- `Text`: JavaScript string operations the source uses: `trim`, `join`, decimal rendering.
- `Dialogues`: the dialogue record and its flag word, command options and their truthiness,
  the test record, and the query language with its meaning.
- `SearchFormat`: the answer formatter.
- `SearchHandlers`: the status reply, `showSearch`, and the redirection resolver.
  The resolver is a class `SearchArgv` holding the question map.
- `QaInternal`: `internal.ts`. Its classes are `QaArgv` (argument checking), `DialogueRecord`
  (fields updated in place) and `QueryBuilder` (the query under construction).
- `QaIndex`: `index.ts`. Its class `ParseArgv` holds the argv the parse listeners rewrite.

Storage (`Dialogue.get`, `Dialogue.stats`) and the bot's event bus are outside the model.
Storage appears as a `fetch` function parameter and as the counts it reports. The event bus
becomes ordered calls.

Where the code and the design disagree, the model follows the code:

- The shorthand pattern is matched against the first token only. `##问题` written as one
  token is therefore not a shorthand and the listener declines; `## 问题` is a search.
  `#你好` also declines in this listener (`QaIndex.ShorthandBareAndText`).
- Registering a flag does not check for a duplicate name or a full flag word. The flag bits are
  fixed by the dialogue type.
- The resolver drops the last character of a reference without checking that it is `}`
  (`SearchHandlers.ReferencedText`).

## Model

| member | source | states |
|---|---|---|
| SearchHandlers.StatusReplyReadsBack | src/plugins/qa/search.ts:47-50 | the status reply starts with its fixed head, and the question count can be read back from the digits that follow |
| SearchHandlers.StatusReplyInjective | src/plugins/qa/search.ts:47-50 | different (questions, dialogues) counts give different status replies, zero/zero included |
| SearchHandlers.Execute | src/plugins/qa/search.ts:57-60 | the execute listener takes over the command exactly when the `search` option is truthy, and then answers with the search reply |
| SearchHandlers.SearchTest | src/plugins/qa/search.ts:187-195 | the search test forces pattern matching and has no flag clauses. Its question is the first argument and its answer the second, each present iff that argument exists. Its original is the `original` option, and it carries `searchQuestionAnswer` iff that option is truthy |
| SearchHandlers.SearchSelects | src/plugins/qa/search.ts:194 | under the built-in test listener, a search selects a dialogue iff its answer matches the second argument and its original matches the `original` option, both case-insensitively and each only when given. The first argument plays no part |
| SearchHandlers.ShowSearchNotFound | src/plugins/qa/search.ts:198-215 | the reply starts with the not-found wording iff storage returned no dialogue |
| SearchHandlers.ShowSearchLists | src/plugins/qa/search.ts:198-220 | a non-empty result is the title line, a line feed, then one entry per dialogue in storage order |
| SearchHandlers.ReferencedTextOfDirective | src/plugins/qa/search.ts:80-83 | `%{dialogue q}` is recognised as a reference, and the text read back from it is `q` without leading white space |
| SearchHandlers.RedirectTest | src/plugins/qa/search.ts:86-88 | a redirect fetch uses the search's own test with only question and original replaced by the stripped reference |
| SearchHandlers.InheritedNameSkipped | src/plugins/qa/search.ts:84 | as written, the `in` test on the question-map object reports `constructor` as known though no search stored it, so a reference to that question is never followed |
| SearchHandlers.ExtendsTransitive | src/plugins/qa/search.ts:84-90 | the way the question map grows (keys only added, old entries kept, every new key fetched once) composes over successive steps |
| SearchHandlers.AllResolvedMeans | src/plugins/qa/search.ts:78-95 | a resolved list keeps every dialogue except for its redirections, leaves non-references unchanged, and has every reference's key in the question map |
| SearchHandlers.ResolveOne | src/plugins/qa/search.ts:78-95 | one turn of the loop keeps the dialogue apart from its redirections, keeps every entry already in the map, and leaves a reference's key in the map |
| SearchHandlers.ResolveAll | src/plugins/qa/search.ts:78-95 | the loop over a list keeps every dialogue apart from its redirections and keeps every entry already in the map |
| SearchHandlers.Search | src/plugins/qa/search.ts:73-97 | the listener keeps the dialogues apart from their redirections. On first use, it stores the resolved list under `String(test.question)`; otherwise it keeps every existing entry |
| SearchHandlers.ResolveAllAt | src/plugins/qa/search.ts:78-95 | position `j` of the resolved list is `ds[j]` resolved on the map left by the dialogues before it, which is the order of the `for … of` loop |
| SearchHandlers.ResolveAllPrefixKept | src/plugins/qa/search.ts:84-90 | an entry stored during the loop stays unchanged until the loop ends |
| SearchHandlers.ResolveAllMeans | src/plugins/qa/search.ts:80-94 | a dialogue is left alone iff it is no reference or its key was stored before its turn. Otherwise, the dialogues fetched with the retargeted test are resolved in turn on the map that holds them and attached, and they are what the final map holds under the key |
| SearchHandlers.RepeatedReferenceSkipped | src/plugins/qa/search.ts:84 | a question is fetched at most once per search: a later dialogue that references the same question as an earlier one is left alone |
| SearchHandlers.SearchArgv.OnSearch | src/plugins/qa/search.ts:73-97 | the listener's new annotations and question map are exactly `Search` of the old map. It also seeds the map under `String(test.question)` on first use, never fetches a key twice, and terminates because each fetch adds a new key of a finite corpus |
| SearchHandlers.SearchArgv.ResolveEach | src/plugins/qa/search.ts:78-95 | the loop's annotations and question map are exactly `ResolveAll` of the map it started from, and every dialogue is resolved relative to that map |
| SearchHandlers.SearchArgv.Resolve | src/plugins/qa/search.ts:78-95 | the returned dialogue and the new question map are exactly `ResolveOne` of the old map. A dialogue is left alone when its answer is not a reference or its key is already known. Otherwise the fetched dialogues are stored, resolved recursively and attached as its redirections |
| SearchFormat.FirstLine | src/plugins/qa/search.ts:102-105 | the first line exists iff the answer contains `\r\n`, `\n` or `$n`; it is the text before the leftmost break |
| SearchFormat.FirstLineOfExtension | src/plugins/qa/search.ts:102-105 | appending text after a break does not change the first line |
| SearchFormat.ReplaceImagesIdentity | src/plugins/qa/search.ts:108 | text without a `[CQ:image,…]` code is not changed by the image replacement |
| SearchFormat.ReplaceImagesRemovesCodes | src/plugins/qa/search.ts:108 | after the replacement no image code is left |
| SearchFormat.Ellipsize | src/plugins/qa/search.ts:113-119 | a cut answer ends in two U+2026 characters, is the original followed only by U+2026, and gains at most two characters (one when it already ended in one, none when it already ended in two) |
| SearchFormat.PreviewText | src/plugins/qa/search.ts:102-107 | the formatted text holds no line feed, and a single-line answer is taken whole |
| SearchFormat.Truncate | src/plugins/qa/search.ts:109-112 | the cut text is a prefix of at most 100 characters, and it is unchanged iff the text fits |
| SearchFormat.RenderAnswer | src/plugins/qa/search.ts:100-121 | the step-by-step `formatAnswer` computes exactly the composed formatter |
| SearchFormat.FormatAnswerUnchanged | src/plugins/qa/search.ts:100-121 | a single-line answer of at most 100 characters without image codes is shown unchanged |
| SearchFormat.FormatAnswerMarksCut | src/plugins/qa/search.ts:109-119 | a multi-line or over-long answer ends in the ellipsis, and any other answer is shown with only its images replaced |
| SearchFormat.FormatAnswerLength | src/plugins/qa/search.ts:109-119 | a formatted answer is never longer than 100 characters plus the two-character ellipsis |
| SearchFormat.FormatAnswerFirstLineOnly | src/plugins/qa/search.ts:102-107 | whatever follows the first break does not change the formatted answer |
| SearchFormat.FormatAnswerSingleLine | src/plugins/qa/search.ts:100-121 | a formatted answer never contains a line feed |
| SearchFormat.FormatAnswerNoImageCode | src/plugins/qa/search.ts:108-112 | a formatted answer never contains an image code, even after truncation |
| SearchFormat.TagRegexp | src/plugins/qa/search.ts:67-71 | the detail hook labels the question type `正则` exactly when the regexp flag bit is set and changes nothing else |
| SearchFormat.FormatDetailsReadsBack | src/plugins/qa/search.ts:132-137 | a detail prefix starts with the dialogue id in decimal, which can be read back, followed by `. `. It ends right there iff there are no tags, and otherwise ends with a `[…] ` tag list |
| SearchFormat.DigitRunOfPrefix | src/plugins/qa/search.ts:132-137 | the digits rendered for an id are delimited by the following non-digit |
| SearchFormat.FormatAnswers | src/plugins/qa/search.ts:151-164 | `formatAnswers` gives exactly one entry per dialogue |
| SearchFormat.AnswerEntryLines | src/plugins/qa/search.ts:151-164 | each entry is its own line followed by the lines of its redirection tree, read top-down, joined by line feeds |
| SearchFormat.FormatAnswersAt | src/plugins/qa/search.ts:151-164 | the i-th entry formats the i-th dialogue |
| SearchFormat.EntryLinesCount | src/plugins/qa/search.ts:62-65 | an entry has exactly one line per dialogue of its redirection tree |
| SearchFormat.EntryLinesIndented | src/plugins/qa/search.ts:62-65 | every line of an entry starts with the list prefix, and the redirection lines are indented by one more `= ` |
| SearchFormat.FlattenSize | src/plugins/qa/search.ts:62-65 | the redirection lines number as many as the redirection trees have dialogues |
| SearchFormat.FormatQuestionAnswers | src/plugins/qa/search.ts:166-184 | one entry per dialogue, each its question line followed by the redirections pushed by `dialogue/list` |
| QaInternal.NormalizeArgument | src/plugins/qa/internal.ts:17-22 | an argument is dropped iff it is missing, empty, `~`, `～` or blank after trimming; otherwise it is trimmed, with no white space left at either end |
| QaInternal.HasNonFaceCode | src/plugins/qa/internal.ts:26-30 | the check finds a CQ code iff the question contains `[CQ:` not followed by `face` |
| QaInternal.CheckOutcomes | src/plugins/qa/internal.ts:16-37 | the check rejects iff there are more than two arguments, leaving the surplus ones. Otherwise it rejects iff the normalised question holds a non-face CQ code. A rejection leaves the options alone. An accepted call sets `args` to the parsed question and the normalised answer, or to nothing when both are empty. It adds exactly `appellative` and `original`, both from the stripped question, and leaves every other option unchanged |
| QaInternal.QaArgv.ParseArgument | src/plugins/qa/internal.ts:17-22 | `parseArgument` takes the first argument off the list, and returns it normalised as `NormalizeArgument` says |
| QaInternal.QaArgv.Check | src/plugins/qa/internal.ts:16-37 | the check listener on the argv returns the message and leaves exactly the arguments and options `CheckSpec` gives |
| QaInternal.CheckedQuestions | src/plugins/qa/internal.ts:51 | the questions checked are the new question when one is given, and otherwise the questions of the edited dialogues, in order |
| QaInternal.ValidatePatternsCases | src/plugins/qa/internal.ts:39-58 | the pattern validator only ever answers with the bad-pattern message. It never objects when every question is a valid pattern, or when `regexp` is explicitly false. With `regexp` set, it objects iff the new question, or else one of the edited dialogues' questions, is not a valid pattern. With `regexp` unset and not false, it objects iff a new question is given, some edited dialogue has the regexp bit, and the new question is not a valid pattern |
| QaInternal.ValidateCreateAccepts | src/plugins/qa/internal.ts:60-72 | the create validator lets an edit through iff it is not a creation, has a target, or gives both question and answer. It answers with the usage text iff a creation without target has no argument at all, and with the missing-question-or-answer message iff such a creation has arguments but lacks the question or the answer |
| QaInternal.UpdateBit | src/plugins/qa/internal.ts:104-108 | updating a flag bit sets or clears exactly that bit and keeps every other bit |
| QaInternal.UpdateBitLaws | src/plugins/qa/internal.ts:104-108 | of two updates of the same bit the last one wins, and writing back a bit's own value changes nothing |
| QaInternal.UpdateBitCommutes | src/plugins/qa/internal.ts:99-108 | updates of different flags commute, so the order of the flag hooks does not matter |
| QaInternal.ModifiedChanges | src/plugins/qa/internal.ts:74-88 | the modify hook writes a given answer and keeps the answer otherwise. A given question is written together with the `original` option, and otherwise both are kept. It changes only the regexp bit, and only when that option is defined, to the option's value. Applying the same edit twice is applying it once |
| QaInternal.FlagModified | src/plugins/qa/internal.ts:104-108 | a flag's modify hook changes only the flag word, and only that flag's bit. It does so only when the option is defined, and then the bit reads as the option's value |
| QaInternal.DialogueRecord.ApplyModify | src/plugins/qa/internal.ts:74-88 | on the stored record, the modify hook leaves exactly the fields `Modified` gives |
| QaInternal.DialogueRecord.ApplyFlag | src/plugins/qa/internal.ts:104-108 | on the stored record, a flag's modify hook leaves exactly the flag word `UpdateBit` gives |
| QaInternal.InterpolationGuard | src/plugins/qa/internal.ts:121-125 | the guard objects iff the command is marked `noInterp` and the session was redirected from a taught answer, and its message ends with the command's name |
| QaInternal.RedirectionDetail | src/plugins/qa/internal.ts:90-97 | the detail listener pushes nothing iff the dialogue has no redirections. Otherwise it pushes the heading `重定向到：` and one entry per redirection, each starting with that redirection's id |
| QaInternal.EntryStartsWithId | src/plugins/qa/search.ts:171-182 | an unprefixed `formatQuestionAnswers` entry starts with its dialogue's id followed by `. ` |
| QaInternal.FlagSearchTest | src/plugins/qa/internal.ts:100-102 | a flag's before-search hook copies that flag's option into the test (removing it when undefined) and leaves every other field and flag of the test alone |
| QaInternal.FlagRoundTrip | src/plugins/qa/internal.ts:99-118 | a flag option copied into the test and compiled into a query selects a dialogue iff its bit agrees with the option, set and clear alike |
| QaInternal.FlagClauseMeaning | src/plugins/qa/internal.ts:111-118 | the clause a flag adds selects exactly the dialogues whose bit matches the test's value for the flag |
| QaInternal.BaseQueryMeaning | src/plugins/qa/internal.ts:137-157 | the base query selects a dialogue iff the question, answer and original constraints hold. With `regexp` unset the original is an OR of a pattern match on regexp-flagged records and literal question equality on the others |
| QaInternal.QueryBuilder.TestBase | src/plugins/qa/internal.ts:137-157 | the base test hook sets the pattern fields when `regexp` is true. Otherwise it sets the literal answer, the literal question when `regexp` is false, and with `regexp` undefined and an original it pushes the `$or` of question alternatives |
| QaInternal.QueryBuilder.TestFlag | src/plugins/qa/internal.ts:111-118 | a flag's test hook appends the flag's clause to `$and` when the test defines the flag, and changes nothing otherwise |
| QaInternal.Compile | src/plugins/qa/internal.ts:111-157 | the query built by the base hook and every flag hook selects a dialogue iff the base constraints hold and every flag of the test agrees with its bit |
| QaInternal.PatternTestIgnoresQuestion | src/plugins/qa/internal.ts:138-142 | with `regexp` set, selection does not depend on the dialogue's stored question |
| QaInternal.LiteralTestFixesQuestion | src/plugins/qa/internal.ts:144-145 | with `regexp` false, a selected dialogue has exactly the test's question |
| QaIndex.MatchIdListExact | src/plugins/qa/index.ts:28-33 | the scanner accepts exactly the comma-separated lists of ids and `a..b` ranges of the pattern's group |
| QaIndex.SingleIdRead | src/plugins/qa/index.ts:28-33 | one id is read to the end of its digits |
| QaIndex.IdRangeRead | src/plugins/qa/index.ts:28-33 | an id range is read as two digit runs around `..` |
| QaIndex.MatchQaComplete | src/plugins/qa/index.ts:28-33 | every way the pattern `^P(L?)((G(,G)*)?|L?)$` can match is found by the matcher |
| QaIndex.MatchQaGreedy | src/plugins/qa/index.ts:28-33 | a match starts with the prefix, its first group is empty or the last prefix character, and its second group is empty, an id list or that character, as the pattern's preferences choose |
| QaIndex.ShorthandOutcome | src/plugins/qa/index.ts:36-62 | the shorthand listener declines iff the message quotes the bot, there is no token, or the first token does not match. Otherwise it drops that token and takes the session text: `qa.status` for the doubled prefix alone, a search for it followed by words, a target iff the id group is neither empty nor the last character |
| QaIndex.SearchWord | src/plugins/qa/index.ts:64-78 | the search-word listener fires iff the first token is `搜索`; alone it gives `qa.status` with no tokens and empty options; with words it is a search of question and answer |
| QaIndex.ParseArgv.ParseShorthand | src/plugins/qa/index.ts:36-62 | on the argv, a declined shorthand changes nothing, and a parsed one leaves the tokens, source and options `Shorthand` gives |
| QaIndex.ParseArgv.ParseSearchWord | src/plugins/qa/index.ts:64-78 | on the argv, the search word leaves the tokens, source and options `SearchWord` gives, and nothing when it declines |
| QaIndex.ParseArgv.Parse | src/plugins/qa/index.ts:36-78 | the listeners run in registration order and the first that names a command decides |
| QaIndex.ShorthandFirst | src/plugins/qa/index.ts:36-78 | the search word is only read when the shorthand declines, and it is then recognised |
| QaIndex.ShorthandTargets | src/plugins/qa/index.ts:50-62 | with prefix `#`, `#1,3..5` is the command `qa` with target `1,3..5` |
| QaIndex.ShorthandStatusAndSearch | src/plugins/qa/index.ts:48-53 | with prefix `#`, `##` alone is `qa.status` and `##` followed by words is a search of those words |
| QaIndex.ShorthandTriple | src/plugins/qa/index.ts:48-62 | `###` is the doubled prefix followed by the last character, so it gives `qa.status` with no target |
| QaIndex.ShorthandBareAndText | src/plugins/qa/index.ts:36-62 | a bare `#` opens `qa` with no options, and `#你好` is not a shorthand |
| QaIndex.QaAction | src/plugins/qa/index.ts:114-118 | a validator's message wins, then an executing listener's reply, then creation |
| QaIndex.ShorthandSearchRunsSearch | src/plugins/qa/index.ts:48-53 | `## words` leads through the `qa` action to the search reply, unless a validator objects |

## Left out

- Storage (`Dialogue.get`, `Dialogue.stats`, `Dialogue.create`, `Dialogue.update`) is not part of the model. A fetch is a function parameter `fetch`, and the status reply takes the two counts as inputs.
- The bot's event bus (`ctx.on`, `ctx.emit`, `ctx.parallel`, `ctx.bail`) becomes ordered calls of the listeners. `dialogue/search` listeners awaited in parallel are modelled one after the other.
- JavaScript regular expressions are not modelled. Whether a stored pattern is valid and whether a pattern matches a text are an uninterpreted oracle. The test listener's `new RegExp(answer, 'i')` and `new RegExp(original, 'i')` (internal.ts:139-140) throw on an invalid pattern, so a search for `(` fails in the source; QaInternal.Compile and QaInternal.QueryBuilder.TestBase always return a query and do not model that throw. `escapeRegExp` becomes literal matching of the prefix.
- `_stripQuestion` (the question stripper of the dialogue module) is an uninterpreted function parameter returning the parsed and original text.
- The numeric values of `Dialogue.Flag` come from the dialogue type, which is not part of this model. `regexp` is taken as bit 1 (mask 2). The flag word is modelled as the set of its bits, so no bit is lost to integer width.
- `transformAssets` and the logger (`src/plugins/qa/internal.ts:127-135`) are not modelled: they perform I/O on assets.
- `Argv.revert` on the remaining tokens is not modelled. Tokens are plain strings in the model.
- The configuration merge, command registration, user-field requests and the `qaHistory` property definition of `src/plugins/qa/index.ts` and `src/index.ts` set up the bot and compute nothing.
- The output pushed by the `dialogue/list` and `dialogue/detail-short` listeners is modelled as returned lines, not as pushes into a shared array.
- QaInternal.DialogueRecord.ApplyFlag: reads a flag option by its truthiness. The source computes `+value * mask`, which differs only for non-boolean option values, and flag options are declared boolean.
- QaInternal.Modified: reads the `regexp` option by its truthiness in the same way (internal.ts:81-82), and so does QaInternal.DialogueRecord.ApplyModify, which stores `Modified`.
- QaInternal.DialogueRecord.ApplyModify: requires `original` to be a string when a question is given. The check listener always sets it before the modify hook runs.
- QaIndex.MatchQa: requires a non-empty prefix. The default prefix is `#`, and `prefix[prefix.length - 1]` has no meaning for an empty one.
- `_redirections` is an empty sequence, not `undefined`, for a dialogue that was not resolved. The formatter treats both alike.
- Strings are sequences of characters: UTF-16 surrogate pairs, which count twice in `length` and `slice`, are not modelled.
- The commented-out `help` branch of the shorthand listener (`src/plugins/qa/index.ts:53-55`) has no effect and is not modelled.

## Findings

| source | as written | input that shows it | evidently intended | confidence | as-written member | corrected member |
|---|---|---|---|---|---|---|
| src/plugins/qa/search.ts:84 | `parsed in argv.questionMap` tests a plain object, so names inherited from `Object.prototype` count as known keys | a dialogue whose answer is `%{dialogue constructor}` and whose referenced question parses to `constructor` is never followed | an own-key test (`Object.hasOwn` or a `Map`), so only questions fetched in this search are skipped | medium, not executed | SearchHandlers.InheritedNameSkipped | SearchHandlers.SearchArgv.Resolve |
