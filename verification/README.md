# github-inspector-telegram: the bot's text core in Dafny

This project models the text-processing core of a Telegram bot. The bot
answers two chat commands with data about GitHub repositories:

- `/search <repo> [lang:<l>] [author:<a>]` looks up one repository and
  replies with a five-line summary of it.
- `/trend <topic>` looks up today's trending repositories. It shuffles them,
  keeps at most five, renders each, and sends them joined into one message.

The repository has two variants of the webhook. `telegram.go` is the current
one. `telegram_experiment.go` is an experimental variant: it accepts only `/search
<topic>`, treats the rest of the text as a trending topic without trimming
it, and sends up to ten items one message each. Both files declare the same
Go identifiers, so each is modelled in its own module.

Modules, in dependency order:

- `Results` (`results.dfy`): the `Option` and `Result` wrappers.
- `Strings` (`strings.dfy`): the parts of Go's `strings`, `strconv` and RE2
  character classes the bot uses, over ASCII text.
  - `TrimSpace` is specified by "white space around a trimmed middle".
  - `Join` comes with the offset of every element and separator.
  - `Decimal` (`strconv.Itoa`) comes with its read-back `DigitsValue`.
- `Services` (`services.dfy`): what the bot does not contain.
  - A `RepoRecord` holds the five fields the template reads.
  - A `World` holds the GitHub lookups, the shuffle and the outcome of each
    `sendMessage` call. The handlers return the trace of `Effect`s they
    cause.
- `Params` (`params.dfy`): `ExtractParams`, `extractRepo` and
  `extractOptionalParam`.
  - The three fixed regular expressions each get their own matcher, written
    to RE2's leftmost-first semantics: `MatchRepo` and `MatchQualifier` with
    `Lang` / `Author`.
  - Each matcher comes with a declarative "some split of the text matches,
    and it is the preferred one" definition, and is proved equal to it.
- `ParamsExamples` (`params_examples.dfy`): the extraction results for every
  command shape of the table test, proved for all names and values, plus the
  table rows themselves.
- `Telegram` (`telegram.dfy`):
  - `sanitize`, the command dispatch and the reply template;
  - the trending selection and its single joined message;
  - the webhook handler as a trace of calls.
- `Experiment` (`experiment.dfy`):
  - the strict `sanitize`;
  - the render-everything, send-up-to-ten loop that carries on past errors;
  - that variant's handler.

Three behaviours of the code worth noting:

- The trending path of `telegram.go` stops at the first record the template
  engine fails on. It does not skip the record and carry on.
- A record cannot lack a template field: Go structs always have every field.
  So rendering one record never fails, and `Render` is total.
- The experiment passes the text after `/search` to the trending lookup
  untrimmed, leading space included.

## Model

| member | source | states |
|---|---|---|
| Params.ExtractParams | telegram.go:260-279 | On failure all three strings are empty and the error is "repo not found" for the trimmed text. On success the repo is a non-empty `[A-Za-z0-9_-]` run, `lang` is `\w*`, and `author` is empty or a name. |
| Params.ExtractParamsSpec | telegram.go:260-279 | Extraction succeeds exactly when the repo pattern matches the trimmed text. The three results are then the repo capture and the two qualifier values defined declaratively. |
| Params.ExtractParamsCharacterized | telegram.go:260-279 | `ExtractParams(s)` returns `(n, l, a)` without error if and only if `n`, `l` and `a` are the declarative captures of the three patterns on `TrimSpace(s)`. |
| Params.ErrorMessage | telegram.go:284-333 | "repo not found in " is followed by exactly the searched text. " option not supported" is preceded by exactly the parameter name. |
| Params.ErrorMessageInjective | telegram.go:284-333 | Two errors of the same kind have the same message exactly when they are the same error. |
| Params.ExtractRepo | telegram.go:284-297 | A success is a non-empty name; a failure carries the text searched in. |
| Params.MatchRepo | telegram.go:35 | A repo capture is a non-empty run of `[A-Za-z0-9_-]`. |
| Params.MatchRepoSpec | telegram.go:35 | The matcher fails exactly when no end position satisfies `^/search\s[A-Za-z0-9_-]+`. Otherwise it returns the capture with the greatest such end, as the greedy `+` does. |
| Params.MatchRepoAgrees | telegram.go:35 | `MatchRepo(s) == Some(v)` if and only if `v` is the declarative repo capture of `s`. |
| Params.RunEnd | telegram.go:35-37 | A greedy class run stops at the first character outside the class, and every character before it is inside. |
| Params.RunEndUnique | telegram.go:35-37 | Any end position with those two properties is the one `RunEnd` finds. |
| Params.ExtractOptionalParam | telegram.go:302-333 | `lang` always succeeds with a `\w*` value. `author` always succeeds with an empty value or a name. Any other parameter gives the "option not supported" error. |
| Params.LastKey | telegram.go:36-37 | Scanning down from `k`, this finds the last usable qualifier key: no usable key lies above the one returned, and when none is returned there is none at all. |
| Params.AcceptedKey | telegram.go:36-37 | Every accepted split of the qualifier pattern puts a usable key at its key position, with white space before it. |
| Params.LastKeyPreferred | telegram.go:36-37 | The split built from the last usable key is the one leftmost-first matching with greedy `.*` prefers. |
| Params.MatchQualifier | telegram.go:36-37 | A qualifier value has at least the class's minimum length (0 for `lang`, 1 for `author`), and every character is in the class. |
| Params.MatchQualifierSpec | telegram.go:36-37 | The matcher fails exactly when no split is accepted. Otherwise its value comes from a preferred split. |
| Params.QualPreferredUnique | telegram.go:36-37 | The preferred split is unique. |
| Params.MatchQualifierSound | telegram.go:302-333 | The matcher's value, or "" when nothing matched, is the declarative qualifier value. |
| Params.MatchQualifierFound | telegram.go:36-37 | Given a preferred split, the matcher returns exactly the text that split captures. |
| Params.MatchQualifierComplete | telegram.go:302-333 | Any declarative qualifier value is what the matcher returns. |
| Params.MatchQualifierAgrees | telegram.go:36-37 | Matcher and declarative definition agree, in both directions. |
| Params.QualifierValueShape | telegram.go:36-37 | A declarative qualifier value is empty or long enough, and is made of class characters only. |
| Params.TrimSpaceKeepsText | telegram.go:261 | Trimming keeps text ASCII and free of newlines. |
| ParamsExamples.AppendQualifier | telegram.go:36-37 | Appending ` key value` adds a usable key only at the appended position, and only for the appended key. Every old key stays usable. |
| ParamsExamples.AppendOtherQualifier | telegram.go:36-37 | Appending one qualifier leaves the other qualifier's value unchanged. |
| ParamsExamples.AppendSameQualifier | telegram.go:36-37 | Appending ` key value` makes that value the qualifier's value: the last occurrence wins. |
| ParamsExamples.RepoAfterAppend | telegram.go:35 | Appending a qualifier does not change the repo capture. |
| ParamsExamples.SearchNameNoQualifier | telegram.go:36-37 | `/search <name>` has neither qualifier. |
| ParamsExamples.ParsedExtract | telegram.go:260-279 | For trimmed plain text, extraction returns the three matcher results, with a missing qualifier read as "". |
| ParamsExamples.ParsedAppendLang | telegram.go:268-271 | Appending ` lang:<l>` sets `lang` to `l` and keeps the repo and the author. |
| ParamsExamples.ParsedAppendAuthor | telegram.go:273-276 | Appending ` author:<a>` sets `author` to `a` and keeps the repo and `lang`. |
| ParamsExamples.OnlyRepo | telegram_test.go:25-33 | For every name `n`, `/search n` gives `(n, "", "")` without an error. |
| ParamsExamples.RepoAndLang | telegram_test.go:34-43 | For every `n` and `l`, `/search n lang:l` gives `(n, l, "")`. |
| ParamsExamples.RepoAndAuthor | telegram_test.go:44-53 | For every `n` and `a`, `/search n author:a` gives `(n, "", a)`. |
| ParamsExamples.LangThenAuthor | telegram_test.go:54-64 | `lang` before `author` gives `(n, l, a)`. |
| ParamsExamples.AuthorThenLang | telegram_test.go:65-75 | `author` before `lang` gives the same `(n, l, a)`: qualifier order does not matter. |
| ParamsExamples.LastLangWins | telegram.go:36 | With two `lang:` qualifiers, the later one is taken. |
| ParamsExamples.TableOnlyRepo | telegram_test.go:25-33 | The "only repo" row. |
| ParamsExamples.TableLang | telegram_test.go:34-43 | The "providing a lang" row. |
| ParamsExamples.TableAuthor | telegram_test.go:44-53 | The "providing an author" row. |
| ParamsExamples.TableLangFirst | telegram_test.go:54-64 | The "providing lang first" row. |
| ParamsExamples.TableAuthorFirst | telegram_test.go:65-75 | The "providing author first" row. |
| ParamsExamples.TableDashes | telegram_test.go:76-86 | Hyphens are kept in the repo and in the author. |
| ParamsExamples.BareSearchFails | telegram.go:284-297 | A command with no name fails with "repo not found", naming the trimmed text. |
| ParamsExamples.QualifierInRepoPosition | telegram.go:35-36 | In `/search lang:go` the repo pattern captures `lang`, and the `lang` pattern finds no white space before its key. |
| Strings.TrimSpace | telegram.go:169 | The result has no white space at either end and is no longer than the input. |
| Strings.TrimSpaceInfix | telegram.go:169 | What `TrimSpace` keeps is a contiguous part of the input, and what it drops is white space. |
| Strings.TrimSpaceOfPadded | telegram.go:169 | Any trimmed middle, padded with white space on both sides, trims back to that middle. |
| Strings.TrimSpaceIdempotent | telegram.go:169 | Trimming twice is the same as trimming once. |
| Strings.Join | telegram.go:211 | Joining no replies gives the empty string and joining one gives that reply unchanged. The layout of longer lists is `Strings.JoinLayout`. |
| Strings.Decimal | telegram.go:45 | The printed star count is a non-empty run of decimal digits with no leading zero, except for zero itself. |
| Strings.JoinLayout | telegram.go:211 | In `strings.Join`, element `i` sits at its offset, and the separator follows every element but the last. |
| Strings.DecimalRoundTrip | telegram.go:45 | Reading back the printed star count gives the count. |
| Telegram.Sanitize | telegram.go:164-178 | Text shorter than the command is the only error, "invalid command: " + text. With the command as prefix, the result is trimmed. Without it, the text comes back unchanged. |
| Telegram.SanitizeRoundTrip | telegram.go:164-178 | Command + spaces + trimmed topic + spaces sanitizes to the topic. |
| Telegram.SanitizeStripsOnlySpace | telegram.go:164-178 | After the command, the result occurs in the text with only white space before and after it. |
| Telegram.Classify | telegram.go:87-146 | Search is chosen exactly for the `/search` prefix, trend exactly for the `/trend` prefix, and nothing otherwise. |
| Telegram.CommandsDisjoint | telegram.go:87-119 | No text has both prefixes, so the order of the two cases does not matter. |
| Telegram.SearchPrefixWins | telegram.go:87-146 | `/searchfoo` takes the search path, `/trend golang` the trend path, and `/unknown foo` neither. |
| Telegram.Render | telegram.go:337-346 | The reply is never empty. |
| Telegram.RenderLayout | telegram.go:42-47 | Executing the template gives exactly its text with the five fields filled in, the stars in decimal. |
| Telegram.RenderStars | telegram.go:42-47 | The star count sits at a fixed offset in the reply and reads back as the count. |
| Telegram.RenderEnds | telegram.go:42-47 | The reply shows the full name right after the first line break and indent, and ends with the URL and a newline. |
| Telegram.RenderTestRecord | telegram_test.go:101-116 | The test record renders to a non-empty reply showing `danvergara/dblab` and 700 stars. |
| Telegram.RenderAll | telegram.go:189-202 | Rendering succeeds exactly when every record renders. It then gives one reply per record, in order. |
| Telegram.RenderAllFirstFailure | telegram.go:193-196 | A failure is the error of the first record that fails. |
| Telegram.FormatReposContentAndSend | telegram.go:182-220 | Visiting every record and rendering only indices `<= defaulRepoLen` gives the reference outcome: render the first `min(n, 5)` records, abort on an error, refuse an empty list, otherwise send one joined message. |
| Telegram.FormatAbortsOnRenderError | telegram.go:193-196 | A render error at a visited index is sent to the chat and returned. Nothing else is sent. |
| Telegram.FormatEmpty | telegram.go:204-206 | With no records, nothing is sent and the "try again later" error is returned. |
| Telegram.FormatSendsOnce | telegram.go:211-219 | With records, exactly one message is sent: the joined replies. The call succeeds exactly when that send does. |
| Telegram.TrendingMessageLayout | telegram.go:211 | The message holds each selected reply at its offset, in shuffled order, with the separator between neighbours. |
| Telegram.PermutationKeepsDistinct | telegram.go:187 | Reordering a list with no duplicates leaves none. |
| Telegram.SelectionFromShuffle | telegram.go:187-190 | The selection from any permutation of `n` records: `min(n, 5)` records, all drawn from the input, all of them when `n <= 5`, empty exactly when the input is, and no duplicates when the input has none. |
| Telegram.SearchEffects | telegram.go:90-116 | A `/search` makes at most three calls. The first is a lookup exactly when extraction succeeds, and then it carries the extracted repo, lang and author. Otherwise the error is the only message. Every later call is a message to the sender. |
| Telegram.TrendEffects | telegram.go:118-142 | A `/trend` call first looks up the trimmed text after the command. Every later call is a message to the sender. |
| Telegram.TrendSanitizes | telegram.go:119-124 | Text starting with `/trend` always sanitizes to its trimmed rest, so the error branch after `sanitize` is dead. |
| Telegram.TrendKeepsNewline | telegram.go:118-127 | `/trend go\nx` is looked up with the topic `go\nx`: a newline inside the topic is kept. |
| Telegram.HandleWebhook | telegram.go:87-146 | No effect at all exactly for ignored text. The search path starts with the lookup or the error reply. The trend path starts with the trending lookup. |
| Telegram.RepliesToSender | telegram.go:87-146 | Every message sent goes to the chat the update came from. |
| Telegram.SearchScenario | telegram.go:90-116 | For `/search <name>`, the lookup gets `(name, "", "")`. On success with a delivered reply, exactly one message follows: the rendered record. |
| Telegram.SearchDblab | telegram.go:90-116 | The `/search dblab` case from chat 42. The reply carries the record's full name. |
| Telegram.SearchRejected | telegram.go:92-97 | When extraction fails, only the error is sent, and no lookup is made. |
| Telegram.SearchLookupFails | telegram.go:99-104 | When the repository lookup fails, its error text is sent to the sender, and nothing else. |
| Telegram.SearchReplySent | telegram.go:107-115 | After a successful lookup the rendered reply is sent. When that send fails, its error text follows as a second message. |
| Telegram.TrendLookupFails | telegram.go:127-132 | When the trending lookup fails, its error text is sent to the sender, and nothing else. |
| Telegram.TrendMessageSent | telegram.go:134-139 | With trending records the joined message is sent. When that send fails, its error text follows as a second message. |
| Telegram.TrendScenario | telegram.go:118-142 | For `/trend <topic>` with more than five distinct records, one message goes to the chat. It holds five distinct records drawn from the lookup's result. |
| Telegram.TrendGolang | telegram.go:118-142 | `/trend golang` with eight candidates: five distinct records, all drawn from the eight, in one message. |
| Telegram.TrendNothingFound | telegram.go:118-142 | With no trending records, the chat is told to try again later. |
| Telegram.UnknownCommand | telegram.go:143-145 | `/unknown foo` causes no lookup and no message. |
| Experiment.Sanitize | telegram_experiment.go:106-119 | Succeeds exactly for text starting with `/search`. Anything else gets the usage message. |
| Experiment.SanitizeRoundTrip | telegram_experiment.go:106-119 | The command followed by the result is the original text: nothing is trimmed. |
| Experiment.SanitizeKeepsRest | telegram_experiment.go:108-109 | Whatever follows `/search` comes back unchanged, including leading white space. |
| Experiment.SanitizeExamples | telegram_experiment.go:106-119 | `/search go` gives `" go"`. `/trend go` and `/sear` are refused. |
| Experiment.Notices | telegram_experiment.go:128-141 | At most one error notice per item. |
| Experiment.NoticesEmpty | telegram_experiment.go:132-138 | A notice is sent exactly when some item fails to render. |
| Experiment.Contents | telegram_experiment.go:128-141 | One rendered text per item. Item `i`'s text is `Experiment.ContentsAt`. |
| Experiment.ContentsAt | telegram_experiment.go:128-141 | One rendered string per item, in input order, kept even when rendering failed. |
| Experiment.FailedItems | telegram_experiment.go:152-156 | The logged items are exactly those among the first `n` whose send failed. |
| Experiment.RenderItems | telegram_experiment.go:128-141 | The render loop gives the notices and the texts of all items, in order. |
| Experiment.SendItems | telegram_experiment.go:149-158 | The first `repoLen` texts are each sent once, in order, whatever earlier sends reported. |
| Experiment.FormatReposContentandSend | telegram_experiment.go:123-160 | The call always returns "all repos sent to chat" with no error. It sends the notices, then the first `min(n, 10)` items. The send outcomes change neither the reply nor what is sent. |
| Experiment.FormatSendCount | telegram_experiment.go:143-151 | The messages sent are the notices plus `min(n, 10)` items, and item `i` is the `i`-th rendered text. |
| Experiment.FormatCleanRun | telegram_experiment.go:143-158 | With no render error, only the capped items are sent. |
| Experiment.FormatCapsAtTen | telegram_experiment.go:143-147 | With more than ten items, only the first ten are sent. |
| Experiment.HandleWebhook | telegram_experiment.go:60-90 | Every call has an effect. The first one is the trending lookup exactly when the text starts with `/search`. |
| Experiment.SearchTopic | telegram_experiment.go:67-81 | `/search <rest>` looks up trending records for `rest` as it stands and sends the formatted items. |
| Experiment.SearchLookupFails | telegram_experiment.go:74-79 | When the trending lookup for the untrimmed rest fails, its error text is sent to the sender, and nothing else. |
| Experiment.OtherTextRefused | telegram_experiment.go:67-72 | Any other text gets only the usage message. |

## Left out

- Decoding the webhook JSON (`parseTelegramRequest`) is left out. The model
  starts from the message text and chat id.
- The HTTP side of `sendTextToTelegramChat` is left out: the POST, the bot
  token from the environment, and reading the response. Each send is an
  outcome `World.send(n)`, delivered or failed. Outcomes that are ignored in
  the code are ignored in the model.
- `github.GetRepository` and `github.GetTrendingRepos` are not part of this
  model. They are the oracles `World.findRepo` and `World.findTrending`.
- `rand.Seed` and `rand.Shuffle` are modelled as `World.shuffle`. Lemmas that
  rely on the shuffle assume only that it is a permutation (`ShufflesOnly`).
- The `text/template` engine is left out. For `telegram.go` the template is
  a constant with five field actions, modelled as the segments it prints.
  For the experiment, the engine on the file template is an uninterpreted
  `render` giving the buffer text and an optional error.
- Experiment.FormatReposContentandSend: the `ParseFiles` failure is not
  modelled. The code sends its error and then executes a nil template,
  which panics.
- Logging and the diagnostic text written to the HTTP response are left out.
  `fmt.Fprintf` and `log` change nothing the chat sees.
- `regexp.Compile` is left out. The three patterns are constants that
  compile, so its error return cannot happen. The patterns are matched by
  hand-written matchers, not by a regex engine.
- Params.ExtractParams: requires ASCII text without a newline.
  - On ASCII, `strings.TrimSpace` is just the six ASCII white-space
    characters, and byte and character indices agree.
  - Without a newline, the `.` of the patterns matches every character.
- Telegram.HandleWebhook: requires ASCII text, and no newline when the text
  starts with `/search`, because that path goes through `ExtractParams`.
  A `/trend` text may hold newlines. Telegram.Sanitize requires ASCII only,
  because Go compares lengths in bytes.
- Telegram.RenderStars: the offset counts characters, and the star emoji in
  the template is one character. In Go's UTF-8 string it is three bytes, so
  a byte offset would be two larger.
- Telegram.FormatReposContentAndSend: the `render` parameter stands for the
  template engine. The handler passes `TemplateRender`, which never fails.
  So the abort path exists in the model but is never taken by the handler.
- Experiment.HandleWebhook: the error branch after formatting is kept, but
  `Format` never returns an error, so that branch is dead, as in the code.
- `init` and the `functions.HTTP` registration are left out. They only
  register the handler.
