# Marble Zero achievement engine, in Dafny

Marble Zero is a terminal pet that watches the shell. A shell hook hands every
command line to `ingest`, which turns it into a `HistoryEvent`. The
achievement catalogue is a list of rules evaluated against the whole ordered
history, and a "show all" screen pages through it. This project models:

- the event parser `parse` of `ingest/ingest.go` (module `Ingest`, with its
  test cases in `IngestExamples`);
- the rule engine of `achievements/achievements.go`, in three modules:
  - `Conditions`: predicates on one event;
  - `Filters`: the combinators `and` and `or`;
  - `Rules`: the selectors `nth`, `first` and `times`, `trueFunc`, a sample of
    the catalogue, and the start-up name-length log;
- the older rule set of `achivements/achivements.go` (module `Achivements`);
- the paging of the "all achievements" screen in `achievements.go` and its
  copy `achivements.go` (module `Pagination`).

Every file of the project is one module. `events.dfy` holds the shared event
record. A timestamp is reduced to an abstract instant and its local hour.

The model follows the code as written, including where its behaviour is
surprising:

- the command line is split on the single character `' '`, not on
  whitespace, so two spaces make an empty token;
- an extension is the suffix after the last `.` when it is one or two bytes
  long in UTF-8 (Go's `len` and `strings.LastIndexByte` count bytes); its
  case is kept, so `é` (two bytes) counts and `🐍` (four bytes) does not;
- a dot-free token of one or two bytes (`go`, `-l`) counts whole as an
  extension;
- `parse` never fails: the empty line gives an event whose program is `""`;
- `or(c1, c2, ...)` is not a union. An event is emitted once for each
  condition of the longest prefix of conditions it satisfies, so it is
  dropped when it fails `c1`;
- `nth` counts from zero, so "Use Go 50 times" needs 51 uses;
- flags are recorded for `git`, so `git push --force` records `--force` as a
  flag. The package's own test expects no flags there.

Loops of the source are methods with loop invariants, proved equal to a
specification function. One exception: the loop of `usedCommandFunc`
(achivements/achivements.go:31-35) is the recursive predicate
`Achivements.UsedCommand`, because it only searches and returns a boolean.
The properties are proved about those functions:

- `ApplyAnd` and `ApplyOr` are proved equal to `AndSpec` and `OrSpec`;
- `Parse` and its three loops are proved equal to `ParseSpec`;
- the page builder is proved correct against `Flatten` and `WellFormed`.

The screen's page counter is a class field changed by `Update`.

## Model

| member | source | states |
|---|---|---|
| Conditions.Holds | achievements/achievements.go:50-102 | each condition closure as a predicate on one event; an inverted hour range holds for no event, `withExts()` with no extensions holds for every event, and a non-positive minimum of distinct extensions always holds |
| Conditions.HasFlag | achievements/achievements.go:62-71 | the search loop of `withFlag` returns true exactly when the flag is an element of the event's flags |
| Conditions.CollectExts | achievements/achievements.go:81-84 | the map filled by the loop holds exactly the distinct extensions of the event |
| Conditions.HasUniqueExtsMin | achievements/achievements.go:79-87 | `withUniqueFileExtsMin(min)` holds exactly when the event has at least `min` distinct extensions |
| Conditions.HasAllExts | achievements/achievements.go:89-102 | `withExts(xs...)` holds exactly when every wanted extension occurs among the event's extensions, whatever their order or multiplicity |
| Conditions.Check | achievements/achievements.go:50-102 | calling any condition closure computes `Holds` |
| Filters.PrefixLen | achievements/achievements.go:135-141 | the number of times the inner loop of `or` appends an event is the length of the longest prefix of conditions it satisfies |
| Filters.ApplyAnd | achievements/achievements.go:114-128 | the `and` closure, with its labelled `continue`, returns `AndSpec`: the events satisfying every condition, in history order, once each |
| Filters.ApplyOr | achievements/achievements.go:130-145 | the `or` closure returns `OrSpec`: each event repeated once per condition of the longest prefix it satisfies, in history order |
| Filters.AndDistributes | achievements/achievements.go:114-128 | `and` decides per event: filtering `h + x` gives the filtered `h` followed by the filtered `x` |
| Filters.OrDistributes | achievements/achievements.go:130-145 | `or` decides per event as well, and distributes over appending |
| Filters.AndOfNothingIsIdentity | achievements/achievements.go:114-128 | `and()` with no conditions returns the history unchanged |
| Filters.AndKeepsAllMatching | achievements/achievements.go:114-128 | a history whose every event satisfies the conditions is returned whole |
| Filters.OrOfNothingIsEmpty | achievements/achievements.go:130-145 | `or()` with no conditions returns nothing |
| Filters.AndKeepsExactly | achievements/achievements.go:114-128 | `and` keeps each matching event as many times as the history holds it, drops every other event, and never returns more events than it is given |
| Filters.AndIsSubsequence | achievements/achievements.go:114-128 | the result of `and` is an order-preserving subsequence of the history |
| Filters.AndEmptyIffNoMatch | achievements/achievements.go:114-128 | `and` returns nothing exactly when no event of the history satisfies every condition |
| Filters.AndFirstIsEarliestMatch | achievements/achievements.go:114-128 | the first event `and` returns is the earliest event of the history that satisfies every condition |
| Filters.OrEmitsOnlyFirstMatches | achievements/achievements.go:130-145 | every event `or` emits is from the history and satisfies the first condition, whatever the later conditions say |
| Filters.OrLengthBound | achievements/achievements.go:132-143 | `or` emits at most `len(conditions)` copies of each event, so at most `len(conditions) * len(events)` events |
| Rules.RunFilter | achievements/achievements.go:114-145 | calling a filter closure computes `Apply` |
| Rules.Evaluate | achievements/achievements.go:147-159 | `nth(f, n)` awards exactly when the filtered history has more than `n` events, at the time of the zero-based `n`-th one, and is otherwise locked with no time; `trueFunc` awards at the zero time; a time is returned exactly when awarded |
| Rules.EvaluateRule | achievements/achievements.go:151-158 | calling an achievement function computes `Evaluate` |
| Rules.ApplyDistributes | achievements/achievements.go:114-145 | both filter kinds distribute over appending to the history |
| Rules.AwardNeverRevoked | achievements/achievements.go:151-158 | once a rule awards on `h`, it awards on `h + x` with the same time: appending never revokes or moves an award |
| Rules.EmptyHistoryOnlyTrueFunc | achievements/achievements.go:151-158 | on the empty history only `trueFunc` awards |
| Rules.NthOfMatchingHistory | achievements/achievements.go:151-158 | on a history of matching events `nth(and(cs...), n)` awards exactly when there are at least `n + 1` events |
| Rules.TimesAsWritten | achievements/achievements.go:104-112 | `times(n)` as written reads out of range exactly when the history holds exactly `n` events, and otherwise awards exactly when it holds more |
| Rules.Times | achievements/achievements.go:104-112 | corrected `times(n)`: awards exactly when the history has more than `n` events, at the time of event `n` |
| Rules.TimesIsNthOfEverything | achievements/achievements.go:104-112 | corrected `times(n)` equals `nth(and(), n)` and agrees with the code as written wherever that does not read out of range |
| Rules.AnyPythonIsPython2Only | achievements/achievements.go:163 | `anyPython` keeps exactly the `python2` events: `python3` and `python` events fail its first condition |
| Rules.OrIsNotUnion | achievements/achievements.go:163 | a `python3` event satisfies one of the conditions of `anyPython` but is not emitted |
| Rules.PsuedocoderNeedsTwoPython2 | achievements/achievements.go:191 | "Use Python" awards exactly when there are two `python2` events |
| Rules.FirstOfAndAwardsOnAnyMatch | achievements/achievements.go:147-158 | `first(and(cs...))`, which is `nth(and(cs...), 0)`, awards exactly when some event of the history satisfies every condition |
| Rules.FirstOfAndAtEarliestMatch | achievements/achievements.go:147-158 | `first(and(cs...))` then awards at the time of the earliest event that satisfies every condition |
| Rules.GoGoGadgetNeeds51 | achievements/achievements.go:178 | "Use Go 50 times" awards exactly when the history holds at least 51 `go` events; on a history of `go` events only, from the 51st on |
| Rules.ScrewedWhenNeedsThree | achievements/achievements.go:266 | "for the second time" awards exactly when the history holds at least three `xcode-select` events with `--install`; on such a history only, from the third on |
| Rules.LongNamesMeaning | achievements/achievements.go:303-309 | a name is logged exactly when some catalogue entry carries it and its UTF-8 encoding is longer than 29 bytes |
| Rules.LogLongNames | achievements/achievements.go:303-309 | the start-up loop logs `LongNames`: the over-long names in catalogue order, no more of them than entries, and rejects nothing |
| Rules.SampleNamesFit | achievements/achievements.go:197 | the longest sampled name is exactly 29 bytes long, so the sample logs nothing |
| Rules.NoLongNames | achievements/achievements.go:303-309 | a catalogue whose names all fit logs nothing |
| Ingest.Split | ingest/ingest.go:16 | `strings.Split(cmd, " ")` yields at least one part, even for the empty line |
| Ingest.SplitPiecesHaveNoSpace | ingest/ingest.go:16 | no part of the split contains a space |
| Ingest.LastIndexByteMeaning | ingest/ingest.go:38 | a non-negative result indexes the byte, and no later index holds it |
| Ingest.LastIndexAbsent | ingest/ingest.go:38 | `strings.LastIndexByte` returns -1 exactly when the byte does not occur |
| Ingest.ContainsMeaning | ingest/ingest.go:61-62 | `strings.Contains` holds exactly when the substring occurs at some index |
| Ingest.FirstNonFlagMeaning | ingest/ingest.go:27-33 | the subcommand is the first token that does not start with '-', or `""` when all do |
| Ingest.OffsetsTest | ingest/ingest.go:38-40 | Go's test `last > len(p)-4 && last < len(p)-1`, with `last` the byte offset of the last '.' and `len` the UTF-8 length, holds exactly when the token has an extension |
| Ingest.ExtensionIsShortSuffix | ingest/ingest.go:38-40 | a contributed extension is a suffix of the token without a '.', one or two bytes long (hence one or two characters) |
| Ingest.DotFreeExtension | ingest/ingest.go:38-40 | a token without a '.' (where `last` is -1) contributes itself exactly when it is one or two bytes long |
| Ingest.DottedExtension | ingest/ingest.go:38-40 | a token with a '.' contributes exactly when one or two bytes follow its last '.', and the extension is preceded by that '.' |
| Ingest.ExtensionAfterDot | ingest/ingest.go:38-40 | a token whose last '.' is at index `i` contributes what follows `i` exactly when that is one or two bytes long |
| Utf8.Width | ingest/ingest.go:38 | a code point takes one to four bytes in UTF-8, one exactly when it is ASCII |
| Utf8.ByteLenAppend | ingest/ingest.go:38 | the byte length of a concatenation is the sum of the byte lengths |
| Utf8.ByteLenBounds | ingest/ingest.go:38 | a string of `k` characters is `k` to `4k` bytes long, and 0 bytes only when empty |
| Utf8.ByteLenIsLengthIffAscii | ingest/ingest.go:38 | the byte length equals the character count exactly when every character is ASCII |
| Utf8.OneOrTwoBytesMeaning | ingest/ingest.go:38 | a single character below U+0800 or two ASCII characters is exactly what is one or two bytes long |
| Ingest.FindSubcommand | ingest/ingest.go:19-34 | the subcommand loop, with `continue` and `break`, returns the first token after the program that does not start with '-' |
| Ingest.CollectExtensions | ingest/ingest.go:36-41 | the extension loop, with Go's byte-offset test on each token, returns `Extensions`: each token's suffix after its last '.' when that is one or two bytes long, in token order |
| Ingest.CollectFlags | ingest/ingest.go:43-51 | the flag loop returns the tokens starting with '-' in order |
| Ingest.Parse | ingest/ingest.go:15-64 | `parse` returns `ParseSpec`: program, time, subcommand, flags, extensions and the two booleans |
| Ingest.ParseMeaning | ingest/ingest.go:15-64 | subcommand only for `git`/`npm`/`yarn`/`pnpm`/`pip3`/`pip`, and then a token not starting with '-'; flags only for `xcode-select`/`rm`/`git`, and then exactly the tokens starting with '-'; every extension is one or two bytes long (so one or two characters) and has no '.'; `IsForce` and `IsRmRf` are substring tests on the raw line |
| Ingest.FirstNonFlagIsToken | ingest/ingest.go:27-33 | a non-empty subcommand is one of the tokens and does not start with '-' |
| Ingest.JoinSplit | ingest/ingest.go:16 | joining the parts with single spaces gives back the command line: splitting loses nothing |
| Ingest.SplitJoin | ingest/ingest.go:16 | splitting the join of space-free parts gives back the parts |
| Ingest.ProgramIsFirstWord | ingest/ingest.go:16-17 | the program is the longest space-free prefix of the line, followed by its end or a space; the time is the one given |
| Ingest.ExtensionsDistribute | ingest/ingest.go:36-41 | the extension pass decides token by token |
| Ingest.DashTokensDistribute | ingest/ingest.go:46-50 | the flag pass decides token by token |
| Ingest.DashTokensMeaning | ingest/ingest.go:46-50 | a string is among the flags exactly when it is a token starting with '-' |
| Ingest.ExtensionsSound | ingest/ingest.go:36-41 | every recorded extension comes from some token, is one or two bytes long (so one or two characters) and has no '.' |
| Ingest.ExtensionsComplete | ingest/ingest.go:36-41 | every token that has an extension contributes it |
| IngestExamples.DoubleSpaceGivesEmptySubcommand | ingest/ingest.go:27-33 | in `git  commit` the empty token between the spaces becomes the subcommand |
| IngestExamples.EmptyCommandLine | ingest/ingest.go:15-17 | the empty line is accepted and gives an event with empty program, no subcommand, flags or extensions |
| IngestExamples.ExtensionExamples | ingest/ingest.go:38 | `foo.txt`, `hello.` and `.DS_Store` contribute nothing; `what.s` contributes `s`; `go` and `-l` contribute themselves |
| IngestExamples.MultiByteExtensions | ingest/ingest.go:38 | lengths are bytes: `🐍` (4 bytes) and `a.éé` (4 bytes after the '.') contribute nothing; `é` and `x.ñ` (2 bytes) contribute `é` and `ñ` |
| IngestExamples.PushForce | ingest/ingest_test.go:27-35 | `git push --force` gives program `git`, subcommand `push`, flag `--force`, no extensions, `IsForce` and not `IsRmRf` |
| IngestExamples.FromLooksLikeRmRf | ingest/ingest.go:62 | `ls --from` sets `IsRmRf`: the test ignores token boundaries |
| IngestExamples.AddFilesExtensions | ingest/ingest_test.go:19-23 | the tokens of `git add foo.go bar.go yes.py lalalalalalalallaa .DS_Store hello. what.s` give the extensions `go`, `go`, `py`, `s` |
| IngestExamples.AddFilesSubcommandAndFlags | ingest/ingest_test.go:19-22 | the same tokens give subcommand `add` and no flags |
| Achivements.UsedCommand | achivements/achivements.go:29-38 | `usedCommandFunc(cmd)` holds exactly when some event's program is exactly `cmd` |
| Achivements.Run | achivements/achivements.go:21-38 | `trueFunc` holds for every history, `falseFunc` for none, `usedCommandFunc(cmd)` when `cmd` was run |
| Achivements.UsedCommandMonotone | achivements/achivements.go:29-38 | once a command was used it stays used as events are appended |
| Achivements.UsedCommandOfConcat | achivements/achivements.go:29-38 | a command was used in `h + x` exactly when it was used in `h` or in `x` |
| Achivements.RunMonotone | achivements/achivements.go:21-38 | no legacy achievement is revoked by appending; on the empty history only `trueFunc` holds |
| Achivements.CatalogueOutcomes | achivements/achivements.go:40-52 | the seven entries: "Name your pet" always unlocked, "Use the --force" never, each "Use X" exactly when X was run |
| Pagination.BuildPages | achievements.go:20-34 | the page loop (identical in achivements.go) loses nothing: the pages concatenate back to the catalogue in order, every page holds 1 to 8 entries, and all but the last hold exactly 8 |
| Pagination.PageCount | achievements.go:23-34 | there are ceil(N / 8) pages; an empty catalogue has none |
| Pagination.PageContents | achievements.go:25-34 | page `i` holds the catalogue entries from index `8 * i` on |
| Pagination.NavigationBounds | achievements.go:46-65 | a key keeps the page on an existing page, moves it by at most one except `home`, which goes to the first page; `q`, `esc`, `enter` and other messages leave it; exactly the quit keys return the go-home command |
| Pagination.ForwardStopsAtLast | achievements.go:50-53 | pressing a forward key `n` times from the first page reaches page `n`, stopping at the last page |
| Pagination.ReplayInRange | achievements.go:46-65 | after any sequence of messages the page is still an existing page |
| Pagination.ShowAllModel.constructor | achievements.go:36-39 | the screen starts on page 0 with the pages cut from the catalogue |
| Pagination.ShowAllModel.Update | achievements.go:46-65 | `Update` changes only the page counter, as `NextPage` says, and keeps it in range |
| Pagination.ShowAllModel.CurrentPage | achievements.go:72 | the page `View` lists exists only for a non-empty catalogue; it holds 1 to 8 consecutive catalogue entries starting at `8 * page` |
| Pagination.NewShowAllAchievementsModel | achievements.go:18-40 | the screen over the current catalogue, on its first page |
| Pagination.NewShowAllAchivementsModel | achivements.go:18-40 | the same screen over the legacy catalogue |

## Left out

- `ParseHistory` (achievements/achievements.go:277-301) is not modelled: it is file I/O and JSON decoding.
- `ingest.Single` (ingest/ingest.go:66-92) is not modelled: it appends to a file and reads the clock.
- `main.go`, `state/config.go`, `help.go` and `cats/cats.go` are not modelled: they are the terminal UI, the configuration files and presentation text.
- The `View` methods' rendering is not modelled, only which page they read (`CurrentPage`).
- `time.Time` is reduced to an abstract instant and an hour in 0..23. Time zones and the clock are not modelled.
- Only eleven entries of the catalogue of achievements/achievements.go:167-274 are modelled (`Rules.SampleAchievements`). The legacy catalogue is modelled whole.
- Go strings may hold bytes that are not valid UTF-8. The model's strings are sequences of Unicode scalar values, whose UTF-8 length `Utf8.ByteLen` is what `len` returns.
- A negative `n` passed to `nth` or `times` is not modelled, because `n` is a `nat`. The catalogue uses only non-negative values.
- A nil slice and an empty slice are both `[]`.
- `IngestExamples.AddFilesExtensions` and `IngestExamples.AddFilesSubcommandAndFlags`: the first test case is stated on the tokens of its line. The raw line is not used. That those tokens are what the line splits into follows from `Ingest.SplitJoin`.
- Achievement functions are a closed datatype of the rule shapes the catalogue uses, not arbitrary closures. The two inline closures that read the deprecated booleans are the conditions `WithIsForce` and `WithIsRmRf`.

## Findings

| source | as written | input that shows it | evidently intended | confidence | as-written member | corrected member |
|---|---|---|---|---|---|---|
| achievements/achievements.go:106-109 | `times(n)` returns locked only when `len(events) < n`, then reads `events[n]` | a history of exactly `n` events: the read is out of range | lock when `len(events) <= n`, so that `times(n)` is `nth` over the whole history | not executed | Rules.TimesAsWritten | Rules.Times, Rules.TimesIsNthOfEverything |
