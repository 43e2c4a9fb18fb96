# raindrop.io tag cleaner — a Dafny model of the cleanup core

The tag cleaner logs in to raindrop.io, lists every tag of the account and
deletes each tag whose ID is not named in an optional allowlist file (one ID
per line), one single-tag delete at a time with a rate-limit pause after each.
A dry-run flag makes it report what it would delete without deleting.

This project models the part of `main` that runs once the tags are listed:

- `go_strings.dfy` (module `GoStrings`): the two functions of Go's
  `strings` package the allowlist parse calls — `Split` on a line feed and
  `TrimSpace` over ASCII whitespace — and `JoinLines`, the inverse of the
  split, which the parse does not call and which serves only to state that
  the split loses nothing.
- `allowlist.dfy` (module `Allowlist`): loading the allowlist file, with the
  parse loop as a method proved against the recursive specification
  `CleanLines`.
- `deletion.dfy` (module `Deletion`): the deletion count announced before the
  confirmation prompt, and the deletion loop as a method with mutable
  counters proved against `Deletable`, the listed tags that are not
  allowlisted, in listing order.
- `tag_cleaner.dfy` (module `TagCleaner`): the three pieces in sequence.

The tag listing is an input (a sequence of tag IDs in listing order). The
remote delete is an oracle `deleteSucceeds: nat -> bool`, giving the outcome
of the k-th delete call of the run. The allowlist file is an input that
either holds text or could not be read.

## Model

| member | source | states |
|---|---|---|
| GoStrings.TrimLeft | main.go:97 | the result is a suffix of the input, everything dropped is whitespace, and the result does not start with whitespace |
| GoStrings.TrimRight | main.go:97 | the result is a prefix of the input, everything dropped is whitespace, and the result does not end with whitespace |
| GoStrings.TrimSpace | main.go:97 | the trimmed text has no surrounding whitespace and is empty exactly when the line is blank |
| GoStrings.TrimSpaceDecomposes | main.go:97 | the trimmed text is what is left once a blank prefix and a blank suffix are cut from the line |
| GoStrings.TrimSpaceOfPadded | main.go:97 | trimming is determined by that decomposition: a blank prefix, a trimmed middle and a blank suffix trim to exactly the middle |
| GoStrings.TrimSpaceIdempotent | main.go:97 | trimming twice is trimming once |
| GoStrings.SplitLines | main.go:95 | splitting on line feeds gives at least one piece (one empty piece for empty text) and no piece holds a line feed |
| GoStrings.SplitThenJoin | main.go:95 | joining the pieces back with line feeds restores the file text, so the split loses nothing |
| GoStrings.JoinThenSplit | main.go:95 | splitting a join of line-feed-free pieces gives those pieces back |
| GoStrings.SplitLineBreakFree | main.go:95 | text without a line feed splits into itself alone |
| GoStrings.SplitAfterLine | main.go:95 | a first line ended by a line feed becomes the first piece, followed by the pieces of the rest |
| GoStrings.SplitBlank | main.go:95 | blank text splits into blank pieces |
| GoStrings.JoinBlank | main.go:95 | blank pieces join into blank text |
| Allowlist.CleanLines | main.go:96-102 | the parse keeps at most one entry per line |
| Allowlist.CleanLinesPrefixStep | main.go:96-102 | one more line appends its trimmed text when it is not blank and nothing otherwise |
| Allowlist.CleanLinesAppend | main.go:96-102 | the entries of two blocks of lines are those of the first followed by those of the second: file order is kept and duplicates are not merged |
| Allowlist.CleanLinesOfLine | main.go:97-101 | a single line contributes nothing when blank and exactly its trimmed text otherwise |
| Allowlist.CleanLinesTrimmed | main.go:97-101 | every entry is non-empty and has no leading or trailing whitespace |
| Allowlist.CleanLinesSource | main.go:96-101 | every entry is the trimmed text of some line of the file |
| Allowlist.SourceLine | main.go:96-101 | gives the position of a line that trims to a given entry |
| Allowlist.CleanLinesKeeps | main.go:96-101 | every line that is not blank contributes its trimmed text |
| Allowlist.CleanBlankLines | main.go:96-101 | blank lines contribute no entry |
| Allowlist.ParsedEmptyIffBlank | main.go:95-102 | the allowlist is empty exactly when the file text is empty or all whitespace |
| Allowlist.ParseAllowlist | main.go:95-102 | the loop's result is CleanLines of the split text, and every entry is non-empty and trimmed |
| Allowlist.LoadAllowlist | main.go:87-103 | no path gives an empty allowlist, an unreadable file ends the run naming its path, and a readable file gives its parsed lines |
| Deletion.Deletable | main.go:123-134 | a run deletes at most as many tags as are listed |
| Deletion.Allowlisted | main.go:126-129 | the allowlisted tags and the deletable tags together account for every listed tag, so each tag is visited once |
| Deletion.SucceededCalls | main.go:137-144 | no more delete calls succeed than are issued |
| Deletion.AnnouncedDeletions | main.go:105-114 | the announced figure is all tags for an empty allowlist, and otherwise the tag count less the number of entries, never below zero |
| Deletion.PrefixStep | main.go:123-134 | one more listed tag adds itself to the deletions unless it is allowlisted |
| Deletion.SucceededCallsNext | main.go:137-144 | one more call adds one success exactly when it succeeds |
| Deletion.RunDeletions | main.go:120-149 | the IDs sent to the delete endpoint are, in listing order, the listed tags not in the allowlist (none in a dry run, where both counters and the pause count stay zero); every deleted ID was listed and is not allowlisted; successes count the successful calls, successes plus failures is the number of calls, and there is one pause per call |
| Deletion.DeletableSound | main.go:126-129 | no delete is issued for a tag that is allowlisted or not listed |
| Deletion.DeletableKeeps | main.go:123-137 | every listed tag that is not allowlisted is deleted |
| Deletion.AllowlistedSound | main.go:126-129 | only listed, allowlisted tags are skipped as allowlisted |
| Deletion.AllowlistedKeeps | main.go:126-129 | every listed tag that is allowlisted is skipped |
| Deletion.DeletableAppend | main.go:123 | the deletions of two consecutive stretches of the listing are those of the first followed by those of the second |
| Deletion.DeletableWithEmptyAllowlist | main.go:105-106 | with an empty allowlist every listed tag is deleted, in order |
| Deletion.DeletableDistinct | main.go:123-137 | with distinct listed IDs no tag is deleted twice |
| Deletion.AllowlistedDistinct | main.go:123-129 | with distinct listed IDs no tag is skipped as allowlisted twice |
| Deletion.AnnouncedIsLowerBound | main.go:105-114 | with distinct listed IDs the announced figure never exceeds the deletions a run issues |
| Deletion.AnnouncedExactWhenEntriesMatch | main.go:105-114 | the announced figure is exact when no entry repeats and every entry names a listed tag |
| Deletion.AnnouncedWithEmptyAllowlist | main.go:105-106 | with an empty allowlist the announcement is exact: every tag |
| Deletion.AnnouncedUndercountsUnmatchedEntry | main.go:109-113 | an entry naming no tag lowers the figure without sparing a tag (one announced, two deleted) |
| Deletion.AnnouncedUndercountsDuplicateEntry | main.go:109-113 | a repeated entry is subtracted twice (none announced, one deleted) |
| Deletion.AnnouncedOvercountsRepeatedTag | main.go:109-113 | with a repeated listed ID the figure can exceed the deletions (one announced, none deleted) |
| TagCleaner.Cleanup | main.go:87-149 | the run ends before any delete exactly when a named allowlist file cannot be read; otherwise it announces the estimate, deletes in listing order exactly the listed tags not allowlisted (nothing in a dry run) and its counters account for every delete call |

## Left out

- The OAuth handshake (main.go:36-78): it lives in the external raindrop client library, whose code is not part of this model.
- The callback listener goroutine and the wait for the authorization code (main.go:45-50, 69-72): concurrency and waiting only.
- The network calls that list and delete tags (main.go:81, 137): the listing is an input sequence of tag IDs and the delete outcome an oracle indexed by call number; a listing error (main.go:82-84) ends the run before the modelled part.
- Tag metadata other than the ID: only IDs take part in the logic.
- The pause length (main.go:148): pauses are counted, time is not modelled.
- `openBrowser` (main.go:158-171): it launches an operating-system process.
- The confirmation prompt (main.go:115-118): the model takes it as answered; a read error on standard input ends the run with a panic, which is not modelled.
- Flag parsing (main.go:27-29): the two flags become the inputs `allowlistPath` and `dryRun`.
- The check for the client-secret environment variable (main.go:31-34): it ends the run before the modelled part, so it is dropped.
- All `log` and `fmt` output, including the per-tag progress lines and the final summary (main.go:106-113, 125-142, 151-155): only the figures they print are modelled.
- GoStrings.TrimSpace: trims only the ASCII whitespace set (space, tab, line feed, carriage return, vertical tab, form feed), not the Unicode spaces Go's `strings.TrimSpace` also removes.
- The allowlist is a list, as in the code, not a set: duplicate entries are kept and count in the announced figure.
