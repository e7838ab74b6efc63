# Localizable.strings consistency checker, modelled in Dafny

`scripts/localization/localizable_strings_checker.rb` takes the Japanese file
`ja.lproj/Localizable.strings` as the reference. It compares every other
locale's `Localizable.strings` with it and runs four checks on each:

1. The keys are the same. Both key lists are sorted and compared. On a
   mismatch it prints `sorted_ja - sorted_other`.
2. The comments are the same, checked the same way.
3. Placeholders are kept. Each reference value is scanned for placeholder
   tokens, and every distinct token found must occur in the other file's
   value for the same key. The vocabulary is `SPECIAL_STRINGS` (`%%`, `%s`,
   `%1$s` … `%4$f`), but line 81 quotes every entry with `Regexp.escape`
   before `Regexp.union` quotes it again. The pattern built from `%1$s`
   therefore matches the five characters `%1\$s`, not `%1$s`. As written,
   only the five two-character entries (`%%`, `%s`, `%@`, `%d`, `%f`) are
   ever extracted (see "## Findings").
4. No value of the other file contains a lone `%`: a `%` whose preceding
   character is not `%` and which is followed by the end of the value or by
   a character other than `%`, `@`, `d`, `s`, `f`, `$` and the digits.

The script exits with status 1 at the first locale that fails a check. If
the run reaches the end, it exits with status 0.

The project has four modules:

- `Text` (`text.dfy`) models the Ruby library operations the checks use:
  - `String#<=>` as `LexLeq`, with `sort` as an insertion sort under it;
  - `Array#-` as `Difference`;
  - `Array#uniq` as `Uniq`;
  - `String#include?` as `Contains`.
- `Placeholders` (`placeholders.dfy`) holds the token vocabulary and the
  extraction of lines 81-82:
  - `Regexp.escape` is `Escape`. The way the regular-expression engine reads
    the escapes it writes is `Unescape`.
  - `Branches` lists what each branch of the alternation matches, in
    `SPECIAL_STRINGS` order. A lemma ties branch i to the entry quoted twice.
  - The alternation's leftmost-first choice is a list search (`FirstMatch`),
    and `String#scan` is `ScanFrom`.
  - `Tokens` is the extraction as written. It drives the checks.
    `IntendedTokens` scans for the `SPECIAL_STRINGS` entries themselves, and
    the examples prove both on the same values.
- `Checks` (`checks.dfy`) holds the four checks. The two that loop over key
  values are methods. Each is proved against a specification function for
  its report and a predicate for its verdict.
- `Runner` (`runner.dfy`) holds the driver loop over the target files.
  `Examine` gives each target a verdict: it passes, it fails a check, or it
  crashes. `OutcomeFrom` ends a run at the first verdict that is not a pass.
  The loop is a method proved equal to `RunFrom`, which applies this to the
  targets' verdicts. Lemmas characterise each outcome: every target passed,
  target j failed, or target j crashed.

A parsed file is a `StringsFile` value with the three views the parser
provides:

- `keys`;
- `comments`;
- `key_values`, a list of one-entry `{key => value}` hashes, modelled as
  `KeyValue` records.

Strings are sequences of Unicode scalar values. Comparing them one
character at a time orders them the same way Ruby's byte-wise comparison of
their UTF-8 encodings does.

Behaviour of the code that the model keeps:

- The key and comment checks compare multisets. A duplicated reference key
  makes the check fail, yet the printed difference can be empty, because
  `Array#-` removes every copy of an element found in the right operand.
  A key that only the target has is never reported.
- The header comment at line 4 of the script talks of "the same count" of
  placeholders. The code only tests that each distinct token is present
  (`uniq` followed by `include?`), and the model follows the code.
  `PresenceNotCount` gives a target with one `%d` that passes against a
  reference with two.
- Scanning consumes `%%` as a token, so the `%d` in `%%d` is never seen.
- Positioned placeholders are never checked, because of the double quoting.
  `PositionedPlaceholderUnchecked` gives a run that passes although the
  target drops `%2$@`. `PositionedLookupSkipped` gives a target that lacks
  the key of a `%1$@` value. It fails on its keys instead of crashing,
  because that value yields no token and its key is never looked up.
- The `%` rule: a `%` is flagged unless the character before it is `%`, or
  the character after it is one of `%`, `@`, `d`, `s`, `f`, `$` or a digit.
  The lookahead's bracketed parts are one-character classes. For example,
  `[[0-9]$@]` is one character out of the digits, `$` and `@`.
- A reference entry can have placeholders while the target has no entry for
  its key. Then `include?` is called on `nil` and the script dies with an
  uncaught error, which is also exit status 1. `CheckReplaceStrings`
  requires that this does not happen (`LookupSafe`), and the driver returns
  `CrashedAt(k)` before calling it.
- The reference file's own lone-`%` check (line 131) runs, but its result
  is overwritten by the first target's and never decides the exit status.
  `ReferenceBarePercentIgnored` gives a run that passes although the
  reference value has a lone `%`.

## Model

| member | source | states |
|---|---|---|
| Text.LexLeqTotal | scripts/localization/localizable_strings_checker.rb:38-39 | The string order used by `sort` is total. |
| Text.LexLeqAntisymmetric | scripts/localization/localizable_strings_checker.rb:38-39 | Strings each at most the other are equal. |
| Text.LexLeqTransitive | scripts/localization/localizable_strings_checker.rb:38-39 | The string order is transitive. |
| Text.Insert | scripts/localization/localizable_strings_checker.rb:38-39 | Insertion adds exactly one copy of the element. |
| Text.InsertSorted | scripts/localization/localizable_strings_checker.rb:38-39 | Insertion into a sorted list keeps it sorted. |
| Text.Sort | scripts/localization/localizable_strings_checker.rb:38-39 | `sort` returns a sorted permutation of its input. |
| Text.SortedHeadIsLeast | scripts/localization/localizable_strings_checker.rb:38-39 | The head of a sorted list is its least element. |
| Text.SortedUnique | scripts/localization/localizable_strings_checker.rb:40 | Two sorted lists with the same multiset are equal. |
| Text.MultisetTail | scripts/localization/localizable_strings_checker.rb:40 | Helper of `SortedUnique`: dropping the head removes one copy of it from the multiset. |
| Text.SortEqualIff | scripts/localization/localizable_strings_checker.rb:38-40 | The sorted lists are equal if and only if the inputs are equal as multisets. |
| Text.SameMembers | scripts/localization/localizable_strings_checker.rb:44 | Helper of `Checks.SortedDifference`: lists with equal multisets have the same members. |
| Text.Difference | scripts/localization/localizable_strings_checker.rb:44 | `Array#-` keeps every copy of an element absent from the right operand and no copy of one present in it. |
| Text.DifferenceSorted | scripts/localization/localizable_strings_checker.rb:44 | `Array#-` keeps order, so a sorted left operand gives a sorted result. |
| Text.Uniq | scripts/localization/localizable_strings_checker.rb:82 | `uniq` keeps exactly the members of its input, each once. |
| Text.UniqOfDistinct | scripts/localization/localizable_strings_checker.rb:82 | `uniq` leaves a duplicate-free list unchanged. |
| Text.MissingCharNotContained | scripts/localization/localizable_strings_checker.rb:88 | Helper of `Checks.DroppedPlaceholderMissing`: a string lacking some character of t does not `include?` t. |
| Text.LexLeq | scripts/localization/localizable_strings_checker.rb:38-39 | Definition of `String#<=>` on Unicode scalar values: a is at most b when it is empty, when its first character is smaller, or when the first characters agree and the rest of a is at most the rest of b. |
| Text.Contains | scripts/localization/localizable_strings_checker.rb:88 | Definition of `include?`: t occurs in s at some index. |
| Placeholders.SpecialStrings | scripts/localization/localizable_strings_checker.rb:13-35 | The 21 entries of `SPECIAL_STRINGS`, in source order. |
| Placeholders.VocabularyIsShapes | scripts/localization/localizable_strings_checker.rb:13-35 | A string is in `SPECIAL_STRINGS` if and only if it is `%%`, `%` plus one of `s @ d f`, or `%`, a position 1 to 4, `$` and one of `s @ d f`. |
| Placeholders.EscapeChar | scripts/localization/localizable_strings_checker.rb:81 | Definition of `Regexp.escape` on one character: a backslash before each regular-expression metacharacter and the space, `\n`, `\t`, `\r`, `\f`, `\v` for those control characters, and the character itself otherwise. |
| Placeholders.Escape | scripts/localization/localizable_strings_checker.rb:81 | Definition of `Regexp.escape`: every character quoted by `EscapeChar`, in order. |
| Placeholders.Unescape | scripts/localization/localizable_strings_checker.rb:81 | Definition of how the regular-expression engine reads quoted text: a backslash and a character stand for the character it escapes, and any other character stands for itself. |
| Placeholders.UnescapeEscape | scripts/localization/localizable_strings_checker.rb:81 | What `Regexp.escape` writes matches exactly the string it quoted. |
| Placeholders.EscapeOfShape | scripts/localization/localizable_strings_checker.rb:81 | `Regexp.escape` leaves a two-character entry unchanged and puts a backslash before the `$` of a positioned one. |
| Placeholders.Branches | scripts/localization/localizable_strings_checker.rb:81 | Definition of the alternation built at line 81: the 21 strings its branches match, in `SPECIAL_STRINGS` order, the positioned ones with a backslash before `$`. |
| Placeholders.BranchesQuoteSpecialStrings | scripts/localization/localizable_strings_checker.rb:81 | Branch i of the alternation built at line 81 is what entry i quoted twice matches, and that is entry i quoted once. |
| Placeholders.BranchesAreQuotedShapes | scripts/localization/localizable_strings_checker.rb:81 | A string is a branch if and only if it is `%%`, `%` plus one of `s @ d f`, or `%`, a position 1 to 4, a backslash, `$` and one of `s @ d f`. |
| Placeholders.PositionedEntriesUnmatched | scripts/localization/localizable_strings_checker.rb:81 | An entry of `SPECIAL_STRINGS` is a branch if and only if it has two characters: no positioned entry is matched as written. |
| Placeholders.FirstMatch | scripts/localization/localizable_strings_checker.rb:81-82 | The alternation's choice at an index is one of its branches occurring there. It finds nothing only when no branch occurs there. |
| Placeholders.FirstMatchFindsOnly | scripts/localization/localizable_strings_checker.rb:81-82 | When exactly one branch occurs at an index, the alternation picks it, whatever its place in the list. |
| Placeholders.EntryFound | scripts/localization/localizable_strings_checker.rb:13-35 | Intended alternation: any `SPECIAL_STRINGS` entry occurring at an index is what an alternation of the entries themselves picks there (no entry is a prefix of another). |
| Placeholders.BranchFound | scripts/localization/localizable_strings_checker.rb:81-82 | Any branch occurring at an index is what the alternation of line 81 picks there. |
| Placeholders.NoBranchAt | scripts/localization/localizable_strings_checker.rb:81-82 | At a `%` followed by a character that starts no two-character branch, and then by no backslash, the alternation of line 81 finds nothing. |
| Placeholders.ScanFrom | scripts/localization/localizable_strings_checker.rb:82 | Definition of `String#scan` from an index: where the alternation picks a branch, that branch is taken and the scan resumes after it; otherwise the scan moves on by one character; at the end it yields nothing. |
| Placeholders.ScanFromSound | scripts/localization/localizable_strings_checker.rb:82 | Every token `scan` returns is a branch occurring in the value at or after the start index. |
| Placeholders.ScanEmptyIff | scripts/localization/localizable_strings_checker.rb:82 | `scan` from an index finds nothing if and only if no branch occurs at or after it. |
| Placeholders.ScanTakes | scripts/localization/localizable_strings_checker.rb:82 | The branch picked at an index is taken whole, and scanning resumes right after it. |
| Placeholders.ScanPasses | scripts/localization/localizable_strings_checker.rb:82 | An index where no branch occurs is passed over by one character. |
| Placeholders.ScanSkips | scripts/localization/localizable_strings_checker.rb:82 | A stretch without `%` is passed over. |
| Placeholders.Tokens | scripts/localization/localizable_strings_checker.rb:81-82 | Definition of the extraction as written: `uniq` of the scan with the branches of line 81. |
| Placeholders.TokensAreDistinctBranches | scripts/localization/localizable_strings_checker.rb:81-82 | The extracted tokens are distinct branches, and each is contained in the value. |
| Placeholders.TokensMissPositioned | scripts/localization/localizable_strings_checker.rb:81-82 | Every `SPECIAL_STRINGS` entry that is extracted has two characters. |
| Placeholders.TokensEmptyIff | scripts/localization/localizable_strings_checker.rb:81-84 | A value yields no token (the `matches.length > 0` test fails) if and only if it contains no branch at all. |
| Placeholders.IntendedTokens | scripts/localization/localizable_strings_checker.rb:13-35 | Definition of the intended extraction: `uniq` of a scan with an alternation of the `SPECIAL_STRINGS` entries themselves. |
| Placeholders.IntendedTokensAreDistinctVocabulary | scripts/localization/localizable_strings_checker.rb:13-35 | The intended extraction yields distinct `SPECIAL_STRINGS` entries, each contained in the value. |
| Placeholders.IntendedTokensEmptyIff | scripts/localization/localizable_strings_checker.rb:13-35 | The intended extraction yields nothing if and only if the value contains no `SPECIAL_STRINGS` entry. |
| Placeholders.DoublePercentIsOneToken | scripts/localization/localizable_strings_checker.rb:82 | `%%d` yields only `%%`. |
| Placeholders.MixedTokensAsWritten | scripts/localization/localizable_strings_checker.rb:81-82 | As written, `%1$@ items (%d%%)` yields `%d`, `%%`: the positioned `%1$@` is missed. |
| Placeholders.MixedTokens | scripts/localization/localizable_strings_checker.rb:13-35 | Intended: `%1$@ items (%d%%)` yields `%1$@`, `%d`, `%%`, in order of first occurrence. |
| Placeholders.TwoTokens | scripts/localization/localizable_strings_checker.rb:82 | `%s and %d` yields `%s`, `%d`. |
| Placeholders.RepeatedTokenOnce | scripts/localization/localizable_strings_checker.rb:82 | `%d %d` yields one `%d`. |
| Placeholders.RepeatedTokenScan | scripts/localization/localizable_strings_checker.rb:82 | `scan` returns `%d` twice for `%d %d`, before `uniq` removes the copy. |
| Placeholders.NoTokenAfterBarePercent | scripts/localization/localizable_strings_checker.rb:82 | `100% done` yields no token. |
| Placeholders.PositionedPairAsWritten | scripts/localization/localizable_strings_checker.rb:81-82 | As written, `%1$@ and %2$@` yields no token. |
| Placeholders.PositionedPairIntended | scripts/localization/localizable_strings_checker.rb:13-35 | Intended: `%1$@ and %2$@` yields `%1$@`, `%2$@`. |
| Placeholders.PositionedAloneAsWritten | scripts/localization/localizable_strings_checker.rb:81-82 | As written, `%1$@` yields no token. |
| Placeholders.PositionedAloneIntended | scripts/localization/localizable_strings_checker.rb:13-35 | Intended: `%1$@` yields `%1$@`. |
| Checks.CompareSorted | scripts/localization/localizable_strings_checker.rb:38-45 | The lists compare equal if and only if they are equal as multisets. The reported difference is sorted and holds each reference element absent from the target, with its multiplicity, and nothing else. |
| Checks.SortedDifference | scripts/localization/localizable_strings_checker.rb:38-45 | The facts about sort and `Array#-` that the comparison relies on. |
| Checks.CheckSameKeys | scripts/localization/localizable_strings_checker.rb:37-53 | The key check passes if and only if the key lists are equal as multisets. It reports the sorted reference keys that the target lacks. |
| Checks.CheckSameComments | scripts/localization/localizable_strings_checker.rb:55-71 | The same as `CheckSameKeys`, for the comment lists. |
| Checks.TargetOnlyKeyNotReported | scripts/localization/localizable_strings_checker.rb:43-45 | A key only the target has fails the check but is never reported. |
| Checks.MissingKeyReported | scripts/localization/localizable_strings_checker.rb:43-45 | A reference key absent from the target fails the check and is reported. |
| Checks.NothingReportedWhenAllPresent | scripts/localization/localizable_strings_checker.rb:44-45 | When the target has every reference key, the report is empty. |
| Checks.DuplicateKeyFailsSilently | scripts/localization/localizable_strings_checker.rb:40-45 | Reference keys `a, a` against target `a` fail, with nothing reported. |
| Checks.FindValue | scripts/localization/localizable_strings_checker.rb:86 | The lookup gives nil exactly when no entry has the key. Otherwise it gives the value of the first entry with that key. |
| Checks.Reject | scripts/localization/localizable_strings_checker.rb:88 | `reject` keeps exactly the tokens that the target value does not contain. |
| Checks.MissingPlaceholders | scripts/localization/localizable_strings_checker.rb:82-88 | The missing strings of one entry are exactly its tokens absent from the target value for its key. |
| Checks.EntryPreserved | scripts/localization/localizable_strings_checker.rb:84-90 | Definition of one entry passing: every token of the reference value occurs in the target value for its key. |
| Checks.PlaceholdersPreserved | scripts/localization/localizable_strings_checker.rb:76-96 | Definition of what `check_replace_strings` returns true for: every reference entry is preserved. |
| Checks.ReplaceReport | scripts/localization/localizable_strings_checker.rb:76-94 | Every reported line carries at least one missing placeholder. |
| Checks.ReplaceReportSound | scripts/localization/localizable_strings_checker.rb:88-92 | Every report line names a reference entry's key and carries exactly that entry's missing placeholders. |
| Checks.ReplaceReportComplete | scripts/localization/localizable_strings_checker.rb:88-92 | Every reference entry with a missing placeholder gets a line with its key and exactly those placeholders. |
| Checks.ReplaceReportStep | scripts/localization/localizable_strings_checker.rb:76-94 | Each reference entry adds its own report line, or nothing, to those of the entries before it. |
| Checks.MissingPlaceholdersEmptyIff | scripts/localization/localizable_strings_checker.rb:88-90 | An entry reports nothing if and only if every one of its tokens occurs in the target value. |
| Checks.ReplaceReportEmptyIff | scripts/localization/localizable_strings_checker.rb:73-97 | The report is empty if and only if every placeholder of every reference value is preserved. |
| Checks.PreservedSplit | scripts/localization/localizable_strings_checker.rb:76 | Preservation over a list is preservation over its prefix plus its last entry. |
| Checks.CheckReplaceStrings | scripts/localization/localizable_strings_checker.rb:73-97 | The check passes if and only if every placeholder is preserved, if and only if it reports nothing. Its report is `ReplaceReport`, whose lines are exactly the offending keys with their missing placeholders (`ReplaceReportSound`, `ReplaceReportComplete`). |
| Checks.DroppedPlaceholderReported | scripts/localization/localizable_strings_checker.rb:73-97 | Reference `%s and %d` against target `%s only` reports exactly `%d` under its key. |
| Checks.DroppedPlaceholderMissing | scripts/localization/localizable_strings_checker.rb:82-88 | For that entry, the tokens are `%s`, `%d`, the lookup finds `%s only`, and only `%d` is missing. |
| Checks.PresenceNotCount | scripts/localization/localizable_strings_checker.rb:82-88 | A reference value `%d %d` against a target value `%d` passes: placeholders are checked for presence, not counted. |
| Checks.PresenceNotCountEntry | scripts/localization/localizable_strings_checker.rb:82-88 | For that entry, the only token is `%d`, the lookup finds `%d`, and the entry is preserved. |
| Checks.TokenStartIsNotBare | scripts/localization/localizable_strings_checker.rb:108 | The `%` that starts a placeholder is never flagged as lone. |
| Checks.BarePercentKeys | scripts/localization/localizable_strings_checker.rb:104-113 | The reported keys are exactly those of the values with a lone `%`. |
| Checks.CheckSinglePercent | scripts/localization/localizable_strings_checker.rb:99-115 | The check passes if and only if no value has a lone `%`. It reports exactly the keys of those that do. |
| Checks.BarePercentFlagged | scripts/localization/localizable_strings_checker.rb:108 | `100% done` is flagged. |
| Checks.TrailingPercentFlagged | scripts/localization/localizable_strings_checker.rb:108 | A `%` at the end of a value is flagged. |
| Checks.EscapedPercentNotFlagged | scripts/localization/localizable_strings_checker.rb:108 | `100%% done`, `%d%% done` and `%%%` are not flagged. |
| Checks.LookupSafe | scripts/localization/localizable_strings_checker.rb:86-88 | Definition of when line 88 cannot call `include?` on nil: every reference entry with a token has an entry with its key in the target. |
| Checks.BarePercentAt | scripts/localization/localizable_strings_checker.rb:108 | Definition of the pattern matching at index i: a `%` not preceded by `%` and followed by the end of the value or by a character that does not guard it. |
| Checks.GuardsPercent | scripts/localization/localizable_strings_checker.rb:108 | Definition of the characters the lookahead rejects: `%`, `@`, `d`, `s`, `f`, `$` and the digits. |
| Checks.HasBarePercent | scripts/localization/localizable_strings_checker.rb:108 | Definition of `value.match(...)` succeeding: the pattern matches at some index. |
| Checks.PositionedPercentNotFlagged | scripts/localization/localizable_strings_checker.rb:108 | `%1$@` is not flagged. |
| Runner.ExitStatusOfRun | scripts/localization/localizable_strings_checker.rb:151-159 | The script exits with status 0 if and only if every target is examined and passes all four checks. |
| Runner.ExitStatus | scripts/localization/localizable_strings_checker.rb:154-159 | Definition of the exit status: 0 when every target passed, 1 after `exit 1` or a crash. |
| Runner.Run | scripts/localization/localizable_strings_checker.rb:131-159 | The driver loop ends exactly as the recursive definition `RunFrom` says: the first target that crashes or fails, in order, decides the outcome. |
| Runner.RunPassesIff | scripts/localization/localizable_strings_checker.rb:134-159 | The run passes if and only if every target is examined and passes all four checks. |
| Runner.RunFailsAtIff | scripts/localization/localizable_strings_checker.rb:151-155 | The run fails at target j if and only if every earlier target passed, and j was examined without crashing and failed a check. |
| Runner.RunCrashesAtIff | scripts/localization/localizable_strings_checker.rb:146 | The run crashes at target j if and only if every earlier target passed and j lacks an entry for a reference key whose value has a placeholder. |
| Runner.LaterTargetsIgnored | scripts/localization/localizable_strings_checker.rb:153-155 | Once the run stops at a target, appending more targets changes nothing. |
| Runner.NoTargetsPass | scripts/localization/localizable_strings_checker.rb:134-159 | With no target file, the run passes. |
| Runner.ReferenceBarePercentIgnored | scripts/localization/localizable_strings_checker.rb:131-149 | A reference value with a lone `%` does not stop a run whose target passes. |
| Runner.TargetPasses | scripts/localization/localizable_strings_checker.rb:140-151 | Definition of the conjunction at line 151: equal key and comment multisets, every placeholder preserved, and no lone `%` in the target. |
| Runner.Examine | scripts/localization/localizable_strings_checker.rb:140-151 | A target crashes exactly when a lookup at line 88 would be on nil, and passes exactly when it does not crash and passes all four checks. |
| Runner.VerdictMeaning | scripts/localization/localizable_strings_checker.rb:140-155 | A target's verdict is a pass exactly when it is examined and passes, and a crash exactly when a lookup would be on nil. |
| Runner.RunFrom | scripts/localization/localizable_strings_checker.rb:134-159 | Definition of the run from target k: the outcome of the targets' verdicts from k on. |
| Runner.OutcomeFrom | scripts/localization/localizable_strings_checker.rb:151-159 | Definition of the fail-fast stop over verdicts: the first verdict from k on that is not a pass ends the run as a failure or crash at its index, and a run that reaches the end passes. |
| Runner.RunStep | scripts/localization/localizable_strings_checker.rb:151-157 | A target that passes hands the run to the next one. Any other target ends it there, failed or crashed. |
| Runner.OutcomePassesIff | scripts/localization/localizable_strings_checker.rb:134-159 | A run over verdicts succeeds exactly when every verdict from k on is a pass. |
| Runner.OutcomeFailsAtIff | scripts/localization/localizable_strings_checker.rb:151-155 | A run over verdicts fails at j exactly when the verdicts from k up to j are passes and j is a failure. |
| Runner.OutcomeCrashesAtIff | scripts/localization/localizable_strings_checker.rb:146 | A run over verdicts crashes at j exactly when the verdicts from k up to j are passes and j is a crash. |
| Runner.OutcomeOfPrefix | scripts/localization/localizable_strings_checker.rb:153-155 | A run that stops early gives the same outcome on any longer list of verdicts with the same beginning. |
| Runner.PositionedPlaceholderUnchecked | scripts/localization/localizable_strings_checker.rb:81-88 | Reference `%1$@ and %2$@` against target `%1$@`: the intended extraction finds `%2$@`, the target lacks it, and the run still passes. |
| Runner.PositionedLookupSkipped | scripts/localization/localizable_strings_checker.rb:84-88 | Reference `%1$@` against a target without the key: the intended extraction finds `%1$@`, the lookup would give nil, and the run fails at the target instead of crashing. |

## Left out

- Parsing `.strings` files (`Apfel.parse`): the three views are inputs. The
  model does not relate them to one another or to a file's text.
- The directory walk (`Find.find`) and its path filter: the targets are
  given as a list, in the order the walk would visit them.
- The command-line guard at lines 117-120 and `ARGV`. The guard is inverted
  as written: it exits with status 1 when two or more arguments are given.
- Printed output (`puts`): reports are returned as values instead of
  printed. Only their content is modelled, not their wording.
- The `nil` dereference in `check_replace_strings`:
  - `Checks.CheckReplaceStrings` excludes it by precondition, because Dafny
    has no uncaught exception;
  - `Runner.Run` reports it as `CrashedAt`.
- `i18nLocalizableStringsExample/ContentView.swift` is not part of this
  model. It is a SwiftUI view that only reads the localized strings.
- Regular expressions in general: the placeholder alternation and the
  lone-`%` pattern are modelled by what they match, not by a regex engine.
- Placeholders.Unescape: it reads only the escapes `Regexp.escape` writes (a
  backslash before a metacharacter, and `\n`, `\t`, `\r`, `\f`, `\v`). Other
  regular-expression syntax cannot occur in quoted text, so it is not modelled.
- The checks use the extraction as written (`Tokens`). The intended extraction
  (`IntendedTokens`) is modelled beside it, and the examples state both.
- Text.Uniq: the contract states the members and their distinctness, not that
  the first occurrences are kept in input order. The order only affects how a
  report is printed.
- Checks.Reject: the contract states which tokens are kept, not their order,
  for the same reason.
- Checks.BarePercentKeys: the contract states which keys are reported, not
  their order, for the same reason.

## Findings

| source | as written | input that shows it | evidently intended | confidence | as-written member | corrected member |
|---|---|---|---|---|---|---|
| scripts/localization/localizable_strings_checker.rb:81 | Each entry is quoted with `Regexp.escape`, and `Regexp.union` quotes the result again. The branch built from `%1$@` matches `%1\$@`, so no positioned placeholder is ever extracted or checked. | The value `%1$@ items (%d%%)` yields `%d`, `%%`. | The value yields `%1$@`, `%d`, `%%`: a scan for the `SPECIAL_STRINGS` entries themselves (`Regexp.union(SPECIAL_STRINGS)`). | high; not executed | Placeholders.MixedTokensAsWritten | Placeholders.MixedTokens |
