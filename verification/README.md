# Birthday mailer: address cleaning and the once-a-day send gate

A Dafny model of the logic in `birthday_mailer.py`. The program reads a spreadsheet of contacts. It
cleans and validates the EMAIL cell of every row, and repairs common typos where it can. It then
selects the rows whose date of birth falls on today's month and day, and sends each of their
addresses a birthday email, at most once per address and date. A per-date sent log records what
was delivered.

The model has eight modules, one file each:

- `Wrappers` (`wrappers.dfy`): the `Option` type.
- `PyStr` (`pystr.dfy`): the Python `str` operations the code relies on, over ASCII. These are
  `title`, `strip`, `lower`, `isprintable`, `count`, `split`, `join`, `replace` and
  `rstrip(chars)`.
- `Normalizer` (`normalizer.dfy`): `clean_email_raw`. It title-cases, strips, lower-cases and
  drops the non-printable characters.
- `Validator` (`validator.dfy`): `EMAIL_REGEX` and `is_valid_email_format`. The regular expression
  is written out as predicates over the `@`- and `.`-separated parts.
- `Corrector` (`corrector.dfy`): `attempt_email_correction`.
- `RunAnalytics` (`analytics.dfy`): the run's `analytics` dictionary as a class whose fields are
  updated in place, and the Python list that receives the rejected cells.
- `Resolver` (`resolver.dfy`): the nested `validate_email_entry`, which is the one the program
  calls. A cell is split on commas, and each piece is cleaned, validated and, failing that,
  corrected. A function of the cell specifies the result, and a method with a loop appends to the
  caller's list and to the correction notes.
- `Delivery` (`delivery.dfy`): the body of `check_birthdays_and_send_email`. It covers the
  cleaning pass over the rows, the content cache, today's birthdays, the nested send loop, and the
  per-date sent log. The cleaning loop is a method proved against `CleanRows`, and the nested send
  loop a method proved against `SendEach`; lemmas state the properties of those functions. The
  selection of today's birthdays is a pandas mask in the source, not a loop, so it is the function
  `BirthdaysToday`.

Delivery of a message is a parameter, `delivered: (nat, string) -> bool`. It says whether the
attempt with a given number (counting the attempts made so far in the run) to a given address
succeeds. A `false` stands for `send_birthday_email` raising.

Some behaviour of the code is easy to misread. The model keeps it as written:

- Cleaning is not idempotent. Stripping happens before the non-printable characters are dropped,
  so `"\0 a"` cleans to `" a"`, and cleaning that gives `"a"` (`Normalizer.ControlCharShieldsSpace`).
  `Normalizer.CleanOfClean` states what a second cleaning does.
- The cell `"a@b.com, bad, c@d,com"` yields both `a@b.com` and `c@d.com`. Splitting on commas
  comes before correction, so the piece `c@d` is corrected to `c@d.com`. The `,com` typo rule never
  sees a comma on this path.
- Python's `$` also matches just before a final newline, so the pattern accepts an address
  followed by one newline (`Validator.ValidIffWellFormed`). Cleaned text holds no newline, so on
  the program's own path this never happens.
- The "extra `@`" branch of `attempt_email_correction` rebuilds its input exactly, so it changes
  nothing (`Corrector.RejoinAtParts`).
- The `.com.` rule fires inside a longer domain too. The rejected `"john @example.com.au"` is
  corrected to `"john@example.comau"`, and that passes the format check
  (`Corrector.DotComDotJoinsLabels`).

## Model

| member | source | states |
|---|---|---|
| PyStr.TitleCaseOnly | birthday_mailer.py:55 | title-casing changes only letter case: lower-casing and whitespace are the same at every position |
| PyStr.Title | birthday_mailer.py:55 | title-casing keeps the length; with TitleCaseOnly, it changes only the case of letters |
| PyStr.LStrip | birthday_mailer.py:56 | the result is a suffix of the input that does not start with whitespace, and every dropped character is whitespace |
| PyStr.RStrip | birthday_mailer.py:56 | the result is a prefix of the input that does not end with whitespace, and every dropped character is whitespace |
| PyStr.Strip | birthday_mailer.py:56 | the result neither starts nor ends with whitespace, is a run of the input, and only whitespace lies outside it |
| PyStr.Lower | birthday_mailer.py:57 | same length, no upper-case letter left, every other character unchanged, and the same character as the input at every position once both are upper-cased |
| PyStr.LowerStrip | birthday_mailer.py:56-57 | stripping and lower-casing commute |
| PyStr.LowerTitle | birthday_mailer.py:55-57 | lower-casing a title-cased text equals lower-casing the text itself |
| PyStr.KeepPrintable | birthday_mailer.py:59 | a character is in the result exactly when it is in the input and printable; one character is kept exactly when printable; an all-printable text is kept whole |
| PyStr.KeepPrintableAppend | birthday_mailer.py:59 | the filter keeps the order: filtering a concatenation concatenates the results |
| PyStr.Count | birthday_mailer.py:66 | the count is at most the length, and zero exactly when the character is absent |
| PyStr.Split | birthday_mailer.py:68 | one more part than separators, and no part holds the separator |
| PyStr.JoinSplit | birthday_mailer.py:161-163 | joining the parts of a split with the same separator gives back the text |
| PyStr.Join | birthday_mailer.py:161 | joining parts free of the separator puts exactly one separator between neighbours |
| PyStr.Replace | birthday_mailer.py:167 | a replacement brings in no character that is neither in the text nor in the substitute |
| PyStr.ReplaceCount | birthday_mailer.py:167 | a replacement keeps the count of any character that is neither in the pattern nor in the substitute |
| PyStr.ReplaceDeletes | birthday_mailer.py:167 | replacing a character by nothing removes every occurrence of it |
| PyStr.ReplaceAbsent | birthday_mailer.py:167 | a text in which the pattern occurs nowhere is left unchanged |
| PyStr.ReplaceFirst | birthday_mailer.py:167 | when the first occurrence of the pattern starts right after `a`, the result is `a`, the substitute, then the replacement of the rest |
| PyStr.ReplaceOnce | birthday_mailer.py:167 | a pattern that occurs once, right after `a` and nowhere in what follows, is replaced by the substitute exactly once |
| PyStr.NoCharNoOccurrence | birthday_mailer.py:167 | a pattern holding a character the text lacks occurs nowhere in it |
| PyStr.SplitNoSeparator | birthday_mailer.py:171 | a text without the separator splits into itself alone |
| PyStr.SplitOnce | birthday_mailer.py:171 | a text with a single separator splits into the text before it and the text after it |
| PyStr.RStripCharsCount | birthday_mailer.py:169 | `rstrip` keeps the count of any character it does not strip |
| PyStr.RStripChars | birthday_mailer.py:169 | the result is a prefix of the input that does not end in a stripped character, and every dropped character is one of them |
| Normalizer.CleanEmailRaw | birthday_mailer.py:49-60 | `None` exactly for `None`; otherwise only printable characters and no upper-case letter |
| Normalizer.CleanText | birthday_mailer.py:53-59 | cleaning never lengthens a text |
| Normalizer.CleanTextShape | birthday_mailer.py:55-59 | cleaned text is printable and has no upper-case letter |
| Normalizer.CleanIsLowerStrip | birthday_mailer.py:55-59 | title-casing has no effect: the result is the stripped input, lower-cased, without its non-printable characters |
| Normalizer.ControlCharShieldsSpace | birthday_mailer.py:56-59 | a leading control character shields the space after it, so the result can start with a space; cleaning it again removes the space, so cleaning is not idempotent |
| Normalizer.CleanOfClean | birthday_mailer.py:49-60 | cleaning a cleaned text only strips it |
| Validator.IsValidEmailFormat | birthday_mailer.py:62-75 | an accepted text has exactly one `@`, a non-empty local part, and a non-empty domain holding a dot |
| Validator.MatchesAddress | birthday_mailer.py:36-40 | a text the pattern matches to its end has exactly one `@`, with non-empty text on both sides |
| Validator.RegexMatch | birthday_mailer.py:36-40 | whether or not a final newline is allowed by `$`, a match holds exactly one `@` |
| Validator.ValidIffWellFormed | birthday_mailer.py:62-75 | the check accepts exactly the texts that match the pattern with a dot in the domain, and those texts followed by one newline |
| Validator.NewlineExtendsDomain | birthday_mailer.py:38 | a final newline leaves the count of `@` alone and only lengthens the last `@`-part |
| Validator.ValidAddressParts | birthday_mailer.py:36-40 | an accepted text without a final newline is dot-separated atoms, one `@`, and at least two labels of 1 to 63 characters |
| Corrector.AttemptEmailCorrection | birthday_mailer.py:153-174 | `None` for the empty text, and a correction always differs from its input |
| Corrector.RejoinAtParts | birthday_mailer.py:158-165 | the branch for several `@` returns its input unchanged |
| Corrector.FixTypos | birthday_mailer.py:167 | the typo replacements remove every space and keep every `@` |
| Corrector.RewriteKeepsAtCount | birthday_mailer.py:158-172 | no rewriting step adds or removes an `@` |
| Corrector.CorrectionKeepsAtCount | birthday_mailer.py:155-174 | a correction has as many `@` as its input |
| Corrector.MultipleAtNeverValid | birthday_mailer.py:155-174 | an input with two or more `@` never yields a valid correction |
| Corrector.CorrectionShape | birthday_mailer.py:167-172 | a correction has no space, does not end in `,`, `.` or space, and with a single `@` has a dot after it |
| Corrector.RewriteHasNoSpace | birthday_mailer.py:167 | the replacement chain leaves no space |
| Corrector.Rewrite | birthday_mailer.py:158-172 | the rewritten text never ends in `,`, `.` or space |
| Corrector.RewriteDomainHasDot | birthday_mailer.py:171-172 | with a single `@`, the rewritten text has a dot after it |
| Corrector.CommaComRule | birthday_mailer.py:167 | the `,com` rule turns the comma before `com` into a dot, and the later rules leave that result alone |
| Corrector.OnlyDotAt | birthday_mailer.py:167 | `.com.` occurs nowhere in a text whose only dot is the one before `com` |
| Corrector.FixTyposNoop | birthday_mailer.py:167 | the typo rules leave alone a text with no comma, space or dot |
| Corrector.CompletesDomain | birthday_mailer.py:155-174 | an address with a single `@` and no comma, space or dot is corrected to itself followed by `.com` |
| Corrector.DomainLacks | birthday_mailer.py:171 | a character missing from a text with a single `@` is missing from the part after it |
| Corrector.DotComDotRewrite | birthday_mailer.py:167-172 | the space rule removes the space before the `@`, and the `.com.` rule drops the dot between `com` and the next label |
| Corrector.SpaceBeforeAtInvalid | birthday_mailer.py:36-40 | an address whose local part ends in a space fails the format check |
| Corrector.JoinedLabelsValid | birthday_mailer.py:36-40 | the address with `com` joined to the next label passes the format check |
| Corrector.DotComDotJoinsLabels | birthday_mailer.py:155-174 | a rejected address `a @b.com.c` (letters and digits in `a`, `b`, `c`) is corrected to `a@b.comc`, and that correction passes the format check |
| Resolver.StripNonEmpty | birthday_mailer.py:338 | a text is in the result exactly when it is non-empty and the stripped form of some part; a single part gives its stripped form unless that is empty |
| Resolver.StripNonEmptyAppend | birthday_mailer.py:338 | the comprehension keeps the order of the parts: a concatenation gives a concatenation |
| Resolver.CellText | birthday_mailer.py:334 | `str(val)`: a text cell gives its own text; `None` and NaN give texts that lower-case to `none` and `nan` |
| Resolver.IsMissing | birthday_mailer.py:334 | `None` and NaN are missing, and a text exactly when lower-cased it is empty, `nan` or `none` |
| Resolver.CorrectionNote | birthday_mailer.py:351 | the note holds the piece and the correction at fixed places, after `Corrected '` and before the closing quote, 18 characters longer than both |
| Resolver.ResolvePiece | birthday_mailer.py:341-361 | an accepted address, in either form, passes the format check, and a corrected one carries the note naming the piece and its correction |
| Resolver.ResolvePieceCases | birthday_mailer.py:341-361 | an empty cleaned piece is skipped; a piece is accepted as is exactly when its cleaned form is valid; a corrected piece had an invalid cleaned form and a valid correction; and a piece whose cleaned form is invalid but whose correction is valid is accepted in corrected form |
| Resolver.ResolvePieceComesFrom | birthday_mailer.py:341-352 | an accepted address is the cleaned piece or the correction of the cleaned piece |
| Resolver.ResolveAll | birthday_mailer.py:340-361 | no more addresses than pieces, and no more notes than addresses |
| Resolver.ResolveAllAppend | birthday_mailer.py:340-361 | addresses and notes come in the order of the pieces: resolving a concatenation concatenates the results |
| Resolver.AcceptedComeFrom | birthday_mailer.py:340-361 | every address is the outcome of one of the pieces |
| Resolver.AcceptedComeFromPieces | birthday_mailer.py:338-364 | every accepted address is the cleaned form or the correction of one of the cell's pieces |
| Resolver.ResolveAllCounts | birthday_mailer.py:340-361 | one address per piece accepted in either form, and one note per piece accepted in corrected form |
| Resolver.ResolvePieces | birthday_mailer.py:338-364 | no more addresses than pieces, and every one passes the format check |
| Resolver.ResolveCell | birthday_mailer.py:333-364 | a missing cell (`None`, `nan`, empty, in any case) yields nothing; otherwise no more addresses than pieces; every address passes the format check |
| Resolver.ResolveEach | birthday_mailer.py:339-361 | the loop returns the addresses of `ResolveAll` and appends its notes to the correction list |
| Resolver.ValidateEmailEntry | birthday_mailer.py:333-364 | returns the cell's accepted addresses, appends its correction notes, and appends the cell's text to the rejected list exactly when nothing was accepted |
| RunAnalytics.Analytics.constructor | birthday_mailer.py:289-298 | a run starts with every counter zero and both lists empty |
| RunAnalytics.Analytics.FromRecord | birthday_mailer.py:304-310 | the analytics read back from the cache are the stored ones |
| RunAnalytics.TextList.constructor | birthday_mailer.py:331 | the rejected-cell list starts empty |
| Delivery.CleanRows | birthday_mailer.py:366-368 | each row is counted once, either as a kept row or as a rejected cell, and every kept row holds an address |
| Delivery.CleanRowsSingle | birthday_mailer.py:362-368 | a row is kept exactly when its cell yields an address, with those addresses and its own DOB; otherwise its cell text is recorded as invalid; its notes are recorded either way |
| Delivery.CleanRowsAppend | birthday_mailer.py:366-368 | the pass keeps the order of the rows: kept rows, notes and rejected cells of a concatenation are those of the parts, concatenated |
| Delivery.CleanedPeopleValid | birthday_mailer.py:366-369 | every address of a kept row passes the format check |
| Delivery.CleanRow | birthday_mailer.py:366-368 | one row's step of the loop is one more row of `CleanRows` |
| Delivery.CleanLoop | birthday_mailer.py:366-368 | the loop yields the kept rows, the rejected cells and the notes of `CleanRows` |
| Delivery.CleanDataset | birthday_mailer.py:366-370 | the kept rows of `CleanRows`; `valid_emails` counts kept rows, not addresses; the rejected cells replace `invalid_emails` |
| Delivery.BirthdaysToday | birthday_mailer.py:376-380 | only kept rows whose DOB parsed and has today's month and day are selected |
| Delivery.BirthdaysTodayComplete | birthday_mailer.py:376-380 | every kept row with a parsed DOB on today's month and day is selected |
| Delivery.BirthdaysTodayAppend | birthday_mailer.py:380 | selection keeps the order of the rows |
| Delivery.SendEach | birthday_mailer.py:393-405 | every address is counted exactly once, as sent, failed or skipped |
| Delivery.SendOne | birthday_mailer.py:396-405 | one address is counted once; it is skipped exactly when already in today's set; it is sent exactly when not in the set and its attempt succeeds, and only then added to the set |
| Delivery.SentTodayBounds | birthday_mailer.py:396-400 | today's set only grows, and only by addresses of the selected rows |
| Delivery.SendEachAppend | birthday_mailer.py:393-405 | the loop over all rows is the loop over the first rows followed by the loop over the rest |
| Delivery.DeliveredOnce | birthday_mailer.py:396-400 | the addresses added to today's set are exactly as many as the successful sends, so no address is delivered twice in a day |
| Delivery.SentAddressesNeverRetried | birthday_mailer.py:396-405 | no send is attempted to an address already in today's set: the outcome does not depend on delivery to such addresses |
| Delivery.SkippedWhenSent | birthday_mailer.py:404-405 | addresses already in today's set are only counted as skipped |
| Delivery.DeliveredIff | birthday_mailer.py:396-403 | an address is in today's set afterwards exactly when it was before or one of its attempts succeeded; failed addresses are not added |
| Delivery.SendTo | birthday_mailer.py:396-405 | one address: skipped when already delivered today; otherwise one attempt, and only a success adds it to today's set |
| Delivery.SendRow | birthday_mailer.py:395-405 | the inner loop over one row's addresses is `SendEach` over those addresses |
| Delivery.SendToAll | birthday_mailer.py:393-405 | the nested loop grows today's set and the three counters as `SendEach` over all selected addresses does |
| Delivery.LoggedOn | birthday_mailer.py:390 | an address is logged for the date exactly when the log has an entry for that date holding it; with no entry, nothing is logged |
| Delivery.SendAndLog | birthday_mailer.py:388-408 | today's entry gates the loop and is replaced by the grown set; every other date keeps its entry |
| Delivery.CacheHit | birthday_mailer.py:303 | no stored cache is a miss; a stored one is a hit exactly when its fingerprint matches the file's |
| Delivery.LoadCleaned | birthday_mailer.py:300-373 | a matching fingerprint reuses the stored rows and analytics; otherwise a fresh cleaning pass, with no send counted, is stored; either way the cache holds what the run uses |
| Delivery.SelectAndSend | birthday_mailer.py:375-411 | with no birthday the log is untouched and only `birthdays_found` changes; otherwise only today's entry changes, to the grown set, the counters grow by the sends, failures and skips, and the status reports the emails sent |
| Delivery.CheckBirthdaysAndSendEmail | birthday_mailer.py:284-411 | the rows and analytics are the cached ones on a fingerprint match and a stored fresh cleaning otherwise, and the rest of the run is the effect `SelectAndSend` states |

## Left out

- Sending mail (SMTP, MIME, the image attachment, `retry_sendmail`) and the Telegram notification are network I/O. Delivery is the `delivered` parameter.
- `has_mx_record` is a DNS lookup. Its calls on the modelled path are commented out in the source.
- The module-level `validate_email_entry` (lines 120-151) is not part of this model. The nested definition shadows it and the program never calls it.
- `get_file_hash` (SHA-256 of the file) is an opaque `fingerprint: nat`. The cache decision compares fingerprints.
- Pickle persistence of the cache and of the sent log is not modelled. Both are in-memory objects (`ContentCache`, `SentLog`).
- Reading the spreadsheet (`pandas.read_excel`) and the header clean-up are not modelled. Nor is the exception for a missing EMAIL or DOB column; rows arrive as `Row` values.
- `pd.to_datetime` is not modelled; the DOB arrives already parsed, as an optional month and day.
- Cells are `None`, NaN or text. Numeric cells, which Python turns into text with `str`, are not modelled separately.
- `setdefault` on the cached analytics has no effect in the model, because a stored `Record` always has every field.
- Python's `title`, `strip`, `lower`, `isprintable` and the `IGNORECASE` pattern are modelled over ASCII. Any other character counts as non-printable, not whitespace, and not a letter. So the model cleans `"josé@x.com"` to `"jos@x.com"` and accepts it, where Python keeps the `é` and then rejects the address.
- The `.env` configuration, the printed messages and the report of the `__main__` block are presentation. The status message is the `Status` datatype.
- `update_data.py` only copies and deletes files.
- Delivery.SelectAndSend: states that the sent log is unchanged when no birthday is found, but not that it is never read, since a Dafny method has no read frame.
