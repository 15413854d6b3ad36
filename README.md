# LehrgangsMelder: record identity and deduplication

LehrgangsMelder watches the training calendar of a district fire-brigade association. It runs in
two stages.

- The **scrape stage** (`bin/monitor.py`) reads the dates table of the web page. It keeps the rows
  whose description matches a search term. It appends the courses not seen before to
  `data/termine.json`.
- The **notify stage** (`bin/mail_notifier.py`) compares that file with the snapshot of the last
  mail (`data/last_sent.json`). It composes a digest of the new courses, archives it as a text
  file, mails it, and then advances the snapshot.

This Dafny project models the logic both stages use to decide which course records are "the
same" and which are new.

- `wrappers.dfy` (`Wrappers`) holds the `Option` type.
- `text.dfy` (`Text`) models the parts of Python's `str` the code relies on:
  - the `isspace` character set;
  - `strip` and the whitespace collapse `re.sub(r'\s+', ' ', s)`;
  - `lower`;
  - `in`, `split(sep)`, `sep.join`, `replace`;
  - the code-point order of `sort`, and `str(n)`.
- `records.dfy` (`Records`) has:
  - the course record;
  - the `" - "` convention that splits a description into course name and status;
  - the JSON record files, as a `RecordStore` class whose list the stages reassign.
- `monitor.dfy` (`Monitor`) covers the scrape stage:
  - `bereinige_text` and the normalised key;
  - the search terms;
  - the row extractor, a method with a loop, proved against a specification function;
  - the merge loop and one run of `main`.
- `notifier.dfy` (`MailNotifier`) covers the notify stage:
  - the raw key and the differencer;
  - per-entry text and HTML formatting;
  - subject and body;
  - the archive (a `MailArchive` class);
  - the guards of `sende_email` and one run of `main`.
- `pipeline.dfy` (`Pipeline`) relates the two stages' keys to each other. It shows that a notify
  run right after a scrape run reports exactly the records the scrape run appended.

Whatever lies outside the model enters as a parameter. This covers environment variables,
the fetched page, the contents of the JSON files, timestamps, whether a file write or the SMTP
exchange succeeds, and the outcome of `int()` and of the credential manager.

## Model

| member | source | states |
|---|---|---|
| `Text.Squeeze` | bin/monitor.py:36 | The collapse leaves no two adjacent whitespace characters and only plain spaces. It never lengthens the text, and it is empty only for empty input. |
| `Text.SqueezeLast` | bin/monitor.py:36 | The collapsed text ends in whitespace exactly when the input does. |
| `Text.Words` | bin/monitor.py:36 | The words of a text are its maximal runs of non-whitespace, in order. Each is non-empty and holds no whitespace. |
| `Text.SqueezeWords` | bin/monitor.py:36 | The collapse keeps the sequence of words unchanged. |
| `Text.StripWords` | bin/monitor.py:37 | Stripping keeps the sequence of words unchanged. |
| `Text.UnwordsWords` | bin/monitor.py:34-37 | A text in normalised form is its words joined by single spaces. |
| `Text.SqueezeFixed` | bin/monitor.py:36 | Text that is already collapsed is returned unchanged. |
| `Text.Strip` | bin/monitor.py:37 | The result has no whitespace at either end. It is a slice of the input with only whitespace cut on both sides, and it is empty exactly when the input is all whitespace. |
| `Text.StripShape` | bin/monitor.py:37 | `rstrip` after `lstrip` removes exactly a whitespace prefix and a whitespace suffix. |
| `Text.StripFixed` | bin/monitor.py:37 | Text without whitespace at its ends is returned unchanged. |
| `Text.LowerProperties` | bin/monitor.py:42 | Lower-casing gives a lower-case string and is idempotent. It keeps canonical spacing. |
| `Text.Lower` | bin/monitor.py:42 | Defined character by character, so the length is kept. `LowerProperties`, `StripLower` and `SqueezeLower` state its properties. |
| `Text.StripLower` | bin/monitor.py:37-42 | Stripping before or after lower-casing gives the same text, because lower-casing touches no whitespace. |
| `Text.SqueezeLower` | bin/monitor.py:36-42 | Collapsing whitespace before or after lower-casing gives the same text. |
| `Text.SplitOn` | bin/monitor.py:47 | `split` gives at least one piece, and at least two once the separator occurs. |
| `Text.JoinSplit` | bin/monitor.py:47 | Joining the pieces of a split with the same separator restores the string. |
| `Text.SplitPiecesFree` | bin/monitor.py:47 | No piece of a split contains the separator. |
| `Text.SplitJoin` | bin/monitor.py:82 | Splitting a join gives the pieces back when no separator starts inside a piece. |
| `Text.SplitJoinChar` | bin/monitor.py:82 | Splitting at a one-character separator undoes joining pieces that do not hold that character. |
| `Text.SplitSecond` | bin/mail_notifier.py:121-124 | The second piece of a split is the first piece of the text after the first separator. |
| `Text.ReplaceAll` | bin/mail_notifier.py:91 | Defined as the left-to-right, non-overlapping `replace`. `ReplaceAllSplitJoin` states what it computes. |
| `Text.ReplaceAllSplitJoin` | bin/mail_notifier.py:91 | `s.replace(pat, repl)` equals `repl.join(s.split(pat))`: every occurrence becomes `repl` and the text between occurrences stays. |
| `Text.SplitOnSkip` | bin/mail_notifier.py:91 | When no separator starts at the first character, that character opens the first piece and the other pieces are those of the rest. |
| `Text.NonBlankStripped` | bin/monitor.py:110 | The kept lines are non-empty and stripped, and there are no more of them than input lines. None are kept exactly when every line is blank. |
| `Text.NonBlankStrippedFrom` | bin/monitor.py:110 | Every kept line is the stripped form of an input line. |
| `Text.NonBlankStrippedOne` | bin/monitor.py:110 | One line gives its stripped text, or nothing when it is blank. |
| `Text.NonBlankStrippedAppend` | bin/monitor.py:110 | Filtering two blocks of lines gives the filtered first block followed by the filtered second, so every non-blank line is kept, in order. |
| `Text.NonBlankStrippedKeeps` | bin/monitor.py:110 | Lines that are already non-empty and stripped are all kept, unchanged and in order. |
| `Text.CommaList` | bin/monitor.py:82 | Every item is non-empty, trimmed and free of commas. There are none exactly when every comma-separated piece is blank. |
| `Text.CommaListJoin` | bin/monitor.py:82 | Non-empty, trimmed, comma-free items joined with commas come back unchanged and in order. |
| `Text.StrLeTotal` | bin/monitor.py:145 | Python's string order is total. |
| `Text.StrLeAntisym` | bin/monitor.py:145 | Python's string order is antisymmetric. |
| `Text.StrLeTrans` | bin/monitor.py:145 | Python's string order is transitive. |
| `Text.MinStr` | bin/monitor.py:145-147 | The first element after sorting belongs to the list and is below every element. |
| `Text.MaxStr` | bin/monitor.py:145-147 | The last element after sorting belongs to the list and is above every element. |
| `Text.NatToString` | bin/mail_notifier.py:313 | `str(n)` is a non-empty string of decimal digits with no leading zero, so `"0"` is the only rendering that starts with `0`. |
| `Text.NatToStringRoundTrip` | bin/mail_notifier.py:313 | Reading the digits of `str(n)` back gives `n`. |
| `Records.CoursePartIdempotent` | bin/monitor.py:45-47 | The course part never contains `" - "`, so taking it twice changes nothing. |
| `Records.CoursePartPrefix` | bin/mail_notifier.py:68-70 | The course part is the text before the first `" - "`, or the whole description without one. |
| `Records.CoursePartIgnoresStatus` | bin/monitor.py:44-47 | The course part of `kurs + " - " + status` does not depend on the status. |
| `Records.SplitDescription` | bin/monitor.py:137-140 | For `kurs + " - " + status` with no separator inside `kurs`, the split yields `kurs`, and yields `status` when it holds no separator. |
| `Records.StatusPartNext` | bin/monitor.py:137-140 | The second piece is the course part of the text after the first `" - "`: it runs up to the next separator or the end. |
| `Records.StatusOfThreePieces` | bin/monitor.py:137-140 | For `kurs + " - " + mitte + " - " + rest`, the course is `kurs` and the status is `mitte`, not the text after the last separator. |
| `Records.SplitFieldsReassemble` | bin/monitor.py:135-140 | Stored course name and status rebuild the start of the description, and the whole of it when there is one separator. The status is the text after the first separator up to the next one. Without a separator the course name is the description and the status is empty. |
| `Records.RecordStore.Load` | bin/monitor.py:56-67 | A missing file, a file that is not valid JSON, or a file whose value is not a list loads as the empty list. |
| `Records.LadeJson` | bin/monitor.py:56-67 | Defined as the list when the file holds one, otherwise the empty list. `RecordStore.Load` states it for the stored list. |
| `Records.RecordStore.Extend` | bin/monitor.py:202-204 | The stored list becomes the old list followed by the new entries. |
| `Records.RecordStore.Overwrite` | bin/mail_notifier.py:336-337 | The snapshot becomes exactly the given list. |
| `Monitor.BereinigeText` | bin/monitor.py:34-37 | No whitespace at the ends, only single plain spaces inside, and the same non-whitespace characters in the same order. |
| `Monitor.BereinigeTextWords` | bin/monitor.py:34-37 | The result is the words of the text joined by single spaces. |
| `Monitor.BereinigeTextLower` | bin/monitor.py:34-42 | Lower-casing before or after normalising gives the same text. |
| `Monitor.BereinigeTextFixed` | bin/monitor.py:34-37 | Normalised text is a fixed point, so applying the normaliser twice equals applying it once. |
| `Monitor.ErstelleKey` | bin/monitor.py:39-54 | Defined as the normalised lower-cased date, a pipe character, and the normalised lower-cased course part. Its properties are the `Key` rows below. |
| `Monitor.KeyPartNormalised` | bin/monitor.py:42-49 | A key half is normalised and lower case, and normalising it again changes nothing. |
| `Monitor.KeyHalves` | bin/monitor.py:39-54 | The key is two halves around a pipe character. The first depends on the date only, the second on the course part only, and both are normalised and lower case. |
| `Monitor.KeyIgnoresStatus` | bin/monitor.py:44-54 | Changing only the status after `" - "` leaves the key unchanged. |
| `Monitor.KeyIgnoresSpacingAndCase` | bin/monitor.py:42-54 | Normalising the date first, lower-casing it first, or both, gives the same key. |
| `Monitor.HoleSuchbegriffe` | bin/monitor.py:74-84 | An empty value gives the three default terms. Otherwise the terms are the stripped non-blank comma-separated pieces, in order; they are non-empty and comma-free, with none exactly when every piece is blank. |
| `Monitor.HoleSuchbegriffeRoundTrip` | bin/monitor.py:74-84 | Non-empty, trimmed, comma-free terms written as a comma-separated value are read back exactly, in order. |
| `Monitor.ExtrahiereTermine` | bin/monitor.py:86-166 | The loop returns the specification's records. There are none without a table or with at most one row. Otherwise each row contributes its records in row order. |
| `Monitor.RowRecords` | bin/monitor.py:104-164 | Defined as the records of one row. `RowOutcome` states what they are. |
| `Monitor.Collect` | bin/monitor.py:103-164 | Defined as the rows' records in row order. `CollectAppend` states the order. |
| `Monitor.Extracted` | bin/monitor.py:86-166 | Defined as no records without a table or with at most one row, otherwise the rows' records. `ExtractedEmpty` and `ExtractedWellFormed` state its properties. |
| `Monitor.RowOutcome` | bin/monitor.py:104-164 | A row yields at most one record. It yields one exactly when it has 3 cells, a non-blank date line and a description matching a term. The record's date, description, place and split fields are as computed from the cells. |
| `Monitor.TerminTextRange` | bin/monitor.py:143-147 | Two or more dates become `lo - hi`, with `lo` and `hi` among them and below and above all of them. |
| `Monitor.TerminTextOrderFree` | bin/monitor.py:143-147 | The range does not depend on the order in which the dates are listed. |
| `Monitor.TerminTextOfTwo` | bin/monitor.py:143-147 | Two dates give earlier, `" - "`, later, in either input order. |
| `Monitor.TerminTextExample` | bin/monitor.py:41 | `["25.10.2025", "10.10.2025"]` gives `"10.10.2025 - 25.10.2025"`. |
| `Monitor.CollectAppend` | bin/monitor.py:103-164 | Records follow row order: two blocks of rows give the concatenation of their records. |
| `Monitor.RowWellFormed` | bin/monitor.py:104-164 | A row's record matches a search term, has split fields, a normalised place and a non-empty date. |
| `Monitor.CollectWellFormed` | bin/monitor.py:103-164 | Every record from a sequence of rows is well formed. |
| `Monitor.ExtractedWellFormed` | bin/monitor.py:86-166 | Every extracted record is well formed. |
| `Monitor.CollectNoTerms` | bin/monitor.py:129-132 | With no search term, no row is kept. |
| `Monitor.ExtractedEmpty` | bin/monitor.py:91-100 | No record without a table, with at most one row, or with no search term. |
| `Monitor.FreshEntries` | bin/monitor.py:194-199 | Defined as the candidates kept by the merge loop. The `FreshEntries` lemmas state its properties. |
| `Monitor.FreshEntriesStep` | bin/monitor.py:195-199 | A candidate is appended exactly when its key is not yet known, and its key then becomes known. |
| `Monitor.NewEntries` | bin/monitor.py:190-199 | The loop over the key set returns the candidates whose key is neither stored nor taken by an earlier candidate. |
| `Monitor.KeySetAppend` | bin/monitor.py:191 | The key set of two lists is the union of their key sets. |
| `Monitor.FreshEntriesMembers` | bin/monitor.py:195-199 | Every appended entry is a candidate whose key is absent from the stored keys. |
| `Monitor.FreshEntriesOrder` | bin/monitor.py:195-199 | Appended entries keep the candidates' order. |
| `Monitor.FreshEntriesDistinct` | bin/monitor.py:195-199 | Appended entries have pairwise distinct keys. |
| `Monitor.FreshEntriesNew` | bin/monitor.py:190-199 | Appended entries are, in candidate order, candidates with unknown and pairwise distinct keys. |
| `Monitor.FreshEntriesSnoc` | bin/monitor.py:195-199 | A candidate added at the end is kept exactly when its key is neither stored nor the key of an earlier candidate. |
| `Monitor.FreshEntriesFirst` | bin/monitor.py:190-199 | The merge keeps exactly the candidates whose key is not stored and not the key of an earlier candidate, in order. Of several candidates with one new key, the first is appended. |
| `Monitor.FreshEntriesCover` | bin/monitor.py:195-199 | Afterwards every candidate's key is stored or appended. |
| `Monitor.FreshEntriesNone` | bin/monitor.py:195-199 | Nothing is appended when every candidate key is already stored. |
| `Monitor.MergeIdempotent` | bin/monitor.py:190-204 | Re-running the merge with the same candidates appends nothing. |
| `Monitor.MergeKeepsKeysDistinct` | bin/monitor.py:190-204 | A store whose keys are distinct keeps them distinct after the merge. |
| `Monitor.RunMonitor` | bin/monitor.py:168-204 | A failed fetch changes nothing. Otherwise the store becomes the old list followed by the fresh extracted records. |
| `MailNotifier.ErstelleKey` | bin/mail_notifier.py:62-75 | Defined as the date, a pipe character and the course part. `KeyShape` states its shape. |
| `MailNotifier.KeyShape` | bin/mail_notifier.py:62-75 | The key is the unchanged date, a pipe character, and the raw text before the first `" - "`, with no case or space normalisation. |
| `MailNotifier.KeyIgnoresStatus` | bin/mail_notifier.py:62-75 | Changing only the status part of the description, the place or the status field leaves the key unchanged. |
| `MailNotifier.FindNewEntries` | bin/mail_notifier.py:300-307 | The loop returns the current records whose key is absent from the last-sent keys, in order. |
| `MailNotifier.NewSince` | bin/mail_notifier.py:300-307 | Defined as the current records whose key is absent from the last-sent keys. The `NewSince` lemmas state its properties. |
| `MailNotifier.NewSinceFilter` | bin/mail_notifier.py:300-307 | A record is reported if and only if it is current and its key is absent. The result is never longer than the input. |
| `MailNotifier.NewSinceOrder` | bin/mail_notifier.py:300-307 | The new entries are a subsequence of the current records. |
| `MailNotifier.NewSinceEmpty` | bin/mail_notifier.py:300-307 | Nothing is new if and only if every current key was sent before. |
| `MailNotifier.NewSinceAll` | bin/mail_notifier.py:300-307 | With no current key sent before, all current records are new, duplicates included. |
| `MailNotifier.NewSinceUnchanged` | bin/mail_notifier.py:300-307 | Comparing a list with a snapshot of itself finds nothing. |
| `MailNotifier.NewSinceAppend` | bin/mail_notifier.py:304-307 | The difference of two blocks is the concatenation of their differences. |
| `MailNotifier.KursUndStatus` | bin/mail_notifier.py:118-126 | Defined as the first two pieces of the description, or the description and `"unbekannt"`. `KursUndStatusCases` states what they are. |
| `MailNotifier.KursUndStatusCases` | bin/mail_notifier.py:118-126 | Without `" - "`: the whole description and `"unbekannt"`. With one: the course is the key's course part, and the status is the text after the first separator up to the next one. Together they start the description and hold no separator. |
| `MailNotifier.KursUndStatusRoundTrip` | bin/mail_notifier.py:118-126 | `kurs + " - " + status` is shown as that course and that status. |
| `MailNotifier.FormatiereEintragText` | bin/mail_notifier.py:115-136 | Defined as the eight lines of the entry joined by line breaks. `FormatiereEintragTextLines` states it. |
| `MailNotifier.FormatiereEintragTextLines` | bin/mail_notifier.py:128-136 | When no field holds a line break, the text block splits back into its eight lines: blank, course, rule, date, status, place, rule, blank. |
| `MailNotifier.OrtHtml` | bin/mail_notifier.py:91 | Defined as the replacement of `". "` by `".<br>"`. The next rows state its properties. |
| `MailNotifier.OrtHtmlSplitJoin` | bin/mail_notifier.py:91 | The shown place is the pieces of the place between its `". "` occurrences, joined by `".<br>"`. |
| `MailNotifier.OrtHtmlJoin` | bin/mail_notifier.py:91 | Lines joined by `". "`, none holding `". "` itself, are shown as the same lines joined by `".<br>"`. |
| `MailNotifier.OrtHtmlShape` | bin/mail_notifier.py:91 | After the rewrite no `"."` is followed by a space. |
| `MailNotifier.OrtHtmlNoDotSpace` | bin/mail_notifier.py:91 | The rewritten place contains no `". "`. |
| `MailNotifier.OrtHtmlFixed` | bin/mail_notifier.py:91 | A place without `". "` is shown unchanged. |
| `MailNotifier.FormatiereEintragHtml` | bin/mail_notifier.py:77-113 | Defined as the four values placed into the HTML block. `FormatiereEintragHtmlAgrees` states them. |
| `MailNotifier.FormatiereEintragHtmlAgrees` | bin/mail_notifier.py:77-113 | The HTML entry shows the same course, status and date as the text entry, and a place with no `". "` left. |
| `MailNotifier.Subject` | bin/mail_notifier.py:312-318 | Defined as the count subject with new entries and the no-entries subject without. `SubjectSentinel` and `SubjectCount` state its properties. |
| `MailNotifier.Digest` | bin/mail_notifier.py:312-319 | Defined as headline and entry blocks, or the no-entries sentence. `ComposeDigest` and `AppendEntryTexts` state it. |
| `MailNotifier.ComposeDigest` | bin/mail_notifier.py:312-319 | The subject and text are the count subject with headline and entry blocks, or the no-entries subject and sentence. |
| `MailNotifier.AppendEntryTexts` | bin/mail_notifier.py:314-316 | The `+=` loop appends the entry blocks in order. |
| `MailNotifier.SubjectSentinel` | bin/mail_notifier.py:312-318 | The subject contains `"Keine neuen Lehrgänge gefunden"` if and only if there are no new entries. |
| `MailNotifier.SubjectCount` | bin/mail_notifier.py:313 | With new entries the subject is the prefix, decimal digits and `)`. The digits read back as the number of new entries. |
| `MailNotifier.ShouldArchive` | bin/mail_notifier.py:141-148 | Defined as the two toggles. `ArchiveToggles` states their effect. |
| `MailNotifier.ArchiveToggles` | bin/mail_notifier.py:141-148 | Nothing is archived unless `SAVE_EMAILS` is "true" in any case. A no-entries mail is not archived unless `SAVE_EMPTY_EMAILS` is too. Both unset means archive. |
| `MailNotifier.RemoveForbidden` | bin/mail_notifier.py:158 | No backslash, slash, star, question mark, colon, double quote, angle bracket or pipe character survives. Every character left comes from the input, and clean text is unchanged. |
| `MailNotifier.RemoveForbiddenChar` | bin/mail_notifier.py:158 | A single forbidden character is deleted and any other character is kept. |
| `MailNotifier.RemoveForbiddenAppend` | bin/mail_notifier.py:158 | The deletion works piece by piece, so it keeps every other character in order. |
| `MailNotifier.SpacesToUnderscores` | bin/mail_notifier.py:159 | Same length; at every position a space becomes `_`, any other character is kept, and no space is left. |
| `MailNotifier.SafeBetreff` | bin/mail_notifier.py:157-159 | The sanitised subject has no forbidden character and no space, and is no longer than the subject. |
| `MailNotifier.SafeBetreffFixed` | bin/mail_notifier.py:157-159 | A safe subject is kept as it is, so sanitising twice changes nothing. |
| `MailNotifier.ArchiveFilenameInDir` | bin/mail_notifier.py:151-162 | The file lies directly in the archive directory and ends in `.txt`. |
| `MailNotifier.Archived` | bin/mail_notifier.py:138-174 | Only the file named by directory, timestamp and subject may change. When both toggles allow and the write succeeds it holds the `Betreff:`/`Datum:` header, 50 dashes and the text, replacing any earlier content. Otherwise nothing changes. |
| `MailNotifier.ArchiveSameSecond` | bin/mail_notifier.py:155-166 | Two archivings of one subject within the same second write one file name, so the second replaces the first. |
| `MailNotifier.ArchiveApart` | bin/mail_notifier.py:155-166 | Two archivings of one subject at different timestamps of the same length leave two files. |
| `MailNotifier.MailArchive.Save` | bin/mail_notifier.py:138-174 | The archive directory becomes `Archived` of its old contents. |
| `MailNotifier.PlanSend` | bin/mail_notifier.py:187-222 | Each guard in code order stops it with its own outcome: no entries (exactly when the list is empty), a port that does not parse, no recipients, no credential manager, no credentials. When every guard passes it is ready. When ready it holds the parsed recipients and the environment credentials, or, when either is unset or empty, the stored ones. |
| `MailNotifier.SendeEmail` | bin/mail_notifier.py:176-284 | Returns true if and only if every guard passes and the SMTP exchange succeeds. When every guard passes the archive becomes `Archived` of its old contents; otherwise it is unchanged. |
| `MailNotifier.RunNotifier` | bin/mail_notifier.py:286-338 | Reports the records new since the snapshot and always archives the digest. It sends only when something is new, archiving a second time when every guard passes. The snapshot is replaced by the current list exactly when something is new, whether or not the mail went out. |
| `Pipeline.MailKeyDeterminesMonitorKey` | bin/mail_notifier.py:62-75 | With dates free of pipe characters, equal raw keys imply equal normalised keys. |
| `Pipeline.KeysDisagreeOnCase` | bin/monitor.py:42-49 | Course names differing only in case or spacing share the normalised key but not the raw key. |
| `Pipeline.CaseVariantsExample` | bin/monitor.py:42-49 | `"TM2"` and `"tm2"` are such a pair. |
| `Pipeline.NotifierReportsMerged` | bin/mail_notifier.py:300-307 | After a merge that appends records whose dates hold no pipe character, the notify stage reports exactly the appended records. The snapshot it then writes is again in step with the store. |

## Left out

- Fetching the page with `requests` and parsing it with BeautifulSoup and lxml. The table is an input:
  - `None` when the page has no table;
  - otherwise rows of cells, each with its `get_text(separator="\n")` text and its optional stripped `h3` text.
- The header row is not skipped specially. The code iterates `rows[0:]` despite its comment, and the model does the same. A header row of `th` cells has no three `td` cells and is dropped by the cell-count guard.
- `lade_json`/`speichere_json`: reading and writing files. The file's content is an input (missing, not valid JSON, not a list, or a list of records). Records with missing or non-string fields are not modelled.
- A record file that is not valid UTF-8: `lade_json` catches only `json.JSONDecodeError`, so the `UnicodeDecodeError` ends the run. The model has no such file content; every file it models either loads or reads as the empty list.
- `os.makedirs` failing, and any exception during the archive write other than the write itself failing. The write outcome is an input.
- `MailNotifier.Archived`: a failed archive write leaves the directory unchanged in the model. In the code `open(filename, "w")` creates or truncates the file first, so a write that fails after the open leaves an empty or partial file under the computed name; the model does not capture that file.
- The MIME message, the HTML mail body and its CSS, the SMTP session, and `CredentialManager`. Whether `int(SMTP_PORT)` succeeds, whether the credential manager starts, the stored credentials and whether the SMTP exchange succeeds are inputs. Exceptions outside these are not modelled.
- The HTML entry keeps only the four values placed into its template, not the markup around them.
- `datetime.now()`: the file-name timestamp and the `Datum:` line are inputs.
- Logging.
- `termine.sort()` is modelled by its first and last element (`MinStr`, `MaxStr`), the only ones the code reads. The sorted list itself is not built.
- `Text.Lower`: does not model Unicode case mapping beyond ASCII and Latin-1 capitals, because the model has no Unicode tables. Characters outside those ranges are left unchanged.
- `Pipeline.NotifierReportsMerged` and `Pipeline.MailKeyDeterminesMonitorKey`: assume no date contains `|`. A `|` inside a date could make two different (date, course) pairs share a key in either stage.
- When there are new entries and every guard of `sende_email` passes, the digest is archived twice: once by `main` and once by `sende_email`. `MailNotifier.RunNotifier` states both writes. Within one second both writes go to the same file name, and the second replaces the first (`MailNotifier.ArchiveSameSecond`).
- `bin/run_monitor_and_notify.py`, `setup.py` and `src/utils` are not part of this model.
