# Task tracker store, modelled in Dafny

This project models the storage core of a small task tracker written in Go, and proves
properties of the model.

## The three components

**The file-backed task store** (`TaskRepositoryFile`). It keeps its tasks in one text file
laid out as a JSON array: `"[\n"`, then the encoded records joined by `",\n"`, then `"\n]"`. It
has three operations:

- An append overwrites the closing marker at a remembered byte offset and writes the marker again.
- An update scans the file line by line and rewrites the lines that hold the text `"Id":<n>`.
- A delete scans the same way and removes the last such line.

After an update or a delete, the whole file is truncated and every line is written back
followed by a newline.

**The whole-list service operations.** This is an earlier layer. Each operation loads the
complete list, changes it in memory and writes all of it back:

- append;
- set the description or the status of the first task with an id;
- delete by moving the last task into the deleted slot;
- filter by status, keeping the tasks equal to it or the tasks different from it.

**The status enumeration.** It has three named values with display strings.

## Modules

- `Wrappers`: `Option` and `Result`.
- `Models`: `TaskStatus`, `String`, `EnumIndex`, the `Task` record, and an update's fields.
  `DateTime` is an opaque type.
- `Text`:
  - the tokens of a line scanner (`Lines`);
  - the write-back of lines, each followed by a newline (`Unlines`);
  - literal substring matching, which is what the store's regular expression does;
  - `%d` formatting;
  - the removal of one trailing comma.
- `Codec`:
  - the JSON codec as a value of function type;
  - the predicate `Lawful`, which collects the facts the store relies on;
  - the store's file layout (`ArrayText`, `FileLines`).
- `Repository`: the class `TaskRepositoryFile`.
  - Fields: `file` (the content), `offset` and `sequenceId`.
  - Each method is proved equal to a step function that states what the code does to the file.
- `RepositoryLayout`: what these steps, as written, do to a correctly laid-out file.
- `RepositoryFixes`: three places where the code does not do what it evidently intends. Each
  comes with a corrected definition beside it.
- `Services`: the whole-list operations over `seq<Task>`: methods with loops where the code
  loops, and a function for the append.
  - Reading the file is an outcome given as a parameter.
  - The write is observed as the list marshalled and written, by `writeTaskList` or by the
    same two calls inline.

The class models the code **as written**:

- After an append, `offset` is just past the characters written, closing marker included.
  That is the end of the file only when the write reached the old end.
- An update always cuts the last character of a matched line.
- A match is a substring match.
- A delete whose match is on line 0 of a two-line file hits the index -1, which panics in Go.
  The model returns `IndexOutOfRange` instead.

## Where the code departs from its evident intent

The id counter starts from the id of the last stored record, or 0 for an empty array, and
each append hands out the next value. In each case below the model follows the code:

- **Id counter on failure.** The counter advances before the marshal and the write
  (repository/repository.go:81), so a failed append still uses up an id. The evident intent is
  that only a stored task consumes an id.
- **Cursor after an append.** The cursor ends after the closing marker. The evident intent is
  that it ends just before the marker, so that the next append overwrites it.
- **Update cut.** An update always cuts the last character of a matched line before decoding
  it. The evident intent is to cut only a trailing comma, and to put only that comma back.
- **Update without a match.** This is not an error. The file is rewritten with the same lines,
  gaining a final newline if it lacked one, which a file in the store's own layout always
  does. A delete without a match reports that the task does not exist, and an update evidently
  means to do the same.
- **Match key.** The id is matched as the text `"Id":<n>`, as a substring, so the pattern of
  id 1 also matches id 12. The evident intent is to match exactly the record with that id.
- **Delete target.** A delete removes the last line that matches. With exact matching and
  unique ids, that would be the only line of the record with that id.
- **File after update or delete.** The rewritten file ends in `"]\n"`, and an emptied file is
  `"[\n]\n"`. The evident intent is the layout the store creates and appends to: no final
  newline, and `"[\n\n]"` for the empty array.

## Model

| member | source | states |
|---|---|---|
| Models.String | model/models.go:13-15 | Status 0 is "To do", 1 is "In progress" and 2 is "Done". It is defined only for those three values: any other value makes the array index panic. |
| Models.EnumIndex | model/models.go:17-19 | Returns the underlying integer unchanged. For a named status, that integer indexes the name table at `String`. |
| Models.StringInjective | model/models.go:14 | Two named statuses have the same display string exactly when they are equal. |
| Text.Unlines | repository/repository.go:204-225 | The write-back of no lines is empty. Otherwise it is non-empty and ends in a newline. |
| Text.Contains | repository/repository.go:119 | Matching the pattern as a substring needs a line at least as long as the pattern. The empty pattern matches every line. |
| Text.IntToDecimal | repository/repository.go:115 | The `%d` text of an integer is non-empty, starts with `-` exactly when the integer is negative, and ends in a digit. |
| Text.Lines | repository/repository.go:114-118 | No scanned token holds a newline. Non-empty text yields at least one token. |
| Text.LinesOfUnlines | repository/repository.go:204-225 | Lines without newlines, written back each followed by a newline, scan back to the same lines. |
| Text.UnlinesOfLines | repository/repository.go:113-137 | Scanning a text and writing the lines back gives the text with a final newline added, unless it already ended in one. |
| Text.LinesIgnoreFinalNewline | repository/repository.go:114-118 | Adding a final newline to text that lacks one does not change the scanned lines. |
| Text.TrimComma | repository/repository.go:190-191 | Removes one trailing comma: the result is shorter exactly when the line ends in a comma, and otherwise it is the line itself. |
| Codec.IdPattern | repository/repository.go:115 | The pattern starts with `"Id":` and ends in a decimal digit. |
| Codec.ArrayText | repository/repository_test.go:241-263 | The file of a list of records starts with `"[\n"` and ends with `"\n]"`. |
| Codec.FileLines | repository/repository_test.go:241-263 | The lines of that file start with `[` and end with `]`, with one line per record between them, or a single line when there are no records. |
| Codec.ArrayTextLines | repository/repository.go:168-179 | Scanning a laid-out file gives the line `[`, one line per record (with a comma after all but the last) and the line `]`. This holds with or without a final newline. |
| Codec.UnlinesFileLines | repository/repository.go:204-225 | Writing back the lines of a laid-out file gives that file plus one final newline. |
| Repository.WriteAt | repository/repository.go:96 | A positioned write is refused at a negative offset. Otherwise it puts the data at the offset, keeps the characters before the offset and after the data, and fills any gap past the old end with NUL characters. |
| Repository.Payload | repository/repository.go:89-94 | At offset 2 the payload is the record and `"\n]"`. At any other offset a separator `",\n"` comes first, so the payload is 4 longer than the record. |
| Repository.AppendStep | repository/repository.go:89-101 | An append fails exactly at a negative offset. Otherwise the new offset is the old one plus the length of the payload. |
| Repository.AppendStepWrites | repository/repository.go:96-101 | A successful append leaves the payload in the file between the old and the new offset. |
| Repository.LoadSequenceId | repository/repository.go:57-69 | Loading fails exactly when the array does not decode. It gives 0 for an empty array and otherwise the id of the last record. |
| Repository.ApplyUpdate | repository/repository.go:124-126 | Replaces the description, the status and the update time. Keeps the id and the creation time. |
| Repository.UpdateLine | repository/repository.go:117-135 | A line without the pattern is kept. A matching line is non-empty, and its update fails exactly when the line without its last character does not decode. Otherwise it becomes the encoding of the updated record followed by the line's last character. |
| Repository.RewriteAll | repository/repository.go:117-135 | A scan that rewrites each line in turn, with nothing on the first failure, yields as many lines as it scanned. |
| Repository.RewriteAllEach | repository/repository.go:117-135 | A successful scan holds each line's rewrite in order. A scan fails exactly when the rewrite of some line fails. |
| Repository.RewriteAllFromEach | repository/repository.go:117-135 | If every line's rewrite succeeds, the scan yields exactly those rewrites. |
| Repository.RewriteAllStep | repository/repository.go:117-134 | One more line that rewrites successfully extends the scanned prefix by its rewrite. |
| Repository.UpdateLines | repository/repository.go:117-135 | A successful update of all lines keeps the number of lines. |
| Repository.UpdateLinesEach | repository/repository.go:117-135 | A successful update holds the update of each line. The update of the file fails exactly when the update of some line fails. |
| Repository.UpdateLinesFromEach | repository/repository.go:117-135 | When every line's update gives the matching line of a list, the whole update gives that list. |
| Repository.UpdateLinesFailAt | repository/repository.go:119-123 | One line whose update fails makes the whole update fail. |
| Repository.DeleteLines | repository/repository.go:172-194 | A delete finds no match exactly when no line holds the id pattern. It hits the out-of-range panic exactly when the file has two lines and the last match is line 0. |
| Repository.LastMatch | repository/repository.go:172-179 | Returns the index of the last line holding the pattern, or -1 exactly when no line holds it. |
| Repository.DeleteAt | repository/repository.go:185-194 | No match gives the "does not exist" outcome. A match on line 0 of a two-line file gives the out-of-range panic. Every other match is an edit. |
| Repository.DeleteAtLines | repository/repository.go:189-194 | The edit has one line fewer. Earlier lines are kept, with one trailing comma removed from the line before, when the removed line was the second to last. Later lines move up by one. |
| Repository.TaskRepositoryFile.constructor | repository/repository.go:14-19 | The store holds the given content, offset and id counter. |
| Repository.TaskRepositoryFile.NewTaskRepositoryFile | repository/repository.go:27-55 | An empty file gets `"[\n\n]"`, with offset 2 and id counter 0. Otherwise the offset is the size minus 2, and the counter is the last decoded id (0 for an empty array). A file that does not decode panics. |
| Repository.TaskRepositoryFile.AddTask | repository/repository.go:71-103 | An open failure changes nothing. Otherwise the counter advances and the task gets the new id. A marshal or write failure leaves the file and the offset unchanged. A successful write lands at the offset: a separator first unless the offset is 2, then the record and `"\n]"`. The offset then grows by every character written. |
| Repository.TaskRepositoryFile.UpdateTask | repository/repository.go:105-142 | If a matched line fails to decode, the result is an error and the file is unchanged. Otherwise the file becomes the write-back of the updated lines, even when no line matched. |
| Repository.TaskRepositoryFile.RewriteLines | repository/repository.go:113-135 | The scan loop yields exactly the line-by-line update of the scanned lines, or nothing at the first line that fails to decode. |
| Repository.TaskRepositoryFile.RewriteLine | repository/repository.go:118-133 | The loop body for one scanned line computes exactly the line update of that line. |
| Repository.TaskRepositoryFile.DeleteTask | repository/repository.go:161-202 | No match gives "does not exist" and the out-of-range case gives a panic error; in both, the file is unchanged. Otherwise the file becomes the write-back of the edited lines. |
| Repository.TaskRepositoryFile.ScanForLastMatch | repository/repository.go:168-179 | The scan keeps every line, and its index is the last match. |
| Repository.TaskRepositoryFile.TruncateAndWrite | repository/repository.go:204-225 | The file becomes the concatenation of each line followed by a newline. |
| RepositoryLayout.EmptyFileIsEmptyArray | repository/repository.go:39-43 | The initial content `"[\n\n]"` is the empty array's layout. The initial offset 2 is its size minus the closing marker. |
| RepositoryLayout.AppendToLayout | repository/repository.go:89-101 | An append at the cursor of a laid-out file (cursor just before the closing marker) yields the layout with the new record last. The cursor then sits at the end of the file. |
| RepositoryLayout.LoadOfLayout | repository/repository.go:57-69 | Loading a laid-out file of records gives the id of the last one, or 0 when there are none. |
| RepositoryLayout.AppendRecord | repository/repository.go:81-101 | Appending a record to the laid-out file of a task list yields the laid-out file of the list with that record added. |
| RepositoryLayout.OpenThenAppend | repository/repository.go:46-96 | Opening a laid-out file and then appending stores the task under the last id plus one, at the end of the array. |
| RepositoryLayout.FileLineMatches | repository/repository.go:175 | A line of a laid-out file holds a pattern (one that is not a bracket and does not end in a comma) exactly when it is the line of a record whose encoding holds that pattern. |
| RepositoryLayout.UpdateRecordWithComma | repository/repository.go:119-132 | A record line that ends in a comma is rewritten as the updated record followed by the comma. |
| RepositoryLayout.UpdateOnLayout | repository/repository.go:113-137 | Update a record other than the last, when no other record holds its id pattern. Only that record's line changes. The result is the layout of the list with that record updated. |
| RepositoryLayout.UpdateOfLastRecordFails | repository/repository.go:121-123 | Updating the id of the last record always fails to decode. That line has no comma, so cutting its last character breaks the object. |
| RepositoryLayout.UpdateWithoutMatch | repository/repository.go:117-137 | With no matching line, an update succeeds and writes the same lines. |
| RepositoryLayout.UpdateRewriteRescans | repository/repository.go:132-137 | The lines an update writes hold no newline, so scanning the rewritten file gives them back. |
| RepositoryLayout.DeleteOnLayout | repository/repository.go:189-194 | Removing record k's line from a laid-out file leaves the line layout of the other records. When the last record goes, the comma repair strips the comma of the new last record. |
| RepositoryLayout.DeleteTaskOnLayout | repository/repository.go:172-194 | Delete the id of record k, when no later record holds its pattern. Exactly that record's line goes, and the others keep their order. |
| RepositoryLayout.DeleteRecordOnLayout | repository/repository.go:172-194 | The same, stated for any pattern that record k holds and no later record does. |
| RepositoryLayout.RewrittenAfterDelete | repository/repository.go:194-196 | A delete writes the remaining records' layout plus a final newline. When none remain it writes `"[\n]\n"`, which is not the store's empty array. |
| RepositoryLayout.DeleteRewriteRescans | repository/repository.go:189-196 | The lines a delete writes hold no newline, so scanning the rewritten file gives them back. |
| RepositoryFixes.SecondAppendLandsAfterMarker | repository/repository.go:89-101 | Two appends on one store over the empty array: the second writes after the closing marker, and the result is not the array of the two records. |
| RepositoryFixes.AppendAtEnd | repository/repository.go:90-101 | An append with the cursor at the end of the file writes the separator, the record and the marker there. |
| RepositoryFixes.AppendAfterMarkerBreaksArray | repository/repository.go:89-96 | A one-record array followed by a further separated record and marker is not the two-record array. |
| RepositoryFixes.IntendedAppendsKeepLayout | repository/repository.go:89-101 | With the cursor moved back before the marker, any sequence of appends to the empty array yields the array of all of them, with the cursor before its marker. |
| RepositoryFixes.IntendedAppendOnLayout | repository/repository.go:89-101 | One corrected append to a laid-out file keeps it laid out, with the cursor before the marker. |
| RepositoryFixes.IntendedStepIsStep | repository/repository.go:96-101 | The corrected append writes the same characters as the written one. Its cursor is 2 less. |
| RepositoryFixes.LongerIdAlsoMatches | repository/repository.go:170-175 | The record with id 10n+d also holds the pattern of id n. |
| RepositoryFixes.DeleteOfOneRemovesTwelve | repository/repository.go:170-194 | Deleting id 1 from the file of the records with ids 1 and 12 removes record 12. |
| RepositoryFixes.LastWithId | repository/repository.go:172-179 | Returns the index of the last line that decodes, after comma removal, to a record with the id, or -1 exactly when there is none. |
| RepositoryFixes.FileLineHoldsId | repository/repository.go:172-179 | A line of a laid-out file holds the id exactly when it is the line of a record with that id. |
| RepositoryFixes.LastWithIdOnLayout | repository/repository.go:172-179 | With exact id matching, the last line holding the id of record k is that record's line when no later record has the id. |
| RepositoryFixes.ExactDeleteOnLayout | repository/repository.go:172-194 | With exact id matching, delete the id of record k, when no later record has that id. Exactly that record's line goes. |
| RepositoryFixes.ExactDeleteOfOneKeepsTwelve | repository/repository.go:172-194 | With exact id matching, deleting id 1 from the file of the ids 1 and 12 leaves only record 12. |
| RepositoryFixes.IntendedUpdateOfRecord | repository/repository.go:119-132 | With only a trailing comma cut, a record line with or without its comma is rewritten as the updated record with the same ending. |
| RepositoryFixes.IntendedUpdateOnLayout | repository/repository.go:113-135 | With only a trailing comma cut, updating any record whose id pattern no other record's encoding contains replaces exactly its line, the last record included. The result is the layout of the updated list. The corrected update still matches lines by substring. |
| Services.WriteTaskList | service/services.go:195-207 | Marshal and write succeed, or report the marshal error or the write error. |
| Services.GetAllTasks | service/services.go:85-99 | A missing or empty file gives the empty list. A read error or an undecodable file gives the matching error, and nothing else is an error. A non-empty file that decodes gives exactly the decoded list. |
| Services.FirstIndexOf | service/services.go:59-65 | Returns the first index holding the id, or -1 exactly when the id is absent. |
| Services.AddTask | service/services.go:27-46 | A load error is returned and nothing is written. Otherwise the list written is the loaded list with the task appended last, with its id unchanged and no duplicate check. Only the write's own error can follow. |
| Services.UpdateTask | service/services.go:48-83 | A load error, an empty list or an absent id is an error and nothing is written. Otherwise the list written differs only at the first task with the id: its description and its update time. |
| Services.Described | service/services.go:59-65 | At index k, only the description and the update time change. Every other task is kept. |
| Services.UpdateTaskStatus | service/services.go:144-170 | A load error or an absent id is an error and nothing is written. Otherwise the list written differs only at the first task with the id: its status and its update time. |
| Services.WithStatus | service/services.go:152-157 | At index k, only the status and the update time change. Every other task is kept. |
| Services.UpdatesKeepFirstIndex | service/services.go:59-65 | After either update, the first task with the id is at the same index. |
| Services.SwapRemove | service/services.go:128-135 | The list is one shorter. Every index other than k is kept, and a non-last index k gets the former last task. |
| Services.SwapRemoveMultiset | service/services.go:128-135 | Swap-removal takes exactly one occurrence of the removed task out of the multiset of tasks. |
| Services.DeleteTask | service/services.go:101-142 | A load error or an absent id is an error and nothing is written. Otherwise the first task with the id is swap-removed. For a one-element list holding the id this is the empty list, which is what the code's special case writes. |
| Services.DeleteLeavesNoTaskWithId | service/services.go:116-135 | When the id occurs once, no task with it is left after the delete. |
| Services.FilterStatus | service/services.go:179-191 | Every task kept satisfies the filter, and the result is no longer than the list. |
| Services.GetAllTasksByStatus | service/services.go:172-193 | A load error is returned. Otherwise the result is the filter of the loaded list. |
| Services.FilterAppend | service/services.go:180-189 | Filtering a concatenation filters each part, so the tasks kept stay in their original order. |
| Services.FilterCount | service/services.go:180-189 | A task appears in the result as often as in the list if the filter keeps it, and not at all otherwise. |
| Services.FilterPartition | service/services.go:179-191 | The tasks equal to a status and the tasks different from it together make up the multiset of the list. |
| Services.FilterOneOfEachStatus | service/services_test.go:264-356 | For three tasks with statuses 0, 1 and 2, the equality filter of a named status keeps one task, which has that status. The difference filter keeps two. |

## Left out

- HTTP routing (server/handler.go), process wiring (main.go) and the thin service in
  service/service.go: these are adapters with no logic of their own.
- JSON: the per-record codec and the array decoder are function values. `Codec.Lawful` states
  what the store relies on about them:
  - an encoding is one line holding `"Id":<id>` and ending in `}`;
  - decoding inverts encoding;
  - a record cut by one character does not decode;
  - the bracket lines do not decode;
  - the array decoder reads back the store's layout.
- JSON the services produce: they use an indented marshal. A write is modelled as the list
  handed over, not as its text.
- The clock: `time.Now()` is a `DateTime` parameter.
- Repository.UpdateLines: the code calls `time.Now()` once for each matched line
  (repository/repository.go:126), so two records it rewrites can get different update times.
  The model passes one `now` to every line.
- Lengths and offsets count characters, not bytes. The file is a `seq<char>`, while Go counts
  UTF-8 bytes in `len`, in the count `WriteAt` returns, in `Size()` and in the cut
  `line[:len(line)-1]`. The two agree for ASCII text. They also agree while the cursor is one
  the store computed over its own writes. For non-ASCII text they diverge once the cursor is
  stale, for example after an update changes a record's byte length.
- Integer widths: `offset` is an `int64` and `sequenceId` a Go `int`, which is 64 bits wide
  (repository/repository.go:16-17). The model uses unbounded integers, so it does not model
  overflow of either.
- Concurrency: the mutex of the repository's `AddTask`, and the unlocked update and delete,
  are not modelled. Every operation is one sequential step.
- Repository.TaskRepositoryFile.UpdateTask: does not model a failure to open the file, a marshal
  failure of the updated record, or a failure of the rewrite. The codec's encoder is total, and
  the file is a field rather than an OS file.
- Repository.TaskRepositoryFile.DeleteTask: does not model a failure to open the file, a scanner
  error, or a failure of the rewrite, for the same reason.
- Repository.TaskRepositoryFile.AddTask: an append is not exclusive between processes, and a
  partial write is not modelled. The write either fails whole or succeeds whole.
- The repository's `GetAllTasks` (repository/repository.go:144-159) decodes the whole array.
  That is JSON parsing of the whole file, which is not part of this model beyond the array
  decoder's law.
- RepositoryFixes.IntendedUpdateOnLayout: the corrected update fixes only the one-character
  cut and still matches lines by substring, as repository/repository.go:119 does. With records
  1 and 12, updating id 1 also rewrites record 12's line, so the lemma promises an exact
  rewrite only when no other record's encoding contains the updated id's pattern.
- The line scanner's token-size limit and its removal of a `\r` before a newline: lines are
  split at `\n` only.
- The Go error texts: errors are constructors of small datatypes.
- Repository.TaskRepositoryFile.NewTaskRepositoryFile: a failure to open the file
  (repository/repository.go:28-31), to stat it (:34-37) or to write the initial `"[\n\n]"`
  (:40-42) is not modelled. The file is a field, and these OS calls cannot fail in the model.
- `NewTaskRepositoryFile` returns the store by value in Go and the value is copied at its call
  sites. The model returns a fresh object.
- `model.Task` declares `Id string` (model/models.go:21-27), but the repository and both test
  files use an integer id. The model uses `int` and an opaque timestamp type.
- The update argument of the repository's update is a pair of a description and a status. The
  fields are assigned directly, with no pointer or absent-field handling.
- Services.AddTask: its check that a load error is "not exist" can never succeed, because
  `GetAllTasks` already maps a missing file to an empty list. So every load error is returned,
  as the model does.
- Services.UpdateTaskStatus: the status is not checked against the named statuses, as in the code.
- Crash safety of truncate-then-rewrite: there is no notion of a crash.

## Findings

| source | as written | input that shows it | evidently intended | confidence | as-written member | corrected member |
|---|---|---|---|---|---|---|
| repository/repository.go:101 | After a write, the offset advances by every byte written, the closing `"\n]"` included. | Two appends on one store opened over an empty file: the second record is written after the `]`. | The offset advances to just before the closing marker, so the next append overwrites it. | not executed | RepositoryFixes.SecondAppendLandsAfterMarker | RepositoryFixes.IntendedAppendsKeepLayout |
| repository/repository.go:170-175 | The regular expression `"Id":%d` matches as a substring. | Delete id 1 from a file holding ids 1 and 12: the line of id 12 is the last match and is removed. | The line whose record has exactly the given id is removed. | not executed | RepositoryFixes.DeleteOfOneRemovesTwelve | RepositoryFixes.ExactDeleteOnLayout |
| repository/repository.go:121 | A matched line always loses its last character before decoding. | Update the id of the last record, whose line has no trailing comma: the cut line is not an object, and the update fails. | Only a trailing comma is removed, and only the comma is put back. | not executed | RepositoryLayout.UpdateOfLastRecordFails | RepositoryFixes.IntendedUpdateOnLayout |

The class `Repository.TaskRepositoryFile` models the code as written. The corrected
definitions (`RepositoryFixes.AppendStepIntended`, `RepositoryFixes.DeleteLinesExact`,
`RepositoryFixes.UpdateLinesIntended`) sit beside it, each with its intended property proved.
