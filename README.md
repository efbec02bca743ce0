# My-TODO-CLI task store, modelled in Dafny

My-TODO-CLI is a terminal to-do manager written in C (`main.c`). It keeps its
tasks in a text file, one record per line, written as `active|done|text`.
Every command opens the file afresh, and the commands touch it in different
ways:
- complete and delete load at most 100 records into a local array, change one
  flag and rewrite the whole array;
- view only loads;
- add appends one line without loading;
- clear truncates the file. The user names a task by a number. That number counts only
the records whose `active` flag is set, in stored order.

The model has three modules:

- `TaskCodec` (TaskCodec.dfy) covers the file format.
  - `saveTasks` writes records with `fprintf("%d|%d|%s\n")`, modelled as
    `Line`/`Format`.
  - `loadTasks` reads them with `fscanf("%d|%d|%255[^\n]\n")`. Each directive
    is modelled as a function on the remaining input:
    - `%d` skips white space, takes an optional sign, then at least one digit;
    - `|` is a literal;
    - `%255[^\n]` takes 1 to 255 characters up to the end of the line, kept as
      a C string (up to the first NUL);
    - the final `\n` skips any white space.
  - Loading stops at the first record that fails to scan, or after 100
    records.
  - The module proves that a scanned line reads back as the record that was
    written, and that load after save returns the saved records, capped at
    100.
- `Numbering` (Numbering.dfy) covers the numbering.
  - `ActiveCount` counts the active records; `Resolve` finds the slot that a
    user number names.
  - `MarkDone` and `Deactivate` change one flag of one record.
  - The lemmas prove that:
    - resolution is unique;
    - completion changes no number and is idempotent;
    - soft delete keeps the record in its slot, lowers the count by one and
      moves every higher number down by one.
- `TaskStore` (TaskStore.dfy) holds the class `TaskFile`. Its one field, `file`,
  is the contents of the task file (`None` when the file does not exist). Its
  methods mirror the C functions:
  - `Load` and `Save` fill or write a `Task` array in loops;
  - `View` numbers the active records (its drawing loop is `DrawRows`);
  - `Add` appends a line;
  - `Find`, a module-level method, is the counting loop that `Complete` and
    `Delete` share;
  - `Clear` truncates the file.

  Each method returns the messages it passes to `set_status`, in order. A
  successful complete, delete or add ends by redrawing the view, so the last
  message, which the status bar shows, is the view's ("Tasks loaded" or
  "Nothing to display").

## Model

| member | source | states |
|---|---|---|
| TaskCodec.IntText | main.c:62 | what `%d` prints: a minus sign for a negative value, then the decimal digits of its magnitude |
| TaskCodec.IntTextShape | main.c:62 | the printed form is non-empty, starts with `-` exactly for a negative value, and is otherwise all digits |
| TaskCodec.Line | main.c:62-65 | the line for one record: active flag, `\|`, done flag, `\|`, the text up to its first NUL, newline |
| TaskCodec.LineShape | main.c:62-65 | every saved line ends with a newline, and it is the line's only newline when the text has none |
| TaskCodec.Format | main.c:61-66 | the saved file is the lines of the records concatenated in array order |
| TaskCodec.FormatShape | main.c:61-66 | the saved file is empty exactly when there are no records, and otherwise ends with a newline |
| TaskCodec.ScanInt | main.c:46 | the `%d` conversion: skip white space, take an optional sign, then the longest run of digits, failing when there is none; a successful conversion always consumes input |
| TaskCodec.ScanText | main.c:46 | `%255[^\n]` followed by the `\n` directive takes 1 to 255 chars before the end of the line, keeps them up to the first NUL, then skips white space; the text has at most 255 chars and no newline or NUL, and input is consumed |
| TaskCodec.ScanRecord | main.c:46-49 | one `fscanf` call that converts all three fields yields a record whose text has at most 255 chars and no newline or NUL, and it consumes input |
| TaskCodec.ScanIntText | main.c:46 | `%d` reads back exactly the value that `%d` printed and stops at the next non-digit |
| TaskCodec.DecimalValue | main.c:62 | the digits printed for a non-negative value read back as that value |
| TaskCodec.ScanRecordLine | main.c:46-49 | a line written for a record with a storable text scans back to that same record, and scanning continues after the white space that follows |
| TaskCodec.ScanRecordSkipSpace | main.c:46 | leading white space never changes what a record scan yields, since `%d` skips it |
| TaskCodec.ParseWith | main.c:45-51 | the load loop over a given record scanner: scan records until one fails or `max` are read, in file order; at most `max` records |
| TaskCodec.ParseRecords | main.c:45-51 | the load loop with the real record scanner; at most `max` records |
| TaskCodec.LoadedTasks | main.c:39-55 | a missing file loads no records; otherwise at most 100 |
| TaskCodec.ParseStep | main.c:45-51 | a record that fails to scan ends loading; one that scans is kept and loading continues after it |
| TaskCodec.ParseWithFormatted | main.c:45-51 | formatted records followed by input where the scan fails parse back as those records, capped; loading stops at the first malformed record |
| TaskCodec.ParseFormatted | main.c:45-51 | the same for the real record scanner: records written by `saveTasks`, then a malformed rest, load as the written records up to the cap |
| TaskCodec.LoadFormatted | main.c:39-69 | load after save gives the saved records, cut at 100, for records with texts of 1 to 255 chars and no newline or NUL; with at most 100 records it gives them all |
| TaskCodec.ParsePrefix | main.c:45 | with a smaller cap, loading yields a prefix of what it yields with a larger one |
| TaskCodec.FormatAppend | main.c:61-66 | writing two runs of records one after the other gives the file of their concatenation |
| Numbering.IsActive | main.c:193 | a record counts as active exactly when its `active` flag is non-zero, the C truth test of `!tasks[i].active` that view, complete and delete all use |
| Numbering.ActiveCount | main.c:192-194 | the number of records that carry a number is at most the number of records |
| Numbering.Resolve | main.c:192-201 | number n resolves exactly when 1 <= n <= ActiveCount; the slot found is active and has n - 1 active records before it |
| Numbering.MarkDone | main.c:197 | completion sets `done = 1` on one slot and leaves its other fields, every other record and the length unchanged |
| Numbering.Deactivate | main.c:223 | soft delete sets `active = 0` on one slot and leaves its text, its done flag, every other record and the length unchanged |
| Numbering.ActiveCountAppend | main.c:192-194 | the count of two runs is the sum of their counts |
| Numbering.PrefixCountStep | main.c:193-194 | the visible counter goes up by one at a record exactly when that record is active |
| Numbering.ResolveUnique | main.c:196-200 | an active slot with n - 1 active slots before it is the slot that number n resolves to |
| Numbering.SameActivity | main.c:193 | two runs whose active flags agree slot by slot number their records alike |
| Numbering.MarkDoneKeepsNumbering | main.c:197 | completing a record changes neither the count nor the slot that any number resolves to |
| Numbering.CompleteAgain | main.c:196-198 | completing the same number again hits the same record and changes nothing more |
| Numbering.SplitCount | main.c:192-194 | the count splits around any slot |
| Numbering.DeactivateCount | main.c:223 | soft-deleting an active record lowers the count by exactly one |
| Numbering.PrefixOrder | main.c:192-194 | a slot with fewer active records before it comes earlier |
| Numbering.DeactivateBelow | main.c:218-227 | after a soft delete, the numbers up to the deleted one's predecessors resolve as before |
| Numbering.DeactivateAbove | main.c:218-227 | after a soft delete, every number from the deleted one's on resolves to the record that the next number named before |
| Numbering.DeactivateShiftsNumbering | main.c:213-237 | deleting number n keeps the record in its slot with text and done flag; the count drops by one; lower numbers are unchanged and higher numbers shift down by one |
| TaskStore.EntryOf | main.c:142-148 | a view line carries the given number, shows `[x]` exactly when `done` is non-zero, and shows the text up to its first NUL, a NUL-free prefix of the stored text |
| TaskStore.Rows | main.c:129-140 | the rows from 7 up to `h - 4` hold task lines, so `h - 11` of them, and none on a screen of height 11 or less |
| TaskStore.ViewStatus | main.c:134-153 | the view reports "Nothing to display" exactly when no record was loaded (active or not), and "Tasks loaded" otherwise |
| TaskStore.Entries | main.c:140-151 | the view lines of a run are one per active record, numbered consecutively from the given start |
| TaskStore.Listing | main.c:140-151 | the view draws min(ActiveCount, rows on screen) lines |
| TaskStore.ReadRecords | main.c:45-51 | the load loop fills the array with at most 100 records, exactly those the parse yields |
| TaskStore.DrawRows | main.c:140-151 | the drawing loop, walking the records while rows remain, draws exactly the listing of the records: each active record gets the next number, and the loop stops at the bottom of the screen |
| TaskStore.TaskFile.Load | main.c:39-55 | the array's first `count` slots hold the loaded records of the file, with count <= 100 and 0 for a missing file |
| TaskStore.TaskFile.Save | main.c:57-69 | the file is replaced by exactly one line per record, in array order |
| TaskStore.TaskFile.View | main.c:126-154 | the lines drawn are the listing of the loaded records; the status is "Nothing to display" for no records, else "Tasks loaded"; the file is not changed |
| TaskStore.TaskFile.Add | main.c:156-185 | empty input leaves the file unchanged and reports "Empty task ignored"; otherwise exactly `1\|0\|<input>\n` is appended to the old contents with no load and no cap check, and then the view is drawn; the input is at most 255 chars with no newline, as `getnstr(input, 255)` delivers it |
| TaskStore.Find | main.c:190-201 | found exactly when 1 <= userIndex <= ActiveCount, and then the slot is the one that userIndex resolves to |
| TaskStore.TaskFile.Complete | main.c:187-211 | a valid index rewrites the file as the loaded records with that record marked done, then views; an invalid index (including 0) writes nothing, draws nothing and reports "Invalid task index" |
| TaskStore.TaskFile.Delete | main.c:213-237 | a valid index rewrites the file as the loaded records with that record deactivated, then views; an invalid index writes nothing and reports "Invalid task index" |
| TaskStore.TaskFile.Clear | main.c:261-274 | 'y' or 'Y' empties the file, which then loads no records; any other key leaves the file alone and reports "Clear cancelled" |
| TaskStore.EntriesAppend | main.c:140-151 | viewing one run after another continues the numbering where the first stopped |
| TaskStore.EntryAt | main.c:140-151 | an active record with k active records before it is drawn as view line k, with number next + k |
| TaskStore.EntriesResolve | main.c:140-151 | view line k shows the record that number k + 1 resolves to |
| TaskStore.ViewDone | main.c:140-151 | the view loop, whether it stops at the last record or at the bottom of the screen, has drawn the listing |
| TaskStore.ListingResolves | main.c:140-151 | every drawn line carries number k + 1 and shows the record that complete and delete resolve k + 1 to, done or not |
| TaskStore.FlagsKeepStorable | main.c:197-223 | marking done (line 197) and soft-deleting (line 223) never make a text unstorable |
| TaskStore.AddedLine | main.c:180 | the line that add appends is the line that save would write for an active, not-done record with that text |
| TaskStore.AddedFile | main.c:180 | appending to a saved file gives the file that save would write with the new record last |
| TaskStore.AddThenLoad | main.c:174-184 | after an add, the next load sees the new record last when the file held fewer than 100 records; with 100 or more it sees only the first 100 and never the new one |
| TaskStore.CompleteRoundTrip | main.c:187-211 | on a file of at most 100 storable records, a successful complete writes a file that loads back as the records with exactly the chosen one marked done |
| TaskStore.DeleteRoundTrip | main.c:213-237 | the same for delete: the file loads back with the chosen record deactivated and the others as they were |
| TaskStore.CompleteTwice | main.c:192-201 | completing the same number twice writes the same file twice |
| TaskStore.OverflowDropped | main.c:39-69 | on a file of more than 100 records, a successful complete or delete rewrites only the first 100; the rest are lost |

## Left out

- ncurses drawing is left out: `draw_base_ui`, `clear_content`, `center_x`, column placement and the exact `snprintf` of a view line. A view line is modelled as its number, its done mark and its text. Only the row limit `row < h - 4` is kept, as the screen height passed to `View`.
- The SIGWINCH handler and the `resized` flag are asynchronous and do not touch task data.
- `viewTasksRawUI` is left out; it only echoes file lines to the screen.
- The `main` loop, `getnstr`, `getch` and `atoi` are left out. The index that complete and delete receive, the line add reads and the key clear reads become parameters.
- `fopen` failures are not modelled.
  - TaskStore.TaskFile.Save: the silent return when the file cannot be opened is not modelled, so the file is always rewritten.
  - TaskStore.TaskFile.Add: the "File error while adding task" path is not modelled. The append always succeeds and creates a missing file.
  - TaskStore.TaskFile.Clear: a failed truncate still reports "All task data cleared" in C; the model always empties the file.
- TaskCodec.ScanInt: integers are unbounded. The model leaves out 32-bit `int` wrap-around, and the undefined result of `%d` on a value that does not fit.
- The file is a string of chars, one char per byte. Character encodings are left out.
- On a failed `fscanf`, C may have already written some fields into the next array slot. That slot lies past `count` and is never read again, so the model leaves it alone.
- TaskCodec.LoadFormatted: the round trip holds only for storable texts.
  - A text that is empty, longer than 255 chars, or holds a newline or NUL does not read back as written.
  - Loaded records can still have such a text: a line whose text starts with a NUL loads with an empty text.
  - The lemmas that chain a load after a save therefore assume storable texts.
- Toggling, editing, hard deletion and a "show done" filter are not modelled: main.c has none of them. Add rejects only an empty line, not a line of spaces, as in the code.
