/** The task operations of the to-do manager. Every operation opens the task
    file afresh. Complete and delete load at most MAX_TASKS records into a
    local array, change one flag and rewrite the whole array; view only
    loads; add appends one line without loading; clear truncates the file.
    A `TaskFile` holds what the operations change, the contents of the task
    file (None while no file exists). Each operation returns the messages it
    passes to `set_status`, in order; the status bar shows the last one. */
module TaskStore {
  import opened TaskCodec
  import opened Numbering

  /** The messages `set_status` shows in the status bar. */
  datatype Status =
    | NothingToDisplay
    | TasksLoaded
    | EmptyTaskIgnored
    | TaskAdded
    | TaskMarkedCompleted
    | InvalidTaskIndex
    | TaskDeleted
    | AllTaskDataCleared
    | ClearCancelled

  function Message(s: Status): string {
    match s
    case NothingToDisplay => "Nothing to display"
    case TasksLoaded => "Tasks loaded"
    case EmptyTaskIgnored => "Empty task ignored"
    case TaskAdded => "Task added"
    case TaskMarkedCompleted => "Task marked completed"
    case InvalidTaskIndex => "Invalid task index"
    case TaskDeleted => "Task deleted"
    case AllTaskDataCleared => "All task data cleared"
    case ClearCancelled => "Clear cancelled"
  }

  /** One line of the task view, `<number>. [x] <text>` or `<number>. [ ] <text>`. */
  datatype Entry = Entry(number: int, done: bool, text: string)

  /** The contents of the file; a missing file reads as empty when appended to. */
  function Contents(file: Option<string>): string {
    match file
    case None => ""
    case Some(s) => s
  }

  /** What the view says after loading ts. */
  function ViewStatus(ts: seq<Task>): (s: Status)
    ensures s == NothingToDisplay <==> |ts| == 0
    ensures s == NothingToDisplay || s == TasksLoaded
  {
    if ts == [] then NothingToDisplay else TasksLoaded
  }

  /** The view line of record t when it carries number `number`. */
  function EntryOf(t: Task, number: int): (e: Entry)
    ensures e.number == number && (e.done <==> t.done != 0)
    ensures e.text <= t.text && '\0' !in e.text
  {
    Entry(number, t.done != 0, CText(t.text))
  }

  /** The view lines of the active records of ts, numbered from `next` on. */
  function Entries(ts: seq<Task>, next: int): (es: seq<Entry>)
    ensures |es| == ActiveCount(ts)
    ensures forall k :: 0 <= k < |es| ==> es[k].number == next + k
  {
    if ts == [] then []
    else if IsActive(ts[0]) then [EntryOf(ts[0], next)] + Entries(ts[1..], next + 1)
    else Entries(ts[1..], next)
  }

  /** How many task lines fit between row 7 and the footer of a screen of
      the given height. */
  function Rows(height: int): (r: nat)
    ensures height - 4 > 7 ==> 7 + r == height - 4
    ensures height - 4 <= 7 ==> r == 0
  {
    if height - 11 > 0 then height - 11 else 0
  }

  /** The task lines the view draws: the numbered active records, cut off
      where the screen ends. */
  function Listing(ts: seq<Task>, height: int): (es: seq<Entry>)
    ensures |es| == Min(ActiveCount(ts), Rows(height))
  {
    Entries(ts, 1)[..Min(ActiveCount(ts), Rows(height))]
  }

  /** The loop of `loadTasks`: while fewer than MAX_TASKS records are read,
      call `fscanf` (here `scan`, one call of it with the record format) and
      keep the record when all three conversions succeed; stop at the first
      call that fails. */
  method ReadRecords(scan: string -> Option<(Task, string)>, s: string, tasks: array<Task>) returns (count: nat)
    requires tasks.Length >= MAX_TASKS
    modifies tasks
    ensures count <= MAX_TASKS
    ensures tasks[..count] == ParseWith(scan, s, MAX_TASKS)
  {
    var rest := s;
    count := 0;
    ghost var all := ParseWith(scan, s, MAX_TASKS);
    while count < MAX_TASKS
      invariant count <= MAX_TASKS
      invariant tasks[..count] + ParseWith(scan, rest, MAX_TASKS - count) == all
    {
      var r := scan(rest);
      if r.None? {
        ParseWithStep(scan, rest, MAX_TASKS - count);
        break;
      }
      ReadStep(scan, tasks[..count], rest, MAX_TASKS - count, all);
      tasks[count] := r.value.0;
      assert tasks[..count + 1] == tasks[..count] + [r.value.0];
      count := count + 1;
      rest := r.value.1;
    }
  }

  lemma ReadStep(scan: string -> Option<(Task, string)>, read: seq<Task>, rest: string, left: nat, all: seq<Task>)
    requires left > 0 && scan(rest).Some?
    requires read + ParseWith(scan, rest, left) == all
    ensures (read + [scan(rest).value.0]) + ParseWith(scan, scan(rest).value.1, left - 1) == all
  {
    ParseWithStep(scan, rest, left);
  }

  /** The drawing loop of `viewTasksUI`: walk the loaded records from row 7
      while the screen has room, and give each active record the next
      number. */
  method DrawRows(tasks: array<Task>, count: nat, height: int) returns (lines: seq<Entry>)
    requires count <= tasks.Length
    ensures lines == Listing(tasks[..count], height)
  {
    var row, idx, i := 7, 1, 0;
    lines := [];
    while i < count && row < height - 4
      invariant i <= count
      invariant lines == Entries(tasks[..count][..i], 1)
      invariant idx == |lines| + 1 && row == 7 + |lines| && |lines| <= Rows(height)
    {
      ViewStep(tasks[..count], i, lines);
      if IsActive(tasks[i]) {
        lines := lines + [Entry(idx, tasks[i].done != 0, CText(tasks[i].text))];
        idx, row := idx + 1, row + 1;
      }
      i := i + 1;
    }
    ViewDone(tasks[..count], i, lines, height);
  }

  /** The loop of `completeTaskUI` and `deleteTaskUI`: the slot of the
      userIndex-th active record among the first count, or found = false. */
  method Find(tasks: array<Task>, count: nat, userIndex: int) returns (found: bool, i: nat)
    requires count <= tasks.Length
    ensures found <==> 1 <= userIndex <= ActiveCount(tasks[..count])
    ensures found ==> Resolve(tasks[..count], userIndex) == Some(i)
  {
    ghost var ts := tasks[..count];
    var visible := 0;
    found, i := false, 0;
    while i < count
      invariant 0 <= i <= count
      invariant visible == ActiveCount(ts[..i])
      invariant userIndex < 1 || visible < userIndex
    {
      PrefixCountStep(ts, i);
      if !IsActive(tasks[i]) {
        i := i + 1;
        continue;
      }
      visible := visible + 1;
      if visible == userIndex {
        ResolveUnique(ts, userIndex, i);
        found := true;
        break;
      }
      i := i + 1;
    }
    if !found {
      assert ts[..i] == ts;
    }
  }

  // ---------------------------------------------------------------------
  // The task file
  // ---------------------------------------------------------------------

  class TaskFile {
    /** Contents of the task file; None while it does not exist. */
    var file: Option<string>

    constructor(initial: Option<string>)
      ensures file == initial
    {
      file := initial;
    }

    /** `loadTasks`: a missing file gives no records; otherwise the
        records are scanned into the array with the record format. */
    method Load(tasks: array<Task>) returns (count: nat)
      requires tasks.Length >= MAX_TASKS
      modifies tasks
      ensures count <= MAX_TASKS
      ensures tasks[..count] == LoadedTasks(file)
    {
      if file.None? {
        return 0;
      }
      count := ReadRecords(ScanRecord, file.value, tasks);
    }

    /** `saveTasks`: truncate the file and write the first count records,
        one line each. */
    method Save(tasks: array<Task>, count: nat)
      requires count <= tasks.Length
      modifies this
      ensures file == Some(Format(tasks[..count]))
    {
      file := Some("");
      for i := 0 to count
        invariant file == Some(Format(tasks[..i]))
      {
        assert tasks[..i + 1] == tasks[..i] + [tasks[i]];
        FormatAppend(tasks[..i], [tasks[i]]);
        assert Format([tasks[i]]) == Line(tasks[i]);
        file := Some(file.value + Line(tasks[i]));
      }
    }

    /** `viewTasksUI`: the task lines drawn on a screen of the given height,
        and the status it sets. */
    method View(height: int) returns (lines: seq<Entry>, msgs: seq<Status>)
      ensures lines == Listing(LoadedTasks(file), height)
      ensures msgs == [ViewStatus(LoadedTasks(file))]
    {
      var tasks := new Task[MAX_TASKS];
      var count := Load(tasks);
      if count == 0 {
        return [], [NothingToDisplay];
      }
      lines := DrawRows(tasks, count, height);
      msgs := [TasksLoaded];
    }

    /** `addTaskUI` with the line the user typed: an empty line is ignored;
        otherwise one active, not-done record is appended to the file (which
        is created if missing) with no check of the record cap, and the view
        is redrawn. The line comes from `getnstr(input, 255)`, which stores
        at most 255 chars and never the newline that ends the line. */
    method Add(input: string, height: int) returns (lines: seq<Entry>, msgs: seq<Status>)
      requires |input| <= TEXT_MAX && '\n' !in input
      modifies this
      ensures CText(input) == [] ==>
        file == old(file) && lines == [] && msgs == [EmptyTaskIgnored]
      ensures CText(input) != [] ==>
        file == Some(Contents(old(file)) + "1|0|" + CText(input) + "\n") &&
        lines == Listing(LoadedTasks(file), height) &&
        msgs == [TaskAdded, ViewStatus(LoadedTasks(file))]
    {
      if |CText(input)| == 0 {
        return [], [EmptyTaskIgnored];
      }
      file := Some(Contents(file) + "1|0|" + CText(input) + "\n");
      var shown;
      lines, shown := View(height);
      msgs := [TaskAdded, shown[0]];
    }

    /** `completeTaskUI`: number userIndex gets done = 1 and the array is
        written back, then the view is redrawn; an index that names no
        active record changes nothing and reports it. */
    method Complete(userIndex: int, height: int) returns (lines: seq<Entry>, msgs: seq<Status>)
      modifies this
      ensures var ts := LoadedTasks(old(file));
        1 <= userIndex <= ActiveCount(ts) ==>
          file == Some(Format(MarkDone(ts, Resolve(ts, userIndex).value))) &&
          lines == Listing(LoadedTasks(file), height) &&
          msgs == [TaskMarkedCompleted, ViewStatus(LoadedTasks(file))]
      ensures !(1 <= userIndex <= ActiveCount(LoadedTasks(old(file)))) ==>
        file == old(file) && lines == [] && msgs == [InvalidTaskIndex]
    {
      ghost var ts := LoadedTasks(file);
      var tasks := new Task[MAX_TASKS];
      var count := Load(tasks);
      var found, i := Find(tasks, count, userIndex);
      if !found {
        return [], [InvalidTaskIndex];
      }
      ghost var us := MarkDone(ts, i);
      tasks[i] := tasks[i].(done := 1);
      assert tasks[..count] == us;
      Save(tasks, count);
      var shown;
      lines, shown := View(height);
      msgs := [TaskMarkedCompleted, shown[0]];
    }

    /** `deleteTaskUI`: number userIndex gets active = 0 (the record stays
        in the file), the array is written back and the view is redrawn; an
        index that names no active record changes nothing and reports it. */
    method Delete(userIndex: int, height: int) returns (lines: seq<Entry>, msgs: seq<Status>)
      modifies this
      ensures var ts := LoadedTasks(old(file));
        1 <= userIndex <= ActiveCount(ts) ==>
          file == Some(Format(Deactivate(ts, Resolve(ts, userIndex).value))) &&
          lines == Listing(LoadedTasks(file), height) &&
          msgs == [TaskDeleted, ViewStatus(LoadedTasks(file))]
      ensures !(1 <= userIndex <= ActiveCount(LoadedTasks(old(file)))) ==>
        file == old(file) && lines == [] && msgs == [InvalidTaskIndex]
    {
      ghost var ts := LoadedTasks(file);
      var tasks := new Task[MAX_TASKS];
      var count := Load(tasks);
      var found, i := Find(tasks, count, userIndex);
      if !found {
        return [], [InvalidTaskIndex];
      }
      ghost var us := Deactivate(ts, i);
      tasks[i] := tasks[i].(active := 0);
      assert tasks[..count] == us;
      Save(tasks, count);
      var shown;
      lines, shown := View(height);
      msgs := [TaskDeleted, shown[0]];
    }

    /** `clearTaskDataUI` with the key the user pressed: 'y' or 'Y'
        truncates the file, any other key leaves it alone. */
    method Clear(key: int) returns (msgs: seq<Status>)
      modifies this
      ensures key == 'y' as int || key == 'Y' as int ==>
        file == Some("") && LoadedTasks(file) == [] && msgs == [AllTaskDataCleared]
      ensures !(key == 'y' as int || key == 'Y' as int) ==>
        file == old(file) && msgs == [ClearCancelled]
    {
      if key == 'y' as int || key == 'Y' as int {
        file := Some("");
        ParseStep("", MAX_TASKS);
        msgs := [AllTaskDataCleared];
      } else {
        msgs := [ClearCancelled];
      }
    }
  }

  // ---------------------------------------------------------------------
  // The view
  // ---------------------------------------------------------------------

  /** Viewing a run of records after another continues the numbering where
      the first run stopped. */
  lemma {:induction false} EntriesAppend(a: seq<Task>, b: seq<Task>, next: int)
    ensures Entries(a + b, next) == Entries(a, next) + Entries(b, next + ActiveCount(a))
  {
    if a == [] {
      assert a + b == b;
    } else {
      assert (a + b)[1..] == a[1..] + b;
      EntriesAppend(a[1..], b, next + if IsActive(a[0]) then 1 else 0);
    }
  }

  /** The number the view prints next to a task is the number that complete
      and delete resolve to that task: line k of the view shows the record
      at Resolve(ts, k + 1), with number k + 1. */
  lemma EntriesResolve(ts: seq<Task>, next: int)
    ensures forall k :: 0 <= k < ActiveCount(ts) ==>
      Entries(ts, next)[k] == EntryOf(ts[Resolve(ts, k + 1).value], next + k)
  {
    forall k | 0 <= k < ActiveCount(ts)
      ensures Entries(ts, next)[k] == EntryOf(ts[Resolve(ts, k + 1).value], next + k)
    {
      EntryOfNumber(ts, next, k);
    }
  }

  lemma EntryOfNumber(ts: seq<Task>, next: int, k: nat)
    requires k < ActiveCount(ts)
    ensures Entries(ts, next)[k] == EntryOf(ts[Resolve(ts, k + 1).value], next + k)
  {
    EntryAt(ts, next, Resolve(ts, k + 1).value, k);
  }

  /** The view line of an active record with k active records before it is
      line k, and it carries number next + k. */
  lemma {:induction false} EntryAt(ts: seq<Task>, next: int, p: nat, k: nat)
    requires p < |ts| && IsActive(ts[p]) && ActiveCount(ts[..p]) == k
    ensures k < ActiveCount(ts) && Entries(ts, next)[k] == EntryOf(ts[p], next + k)
  {
    if p == 0 {
      assert ts[..p] == [];
      EntriesHead(ts, next);
    } else {
      var c := if IsActive(ts[0]) then 1 else 0;
      PrefixCountTail(ts, p);
      EntryAt(ts[1..], next + c, p - 1, k - c);
      EntriesTail(ts, next, k - c);
      assert ts[1..][p - 1] == ts[p];
    }
  }

  lemma EntriesHead(ts: seq<Task>, next: int)
    requires ts != [] && IsActive(ts[0])
    ensures ActiveCount(ts) > 0 && Entries(ts, next)[0] == EntryOf(ts[0], next)
  {
  }

  /** Past the first record the view lines are those of the rest. */
  lemma EntriesTail(ts: seq<Task>, next: int, j: nat)
    requires ts != [] && j < ActiveCount(ts[1..])
    ensures var c := if IsActive(ts[0]) then 1 else 0;
      j + c < ActiveCount(ts) && Entries(ts, next)[j + c] == Entries(ts[1..], next + c)[j]
  {
  }

  /** One turn of the view loop: record i adds a line, numbered one past the
      lines so far, exactly when it is active. */
  lemma ViewStep(ts: seq<Task>, i: nat, lines: seq<Entry>)
    requires i < |ts| && lines == Entries(ts[..i], 1)
    ensures Entries(ts[..i + 1], 1) ==
      lines + if IsActive(ts[i]) then [EntryOf(ts[i], |lines| + 1)] else []
  {
    assert ts[..i + 1] == ts[..i] + [ts[i]];
    EntriesAppend(ts[..i], [ts[i]], 1);
  }

  /** The view loop stops when the records run out or the screen is full;
      either way it has drawn the listing. */
  lemma ViewDone(ts: seq<Task>, i: nat, lines: seq<Entry>, height: int)
    requires i <= |ts| && lines == Entries(ts[..i], 1) && |lines| <= Rows(height)
    requires i == |ts| || |lines| == Rows(height)
    ensures lines == Listing(ts, height)
  {
    assert ts == ts[..i] + ts[i..];
    EntriesAppend(ts[..i], ts[i..], 1);
  }

  /** Every line the view draws names, by its number, the record that
      complete and delete act on for that number. */
  lemma ListingResolves(ts: seq<Task>, height: int)
    ensures forall k :: 0 <= k < |Listing(ts, height)| ==>
      Listing(ts, height)[k].number == k + 1 &&
      Resolve(ts, k + 1).Some? &&
      Listing(ts, height)[k] == EntryOf(ts[Resolve(ts, k + 1).value], k + 1)
  {
    EntriesResolve(ts, 1);
    var es := Entries(ts, 1);
    var m := Min(ActiveCount(ts), Rows(height));
    forall k | 0 <= k < |Listing(ts, height)|
      ensures Listing(ts, height)[k] == es[k] && k < ActiveCount(ts)
    {
      assert Listing(ts, height) == es[..m];
    }
  }

  // ---------------------------------------------------------------------
  // Whole operations on a file of storable records
  // ---------------------------------------------------------------------

  /** Marking done and soft-deleting keep every text storable. */
  lemma FlagsKeepStorable(ts: seq<Task>, p: nat)
    requires p < |ts| && AllStorable(ts)
    ensures AllStorable(MarkDone(ts, p)) && AllStorable(Deactivate(ts, p))
  {
    assert forall i :: 0 <= i < |ts| ==> MarkDone(ts, p)[i].text == ts[i].text;
    assert forall i :: 0 <= i < |ts| ==> Deactivate(ts, p)[i].text == ts[i].text;
  }

  /** The line `addTaskUI` appends is the line `saveTasks` would write for an
      active, not-done record with the typed text. */
  lemma AddedLine(text: string)
    requires '\0' !in text
    ensures "1|0|" + text + "\n" == Line(Task(1, 0, text))
  {
    CTextOfPlain(text);
    assert Decimal(1) == "1";
    assert Decimal(0) == "0";
  }

  /** The file after `addTaskUI` appends to a file `saveTasks` wrote is the
      file `saveTasks` would write with the new record last. */
  lemma AddedFile(ts: seq<Task>, text: string)
    requires '\0' !in text
    ensures Format(ts) + "1|0|" + text + "\n" == Format(ts + [Task(1, 0, text)])
  {
    var t := Task(1, 0, text);
    AddedLine(text);
    FormatAppend(ts, [t]);
    assert Format([t]) == Line(t);
    Regroup(Format(ts), "1|0|", text, "\n");
  }

  lemma Regroup(a: string, b: string, c: string, d: string)
    ensures a + b + c + d == a + (b + c + d)
  {
  }

  lemma AppendStorable(ts: seq<Task>, t: Task)
    requires AllStorable(ts) && Storable(t.text)
    ensures AllStorable(ts + [t])
  {
    assert forall i :: 0 <= i < |ts| ==> (ts + [t])[i] == ts[i];
  }

  /** Add then load: appending text to a file of storable records makes it
      the last record, unless the file already holds MAX_TASKS records, in
      which case the new record is in the file but no load ever sees it. */
  lemma AddThenLoad(ts: seq<Task>, text: string)
    requires AllStorable(ts) && Storable(text)
    ensures var added := Format(ts) + "1|0|" + text + "\n";
      var all := ts + [Task(1, 0, text)];
      added == Format(all) &&
      (|ts| < MAX_TASKS ==> LoadedTasks(Some(added)) == all) &&
      (|ts| >= MAX_TASKS ==> LoadedTasks(Some(added)) == ts[..MAX_TASKS])
  {
    var all := ts + [Task(1, 0, text)];
    AddedFile(ts, text);
    AppendStorable(ts, Task(1, 0, text));
    LoadFormatted(all);
    if |ts| >= MAX_TASKS {
      TakeAppend(ts, [Task(1, 0, text)], MAX_TASKS);
    }
  }

  lemma TakeAppend<T>(a: seq<T>, b: seq<T>, m: nat)
    requires m <= |a|
    ensures (a + b)[..m] == a[..m]
  {
  }

  /** A successful complete on a well-formed file of at most MAX_TASKS
      records writes a file that loads back as the records with exactly the
      chosen one marked done, so the status it ends with is "Tasks loaded"
      (the view overwrites "Task marked completed"). */
  lemma CompleteRoundTrip(ts: seq<Task>, n: int)
    requires AllStorable(ts) && |ts| <= MAX_TASKS
    requires 1 <= n <= ActiveCount(ts)
    ensures var us := MarkDone(ts, Resolve(ts, n).value);
      LoadedTasks(Some(Format(us))) == us && ViewStatus(us) == TasksLoaded
  {
    FlagsKeepStorable(ts, Resolve(ts, n).value);
    LoadFormatted(MarkDone(ts, Resolve(ts, n).value));
  }

  /** The same for delete: the file loads back with the chosen record
      deactivated and the others as they were. */
  lemma DeleteRoundTrip(ts: seq<Task>, n: int)
    requires AllStorable(ts) && |ts| <= MAX_TASKS
    requires 1 <= n <= ActiveCount(ts)
    ensures var us := Deactivate(ts, Resolve(ts, n).value);
      LoadedTasks(Some(Format(us))) == us && ViewStatus(us) == TasksLoaded
  {
    FlagsKeepStorable(ts, Resolve(ts, n).value);
    LoadFormatted(Deactivate(ts, Resolve(ts, n).value));
  }

  /** Completing the same number twice on a well-formed file writes the same
      file twice. */
  lemma CompleteTwice(ts: seq<Task>, n: int)
    requires AllStorable(ts) && |ts| <= MAX_TASKS
    requires 1 <= n <= ActiveCount(ts)
    ensures var us := LoadedTasks(Some(Format(MarkDone(ts, Resolve(ts, n).value))));
      1 <= n <= ActiveCount(us) &&
      Format(MarkDone(us, Resolve(us, n).value)) == Format(MarkDone(ts, Resolve(ts, n).value))
  {
    CompleteRoundTrip(ts, n);
    MarkDoneKeepsNumbering(ts, Resolve(ts, n).value);
    CompleteAgain(ts, n);
  }

  /** Records appended past the cap are lost at the next rewrite: complete
      (and delete alike) on a file of more than MAX_TASKS storable records
      loads only the first MAX_TASKS, so the file written afterwards holds
      MAX_TASKS records and the rest are gone. */
  lemma OverflowDropped(ts: seq<Task>, n: int)
    requires AllStorable(ts) && |ts| > MAX_TASKS
    requires 1 <= n <= ActiveCount(ts[..MAX_TASKS])
    ensures var loaded := LoadedTasks(Some(Format(ts)));
      loaded == ts[..MAX_TASKS] &&
      var p := Resolve(loaded, n).value;
      LoadedTasks(Some(Format(MarkDone(loaded, p)))) == MarkDone(ts[..MAX_TASKS], p) &&
      LoadedTasks(Some(Format(Deactivate(loaded, p)))) == Deactivate(ts[..MAX_TASKS], p) &&
      |MarkDone(loaded, p)| == |Deactivate(loaded, p)| == MAX_TASKS < |ts|
  {
    LoadFormatted(ts);
    var loaded := ts[..MAX_TASKS];
    assert AllStorable(loaded);
    CompleteRoundTrip(loaded, n);
    DeleteRoundTrip(loaded, n);
  }
}
