/** The task file format of the to-do manager. Each record is written by
    `fprintf(file, "%d|%d|%s\n", ...)` and read back by
    `fscanf(file, "%d|%d|%255[^\n]\n", ...)`. The file is a string of chars
    (one char per byte), and each scanf directive is modelled as a function
    from the remaining input to what it consumes and what it leaves. */
module TaskCodec {

  datatype Option<+T> = None | Some(value: T)

  /** One stored task, as the C struct holds it: two integer flags and a text. */
  datatype Task = Task(active: int, done: int, text: string)

  /** Capacity of the task array that `loadTasks` fills. */
  const MAX_TASKS: nat := 100

  /** Field width of the text conversion `%255[^\n]`. */
  const TEXT_MAX: nat := 255

  function Min(a: nat, b: nat): nat { if a <= b then a else b }

  // ---------------------------------------------------------------------
  // Characters
  // ---------------------------------------------------------------------

  /** White space as `isspace` sees it in the C locale. */
  predicate IsSpace(c: char) {
    c == ' ' || c == '\t' || c == '\n' || c == '\U{000B}' || c == '\U{000C}' || c == '\r'
  }

  predicate IsDigit(c: char) { '0' <= c <= '9' }

  predicate AllDigits(d: string) { forall i :: 0 <= i < |d| ==> IsDigit(d[i]) }

  function DigitValue(c: char): nat
    requires IsDigit(c)
  {
    c as int - '0' as int
  }

  function DigitChar(k: nat): (c: char)
    requires k < 10
    ensures IsDigit(c) && DigitValue(c) == k
  {
    ('0' as int + k) as char
  }

  // ---------------------------------------------------------------------
  // Writing: printf
  // ---------------------------------------------------------------------

  /** The digits `%d` prints for a non-negative value. */
  function Decimal(n: nat): (d: string)
    ensures |d| > 0 && AllDigits(d)
  {
    if n < 10 then [DigitChar(n)] else Decimal(n / 10) + [DigitChar(n % 10)]
  }

  /** What `printf("%d", n)` prints. */
  function IntText(n: int): string {
    if n < 0 then "-" + Decimal(-n) else Decimal(n)
  }

  /** Length of the C string held in a char buffer: the chars before the
      first NUL. This is what `strlen` measures. */
  function CLength(s: string): (n: nat)
    ensures n <= |s|
    ensures forall i :: 0 <= i < n ==> s[i] != '\0'
    ensures n == |s| || s[n] == '\0'
  {
    if s == [] || s[0] == '\0' then 0 else 1 + CLength(s[1..])
  }

  /** The C string held in a char buffer, as `%s` prints it. */
  function CText(s: string): string {
    s[..CLength(s)]
  }

  /** The line `saveTasks` writes for one record. */
  function Line(t: Task): string {
    IntText(t.active) + "|" + IntText(t.done) + "|" + CText(t.text) + "\n"
  }

  /** The whole file `saveTasks` writes: one line per record, in array order. */
  function Format(ts: seq<Task>): string {
    if ts == [] then "" else Line(ts[0]) + Format(ts[1..])
  }

  // ---------------------------------------------------------------------
  // Reading: scanf
  // ---------------------------------------------------------------------

  /** How much white space stands at the front of s. */
  function SpaceCount(s: string): (n: nat)
    ensures n <= |s|
    ensures forall i :: 0 <= i < n ==> IsSpace(s[i])
    ensures n == |s| || !IsSpace(s[n])
  {
    if |s| > 0 && IsSpace(s[0]) then 1 + SpaceCount(s[1..]) else 0
  }

  /** A white-space directive, and the implicit skip before `%d`. */
  function SkipSpace(s: string): string {
    s[SpaceCount(s)..]
  }

  /** How long the run of digits at the front of s is. */
  function DigitCount(s: string): (n: nat)
    ensures n <= |s|
    ensures forall i :: 0 <= i < n ==> IsDigit(s[i])
    ensures n == |s| || !IsDigit(s[n])
  {
    if |s| > 0 && IsDigit(s[0]) then 1 + DigitCount(s[1..]) else 0
  }

  /** The value of a run of decimal digits. */
  function DigitsValue(d: string): nat
    requires AllDigits(d)
  {
    if d == [] then 0 else DigitsValue(d[..|d| - 1]) * 10 + DigitValue(d[|d| - 1])
  }

  /** The `%d` conversion: skip white space, take an optional sign, then the
      longest run of digits, of which there must be at least one. Yields the
      value and the input left over, or None on a matching failure. */
  function ScanInt(s: string): (r: Option<(int, string)>)
    ensures r.Some? ==> |r.value.1| < |s|
  {
    var t := SkipSpace(s);
    if |t| > 0 && (t[0] == '-' || t[0] == '+') then
      var n := DigitCount(t[1..]);
      var v: int := DigitsValue(t[1..1 + n]);
      if n == 0 then None
      else Some((if t[0] == '-' then -v else v, t[1 + n..]))
    else
      var n := DigitCount(t);
      var v: int := DigitsValue(t[..n]);
      if n == 0 then None else Some((v, t[n..]))
  }

  /** How many chars the scan set `%<limit>[^\n]` takes from the front of s. */
  function TextRun(s: string, limit: nat): (n: nat)
    ensures n <= limit && n <= |s|
    ensures forall i :: 0 <= i < n ==> s[i] != '\n'
    ensures n == limit || n == |s| || s[n] == '\n'
  {
    if limit == 0 || |s| == 0 || s[0] == '\n' then 0 else 1 + TextRun(s[1..], limit - 1)
  }

  /** The literal `|` of the pattern. */
  function ScanBar(s: string): (r: Option<string>)
    ensures r.Some? ==> |r.value| < |s|
  {
    if |s| > 0 && s[0] == '|' then Some(s[1..]) else None
  }

  /** The conversion `%255[^\n]` and the white-space directive after it: at
      least one and at most 255 chars up to the end of the line, stored as a C
      string, then any white space skipped. */
  function ScanText(s: string): (r: Option<(string, string)>)
    ensures r.Some? ==> |r.value.1| < |s|
    ensures r.Some? ==> var text := r.value.0;
      |text| <= TEXT_MAX && '\n' !in text && '\0' !in text
  {
    var n := TextRun(s, TEXT_MAX);
    if n == 0 then None
    else Some((CText(s[..n]), SkipSpace(s[n..])))
  }

  /** One call `fscanf(file, "%d|%d|%255[^\n]\n", ...)` that returns 3: the
      record it fills in and the input left after the closing white-space
      directive. None when any directive fails (the call returns less than 3). */
  function ScanRecord(s: string): (r: Option<(Task, string)>)
    ensures r.Some? ==> |r.value.1| < |s|
    ensures r.Some? ==> var text := r.value.0.text;
      |text| <= TEXT_MAX && '\n' !in text && '\0' !in text
  {
    match ScanInt(s)
    case None => None
    case Some((active, s1)) =>
      match ScanBar(s1)
      case None => None
      case Some(s2) =>
        match ScanInt(s2)
        case None => None
        case Some((done, s3)) =>
          match ScanBar(s3)
          case None => None
          case Some(s4) =>
            match ScanText(s4)
            case None => None
            case Some((text, rest)) => Some((Task(active, done, text), rest))
  }

  /** The loop of `loadTasks` over a record scanner: call it until it fails
      or max records are read, keeping the records in file order. */
  function ParseWith(scan: string -> Option<(Task, string)>, s: string, max: nat): (ts: seq<Task>)
    ensures |ts| <= max
    decreases max, |s|
  {
    if max == 0 then []
    else
      var r := scan(s);
      if r.None? then [] else [r.value.0] + ParseWith(scan, r.value.1, max - 1)
  }

  /** The records `loadTasks` reads from file contents s when at most max more
      fit: it stops at the first record that fails to scan, or when full. */
  function ParseRecords(s: string, max: nat): (ts: seq<Task>)
    ensures |ts| <= max
  {
    ParseWith(ScanRecord, s, max)
  }

  /** The records `loadTasks` returns for the file (None: the file is absent). */
  function LoadedTasks(file: Option<string>): (ts: seq<Task>)
    ensures |ts| <= MAX_TASKS
    ensures file.None? ==> ts == []
  {
    match file
    case None => []
    case Some(s) => ParseRecords(s, MAX_TASKS)
  }

  /** Every record of ts has a text that survives a save and a load. */
  predicate AllStorable(ts: seq<Task>) {
    forall i :: 0 <= i < |ts| ==> Storable(ts[i].text)
  }

  /** A text that `%255[^\n]` reads back whole: 1 to 255 chars, no newline,
      and no NUL (`%s` would stop there). */
  predicate Storable(text: string) {
    1 <= |text| <= TEXT_MAX && '\n' !in text && '\0' !in text
  }

  // ---------------------------------------------------------------------
  // Lemmas: the integer conversions
  // ---------------------------------------------------------------------

  /** `%d` stops exactly where a run of digits ends. */
  lemma DigitCountOf(d: string, rest: string)
    requires AllDigits(d)
    requires rest == [] || !IsDigit(rest[0])
    ensures DigitCount(d + rest) == |d|
  {
    assert forall i :: 0 <= i < |d| ==> (d + rest)[i] == d[i];
    assert |d| < |d + rest| ==> (d + rest)[|d|] == rest[0];
  }

  /** Reading back the digits `%d` printed gives the value printed. */
  lemma {:induction false} DecimalValue(n: nat)
    ensures DigitsValue(Decimal(n)) == n
  {
    var d := Decimal(n);
    if n < 10 {
      assert d[..|d| - 1] == [];
    } else {
      DecimalValue(n / 10);
      assert d[..|d| - 1] == Decimal(n / 10);
    }
  }

  /** `%d` skips nothing when the input does not start with white space. */
  lemma NoLeadingSpace(s: string)
    requires |s| > 0 && !IsSpace(s[0])
    ensures SkipSpace(s) == s
  {
  }

  /** `%d` on a run of digits with no sign takes the whole run. */
  lemma ScanDigits(d: string, rest: string)
    requires |d| > 0 && AllDigits(d)
    requires rest == [] || !IsDigit(rest[0])
    ensures ScanInt(d + rest) == Some((DigitsValue(d) as int, rest))
  {
    var s := d + rest;
    assert s[0] == d[0];
    NoLeadingSpace(s);
    DigitCountOf(d, rest);
    assert s[..|d|] == d;
    assert s[|d|..] == rest;
  }

  /** Where a sign, a run of digits and the rest sit in their concatenation. */
  lemma SignedParts(c: char, d: string, rest: string)
    ensures var s := [c] + d + rest;
      s[0] == c && s[1..] == d + rest && s[1..1 + |d|] == d && s[1 + |d|..] == rest
  {
  }

  /** `%d` on what `%d` printed for a negative value. */
  lemma ScanNegativeText(n: int, rest: string)
    requires n < 0
    requires rest == [] || !IsDigit(rest[0])
    ensures ScanInt(IntText(n) + rest) == Some((n, rest))
  {
    var d := Decimal(-n);
    assert IntText(n) == ['-'] + d;
    SignedParts('-', d, rest);
    NoLeadingSpace(IntText(n) + rest);
    DigitCountOf(d, rest);
    DecimalValue(-n);
  }

  /** `%d` reads back exactly what `%d` printed, stopping at the next
      non-digit. */
  lemma ScanIntText(n: int, rest: string)
    requires rest == [] || !IsDigit(rest[0])
    ensures ScanInt(IntText(n) + rest) == Some((n, rest))
  {
    if n < 0 {
      ScanNegativeText(n, rest);
    } else {
      DecimalValue(n);
      ScanDigits(Decimal(n), rest);
    }
  }

  // ---------------------------------------------------------------------
  // Lemmas: records and files
  // ---------------------------------------------------------------------

  lemma CTextOfPlain(text: string)
    requires '\0' !in text
    ensures CText(text) == text
  {
    assert forall i :: 0 <= i < |text| ==> text[i] != '\0';
  }

  /** A newline, then white space: the directive skips all of it. */
  lemma SkipNewline(rest: string)
    ensures SkipSpace("\n" + rest) == SkipSpace(rest)
  {
    var s := "\n" + rest;
    assert s[1..] == rest;
  }

  /** A record written by `saveTasks` with a storable text is read back
      unchanged, and the scan continues after the white space that follows. */
  lemma ScanRecordLine(t: Task, rest: string)
    requires Storable(t.text)
    ensures ScanRecord(Line(t) + rest) == Some((t, SkipSpace(rest)))
  {
    var text := t.text;
    var s4 := text + "\n" + rest;
    var s3 := "|" + s4;
    var s2 := IntText(t.done) + s3;
    var s1 := "|" + s2;
    var s := Line(t) + rest;
    assert s == IntText(t.active) + s1;
    ScanIntText(t.active, s1);
    assert ScanBar(s1) == Some(s2);
    ScanIntText(t.done, s3);
    assert ScanBar(s3) == Some(s4);
    ScanTextLine(text, rest);
  }

  lemma ScanTextLine(text: string, rest: string)
    requires Storable(text)
    ensures ScanText(text + "\n" + rest) == Some((text, SkipSpace(rest)))
  {
    var s := text + "\n" + rest;
    var n := TextRun(s, TEXT_MAX);
    assert n == |text| by {
      assert s[|text|] == '\n';
      assert forall i :: 0 <= i < |text| ==> s[i] == text[i];
    }
    assert s[..n] == text;
    CTextOfPlain(text);
    assert s[n..] == "\n" + rest;
    SkipNewline(rest);
  }

  /** Skipping leading white space first does not change what scanf reads,
      since `%d` skips it anyway. */
  lemma ScanRecordSkipSpace(s: string)
    ensures ScanRecord(SkipSpace(s)) == ScanRecord(s)
  {
    var t := SkipSpace(s);
    assert t == [] || !IsSpace(t[0]);
    assert SpaceCount(t) == 0;
    assert SkipSpace(t) == t;
    assert ScanInt(t) == ScanInt(s);
  }

  /** One call of the scanner inside the load loop. */
  lemma ParseWithStep(scan: string -> Option<(Task, string)>, s: string, max: nat)
    requires max > 0
    ensures scan(s).None? ==> ParseWith(scan, s, max) == []
    ensures scan(s).Some? ==>
      ParseWith(scan, s, max) == [scan(s).value.0] + ParseWith(scan, scan(s).value.1, max - 1)
  {
  }

  /** One turn of the load loop: a record that scans is kept and the parse
      goes on after it; a record that does not scan ends the parse. */
  lemma ParseStep(s: string, max: nat)
    requires max > 0
    ensures ScanRecord(s).None? ==> ParseRecords(s, max) == []
    ensures ScanRecord(s).Some? ==>
      ParseRecords(s, max) == [ScanRecord(s).value.0] + ParseRecords(ScanRecord(s).value.1, max - 1)
  {
    ParseWithStep(ScanRecord, s, max);
  }

  /** A scanner that reads back every line `saveTasks` writes for the
      records of ts, and that ignores leading white space as `%d` does. */
  ghost predicate ReadsBack(scan: string -> Option<(Task, string)>, ts: seq<Task>) {
    (forall i, tail :: 0 <= i < |ts| ==> scan(Line(ts[i]) + tail) == Some((ts[i], SkipSpace(tail)))) &&
    (forall x :: scan(SkipSpace(x)) == scan(x))
  }

  /** The parse of formatted records followed by input at which the scanner
      fails is those records, capped at max. */
  lemma {:induction false} ParseWithFormatted(scan: string -> Option<(Task, string)>, ts: seq<Task>, rest: string, max: nat)
    requires ReadsBack(scan, ts)
    requires scan(rest).None?
    ensures ParseWith(scan, Format(ts) + rest, max) == ts[..Min(max, |ts|)]
    decreases max
  {
    if max == 0 {
    } else if ts == [] {
      assert Format(ts) + rest == rest;
      ParseWithStep(scan, rest, max);
    } else {
      ReadsBackTail(scan, ts);
      ParseWithFormatted(scan, ts[1..], rest, max - 1);
      ParseFormattedCons(scan, ts, rest, max);
    }
  }

  /** The induction step: the first line reads back as the first record and
      the rest parses as the records after it. */
  lemma ParseFormattedCons(scan: string -> Option<(Task, string)>, ts: seq<Task>, rest: string, max: nat)
    requires ts != [] && max > 0 && ReadsBack(scan, ts)
    requires ParseWith(scan, Format(ts[1..]) + rest, max - 1) == ts[1..][..Min(max - 1, |ts[1..]|)]
    ensures ParseWith(scan, Format(ts) + rest, max) == ts[..Min(max, |ts|)]
  {
    var tail := Format(ts[1..]) + rest;
    FormatCons(ts, rest);
    ParseLine(scan, ts[0], tail, max);
    TakeCons(ts, max);
  }

  /** The file of a non-empty run starts with the line of its first record. */
  lemma FormatCons(ts: seq<Task>, rest: string)
    requires ts != []
    ensures Format(ts) + rest == Line(ts[0]) + (Format(ts[1..]) + rest)
  {
  }

  /** Taking a prefix of a non-empty sequence keeps its head. */
  lemma TakeCons<T>(ts: seq<T>, max: nat)
    requires ts != [] && max > 0
    ensures [ts[0]] + ts[1..][..Min(max - 1, |ts[1..]|)] == ts[..Min(max, |ts|)]
  {
  }

  /** A line that scans back to its record, followed by anything, parses to
      that record followed by what the rest parses to. */
  lemma ParseLine(scan: string -> Option<(Task, string)>, t: Task, tail: string, max: nat)
    requires max > 0
    requires scan(Line(t) + tail) == Some((t, SkipSpace(tail)))
    requires scan(SkipSpace(tail)) == scan(tail)
    ensures ParseWith(scan, Line(t) + tail, max) == [t] + ParseWith(scan, tail, max - 1)
  {
    ParseWithStep(scan, Line(t) + tail, max);
    ParseWithSkipSpace(scan, tail, max - 1);
  }

  /** A scanner that reads back a run reads back its tail. */
  lemma ReadsBackTail(scan: string -> Option<(Task, string)>, ts: seq<Task>)
    requires ts != [] && ReadsBack(scan, ts)
    ensures ReadsBack(scan, ts[1..])
  {
    forall i, tail | 0 <= i < |ts| - 1
      ensures scan(Line(ts[1..][i]) + tail) == Some((ts[1..][i], SkipSpace(tail)))
    {
      assert ts[1..][i] == ts[i + 1];
    }
  }

  /** Leading white space makes no difference to a scanner that skips it. */
  lemma ParseWithSkipSpace(scan: string -> Option<(Task, string)>, s: string, max: nat)
    requires scan(SkipSpace(s)) == scan(s)
    ensures ParseWith(scan, SkipSpace(s), max) == ParseWith(scan, s, max)
  {
  }

  /** The records read from a file that `saveTasks` wrote, followed by input
      at which no record scans, are the records written, capped at max:
      parsing stops at the first place a record fails to scan. */
  lemma ParseFormatted(ts: seq<Task>, rest: string, max: nat)
    requires AllStorable(ts)
    requires ScanRecord(rest).None?
    ensures ParseRecords(Format(ts) + rest, max) == ts[..Min(max, |ts|)]
  {
    forall i, tail | 0 <= i < |ts|
      ensures ScanRecord(Line(ts[i]) + tail) == Some((ts[i], SkipSpace(tail)))
    {
      ScanRecordLine(ts[i], tail);
    }
    forall x ensures ScanRecord(SkipSpace(x)) == ScanRecord(x) {
      ScanRecordSkipSpace(x);
    }
    ParseWithFormatted(ScanRecord, ts, rest, max);
  }

  /** Load after save: a file of storable records is read back as written,
      up to the 100-record cap; any record past the cap is dropped. */
  lemma LoadFormatted(ts: seq<Task>)
    requires AllStorable(ts)
    ensures LoadedTasks(Some(Format(ts))) == ts[..Min(MAX_TASKS, |ts|)]
    ensures |ts| <= MAX_TASKS ==> LoadedTasks(Some(Format(ts))) == ts
  {
    assert Format(ts) + "" == Format(ts);
    EndOfFile();
    ParseFormatted(ts, "", MAX_TASKS);
    if |ts| <= MAX_TASKS {
      assert ts[..|ts|] == ts;
    }
  }

  /** At the end of the file no record scans. */
  lemma EndOfFile()
    ensures ScanRecord("").None?
  {
    assert SkipSpace("") == "";
  }

  /** A smaller cap stops the same parse sooner. */
  lemma {:induction false} ParseWithPrefix(scan: string -> Option<(Task, string)>, s: string, m: nat, n: nat)
    requires m <= n
    ensures ParseWith(scan, s, m) == ParseWith(scan, s, n)[..Min(m, |ParseWith(scan, s, n)|)]
    decreases m
  {
    var r := scan(s);
    if m > 0 && r.Some? {
      ParseWithPrefix(scan, r.value.1, m - 1, n - 1);
    }
  }

  /** The cap only cuts: with room for fewer records the parse yields a
      prefix of what it yields with room for more. */
  lemma ParsePrefix(s: string, m: nat, n: nat)
    requires m <= n
    ensures ParseRecords(s, m) == ParseRecords(s, n)[..Min(m, |ParseRecords(s, n)|)]
  {
    ParseWithPrefix(ScanRecord, s, m, n);
  }

  /** `%d` prints an optional minus sign, present exactly for a negative
      value, then at least one digit and nothing else. */
  lemma IntTextShape(n: int)
    ensures |IntText(n)| > 0 && (IntText(n)[0] == '-' <==> n < 0)
    ensures AllDigits(if n < 0 then IntText(n)[1..] else IntText(n))
  {
    if n < 0 {
      assert IntText(n)[1..] == Decimal(-n);
    }
  }

  /** No char that `%d` prints is a newline. */
  lemma IntTextNoNewline(n: int)
    ensures '\n' !in IntText(n)
  {
    IntTextShape(n);
    var s := IntText(n);
    if n < 0 {
      assert forall i :: 1 <= i < |s| ==> s[1..][i - 1] == s[i];
    }
  }

  /** A saved line ends with its newline, and when the text holds no newline
      that is the only one, so each record takes exactly one line. */
  lemma LineShape(t: Task)
    ensures |Line(t)| > 0 && Line(t)[|Line(t)| - 1] == '\n'
    ensures '\n' !in t.text ==> '\n' !in Line(t)[..|Line(t)| - 1]
  {
    var a, d, c := IntText(t.active), IntText(t.done), CText(t.text);
    var body := a + "|" + d + "|" + c;
    assert Line(t) == body + "\n";
    assert Line(t)[..|Line(t)| - 1] == body;
    if '\n' !in t.text {
      IntTextNoNewline(t.active);
      IntTextNoNewline(t.done);
      assert '\n' !in c by {
        assert forall i :: 0 <= i < |c| ==> c[i] == t.text[i];
      }
    }
  }

  /** The saved file is empty exactly when there are no records, and
      otherwise ends with a newline. */
  lemma {:induction false} FormatShape(ts: seq<Task>)
    ensures Format(ts) == [] <==> ts == []
    ensures Format(ts) != [] ==> Format(ts)[|Format(ts)| - 1] == '\n'
  {
    if ts != [] {
      LineShape(ts[0]);
      FormatShape(ts[1..]);
      var l, r := Line(ts[0]), Format(ts[1..]);
      assert Format(ts) == l + r;
      if r == [] {
        assert Format(ts) == l;
      } else {
        assert Format(ts)[|Format(ts)| - 1] == r[|r| - 1];
      }
    }
  }

  /** Writing two runs of records one after the other gives the file of their
      concatenation. */
  lemma {:induction false} FormatAppend(a: seq<Task>, b: seq<Task>)
    ensures Format(a + b) == Format(a) + Format(b)
  {
    if a == [] {
      assert a + b == b;
    } else {
      assert (a + b)[1..] == a[1..] + b;
      FormatAppend(a[1..], b);
    }
  }
}
