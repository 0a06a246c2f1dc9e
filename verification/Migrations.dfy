/** The migration runner. A run may be cut short anywhere, before or after any commit,
    and is simply started again; the schema_migrations table carries the progress. */
module Migrations {
  import opened Common

  const INITIAL := "001_init.sql"
  const UP := "-- +migrate Up"
  const DOWN := "-- +migrate Down"

  // -------------------------------------------------------------- file names

  /** Go's string order; on UTF-8 it is the order of code points. */
  predicate Before(a: string, b: string) {
    b != "" && (a == "" || a[0] < b[0] || (a[0] == b[0] && Before(a[1..], b[1..])))
  }

  lemma {:induction false} BeforeTransitive(a: string, b: string, c: string)
    requires Before(a, b) && Before(b, c)
    ensures Before(a, c)
  {
    if a != "" && a[0] == b[0] && b[0] == c[0] {
      BeforeTransitive(a[1..], b[1..], c[1..]);
    }
  }

  lemma {:induction false} BeforeTotal(a: string, b: string)
    ensures Before(a, b) || a == b || Before(b, a)
    ensures !(Before(a, b) && Before(b, a)) && !Before(a, a)
  {
    if a != "" && b != "" && a[0] == b[0] {
      BeforeTotal(a[1..], b[1..]);
      assert a == [a[0]] + a[1..] && b == [b[0]] + b[1..];
    }
    if a != "" {
      BeforeTotal(a[1..], a[1..]);
    }
  }

  /** What runs when the Up section commits is opaque, but for what it leaves of the three
      legacy tables: unchanged, or present or not. */
  datatype File = File(name: string, isDir: bool, content: string, leavesTables: Option<bool>)

  predicate IsMigration(f: File) {
    !f.isDir && |f.name| >= 4 && f.name[|f.name| - 4..] == ".sql"
  }

  ghost predicate Ascending(names: seq<string>) {
    forall i, j :: 0 <= i < j < |names| ==> Before(names[i], names[j])
  }

  ghost predicate Sorted(files: seq<File>) {
    forall i, j :: 0 <= i < j < |files| ==> Before(files[i].name, files[j].name)
  }

  ghost predicate DistinctNames(files: seq<File>) {
    forall i, j :: 0 <= i < j < |files| ==> files[i].name != files[j].name
  }

  function Inserted(f: File, files: seq<File>): seq<File> {
    if files == [] || Before(f.name, files[0].name) then [f] + files
    else [files[0]] + Inserted(f, files[1..])
  }

  /** Stands for sort.Slice. */
  function SortEntries(files: seq<File>): seq<File> {
    if files == [] then [] else Inserted(files[0], SortEntries(files[1..]))
  }

  lemma {:induction false} InsertedSorted(f: File, files: seq<File>)
    requires Sorted(files) && forall g :: g in files ==> g.name != f.name
    ensures Sorted(Inserted(f, files))
    ensures multiset(Inserted(f, files)) == multiset(files) + multiset{f}
  {
    if files != [] {
      var rest := files[1..];
      assert files == [files[0]] + rest;
      BeforeTotal(f.name, files[0].name);
      if Before(f.name, files[0].name) {
        forall j | 0 <= j < |files|
          ensures Before(f.name, files[j].name)
        {
          if j > 0 {
            BeforeTransitive(f.name, files[0].name, files[j].name);
          }
        }
      } else {
        InsertedSorted(f, rest);
        var r := Inserted(f, rest);
        forall j | 0 <= j < |r|
          ensures Before(files[0].name, r[j].name)
        {
          assert r[j] in multiset(r);
          assert r[j] == f || r[j] in rest;
        }
      }
    }
  }

  lemma {:induction false} SortEntriesSorts(files: seq<File>)
    requires DistinctNames(files)
    ensures Sorted(SortEntries(files)) && multiset(SortEntries(files)) == multiset(files)
  {
    if files != [] {
      var rest := files[1..];
      assert files == [files[0]] + rest;
      SortEntriesSorts(rest);
      forall g | g in SortEntries(rest)
        ensures g.name != files[0].name
      {
        assert g in multiset(SortEntries(rest));
        assert g in multiset(rest);
      }
      InsertedSorted(files[0], SortEntries(rest));
    }
  }

  /** The least name is the same in any two arrangements of the same entries. */
  lemma SameHead(a: seq<File>, b: seq<File>)
    requires Sorted(a) && Sorted(b) && multiset(a) == multiset(b) && a != [] && b != []
    ensures a[0] == b[0]
  {
    assert a[0] in multiset(b) && b[0] in multiset(a);
    var i :| 0 <= i < |b| && b[i] == a[0];
    var j :| 0 <= j < |a| && a[j] == b[0];
    if i > 0 && j > 0 {
      BeforeTotal(a[0].name, b[0].name);
    }
  }

  lemma WithoutHead(a: seq<File>)
    requires a != []
    ensures multiset(a[1..]) == multiset(a) - multiset{a[0]}
  {
    assert [a[0]] + a[1..] == a;
  }

  /** Names being distinct, whichever way the library sorts it yields this one list. */
  lemma {:induction false} AnySortAgrees(a: seq<File>, b: seq<File>)
    requires Sorted(a) && Sorted(b) && multiset(a) == multiset(b)
    ensures a == b
  {
    assert |a| == |multiset(a)| == |multiset(b)| == |b|;
    if a != [] {
      SameHead(a, b);
      WithoutHead(a);
      WithoutHead(b);
      AnySortAgrees(a[1..], b[1..]);
    }
  }

  // ------------------------------------------------------ one file's Up section

  /** Unicode White_Space. */
  predicate IsSpace(c: char) {
    var n := c as int;
    || 9 <= n <= 13 || n == 32 || n == 0x85 || n == 0xA0 || n == 0x1680
    || 0x2000 <= n <= 0x200A || n == 0x2028 || n == 0x2029 || n == 0x202F || n == 0x205F || n == 0x3000
  }

  function TrimLeft(s: string): string {
    if s != "" && IsSpace(s[0]) then TrimLeft(s[1..]) else s
  }

  function TrimRight(s: string): string {
    if s != "" && IsSpace(s[|s| - 1]) then TrimRight(s[..|s| - 1]) else s
  }

  function Trim(s: string): string {
    TrimRight(TrimLeft(s))
  }

  /** strings.Split on the newline. */
  function Lines(s: string): (lines: seq<string>)
    ensures |lines| >= 1
  {
    if s == "" then [""]
    else
      var rest := Lines(s[1..]);
      if s[0] == '\n' then [""] + rest else [[s[0]] + rest[0]] + rest[1..]
  }

  function Join(lines: seq<string>): string {
    if lines == [] then "" else if |lines| == 1 then lines[0]
    else lines[0] + "\n" + Join(lines[1..])
  }

  predicate Marks(line: string, marker: string) {
    Trim(line) == marker
  }

  /** The first marker line from i on, or the end. */
  function FirstMark(lines: seq<string>, marker: string, i: nat): (k: nat)
    requires i <= |lines|
    ensures i <= k <= |lines|
    ensures k < |lines| ==> Marks(lines[k], marker)
    ensures forall j :: i <= j < k ==> !Marks(lines[j], marker)
    decreases |lines| - i
  {
    if i == |lines| || Marks(lines[i], marker) then i else FirstMark(lines, marker, i + 1)
  }

  /** Lines i..k without repetitions of the Up marker. */
  function Kept(lines: seq<string>, up: string, i: nat, k: nat): seq<string>
    requires i <= k <= |lines|
    decreases k
  {
    if i == k then []
    else if Marks(lines[k - 1], up) then Kept(lines, up, i, k - 1)
    else Kept(lines, up, i, k - 1) + [lines[k - 1]]
  }

  /** The lines between the first Up marker and the next Down marker. */
  function Section(lines: seq<string>, up: string, down: string): Option<seq<string>> {
    var u := FirstMark(lines, up, 0);
    if u == |lines| then None else Some(Kept(lines, up, u + 1, FirstMark(lines, down, u + 1)))
  }

  function NonEmpty(s: string): Option<string> {
    if s == "" then None else Some(s)
  }

  function SectionText(content: string, up: string, down: string): Option<string> {
    match Section(Lines(content), up, down)
    case None => NonEmpty(Trim(content))
    case Some(body) => NonEmpty(Trim(Join(body)))
  }

  /** What runs of a file; without an Up marker the whole file. Blank text is an error. */
  function UpSection(content: string): Option<string> {
    SectionText(content, UP, DOWN)
  }

  method ExtractUp(content: string) returns (sql: Option<string>)
    ensures sql == UpSection(content)
  {
    assert |UP| != |DOWN|;
    sql := ExtractSection(content, UP, DOWN);
  }

  ghost predicate NoMark(lines: seq<string>, marker: string, i: nat, k: nat)
    requires k <= |lines|
  {
    forall j :: i <= j < k ==> !Marks(lines[j], marker)
  }

  lemma FirstMarkAt(lines: seq<string>, marker: string, i: nat, k: nat)
    requires i <= k < |lines| && Marks(lines[k], marker) && NoMark(lines, marker, i, k)
    ensures FirstMark(lines, marker, i) == k
  {
  }

  /** What the scanner knows after i lines. */
  ghost predicate Scanned(lines: seq<string>, up: string, down: string, i: nat, foundUp: bool, upLines: seq<string>)
    requires i <= |lines|
  {
    var u := FirstMark(lines, up, 0);
    if foundUp then u < i && NoMark(lines, down, u + 1, i) && upLines == Kept(lines, up, u + 1, i)
    else i <= u && upLines == []
  }

  lemma ScanNext(lines: seq<string>, up: string, down: string, i: nat, foundUp: bool, upLines: seq<string>)
    requires i < |lines| && up != down && Scanned(lines, up, down, i, foundUp, upLines)
    ensures if Marks(lines[i], up) then Scanned(lines, up, down, i + 1, true, upLines)
            else if !foundUp then Scanned(lines, up, down, i + 1, false, upLines)
            else if Marks(lines[i], down) then Section(lines, up, down) == Some(upLines)
            else Scanned(lines, up, down, i + 1, true, upLines + [lines[i]])
  {
    if Marks(lines[i], down) && foundUp {
      FirstMarkAt(lines, down, FirstMark(lines, up, 0) + 1, i);
    }
  }

  lemma ScanEnd(lines: seq<string>, up: string, down: string, foundUp: bool, upLines: seq<string>)
    requires Scanned(lines, up, down, |lines|, foundUp, upLines)
    ensures Section(lines, up, down) == if foundUp then Some(upLines) else None
  {
  }

  /** The loop of the extraction, for any two distinct markers. */
  method ExtractSection(content: string, up: string, down: string) returns (sql: Option<string>)
    requires up != down
    ensures sql == SectionText(content, up, down)
  {
    var lines := Lines(content);
    var foundUp := false;
    var upLines: seq<string> := [];
    for i := 0 to |lines|
      invariant Scanned(lines, up, down, i, foundUp, upLines)
    {
      ScanNext(lines, up, down, i, foundUp, upLines);
      if Marks(lines[i], up) {
        foundUp := true;
        continue;
      }
      if Marks(lines[i], down) && foundUp {
        return NonEmpty(Trim(Join(upLines)));
      }
      if foundUp {
        upLines := upLines + [lines[i]];
      }
    }
    ScanEnd(lines, up, down, foundUp, upLines);
    sql := if foundUp then NonEmpty(Trim(Join(upLines))) else NonEmpty(Trim(content));
  }

  lemma {:induction false} JoinLines(s: string)
    ensures Join(Lines(s)) == s
  {
    if s != "" {
      JoinLines(s[1..]);
      var rest := Lines(s[1..]);
      if s[0] != '\n' && |rest| > 1 {
        assert ([[s[0]] + rest[0]] + rest[1..])[1..] == rest[1..];
      }
    }
  }

  ghost predicate OneLine(line: string) {
    forall i :: 0 <= i < |line| ==> line[i] != '\n'
  }

  lemma {:induction false} LinesAfter(line: string, s: string)
    requires OneLine(line)
    ensures Lines(line + "\n" + s) == [line] + Lines(s)
    ensures Lines(line) == [line]
  {
    if line == "" {
      assert line + "\n" + s == "\n" + s;
    } else {
      LinesAfter(line[1..], s);
      assert (line + "\n" + s)[1..] == line[1..] + "\n" + s;
      assert [line[0]] + line[1..] == line;
    }
  }

  lemma {:induction false} LinesJoin(lines: seq<string>)
    requires lines != [] && forall line :: line in lines ==> OneLine(line)
    ensures Lines(Join(lines)) == lines
  {
    if |lines| == 1 {
      LinesAfter(lines[0], "");
    } else {
      LinesJoin(lines[1..]);
      LinesAfter(lines[0], Join(lines[1..]));
      assert lines == [lines[0]] + lines[1..];
    }
  }

  lemma {:induction false} KeptAll(lines: seq<string>, up: string, i: nat, k: nat)
    requires i <= k <= |lines| && NoMark(lines, up, i, k)
    ensures Kept(lines, up, i, k) == lines[i..k]
    decreases k
  {
    if i < k {
      KeptAll(lines, up, i, k - 1);
      SliceSnoc(lines, i, k);
    }
  }

  lemma SliceSnoc(lines: seq<string>, i: nat, k: nat)
    requires i < k <= |lines|
    ensures lines[i..k] == lines[i..k - 1] + [lines[k - 1]]
  {
  }

  /** The first Up marker is line u and the next Down marker is line d. */
  ghost predicate MarkedAt(lines: seq<string>, up: string, down: string, u: nat, d: nat) {
    && u < d < |lines| && Marks(lines[u], up) && Marks(lines[d], down)
    && NoMark(lines, up, 0, u) && NoMark(lines, up, u + 1, d) && NoMark(lines, down, u + 1, d)
  }

  lemma SectionBetween(lines: seq<string>, up: string, down: string, u: nat, d: nat)
    requires MarkedAt(lines, up, down, u, d)
    ensures Section(lines, up, down) == Some(lines[u + 1..d])
  {
    FirstMarkAt(lines, up, 0, u);
    FirstMarkAt(lines, down, u + 1, d);
    KeptAll(lines, up, u + 1, d);
  }

  lemma TextBetween(lines: seq<string>, up: string, down: string, u: nat, d: nat)
    requires MarkedAt(lines, up, down, u, d) && forall line :: line in lines ==> OneLine(line)
    ensures SectionText(Join(lines), up, down) == NonEmpty(Trim(Join(lines[u + 1..d])))
  {
    LinesJoin(lines);
    SectionBetween(lines, up, down, u, d);
  }

  /** Of a file whose first Up marker is line u and whose next Down marker is line d,
      exactly the lines between them run, whatever stands before u and after d. */
  lemma OnlyTheBodyRuns(lines: seq<string>, u: nat, d: nat)
    requires MarkedAt(lines, UP, DOWN, u, d) && forall line :: line in lines ==> OneLine(line)
    ensures UpSection(Join(lines)) == NonEmpty(Trim(Join(lines[u + 1..d])))
  {
    TextBetween(lines, UP, DOWN, u, d);
  }

  // ------------------------------------------------------------------- one run

  /** log: the files whose Up section has committed, oldest first. */
  datatype DB = DB(recorded: set<string>, log: seq<string>, tables: bool)

  /** How the store calls for one file go: they succeed, they fail without effect, or the
      commit takes effect but the run ends there all the same. */
  datatype Fate = Done | FailedBefore | FailedAfter

  datatype Attempt = Attempt(setupOk: bool, fates: map<string, Fate>)

  function FateOf(fates: map<string, Fate>, name: string): Fate {
    if name in fates then fates[name] else Done
  }

  predicate Skipped(db: DB, f: File) {
    !IsMigration(f) || f.name in db.recorded
  }

  predicate Legacy(db: DB, f: File) {
    f.name == INITIAL && db.tables
  }

  function Marked(db: DB, f: File): DB {
    db.(recorded := db.recorded + {f.name})
  }

  function Executed(db: DB, f: File): DB {
    DB(db.recorded + {f.name}, db.log + [f.name], if f.leavesTables.Some? then f.leavesTables.value else db.tables)
  }

  /** The state after a file, and whether the run goes on. */
  function FileStep(db: DB, f: File, fates: map<string, Fate>): (DB, bool) {
    var fate := FateOf(fates, f.name);
    if Skipped(db, f) then (db, true)
    else if Legacy(db, f) then (if fate.FailedBefore? then db else Marked(db, f), fate.Done?)
    else if UpSection(f.content).None? then (db, false)
    else (if fate.FailedBefore? then db else Executed(db, f), fate.Done?)
  }

  function RunFrom(db: DB, files: seq<File>, i: nat, fates: map<string, Fate>): (DB, bool)
    requires i <= |files|
    decreases |files| - i
  {
    if i == |files| then (db, true)
    else
      var (db', goesOn) := FileStep(db, files[i], fates);
      if goesOn then RunFrom(db', files, i + 1, fates) else (db', false)
  }

  function RunOnce(db: DB, files: seq<File>, attempt: Attempt): (DB, bool) {
    if attempt.setupOk then RunFrom(db, files, 0, attempt.fates) else (db, false)
  }

  function RunAll(db: DB, files: seq<File>, attempts: seq<Attempt>): DB {
    if attempts == [] then db
    else RunOnce(RunAll(db, files, attempts[..|attempts| - 1]), files, attempts[|attempts| - 1]).0
  }

  /** Where a run that nothing disturbs ends. */
  function Undisturbed(db: DB, files: seq<File>): DB {
    RunFrom(db, files, 0, map[]).0
  }

  class Runner {
    var recorded: set<string>
    var log: seq<string>
    var tables: bool

    ghost function Abs(): DB
      reads this
    {
      DB(recorded, log, tables)
    }

    /** One INSERT … ON CONFLICT DO NOTHING, in its own transaction. */
    method RecordMigration(f: File, fate: Fate) returns (ok: bool)
      modifies this`recorded
      ensures Abs() == if fate.FailedBefore? then old(Abs()) else Marked(old(Abs()), f)
      ensures ok == fate.Done?
    {
      if !fate.FailedBefore? {
        recorded := recorded + {f.name};
      }
      ok := fate.Done?;
    }

    /** Up section and record commit together. */
    method ApplyMigration(f: File, fate: Fate) returns (ok: bool)
      modifies this
      ensures Abs() == if fate.FailedBefore? then old(Abs()) else Executed(old(Abs()), f)
      ensures ok == fate.Done?
    {
      if !fate.FailedBefore? {
        recorded, log := recorded + {f.name}, log + [f.name];
        if f.leavesTables.Some? {
          tables := f.leavesTables.value;
        }
      }
      ok := fate.Done?;
    }

    /** The applied set is read once and then kept up to date by hand. */
    method RunMigrations(directory: seq<File>, attempt: Attempt) returns (ok: bool)
      modifies this
      ensures (Abs(), ok) == RunOnce(old(Abs()), SortEntries(directory), attempt)
    {
      if !attempt.setupOk {
        return false;
      }
      var applied := recorded;
      var files := SortEntries(directory);
      var fates := attempt.fates;
      ghost var result := RunFrom(Abs(), files, 0, fates);
      for i := 0 to |files|
        invariant applied == recorded
        invariant RunFrom(Abs(), files, i, fates) == result
      {
        var f := files[i];
        if !IsMigration(f) || f.name in applied {
          continue;
        }
        if f.name == INITIAL && tables {
          ok := RecordMigration(f, FateOf(fates, f.name));
          if !ok {
            return;
          }
          applied := applied + {f.name};
          continue;
        }
        var sql := ExtractUp(f.content);
        if sql.None? {
          return false;
        }
        ok := ApplyMigration(f, FateOf(fates, f.name));
        if !ok {
          return;
        }
        applied := applied + {f.name};
      }
      ok := true;
    }
  }

  // ------------------------------------------------------- exactly once, in order

  ghost predicate Handled(db: DB, files: seq<File>, i: nat) {
    forall k :: 0 <= k < i <= |files| ==> Skipped(db, files[k])
  }

  /** Commits are ascending, hence without repetition, are all recorded, and lie before
      every file still to run. */
  ghost predicate Orderly(db: DB, files: seq<File>) {
    && Ascending(db.log)
    && (forall n :: n in db.log ==> n in db.recorded)
    && (forall f, n :: f in files && !Skipped(db, f) && n in db.log ==> Before(n, f.name))
  }

  ghost predicate Extends(db: DB, db': DB) {
    && db.recorded <= db'.recorded
    && db.log <= db'.log
    && (forall k :: |db.log| <= k < |db'.log| ==> db'.log[k] !in db.recorded)
  }

  lemma FileStepCases(db: DB, f: File, fates: map<string, Fate>)
    ensures var db' := FileStep(db, f, fates).0;
            || db' == db
            || (Legacy(db, f) && db' == Marked(db, f))
            || (!Skipped(db, f) && !Legacy(db, f) && db' == Executed(db, f))
  {
  }

  lemma FileStepHandled(db: DB, files: seq<File>, i: nat, fates: map<string, Fate>)
    requires i < |files| && Handled(db, files, i)
    ensures var (db', goesOn) := FileStep(db, files[i], fates);
            db.recorded <= db'.recorded && (goesOn ==> Handled(db', files, i + 1))
  {
  }

  lemma ExecutedOrderly(db: DB, files: seq<File>, i: nat)
    requires i < |files| && Sorted(files) && Orderly(db, files) && Handled(db, files, i)
    requires !Skipped(db, files[i])
    ensures Orderly(Executed(db, files[i]), files)
  {
    var f := files[i];
    var db' := Executed(db, f);
    assert f in files;
    assert forall n :: n in db.log ==> Before(n, f.name);
    forall g, n | g in files && !Skipped(db', g) && n in db'.log
      ensures Before(n, g.name)
    {
      var k :| 0 <= k < |files| && files[k] == g;
      assert k > i;
    }
  }

  lemma FileStepOrderly(db: DB, files: seq<File>, i: nat, fates: map<string, Fate>)
    requires i < |files| && Sorted(files) && Orderly(db, files) && Handled(db, files, i)
    ensures var (db', goesOn) := FileStep(db, files[i], fates);
            Orderly(db', files) && Extends(db, db') && (goesOn ==> Handled(db', files, i + 1))
  {
    FileStepCases(db, files[i], fates);
    FileStepHandled(db, files, i, fates);
    if !Skipped(db, files[i]) {
      ExecutedOrderly(db, files, i);
    }
  }

  lemma {:induction false} RunFromOrderly(db: DB, files: seq<File>, i: nat, fates: map<string, Fate>)
    requires i <= |files| && Sorted(files) && Orderly(db, files) && Handled(db, files, i)
    ensures var (db', ok) := RunFrom(db, files, i, fates);
            Orderly(db', files) && Extends(db, db') && (ok ==> Handled(db', files, |files|))
    decreases |files| - i
  {
    if i < |files| {
      FileStepOrderly(db, files, i, fates);
      var (db', goesOn) := FileStep(db, files[i], fates);
      if goesOn {
        RunFromOrderly(db', files, i + 1, fates);
        ExtendsTransitive(db, db', RunFrom(db', files, i + 1, fates).0);
      }
    }
  }

  lemma ExtendsTransitive(a: DB, b: DB, c: DB)
    requires Extends(a, b) && Extends(b, c)
    ensures Extends(a, c)
  {
    forall k | |a.log| <= k < |c.log|
      ensures c.log[k] !in a.recorded
    {
      if k < |b.log| {
        assert c.log[k] == b.log[k];
      }
    }
  }

  /** Over any sequence of runs, each cut short anywhere: every Up section commits at most
      once, in ascending order of file name, and never one recorded at the start. */
  lemma {:induction false} ExactlyOnceInOrder(db: DB, files: seq<File>, attempts: seq<Attempt>)
    requires Sorted(files) && db.log == []
    ensures var db' := RunAll(db, files, attempts);
            Ascending(db'.log) && Orderly(db', files) && Extends(db, db')
  {
    if attempts != [] {
      var before := attempts[..|attempts| - 1];
      ExactlyOnceInOrder(db, files, before);
      var mid := RunAll(db, files, before);
      RunFromOrderly(mid, files, 0, attempts[|attempts| - 1].fates);
      ExtendsTransitive(db, mid, RunAll(db, files, attempts));
    }
  }

  /** Files already dealt with are passed over. */
  lemma {:induction false} SkipHandled(db: DB, files: seq<File>, i: nat, k: nat, fates: map<string, Fate>)
    requires k <= i <= |files| && Handled(db, files, i)
    ensures RunFrom(db, files, k, fates) == RunFrom(db, files, i, fates)
    decreases i - k
  {
    if k < i {
      SkipHandled(db, files, i, k + 1, fates);
    }
  }

  /** After a complete run every .sql file is recorded and no later run, however it goes,
      changes anything. */
  lemma CompleteRunSettles(db: DB, files: seq<File>, attempt: Attempt, later: Attempt)
    requires Sorted(files) && Orderly(db, files)
    ensures var (db', ok) := RunOnce(db, files, attempt);
            ok ==>
              && (forall f :: f in files && IsMigration(f) ==> f.name in db'.recorded)
              && RunOnce(db', files, later).0 == db'
  {
    RunFromOrderly(db, files, 0, attempt.fates);
    var (db', ok) := RunOnce(db, files, attempt);
    if ok {
      SkipHandled(db', files, |files|, 0, later.fates);
    }
  }

  // --------------------------------------------------- crashes change nothing

  lemma {:induction false} AbortKeepsOutcome(db: DB, files: seq<File>, i: nat, fates: map<string, Fate>)
    requires i <= |files| && Sorted(files) && Orderly(db, files) && Handled(db, files, i)
    ensures var (db', ok) := RunFrom(db, files, i, fates);
            Undisturbed(db', files) == RunFrom(db, files, i, map[]).0 && (ok ==> db' == Undisturbed(db', files))
    decreases |files| - i
  {
    SkipHandled(db, files, i, 0, map[]);
    if i < |files| {
      var f := files[i];
      var (db', goesOn) := FileStep(db, f, fates);
      FileStepOrderly(db, files, i, fates);
      if goesOn {
        assert FileStep(db, f, map[]) == (db', true);
        AbortKeepsOutcome(db', files, i + 1, fates);
      } else if db' != db {
        FileStepOrderly(db, files, i, map[]);
        assert FileStep(db, f, map[]) == (db', true);
        SkipHandled(db', files, i + 1, 0, map[]);
      }
    }
  }

  /** Crash transparency: after any number of runs cut short anywhere, an undisturbed run
      ends in the very database an undisturbed first run would have produced; and a run
      that completes is already there. */
  lemma {:induction false} CrashesChangeNothing(db: DB, files: seq<File>, attempts: seq<Attempt>, last: Attempt)
    requires Sorted(files) && db.log == []
    ensures var mid := RunAll(db, files, attempts);
            && Undisturbed(mid, files) == Undisturbed(db, files)
            && (RunOnce(mid, files, last).1 ==> RunOnce(mid, files, last).0 == Undisturbed(db, files))
  {
    var mid := RunAll(db, files, attempts);
    if attempts != [] {
      var n := |attempts| - 1;
      CrashesChangeNothing(db, files, attempts[..n], attempts[n]);
      var earlier := RunAll(db, files, attempts[..n]);
      ExactlyOnceInOrder(db, files, attempts[..n]);
      AbortKeepsOutcome(earlier, files, 0, attempts[n].fates);
    }
    ExactlyOnceInOrder(db, files, attempts);
    AbortKeepsOutcome(mid, files, 0, last.fates);
  }

  // ------------------------------------------------------------ legacy databases

  /** The initial migration has not run, and is recorded or will be recognised. */
  ghost predicate LegacyKept(db: DB) {
    INITIAL !in db.log && (INITIAL in db.recorded || db.tables)
  }

  /** No file that runs before the initial one removes the tables it looks for. */
  ghost predicate TablesStay(files: seq<File>) {
    forall f :: f in files && Before(f.name, INITIAL) ==> f.leavesTables != Some(false)
  }

  ghost predicate HasInitial(files: seq<File>) {
    exists k :: 0 <= k < |files| && IsMigration(files[k]) && files[k].name == INITIAL
  }

  ghost predicate LegacyGiven(files: seq<File>) {
    Sorted(files) && TablesStay(files) && HasInitial(files)
  }

  lemma TablesBeforeInitial(db: DB, files: seq<File>, i: nat)
    requires i < |files| && LegacyGiven(files) && Handled(db, files, i)
    requires INITIAL !in db.recorded && files[i].name != INITIAL
    ensures files[i].leavesTables != Some(false)
  {
    var k :| 0 <= k < |files| && IsMigration(files[k]) && files[k].name == INITIAL;
    assert !Skipped(db, files[k]);
    assert k > i;
    assert Before(files[i].name, files[k].name);
    assert files[i] in files;
  }

  lemma LegacyExecuted(db: DB, f: File)
    requires LegacyKept(db) && f.name != INITIAL
    requires INITIAL in db.recorded || f.leavesTables != Some(false)
    ensures LegacyKept(Executed(db, f))
  {
  }

  lemma LegacyFileStep(db: DB, files: seq<File>, i: nat, fates: map<string, Fate>)
    requires i < |files| && LegacyGiven(files) && LegacyKept(db) && Handled(db, files, i)
    ensures LegacyKept(FileStep(db, files[i], fates).0)
  {
    var f := files[i];
    FileStepCases(db, f, fates);
    if FileStep(db, f, fates).0 == Executed(db, f) && f.name != INITIAL {
      if INITIAL !in db.recorded {
        TablesBeforeInitial(db, files, i);
      }
      LegacyExecuted(db, f);
    }
  }

  lemma {:induction false} LegacyRunFrom(db: DB, files: seq<File>, i: nat, fates: map<string, Fate>)
    requires i <= |files| && LegacyGiven(files) && LegacyKept(db) && Handled(db, files, i)
    ensures LegacyKept(RunFrom(db, files, i, fates).0)
    decreases |files| - i
  {
    if i < |files| {
      LegacyFileStep(db, files, i, fates);
      FileStepHandled(db, files, i, fates);
      var step := FileStep(db, files[i], fates);
      if step.1 {
        LegacyRunFrom(step.0, files, i + 1, fates);
        assert RunFrom(db, files, i, fates) == RunFrom(step.0, files, i + 1, fates);
      }
    }
  }

  /** A database that had the tables before migrations existed never sees the initial
      migration executed, over any sequence of runs cut short anywhere. */
  lemma {:induction false} LegacyInitNeverRuns(db: DB, files: seq<File>, attempts: seq<Attempt>)
    requires LegacyGiven(files) && db.log == [] && db.tables
    ensures INITIAL !in RunAll(db, files, attempts).log && LegacyKept(RunAll(db, files, attempts))
  {
    if attempts != [] {
      var n := |attempts| - 1;
      LegacyInitNeverRuns(db, files, attempts[..n]);
      LegacyRunFrom(RunAll(db, files, attempts[..n]), files, 0, attempts[n].fates);
    }
  }
}
