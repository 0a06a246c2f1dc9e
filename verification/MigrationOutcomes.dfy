/** What a run of the migrations has done when it reports success, when it does, and what
    text of a file it runs, said in terms of the directory and the database it found. */
module MigrationOutcomes {
  import opened Common
  import opened Migrations

  /** A regular file ending in ".sql" that was not recorded when the run began. */
  ghost predicate Due(f: File, recorded: set<string>) {
    !f.isDir && |f.name| >= 4 && f.name[|f.name| - 4..] == ".sql" && f.name !in recorded
  }

  /** Whether the three legacy tables are there once the first k files have had their turn. */
  ghost function TablesAt(files: seq<File>, db: DB, k: nat): bool
    requires k <= |files|
  {
    if k == 0 then db.tables
    else if Due(files[k - 1], db.recorded) && files[k - 1].leavesTables.Some? then files[k - 1].leavesTables.value
    else TablesAt(files, db, k - 1)
  }

  /** The initial file finds the tables there when its turn comes. */
  ghost predicate Recognised(files: seq<File>, db: DB, k: nat)
    requires k < |files|
  {
    files[k].name == "001_init.sql" && TablesAt(files, db, k)
  }

  ghost predicate Runs(files: seq<File>, db: DB, k: nat)
    requires k < |files|
  {
    Due(files[k], db.recorded) && !Recognised(files, db, k)
  }

  ghost function RunNames(files: seq<File>, db: DB, i: nat): seq<string>
    requires i <= |files|
  {
    if i == 0 then []
    else if Runs(files, db, i - 1) then RunNames(files, db, i - 1) + [files[i - 1].name]
    else RunNames(files, db, i - 1)
  }

  ghost function DueNames(files: seq<File>, db: DB, i: nat): set<string>
    requires i <= |files|
  {
    set k | 0 <= k < i && Due(files[k], db.recorded) :: files[k].name
  }

  lemma {:induction false} RunNamesAre(files: seq<File>, db: DB, i: nat, n: string)
    requires i <= |files|
    ensures n in RunNames(files, db, i) <==> exists k :: 0 <= k < i && Runs(files, db, k) && files[k].name == n
  {
    if i > 0 {
      RunNamesAre(files, db, i - 1, n);
    }
  }

  lemma {:induction false} RunNamesAscend(files: seq<File>, db: DB, i: nat)
    requires i <= |files| && Sorted(files)
    ensures Ascending(RunNames(files, db, i))
  {
    if i > 0 {
      RunNamesAscend(files, db, i - 1);
      var names := RunNames(files, db, i - 1);
      forall j | 0 <= j < |names|
        ensures Before(names[j], files[i - 1].name)
      {
        RunNamesAre(files, db, i - 1, names[j]);
      }
    }
  }

  // ------------------------------------------------------------- along one run

  /** After i files: recorded and log are what they should be, and until the initial file
      has had its turn the tables are too. */
  ghost predicate OnTrack(files: seq<File>, db: DB, i: nat, now: DB)
    requires i <= |files|
  {
    && now.recorded == db.recorded + DueNames(files, db, i)
    && now.log == db.log + RunNames(files, db, i)
    && ((forall k :: 0 <= k < i ==> files[k].name != INITIAL) ==> now.tables == TablesAt(files, db, i))
  }

  lemma DueNamesNext(files: seq<File>, db: DB, i: nat)
    requires i < |files|
    ensures DueNames(files, db, i + 1) ==
            DueNames(files, db, i) + if Due(files[i], db.recorded) then {files[i].name} else {}
  {
    forall n | n in DueNames(files, db, i)
      ensures n in DueNames(files, db, i + 1)
    {
      var k :| 0 <= k < i && Due(files[k], db.recorded) && files[k].name == n;
      assert 0 <= k < i + 1;
    }
  }

  lemma NamesDiffer(files: seq<File>, i: nat, k: nat)
    requires Sorted(files) && k < i < |files|
    ensures files[k].name != files[i].name
  {
    BeforeTotal(files[k].name, files[i].name);
  }

  lemma NotYetDue(files: seq<File>, db: DB, i: nat)
    requires Sorted(files) && i < |files|
    ensures files[i].name !in DueNames(files, db, i)
  {
    if files[i].name in DueNames(files, db, i) {
      var k :| 0 <= k < i && files[k].name == files[i].name;
      NamesDiffer(files, i, k);
      assert false;
    }
  }

  /** How a file's turn goes, on track. */
  lemma TurnOf(files: seq<File>, db: DB, i: nat, now: DB)
    requires Sorted(files) && i < |files| && OnTrack(files, db, i, now)
    ensures Skipped(now, files[i]) <==> !Due(files[i], db.recorded)
    ensures Due(files[i], db.recorded) ==> (Legacy(now, files[i]) <==> Recognised(files, db, i))
  {
    NotYetDue(files, db, i);
    if files[i].name == INITIAL {
      forall k | 0 <= k < i
        ensures files[k].name != INITIAL
      {
        NamesDiffer(files, i, k);
      }
    }
  }

  ghost predicate Passes(files: seq<File>, db: DB, k: nat, fates: map<string, Fate>)
    requires k < |files|
  {
    Due(files[k], db.recorded) ==>
      FateOf(fates, files[k].name).Done? && (Recognised(files, db, k) || UpSection(files[k].content).Some?)
  }

  lemma StepOnTrack(files: seq<File>, db: DB, i: nat, now: DB, fates: map<string, Fate>)
    requires Sorted(files) && i < |files| && OnTrack(files, db, i, now)
    ensures var (now', goesOn) := FileStep(now, files[i], fates);
            (goesOn <==> Passes(files, db, i, fates)) && (goesOn ==> OnTrack(files, db, i + 1, now'))
  {
    TurnOf(files, db, i, now);
    DueNamesNext(files, db, i);
  }

  lemma RunFromNext(now: DB, files: seq<File>, i: nat, fates: map<string, Fate>)
    requires i < |files|
    ensures var step := FileStep(now, files[i], fates);
            RunFrom(now, files, i, fates) == if step.1 then RunFrom(step.0, files, i + 1, fates) else (step.0, false)
  {
  }

  /** A run whose turns keep `on` and go on exactly where `pass` says. */
  lemma {:induction false} RunKeeps(on: (int, DB) -> bool, pass: int -> bool, files: seq<File>, i: nat, now: DB,
                                    fates: map<string, Fate>)
    requires i <= |files| && on(i, now)
    requires forall j, d :: 0 <= j < |files| && on(j, d) ==>
               && (FileStep(d, files[j], fates).1 <==> pass(j))
               && (pass(j) ==> on(j + 1, FileStep(d, files[j], fates).0))
    ensures RunFrom(now, files, i, fates).1 <==> forall k :: i <= k < |files| ==> pass(k)
    ensures RunFrom(now, files, i, fates).1 ==> on(|files|, RunFrom(now, files, i, fates).0)
    decreases |files| - i
  {
    if i < |files| {
      RunFromNext(now, files, i, fates);
      if pass(i) {
        RunKeeps(on, pass, files, i + 1, FileStep(now, files[i], fates).0, fates);
      }
    }
  }

  ghost function TrackOf(files: seq<File>, db: DB): (int, DB) -> bool {
    (j: int, d: DB) => 0 <= j <= |files| && OnTrack(files, db, j, d)
  }

  ghost function PassOf(files: seq<File>, db: DB, fates: map<string, Fate>): int -> bool {
    (k: int) => 0 <= k < |files| && Passes(files, db, k, fates)
  }

  lemma TurnKeeps(files: seq<File>, db: DB, fates: map<string, Fate>, j: nat, d: DB)
    requires Sorted(files) && j < |files| && TrackOf(files, db)(j, d)
    ensures FileStep(d, files[j], fates).1 <==> PassOf(files, db, fates)(j)
    ensures PassOf(files, db, fates)(j) ==> TrackOf(files, db)(j + 1, FileStep(d, files[j], fates).0)
  {
    StepOnTrack(files, db, j, d, fates);
  }

  lemma StartsOnTrack(files: seq<File>, db: DB)
    ensures TrackOf(files, db)(0, db)
  {
    assert DueNames(files, db, 0) == {};
  }

  lemma RunOnTrack(files: seq<File>, db: DB, fates: map<string, Fate>)
    requires Sorted(files)
    ensures RunFrom(db, files, 0, fates).1 <==> forall k :: 0 <= k < |files| ==> PassOf(files, db, fates)(k)
    ensures RunFrom(db, files, 0, fates).1 ==> TrackOf(files, db)(|files|, RunFrom(db, files, 0, fates).0)
  {
    StartsOnTrack(files, db);
    forall j, d | 0 <= j < |files| && TrackOf(files, db)(j, d)
      ensures FileStep(d, files[j], fates).1 <==> PassOf(files, db, fates)(j)
      ensures PassOf(files, db, fates)(j) ==> TrackOf(files, db)(j + 1, FileStep(d, files[j], fates).0)
    {
      TurnKeeps(files, db, fates, j, d);
    }
    RunKeeps(TrackOf(files, db), PassOf(files, db, fates), files, 0, db, fates);
  }

  /** A run succeeds exactly if its set-up does and every file that is due, unless it is
      the initial one recognised by its tables, has text to run, and nothing fails. */
  lemma CompletesIff(db: DB, files: seq<File>, attempt: Attempt)
    requires Sorted(files)
    ensures RunOnce(db, files, attempt).1 <==>
            attempt.setupOk && forall k :: 0 <= k < |files| ==> Passes(files, db, k, attempt.fates)
  {
    RunOnTrack(files, db, attempt.fates);
    forall k | 0 <= k < |files|
      ensures PassOf(files, db, attempt.fates)(k) <==> Passes(files, db, k, attempt.fates)
    {
      PassOfIs(files, db, attempt.fates, k);
    }
  }

  lemma PassOfIs(files: seq<File>, db: DB, fates: map<string, Fate>, k: nat)
    requires k < |files|
    ensures PassOf(files, db, fates)(k) <==> Passes(files, db, k, fates)
  {
  }

  /** A run that succeeds has executed exactly the files that were due, in ascending order,
      leaving out the initial one exactly if the tables were there at its turn, and has
      recorded all that were due. */
  lemma CompleteRunRan(db: DB, files: seq<File>, attempt: Attempt)
    requires Sorted(files) && RunOnce(db, files, attempt).1
    ensures var db' := RunOnce(db, files, attempt).0;
            && db.log <= db'.log && Ascending(db'.log[|db.log|..])
            && (forall n :: n in db'.log[|db.log|..] <==>
                  exists k :: 0 <= k < |files| && Runs(files, db, k) && files[k].name == n)
            && (forall n :: n in db'.recorded <==>
                  n in db.recorded || exists k :: 0 <= k < |files| && Due(files[k], db.recorded) && files[k].name == n)
  {
    RunOnTrack(files, db, attempt.fates);
    var db' := RunOnce(db, files, attempt).0;
    var grown := RunNames(files, db, |files|);
    assert db'.log[|db.log|..] == grown;
    RunNamesAscend(files, db, |files|);
    forall n
      ensures n in grown <==> exists k :: 0 <= k < |files| && Runs(files, db, k) && files[k].name == n
    {
      RunNamesAre(files, db, |files|, n);
    }
  }

  lemma {:induction false} NoTablesBefore(files: seq<File>, db: DB, k: nat)
    requires k <= |files| && !db.tables && forall j :: 0 <= j < k ==> files[j].leavesTables != Some(true)
    ensures !TablesAt(files, db, k)
  {
    if k > 0 {
      NoTablesBefore(files, db, k - 1);
    }
  }

  /** An empty database ends with every .sql file in its log, once and in order, provided
      no file that sorts before the initial one makes the tables that stand for it. */
  lemma EmptyDatabase(files: seq<File>, attempt: Attempt)
    requires Sorted(files) && RunOnce(DB({}, [], false), files, attempt).1
    requires forall k :: 0 <= k < |files| && Before(files[k].name, "001_init.sql") ==>
               files[k].leavesTables != Some(true)
    ensures var log := RunOnce(DB({}, [], false), files, attempt).0.log;
            && Ascending(log)
            && forall n :: n in log <==>
                 exists k :: 0 <= k < |files| && Due(files[k], {}) && files[k].name == n
  {
    var db := DB({}, [], false);
    CompleteRunRan(db, files, attempt);
    var log := RunOnce(db, files, attempt).0.log;
    assert log[|db.log|..] == log;
    forall k | 0 <= k < |files| && files[k].name == "001_init.sql"
      ensures !TablesAt(files, db, k)
    {
      NoTablesBefore(files, db, k);
    }
  }

  // -------------------------------------------------------------- order of names

  /** One name comes before another if it is a proper beginning of it, or has the smaller
      character where they first differ. */
  ghost predicate Lower(a: string, b: string, k: nat) {
    k <= |a| && k < |b| && a[..k] == b[..k] && (k == |a| || a[k] < b[k])
  }

  lemma {:induction false} BeforeIff(a: string, b: string)
    ensures Before(a, b) <==> exists k :: Lower(a, b, k)
  {
    if b == "" {
    } else if a == "" || a[0] < b[0] {
      assert Lower(a, b, 0);
    } else {
      BeforeIff(a[1..], b[1..]);
      if a[0] == b[0] && Before(a[1..], b[1..]) {
        var k :| Lower(a[1..], b[1..], k);
        LowerLonger(a, b, k);
      }
      if k :| Lower(a, b, k) {
        LowerShorter(a, b, k);
      }
    }
  }

  lemma LowerLonger(a: string, b: string, k: nat)
    requires a != "" && b != "" && a[0] == b[0] && Lower(a[1..], b[1..], k)
    ensures Lower(a, b, k + 1)
  {
    assert a[..k + 1] == [a[0]] + a[1..][..k];
    assert b[..k + 1] == [b[0]] + b[1..][..k];
  }

  lemma LowerShorter(a: string, b: string, k: nat)
    requires a != "" && b != "" && !(a[0] < b[0]) && Lower(a, b, k)
    ensures k > 0 && a[0] == b[0] && Lower(a[1..], b[1..], k - 1)
  {
    assert k > 0;
    assert a[0] == a[..k][0] && b[0] == b[..k][0];
    assert a[1..][..k - 1] == a[..k][1..] && b[1..][..k - 1] == b[..k][1..];
  }

  // ------------------------------------------------------------- text of a file

  ghost predicate AllSpace(s: string) {
    forall i :: 0 <= i < |s| ==> IsSpace(s[i])
  }

  lemma {:induction false} TrimsLeft(pre: string, s: string)
    requires AllSpace(pre) && s != "" && !IsSpace(s[0])
    ensures TrimLeft(pre + s) == s
  {
    if pre == "" {
      assert pre + s == s;
    } else {
      assert (pre + s)[1..] == pre[1..] + s;
      TrimsLeft(pre[1..], s);
    }
  }

  lemma {:induction false} TrimsRight(s: string, post: string)
    requires AllSpace(post) && s != "" && !IsSpace(s[|s| - 1])
    ensures TrimRight(s + post) == s
  {
    if post == "" {
      assert s + post == s;
    } else {
      var n := |post| - 1;
      assert (s + post)[..|s + post| - 1] == s + post[..n];
      TrimsRight(s, post[..n]);
    }
  }

  /** Trimming takes off exactly the white space around a text. */
  lemma TrimIs(pre: string, s: string, post: string)
    requires AllSpace(pre) && AllSpace(post) && s != "" && !IsSpace(s[0]) && !IsSpace(s[|s| - 1])
    ensures Trim(pre + s + post) == s
  {
    assert pre + s + post == pre + (s + post);
    TrimsLeft(pre, s + post);
    TrimsRight(s, post);
  }

  /** The two marker lines, with any white space around them, carriage returns included. */
  lemma MarkerLines(pre: string, post: string)
    requires AllSpace(pre) && AllSpace(post)
    ensures Marks(pre + "-- +migrate Up" + post, UP) && Marks(pre + "-- +migrate Down" + post, DOWN)
    ensures AllSpace(" ") && AllSpace("\t") && AllSpace("\r") && !AllSpace("-")
  {
    TrimIs(pre, "-- +migrate Up", post);
    TrimIs(pre, "-- +migrate Down", post);
  }

  /** A file without an Up marker runs as a whole. */
  lemma UnmarkedRunsWhole(content: string)
    requires NoMark(Lines(content), UP, 0, |Lines(content)|)
    ensures UpSection(content) == if Trim(content) == "" then None else Some(Trim(content))
  {
  }

  /** One without a Down marker after it runs from the Up marker to its end. */
  lemma UpToTheEnd(lines: seq<string>, u: nat)
    requires u < |lines| && Marks(lines[u], UP) && NoMark(lines, UP, 0, u)
    requires NoMark(lines, UP, u + 1, |lines|) && NoMark(lines, DOWN, u + 1, |lines|)
    requires forall line :: line in lines ==> OneLine(line)
    ensures UpSection(Join(lines)) ==
            var text := Trim(Join(lines[u + 1..]));
            if text == "" then None else Some(text)
  {
    LinesJoin(lines);
    SectionToEnd(lines, UP, DOWN, u);
  }

  lemma SectionToEnd(lines: seq<string>, up: string, down: string, u: nat)
    requires u < |lines| && Marks(lines[u], up) && NoMark(lines, up, 0, u)
    requires NoMark(lines, up, u + 1, |lines|) && NoMark(lines, down, u + 1, |lines|)
    ensures Section(lines, up, down) == Some(lines[u + 1..])
  {
    FirstMarkAt(lines, up, 0, u);
    NoFirstMark(lines, down, u + 1);
    KeptAll(lines, up, u + 1, |lines|);
    assert lines[u + 1..|lines|] == lines[u + 1..];
  }

  lemma NoFirstMark(lines: seq<string>, marker: string, i: nat)
    requires i <= |lines| && NoMark(lines, marker, i, |lines|)
    ensures FirstMark(lines, marker, i) == |lines|
  {
  }

  /** Lines without those that are an Up marker. */
  function WithoutUp(lines: seq<string>): seq<string> {
    if lines == [] then []
    else if Trim(lines[0]) == "-- +migrate Up" then WithoutUp(lines[1..])
    else [lines[0]] + WithoutUp(lines[1..])
  }

  lemma {:induction false} WithoutUpSnoc(lines: seq<string>, line: string)
    ensures WithoutUp(lines + [line]) ==
            if Trim(line) == "-- +migrate Up" then WithoutUp(lines) else WithoutUp(lines) + [line]
  {
    if lines == [] {
      assert lines + [line] == [line] && [line][1..] == [];
    } else {
      assert (lines + [line])[1..] == lines[1..] + [line];
      WithoutUpSnoc(lines[1..], line);
    }
  }

  lemma {:induction false} KeptIsWithoutUp(lines: seq<string>, i: nat, k: nat)
    requires i <= k <= |lines|
    ensures Kept(lines, UP, i, k) == WithoutUp(lines[i..k])
    decreases k
  {
    if i < k {
      KeptIsWithoutUp(lines, i, k - 1);
      SliceSnoc(lines, i, k);
      WithoutUpSnoc(lines[i..k - 1], lines[k - 1]);
    }
  }

  /** An Up marker repeated between the first one and the Down marker is left out of the
      text, and the lines on both sides of it run. */
  lemma RepeatedUpLeftOut(lines: seq<string>, u: nat, d: nat)
    requires u < d < |lines| && Marks(lines[u], UP) && Marks(lines[d], DOWN)
    requires NoMark(lines, UP, 0, u) && NoMark(lines, DOWN, u + 1, d)
    requires forall line :: line in lines ==> OneLine(line)
    ensures UpSection(Join(lines)) ==
            var text := Trim(Join(WithoutUp(lines[u + 1..d])));
            if text == "" then None else Some(text)
  {
    LinesJoin(lines);
    FirstMarkAt(lines, UP, 0, u);
    FirstMarkAt(lines, DOWN, u + 1, d);
    KeptIsWithoutUp(lines, u + 1, d);
    assert Section(lines, UP, DOWN) == Some(WithoutUp(lines[u + 1..d]));
  }
}
