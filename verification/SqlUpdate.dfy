/** The two UPDATE builders. A statement is kept as its SET clauses, the number of the
    placeholder in WHERE id = $n, and the argument list; PostgreSQL's part is Execute. */
module SqlUpdate {
  import opened Common

  datatype Column =
    | DisplayName | Email | Phone | Wechat | Telegram | MaxPeers | UserStatus | UpdatedAt
    | MaxUses | ExpiresAt

  datatype Value = Null | Text(text: string) | Number(number: int) | Time(at: int) | RowId(id: int)

  type Row = map<Column, Value>
  type Rows = map<int, Row>

  datatype Clause =
    | SetNull(column: Column)
    | SetParam(column: Column, n: nat)
    | SetNow(column: Column)

  datatype Statement = Statement(sets: seq<Clause>, idParam: nat, args: seq<Value>)

  // ------------------------------------------------------------ the database's side

  predicate InRange(sets: seq<Clause>, args: seq<Value>) {
    forall c :: c in sets && c.SetParam? ==> 1 <= c.n <= |args|
  }

  ghost predicate NoColumnTwice(sets: seq<Clause>) {
    forall i, j :: 0 <= i < j < |sets| ==> sets[i].column != sets[j].column
  }

  function Assigns(c: Clause, args: seq<Value>, now: int): Value
    requires InRange([c], args)
  {
    assert c in [c];
    match c
    case SetNull(_) => Null
    case SetParam(_, n) => args[n - 1]
    case SetNow(_) => Time(now)
  }

  /** The row after its SET clauses. */
  function SetAll(row: Row, sets: seq<Clause>, args: seq<Value>, now: int): Row
    requires InRange(sets, args)
  {
    if sets == [] then row
    else
      var c := sets[|sets| - 1];
      SetAll(row, sets[..|sets| - 1], args, now)[c.column := Assigns(c, args, now)]
  }

  /** None: the server refuses the statement, for a placeholder without an argument, an
      argument no placeholder uses, or a column set twice. */
  ghost function Execute(rows: Rows, s: Statement, now: int): Option<Rows> {
    if InRange(s.sets, s.args) && NoColumnTwice(s.sets) && 1 <= s.idParam <= |s.args| && AllUsed(s) then
      match s.args[s.idParam - 1]
      case RowId(id) => Some(if id in rows then rows[id := SetAll(rows[id], s.sets, s.args, now)] else rows)
      case _ => None
    else None
  }

  ghost predicate AllUsed(s: Statement) {
    forall n: nat :: 1 <= n <= |s.args| ==> n in Params(s.sets) + [s.idParam]
  }

  /** The placeholder numbers in the order they are written. */
  function Params(sets: seq<Clause>): seq<nat> {
    if sets == [] then []
    else
      var c := sets[|sets| - 1];
      if c.SetParam? then Params(sets[..|sets| - 1]) + [c.n] else Params(sets[..|sets| - 1])
  }

  // ----------------------------------------------------------------- the builder

  datatype Builder = Builder(sets: seq<Clause>, args: seq<Value>, argIdx: nat)

  const EMPTY := Builder([], [], 1)

  /** An optional update: leave alone, set to NULL, or set to a value. */
  datatype Change = Keep | Clear | Assign(value: Value)

  datatype Update = Update(column: Column, change: Change)

  /** appendOptionalStringUpdate, and the same three lines wherever they are inlined. */
  function AppendOptional(b: Builder, u: Update): Builder {
    match u.change
    case Keep => b
    case Clear => b.(sets := b.sets + [SetNull(u.column)])
    case Assign(v) => Builder(b.sets + [SetParam(u.column, b.argIdx)], b.args + [v], b.argIdx + 1)
  }

  function Compile(updates: seq<Update>): Builder {
    if updates == [] then EMPTY
    else AppendOptional(Compile(updates[..|updates| - 1]), updates[|updates| - 1])
  }

  function Apply(row: Row, u: Update): Row {
    match u.change
    case Keep => row
    case Clear => row[u.column := Null]
    case Assign(v) => row[u.column := v]
  }

  /** The updates applied one after the other, without any statement. */
  function ApplyAll(row: Row, updates: seq<Update>): Row {
    if updates == [] then row
    else Apply(ApplyAll(row, updates[..|updates| - 1]), updates[|updates| - 1])
  }

  ghost predicate DistinctColumns(updates: seq<Update>) {
    forall i, j :: 0 <= i < j < |updates| ==> updates[i].column != updates[j].column
  }

  function UpTo(n: nat): (s: seq<nat>)
    ensures |s| == n && forall i :: 0 <= i < n ==> s[i] == i + 1
  {
    seq(n, i => i + 1)
  }

  ghost predicate Numbered(b: Builder) {
    b.argIdx == |b.args| + 1 && Params(b.sets) == UpTo(|b.args|) && InRange(b.sets, b.args)
  }

  lemma {:induction false} MoreArgs(row: Row, sets: seq<Clause>, args: seq<Value>, v: Value, now: int)
    requires InRange(sets, args)
    ensures InRange(sets, args + [v]) && SetAll(row, sets, args + [v], now) == SetAll(row, sets, args, now)
  {
    if sets != [] {
      MoreArgs(row, sets[..|sets| - 1], args, v, now);
    }
  }

  lemma SetOneMore(row: Row, sets: seq<Clause>, c: Clause, args: seq<Value>, now: int)
    requires InRange(sets, args) && InRange([c], args)
    ensures InRange(sets + [c], args) && Params(sets + [c]) == Params(sets) + if c.SetParam? then [c.n] else []
    ensures SetAll(row, sets + [c], args, now) == SetAll(row, sets, args, now)[c.column := Assigns(c, args, now)]
  {
    assert c in [c];
    assert (sets + [c])[..|sets|] == sets;
  }

  lemma AppendMeans(b: Builder, u: Update, row: Row, now: int)
    requires Numbered(b)
    ensures Numbered(AppendOptional(b, u))
    ensures var b' := AppendOptional(b, u);
            SetAll(row, b'.sets, b'.args, now) == Apply(SetAll(row, b.sets, b.args, now), u)
  {
    match u.change
    case Keep =>
    case Clear => SetOneMore(row, b.sets, SetNull(u.column), b.args, now);
    case Assign(v) =>
      MoreArgs(row, b.sets, b.args, v, now);
      SetOneMore(row, b.sets, SetParam(u.column, b.argIdx), b.args + [v], now);
      assert UpTo(|b.args| + 1) == UpTo(|b.args|) + [b.argIdx];
  }

  /** Placeholders come out exactly $1..$n in order, and the clauses with the collected
      arguments do what the updates do. */
  lemma {:induction false} CompileMeans(updates: seq<Update>, row: Row, now: int)
    ensures var b := Compile(updates);
            Numbered(b) && SetAll(row, b.sets, b.args, now) == ApplyAll(row, updates)
  {
    if updates != [] {
      CompileMeans(updates[..|updates| - 1], row, now);
      AppendMeans(Compile(updates[..|updates| - 1]), updates[|updates| - 1], row, now);
    }
  }

  /** Only updated columns are written, each at most once when the updates are distinct. */
  lemma {:induction false} CompiledColumns(updates: seq<Update>)
    requires DistinctColumns(updates)
    ensures NoColumnTwice(Compile(updates).sets)
    ensures forall c :: c in Compile(updates).sets ==>
              exists u :: u in updates && u.column == c.column && !u.change.Keep?
  {
    if updates != [] {
      var rest, last := updates[..|updates| - 1], updates[|updates| - 1];
      CompiledColumns(rest);
      assert updates == rest + [last];
      var earlier := Compile(rest).sets;
      forall i | 0 <= i < |earlier|
        ensures earlier[i].column != last.column
      {
        assert earlier[i] in earlier;
        var u :| u in rest && u.column == earlier[i].column;
      }
      forall c | c in earlier
        ensures exists u :: u in updates && u.column == c.column && !u.change.Keep?
      {
        var u :| u in rest && u.column == c.column && !u.change.Keep?;
        assert u in updates;
      }
    }
  }

  /** For distinct columns each update decides its own column, and a column no update
      touches is left alone. */
  lemma {:induction false} ApplyAllAt(row: Row, updates: seq<Update>, c: Column)
    requires DistinctColumns(updates) && c in row
    ensures c in ApplyAll(row, updates)
    ensures forall i :: 0 <= i < |updates| && updates[i].column == c ==>
              ApplyAll(row, updates)[c] ==
              match updates[i].change { case Keep => row[c] case Clear => Null case Assign(v) => v }
    ensures (forall i :: 0 <= i < |updates| ==> updates[i].column != c) ==> ApplyAll(row, updates)[c] == row[c]
  {
    if updates != [] {
      ApplyAllAt(row, updates[..|updates| - 1], c);
    }
  }

  // --------------------------------------------------------- the two UPDATEs

  /** Set false: keep; Set true with no value: NULL. */
  datatype OptionalString = OptionalString(isSet: bool, value: Option<string>)

  datatype UserFields = UserFields(
    displayName: OptionalString,
    email: OptionalString,
    phone: OptionalString,
    wechat: OptionalString,
    telegram: OptionalString,
    maxPeers: Option<int>,
    status: Option<string>)

  datatype InviteFields = InviteFields(maxUses: Option<int>, clearExpiresAt: bool, expiresAt: Option<int>)

  function StringChange(f: OptionalString): Change {
    if !f.isSet then Keep else match f.value { case None => Clear case Some(s) => Assign(Text(s)) }
  }

  function UserUpdates(f: UserFields): seq<Update> {
    [Update(DisplayName, StringChange(f.displayName)), Update(Email, StringChange(f.email)),
     Update(Phone, StringChange(f.phone)), Update(Wechat, StringChange(f.wechat)),
     Update(Telegram, StringChange(f.telegram)),
     Update(MaxPeers, if f.maxPeers.Some? then Assign(Number(f.maxPeers.value)) else Keep),
     Update(UserStatus, if f.status.Some? then Assign(Text(f.status.value)) else Keep)]
  }

  function InviteUpdates(f: InviteFields): seq<Update> {
    [Update(MaxUses, if f.maxUses.Some? then Assign(Number(f.maxUses.value)) else Keep),
     Update(ExpiresAt, if f.clearExpiresAt then Clear
                       else if f.expiresAt.Some? then Assign(Time(f.expiresAt.value)) else Keep)]
  }

  /** The columns of a users row that Update may write. */
  datatype UserRow = UserRow(
    displayName: Option<string>,
    email: Option<string>,
    phone: Option<string>,
    wechat: Option<string>,
    telegram: Option<string>,
    maxPeers: int,
    status: string,
    updatedAt: int)

  datatype InviteRow = InviteRow(maxUses: int, expiresAt: Option<int>)

  function TextOrNull(s: Option<string>): Value {
    if s.Some? then Text(s.value) else Null
  }

  function UserColumns(r: UserRow): Row {
    map[DisplayName := TextOrNull(r.displayName), Email := TextOrNull(r.email), Phone := TextOrNull(r.phone),
        Wechat := TextOrNull(r.wechat), Telegram := TextOrNull(r.telegram), MaxPeers := Number(r.maxPeers),
        UserStatus := Text(r.status), UpdatedAt := Time(r.updatedAt)]
  }

  function InviteColumns(r: InviteRow): Row {
    map[MaxUses := Number(r.maxUses), ExpiresAt := if r.expiresAt.Some? then Time(r.expiresAt.value) else Null]
  }

  function Choose(f: OptionalString, was: Option<string>): Option<string> {
    if f.isSet then f.value else was
  }

  /** What the caller of the user update asks for. */
  function UserAfter(r: UserRow, f: UserFields, now: int): UserRow {
    UserRow(Choose(f.displayName, r.displayName), Choose(f.email, r.email), Choose(f.phone, r.phone),
            Choose(f.wechat, r.wechat), Choose(f.telegram, r.telegram),
            if f.maxPeers.Some? then f.maxPeers.value else r.maxPeers,
            if f.status.Some? then f.status.value else r.status, now)
  }

  /** What the caller of the invite update asks for; clearing the expiry wins. */
  function InviteAfter(r: InviteRow, f: InviteFields): InviteRow {
    InviteRow(if f.maxUses.Some? then f.maxUses.value else r.maxUses,
              if f.clearExpiresAt then None else if f.expiresAt.Some? then f.expiresAt else r.expiresAt)
  }

  /** The statement for some updates, with updated_at = NOW() or not; the row id is its
      last argument. */
  function Finished(updates: seq<Update>, stamped: bool, id: int): Statement {
    var b := Compile(updates);
    Statement(if stamped then b.sets + [SetNow(UpdatedAt)] else b.sets, b.argIdx, b.args + [RowId(id)])
  }

  function After(row: Row, updates: seq<Update>, stamped: bool, now: int): Row {
    if stamped then ApplyAll(row, updates)[UpdatedAt := Time(now)] else ApplyAll(row, updates)
  }

  function UserStatement(f: UserFields, id: int): Option<Statement> {
    if Compile(UserUpdates(f)).sets == [] then None else Some(Finished(UserUpdates(f), true, id))
  }

  function InviteStatement(f: InviteFields, id: int): Option<Statement> {
    if Compile(InviteUpdates(f)).sets == [] then None else Some(Finished(InviteUpdates(f), false, id))
  }

  lemma CompileNext(done: seq<Update>, u: Update)
    ensures Compile(done + [u]) == AppendOptional(Compile(done), u)
  {
    assert (done + [u])[..|done|] == done;
  }

  method AppendString(b: Builder, column: Column, field: OptionalString, ghost done: seq<Update>)
    returns (b': Builder, ghost done': seq<Update>)
    requires b == Compile(done)
    ensures b' == AppendOptional(b, Update(column, StringChange(field)))
    ensures b' == Compile(done') && done' == done + [Update(column, StringChange(field))]
  {
    CompileNext(done, Update(column, StringChange(field)));
    done' := done + [Update(column, StringChange(field))];
    if !field.isSet {
      return b, done';
    }
    if field.value.None? {
      return b.(sets := b.sets + [SetNull(column)]), done';
    }
    b' := Builder(b.sets + [SetParam(column, b.argIdx)], b.args + [Text(field.value.value)], b.argIdx + 1);
  }

  /** No statement at all when nothing is set. */
  method BuildUserUpdate(id: int, f: UserFields) returns (s: Option<Statement>)
    ensures s == UserStatement(f, id)
  {
    ghost var us := UserUpdates(f);
    var b := EMPTY;
    ghost var done: seq<Update> := [];
    b, done := AppendString(b, DisplayName, f.displayName, done);
    b, done := AppendString(b, Email, f.email, done);
    b, done := AppendString(b, Phone, f.phone, done);
    b, done := AppendString(b, Wechat, f.wechat, done);
    b, done := AppendString(b, Telegram, f.telegram, done);
    CompileNext(done, us[5]);
    if f.maxPeers.Some? {
      b := Builder(b.sets + [SetParam(MaxPeers, b.argIdx)], b.args + [Number(f.maxPeers.value)], b.argIdx + 1);
    }
    CompileNext(done + [us[5]], us[6]);
    if f.status.Some? {
      b := Builder(b.sets + [SetParam(UserStatus, b.argIdx)], b.args + [Text(f.status.value)], b.argIdx + 1);
    }
    assert done + [us[5]] + [us[6]] == us;
    if |b.sets| == 0 {
      return None;
    }
    s := Some(Statement(b.sets + [SetNow(UpdatedAt)], b.argIdx, b.args + [RowId(id)]));
  }

  method BuildInviteUpdate(id: int, f: InviteFields) returns (s: Option<Statement>)
    ensures s == InviteStatement(f, id)
  {
    ghost var us := InviteUpdates(f);
    var b := EMPTY;
    CompileNext([], us[0]);
    if f.maxUses.Some? {
      b := Builder(b.sets + [SetParam(MaxUses, b.argIdx)], b.args + [Number(f.maxUses.value)], b.argIdx + 1);
    }
    CompileNext([us[0]], us[1]);
    assert [us[0]] + [us[1]] == us;
    if f.clearExpiresAt {
      b := b.(sets := b.sets + [SetNull(ExpiresAt)]);
    } else if f.expiresAt.Some? {
      b := Builder(b.sets + [SetParam(ExpiresAt, b.argIdx)], b.args + [Time(f.expiresAt.value)], b.argIdx + 1);
    }
    if |b.sets| == 0 {
      return None;
    }
    s := Some(Statement(b.sets, b.argIdx, b.args + [RowId(id)]));
  }

  // ------------------------------------------------------------------ meaning

  ghost predicate WritesNoStamp(updates: seq<Update>) {
    DistinctColumns(updates) && forall u :: u in updates ==> u.column != UpdatedAt
  }

  lemma FinishedMeans(updates: seq<Update>, stamped: bool, id: int, row: Row, now: int)
    ensures var s := Finished(updates, stamped, id);
            && InRange(s.sets, s.args) && Params(s.sets) == UpTo(|s.args| - 1)
            && SetAll(row, s.sets, s.args, now) == After(row, updates, stamped, now)
  {
    var b := Compile(updates);
    CompileMeans(updates, row, now);
    MoreArgs(row, b.sets, b.args, RowId(id), now);
    SetOneMore(row, b.sets, SetNow(UpdatedAt), b.args + [RowId(id)], now);
  }

  lemma FinishedColumns(updates: seq<Update>, stamped: bool, id: int)
    requires WritesNoStamp(updates)
    ensures NoColumnTwice(Finished(updates, stamped, id).sets)
  {
    CompiledColumns(updates);
    var sets := Compile(updates).sets;
    forall i | 0 <= i < |sets|
      ensures sets[i].column != UpdatedAt
    {
      assert sets[i] in sets;
    }
  }

  /** The placeholders are exactly $1..$n with the row id last. */
  lemma PlaceholdersInOrder(updates: seq<Update>, stamped: bool, id: int)
    ensures var s := Finished(updates, stamped, id);
            && s.idParam == |s.args| >= 1 && s.args[|s.args| - 1] == RowId(id)
            && Params(s.sets) + [s.idParam] == UpTo(|s.args|)
            && AllUsed(s)
  {
    FinishedMeans(updates, stamped, id, map[], 0);
    CompileMeans(updates, map[], 0);
    var s := Finished(updates, stamped, id);
    var all := Params(s.sets) + [s.idParam];
    assert all == UpTo(|s.args|);
    forall n: nat | 1 <= n <= |s.args|
      ensures n in all
    {
      assert all[n - 1] == n;
    }
  }

  /** The server accepts the statement, and it changes that one row as the updates ask. */
  lemma ExecuteMeans(updates: seq<Update>, stamped: bool, id: int, rows: Rows, now: int)
    requires WritesNoStamp(updates)
    ensures Execute(rows, Finished(updates, stamped, id), now) ==
            Some(if id in rows then rows[id := After(rows[id], updates, stamped, now)] else rows)
  {
    FinishedMeans(updates, stamped, id, if id in rows then rows[id] else map[], now);
    FinishedColumns(updates, stamped, id);
    PlaceholdersInOrder(updates, stamped, id);
  }

  lemma EmptyIffAllKeep(updates: seq<Update>)
    ensures Compile(updates).sets == [] <==> forall u :: u in updates ==> u.change.Keep?
  {
    if updates != [] {
      var rest, last := updates[..|updates| - 1], updates[|updates| - 1];
      EmptyIffAllKeep(rest);
      assert updates == rest + [last];
    }
  }

  lemma {:induction false} ApplyAllKeys(row: Row, updates: seq<Update>)
    requires forall i :: 0 <= i < |updates| ==> updates[i].column in row
    ensures ApplyAll(row, updates).Keys == row.Keys
  {
    if updates != [] {
      ApplyAllKeys(row, updates[..|updates| - 1]);
    }
  }

  lemma SameRow(a: Row, b: Row)
    requires a.Keys == b.Keys && forall c :: c in a ==> a[c] == b[c]
    ensures a == b
  {
  }

  lemma UserColumnMeans(r: UserRow, f: UserFields, now: int, c: Column)
    requires c in UserColumns(r)
    ensures var after := After(UserColumns(r), UserUpdates(f), true, now);
            c in after && after[c] == UserColumns(UserAfter(r, f, now))[c]
  {
    var us := UserUpdates(f);
    ApplyAllAt(UserColumns(r), us, c);
    match c
    case DisplayName => assert us[0].column == c;
    case Email => assert us[1].column == c;
    case Phone => assert us[2].column == c;
    case Wechat => assert us[3].column == c;
    case Telegram => assert us[4].column == c;
    case MaxPeers => assert us[5].column == c;
    case UserStatus => assert us[6].column == c;
    case UpdatedAt =>
  }

  lemma UserAfterMeans(r: UserRow, f: UserFields, now: int)
    ensures After(UserColumns(r), UserUpdates(f), true, now) == UserColumns(UserAfter(r, f, now))
  {
    var after, want := After(UserColumns(r), UserUpdates(f), true, now), UserColumns(UserAfter(r, f, now));
    ApplyAllKeys(UserColumns(r), UserUpdates(f));
    forall c | c in after
      ensures after[c] == want[c]
    {
      UserColumnMeans(r, f, now, c);
    }
    SameRow(after, want);
  }

  lemma NothingAsked(r: UserRow, f: UserFields)
    requires Compile(UserUpdates(f)).sets == []
    ensures UserAfter(r, f, r.updatedAt) == r
  {
    var us := UserUpdates(f);
    EmptyIffAllKeep(us);
    assert forall i :: 0 <= i < |us| ==> us[i] in us;
    assert us[0].change.Keep? && us[1].change.Keep? && us[2].change.Keep? && us[3].change.Keep?;
    assert us[4].change.Keep? && us[5].change.Keep? && us[6].change.Keep?;
  }

  /** The account update: a statement only if some field is set, and then the one row
      becomes what the caller asked for, stamped with the time. */
  lemma UserUpdateMeans(id: int, f: UserFields, rows: Rows, r: UserRow, now: int)
    requires id in rows && rows[id] == UserColumns(r)
    ensures var s := UserStatement(f, id);
            if s.None? then UserAfter(r, f, r.updatedAt) == r
            else Execute(rows, s.value, now) == Some(rows[id := UserColumns(UserAfter(r, f, now))])
  {
    if Compile(UserUpdates(f)).sets == [] {
      NothingAsked(r, f);
    } else {
      UserUpdatesDistinct(f);
      ExecuteMeans(UserUpdates(f), true, id, rows, now);
      UserAfterMeans(r, f, now);
    }
  }

  lemma UserUpdatesDistinct(f: UserFields)
    ensures WritesNoStamp(UserUpdates(f))
  {
  }

  lemma InviteAfterMeans(r: InviteRow, f: InviteFields)
    ensures ApplyAll(InviteColumns(r), InviteUpdates(f)) == InviteColumns(InviteAfter(r, f))
    ensures WritesNoStamp(InviteUpdates(f))
  {
    var us := InviteUpdates(f);
    var after, want := ApplyAll(InviteColumns(r), us), InviteColumns(InviteAfter(r, f));
    assert us[0].column == MaxUses && us[1].column == ExpiresAt;
    ApplyAllAt(InviteColumns(r), us, MaxUses);
    ApplyAllAt(InviteColumns(r), us, ExpiresAt);
    ApplyAllKeys(InviteColumns(r), us);
    SameRow(after, want);
  }

  lemma NothingAskedOfInvite(r: InviteRow, f: InviteFields)
    requires Compile(InviteUpdates(f)).sets == []
    ensures InviteAfter(r, f) == r
  {
    var us := InviteUpdates(f);
    EmptyIffAllKeep(us);
    assert us[0] in us && us[1] in us;
  }

  /** The invite update: likewise, with no time stamp, and clearing the expiry wins. */
  lemma InviteUpdateMeans(id: int, f: InviteFields, rows: Rows, r: InviteRow, now: int)
    requires id in rows && rows[id] == InviteColumns(r)
    ensures var s := InviteStatement(f, id);
            if s.None? then InviteAfter(r, f) == r
            else Execute(rows, s.value, now) == Some(rows[id := InviteColumns(InviteAfter(r, f))])
  {
    if Compile(InviteUpdates(f)).sets == [] {
      NothingAskedOfInvite(r, f);
    } else {
      InviteAfterMeans(r, f);
      ExecuteMeans(InviteUpdates(f), false, id, rows, now);
    }
  }

  // ------------------------------------------------------------ column by column

  /** A column that was asked for has the value asked for, NULL if none; any other keeps
      what it had. */
  predicate ColumnIs(was: Row, row: Row, c: Column, asked: bool, value: Value) {
    c in was && c in row && row[c] == (if asked then value else was[c])
  }

  function StringAsked(f: OptionalString): Value {
    match f.value case Some(s) => Text(s) case None => Null
  }

  function NumberAsked(n: Option<int>): Value {
    match n case Some(k) => Number(k) case None => Null
  }

  predicate ContactAsAsked(was: Row, row: Row, f: UserFields) {
    && ColumnIs(was, row, Phone, f.phone.isSet, StringAsked(f.phone))
    && ColumnIs(was, row, Wechat, f.wechat.isSet, StringAsked(f.wechat))
    && ColumnIs(was, row, Telegram, f.telegram.isSet, StringAsked(f.telegram))
  }

  predicate NameAsAsked(was: Row, row: Row, f: UserFields) {
    && ColumnIs(was, row, DisplayName, f.displayName.isSet, StringAsked(f.displayName))
    && ColumnIs(was, row, Email, f.email.isSet, StringAsked(f.email))
  }

  predicate RestAsAsked(was: Row, row: Row, f: UserFields, now: int) {
    && ColumnIs(was, row, MaxPeers, f.maxPeers.Some?, NumberAsked(f.maxPeers))
    && ColumnIs(was, row, UserStatus, f.status.Some?, TextOrNull(f.status))
    && ColumnIs(was, row, UpdatedAt, true, Time(now))
  }

  /** Every column of an account as asked for, the time stamp renewed, and no other. */
  predicate AccountAsAsked(was: Row, row: Row, f: UserFields, now: int) {
    row.Keys == was.Keys && NameAsAsked(was, row, f) && ContactAsAsked(was, row, f) && RestAsAsked(was, row, f, now)
  }

  lemma NameAfter(r: UserRow, f: UserFields, now: int)
    ensures NameAsAsked(UserColumns(r), UserColumns(UserAfter(r, f, now)), f)
  {
  }

  lemma ContactAfter(r: UserRow, f: UserFields, now: int)
    ensures ContactAsAsked(UserColumns(r), UserColumns(UserAfter(r, f, now)), f)
  {
  }

  lemma RestAfter(r: UserRow, f: UserFields, now: int)
    ensures RestAsAsked(UserColumns(r), UserColumns(UserAfter(r, f, now)), f, now)
    ensures UserColumns(UserAfter(r, f, now)).Keys == UserColumns(r).Keys
  {
  }

  lemma AccountAfter(r: UserRow, f: UserFields, now: int)
    ensures AccountAsAsked(UserColumns(r), UserColumns(UserAfter(r, f, now)), f, now)
  {
    NameAfter(r, f, now);
    ContactAfter(r, f, now);
    RestAfter(r, f, now);
  }

  /** The account update, column by column: no statement exactly if no field is set; else
      one row changes, and only where a field is set, but for the time stamp. */
  lemma UserUpdateColumns(id: int, f: UserFields, rows: Rows, r: UserRow, now: int)
    requires id in rows && rows[id] == UserColumns(r)
    ensures var s := UserStatement(f, id);
            && (s.None? <==> !f.displayName.isSet && !f.email.isSet && !f.phone.isSet && !f.wechat.isSet
                             && !f.telegram.isSet && f.maxPeers.None? && f.status.None?)
            && (s.Some? ==> exists row ::
                  Execute(rows, s.value, now) == Some(rows[id := row]) && AccountAsAsked(rows[id], row, f, now))
  {
    UserUpdateMeans(id, f, rows, r, now);
    SomethingAsked(f);
    AccountAfter(r, f, now);
    if UserStatement(f, id).Some? {
      var row := UserColumns(UserAfter(r, f, now));
      assert Execute(rows, UserStatement(f, id).value, now) == Some(rows[id := row])
             && AccountAsAsked(rows[id], row, f, now);
    }
  }

  lemma SomethingAsked(f: UserFields)
    ensures Compile(UserUpdates(f)).sets == [] <==>
            !f.displayName.isSet && !f.email.isSet && !f.phone.isSet && !f.wechat.isSet
            && !f.telegram.isSet && f.maxPeers.None? && f.status.None?
  {
    var us := UserUpdates(f);
    EmptyIffAllKeep(us);
    assert forall i :: 0 <= i < |us| ==> us[i] in us;
    assert us[0] in us && us[1] in us && us[2] in us && us[3] in us && us[4] in us && us[5] in us && us[6] in us;
  }

  /** The invite update, column by column; clearing the expiry wins over setting it. */
  lemma InviteUpdateColumns(id: int, f: InviteFields, rows: Rows, r: InviteRow, now: int)
    requires id in rows && rows[id] == InviteColumns(r)
    ensures var s := InviteStatement(f, id);
            && (s.None? <==> f.maxUses.None? && !f.clearExpiresAt && f.expiresAt.None?)
            && (s.Some? ==>
                  var done := Execute(rows, s.value, now);
                  && done.Some? && done.value.Keys == rows.Keys
                  && (forall j :: j in rows && j != id ==> done.value[j] == rows[j])
                  && var row := done.value[id];
                     && row.Keys == rows[id].Keys
                     && ColumnIs(rows[id], row, MaxUses, f.maxUses.Some?, NumberAsked(f.maxUses))
                     && ColumnIs(rows[id], row, ExpiresAt, f.clearExpiresAt || f.expiresAt.Some?,
                                 if f.clearExpiresAt || f.expiresAt.None? then Null else Time(f.expiresAt.value)))
  {
    InviteUpdateMeans(id, f, rows, r, now);
    var us := InviteUpdates(f);
    EmptyIffAllKeep(us);
    assert us[0] in us && us[1] in us;
  }
}
