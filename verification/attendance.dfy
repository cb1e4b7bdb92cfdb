/** The attendance ledger: the `attendance` table and the punch-in / punch-out
    decision taken for one recognised user. The system clock is replaced by the
    `today` and `timeNow` strings the caller passes in. */
module Attendance {
  import opened Optional
  import opened Sequences

  /** One row of `attendance(user, date, punch_in, punch_out)`; both punch
      columns are nullable TEXT. */
  datatype Row = Row(user: string, date: string, punchIn: Option<string>, punchOut: Option<string>)

  /** The rows of the table in insertion (rowid) order. */
  type Table = seq<Row>

  /** The database file as far as the ledger sees it: the table exists or not. */
  datatype Database = Database(attendance: Option<Table>)

  /** What `mark_attendance` reports back. */
  datatype Action = PunchIn | PunchOut | AlreadyMarked

  /** The string `mark_attendance` returns for each action; different actions
      give different strings, so the string identifies the action. */
  function Text(a: Action): (r: string)
    ensures r == "PUNCH-IN" <==> a == PunchIn
    ensures r == "PUNCH-OUT" <==> a == PunchOut
    ensures r == "ALREADY MARKED" <==> a == AlreadyMarked
  {
    match a
    case PunchIn => "PUNCH-IN"
    case PunchOut => "PUNCH-OUT"
    case AlreadyMarked => "ALREADY MARKED"
  }

  /** The table after a call, together with the reported action. */
  datatype Marked = Marked(table: Table, action: Action)

  /** `WHERE user=? AND date=?` */
  predicate HasKey(r: Row, user: string, date: string)
  {
    r.user == user && r.date == date
  }

  /** `CREATE TABLE IF NOT EXISTS attendance (...)`. */
  function InitDb(db: Database): (r: Database)
    ensures r.attendance.Some?
    ensures db.attendance.Some? ==> r == db
    ensures db.attendance.None? ==> r.attendance == Some([])
  {
    if db.attendance.Some? then db else Database(Some([]))
  }

  /** Running the schema set-up twice is the same as running it once. */
  lemma InitDbIdempotent(db: Database)
    ensures InitDb(InitDb(db)) == InitDb(db)
    ensures db.attendance.Some? ==> InitDb(db).attendance == db.attendance
  {
  }

  /** `SELECT * ... WHERE user=? AND date=?` followed by `fetchone()`: the
      position of the first matching row, if any. */
  function FindRow(t: Table, user: string, date: string): (r: Option<nat>)
    ensures r.Some? ==> r.value < |t| && HasKey(t[r.value], user, date)
    ensures r.Some? ==> forall j :: 0 <= j < r.value ==> !HasKey(t[j], user, date)
    ensures r.None? <==> forall j :: 0 <= j < |t| ==> !HasKey(t[j], user, date)
  {
    FirstIndex(t, (row: Row) => HasKey(row, user, date))
  }

  /** `UPDATE attendance SET punch_out=? WHERE user=? AND date=?`: the
      statement touches every matching row, not only the one fetched. */
  function SetPunchOut(t: Table, user: string, date: string, time: string): (r: Table)
    ensures |r| == |t|
    ensures forall i :: 0 <= i < |t| && !HasKey(t[i], user, date) ==> r[i] == t[i]
    ensures forall i :: 0 <= i < |t| && HasKey(t[i], user, date) ==>
              r[i] == t[i].(punchOut := Some(time))
  {
    seq(|t|, i requires 0 <= i < |t| =>
      if HasKey(t[i], user, date) then t[i].(punchOut := Some(time)) else t[i])
  }

  /** The ledger's view of one (user, date) key. */
  datatype KeyState = NoRecord | PunchedIn | PunchedOut

  /** The state of a key, read off the row a lookup fetches. */
  function StateOf(t: Table, user: string, date: string): KeyState
  {
    match FindRow(t, user, date)
    case None => NoRecord
    case Some(i) => if t[i].punchOut.None? then PunchedIn else PunchedOut
  }

  /** The intended per-key state machine: NoRecord, then PunchedIn, then
      PunchedOut, which is terminal. */
  function Next(s: KeyState): KeyState
  {
    match s
    case NoRecord => PunchedIn
    case PunchedIn => PunchedOut
    case PunchedOut => PunchedOut
  }

  /** The action the state machine reports when it leaves state `s`. */
  function ActionFor(s: KeyState): Action
  {
    match s
    case NoRecord => PunchIn
    case PunchedIn => PunchOut
    case PunchedOut => AlreadyMarked
  }

  /** `mark_attendance(user)` with the clock readings passed in. */
  function MarkAttendance(t: Table, user: string, today: string, timeNow: string): (r: Marked)
    // the reported action and the key's new state follow the state machine
    ensures r.action == ActionFor(StateOf(t, user, today))
    ensures StateOf(r.table, user, today) == Next(StateOf(t, user, today))
    // first call of the day: exactly one new row, punched in now
    ensures StateOf(t, user, today) == NoRecord ==>
              r.table == t + [Row(user, today, Some(timeNow), None)]
    // second call: punch-out set on that key, no row added
    ensures StateOf(t, user, today) == PunchedIn ==>
              |r.table| == |t| &&
              forall i :: 0 <= i < |t| && HasKey(t[i], user, today) ==> r.table[i].punchOut == Some(timeNow)
    // afterwards: nothing changes
    ensures StateOf(t, user, today) == PunchedOut ==> r.table == t
    // existing rows keep their key and their punch-in
    ensures |t| <= |r.table|
    ensures forall i :: 0 <= i < |t| ==>
              r.table[i].user == t[i].user && r.table[i].date == t[i].date &&
              r.table[i].punchIn == t[i].punchIn
    // rows of other keys are untouched
    ensures forall i :: 0 <= i < |t| && !HasKey(t[i], user, today) ==> r.table[i] == t[i]
  {
    match FindRow(t, user, today)
    case None =>
      var t' := t + [Row(user, today, Some(timeNow), None)];
      assert HasKey(t'[|t|], user, today);
      assert forall j :: 0 <= j < |t| ==> t'[j] == t[j];
      assert FindRow(t', user, today) == Some(|t|);
      Marked(t', PunchIn)
    case Some(i) =>
      if t[i].punchOut.None? then
        var t' := SetPunchOut(t, user, today, timeNow);
        FindRowSameKeys(t, t', user, today);
        Marked(t', PunchOut)
      else
        Marked(t, AlreadyMarked)
  }

  /** A lookup only depends on the keys of the rows. */
  lemma FindRowSameKeys(t: Table, t': Table, user: string, date: string)
    requires |t| == |t'|
    requires forall i :: 0 <= i < |t| ==> t[i].user == t'[i].user && t[i].date == t'[i].date
    ensures FindRow(t, user, date) == FindRow(t', user, date)
  {
    FirstIndexAgree(t, (row: Row) => HasKey(row, user, date), t', (row: Row) => HasKey(row, user, date));
  }

  /** A call for one key leaves the state of every other key as it was: a new
      date gets a record of its own, and other users are not affected. */
  lemma MarkLeavesOtherKeys(t: Table, user: string, today: string, timeNow: string, u: string, d: string)
    requires u != user || d != today
    ensures StateOf(MarkAttendance(t, user, today, timeNow).table, u, d) == StateOf(t, u, d)
  {
  }

  /** No two rows share a (user, date) key. */
  ghost predicate UniqueKeys(t: Table)
  {
    forall i, j :: 0 <= i < j < |t| ==> !HasKey(t[j], t[i].user, t[i].date)
  }

  /** Every row carries a punch-in time. */
  ghost predicate PunchInSet(t: Table)
  {
    forall i :: 0 <= i < |t| ==> t[i].punchIn.Some?
  }

  /** The invariant of every table the ledger itself writes. */
  ghost predicate Consistent(t: Table)
  {
    UniqueKeys(t) && PunchInSet(t)
  }

  /** No row has a punch-out without a punch-in. */
  ghost predicate PunchOutAfterPunchIn(t: Table)
  {
    forall i :: 0 <= i < |t| ==> t[i].punchOut.Some? ==> t[i].punchIn.Some?
  }

  /** A call keeps the table consistent. */
  lemma MarkPreservesConsistency(t: Table, user: string, today: string, timeNow: string)
    requires Consistent(t)
    ensures Consistent(MarkAttendance(t, user, today, timeNow).table)
    ensures PunchOutAfterPunchIn(MarkAttendance(t, user, today, timeNow).table)
  {
  }
}
