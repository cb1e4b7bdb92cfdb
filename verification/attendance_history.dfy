/** Successive, strictly sequential calls of the ledger, and what they do to
    each (user, date) key. */
module AttendanceHistory {
  import opened Optional
  import opened Attendance

  /** One call of `mark_attendance` with the clock readings it saw. */
  datatype Call = Call(user: string, today: string, timeNow: string)

  /** The table after a run of calls and the actions they reported, in order. */
  datatype History = History(table: Table, actions: seq<Action>)

  /** The calls applied one after another to `t`. */
  function Replay(t: Table, calls: seq<Call>): (h: History)
    ensures |h.actions| == |calls|
    // rows are never removed, never re-keyed, and their punch-in never changes
    ensures |t| <= |h.table|
    ensures forall i :: 0 <= i < |t| ==>
              h.table[i].user == t[i].user && h.table[i].date == t[i].date &&
              h.table[i].punchIn == t[i].punchIn
    decreases |calls|
  {
    if |calls| == 0 then History(t, [])
    else
      var h := Replay(t, calls[..|calls| - 1]);
      var c := calls[|calls| - 1];
      var m := MarkAttendance(h.table, c.user, c.today, c.timeNow);
      History(m.table, h.actions + [m.action])
  }

  /** How many of `calls` are for the key (user, date). */
  function CountKey(calls: seq<Call>, user: string, date: string): nat
  {
    if |calls| == 0 then 0
    else
      var c := calls[|calls| - 1];
      CountKey(calls[..|calls| - 1], user, date) + (if c.user == user && c.today == date then 1 else 0)
  }

  /** The state machine run `n` steps from `s`. */
  function Advance(s: KeyState, n: nat): KeyState
  {
    if n == 0 then s else Next(Advance(s, n - 1))
  }

  /** The action of the `n`-th call (counting from 0) for a key that had no record. */
  function ActionAfter(n: nat): Action
  {
    if n == 0 then PunchIn else if n == 1 then PunchOut else AlreadyMarked
  }

  /** From no record, one step punches in, a second punches out, and every
      later step stays punched out. */
  lemma AdvanceFromNoRecord(n: nat)
    ensures Advance(NoRecord, n) == (if n == 0 then NoRecord else if n == 1 then PunchedIn else PunchedOut)
    ensures ActionFor(Advance(NoRecord, n)) == ActionAfter(n)
  {
  }

  /** After any run of calls, the state of a key is its starting state moved on
      once per call for that key; calls for other keys do not affect it. */
  lemma {:induction false} ReplayKeyState(t: Table, calls: seq<Call>, user: string, date: string)
    ensures StateOf(Replay(t, calls).table, user, date) ==
            Advance(StateOf(t, user, date), CountKey(calls, user, date))
    decreases |calls|
  {
    if |calls| > 0 {
      var prefix := calls[..|calls| - 1];
      var c := calls[|calls| - 1];
      ReplayKeyState(t, prefix, user, date);
      var h := Replay(t, prefix);
      if c.user != user || c.today != date {
        MarkLeavesOtherKeys(h.table, c.user, c.today, c.timeNow, user, date);
      }
    }
  }

  /** The action of call `k` is what the state machine reports for its key,
      given the calls for that key that came before it. */
  lemma {:induction false} ReplayActions(t: Table, calls: seq<Call>, k: nat)
    requires k < |calls|
    ensures Replay(t, calls).actions[k] ==
            ActionFor(Advance(StateOf(t, calls[k].user, calls[k].today),
                              CountKey(calls[..k], calls[k].user, calls[k].today)))
    decreases |calls|
  {
    var prefix := calls[..|calls| - 1];
    assert prefix + [calls[|calls| - 1]] == calls;
    ReplaySnoc(t, prefix, calls[|calls| - 1]);
    if k == |calls| - 1 {
      ReplayKeyState(t, prefix, calls[k].user, calls[k].today);
    } else {
      ReplayActions(t, prefix, k);
      assert prefix[..k] == calls[..k];
    }
  }

  /** Starting from an empty table, call `k` punches in if it is the first
      call for its (user, date), punches out if it is the second, and reports
      ALREADY MARKED from the third on, whatever calls for other keys are
      interleaved. */
  lemma FromEmptyActions(calls: seq<Call>, k: nat)
    requires k < |calls|
    ensures Replay([], calls).actions[k] ==
            ActionAfter(CountKey(calls[..k], calls[k].user, calls[k].today))
  {
    ReplayActions([], calls, k);
    assert FindRow([], calls[k].user, calls[k].today) == None;
    AdvanceFromNoRecord(CountKey(calls[..k], calls[k].user, calls[k].today));
  }

  /** A run of calls all for one key counts each of them. */
  lemma {:induction false} CountKeyAllSame(calls: seq<Call>, user: string, date: string)
    requires forall k :: 0 <= k < |calls| ==> calls[k].user == user && calls[k].today == date
    ensures CountKey(calls, user, date) == |calls|
    decreases |calls|
  {
    if |calls| > 0 {
      CountKeyAllSame(calls[..|calls| - 1], user, date);
    }
  }

  /** Repeated calls for one user on one day with no record yet: PUNCH-IN,
      then PUNCH-OUT, then ALREADY MARKED for the third and every later call. */
  lemma SameDayActions(t: Table, user: string, today: string, calls: seq<Call>)
    requires StateOf(t, user, today) == NoRecord
    requires forall k :: 0 <= k < |calls| ==> calls[k].user == user && calls[k].today == today
    ensures forall k :: 0 <= k < |calls| ==> Replay(t, calls).actions[k] == ActionAfter(k)
  {
    forall k | 0 <= k < |calls|
      ensures Replay(t, calls).actions[k] == ActionAfter(k)
    {
      ReplayActions(t, calls, k);
      CountKeyAllSame(calls[..k], user, today);
      AdvanceFromNoRecord(k);
    }
  }

  /** Three calls on one day leave a single record holding the first call's
      time as punch-in and the second call's time as punch-out. */
  lemma ThreeCallsSameDay(t: Table, user: string, today: string, t1: string, t2: string, t3: string)
    requires StateOf(t, user, today) == NoRecord
    ensures var h := Replay(t, [Call(user, today, t1), Call(user, today, t2), Call(user, today, t3)]);
            h.actions == [PunchIn, PunchOut, AlreadyMarked] &&
            h.table == t + [Row(user, today, Some(t1), Some(t2))]
  {
    var c1, c2, c3 := Call(user, today, t1), Call(user, today, t2), Call(user, today, t3);
    var r1 := MarkAttendance(t, user, today, t1);
    var r2 := MarkAttendance(r1.table, user, today, t2);
    var r3 := MarkAttendance(r2.table, user, today, t3);
    ThreeCallsSteps(t, user, today, t1, t2, t3);
    ReplaySnoc(t, [], c1);
    assert [] + [c1] == [c1];
    var h1 := Replay(t, [c1]);
    assert h1 == History(r1.table, [r1.action]);
    ReplaySnoc(t, [c1], c2);
    assert [c1] + [c2] == [c1, c2];
    var h2 := Replay(t, [c1, c2]);
    assert h2 == History(r2.table, [r1.action, r2.action]);
    ReplaySnoc(t, [c1, c2], c3);
    assert [c1, c2] + [c3] == [c1, c2, c3];
  }

  /** The three calls one by one: each reports the next action, and the third
      leaves the table the second produced. */
  lemma ThreeCallsSteps(t: Table, user: string, today: string, t1: string, t2: string, t3: string)
    requires StateOf(t, user, today) == NoRecord
    ensures var r1 := MarkAttendance(t, user, today, t1);
            var r2 := MarkAttendance(r1.table, user, today, t2);
            var r3 := MarkAttendance(r2.table, user, today, t3);
            r1.action == PunchIn && r2.action == PunchOut && r3.action == AlreadyMarked &&
            r3.table == r2.table && r2.table == t + [Row(user, today, Some(t1), Some(t2))]
  {
    var r1 := MarkAttendance(t, user, today, t1);
    assert StateOf(r1.table, user, today) == PunchedIn;
    var r2 := MarkAttendance(r1.table, user, today, t2);
    assert StateOf(r2.table, user, today) == PunchedOut;
    PunchInThenOut(t, user, today, t1, t2);
  }

  /** One more call extends the history by that call's effect. */
  lemma ReplaySnoc(t: Table, calls: seq<Call>, c: Call)
    ensures var h := Replay(t, calls);
            var m := MarkAttendance(h.table, c.user, c.today, c.timeNow);
            Replay(t, calls + [c]) == History(m.table, h.actions + [m.action])
  {
    assert (calls + [c])[..|calls|] == calls;
  }

  /** The table after a punch-in and a punch-out on a key with no record. */
  lemma PunchInThenOut(t: Table, user: string, today: string, t1: string, t2: string)
    requires StateOf(t, user, today) == NoRecord
    ensures var t1' := MarkAttendance(t, user, today, t1).table;
            MarkAttendance(t1', user, today, t2).table == t + [Row(user, today, Some(t1), Some(t2))]
  {
  }

  /** Every table the ledger builds from an empty one keeps at most one row
      per (user, date), and no row has a punch-out without a punch-in. */
  lemma {:induction false} ReplayConsistent(t: Table, calls: seq<Call>)
    requires Consistent(t)
    ensures Consistent(Replay(t, calls).table)
    ensures PunchOutAfterPunchIn(Replay(t, calls).table)
    decreases |calls|
  {
    if |calls| > 0 {
      var c := calls[|calls| - 1];
      ReplayConsistent(t, calls[..|calls| - 1]);
      MarkPreservesConsistency(Replay(t, calls[..|calls| - 1]).table, c.user, c.today, c.timeNow);
    }
  }

  /** The invariant from the empty table the application starts with. */
  lemma FromEmptyConsistent(calls: seq<Call>)
    ensures Consistent(Replay([], calls).table)
    ensures PunchOutAfterPunchIn(Replay([], calls).table)
  {
    ReplayConsistent([], calls);
  }
}
