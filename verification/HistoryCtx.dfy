/** struct history_ctx and the operations of the history library, proved against the steps of
    HistoryState. `break Run` stands for the source's jump to its error label. */
module HistoryContext {
  import opened Wrappers
  import opened Sequences
  import opened SortedIds
  import opened HistoryTables
  import opened HistoryState
  import opened HistoryFlags
  import opened HistoryDatabase

  datatype HistoryDelta = HistoryDelta(added: seq<int>, removed: seq<int>)

  /** The ids `have` after removing and adding what the delta says. */
  ghost function ApplyDelta(have: set<int>, d: HistoryDelta): set<int> {
    (have - ToSet(d.removed)) + ToSet(d.added)
  }

  /** `d` is the least change that turns the installed set `have` into `want`, as two sorted lists. */
  ghost predicate Turns(d: HistoryDelta, have: set<int>, want: set<int>) {
    && StrictlySorted(d.added) && StrictlySorted(d.removed)
    && ToSet(d.removed) == have - want && ToSet(d.added) == want - have
  }

  /** get_ids_from_map: counts the marks, then lists their ids in ascending order. */
  method GetIdsFromMap(marks: array<bool>) returns (ids: array<int>)
    ensures fresh(ids)
    ensures StrictlySorted(ids[..]) && ToSet(ids[..]) == MapIds(marks[..])
  {
    var id, count := 1, 0;
    while id <= marks.Length
      invariant 1 <= id <= marks.Length + 1
      invariant count == MarksBelow(marks[..], id)
    {
      if marks[id - 1] { count := count + 1; }
      id := id + 1;
    }
    ids := new int[count];
    var j := 0;
    id := 1;
    NoMarks(marks[..]);
    while id <= marks.Length
      invariant 1 <= id <= marks.Length + 1
      invariant j == MarksBelow(marks[..], id) <= count == ids.Length == MarksBelow(marks[..], marks.Length + 1)
      invariant ListsMarks(ids[..j], marks[..], id)
    {
      MarksGrow(marks[..], id + 1, marks.Length + 1);
      OneMoreMark(ids[..j], marks[..], id);
      if marks[id - 1] {
        ids[j] := id;
        assert ids[..j + 1] == ids[..j] + [id];
        j := j + 1;
      }
      id := id + 1;
    }
    assert ids[..j] == ids[..];
    AllMarks(ids[..], marks[..]);
  }

  /** `ids` are the marked ids below `id`, in ascending order. */
  ghost predicate ListsMarks(ids: seq<int>, marks: seq<bool>, id: int) {
    StrictlySorted(ids) && forall x :: x in ids <==> x < id && IsSet(marks, x)
  }

  lemma AllMarks(ids: seq<int>, marks: seq<bool>)
    requires ListsMarks(ids, marks, |marks| + 1)
    ensures StrictlySorted(ids) && ToSet(ids) == MapIds(marks)
  {
  }

  lemma NoMarks(marks: seq<bool>)
    ensures ListsMarks([], marks, 1)
  {
  }

  lemma OneMoreMark(ids: seq<int>, marks: seq<bool>, id: int)
    requires ListsMarks(ids, marks, id) && 1 <= id <= |marks|
    ensures ListsMarks(if marks[id - 1] then ids + [id] else ids, marks, id + 1)
  {
    if marks[id - 1] {
      StrictlySortedSnoc(ids, id);
      forall x ensures x in ids + [id] <==> x < id + 1 && IsSet(marks, x) { InSnoc(ids, id, x); }
    }
  }

  lemma StrictlySortedSnoc(ids: seq<int>, id: int)
    requires StrictlySorted(ids) && forall x :: x in ids ==> x < id
    ensures StrictlySorted(ids + [id])
  {
    forall k | 0 <= k < |ids| ensures ids[k] < id { assert ids[k] in ids; }
  }

  lemma InSnoc(ids: seq<int>, id: int, x: int)
    ensures x in ids + [id] <==> x in ids || x == id
  {
  }

  ghost function MarksBelow(marks: seq<bool>, id: int): nat
    requires 1 <= id <= |marks| + 1
  {
    if id == 1 then 0 else MarksBelow(marks, id - 1) + if marks[id - 2] then 1 else 0
  }

  lemma {:induction false} MarksGrow(marks: seq<bool>, id: int, id': int)
    requires 1 <= id <= id' <= |marks| + 1
    ensures MarksBelow(marks, id) <= MarksBelow(marks, id')
  {
    if id < id' { MarksGrow(marks, id, id' - 1); }
  }

  class HistoryCtx {
    const db: Database
    var installedIds: array<int>
    var cookie: Option<string>
    var transId: int

    /** No SQL transaction is open between calls. */
    ghost predicate Valid()
      reads this, db
    {
      db.saved == None
    }

    ghost function Abs(): State
      reads this, db, installedIds
    {
      State(db.tables, installedIds[..], cookie, transId)
    }

    /** create_history_ctx on a database that can be opened: cookie and transaction id of the newest
        transaction, no installed ids yet. */
    constructor (db: Database)
      requires db.saved == None
      ensures Valid() && this.db == db && fresh(installedIds)
      ensures var n := |db.tables.transactions|;
              Abs() == State(db.tables, [], if n > 0 then Some(db.tables.transactions[n - 1].cookie) else None, n)
    {
      this.db := db;
      installedIds := new int[0];
      var trans := db.tables.transactions;
      if |trans| > 0 {
        cookie, transId := Some(trans[|trans| - 1].cookie), |trans|;
      } else {
        cookie, transId := None, 0;
      }
    }

    /** history_set_state */
    method SetState(t: int) returns (rc: Rc)
      requires Valid()
      modifies this`installedIds, this`transId, db`failures
      ensures Valid() && (installedIds == old(installedIds) || fresh(installedIds))
      ensures SetStateStep(old(Abs()), Abs(), t, rc == Ok)
      ensures db.failures == old(db.failures) + if rc == SqlFailed then 1 else 0
      ensures rc == CheckFailed ==> StateAt(db.tables, t) == None
    {
      rc := db.Statement();
      if rc != Ok { return; }
      var marks := new bool[|db.tables.rpms|](_ => false);
      rc := db.PlayTransaction(t, marks);
      if rc != Ok { return; }
      installedIds := GetIdsFromMap(marks);
      transId := t;
    }

    /** history_update_state; callers have synced the context, so its cookie is known. */
    method UpdateState(r: Rpmdb, cmdline: string) returns (rc: Rc)
      requires Valid() && cookie.Some? && Distinct(r.nevras)
      modifies this, db
      ensures Valid() && (installedIds == old(installedIds) || fresh(installedIds))
      ensures UpdateStep(old(Abs()), Abs(), r, cmdline, rc == Ok)
      ensures db.failures >= old(db.failures) && rc != CheckFailed
      ensures db.failures == old(db.failures) && old(cookie) != Some(r.cookie) ==>
                Abs() == AfterUpdate(old(Abs()), db.tables.rpms, r, cmdline) && Covers(db.tables.rpms, r.nevras)
      ensures db.failures == old(db.failures) ==> rc == Ok
    {
      if cookie.value == r.cookie { return Ok; }
      ghost var s := Abs();
      label Run: {
        var current;
        rc, current := db.UpdateRpms(r);
        if rc != Ok { break Run; }
        ghost var dict := db.tables.rpms;
        var removed, removedCount, added, addedCount := DiffArrays(installedIds, current);
        var id;
        rc, id := WriteDelta(Transaction(r.cookie, cmdline, Delta), added, addedCount, removed, removedCount);
        if rc != Ok { break Run; }
        assert db.tables == AfterUpdate(s, dict, r, cmdline).tables;
        installedIds := current;
        cookie := Some(r.cookie);
        transId := id;
      }
      if rc != Ok {
        db.Rollback();
      } else {
        db.Commit();
      }
    }

    /** The part of history_update_state between BEGIN and COMMIT. */
    method WriteDelta(tr: Transaction, added: array<int>, addedCount: nat, removed: array<int>, removedCount: nat)
      returns (rc: Rc, id: int)
      requires Valid() && addedCount <= added.Length && removedCount <= removed.Length
      modifies db
      ensures rc != CheckFailed && db.failures == old(db.failures) + if rc == Ok then 0 else 1
      ensures rc == Ok ==> id == NewId(old(db.tables)) && db.saved == Some(old(db.tables))
      ensures rc == Ok ==>
                db.tables == AddRecord(old(db.tables), tr,
                                       ItemsFor(id, AddItem, added[..addedCount])
                                       + ItemsFor(id, RemoveItem, removed[..removedCount]))
      ensures db.saved == Some(old(db.tables)) || (db.saved == None && db.tables == old(db.tables))
    {
      id := 0;
      rc := db.Begin();
      if rc != Ok { return; }
      rc, id := db.InsertTransaction(tr);
      if rc != Ok { return; }
      if addedCount > 0 {
        rc := db.InsertItems(id, AddItem, added, addedCount);
        if rc != Ok { return; }
      }
      if removedCount > 0 {
        rc := db.InsertItems(id, RemoveItem, removed, removedCount);
        if rc != Ok { return; }
      }
      ItemsInTwoSteps(old(db.tables).items, id, added[..addedCount], removed[..removedCount]);
    }

    /** history_record_state */
    method RecordState() returns (rc: Rc)
      requires Valid() && cookie.Some?
      modifies this`transId, db
      ensures Valid() && installedIds == old(installedIds)
      ensures RecordStep(old(Abs()), Abs(), rc == Ok)
      ensures db.failures >= old(db.failures) && rc != CheckFailed
      ensures db.failures == old(db.failures) ==> rc == Ok && Abs() == AfterRecord(old(Abs()))
    {
      label Run: {
        rc := db.Begin();
        if rc != Ok { break Run; }
        rc := db.CreateTransactionsTable();
        if rc != Ok { break Run; }
        var id;
        rc, id := db.InsertTransaction(Transaction(cookie.value, "(set)", Base));
        if rc != Ok { break Run; }
        rc := db.Statement();
        if rc != Ok { break Run; }
        rc := db.InsertItems(id, SetItem, installedIds, installedIds.Length);
        if rc != Ok { break Run; }
        assert installedIds[..installedIds.Length] == installedIds[..];
        transId := id;
      }
      if rc != Ok {
        db.Rollback();
      } else {
        db.Commit();
      }
    }

    /** history_add_transaction. The cookie is null on a database without transactions, and the INSERT then fails
        on the missing table. */
    method AddTransaction(cmdline: string) returns (rc: Rc)
      requires Valid() && (cookie == None ==> !db.tables.hasTransactions)
      modifies this`transId, db
      ensures Valid() && installedIds == old(installedIds)
      ensures AddStep(old(Abs()), Abs(), cmdline, rc == Ok)
      ensures rc != CheckFailed && db.failures == old(db.failures) + if rc == Ok then 0 else 1
    {
      var id;
      rc, id := db.InsertTransaction(Transaction(if cookie.Some? then cookie.value else "", cmdline, Delta));
      if rc != Ok { return; }
      transId := id;
      assert db.tables.items == old(db.tables).items + [];
    }

    /** history_sync */
    method Sync(r: Rpmdb) returns (rc: Rc)
      requires Valid() && Distinct(r.nevras)
      modifies this, db
      ensures Valid() && (installedIds == old(installedIds) || fresh(installedIds))
      ensures SyncStep(old(Abs()), Abs(), r, rc == Ok)
      ensures db.failures >= old(db.failures)
      ensures rc == CheckFailed ==>
                old(db.tables).transactions != [] && StateAt(old(db.tables), |old(db.tables).transactions|) == None
      ensures db.failures == old(db.failures) ==>
                rc == CheckFailed || (rc == Ok && transId == |db.tables.transactions| > 0)
      ensures db.failures == old(db.failures) && rc == Ok && transId != |old(db.tables).transactions| ==>
                Covers(db.tables.rpms, r.nevras)
    {
      rc := db.Statement();
      if rc != Ok { return; }
      var trans := db.tables.transactions;
      if |trans| == 0 {
        rc := FirstSync(r);
      } else if r.cookie != trans[|trans| - 1].cookie {
        rc := ChangedSync(r);
      } else {
        rc := UnchangedSync(r);
      }
    }

    /** The branch for an rpm database that was changed by others: the last state is restored and the change
        recorded. */
    method ChangedSync(r: Rpmdb) returns (rc: Rc)
      requires Valid() && Distinct(r.nevras) && db.tables.transactions != []
      requires r.cookie != db.tables.transactions[|db.tables.transactions| - 1].cookie
      modifies this, db
      ensures Valid() && (installedIds == old(installedIds) || fresh(installedIds))
      ensures SyncStep(old(Abs()), Abs(), r, rc == Ok)
      ensures db.failures >= old(db.failures)
      ensures rc == CheckFailed ==> StateAt(old(db.tables), |old(db.tables).transactions|) == None
      ensures db.failures == old(db.failures) && rc != CheckFailed ==>
                rc == Ok && transId == |db.tables.transactions| > 0 && Covers(db.tables.rpms, r.nevras)
    {
      ghost var s := Abs();
      var trans := db.tables.transactions;
      rc := SetState(|trans|);
      if rc != Ok { return; }
      cookie := Some(trans[|trans| - 1].cookie);
      ghost var ids := installedIds[..];
      rc := UpdateState(r, "(unknown)");
      assert SyncedByUpdate(s, Abs(), ids, r, rc == Ok);
    }

    /** The branch for an rpm database as it was recorded last. */
    method UnchangedSync(r: Rpmdb) returns (rc: Rc)
      requires Valid() && Distinct(r.nevras) && db.tables.transactions != []
      requires r.cookie == db.tables.transactions[|db.tables.transactions| - 1].cookie
      modifies this, db
      ensures Valid() && (installedIds == old(installedIds) || fresh(installedIds))
      ensures SyncStep(old(Abs()), Abs(), r, rc == Ok)
      ensures db.failures >= old(db.failures) && rc != CheckFailed
      ensures db.failures == old(db.failures) ==> rc == Ok
      ensures rc == Ok ==> transId == |old(db.tables).transactions| == |db.tables.transactions|
    {
      var current;
      rc, current := db.UpdateRpms(r);
      if rc != Ok { return; }
      installedIds := current;
      cookie := Some(r.cookie);
      transId := |db.tables.transactions|;
    }

    /** The branch for a database without transactions: the first baseline. */
    method FirstSync(r: Rpmdb) returns (rc: Rc)
      requires Valid() && Distinct(r.nevras) && db.tables.transactions == []
      modifies this, db
      ensures Valid() && (installedIds == old(installedIds) || fresh(installedIds))
      ensures SyncStep(old(Abs()), Abs(), r, rc == Ok)
      ensures db.failures >= old(db.failures) && rc != CheckFailed
      ensures db.failures == old(db.failures) ==>
                rc == Ok && transId == |db.tables.transactions| > 0 && Covers(db.tables.rpms, r.nevras)
    {
      ghost var s := Abs();
      cookie := Some(r.cookie);
      var current;
      rc, current := db.UpdateRpms(r);
      if rc != Ok { return; }
      installedIds := current;
      assert Abs() == FreshContext(s, db.tables.rpms, r);
      rc := RecordState();
    }

    /** The sorted ids installed as of transaction `t`; the common part of the two delta queries. */
    method InstalledAt(t: int) returns (rc: Rc, ids: array<int>)
      requires Valid()
      modifies db`failures
      ensures fresh(ids)
      ensures db.failures == old(db.failures) + if rc == SqlFailed then 1 else 0
      ensures rc == Ok ==> StrictlySorted(ids[..]) && StateAt(db.tables, t) == Some(ToSet(ids[..]))
      ensures rc == CheckFailed ==> StateAt(db.tables, t) == None
    {
      ids := new int[0];
      var marks := new bool[|db.tables.rpms|](_ => false);
      rc := db.PlayTransaction(t, marks);
      if rc == Ok { ids := GetIdsFromMap(marks); }
    }

    /** history_get_delta: from the installed ids of the context to the state at transaction `t`. */
    method GetDelta(t: int) returns (rc: Rc, hd: HistoryDelta)
      requires Valid()
      modifies db`failures
      ensures rc == Ok ==> StateAt(db.tables, t).Some?
      ensures rc == Ok && StrictlySorted(installedIds[..]) ==>
                Turns(hd, ToSet(installedIds[..]), StateAt(db.tables, t).value)
      ensures rc == CheckFailed ==> StateAt(db.tables, t) == None
      ensures db.failures == old(db.failures) + if rc == SqlFailed then 1 else 0
    {
      hd := HistoryDelta([], []);
      rc := db.Statement();
      if rc != Ok { return; }
      var ids;
      rc, ids := InstalledAt(t);
      if rc != Ok { return; }
      var removed, removedCount, added, addedCount := DiffArrays(installedIds, ids);
      if StrictlySorted(installedIds[..]) { DiffIsSetDifference(installedIds[..], ids[..]); }
      hd := HistoryDelta(added[..addedCount], removed[..removedCount]);
    }

    /** history_get_delta_range: what turns the state at `trans1` into the state at `trans0`. */
    method GetDeltaRange(trans0: int, trans1: int) returns (rc: Rc, hd: HistoryDelta)
      requires Valid()
      modifies db`failures
      ensures rc == Ok ==> StateAt(db.tables, trans0).Some? && StateAt(db.tables, trans1).Some?
                           && Turns(hd, StateAt(db.tables, trans1).value, StateAt(db.tables, trans0).value)
      ensures rc == CheckFailed ==> StateAt(db.tables, trans0) == None || StateAt(db.tables, trans1) == None
      ensures db.failures == old(db.failures) + if rc == SqlFailed then 1 else 0
    {
      hd := HistoryDelta([], []);
      rc := db.Statement();
      if rc != Ok { return; }
      var ids0, ids1;
      rc, ids0 := InstalledAt(trans0);
      if rc != Ok { return; }
      rc, ids1 := InstalledAt(trans1);
      if rc != Ok { return; }
      var removed, removedCount, added, addedCount := DiffArrays(ids1, ids0);
      DiffIsSetDifference(ids1[..], ids0[..]);
      hd := HistoryDelta(added[..addedCount], removed[..removedCount]);
    }

    // ----- flags

    /** db_get_auto_flag */
    method GetFlagAt(t: int, name: string) returns (rc: Rc, value: int)
      requires Valid()
      modifies db`failures, db`tables
      ensures rc != CheckFailed && db.tables == old(db.tables)
      ensures db.failures >= old(db.failures) && (db.failures == old(db.failures) <==> rc == Ok)
      ensures rc == Ok ==> value == FlagOf(db.tables.marks, t, name)
    {
      value := 0;
      rc := db.Statement();
      if rc != Ok || !db.tables.marks.hasFlags { return; }
      rc := db.Statement();
      if rc != Ok || !db.tables.marks.hasNames { return; }
      var id;
      rc, id := db.GetDictEntry(NamesTable, name, false, 0);
      if rc != Ok || id == 0 { return; }
      rc, value := db.ReadFlag(t, id);
    }

    /** history_get_auto_flag */
    method GetAutoFlag(name: string) returns (rc: Rc, value: int)
      requires Valid()
      modifies db`failures, db`tables
      ensures db.tables == old(db.tables) && db.failures >= old(db.failures)
      ensures rc == CheckFailed <==> transId <= 0
      ensures rc == Ok ==> value == FlagOf(db.tables.marks, transId, name)
      ensures db.failures == old(db.failures) && transId > 0 ==> rc == Ok
    {
      value := 0;
      if !(transId > 0) { return CheckFailed, 0; }
      rc, value := GetFlagAt(transId, name);
    }

    /** history_set_auto_flag: writes only what changes. */
    method SetAutoFlag(name: string, value: int) returns (rc: Rc)
      requires Valid()
      modifies db`failures, db`tables
      ensures Valid() && db.failures >= old(db.failures)
      ensures db.tables == old(db.tables).(marks := db.tables.marks)
      ensures SetFlagStep(old(db.tables.marks), db.tables.marks, transId, name, value, rc == Ok)
      ensures rc == CheckFailed <==> transId <= 0
      ensures db.failures == old(db.failures) && transId > 0 ==>
                rc == Ok && (FlagOf(old(db.tables.marks), transId, name) != value ==> name in db.tables.marks.names)
    {
      if !(transId > 0) { return CheckFailed; }
      var oldValue;
      rc, oldValue := GetFlagAt(transId, name);
      if rc != Ok || oldValue == value { return; }
      rc := db.Statement();
      if rc != Ok { return; }
      db.tables := db.tables.(marks := db.tables.marks.(hasNames := true));
      var uninitialised: int := *;
      var id;
      rc, id := db.GetDictEntry(NamesTable, name, true, uninitialised);
      if rc != Ok { return; }
      rc := db.Statement();
      if rc != Ok { return; }
      db.tables := db.tables.(marks := db.tables.marks.(hasFlags := true));
      rc := db.InsertFlag(FlagEntry(transId, id, value));
    }

    /** history_restore_auto_flags */
    method RestoreAutoFlags(to: int) returns (rc: Rc)
      requires Valid()
      modifies db`failures, db`tables
      ensures Valid() && db.failures == old(db.failures) + if rc == SqlFailed then 1 else 0
      ensures rc != CheckFailed
      ensures db.tables == old(db.tables).(marks := db.tables.marks)
      ensures RestoreStep(old(db.tables.marks), db.tables.marks, transId, to, rc == Ok)
    {
      rc := db.Statement();
      ghost var marks := db.tables.marks;
      assert marks == marks.(flags := Restored(marks.flags, transId, to, 0));
      if rc != Ok || !db.tables.marks.hasNames { return; }
      rc := db.Statement();
      if rc != Ok { return; }
      var count := |db.tables.marks.names|;
      var i := 1;
      while i <= count
        invariant 1 <= i <= count + 1 && rc == Ok && Valid() && db.failures == old(db.failures)
        invariant db.tables == old(db.tables).(marks := marks.(flags := Restored(marks.flags, transId, to, i - 1)))
      {
        var value, oldValue;
        rc, value := db.ReadFlag(to, i);
        if rc != Ok { return; }
        rc, oldValue := db.ReadFlag(transId, i);
        if rc != Ok { return; }
        if value != oldValue {
          rc := db.InsertFlag(FlagEntry(transId, i, value));
          if rc != Ok { return; }
        }
        i := i + 1;
      }
    }

    /** history_replay_auto_flags: the range excludes `from`. */
    method ReplayAutoFlags(from: int, to: int) returns (rc: Rc)
      requires Valid()
      modifies db`failures, db`tables
      ensures Valid() && db.failures == old(db.failures) + if rc == SqlFailed then 1 else 0
      ensures rc != CheckFailed
      ensures db.tables == old(db.tables).(marks := db.tables.marks)
      ensures ReplayStep(old(db.tables.marks), db.tables.marks, transId, from, to, rc == Ok)
    {
      rc := db.Statement();
      ghost var marks := db.tables.marks;
      assert marks == marks.(flags := Replayed(marks.flags, transId, from, to, 0));
      if rc != Ok || !db.tables.marks.hasNames { return; }
      rc := db.Statement();
      if rc != Ok { return; }
      var count := |db.tables.marks.names|;
      var i := 1;
      while i <= count
        invariant 1 <= i <= count + 1 && rc == Ok && Valid() && db.failures == old(db.failures)
        invariant db.tables == old(db.tables).(marks := marks.(
                                 flags := Replayed(marks.flags, transId, from, to, i - 1)))
      {
        var valFrom, valTo;
        rc, valFrom := db.ReadFlag(from, i);
        if rc != Ok { return; }
        rc, valTo := db.ReadFlag(to, i);
        if rc != Ok { return; }
        if valFrom != valTo {
          var oldValue;
          rc, oldValue := db.ReadFlag(transId, i);
          if rc != Ok { return; }
          if valTo != oldValue {
            rc := db.InsertFlag(FlagEntry(transId, i, valTo));
            if rc != Ok { return; }
          }
        }
        i := i + 1;
      }
    }

    /** history_get_flags_delta: None where the source returns NULL without a names table. */
    method GetFlagsDelta(from: int, to: int) returns (rc: Rc, hfd: Option<seq<(int, int)>>)
      requires Valid()
      modifies db`failures
      ensures rc != CheckFailed && db.failures == old(db.failures) + if rc == SqlFailed then 1 else 0
      ensures rc == Ok ==> hfd == if db.tables.marks.hasNames
                                  then Some(FlagsDelta(db.tables.marks.flags, transId, from, to,
                                                       |db.tables.marks.names|))
                                  else None
    {
      hfd := None;
      rc := db.Statement();
      if rc != Ok || !db.tables.marks.hasNames { return; }
      rc := db.Statement();
      if rc != Ok { return; }
      var count := |db.tables.marks.names|;
      var changed := new (int, int)[count](_ => (0, 0));
      var n, i := 0, 1;
      while i <= count
        invariant 1 <= i <= count + 1 && 0 <= n < i && rc == Ok && db.failures == old(db.failures)
        invariant changed[..n] == FlagsDelta(db.tables.marks.flags, transId, from, to, i - 1)
      {
        var valFrom, valTo;
        rc, valFrom := db.ReadFlag(from, i);
        if rc != Ok { return; }
        rc, valTo := db.ReadFlag(to, i);
        if rc != Ok { return; }
        if valFrom != valTo {
          var oldValue;
          rc, oldValue := db.ReadFlag(transId, i);
          if rc != Ok { return; }
          if valTo != oldValue {
            changed[n] := (i, valTo);
            assert changed[..n + 1] == changed[..n] + [(i, valTo)];
            n := n + 1;
          }
        }
        i := i + 1;
      }
      hfd := Some(changed[..n]);
    }
  }

  lemma ItemsInTwoSteps(items: seq<Item>, t: int, added: seq<int>, removed: seq<int>)
    ensures added == [] ==> ItemsFor(t, AddItem, added) == []
    ensures removed == [] ==> ItemsFor(t, RemoveItem, removed) == []
    ensures items + ItemsFor(t, AddItem, added) + ItemsFor(t, RemoveItem, removed)
         == items + (ItemsFor(t, AddItem, added) + ItemsFor(t, RemoveItem, removed))
  {
  }
}
