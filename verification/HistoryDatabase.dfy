/** The SQL statements that the history store issues. Any statement may fail; `failures` counts how many did. Only
    stepping through the rows of a prepared SELECT does not fail: the source takes a failure there for the end of the
    rows (HistoryTables.CutReplay says what that costs a replay). */
module HistoryDatabase {
  import opened Wrappers
  import opened Sequences
  import opened SortedIds
  import opened HistoryTables
  import opened HistoryState
  import opened HistoryFlags

  /** CheckFailed: one of the code's own sanity checks on the data fired. */
  datatype Rc = Ok | SqlFailed | CheckFailed

  datatype Dictionary = RpmsTable | NamesTable

  function Dict(tables: Tables, which: Dictionary): seq<string> {
    match which
    case RpmsTable => tables.rpms
    case NamesTable => tables.marks.names
  }

  function WithDict(tables: Tables, which: Dictionary, dict: seq<string>): Tables {
    match which
    case RpmsTable => tables.(rpms := dict)
    case NamesTable => tables.(marks := tables.marks.(names := dict))
  }

  /** The ids marked in a byte map; entry i stands for id i + 1. */
  ghost function MapIds(marks: seq<bool>): set<int> {
    set id | 0 < id <= |marks| && IsSet(marks, id)
  }

  /** map_isset */
  predicate IsSet(marks: seq<bool>, id: int) {
    0 < id <= |marks| && marks[id - 1]
  }

  lemma MapIdsUpdate(marks: seq<bool>, id: int, mark: bool)
    requires 0 < id <= |marks|
    ensures MapIds(marks[id - 1 := mark]) == if mark then MapIds(marks) + {id} else MapIds(marks) - {id}
  {
    var later := marks[id - 1 := mark];
    forall x ensures x in MapIds(later) <==> x in if mark then MapIds(marks) + {id} else MapIds(marks) - {id} {
    }
  }

  /** SELECT * FROM transactions WHERE type = BASE ORDER BY id DESC. */
  function BasesDescending(transactions: seq<Transaction>): (bases: seq<int>)
    ensures forall b :: b in bases <==> IsBase(transactions, b)
    ensures forall i, j :: 0 <= i < j < |bases| ==> bases[i] > bases[j]
  {
    if transactions == [] then []
    else
      var n := |transactions|;
      var rest := BasesDescending(transactions[..n - 1]);
      assert forall i :: 0 <= i < |rest| ==> rest[i] in rest;
      assert forall b ::
          IsBase(transactions, b) <==> IsBase(transactions[..n - 1], b) || (b == n && IsBase(transactions, n));
      if transactions[n - 1].kind == Base then [n] + rest else rest
  }

  lemma {:induction false} NoBaseline(tables: Tables, mapSize: nat, t: int)
    requires forall b :: b <= t ==> !IsBase(tables.transactions, b)
    ensures Replay(tables, mapSize, t) == None
    decreases if t < 0 then 0 else t
  {
    if t > 0 { NoBaseline(tables, mapSize, t - 1); }
  }

  lemma {:induction false} ReplayBroken(tables: Tables, mapSize: nat, id: int, t: int)
    requires 0 < id <= t && Replay(tables, mapSize, id) == None
    requires forall b :: id < b <= t ==> !IsBase(tables.transactions, b)
    ensures Replay(tables, mapSize, t) == None
    decreases t
  {
    if id < t { ReplayBroken(tables, mapSize, id, t - 1); }
  }

  class Database {
    var tables: Tables
    var saved: Option<Tables>
    ghost var failures: nat

    constructor (tables: Tables)
      ensures this.tables == tables && saved == None && failures == 0
    {
      this.tables, saved, failures := tables, None, 0;
    }

    /** Any statement, as far as it only succeeds or fails. */
    method Statement() returns (rc: Rc)
      modifies this`failures
      ensures rc == Ok || rc == SqlFailed
      ensures failures == old(failures) + if rc == Ok then 0 else 1
    {
      var ok: bool := *;
      if ok {
        rc := Ok;
      } else {
        rc, failures := SqlFailed, failures + 1;
      }
    }

    method Begin() returns (rc: Rc)
      requires saved == None
      modifies this`failures, this`saved
      ensures rc == Ok || rc == SqlFailed
      ensures failures == old(failures) + if rc == Ok then 0 else 1
      ensures saved == if rc == Ok then Some(tables) else None
    {
      rc := Statement();
      if rc == Ok { saved := Some(tables); }
    }

    /** Without an open transaction this is an error that nobody looks at. */
    method Rollback()
      modifies this`tables, this`saved
      ensures saved == None && tables == if old(saved).Some? then old(saved).value else old(tables)
    {
      if saved.Some? { tables, saved := saved.value, None; }
    }

    /** A failed COMMIT goes unnoticed; what it should have made durable is lost. */
    method Commit()
      modifies this
      ensures saved == None && failures >= old(failures)
      ensures tables == old(tables) || (failures > old(failures) && old(saved).Some? && tables == old(saved).value)
      ensures failures > old(failures) && old(saved).Some? ==> tables == old(saved).value
    {
      var rc := Statement();
      if rc == Ok {
        saved := None;
      } else {
        Rollback();
      }
    }

    method CreateTransactionsTable() returns (rc: Rc)
      modifies this`tables, this`failures
      ensures rc == Ok || rc == SqlFailed
      ensures failures == old(failures) + if rc == Ok then 0 else 1
      ensures tables == if rc == Ok then old(tables).(hasTransactions := true) else old(tables)
    {
      rc := Statement();
      if rc == Ok { tables := tables.(hasTransactions := true); }
    }

    /** db_add_transaction: fails on a missing table like on any other error. */
    method InsertTransaction(tr: Transaction) returns (rc: Rc, id: int)
      modifies this`tables, this`failures
      ensures rc == Ok || rc == SqlFailed
      ensures failures == old(failures) + if rc == Ok then 0 else 1
      ensures rc == Ok ==> old(tables).hasTransactions && id == |tables.transactions|
      ensures tables == if rc == Ok then old(tables).(transactions := old(tables).transactions + [tr]) else old(tables)
    {
      id := 0;
      rc := Statement();
      if rc == Ok {
        if tables.hasTransactions {
          tables := tables.(transactions := tables.transactions + [tr]);
          id := |tables.transactions|;
        } else {
          rc, failures := SqlFailed, failures + 1;
        }
      }
    }

    /** db_add_trans_items: one INSERT per id; earlier rows stay when a later one fails. */
    method InsertItems(t: int, kind: ItemKind, ids: array<int>, n: nat) returns (rc: Rc)
      requires n <= ids.Length
      modifies this`tables, this`failures
      ensures rc == Ok || rc == SqlFailed
      ensures failures == old(failures) + if rc == Ok then 0 else 1
      ensures rc == Ok ==> tables == old(tables).(items := old(tables).items + ItemsFor(t, kind, ids[..n]))
      ensures tables == old(tables).(items := tables.items)
    {
      rc := Ok;
      var i := 0;
      while i < n
        invariant 0 <= i <= n && rc == Ok && failures == old(failures)
        invariant tables == old(tables).(items := old(tables).items + ItemsFor(t, kind, ids[..i]))
      {
        rc := Statement();
        if rc != Ok { return; }
        tables := tables.(items := tables.items + [Item(t, kind, ids[i])]);
        i := i + 1;
        assert ItemsFor(t, kind, ids[..i]) == ItemsFor(t, kind, ids[..i - 1]) + [Item(t, kind, ids[i - 1])];
      }
    }

    /** db_get_dict_entry. `slot` is what *pid held before the call: a failed INSERT step is not
        reported, and then *pid keeps that value. */
    method GetDictEntry(which: Dictionary, entry: string, create: bool, slot: int) returns (rc: Rc, id: int)
      modifies this`tables, this`failures
      ensures rc == Ok || rc == SqlFailed
      ensures failures >= old(failures) && (rc == SqlFailed ==> failures > old(failures))
      ensures var dict := Dict(old(tables), which);
              tables == old(tables)
              || (create && entry !in dict && rc == Ok && tables == WithDict(old(tables), which, dict + [entry]))
      ensures rc == Ok ==> id == if entry in Dict(tables, which) then IdOf(Dict(tables, which), entry)
                                 else if create then slot else 0
      ensures failures == old(failures) && create ==> entry in Dict(tables, which)
      ensures rc == Ok && !create ==> failures == old(failures)
    {
      id := slot;
      rc := Statement();
      if rc != Ok { return; }
      var dict := Dict(tables, which);
      var found := IdOf(dict, entry);
      if found > 0 { id := found; return; }
      if !create { id := 0; return; }
      rc := Statement();
      if rc != Ok { return; }
      var step := Statement();
      if step == Ok {
        tables := WithDict(tables, which, dict + [entry]);
        id := |dict| + 1;
        NewestId(dict, entry);
      }
    }

    /** db_update_rpms: enters every installed NEVRA and returns the sorted list of their ids. */
    method UpdateRpms(r: Rpmdb) returns (rc: Rc, ids: array<int>)
      requires Distinct(r.nevras)
      modifies this`tables, this`failures
      ensures fresh(ids)
      ensures rc == Ok || rc == SqlFailed
      ensures failures >= old(failures) && (rc == SqlFailed ==> failures > old(failures))
      ensures tables == old(tables).(rpms := tables.rpms) && Grows(old(tables).rpms, tables.rpms, r.nevras)
      ensures rc == Ok ==> ids[..] == CurrentIds(tables.rpms, r.nevras)
      ensures failures == old(failures) ==> Covers(tables.rpms, r.nevras)
    {
      ids := new int[|r.nevras|](_ => 0);
      rc := Statement();
      if rc != Ok { return; }
      var i := 0;
      while i < |r.nevras|
        invariant 0 <= i <= |r.nevras| && rc == Ok && failures >= old(failures)
        invariant tables == old(tables).(rpms := tables.rpms)
        invariant Entered(old(tables).rpms, tables.rpms, r.nevras, i, ids[..])
        invariant failures == old(failures) ==> Covers(tables.rpms, r.nevras[..i])
      {
        ghost var dict, found := tables.rpms, ids[..];
        var id;
        rc, id := GetDictEntry(RpmsTable, r.nevras[i], true, ids[i]);
        if rc != Ok { return; }
        EnterOne(old(tables).rpms, dict, tables.rpms, r.nevras, i, found, id);
        ids[i] := id;
        assert ids[..] == found[i := id];
        i := i + 1;
      }
      assert ids[..] == LookUp(tables.rpms, r.nevras);
      assert r.nevras[..|r.nevras|] == r.nevras;
      SortArray(ids);
    }

    /** db_play_set on a map of the installed ids. */
    method PlaySet(t: int, marks: array<bool>) returns (rc: Rc)
      modifies this`failures, marks
      ensures failures == old(failures) + if rc == SqlFailed then 1 else 0
      ensures var rows := RowsOf(tables.items, t);
              var result := PlayRows(rows, true, marks.Length, old(MapIds(marks[..])));
              (rc == Ok ==> result == Some(MapIds(marks[..]))) && (rc == CheckFailed ==> result == None)
    {
      rc := Statement();
      if rc != Ok { return; }
      var rows := RowsOf(tables.items, t);
      ghost var ids := MapIds(marks[..]);
      var i := 0;
      while i < |rows|
        invariant 0 <= i <= |rows| && failures == old(failures)
        invariant PlayRows(rows[..i], true, marks.Length, ids) == Some(MapIds(marks[..]))
      {
        assert rows[..i + 1][..i] == rows[..i];
        if !(0 < rows[i].rpmId <= marks.Length) || rows[i].kind != SetItem {
          PlayRowsFails(rows, i + 1, true, marks.Length, ids);
          return CheckFailed;
        }
        MapIdsUpdate(marks[..], rows[i].rpmId, true);
        marks[rows[i].rpmId - 1] := true;
        i := i + 1;
      }
      assert rows[..i] == rows;
    }

    /** db_play_delta on a map of the installed ids. */
    method PlayDelta(t: int, marks: array<bool>) returns (rc: Rc)
      modifies this`failures, marks
      ensures failures == old(failures) + if rc == SqlFailed then 1 else 0
      ensures var rows := RowsOf(tables.items, t);
              var result := PlayRows(rows, false, marks.Length, old(MapIds(marks[..])));
              (rc == Ok ==> result == Some(MapIds(marks[..]))) && (rc == CheckFailed ==> result == None)
    {
      rc := Statement();
      if rc != Ok { return; }
      var rows := RowsOf(tables.items, t);
      ghost var ids := MapIds(marks[..]);
      var i := 0;
      while i < |rows|
        invariant 0 <= i <= |rows| && failures == old(failures)
        invariant PlayRows(rows[..i], false, marks.Length, ids) == Some(MapIds(marks[..]))
      {
        assert rows[..i + 1][..i] == rows[..i];
        if !(0 < rows[i].rpmId <= marks.Length) || rows[i].kind == SetItem {
          PlayRowsFails(rows, i + 1, false, marks.Length, ids);
          return CheckFailed;
        }
        MapIdsUpdate(marks[..], rows[i].rpmId, rows[i].kind == AddItem);
        marks[rows[i].rpmId - 1] := rows[i].kind == AddItem;
        i := i + 1;
      }
      assert rows[..i] == rows;
    }

    /** db_play_transaction: rewinds to the newest baseline not after `t` and plays the deltas up to `t`. */
    method PlayTransaction(t: int, marks: array<bool>) returns (rc: Rc)
      requires MapIds(marks[..]) == {}
      modifies this`failures, marks
      ensures failures == old(failures) + if rc == SqlFailed then 1 else 0
      ensures rc == Ok ==> Replay(tables, marks.Length, t) == Some(MapIds(marks[..]))
      ensures rc == CheckFailed ==> Replay(tables, marks.Length, t) == None
    {
      rc := Statement();
      if rc != Ok { return; }
      var bases := BasesDescending(tables.transactions);
      var k := 0;
      while k < |bases| && bases[k] > t
        invariant 0 <= k <= |bases| && forall i :: 0 <= i < k ==> bases[i] > t
      {
        k := k + 1;
      }
      if k == |bases| {
        forall b | b <= t ensures !IsBase(tables.transactions, b) { assert b !in bases; }
        NoBaseline(tables, marks.Length, t);
        return CheckFailed;
      }
      var base := bases[k];
      assert base in bases;
      forall b | base < b <= t ensures !IsBase(tables.transactions, b) { assert b !in bases; }
      rc := PlaySet(base, marks);
      if rc != Ok {
        if rc == CheckFailed { ReplayBroken(tables, marks.Length, base, t); }
        return;
      }
      var id := base + 1;
      while id <= t
        invariant base < id <= t + 1 && rc == Ok && failures == old(failures)
        invariant Replay(tables, marks.Length, id - 1) == Some(MapIds(marks[..]))
      {
        rc := PlayDelta(id, marks);
        if rc != Ok {
          if rc == CheckFailed { ReplayBroken(tables, marks.Length, id, t); }
          return;
        }
        id := id + 1;
      }
    }

    /** history_delta_read: the ids that transaction `t` added (or set) and removed, in two buffers with room
        for every known rpm. */
    method ReadDelta(t: int)
      returns (rc: Rc, added: array<int>, addedCount: nat, removed: array<int>, removedCount: nat)
      modifies this`failures
      ensures failures == old(failures) + if rc == SqlFailed then 1 else 0
      ensures addedCount <= added.Length == |tables.rpms| && removedCount <= removed.Length == |tables.rpms|
      ensures rc == Ok ==> added[..addedCount] == RpmIds(RowsOf(tables.items, t), false)
                           && removed[..removedCount] == RpmIds(RowsOf(tables.items, t), true)
      ensures WellFormed(tables) ==> rc != CheckFailed
    {
      var maxCount := |tables.rpms|;
      added, removed := new int[maxCount], new int[maxCount];
      addedCount, removedCount := 0, 0;
      rc := Statement();
      if rc != Ok { return; }
      rc := Statement();
      if rc != Ok { return; }
      var rows := RowsOf(tables.items, t);
      var i := 0;
      while i < |rows|
        invariant 0 <= i <= |rows| && rc == Ok && failures == old(failures)
        invariant addedCount <= maxCount && removedCount <= maxCount
        invariant added[..addedCount] == RpmIds(rows[..i], false)
        invariant removed[..removedCount] == RpmIds(rows[..i], true)
      {
        assert rows[..i + 1][..i] == rows[..i];
        if WellFormed(tables) { RoomForRow(tables, t, i); }
        if rows[i].kind != RemoveItem {
          if !(addedCount < maxCount) { return CheckFailed, added, addedCount, removed, removedCount; }
          added[addedCount] := rows[i].rpmId;
          assert added[..addedCount + 1] == added[..addedCount] + [rows[i].rpmId];
          addedCount := addedCount + 1;
        } else {
          if !(removedCount < maxCount) { return CheckFailed, added, addedCount, removed, removedCount; }
          removed[removedCount] := rows[i].rpmId;
          assert removed[..removedCount + 1] == removed[..removedCount] + [rows[i].rpmId];
          removedCount := removedCount + 1;
        }
        i := i + 1;
      }
      assert rows[..i] == rows;
    }

    /** db_string_map: entry i of the map is the string with id i + 1. */
    method StringMap(which: Dictionary) returns (rc: Rc, idmap: array<string>)
      modifies this`failures
      ensures rc != CheckFailed && failures == old(failures) + if rc == SqlFailed then 1 else 0
      ensures rc == Ok ==> idmap[..] == Dict(tables, which)
    {
      var dict := Dict(tables, which);
      var count := |dict|;
      idmap := new string[count](_ => "");
      rc := Statement();
      if rc != Ok { return; }
      rc := Statement();
      if rc != Ok { return; }
      var row := 0;
      while row < |dict|
        invariant 0 <= row <= |dict| && rc == Ok && failures == old(failures)
        invariant idmap[..row] == dict[..row]
      {
        var id := row + 1;
        if !(id > 0 && id <= count) { return CheckFailed, idmap; }
        idmap[id - 1] := dict[row];
        row := row + 1;
      }
    }

    /** db_set_auto_flag_byid. */
    method InsertFlag(e: FlagEntry) returns (rc: Rc)
      modifies this`tables, this`failures
      ensures rc == Ok || rc == SqlFailed
      ensures failures == old(failures) + if rc == Ok then 0 else 1
      ensures rc == Ok ==> old(tables).marks.hasFlags
      ensures tables == if rc == Ok then old(tables).(marks := old(tables).marks.(
                                           flags := old(tables).marks.flags + [e]))
                        else old(tables)
    {
      rc := Statement();
      if rc == Ok {
        if tables.marks.hasFlags {
          tables := tables.(marks := tables.marks.(flags := tables.marks.flags + [e]));
        } else {
          rc, failures := SqlFailed, failures + 1;
        }
      }
    }

    /** db_get_auto_flag_byid. */
    method ReadFlag(t: int, n: int) returns (rc: Rc, value: int)
      modifies this`failures
      ensures rc == Ok || rc == SqlFailed
      ensures failures == old(failures) + if rc == Ok then 0 else 1
      ensures rc == Ok ==> tables.marks.hasFlags && value == FlagAt(tables.marks.flags, t, n)
    {
      value := 0;
      rc := Statement();
      if rc == Ok {
        if tables.marks.hasFlags {
          value := FlagAt(tables.marks.flags, t, n);
        } else {
          rc, failures := SqlFailed, failures + 1;
        }
      }
    }
  }

  lemma {:induction false} NewestId(dict: seq<string>, entry: string)
    requires entry !in dict
    ensures IdOf(dict + [entry], entry) == |dict| + 1
  {
    if dict != [] {
      assert (dict + [entry])[1..] == dict[1..] + [entry];
      NewestId(dict[1..], entry);
    }
  }

  /** The first `i` of `nevras` have been entered, and `ids` holds what was found for them. */
  ghost predicate Entered(rpms: seq<string>, dict: seq<string>, nevras: seq<string>, i: nat, ids: seq<int>) {
    && i <= |nevras| == |ids|
    && Grows(rpms, dict, nevras)
    && (forall k :: 0 <= k < i ==> ids[k] == IdOf(dict, nevras[k]))
    && (forall k :: i <= k < |ids| ==> ids[k] == 0)
  }

  /** Entering one more leaves the ids of the others as they were, because NEVRAs are distinct. */
  lemma EnterOne(rpms: seq<string>, dict: seq<string>, later: seq<string>, nevras: seq<string>,
                 i: nat, ids: seq<int>, id: int)
    requires i < |nevras| && Distinct(nevras) && Entered(rpms, dict, nevras, i, ids)
    requires later == dict || (nevras[i] !in dict && later == dict + [nevras[i]])
    requires id == IdOf(later, nevras[i])
    ensures Entered(rpms, later, nevras, i + 1, ids[i := id])
    ensures nevras[i] in later && Covers(dict, nevras[..i]) ==> Covers(later, nevras[..i + 1])
  {
    forall k | 0 <= k < i ensures IdOf(later, nevras[k]) == IdOf(dict, nevras[k]) {
      assert nevras[k] != nevras[i];
      if nevras[k] in dict { IdOfStable(dict, later, nevras[k]); }
    }
    assert nevras[..i + 1] == nevras[..i] + [nevras[i]];
  }

  // ----- reading one transaction back

  /** The rpm ids of the removing rows, or of all other rows. */
  ghost function RpmIds(rows: seq<Item>, removing: bool): seq<int> {
    if rows == [] then []
    else
      var last := rows[|rows| - 1];
      RpmIds(rows[..|rows| - 1], removing) + if (last.kind == RemoveItem) == removing then [last.rpmId] else []
  }

  lemma {:induction false} RpmIdsMembers(rows: seq<Item>, removing: bool)
    ensures forall x :: x in RpmIds(rows, removing) ==>
              exists i :: 0 <= i < |rows| && rows[i].rpmId == x && (rows[i].kind == RemoveItem) == removing
    ensures |RpmIds(rows, removing)| <= |rows|
  {
    if rows != [] {
      var init := rows[..|rows| - 1];
      RpmIdsMembers(init, removing);
      forall x | x in RpmIds(rows, removing)
        ensures exists i :: 0 <= i < |rows| && rows[i].rpmId == x && (rows[i].kind == RemoveItem) == removing
      {
        if x in RpmIds(init, removing) {
          var i :| 0 <= i < |init| && init[i].rpmId == x && (init[i].kind == RemoveItem) == removing;
          assert rows[i].rpmId == x;
        } else {
          assert rows[|rows| - 1].rpmId == x;
        }
      }
    }
  }

  lemma {:induction false} RpmIdsStrict(rows: seq<Item>, removing: bool)
    requires RowsStrict(rows)
    ensures StrictlySorted(RpmIds(rows, removing))
  {
    if rows != [] {
      var init := rows[..|rows| - 1];
      RpmIdsStrict(init, removing);
      RpmIdsMembers(init, removing);
      var ids := RpmIds(init, removing);
      forall j | 0 <= j < |ids| ensures ids[j] < rows[|rows| - 1].rpmId {
        assert ids[j] in ids;
        var i :| 0 <= i < |init| && init[i].rpmId == ids[j] && (init[i].kind == RemoveItem) == removing;
        assert rows[i].rpmId < rows[|rows| - 1].rpmId;
      }
    }
  }

  lemma {:induction false} StrictBound(ids: seq<int>, n: nat)
    requires StrictlySorted(ids) && forall x :: x in ids ==> 0 < x <= n
    ensures |ids| <= n
  {
    if ids != [] {
      var init, last := ids[..|ids| - 1], ids[|ids| - 1];
      assert last in ids;
      forall x | x in init ensures 0 < x <= last - 1 {
        assert x in ids;
      }
      StrictBound(init, last - 1);
    }
  }

  /** A transaction changes at most as many rpms as are known: there is room for the next row. */
  lemma RoomForRow(tables: Tables, t: int, i: nat)
    requires WellFormed(tables) && i < |RowsOf(tables.items, t)|
    ensures |RpmIds(RowsOf(tables.items, t)[..i], false)| < |tables.rpms|
    ensures |RpmIds(RowsOf(tables.items, t)[..i], true)| < |tables.rpms|
  {
    var rows := RowsOf(tables.items, t);
    RowsOfStrict(tables.items, t);
    RowsOfMembers(tables.items, t);
    assert rows[i] in rows && ItemFits(tables, rows[i]);
    assert forall r :: r in rows ==> ItemFits(tables, r);
    forall removing: bool ensures |RpmIds(rows[..i], removing)| < rows[i].rpmId {
      RpmIdsStrict(rows[..i], removing);
      RpmIdsMembers(rows[..i], removing);
      forall x | x in RpmIds(rows[..i], removing) ensures 0 < x <= rows[i].rpmId - 1 {
        var k :| 0 <= k < |rows[..i]| && rows[..i][k].rpmId == x && (rows[..i][k].kind == RemoveItem) == removing;
        assert rows[k] in rows;
      }
      StrictBound(RpmIds(rows[..i], removing), rows[i].rpmId - 1);
    }
  }

  /** The listed lists of a transaction are sorted and consist of exactly its recorded items. */
  lemma ReadDeltaMeans(tables: Tables, t: int)
    requires WellFormed(tables) && 0 < t <= |tables.transactions|
    ensures var rows := RowsOf(tables.items, t);
            && StrictlySorted(RpmIds(rows, false)) && StrictlySorted(RpmIds(rows, true))
            && ToSet(RpmIds(rows, false)) == ItemIds(tables.items, t, AddItem) + ItemIds(tables.items, t, SetItem)
            && ToSet(RpmIds(rows, true)) == ItemIds(tables.items, t, RemoveItem)
  {
    var rows := RowsOf(tables.items, t);
    RowsOfStrict(tables.items, t);
    RowsOfMembers(tables.items, t);
    RpmIdsStrict(rows, false);
    RpmIdsStrict(rows, true);
    RpmIdsAll(rows, false);
    RpmIdsAll(rows, true);
    RowIdsOf(tables.items, t, AddItem);
    RowIdsOf(tables.items, t, SetItem);
    RowIdsOf(tables.items, t, RemoveItem);
  }

  lemma ToSetConcat(a: seq<int>, b: seq<int>)
    ensures ToSet(a + b) == ToSet(a) + ToSet(b)
    ensures ToSet<int>([]) == {} && (|b| == 1 ==> ToSet(b) == {b[0]})
  {
  }

  lemma {:induction false} RpmIdsAll(rows: seq<Item>, removing: bool)
    ensures ToSet(RpmIds(rows, removing))
         == if removing then RowIds(rows, RemoveItem) else RowIds(rows, AddItem) + RowIds(rows, SetItem)
  {
    if rows != [] {
      var init, last := rows[..|rows| - 1], rows[|rows| - 1];
      assert rows == init + [last];
      RpmIdsAll(init, removing);
      RowIdsSnoc(init, last, RemoveItem);
      RowIdsSnoc(init, last, AddItem);
      RowIdsSnoc(init, last, SetItem);
      ToSetConcat(RpmIds(init, removing), if (last.kind == RemoveItem) == removing then [last.rpmId] else []);
    }
  }

  // ----- the NEVRA map

  /** history_get_nevra on a map read by StringMap. */
  function GetNevra(idmap: seq<string>, id: int): Option<string> {
    if id > 0 && id <= |idmap| then Some(idmap[id - 1]) else None
  }

  /** Names and ids determine each other: the map undoes the dictionary and the dictionary undoes the map. */
  lemma NevraMapInverts(dict: seq<string>, nevra: string, id: int)
    requires Distinct(dict)
    ensures GetNevra(dict, id) == Some(nevra) <==> id > 0 && id == IdOf(dict, nevra)
    ensures GetNevra(dict, id) == None <==> !(0 < id <= |dict|)
  {
    if 0 < id <= |dict| { IdOfUnique(dict, id); }
  }
}
