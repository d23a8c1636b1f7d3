/** The tables of the history database as values, and what they mean: which rpm ids were installed
    when a transaction was recorded, and which "auto installed" flags were set then.

    Row ids are 1..n in insertion order: the tables are AUTOINCREMENT and rows are only ever
    appended, and a ROLLBACK takes the id counter back with the rows. */
module HistoryTables {
  import opened Wrappers
  import opened Sequences

  datatype TransKind = Base | Delta
  datatype ItemKind = SetItem | AddItem | RemoveItem

  /** Row t of `transactions` has id t + 1; the timestamp is not part of the model. */
  datatype Transaction = Transaction(cookie: string, cmdline: string, kind: TransKind)
  datatype Item = Item(transId: int, kind: ItemKind, rpmId: int)
  datatype FlagEntry = FlagEntry(transId: int, nameId: int, value: int)

  datatype Tables = Tables(
    rpms: seq<string>,
    hasTransactions: bool,
    transactions: seq<Transaction>,
    items: seq<Item>,
    marks: FlagTables)

  /** The tables `names` and `flag_set`, and whether they have been created yet. */
  datatype FlagTables = FlagTables(hasNames: bool, names: seq<string>, hasFlags: bool, flags: seq<FlagEntry>)

  const EmptyTables := Tables([], false, [], [], FlagTables(false, [], false, []))

  // ----- dictionaries

  /** The id of `entry` in a dictionary table, 0 if it is not there. */
  function IdOf(dict: seq<string>, entry: string): (id: nat)
    ensures id <= |dict|
    ensures id > 0 ==> dict[id - 1] == entry
    ensures id == 0 <==> entry !in dict
  {
    if dict == [] then 0
    else if dict[0] == entry then 1
    else
      var rest := IdOf(dict[1..], entry);
      if rest == 0 then 0 else rest + 1
  }

  lemma IdOfUnique(dict: seq<string>, id: nat)
    requires Distinct(dict) && 0 < id <= |dict|
    ensures IdOf(dict, dict[id - 1]) == id
  {
    assert dict[id - 1] in dict;
  }

  /** Entries keep their ids while a dictionary grows. */
  lemma {:induction false} IdOfStable(dict: seq<string>, grown: seq<string>, entry: string)
    requires dict <= grown && entry in dict
    ensures IdOf(grown, entry) == IdOf(dict, entry)
  {
    if dict[0] != entry {
      assert dict == [dict[0]] + dict[1..];
      IdOfStable(dict[1..], grown[1..], entry);
    }
  }

  /** The NEVRAs that a set of rpm ids stands for. */
  ghost function Nevras(rpms: seq<string>, ids: set<int>): set<string> {
    set id | id in ids && 0 < id <= |rpms| :: rpms[id - 1]
  }

  // ----- reading transaction items

  function InsertRow(row: Item, rows: seq<Item>): seq<Item> {
    if rows == [] || rows[|rows| - 1].rpmId <= row.rpmId then rows + [row]
    else InsertRow(row, rows[..|rows| - 1]) + [rows[|rows| - 1]]
  }

  /** SELECT * FROM trans_items WHERE trans_id = t ORDER BY rpm_id; rows with equal rpm ids come in
      the order of their row ids. */
  function RowsOf(items: seq<Item>, t: int): seq<Item> {
    if items == [] then []
    else
      var last := items[|items| - 1];
      var rows := RowsOf(items[..|items| - 1], t);
      if last.transId == t then InsertRow(last, rows) else rows
  }

  ghost predicate RowsSorted(rows: seq<Item>) {
    forall i, j :: 0 <= i < j < |rows| ==> rows[i].rpmId <= rows[j].rpmId
  }

  lemma {:induction false} InsertRowMembers(row: Item, rows: seq<Item>)
    ensures forall r :: r in InsertRow(row, rows) <==> r == row || r in rows
  {
    if !(rows == [] || rows[|rows| - 1].rpmId <= row.rpmId) {
      var init, last := rows[..|rows| - 1], rows[|rows| - 1];
      assert rows == init + [last];
      InsertRowMembers(row, init);
    }
  }

  lemma {:induction false} InsertRowSorted(row: Item, rows: seq<Item>)
    requires RowsSorted(rows)
    ensures RowsSorted(InsertRow(row, rows))
  {
    if !(rows == [] || rows[|rows| - 1].rpmId <= row.rpmId) {
      var init, last := rows[..|rows| - 1], rows[|rows| - 1];
      InsertRowSorted(row, init);
      InsertRowMembers(row, init);
      var r := InsertRow(row, init);
      forall i | 0 <= i < |r| ensures r[i].rpmId <= last.rpmId { assert r[i] in r; }
    }
  }

  /** The query returns exactly the items of transaction `t`, ordered by rpm id. */
  lemma {:induction false} RowsOfMembers(items: seq<Item>, t: int)
    ensures RowsSorted(RowsOf(items, t))
    ensures forall r :: r in RowsOf(items, t) <==> r in items && r.transId == t
  {
    if items != [] {
      var init, last := items[..|items| - 1], items[|items| - 1];
      assert items == init + [last];
      RowsOfMembers(init, t);
      if last.transId == t {
        InsertRowMembers(last, RowsOf(init, t));
        InsertRowSorted(last, RowsOf(init, t));
      }
    }
  }

  lemma {:induction false} RowsOfAppend(items: seq<Item>, more: seq<Item>, t: int)
    requires forall i :: i in more ==> i.transId != t
    ensures RowsOf(items + more, t) == RowsOf(items, t)
  {
    if more == [] {
      assert items + more == items;
    } else {
      assert (items + more)[..|items + more| - 1] == items + more[..|more| - 1];
      RowsOfAppend(items, more[..|more| - 1], t);
    }
  }

  // ----- replay, defined transaction by transaction

  /** The effect of one row, or None where the code's sanity checks fail. */
  function PlayRow(row: Item, base: bool, mapSize: nat, ids: set<int>): Option<set<int>> {
    if !(0 < row.rpmId <= mapSize) then None
    else match row.kind
      case SetItem => if base then Some(ids + {row.rpmId}) else None
      case AddItem => if base then None else Some(ids + {row.rpmId})
      case RemoveItem => if base then None else Some(ids - {row.rpmId})
  }

  function PlayRows(rows: seq<Item>, base: bool, mapSize: nat, ids: set<int>): Option<set<int>> {
    if rows == [] then Some(ids)
    else match PlayRows(rows[..|rows| - 1], base, mapSize, ids)
      case None => None
      case Some(before) => PlayRow(rows[|rows| - 1], base, mapSize, before)
  }

  predicate IsBase(transactions: seq<Transaction>, t: int) {
    0 < t <= |transactions| && transactions[t - 1].kind == Base
  }

  /** What was installed when transaction `t` was recorded: a baseline says it outright, any other
      transaction changes what its predecessor left. None if there is no baseline or if a row does
      not fit. */
  function Replay(tables: Tables, mapSize: nat, t: int): Option<set<int>>
    decreases if t < 0 then 0 else t
  {
    if t <= 0 then None
    else if IsBase(tables.transactions, t) then PlayRows(RowsOf(tables.items, t), true, mapSize, {})
    else match Replay(tables, mapSize, t - 1)
      case None => None
      case Some(before) => PlayRows(RowsOf(tables.items, t), false, mapSize, before)
  }

  function StateAt(tables: Tables, t: int): Option<set<int>> {
    Replay(tables, |tables.rpms|, t)
  }

  /** A row that does not fit makes the whole transaction unreadable. */
  lemma {:induction false} PlayRowsFails(rows: seq<Item>, k: nat, base: bool, mapSize: nat, ids: set<int>)
    requires k <= |rows| && PlayRows(rows[..k], base, mapSize, ids) == None
    ensures PlayRows(rows, base, mapSize, ids) == None
  {
    if k == |rows| {
      assert rows[..k] == rows;
    } else {
      assert rows[..|rows| - 1][..k] == rows[..k];
      PlayRowsFails(rows[..|rows| - 1], k, base, mapSize, ids);
    }
  }

  ghost predicate RowsFit(rows: seq<Item>, base: bool, mapSize: nat) {
    forall r :: r in rows ==> 0 < r.rpmId <= mapSize && (r.kind == SetItem <==> base)
  }

  ghost predicate RowsStrict(rows: seq<Item>) {
    forall i, j :: 0 <= i < j < |rows| ==> rows[i].rpmId < rows[j].rpmId
  }

  ghost function RowIds(rows: seq<Item>, kind: ItemKind): set<int> {
    set r | r in rows && r.kind == kind :: r.rpmId
  }

  /** Playing succeeds exactly on rows that fit, ... */
  lemma {:induction false} PlayRowsSucceeds(rows: seq<Item>, base: bool, mapSize: nat, ids: set<int>)
    ensures PlayRows(rows, base, mapSize, ids).Some? <==> RowsFit(rows, base, mapSize)
  {
    if rows != [] {
      var init, last := rows[..|rows| - 1], rows[|rows| - 1];
      assert rows == init + [last];
      PlayRowsSucceeds(init, base, mapSize, ids);
    }
  }

  /** ... and then, for distinct ids, yields the old set without the removed and with the added ids. */
  lemma {:induction false} PlayRowsResult(rows: seq<Item>, base: bool, mapSize: nat, ids: set<int>)
    requires RowsFit(rows, base, mapSize) && RowsStrict(rows)
    ensures PlayRows(rows, base, mapSize, ids)
         == Some(Effect(ids, RowIds(rows, RemoveItem), RowIds(rows, AddItem), RowIds(rows, SetItem)))
  {
    if rows == [] {
      assert forall kind :: RowIds(rows, kind) == {};
      assert Effect(ids, {}, {}, {}) == ids;
    } else {
      var init, last := rows[..|rows| - 1], rows[|rows| - 1];
      assert rows == init + [last];
      assert RowsFit(init, base, mapSize) && RowsStrict(init);
      PlayRowsResult(init, base, mapSize, ids);
      assert last in rows;
      PlayRowsSnoc(init, last, base, mapSize, ids);
    }
  }

  lemma PlayRowsSnoc(init: seq<Item>, last: Item, base: bool, mapSize: nat, ids: set<int>)
    requires RowsStrict(init + [last])
    requires 0 < last.rpmId <= mapSize && (last.kind == SetItem <==> base)
    requires PlayRows(init, base, mapSize, ids)
          == Some(Effect(ids, RowIds(init, RemoveItem), RowIds(init, AddItem), RowIds(init, SetItem)))
    ensures PlayRows(init + [last], base, mapSize, ids)
         == Some(Effect(ids, RowIds(init + [last], RemoveItem), RowIds(init + [last], AddItem),
                        RowIds(init + [last], SetItem)))
  {
    assert (init + [last])[..|init + [last]| - 1] == init;
    RowIdsSnoc(init, last, RemoveItem);
    RowIdsSnoc(init, last, AddItem);
    RowIdsSnoc(init, last, SetItem);
    LastIsNew(init, last);
    RowEffect(last, base, mapSize, ids, RowIds(init, RemoveItem), RowIds(init, AddItem), RowIds(init, SetItem));
  }

  /** Playing one more row, of any kind, on what the rows before it have made. */
  lemma RowEffect(row: Item, base: bool, mapSize: nat, ids: set<int>,
                  removed: set<int>, added: set<int>, sets: set<int>)
    requires 0 < row.rpmId <= mapSize && (row.kind == SetItem <==> base)
    requires row.rpmId !in added && row.rpmId !in sets
    ensures PlayRow(row, base, mapSize, Effect(ids, removed, added, sets))
         == Some(Effect(ids, IfKind(removed, row, RemoveItem), IfKind(added, row, AddItem),
                        IfKind(sets, row, SetItem)))
  {
    EffectSnoc(ids, removed, added, sets, row.rpmId);
  }

  ghost function IfKind(ids: set<int>, row: Item, kind: ItemKind): set<int> {
    if row.kind == kind then ids + {row.rpmId} else ids
  }

  ghost function Effect(ids: set<int>, removed: set<int>, added: set<int>, sets: set<int>): set<int> {
    (ids - removed) + added + sets
  }

  lemma EffectSnoc(ids: set<int>, removed: set<int>, added: set<int>, sets: set<int>, x: int)
    requires x !in added && x !in sets
    ensures Effect(ids, removed + {x}, added, sets) == Effect(ids, removed, added, sets) - {x}
    ensures Effect(ids, removed, added + {x}, sets) == Effect(ids, removed, added, sets) + {x}
    ensures Effect(ids, removed, added, sets + {x}) == Effect(ids, removed, added, sets) + {x}
  {
  }

  lemma LastIsNew(init: seq<Item>, last: Item)
    requires RowsStrict(init + [last])
    ensures forall kind :: last.rpmId !in RowIds(init, kind)
  {
    RowsBelowLast(init, last);
  }

  lemma RowIdsSnoc(init: seq<Item>, last: Item, kind: ItemKind)
    ensures RowIds(init + [last], kind) == IfKind(RowIds(init, kind), last, kind)
  {
    forall x ensures x in RowIds(init + [last], kind) <==> x in IfKind(RowIds(init, kind), last, kind) {
      if x in RowIds(init, kind) {
        var r :| r in init && r.kind == kind && r.rpmId == x;
        assert r in init + [last];
      }
      if last.kind == kind && x == last.rpmId { assert last in init + [last]; }
    }
  }

  // ----- rows that are not read

  lemma PlayRowOn(row: Item, base: bool, mapSize: nat, before: set<int>, x: int)
    requires 0 < row.rpmId <= mapSize && (row.kind == SetItem <==> base)
    ensures PlayRow(row, base, mapSize, before).Some?
    ensures x in PlayRow(row, base, mapSize, before).value <==>
              if x == row.rpmId then row.kind != RemoveItem else x in before
  {
  }

  /** What playing rows makes of one id: the row that names it decides. */
  ghost predicate Decided(rows: seq<Item>, ids: set<int>, later: set<int>, x: int) {
    && (forall r :: r in rows && r.rpmId == x ==> (x in later <==> r.kind != RemoveItem))
    && ((forall r :: r in rows ==> r.rpmId != x) ==> (x in later <==> x in ids))
  }

  lemma {:induction false} PlayedId(rows: seq<Item>, base: bool, mapSize: nat, ids: set<int>, x: int)
    requires RowsFit(rows, base, mapSize) && RowsStrict(rows)
    ensures PlayRows(rows, base, mapSize, ids).Some?
    ensures Decided(rows, ids, PlayRows(rows, base, mapSize, ids).value, x)
  {
    PlayRowsSucceeds(rows, base, mapSize, ids);
    if rows != [] {
      var init, last := rows[..|rows| - 1], rows[|rows| - 1];
      assert rows == init + [last];
      RowsBelowLast(init, last);
      PlayedId(init, base, mapSize, ids, x);
      assert last in rows;
      var before := PlayRows(init, base, mapSize, ids).value;
      PlayRowOn(last, base, mapSize, before, x);
      DecidedSnoc(init, last, ids, before, PlayRow(last, base, mapSize, before).value, x);
    }
  }

  lemma DecidedSnoc(init: seq<Item>, last: Item, ids: set<int>, before: set<int>, later: set<int>, x: int)
    requires Decided(init, ids, before, x) && forall r :: r in init ==> r.rpmId < last.rpmId
    requires x in later <==> if x == last.rpmId then last.kind != RemoveItem else x in before
    ensures Decided(init + [last], ids, later, x)
  {
    assert forall r :: r in init + [last] <==> r in init || r == last;
  }

  /** A read that ends early without anybody noticing leaves rows out. The replay is the same exactly if these rows
      would not have changed anything. */
  lemma CutReplay(rows: seq<Item>, k: nat, base: bool, mapSize: nat, ids: set<int>)
    requires RowsFit(rows, base, mapSize) && RowsStrict(rows) && k <= |rows|
    ensures PlayRows(rows[..k], base, mapSize, ids).Some?
    ensures PlayRows(rows[..k], base, mapSize, ids) == PlayRows(rows, base, mapSize, ids) <==>
              forall i :: k <= i < |rows| ==> (rows[i].rpmId in ids <==> rows[i].kind != RemoveItem)
  {
    PlayRowsSucceeds(rows, base, mapSize, ids);
    PlayRowsSucceeds(rows[..k], base, mapSize, ids);
    var all, cut := PlayRows(rows, base, mapSize, ids).value, PlayRows(rows[..k], base, mapSize, ids).value;
    forall i | k <= i < |rows|
      ensures rows[i].rpmId in all <==> rows[i].kind != RemoveItem
      ensures rows[i].rpmId in cut <==> rows[i].rpmId in ids
    {
      PlayedId(rows, base, mapSize, ids, rows[i].rpmId);
      PlayedId(rows[..k], base, mapSize, ids, rows[i].rpmId);
      NotBefore(rows, k, i);
      assert rows[i] in rows;
    }
    if forall i :: k <= i < |rows| ==> (rows[i].rpmId in ids <==> rows[i].kind != RemoveItem) {
      forall x ensures x in all <==> x in cut {
        if i :| k <= i < |rows| && rows[i].rpmId == x {
        } else {
          UnreadElsewhere(rows, k, base, mapSize, ids, x);
        }
      }
      assert all == cut;
    }
  }

  lemma NotBefore(rows: seq<Item>, k: nat, i: nat)
    requires RowsStrict(rows) && k <= i < |rows|
    ensures forall r :: r in rows[..k] ==> r.rpmId != rows[i].rpmId
  {
  }

  lemma UnreadElsewhere(rows: seq<Item>, k: nat, base: bool, mapSize: nat, ids: set<int>, x: int)
    requires RowsFit(rows, base, mapSize) && RowsStrict(rows) && k <= |rows|
    requires forall i :: k <= i < |rows| ==> rows[i].rpmId != x
    ensures PlayRows(rows, base, mapSize, ids).Some? && PlayRows(rows[..k], base, mapSize, ids).Some?
    ensures x in PlayRows(rows, base, mapSize, ids).value <==> x in PlayRows(rows[..k], base, mapSize, ids).value
  {
    PlayedId(rows, base, mapSize, ids, x);
    PlayedId(rows[..k], base, mapSize, ids, x);
    SameBefore(rows, k, x);
  }

  lemma SameBefore(rows: seq<Item>, k: nat, x: int)
    requires k <= |rows| && forall i :: k <= i < |rows| ==> rows[i].rpmId != x
    ensures forall r: Item :: r.rpmId == x ==> (r in rows <==> r in rows[..k])
  {
    forall r: Item | r.rpmId == x && r in rows ensures r in rows[..k] {
      var i :| 0 <= i < |rows| && rows[i] == r;
      assert rows[..k][i] == r;
    }
  }

  // ----- well-formed tables

  ghost predicate ItemFits(tables: Tables, i: Item) {
    && 0 < i.transId <= |tables.transactions|
    && 0 < i.rpmId <= |tables.rpms|
    && (i.kind == SetItem <==> IsBase(tables.transactions, i.transId))
  }

  ghost predicate OneItemPerId(items: seq<Item>) {
    forall i, j :: 0 <= i < j < |items| && items[i].transId == items[j].transId
                   ==> items[i].rpmId != items[j].rpmId
  }

  ghost predicate WellFormed(tables: Tables) {
    && Distinct(tables.rpms)
    && (!tables.hasTransactions ==> tables.transactions == [] && tables.items == [])
    && (tables.transactions != [] ==> tables.transactions[0].kind == Base)
    && (forall i :: i in tables.items ==> ItemFits(tables, i))
    && OneItemPerId(tables.items)
  }

  ghost function ItemIds(items: seq<Item>, t: int, kind: ItemKind): set<int> {
    set i | i in items && i.transId == t && i.kind == kind :: i.rpmId
  }

  lemma {:induction false} RowsOfStrict(items: seq<Item>, t: int)
    requires OneItemPerId(items)
    ensures RowsStrict(RowsOf(items, t))
  {
    if items != [] {
      var init, last := items[..|items| - 1], items[|items| - 1];
      assert items == init + [last];
      RowsOfStrict(init, t);
      RowsOfMembers(init, t);
      if last.transId == t {
        forall r | r in RowsOf(init, t) ensures r.rpmId != last.rpmId {
          var k :| 0 <= k < |init| && init[k] == r;
          assert items[k].transId == items[|items| - 1].transId;
        }
        InsertRowStrict(last, RowsOf(init, t));
      }
    }
  }

  lemma {:induction false} InsertRowStrict(row: Item, rows: seq<Item>)
    requires RowsStrict(rows) && forall r :: r in rows ==> r.rpmId != row.rpmId
    ensures RowsStrict(InsertRow(row, rows))
  {
    if rows != [] {
      var init, last := rows[..|rows| - 1], rows[|rows| - 1];
      assert rows == init + [last];
      assert last in rows;
      RowsBelowLast(init, last);
      if last.rpmId > row.rpmId {
        InsertRowStrict(row, init);
        InsertRowMembers(row, init);
        RowsStrictSnoc(InsertRow(row, init), last);
      } else {
        RowsStrictSnoc(rows, row);
      }
    }
  }

  lemma RowsBelowLast(init: seq<Item>, last: Item)
    requires RowsStrict(init + [last])
    ensures RowsStrict(init) && forall r :: r in init ==> r.rpmId < last.rpmId
  {
    var rows := init + [last];
    forall r | r in init ensures r.rpmId < last.rpmId {
      var k :| 0 <= k < |init| && init[k] == r;
      assert rows[k].rpmId < rows[|init|].rpmId;
    }
    forall i, j | 0 <= i < j < |init| ensures init[i].rpmId < init[j].rpmId {
      assert rows[i].rpmId < rows[j].rpmId;
    }
  }

  lemma RowsStrictSnoc(rows: seq<Item>, last: Item)
    requires RowsStrict(rows) && forall r :: r in rows ==> r.rpmId < last.rpmId
    ensures RowsStrict(rows + [last])
  {
    forall i | 0 <= i < |rows| ensures rows[i].rpmId < last.rpmId { assert rows[i] in rows; }
  }

  lemma RowIdsOf(items: seq<Item>, t: int, kind: ItemKind)
    ensures RowIds(RowsOf(items, t), kind) == ItemIds(items, t, kind)
  {
    RowsOfMembers(items, t);
  }

  /** In well-formed tables every recorded transaction replays, and to this set. */
  lemma {:induction false} StateAtFormula(tables: Tables, t: int)
    requires WellFormed(tables) && 0 < t <= |tables.transactions|
    ensures StateAt(tables, t).Some?
    ensures IsBase(tables.transactions, t) ==> StateAt(tables, t) == Some(ItemIds(tables.items, t, SetItem))
    ensures !IsBase(tables.transactions, t) ==>
              t > 1 && StateAt(tables, t - 1).Some?
              && StateAt(tables, t).value == (StateAt(tables, t - 1).value - ItemIds(tables.items, t, RemoveItem))
                                             + ItemIds(tables.items, t, AddItem)
    decreases t
  {
    var rows := RowsOf(tables.items, t);
    RowsOfMembers(tables.items, t);
    RowsOfStrict(tables.items, t);
    forall k ensures RowIds(rows, k) == ItemIds(tables.items, t, k) { RowIdsOf(tables.items, t, k); }
    var base := IsBase(tables.transactions, t);
    assert forall r :: r in rows ==> ItemFits(tables, r);
    if base {
      assert RowIds(rows, AddItem) == {} && RowIds(rows, RemoveItem) == {};
      PlayRowsResult(rows, true, |tables.rpms|, {});
      assert ({} - RowIds(rows, RemoveItem)) + RowIds(rows, AddItem) + RowIds(rows, SetItem) == RowIds(rows, SetItem);
    } else {
      assert t > 1;
      StateAtFormula(tables, t - 1);
      assert RowIds(rows, SetItem) == {};
      var before := StateAt(tables, t - 1).value;
      PlayRowsResult(rows, false, |tables.rpms|, before);
      assert (before - RowIds(rows, RemoveItem)) + RowIds(rows, AddItem) + {}
          == (before - RowIds(rows, RemoveItem)) + RowIds(rows, AddItem);
    }
  }

  /** Replays stay inside the dictionary. */
  lemma {:induction false} StateAtInRange(tables: Tables, t: int)
    requires WellFormed(tables) && 0 < t <= |tables.transactions|
    ensures StateAt(tables, t).Some?
    ensures forall id :: id in StateAt(tables, t).value ==> 0 < id <= |tables.rpms|
    decreases t
  {
    StateAtFormula(tables, t);
    assert forall i :: i in tables.items ==> ItemFits(tables, i);
    if !IsBase(tables.transactions, t) { StateAtInRange(tables, t - 1); }
  }

  /** `later` was reached from `tables` by growing the dictionary and appending transactions. */
  ghost predicate Appended(tables: Tables, later: Tables) {
    && tables.rpms <= later.rpms
    && tables.transactions <= later.transactions
    && tables.items <= later.items
    && forall k :: |tables.items| <= k < |later.items| ==> later.items[k].transId > |tables.transactions|
  }

  /** Appending changes no replay of a transaction that was there before. */
  lemma {:induction false} ReplayAppendOnly(tables: Tables, later: Tables, t: int)
    requires Appended(tables, later) && t <= |tables.transactions| && StateAt(tables, t).Some?
    ensures StateAt(later, t) == StateAt(tables, t)
    decreases if t < 0 then 0 else t
  {
    var more := later.items[|tables.items|..];
    assert later.items == tables.items + more;
    RowsOfAppend(tables.items, more, t);
    var rows := RowsOf(tables.items, t);
    assert IsBase(later.transactions, t) == IsBase(tables.transactions, t);
    if IsBase(tables.transactions, t) {
      PlayRowsWider(rows, true, |tables.rpms|, |later.rpms|, {});
    } else {
      ReplayAppendOnly(tables, later, t - 1);
      PlayRowsWider(rows, false, |tables.rpms|, |later.rpms|, StateAt(tables, t - 1).value);
    }
  }

  lemma {:induction false} PlayRowsWider(rows: seq<Item>, base: bool, m: nat, m': nat, ids: set<int>)
    requires m <= m' && PlayRows(rows, base, m, ids).Some?
    ensures PlayRows(rows, base, m', ids) == PlayRows(rows, base, m, ids)
  {
    if rows != [] { PlayRowsWider(rows[..|rows| - 1], base, m, m', ids); }
  }
}
