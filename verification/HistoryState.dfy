/** The state of the history store as one value, the recorded effect of its operations, and why every
    recorded transaction keeps replaying to what was installed when it was recorded. */
module HistoryState {
  import opened Wrappers
  import opened Sequences
  import opened SortedIds
  import opened HistoryTables

  /** The rpm database as the store sees it: its cookie and the NEVRAs of the installed packages. */
  datatype Rpmdb = Rpmdb(cookie: string, nevras: seq<string>)

  /** The database together with struct history_ctx. */
  datatype State = State(tables: Tables, ids: seq<int>, cookie: Option<string>, transId: int)

  function LookUp(dict: seq<string>, nevras: seq<string>): (ids: seq<int>)
    ensures |ids| == |nevras| && forall i :: 0 <= i < |ids| ==> ids[i] == IdOf(dict, nevras[i])
  {
    seq(|nevras|, i requires 0 <= i < |nevras| => IdOf(dict, nevras[i]))
  }

  /** The sorted id list of a snapshot; an entry missing from the dictionary shows up as id 0. */
  function CurrentIds(dict: seq<string>, nevras: seq<string>): seq<int> {
    Ascending(LookUp(dict, nevras))
  }

  function ItemsFor(t: int, kind: ItemKind, ids: seq<int>): (items: seq<Item>)
    ensures |items| == |ids| && forall i :: 0 <= i < |ids| ==> items[i] == Item(t, kind, ids[i])
  {
    seq(|ids|, i requires 0 <= i < |ids| => Item(t, kind, ids[i]))
  }

  ghost function NewId(tables: Tables): nat {
    |tables.transactions| + 1
  }

  ghost function AddRecord(tables: Tables, tr: Transaction, items: seq<Item>): Tables {
    tables.(hasTransactions := true, transactions := tables.transactions + [tr], items := tables.items + items)
  }

  /** What is on record after a successful history_update_state that found the cookie changed, `dict`
      being the rpms table after the snapshot was entered. */
  ghost function AfterUpdate(s: State, dict: seq<string>, r: Rpmdb, cmdline: string): State {
    var now := CurrentIds(dict, r.nevras);
    var t := NewId(s.tables);
    State(AddRecord(s.tables.(rpms := dict), Transaction(r.cookie, cmdline, Delta),
                    ItemsFor(t, AddItem, OnlyIn(now, s.ids)) + ItemsFor(t, RemoveItem, OnlyIn(s.ids, now))),
          now, Some(r.cookie), t)
  }

  ghost function AfterRecord(s: State): State
    requires s.cookie.Some?
  {
    var t := NewId(s.tables);
    s.(tables := AddRecord(s.tables, Transaction(s.cookie.value, "(set)", Base), ItemsFor(t, SetItem, s.ids)),
       transId := t)
  }

  ghost function AfterAddTransaction(s: State, cmdline: string): State
    requires s.cookie.Some?
  {
    s.(tables := AddRecord(s.tables, Transaction(s.cookie.value, cmdline, Delta), []),
       transId := NewId(s.tables))
  }

  ghost predicate Covers(dict: seq<string>, nevras: seq<string>) {
    forall n :: n in nevras ==> n in dict
  }

  /** The context is at the newest transaction, as after opening the store. */
  ghost predicate Newest(s: State) {
    s.transId == |s.tables.transactions| > 0 && s.cookie == Some(s.tables.transactions[s.transId - 1].cookie)
  }

  /** The context describes the newest transaction. */
  ghost predicate AtHead(s: State) {
    && Newest(s)
    && StrictlySorted(s.ids)
    && StateAt(s.tables, s.transId) == Some(ToSet(s.ids))
  }

  ghost function Names(nevras: seq<string>): set<string> {
    set n | n in nevras
  }

  // ----- the id list of a snapshot

  /** A covered snapshot with distinct NEVRAs has a strictly sorted id list inside the dictionary that
      stands for exactly its NEVRAs. */
  lemma SnapshotIds(dict: seq<string>, nevras: seq<string>)
    requires Distinct(dict) && Distinct(nevras) && Covers(dict, nevras)
    ensures StrictlySorted(CurrentIds(dict, nevras))
    ensures forall id :: id in CurrentIds(dict, nevras) ==> 0 < id <= |dict|
    ensures Nevras(dict, ToSet(CurrentIds(dict, nevras))) == Names(nevras)
  {
    var ids := LookUp(dict, nevras);
    forall i, j | 0 <= i < j < |ids| ensures ids[i] != ids[j] {
      assert nevras[i] in dict && nevras[j] in dict;
    }
    AscendingStrict(ids);
    AscendingMembers(ids);
    forall id | id in ids ensures 0 < id <= |dict| {
      var i :| 0 <= i < |ids| && ids[i] == id;
      assert nevras[i] in nevras;
    }
    forall n ensures n in Nevras(dict, ToSet(CurrentIds(dict, nevras))) <==> n in Names(nevras) {
      SnapshotName(dict, nevras, n);
    }
  }

  lemma SnapshotName(dict: seq<string>, nevras: seq<string>, n: string)
    requires Distinct(dict) && Distinct(nevras) && Covers(dict, nevras)
    ensures n in Nevras(dict, ToSet(CurrentIds(dict, nevras))) <==> n in Names(nevras)
  {
    var ids := LookUp(dict, nevras);
    AscendingMembers(ids);
    if n in nevras {
      var i :| 0 <= i < |nevras| && nevras[i] == n;
      assert ids[i] in ToSet(CurrentIds(dict, nevras)) && dict[ids[i] - 1] == n;
    }
    if n in Nevras(dict, ToSet(CurrentIds(dict, nevras))) {
      var id :| id in ToSet(CurrentIds(dict, nevras)) && 0 < id <= |dict| && dict[id - 1] == n;
      assert id in ids;
      var i :| 0 <= i < |ids| && ids[i] == id;
      assert nevras[i] in nevras;
    }
  }

  lemma SnapshotHole(dict: seq<string>, nevras: seq<string>)
    ensures 0 in CurrentIds(dict, nevras) <==> !Covers(dict, nevras)
  {
    var ids := LookUp(dict, nevras);
    AscendingMembers(ids);
    if !Covers(dict, nevras) {
      var n :| n in nevras && n !in dict;
      var i :| 0 <= i < |nevras| && nevras[i] == n;
      assert ids[i] == 0;
    }
    if 0 in ids {
      var i :| 0 <= i < |ids| && ids[i] == 0;
      assert nevras[i] in nevras;
    }
  }

  // ----- recording keeps the tables well formed

  lemma ItemsForIds(t: int, kind: ItemKind, ids: seq<int>, k: ItemKind)
    ensures ItemIds(ItemsFor(t, kind, ids), t, k) == if k == kind then ToSet(ids) else {}
  {
    var items := ItemsFor(t, kind, ids);
    forall x ensures x in ItemIds(items, t, k) <==> k == kind && x in ids {
      if k == kind && x in ids {
        var i :| 0 <= i < |ids| && ids[i] == x;
        assert items[i] in items;
      }
    }
  }

  lemma ItemsForMembers(t: int, kind: ItemKind, ids: seq<int>)
    ensures forall i :: i in ItemsFor(t, kind, ids) ==> i.transId == t && i.kind == kind && i.rpmId in ids
  {
  }

  lemma ItemIdsAppend(a: seq<Item>, b: seq<Item>, t: int, k: ItemKind)
    ensures ItemIds(a + b, t, k) == ItemIds(a, t, k) + ItemIds(b, t, k)
  {
    forall x ensures x in ItemIds(a + b, t, k) <==> x in ItemIds(a, t, k) + ItemIds(b, t, k) {
      if x in ItemIds(a, t, k) { var i :| i in a && i.transId == t && i.kind == k && i.rpmId == x; assert i in a + b; }
      if x in ItemIds(b, t, k) { var i :| i in b && i.transId == t && i.kind == k && i.rpmId == x; assert i in a + b; }
    }
  }

  /** Appending one transaction with fitting items keeps the tables well formed and append-only. */
  lemma RecordKeeps(tables: Tables, dict: seq<string>, tr: Transaction, items: seq<Item>)
    requires WellFormed(tables) && tables.rpms <= dict && Distinct(dict)
    requires tables.transactions == [] ==> tr.kind == Base
    requires OneItemPerId(items)
    requires forall i :: i in items ==>
               i.transId == NewId(tables) && 0 < i.rpmId <= |dict| && (i.kind == SetItem <==> tr.kind == Base)
    ensures WellFormed(AddRecord(tables.(rpms := dict), tr, items))
    ensures Appended(tables, AddRecord(tables.(rpms := dict), tr, items))
  {
    var later := AddRecord(tables.(rpms := dict), tr, items);
    forall i | i in later.items ensures ItemFits(later, i) {
      if i in tables.items { assert ItemFits(tables, i); }
    }
    OneItemAppend(tables.items, items, NewId(tables)) by {
      forall i | i in tables.items ensures i.transId < NewId(tables) { assert ItemFits(tables, i); }
    }
  }

  lemma OneItemAppend(a: seq<Item>, b: seq<Item>, t: int)
    requires OneItemPerId(a) && OneItemPerId(b)
    requires (forall i :: i in a ==> i.transId < t) && (forall i :: i in b ==> i.transId == t)
    ensures OneItemPerId(a + b)
  {
    var ab := a + b;
    forall k | 0 <= k < |ab| ensures ab[k].transId < t <==> k < |a| {
      if k < |a| { assert a[k] in a; } else { assert b[k - |a|] in b; }
    }
    forall i, j | 0 <= i < j < |ab| && ab[i].transId == ab[j].transId ensures ab[i].rpmId != ab[j].rpmId {
      if i >= |a| { assert b[i - |a|].rpmId != b[j - |a|].rpmId; }
    }
  }

  lemma OneItemDiff(t: int, added: seq<int>, removed: seq<int>)
    requires StrictlySorted(added) && StrictlySorted(removed) && ToSet(added) !! ToSet(removed)
    ensures OneItemPerId(ItemsFor(t, AddItem, added) + ItemsFor(t, RemoveItem, removed))
  {
    var items := ItemsFor(t, AddItem, added) + ItemsFor(t, RemoveItem, removed);
    forall i, j | 0 <= i < j < |items| ensures items[i].rpmId != items[j].rpmId {
      if i < |added| <= j {
        assert added[i] in ToSet(added) && removed[j - |added|] in ToSet(removed);
      }
    }
  }

  lemma NoItemsYet(tables: Tables, k: ItemKind)
    requires WellFormed(tables)
    ensures ItemIds(tables.items, NewId(tables), k) == {}
  {
    assert forall i :: i in tables.items ==> ItemFits(tables, i);
  }

  /** Every replay that was possible still gives the same set. */
  ghost predicate KeepsReplays(tables: Tables, later: Tables) {
    forall t :: 0 < t <= |tables.transactions| ==> StateAt(later, t) == StateAt(tables, t)
  }

  lemma AppendedKeepsReplays(tables: Tables, later: Tables)
    requires WellFormed(tables) && Appended(tables, later)
    ensures KeepsReplays(tables, later)
  {
    forall t | 0 < t <= |tables.transactions| ensures StateAt(later, t) == StateAt(tables, t) {
      StateAtFormula(tables, t);
      ReplayAppendOnly(tables, later, t);
    }
  }

  /** What an update records, whatever the ids of the context are: the ids that only they have are removed from the
      newest state, and the ids that only the snapshot has are added. */
  lemma UpdateReplays(s: State, dict: seq<string>, r: Rpmdb, cmdline: string)
    requires WellFormed(s.tables) && s.tables.transactions != [] && FitIds(s.ids, |s.tables.rpms|)
    requires s.tables.rpms <= dict && Distinct(dict) && Distinct(r.nevras) && Covers(dict, r.nevras)
    ensures var s', n := AfterUpdate(s, dict, r, cmdline), |s.tables.transactions|;
            && WellFormed(s'.tables) && Newest(s') && FitIds(s'.ids, |dict|)
            && Appended(s.tables, s'.tables) && KeepsReplays(s.tables, s'.tables)
            && StateAt(s.tables, n).Some?
            && StateAt(s'.tables, s'.transId)
               == Some((StateAt(s.tables, n).value - (ToSet(s.ids) - ToSet(s'.ids))) + (ToSet(s'.ids) - ToSet(s.ids)))
  {
    var s' := AfterUpdate(s, dict, r, cmdline);
    var now, t := s'.ids, s'.transId;
    var added, removed := OnlyIn(now, s.ids), OnlyIn(s.ids, now);
    var adds, removes := ItemsFor(t, AddItem, added), ItemsFor(t, RemoveItem, removed);
    SnapshotIds(dict, r.nevras);
    DiffIsSetDifference(s.ids, now);
    DiffFits(t, s.ids, now, |dict|);
    RecordKeeps(s.tables, dict, Transaction(r.cookie, cmdline, Delta), adds + removes);
    AppendedKeepsReplays(s.tables, s'.tables);
    NewDeltaState(s.tables, s'.tables, t, adds, removes, added, removed);
  }

  /** Sorted ids inside a dictionary. */
  ghost predicate FitIds(ids: seq<int>, count: nat) {
    StrictlySorted(ids) && forall id :: id in ids ==> 0 < id <= count
  }

  lemma DiffFits(t: int, ids: seq<int>, now: seq<int>, count: nat)
    requires FitIds(ids, count) && FitIds(now, count)
    ensures var items := ItemsFor(t, AddItem, OnlyIn(now, ids)) + ItemsFor(t, RemoveItem, OnlyIn(ids, now));
            && OneItemPerId(items)
            && forall i :: i in items ==> i.transId == t && 0 < i.rpmId <= count && i.kind != SetItem
  {
    var added, removed := OnlyIn(now, ids), OnlyIn(ids, now);
    DiffIsSetDifference(ids, now);
    OnlyInMembers(now, ids);
    OnlyInMembers(ids, now);
    OneItemDiff(t, added, removed);
    ItemsForMembers(t, AddItem, added);
    ItemsForMembers(t, RemoveItem, removed);
    var adds, removes := ItemsFor(t, AddItem, added), ItemsFor(t, RemoveItem, removed);
    forall i: Item | i in adds + removes ensures i.transId == t && 0 < i.rpmId <= count && i.kind != SetItem {
      assert i in adds || i in removes;
    }
  }

  /** The heart of recording: after an update the new transaction replays to the ids of the snapshot, and
      these stand for its NEVRAs; every older transaction replays as before. */
  lemma UpdateRecords(s: State, dict: seq<string>, r: Rpmdb, cmdline: string)
    requires WellFormed(s.tables) && AtHead(s)
    requires s.tables.rpms <= dict && Distinct(dict) && Distinct(r.nevras) && Covers(dict, r.nevras)
    ensures var s' := AfterUpdate(s, dict, r, cmdline);
            && WellFormed(s'.tables) && AtHead(s')
            && Appended(s.tables, s'.tables) && KeepsReplays(s.tables, s'.tables)
            && Nevras(dict, ToSet(s'.ids)) == Names(r.nevras)
  {
    var s' := AfterUpdate(s, dict, r, cmdline);
    HeadFits(s);
    UpdateReplays(s, dict, r, cmdline);
    SnapshotIds(dict, r.nevras);
    assert (ToSet(s.ids) - (ToSet(s.ids) - ToSet(s'.ids))) + (ToSet(s'.ids) - ToSet(s.ids)) == ToSet(s'.ids);
  }

  lemma HeadFits(s: State)
    requires WellFormed(s.tables) && AtHead(s)
    ensures FitIds(s.ids, |s.tables.rpms|)
  {
    StateAtInRange(s.tables, s.transId);
    assert forall id :: id in s.ids ==> id in ToSet(s.ids);
  }

  lemma NewDeltaState(tables: Tables, later: Tables, t: int, adds: seq<Item>, removes: seq<Item>,
                      added: seq<int>, removed: seq<int>)
    requires WellFormed(tables) && WellFormed(later) && KeepsReplays(tables, later)
    requires t == NewId(tables) == |later.transactions| > 1 && !IsBase(later.transactions, t)
    requires adds == ItemsFor(t, AddItem, added) && removes == ItemsFor(t, RemoveItem, removed)
    requires later.items == tables.items + (adds + removes)
    ensures StateAt(tables, t - 1).Some?
    ensures StateAt(later, t) == Some((StateAt(tables, t - 1).value - ToSet(removed)) + ToSet(added))
  {
    StateAtFormula(tables, t - 1);
    StateAtFormula(later, t);
    DeltaItemIds(tables, t, added, removed);
  }

  lemma DeltaItemIds(tables: Tables, t: int, added: seq<int>, removed: seq<int>)
    requires WellFormed(tables) && t == NewId(tables)
    ensures var items := tables.items + (ItemsFor(t, AddItem, added) + ItemsFor(t, RemoveItem, removed));
            ItemIds(items, t, AddItem) == ToSet(added) && ItemIds(items, t, RemoveItem) == ToSet(removed)
  {
    var adds, removes := ItemsFor(t, AddItem, added), ItemsFor(t, RemoveItem, removed);
    forall k ensures ItemIds(tables.items + (adds + removes), t, k) == ItemIds(adds, t, k) + ItemIds(removes, t, k) {
      NoItemsYet(tables, k);
      ItemIdsAppend(tables.items, adds + removes, t, k);
      ItemIdsAppend(adds, removes, t, k);
    }
    ItemsForIds(t, AddItem, added, AddItem);
    ItemsForIds(t, AddItem, added, RemoveItem);
    ItemsForIds(t, RemoveItem, removed, AddItem);
    ItemsForIds(t, RemoveItem, removed, RemoveItem);
  }

  /** A snapshot entry whose dictionary insert was lost makes the new transaction unreadable, and
      nothing else does. */
  lemma UpdateReadable(s: State, dict: seq<string>, r: Rpmdb, cmdline: string)
    requires WellFormed(s.tables) && AtHead(s)
    requires s.tables.rpms <= dict && Distinct(dict) && Distinct(r.nevras)
    ensures StateAt(AfterUpdate(s, dict, r, cmdline).tables, NewId(s.tables)).Some? <==> Covers(dict, r.nevras)
  {
    var s' := AfterUpdate(s, dict, r, cmdline);
    var now, t := s'.ids, s'.transId;
    if Covers(dict, r.nevras) {
      UpdateRecords(s, dict, r, cmdline);
    } else {
      SnapshotHole(dict, r.nevras);
      StateAtInRange(s.tables, s.transId);
      assert 0 !in s.ids by { assert 0 !in ToSet(s.ids); }
      OnlyInKeepsMissing(now, s.ids, 0);
      var k :| 0 <= k < |OnlyIn(now, s.ids)| && OnlyIn(now, s.ids)[k] == 0;
      var bad := Item(t, AddItem, 0);
      assert ItemsFor(t, AddItem, OnlyIn(now, s.ids))[k] == bad;
      assert bad in s'.tables.items;
      RowsOfMembers(s'.tables.items, t);
      UnreadableAt(s'.tables, t, bad);
    }
  }

  lemma UnreadableAt(tables: Tables, t: int, bad: Item)
    requires 0 < t && bad in RowsOf(tables.items, t) && bad.rpmId == 0
    ensures StateAt(tables, t) == None
  {
    var rows := RowsOf(tables.items, t);
    assert forall base, m :: !RowsFit(rows, base, m);
    PlayRowsSucceeds(rows, true, |tables.rpms|, {});
    if !IsBase(tables.transactions, t) && StateAt(tables, t - 1).Some? {
      PlayRowsSucceeds(rows, false, |tables.rpms|, StateAt(tables, t - 1).value);
    }
  }

  /** An id that the other list lacks altogether survives the merge, sorted or not. */
  lemma {:induction false} OnlyInKeepsMissing(a: seq<int>, b: seq<int>, x: int)
    requires x in a && x !in b
    ensures x in OnlyIn(a, b)
    decreases |a| + |b|
  {
    if b != [] {
      if a[0] < b[0] {
        if x != a[0] { OnlyInKeepsMissing(a[1..], b, x); }
      } else if a[0] > b[0] {
        OnlyInKeepsMissing(a, b[1..], x);
      } else {
        OnlyInKeepsMissing(a[1..], b[1..], x);
      }
    }
  }

  /** A new baseline replays to the ids of the context. */
  lemma RecordRecords(s: State)
    requires WellFormed(s.tables) && s.cookie.Some? && StrictlySorted(s.ids)
    requires forall id :: id in s.ids ==> 0 < id <= |s.tables.rpms|
    ensures var s' := AfterRecord(s);
            && WellFormed(s'.tables) && AtHead(s')
            && Appended(s.tables, s'.tables) && KeepsReplays(s.tables, s'.tables)
  {
    var s' := AfterRecord(s);
    var t := s'.transId;
    var sets := ItemsFor(t, SetItem, s.ids);
    ItemsForMembers(t, SetItem, s.ids);
    assert OneItemPerId(sets);
    RecordKeeps(s.tables, s.tables.rpms, Transaction(s.cookie.value, "(set)", Base), sets);
    AppendedKeepsReplays(s.tables, s'.tables);
    StateAtFormula(s'.tables, t);
    NoItemsYet(s.tables, SetItem);
    ItemIdsAppend(s.tables.items, sets, t, SetItem);
    ItemsForIds(t, SetItem, s.ids, SetItem);
    assert ItemIds(s'.tables.items, t, SetItem) == ToSet(s.ids);
    assert IsBase(s'.tables.transactions, t);
  }

  /** The empty transaction that only carries flags replays to the same set as its predecessor, whatever the ids
      of the context are. */
  lemma AddTransactionRecords(s: State, cmdline: string)
    requires WellFormed(s.tables) && Newest(s)
    ensures var s' := AfterAddTransaction(s, cmdline);
            && WellFormed(s'.tables) && Newest(s')
            && Appended(s.tables, s'.tables) && KeepsReplays(s.tables, s'.tables)
            && StateAt(s'.tables, s'.transId) == StateAt(s.tables, s.transId)
  {
    var s' := AfterAddTransaction(s, cmdline);
    var t := s'.transId;
    RecordKeeps(s.tables, s.tables.rpms, Transaction(s.cookie.value, cmdline, Delta), []);
    AppendedKeepsReplays(s.tables, s'.tables);
    assert s'.tables.items == s.tables.items + (ItemsFor(t, AddItem, []) + ItemsFor(t, RemoveItem, []));
    assert t - 1 == s.transId;
    NewDeltaState(s.tables, s'.tables, t, [], [], [], []);
    var before := StateAt(s.tables, s.transId).value;
    assert (before - ToSet([])) + ToSet([]) == before;
  }

  // ----- the operations as steps of the state, with everything that can go wrong

  /** `dict` is the rpms table after some of `nevras` were entered. */
  ghost predicate Grows(rpms: seq<string>, dict: seq<string>, nevras: seq<string>) {
    && rpms <= dict
    && (Distinct(rpms) ==> Distinct(dict))
    && forall k :: |rpms| <= k < |dict| ==> dict[k] in nevras
  }

  /** The rows written since BEGIN are gone: the COMMIT whose result nobody looks at has failed. */
  ghost function LoseCommit(before: Tables, s: State): State {
    s.(tables := before)
  }

  /** history_update_state. The rpms table may have grown in every case. */
  ghost predicate UpdateStep(s: State, s': State, r: Rpmdb, cmdline: string, ok: bool) {
    var dict := s'.tables.rpms;
    var grown := s.tables.(rpms := dict);
    && Grows(s.tables.rpms, dict, r.nevras)
    && if s.cookie == Some(r.cookie) then ok && s' == s
       else if !ok then s' == s.(tables := grown)
       else s' == AfterUpdate(s, dict, r, cmdline) || s' == LoseCommit(grown, AfterUpdate(s, dict, r, cmdline))
  }

  /** history_record_state. */
  ghost predicate RecordStep(s: State, s': State, ok: bool) {
    && s.cookie.Some?
    && if !ok then s' == s
       else s' == AfterRecord(s) || s' == LoseCommit(s.tables, AfterRecord(s))
  }

  /** history_add_transaction. It fails where there is no table of transactions yet. */
  ghost predicate AddStep(s: State, s': State, cmdline: string, ok: bool) {
    if ok then s.cookie.Some? && s.tables.hasTransactions && s' == AfterAddTransaction(s, cmdline)
    else s' == s
  }

  /** history_set_state: the context, and only the context, goes to transaction `t`. */
  ghost predicate SetStateStep(s: State, s': State, t: int, ok: bool) {
    if !ok then s' == s
    else
      && StateAt(s.tables, t) == Some(ToSet(s'.ids)) && StrictlySorted(s'.ids)
      && s' == s.(ids := s'.ids, transId := t)
  }

  /** The context that history_sync has put together when it records the first baseline. */
  ghost function FreshContext(s: State, dict: seq<string>, r: Rpmdb): State {
    State(s.tables.(rpms := dict), CurrentIds(dict, r.nevras), Some(r.cookie), s.transId)
  }

  /** history_sync. */
  ghost predicate SyncStep(s: State, s': State, r: Rpmdb, ok: bool) {
    var dict := s'.tables.rpms;
    var n := |s.tables.transactions|;
    && Grows(s.tables.rpms, dict, r.nevras)
    && if n == 0 then
         if ok then RecordStep(FreshContext(s, dict, r), s', true)
         else s'.tables == s.tables.(rpms := dict) && s'.transId == s.transId
       else if s.tables.transactions[n - 1].cookie == r.cookie then
         if ok then s' == State(s.tables.(rpms := dict), CurrentIds(dict, r.nevras), Some(r.cookie), n)
         else s' == s.(tables := s.tables.(rpms := dict))
       else
         || (!ok && s' == s)
         || (exists ids :: SyncedByUpdate(s, s', ids, r, ok))
  }

  /** The cookie changed behind the store's back: go to the last transaction, then record the change. */
  ghost predicate SyncedByUpdate(s: State, s': State, ids: seq<int>, r: Rpmdb, ok: bool)
    requires s.tables.transactions != []
  {
    var n := |s.tables.transactions|;
    && StrictlySorted(ids) && StateAt(s.tables, n) == Some(ToSet(ids))
    && UpdateStep(State(s.tables, ids, Some(s.tables.transactions[n - 1].cookie), n), s', r, "(unknown)", ok)
  }

  /** What history_sync writes about a transaction of its own: the cookie found, and either the baseline of a store
      without transactions or a change that somebody else made. */
  lemma SyncRow(s: State, s': State, r: Rpmdb)
    requires SyncStep(s, s', r, true) && |s.tables.transactions| < s'.transId == |s'.tables.transactions|
    ensures s'.tables.transactions[|s.tables.transactions|..]
         == [if s.tables.transactions == [] then Transaction(r.cookie, "(set)", Base)
             else Transaction(r.cookie, "(unknown)", Delta)]
  {
    var n := |s.tables.transactions|;
    if n > 0 && s.tables.transactions[n - 1].cookie != r.cookie {
      var ids :| SyncedByUpdate(s, s', ids, r, true);
    }
  }

  /** What history_update_state writes if the cookie has changed, and history_add_transaction. */
  lemma UpdateRow(s: State, s': State, r: Rpmdb, cmdline: string)
    ensures UpdateStep(s, s', r, cmdline, true) && s'.transId == |s'.tables.transactions|
            && s.cookie != Some(r.cookie) ==>
              s'.tables.transactions == s.tables.transactions + [Transaction(r.cookie, cmdline, Delta)]
    ensures AddStep(s, s', cmdline, true) ==>
              s'.tables.transactions == s.tables.transactions + [Transaction(s.cookie.value, cmdline, Delta)]
  {
  }
}
