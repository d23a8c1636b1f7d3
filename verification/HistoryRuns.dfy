/** Whole runs of the history store: whatever sequence of operations is issued and whichever SQL statements
    noticeably fail, every recorded transaction replays to the packages that its cookie stands for. */
module HistoryRuns {
  import opened Wrappers
  import opened Sequences
  import opened HistoryTables
  import opened HistoryState
  import opened HistoryFlags

  /** What a cookie of the rpm database stands for: equal cookies mean equal sets of packages. */
  type Snapshots = string -> set<string>

  /** Transaction by transaction, the replay stands for the snapshot whose cookie was recorded. */
  ghost predicate Faithful(tables: Tables, snap: Snapshots) {
    forall t :: 0 < t <= |tables.transactions| ==> FaithfulAt(tables, snap, t)
  }

  ghost predicate FaithfulAt(tables: Tables, snap: Snapshots, t: int)
    requires 0 < t <= |tables.transactions|
  {
    && StateAt(tables, t).Some?
    && Nevras(tables.rpms, StateAt(tables, t).value) == snap(tables.transactions[t - 1].cookie)
  }

  ghost predicate Inv(s: State, snap: Snapshots) {
    && WellFormed(s.tables)
    && Faithful(s.tables, snap)
    && FlagLog(s.tables.marks, |s.tables.transactions|)
    && s.transId == |s.tables.transactions|
    && (s.tables.transactions == [] ==> !s.tables.hasTransactions)
    && (s.tables.transactions != [] ==> Newest(s))
  }

  datatype Op =
    | Reopen
    | Sync(r: Rpmdb)
    | Update(r: Rpmdb, cmdline: string)
    | Record
    | Add(cmdline: string)
    | SetFlag(name: string, value: int)
    | Restore(to: int)
    | ReplayFlags(from: int, to: int)

  ghost function Opened(tables: Tables): State {
    var n := |tables.transactions|;
    State(tables, [], if n > 0 then Some(tables.transactions[n - 1].cookie) else None, n)
  }

  /** One operation, succeeding or failing as reported by `ok`. */
  ghost predicate Step(s: State, op: Op, s': State, ok: bool) {
    match op
    case Reopen => s' == Opened(s.tables)
    case Sync(r) => SyncStep(s, s', r, ok)
    case Update(r, cmdline) => UpdateStep(s, s', r, cmdline, ok)
    case Record => RecordStep(s, s', ok)
    case Add(cmdline) => AddStep(s, s', cmdline, ok)
    case SetFlag(name, value) =>
      && s' == s.(tables := s.tables.(marks := s'.tables.marks)) && (ok ==> s.transId > 0)
      && SetFlagStep(s.tables.marks, s'.tables.marks, s.transId, name, value, ok)
    case Restore(to) =>
      && s' == s.(tables := s.tables.(marks := s'.tables.marks))
      && RestoreStep(s.tables.marks, s'.tables.marks, s.transId, to, ok)
    case ReplayFlags(from, to) =>
      && s' == s.(tables := s.tables.(marks := s'.tables.marks))
      && ReplayStep(s.tables.marks, s'.tables.marks, s.transId, from, to, ok)
  }

  /** What is installed is only recorded through a context that has been synced (history_sync itself and
      TDNFRunTransactionWithHistory do it). Transactions for flags are also added through a context that was
      just opened, by TDNFMark. */
  ghost predicate Allowed(s: State, op: Op) {
    op.Update? || op.Record? ==> AtHead(s)
  }

  /** The rpm database is consistent: distinct NEVRAs, and the cookie names the snapshot. */
  ghost predicate Consistent(r: Rpmdb, snap: Snapshots) {
    Distinct(r.nevras) && Names(r.nevras) == snap(r.cookie)
  }

  ghost predicate ConsistentOp(op: Op, snap: Snapshots) {
    op.Sync? || op.Update? ==> Consistent(op.r, snap)
  }

  /** The two failures that the source does not notice did not happen: the rows of a reported success are
      in the tables, and no dictionary insert that they need was lost. */
  ghost predicate NothingLost(s: State, op: Op, s': State, ok: bool) {
    && (ok && Records(op) ==> s'.transId == |s'.tables.transactions|)
    && (ok && (op.Sync? || op.Update?) && s'.transId != |s.tables.transactions| ==>
          Covers(s'.tables.rpms, op.r.nevras))
    && (ok && op.SetFlag? && FlagOf(s.tables.marks, s.transId, op.name) != op.value ==>
          op.name in s'.tables.marks.names)
  }

  ghost predicate Records(op: Op) {
    op.Sync? || op.Update? || op.Record? || op.Add?
  }

  // ----- the dictionary is a bijection

  lemma NevrasInjective(dict: seq<string>, a: set<int>, b: set<int>)
    requires Distinct(dict) && Nevras(dict, a) == Nevras(dict, b)
    requires (forall id :: id in a ==> 0 < id <= |dict|) && (forall id :: id in b ==> 0 < id <= |dict|)
    ensures a == b
  {
    NevrasInclude(dict, a, b);
    NevrasInclude(dict, b, a);
  }

  lemma NevrasInclude(dict: seq<string>, a: set<int>, b: set<int>)
    requires Distinct(dict) && Nevras(dict, a) <= Nevras(dict, b)
    requires (forall id :: id in a ==> 0 < id <= |dict|)
    ensures a <= b
  {
    forall id | id in a ensures id in b {
      assert dict[id - 1] in Nevras(dict, a);
      var id' :| id' in b && 0 < id' <= |dict| && dict[id' - 1] == dict[id - 1];
    }
  }

  lemma NevrasGrown(rpms: seq<string>, dict: seq<string>, ids: set<int>)
    requires rpms <= dict && forall id :: id in ids ==> 0 < id <= |rpms|
    ensures Nevras(dict, ids) == Nevras(rpms, ids)
  {
  }

  // ----- one step

  /** Appending transactions faithfully keeps all of them faithful. */
  lemma FaithfulGrows(tables: Tables, later: Tables, snap: Snapshots)
    requires WellFormed(tables) && Faithful(tables, snap) && Appended(tables, later)
    requires forall t :: |tables.transactions| < t <= |later.transactions| ==> FaithfulAt(later, snap, t)
    ensures Faithful(later, snap)
  {
    forall t | 0 < t <= |later.transactions| ensures FaithfulAt(later, snap, t) {
      if t <= |tables.transactions| {
        assert FaithfulAt(tables, snap, t);
        StateAtInRange(tables, t);
        ReplayAppendOnly(tables, later, t);
        NevrasGrown(tables.rpms, later.rpms, StateAt(tables, t).value);
      }
    }
  }

  /** Only the dictionary grew: what a failed operation, or a lost commit, leaves behind. */
  lemma DictionaryGrows(tables: Tables, dict: seq<string>, snap: Snapshots)
    requires WellFormed(tables) && Faithful(tables, snap)
    requires tables.rpms <= dict && Distinct(dict)
    ensures WellFormed(tables.(rpms := dict)) && Faithful(tables.(rpms := dict), snap)
    ensures KeepsReplays(tables, tables.(rpms := dict))
  {
    var later := tables.(rpms := dict);
    forall i | i in later.items ensures ItemFits(later, i) { assert ItemFits(tables, i); }
    FaithfulGrows(tables, later, snap);
    AppendedKeepsReplays(tables, later);
  }

  /** The three ways in which a step leaves the store good. */
  ghost predicate Good(s: State, s': State, snap: Snapshots) {
    && Inv(s', snap)
    && s.tables.transactions <= s'.tables.transactions
    && s.tables.rpms <= s'.tables.rpms
    && KeepsReplays(s.tables, s'.tables)
  }

  lemma FailedKeeps(s: State, s': State, snap: Snapshots)
    requires Inv(s, snap) && s.tables.rpms <= s'.tables.rpms && Distinct(s'.tables.rpms)
    requires s'.tables == s.tables.(rpms := s'.tables.rpms) && s'.transId == s.transId
    requires s.tables.transactions != [] ==> s'.cookie == s.cookie
    ensures Good(s, s', snap)
    ensures AtHead(s) && s'.ids == s.ids && s'.cookie == s.cookie ==> AtHead(s')
  {
    DictionaryGrows(s.tables, s'.tables.rpms, snap);
  }

  lemma UpdateKeeps(s: State, s': State, r: Rpmdb, cmdline: string, ok: bool, snap: Snapshots)
    requires Inv(s, snap) && AtHead(s) && Consistent(r, snap)
    requires UpdateStep(s, s', r, cmdline, ok)
    requires NothingLost(s, Update(r, cmdline), s', ok)
    ensures Good(s, s', snap) && AtHead(s')
  {
    if s.cookie == Some(r.cookie) || !ok {
      FailedKeeps(s, s', snap);
    } else {
      RecordedUpdateKeeps(s, s'.tables.rpms, r, cmdline, snap);
    }
  }

  lemma RecordedUpdateKeeps(s: State, dict: seq<string>, r: Rpmdb, cmdline: string, snap: Snapshots)
    requires Inv(s, snap) && AtHead(s) && Consistent(r, snap)
    requires Grows(s.tables.rpms, dict, r.nevras) && Covers(dict, r.nevras)
    ensures Good(s, AfterUpdate(s, dict, r, cmdline), snap) && AtHead(AfterUpdate(s, dict, r, cmdline))
  {
    UpdateRecords(s, dict, r, cmdline);
    RecordedKeeps(s, AfterUpdate(s, dict, r, cmdline), r, snap);
  }

  /** What any properly recorded transaction for the snapshot `r` amounts to. */
  lemma RecordedKeeps(s: State, s': State, r: Rpmdb, snap: Snapshots)
    requires Inv(s, snap) && Consistent(r, snap)
    requires WellFormed(s'.tables) && AtHead(s') && Appended(s.tables, s'.tables)
    requires s'.transId == s.transId + 1 && s'.tables.marks == s.tables.marks
    requires s'.cookie == Some(r.cookie) && Nevras(s'.tables.rpms, ToSet(s'.ids)) == Names(r.nevras)
    ensures Good(s, s', snap)
  {
    FlagLogLater(s.tables.marks, s.transId, s'.transId);
    assert FaithfulAt(s'.tables, snap, s'.transId);
    FaithfulGrows(s.tables, s'.tables, snap);
    AppendedKeepsReplays(s.tables, s'.tables);
  }

  lemma FlagLogLater(marks: FlagTables, now: nat, later: nat)
    requires FlagLog(marks, now) && now <= later
    ensures FlagLog(marks, later)
  {
  }

  /** An added transaction replays to the packages of its predecessor, and leaves the context at the head if it was
      there. */
  lemma AddKeeps(s: State, s': State, cmdline: string, ok: bool, snap: Snapshots)
    requires Inv(s, snap) && AddStep(s, s', cmdline, ok)
    ensures Good(s, s', snap) && (AtHead(s) <==> AtHead(s'))
    ensures ok ==> Newest(s') && StateAt(s'.tables, s'.transId) == StateAt(s.tables, s.transId)
  {
    if ok {
      AddTransactionRecords(s, cmdline);
      SameStateKeeps(s, s', snap);
    }
  }

  /** What any properly recorded transaction without a change amounts to. */
  lemma SameStateKeeps(s: State, s': State, snap: Snapshots)
    requires Inv(s, snap) && Newest(s)
    requires WellFormed(s'.tables) && Newest(s') && Appended(s.tables, s'.tables)
    requires s'.transId == s.transId + 1 && s'.tables.marks == s.tables.marks
    requires StateAt(s'.tables, s'.transId) == StateAt(s.tables, s.transId)
    requires s'.cookie == s.cookie && s'.tables.rpms == s.tables.rpms
    ensures Good(s, s', snap)
  {
    FlagLogLater(s.tables.marks, s.transId, s'.transId);
    assert FaithfulAt(s.tables, snap, s.transId);
    FaithfulGrows(s.tables, s'.tables, snap);
    AppendedKeepsReplays(s.tables, s'.tables);
  }

  lemma RecordKeepsHead(s: State, s': State, ok: bool, snap: Snapshots)
    requires Inv(s, snap) && AtHead(s) && RecordStep(s, s', ok)
    requires ok ==> s'.transId == |s'.tables.transactions|
    ensures Good(s, s', snap) && AtHead(s')
  {
    if ok {
      assert s' == AfterRecord(s);
      HeadFits(s);
      RecordRecords(s);
      SameStateKeeps(s, s', snap);
    }
  }

  /** The first sync records a baseline of exactly the current snapshot. */
  lemma FreshSyncKeeps(s: State, s': State, r: Rpmdb, snap: Snapshots)
    requires Inv(s, snap) && s.tables.transactions == [] && Consistent(r, snap)
    requires SyncStep(s, s', r, true) && NothingLost(s, Sync(r), s', true)
    ensures Good(s, s', snap) && AtHead(s')
  {
    assert s' == AfterRecord(FreshContext(s, s'.tables.rpms, r));
    FreshKeeps(s, s'.tables.rpms, r, snap);
  }

  lemma FreshKeeps(s: State, dict: seq<string>, r: Rpmdb, snap: Snapshots)
    requires Inv(s, snap) && s.tables.transactions == [] && Consistent(r, snap)
    requires Grows(s.tables.rpms, dict, r.nevras) && Covers(dict, r.nevras)
    ensures var s' := AfterRecord(FreshContext(s, dict, r)); Good(s, s', snap) && AtHead(s')
  {
    var s1 := FreshContext(s, dict, r);
    DictionaryGrows(s.tables, dict, snap);
    SnapshotIds(dict, r.nevras);
    RecordRecords(s1);
    assert Appended(s.tables, AfterRecord(s1).tables);
    RecordedKeeps(s, AfterRecord(s1), r, snap);
  }

  /** With an unchanged cookie the ids read from the rpm database are those of the last transaction. */
  lemma UnchangedSyncKeeps(s: State, s': State, r: Rpmdb, snap: Snapshots)
    requires Inv(s, snap) && s.tables.transactions != [] && Consistent(r, snap)
    requires s.tables.transactions[s.transId - 1].cookie == r.cookie
    requires SyncStep(s, s', r, true) && NothingLost(s, Sync(r), s', true)
    ensures Good(s, s', snap) && AtHead(s')
  {
    var n, dict := s.transId, s'.tables.rpms;
    DictionaryGrows(s.tables, dict, snap);
    KnownSnapshot(s.tables, dict, r, snap);
    SnapshotIds(dict, r.nevras);
    assert FaithfulAt(s'.tables, snap, n);
    StateAtInRange(s'.tables, n);
    assert forall id :: id in ToSet(s'.ids) ==> 0 < id <= |dict|;
    NevrasInjective(dict, StateAt(s'.tables, n).value, ToSet(s'.ids));
  }

  lemma KnownSnapshot(tables: Tables, dict: seq<string>, r: Rpmdb, snap: Snapshots)
    requires tables.transactions != [] && FaithfulAt(tables, snap, |tables.transactions|)
    requires tables.transactions[|tables.transactions| - 1].cookie == r.cookie && Consistent(r, snap)
    requires tables.rpms <= dict
    ensures Covers(dict, r.nevras)
  {
    forall n | n in r.nevras ensures n in dict {
      assert n in Names(r.nevras);
      var id :| id in StateAt(tables, |tables.transactions|).value
                && 0 < id <= |tables.rpms| && tables.rpms[id - 1] == n;
      assert dict[id - 1] == n;
    }
  }

  lemma SyncKeeps(s: State, s': State, r: Rpmdb, ok: bool, snap: Snapshots)
    requires Inv(s, snap) && Consistent(r, snap)
    requires SyncStep(s, s', r, ok) && NothingLost(s, Sync(r), s', ok)
    ensures Good(s, s', snap)
    ensures ok ==> AtHead(s')
    ensures !ok && AtHead(s) ==> AtHead(s')
  {
    var n := |s.tables.transactions|;
    if n == 0 {
      if ok { FreshSyncKeeps(s, s', r, snap); } else { FailedKeeps(s, s', snap); }
    } else if s.tables.transactions[n - 1].cookie == r.cookie {
      if ok { UnchangedSyncKeeps(s, s', r, snap); } else { FailedKeeps(s, s', snap); }
    } else if !(!ok && s' == s) {
      var ids :| SyncedByUpdate(s, s', ids, r, ok);
      var s1 := State(s.tables, ids, Some(s.tables.transactions[n - 1].cookie), n);
      UpdateKeeps(s1, s', r, "(unknown)", ok, snap);
    }
  }

  lemma FlagsKeep(s: State, op: Op, s': State, ok: bool, snap: Snapshots)
    requires Inv(s, snap) && (op.SetFlag? || op.Restore? || op.ReplayFlags?)
    requires Step(s, op, s', ok) && NothingLost(s, op, s', ok)
    ensures Good(s, s', snap)
    ensures AtHead(s) ==> AtHead(s')
  {
    var marks, now := s.tables.marks, s.transId;
    MarksDontMatter(s.tables, s'.tables, snap);
    match op {
      case SetFlag(name, value) =>
        if now > 0 {
          SetFlagRecords(marks, now, s'.tables.marks, name, value, ok);
        } else {
          NamesGrowLog(marks, now, s'.tables.marks, name);
        }
      case Restore(to) =>
        var k: nat :| k <= NameCount(marks) && s'.tables.marks == marks.(flags := Restored(marks.flags, now, to, k));
        if s'.tables.marks != marks { RestoreLog(marks, now, to, k); }
      case ReplayFlags(from, to) =>
        var k: nat :| k <= NameCount(marks)
                      && s'.tables.marks == marks.(flags := Replayed(marks.flags, now, from, to, k));
        if s'.tables.marks != marks { ReplayLog(marks, now, from, to, k); }
    }
  }

  lemma RestoreLog(marks: FlagTables, now: nat, to: int, k: nat)
    requires FlagLog(marks, now) && k <= |marks.names|
    requires Restored(marks.flags, now, to, k) != marks.flags
    ensures FlagLog(marks.(flags := Restored(marks.flags, now, to, k)), now)
  {
    ReplayFromNowIsRestore(marks.flags, now, to, k);
    ReplayLog(marks, now, now, to, k);
  }

  lemma ReplayLog(marks: FlagTables, now: nat, from: int, to: int, k: nat)
    requires FlagLog(marks, now) && k <= |marks.names|
    requires Replayed(marks.flags, now, from, to, k) != marks.flags
    ensures FlagLog(marks.(flags := Replayed(marks.flags, now, from, to, k)), now)
  {
    if marks.flags == [] {
      NothingToReplay(now, from, to, k);
    } else {
      assert marks.flags[0] in marks.flags;
      ReplayKeepsLog(marks, now, from, to, k);
    }
  }

  lemma {:induction false} NothingToReplay(now: nat, from: int, to: int, k: nat)
    ensures Replayed([], now, from, to, k) == []
  {
    if k > 0 { NothingToReplay(now, from, to, k - 1); }
  }

  lemma {:induction false} SameReplay(tables: Tables, later: Tables, mapSize: nat, t: int)
    requires later.transactions == tables.transactions && later.items == tables.items
    ensures Replay(later, mapSize, t) == Replay(tables, mapSize, t)
    decreases if t < 0 then 0 else t
  {
    if t > 0 { SameReplay(tables, later, mapSize, t - 1); }
  }

  lemma MarksDontMatter(tables: Tables, later: Tables, snap: Snapshots)
    requires WellFormed(tables) && Faithful(tables, snap) && later == tables.(marks := later.marks)
    ensures WellFormed(later) && Faithful(later, snap) && KeepsReplays(tables, later)
    ensures forall t :: StateAt(later, t) == StateAt(tables, t)
  {
    forall t ensures StateAt(later, t) == StateAt(tables, t) { SameReplay(tables, later, |tables.rpms|, t); }
    forall i | i in later.items ensures ItemFits(later, i) { assert ItemFits(tables, i); }
    forall t | 0 < t <= |later.transactions| ensures FaithfulAt(later, snap, t) { assert FaithfulAt(tables, snap, t); }
  }

  /** No step breaks the store, whatever fails noticeably: the invariant holds on, old replays stay the
      same, and a context that describes the newest transaction keeps doing so until it is reopened. A
      successful sync brings it there. */
  lemma StepKeeps(s: State, op: Op, s': State, ok: bool, snap: Snapshots)
    requires Inv(s, snap) && Allowed(s, op) && ConsistentOp(op, snap)
    requires Step(s, op, s', ok) && NothingLost(s, op, s', ok)
    ensures Good(s, s', snap)
    ensures AtHead(s) && !op.Reopen? ==> AtHead(s')
    ensures op.Sync? && ok ==> AtHead(s')
  {
    match op {
      case Reopen =>
      case Sync(r) => SyncKeeps(s, s', r, ok, snap);
      case Update(r, cmdline) => UpdateKeeps(s, s', r, cmdline, ok, snap);
      case Record => RecordKeepsHead(s, s', ok, snap);
      case Add(cmdline) => AddKeeps(s, s', cmdline, ok, snap);
      case SetFlag(_, _) => FlagsKeep(s, op, s', ok, snap);
      case Restore(_) => FlagsKeep(s, op, s', ok, snap);
      case ReplayFlags(_, _) => FlagsKeep(s, op, s', ok, snap);
    }
  }

  // ----- what a lost statement costs

  /** The newest transaction can be replayed, and the context describes it if it was synced before or is now. */
  ghost predicate Landed(s: State, op: Op, s': State) {
    && Newest(s') && StateAt(s'.tables, s'.transId).Some?
    && (AtHead(s) || op.Sync? ==> AtHead(s'))
  }

  /** A recording operation that reports success leaves the context at a readable newest transaction exactly
      when nothing was lost: neither its COMMIT nor the dictionary entry of an installed package. */
  lemma SuccessIsReadable(s: State, op: Op, s': State, snap: Snapshots)
    requires Inv(s, snap) && Allowed(s, op) && ConsistentOp(op, snap)
    requires Records(op) && Step(s, op, s', true)
    ensures Landed(s, op, s') <==> NothingLost(s, op, s', true)
  {
    if NothingLost(s, op, s', true) {
      StepKeeps(s, op, s', true, snap);
      assert Newest(s') && FaithfulAt(s'.tables, snap, s'.transId);
    } else if s'.transId == |s'.tables.transactions| {
      LossIsUnreadable(s, op, s', snap);
    }
  }

  lemma LossIsUnreadable(s: State, op: Op, s': State, snap: Snapshots)
    requires Inv(s, snap) && Allowed(s, op) && ConsistentOp(op, snap)
    requires Records(op) && Step(s, op, s', true)
    requires !NothingLost(s, op, s', true) && s'.transId == |s'.tables.transactions|
    ensures StateAt(s'.tables, s'.transId) == None
  {
    var n := |s.tables.transactions|;
    if op.Update? {
      UpdateReadable(s, s'.tables.rpms, op.r, op.cmdline);
    } else if n == 0 {
      FreshHole(FreshContext(s, s'.tables.rpms, op.r), s', op.r);
    } else {
      var ids :| SyncedByUpdate(s, s', ids, op.r, true);
      UpdateReadable(State(s.tables, ids, Some(s.tables.transactions[n - 1].cookie), n),
                     s'.tables.rpms, op.r, "(unknown)");
    }
  }

  lemma FreshHole(s1: State, s': State, r: Rpmdb)
    requires s1.cookie.Some? && s' == AfterRecord(s1) && s1.tables.transactions == []
    requires s1.ids == CurrentIds(s1.tables.rpms, r.nevras) && !Covers(s1.tables.rpms, r.nevras)
    ensures StateAt(s'.tables, s'.transId) == None
  {
    SnapshotHole(s1.tables.rpms, r.nevras);
    var k :| 0 <= k < |s1.ids| && s1.ids[k] == 0;
    var bad := Item(1, SetItem, 0);
    assert ItemsFor(1, SetItem, s1.ids)[k] == bad;
    assert bad in s'.tables.items;
    RowsOfMembers(s'.tables.items, 1);
    UnreadableAt(s'.tables, 1, bad);
  }

  /** Such a loss is within the reach of the very first sync: if the dictionary inserts of a non-empty
      snapshot fail, history_sync reports success and leaves a baseline that cannot be replayed. */
  lemma LostInsertExample(r: Rpmdb)
    requires r.nevras != []
    ensures var s := Opened(EmptyTables);
            var s' := AfterRecord(FreshContext(s, [], r));
            Step(s, Sync(r), s', true) && StateAt(s'.tables, s'.transId) == None
  {
    var s1 := FreshContext(Opened(EmptyTables), [], r);
    assert r.nevras[0] in r.nevras;
    FreshHole(s1, AfterRecord(s1), r);
  }

  // ----- recording through a context that was not synced

  /** A transaction that is added while the rpm database is `r` stands for the packages of `r` exactly if these are
      the ones that the cookie of the context, which it reuses, stands for. */
  lemma AddStandsFor(s: State, s': State, cmdline: string, r: Rpmdb, snap: Snapshots)
    requires Inv(s, snap) && AddStep(s, s', cmdline, true)
    ensures StateAt(s'.tables, s'.transId).Some?
    ensures Nevras(s'.tables.rpms, StateAt(s'.tables, s'.transId).value) == Names(r.nevras)
       <==> Names(r.nevras) == snap(s.cookie.value)
  {
    AddKeeps(s, s', cmdline, true, snap);
    assert FaithfulAt(s'.tables, snap, s'.transId);
  }

  /** An update records the snapshot exactly if the ids of the context, as far as the snapshot has them, are in the
      newest state, and this has nothing that is neither in them nor in the snapshot. For a context that was just
      opened this means that nothing has been removed. */
  lemma UpdateExact(s: State, dict: seq<string>, r: Rpmdb, cmdline: string, snap: Snapshots)
    requires Inv(s, snap) && s.tables.transactions != [] && FitIds(s.ids, |s.tables.rpms|) && Consistent(r, snap)
    requires s.tables.rpms <= dict && Distinct(dict) && Covers(dict, r.nevras)
    ensures var s', before := AfterUpdate(s, dict, r, cmdline), StateAt(s.tables, s.transId);
            && before.Some?
            && (FaithfulAt(s'.tables, snap, s'.transId) <==>
                  ToSet(s.ids) * ToSet(s'.ids) <= before.value <= ToSet(s.ids) + ToSet(s'.ids))
  {
    var s' := AfterUpdate(s, dict, r, cmdline);
    UpdateReplays(s, dict, r, cmdline);
    SnapshotIds(dict, r.nevras);
    FaithfulIffSame(s', ToSet(s'.ids), snap);
    Patched(StateAt(s.tables, s.transId).value, ToSet(s.ids), ToSet(s'.ids));
  }

  lemma Patched(state: set<int>, ids: set<int>, now: set<int>)
    ensures (state - (ids - now)) + (now - ids) == now <==> ids * now <= state <= ids + now
  {
    var later := (state - (ids - now)) + (now - ids);
    assert forall x :: x in later <==> if x in now then x in state || x !in ids else x in state && x !in ids;
    if later == now {
      forall x | x in ids * now ensures x in state { assert x in later; }
      forall x | x in state ensures x in ids + now { assert x in later <==> x in now; }
    }
    if ids * now <= state <= ids + now {
      forall x ensures x in later <==> x in now {
        if x in now && x in ids { assert x in ids * now; }
        if x in state { assert x in ids + now; }
      }
    }
  }

  /** The newest transaction is faithful exactly if it replays to ids that stand for the packages of its cookie. */
  lemma FaithfulIffSame(s: State, ids: set<int>, snap: Snapshots)
    requires WellFormed(s.tables) && Newest(s) && forall id :: id in ids ==> 0 < id <= |s.tables.rpms|
    requires Nevras(s.tables.rpms, ids) == snap(s.cookie.value)
    ensures FaithfulAt(s.tables, snap, s.transId) <==> StateAt(s.tables, s.transId) == Some(ids)
  {
    if FaithfulAt(s.tables, snap, s.transId) {
      StateAtInRange(s.tables, s.transId);
      NevrasInjective(s.tables.rpms, StateAt(s.tables, s.transId).value, ids);
    }
  }

  /** A baseline of the ids of the context is faithful exactly if these are the newest state. */
  lemma RecordExact(s: State, snap: Snapshots)
    requires Inv(s, snap) && s.tables.transactions != [] && FitIds(s.ids, |s.tables.rpms|)
    ensures var s' := AfterRecord(s);
            FaithfulAt(s'.tables, snap, s'.transId) <==> StateAt(s.tables, s.transId) == Some(ToSet(s.ids))
  {
    RecordRecords(s);
    assert FaithfulAt(s.tables, snap, s.transId);
    StateAtInRange(s.tables, s.transId);
    FaithfulIffSame(AfterRecord(s), StateAt(s.tables, s.transId).value, snap);
  }

  // ----- runs

  /** A run: `states` has one state more than there are steps. */
  datatype Run = Run(states: seq<State>, ops: seq<Op>, oks: seq<bool>)

  ghost predicate IsRun(run: Run, snap: Snapshots) {
    && |run.states| == |run.ops| + 1 == |run.oks| + 1
    && run.states[0] == Opened(EmptyTables)
    && forall i :: 0 <= i < |run.ops| ==> RunStep(run, i, snap)
  }

  ghost predicate RunStep(run: Run, i: nat, snap: Snapshots)
    requires i < |run.ops| && |run.states| == |run.ops| + 1 == |run.oks| + 1
  {
    var s, op, s', ok := run.states[i], run.ops[i], run.states[i + 1], run.oks[i];
    && Allowed(s, op) && ConsistentOp(op, snap) && Step(s, op, s', ok) && NothingLost(s, op, s', ok)
  }

  /** In every state of every run the invariant holds. */
  lemma {:induction false} RunsKeepInvariant(run: Run, snap: Snapshots, i: nat)
    requires IsRun(run, snap) && i < |run.states|
    ensures Inv(run.states[i], snap)
  {
    if i > 0 {
      RunsKeepInvariant(run, snap, i - 1);
      assert RunStep(run, i - 1, snap);
      StepKeeps(run.states[i - 1], run.ops[i - 1], run.states[i], run.oks[i - 1], snap);
    }
  }

  /** A transaction recorded by state i replays in every later state j: to the same ids, standing for exactly
      the packages that were installed under the cookie it was recorded with. */
  lemma {:induction false} RunsKeepReplays(run: Run, snap: Snapshots, i: nat, j: nat, t: int)
    requires IsRun(run, snap) && i <= j < |run.states|
    requires 0 < t <= |run.states[i].tables.transactions|
    ensures run.states[i].tables.transactions <= run.states[j].tables.transactions
    ensures StateAt(run.states[j].tables, t).Some?
    ensures StateAt(run.states[j].tables, t) == StateAt(run.states[i].tables, t)
    ensures Nevras(run.states[j].tables.rpms, StateAt(run.states[j].tables, t).value)
         == snap(run.states[i].tables.transactions[t - 1].cookie)
    decreases j
  {
    RunsKeepInvariant(run, snap, j);
    if i < j {
      RunsKeepReplays(run, snap, i, j - 1, t);
      RunsKeepInvariant(run, snap, j - 1);
      assert RunStep(run, j - 1, snap);
      StepKeeps(run.states[j - 1], run.ops[j - 1], run.states[j], run.oks[j - 1], snap);
    }
    assert FaithfulAt(run.states[j].tables, snap, t);
  }

  /** From a successful sync until the context is reopened, the ids of the context are the replay of its
      transaction, which is the newest. */
  lemma {:induction false} RunsStaySynced(run: Run, snap: Snapshots, i: nat, j: nat)
    requires IsRun(run, snap) && i < j < |run.states|
    requires run.ops[i].Sync? && run.oks[i]
    requires forall k :: i < k < j ==> !run.ops[k].Reopen?
    ensures AtHead(run.states[j])
    decreases j
  {
    RunsKeepInvariant(run, snap, j - 1);
    assert RunStep(run, j - 1, snap);
    if i < j - 1 { RunsStaySynced(run, snap, i, j - 1); }
    StepKeeps(run.states[j - 1], run.ops[j - 1], run.states[j], run.oks[j - 1], snap);
  }

  /** `foo` and `bar` are recorded; then somebody removes `foo` with rpm, and TDNFMark marks `bar`. */
  ghost function MarkRun(before: Rpmdb, cmdline: string): Run {
    var empty := Opened(EmptyTables);
    var synced := AfterRecord(FreshContext(empty, before.nevras, before));
    var reopened := Opened(synced.tables);
    Run([empty, synced, reopened, AfterAddTransaction(reopened, cmdline)], [Sync(before), Reopen, Add(cmdline)],
        [true, true, true])
  }

  lemma FirstSyncStep(r: Rpmdb, snap: Snapshots)
    requires Consistent(r, snap)
    ensures var s := Opened(EmptyTables);
            var s' := AfterRecord(FreshContext(s, r.nevras, r));
            Inv(s', snap) && Step(s, Sync(r), s', true) && NothingLost(s, Sync(r), s', true)
  {
    FreshKeeps(Opened(EmptyTables), r.nevras, r, snap);
  }

  lemma MarkRunIs(before: Rpmdb, cmdline: string, snap: Snapshots)
    requires Consistent(before, snap)
    ensures IsRun(MarkRun(before, cmdline), snap) && Inv(MarkRun(before, cmdline).states[2], snap)
  {
    var run := MarkRun(before, cmdline);
    FirstSyncStep(before, snap);
    assert RunStep(run, 0, snap);
    assert RunStep(run, 1, snap);
    assert RunStep(run, 2, snap);
  }

  /** The last transaction of this run still has `foo`. */
  lemma StaleMarkExample(before: Rpmdb, r: Rpmdb, foo: string, bar: string, cmdline: string, snap: Snapshots)
    requires foo != bar && before.nevras == [foo, bar] && r.nevras == [bar]
    requires Consistent(before, snap) && Consistent(r, snap)
    ensures var run := MarkRun(before, cmdline);
            && IsRun(run, snap) && foo !in r.nevras && StateAt(run.states[3].tables, 2).Some?
            && foo in Nevras(run.states[3].tables.rpms, StateAt(run.states[3].tables, 2).value)
  {
    var run := MarkRun(before, cmdline);
    MarkRunIs(before, cmdline, snap);
    AddStandsFor(run.states[2], run.states[3], cmdline, before, snap);
    assert foo == before.nevras[0] && foo in Names(before.nevras);
  }

  /** A flag read as of a transaction that is no longer the newest reads the same for ever. */
  lemma {:induction false} RunsKeepEarlierFlags(run: Run, snap: Snapshots, i: nat, j: nat, t: int, n: string)
    requires IsRun(run, snap) && i <= j < |run.states| && t < |run.states[i].tables.transactions|
    ensures FlagOf(run.states[j].tables.marks, t, n) == FlagOf(run.states[i].tables.marks, t, n)
    decreases j
  {
    if i < j {
      RunsKeepEarlierFlags(run, snap, i, j - 1, t, n);
      TransactionsStay(run, snap, i, j - 1);
      RunStepKeepsEarlierFlags(run, snap, j - 1, t, n);
    }
  }

  lemma RunStepKeepsEarlierFlags(run: Run, snap: Snapshots, k: nat, t: int, n: string)
    requires IsRun(run, snap) && k + 1 < |run.states| && t < |run.states[k].tables.transactions|
    ensures FlagOf(run.states[k + 1].tables.marks, t, n) == FlagOf(run.states[k].tables.marks, t, n)
  {
    RunsKeepInvariant(run, snap, k);
    assert RunStep(run, k, snap);
    EarlierFlagsStep(run.states[k], run.ops[k], run.states[k + 1], run.oks[k], snap, t, n);
  }

  lemma TransactionsStay(run: Run, snap: Snapshots, i: nat, j: nat)
    requires IsRun(run, snap) && i <= j < |run.states|
    ensures |run.states[i].tables.transactions| <= |run.states[j].tables.transactions|
  {
    if 0 < |run.states[i].tables.transactions| {
      RunsKeepReplays(run, snap, i, j, |run.states[i].tables.transactions|);
    }
  }

  lemma EarlierFlagsStep(s: State, op: Op, s': State, ok: bool, snap: Snapshots, t: int, n: string)
    requires Inv(s, snap) && Step(s, op, s', ok) && NothingLost(s, op, s', ok)
    requires t < |s.tables.transactions|
    ensures FlagOf(s'.tables.marks, t, n) == FlagOf(s.tables.marks, t, n)
  {
    var marks, now := s.tables.marks, s.transId;
    match op {
      case SetFlag(name, value) =>
        if now > 0 {
          SetFlagRecords(marks, now, s'.tables.marks, name, value, ok);
        } else {
          FlagOfGrown(marks, now, s'.tables.marks, name, t, n);
        }
      case Restore(to) => RestoreKeepsEarlier(marks, s'.tables.marks, now, to, ok, t, n);
      case ReplayFlags(from, to) => ReplayKeepsEarlier(marks, s'.tables.marks, now, from, to, ok, t, n);
      case _ =>
    }
  }

  lemma RestoreKeepsEarlier(marks: FlagTables, marks': FlagTables, now: int, to: int, ok: bool, t: int, n: string)
    requires RestoreStep(marks, marks', now, to, ok) && t < now
    ensures FlagOf(marks', t, n) == FlagOf(marks, t, n)
  {
    var k: nat :| k <= NameCount(marks) && marks' == marks.(flags := Restored(marks.flags, now, to, k));
    RestoredFrame(marks.flags, now, to, k);
    EarlierReadsStay(marks.flags, marks'.flags, now, t, IdOf(marks.names, n));
  }

  lemma ReplayKeepsEarlier(marks: FlagTables, marks': FlagTables, now: int, from: int, to: int, ok: bool,
                           t: int, n: string)
    requires ReplayStep(marks, marks', now, from, to, ok) && t < now
    ensures FlagOf(marks', t, n) == FlagOf(marks, t, n)
  {
    var k: nat :| k <= NameCount(marks) && marks' == marks.(flags := Replayed(marks.flags, now, from, to, k));
    ReplayedFrame(marks.flags, now, from, to, k);
    EarlierReadsStay(marks.flags, marks'.flags, now, t, IdOf(marks.names, n));
  }
}
