/** The callers of the history library: the order in which a package transaction syncs, runs, records and
    marks, and which deltas rollback, undo and redo ask for. The rpm transaction itself is outside: what it
    does to the rpm database comes in as the snapshot `after`. */
module HistoryTransaction {
  import opened Wrappers
  import opened Sequences
  import opened SortedIds
  import opened HistoryTables
  import opened HistoryState
  import opened HistoryFlags
  import opened HistoryDatabase
  import opened HistoryContext
  import opened HistoryRuns
  import HistoryUndo

  datatype Command = Init | Rollback | Undo | Redo

  datatype Args = Args(command: Command, from: int, to: int)

  /** Whether TDNFMarkAutoInstalled sets a flag for `name` at all, ... */
  predicate Marks(pkgs: seq<string>, user: seq<string>, autoOnly: bool, name: string) {
    name in pkgs && (!autoOnly || name !in user)
  }

  /** ... and to which value. */
  function AutoFlag(user: seq<string>, name: string): int {
    if name in user then 0 else 1
  }

  /** Flags as of `now` after marking `pkgs`. */
  ghost predicate MarkedFlags(marks: FlagTables, later: FlagTables, now: int,
                              pkgs: seq<string>, user: seq<string>, autoOnly: bool) {
    && (forall n :: FlagOf(later, now, n) ==
                    if Marks(pkgs, user, autoOnly, n) then AutoFlag(user, n) else FlagOf(marks, now, n))
    && (forall t, n :: t < now ==> FlagOf(later, t, n) == FlagOf(marks, t, n))
  }

  /** The flag of one name after a write for package `p`, or after `p` was passed over. */
  lemma MarkOneName(flag: int, before: int, pkgs: seq<string>, p: string, user: seq<string>, autoOnly: bool, n: string)
    requires flag == if n == p && Marks([p], user, autoOnly, p) then AutoFlag(user, p)
                     else if Marks(pkgs, user, autoOnly, n) then AutoFlag(user, n) else before
    ensures flag == if Marks(pkgs + [p], user, autoOnly, n) then AutoFlag(user, n) else before
  {
  }

  /** One package of the list. */
  lemma MarkOne(marks: FlagTables, mid: FlagTables, later: FlagTables, now: nat,
                pkgs: seq<string>, p: string, user: seq<string>, autoOnly: bool)
    requires now > 0 && FlagLog(mid, now) && MarkedFlags(marks, mid, now, pkgs, user, autoOnly)
    requires if Marks([p], user, autoOnly, p)
             then SetFlagStep(mid, later, now, p, AutoFlag(user, p), true)
                  && (FlagOf(mid, now, p) != AutoFlag(user, p) ==> p in later.names)
             else later == mid
    ensures FlagLog(later, now) && MarkedFlags(marks, later, now, pkgs + [p], user, autoOnly)
  {
    if Marks([p], user, autoOnly, p) { SetFlagRecords(mid, now, later, p, AutoFlag(user, p), true); }
    forall n ensures FlagOf(later, now, n) ==
                     if Marks(pkgs + [p], user, autoOnly, n) then AutoFlag(user, n) else FlagOf(marks, now, n) {
      MarkOneName(FlagOf(later, now, n), FlagOf(marks, now, n), pkgs, p, user, autoOnly, n);
    }
  }

  /** The search through the packages the user named. */
  method UserFlag(name: string, user: seq<string>) returns (flag: int)
    ensures flag == AutoFlag(user, name) == if name in user then 0 else 1
  {
    flag := 1;
    for j := 0 to |user|
      invariant flag == 1 && name !in user[..j]
    {
      if user[j] == name { return 0; }
    }
    assert user[..|user|] == user;
  }

  ghost predicate CanMark(marks: FlagTables, now: int) {
    now > 0 && FlagLog(marks, now)
  }

  /** The flags of the packages installed: 1 for those that nobody asked for, and 0 for the others unless only auto
      installed ones are marked. All other names, and all earlier transactions, keep theirs. */
  ghost predicate MarkedAsAsked(marks: FlagTables, later: FlagTables, now: int,
                                pkgs: seq<string>, user: seq<string>, autoOnly: bool) {
    && (forall n :: n in pkgs && n !in user ==> FlagOf(later, now, n) == 1)
    && (forall n :: n in pkgs && n in user && !autoOnly ==> FlagOf(later, now, n) == 0)
    && (forall n :: n in pkgs && n in user && autoOnly ==> FlagOf(later, now, n) == FlagOf(marks, now, n))
    && (forall n :: n !in pkgs ==> FlagOf(later, now, n) == FlagOf(marks, now, n))
    && (forall t, n :: t < now ==> FlagOf(later, t, n) == FlagOf(marks, t, n))
  }

  /** TDNFMarkAutoInstalled: packages that were installed but not asked for become auto installed. */
  method MarkAutoInstalled(ctx: HistoryCtx, pkgs: seq<string>, user: seq<string>, autoOnly: bool) returns (rc: Rc)
    requires ctx.Valid()
    modifies ctx.db`failures, ctx.db`tables
    ensures ctx.Valid() && ctx.db.failures >= old(ctx.db.failures)
    ensures ctx.db.tables == old(ctx.db.tables).(marks := ctx.db.tables.marks)
    ensures ctx.db.failures == old(ctx.db.failures) && CanMark(old(ctx.db.tables.marks), ctx.transId) ==>
              && rc == Ok && FlagLog(ctx.db.tables.marks, ctx.transId)
              && MarkedFlags(old(ctx.db.tables.marks), ctx.db.tables.marks, ctx.transId, pkgs, user, autoOnly)
              && MarkedAsAsked(old(ctx.db.tables.marks), ctx.db.tables.marks, ctx.transId, pkgs, user, autoOnly)
  {
    rc := Ok;
    var i := 0;
    while i < |pkgs|
      invariant 0 <= i <= |pkgs| && rc == Ok
      invariant ctx.Valid() && ctx.db.failures >= old(ctx.db.failures)
      invariant ctx.db.tables == old(ctx.db.tables).(marks := ctx.db.tables.marks)
      invariant ctx.db.failures == old(ctx.db.failures) && CanMark(old(ctx.db.tables.marks), ctx.transId) ==>
                  && FlagLog(ctx.db.tables.marks, ctx.transId)
                  && MarkedFlags(old(ctx.db.tables.marks), ctx.db.tables.marks, ctx.transId, pkgs[..i], user, autoOnly)
    {
      var flag := UserFlag(pkgs[i], user);
      ghost var mid := ctx.db.tables.marks;
      if !autoOnly || flag == 1 {
        rc := ctx.SetAutoFlag(pkgs[i], flag);
        if rc != Ok { return; }
      }
      if ctx.db.failures == old(ctx.db.failures) && CanMark(old(ctx.db.tables.marks), ctx.transId) {
        assert pkgs[..i + 1] == pkgs[..i] + [pkgs[i]];
        MarkOne(old(ctx.db.tables.marks), mid, ctx.db.tables.marks, ctx.transId, pkgs[..i], pkgs[i], user, autoOnly);
      }
      i := i + 1;
    }
    assert pkgs[..|pkgs|] == pkgs;
  }

  /** The state of the store has come from `s` to `s'` by recording, and shows the packages of `r`. */
  ghost predicate Recorded(s: State, s': State, r: Rpmdb, snap: Snapshots) {
    && Good(s, s', snap) && AtHead(s') && s'.tables.marks == s.tables.marks
    && Nevras(s'.tables.rpms, ToSet(s'.ids)) == Names(r.nevras)
  }

  lemma HeadShows(s: State, r: Rpmdb, snap: Snapshots)
    requires Inv(s, snap) && AtHead(s) && Consistent(r, snap) && s.cookie == Some(r.cookie)
    ensures Nevras(s.tables.rpms, ToSet(s.ids)) == Names(r.nevras)
  {
    assert FaithfulAt(s.tables, snap, s.transId);
  }

  /** history_sync on a good store: without failing statements it succeeds and keeps the store good. */
  method SyncStore(ctx: HistoryCtx, r: Rpmdb, ghost snap: Snapshots) returns (rc: Rc)
    requires ctx.Valid() && Inv(ctx.Abs(), snap) && Consistent(r, snap)
    modifies ctx, ctx.db
    ensures ctx.Valid() && ctx.db.failures >= old(ctx.db.failures)
    ensures rc == Ok ==> ctx.cookie.Some?
    ensures ctx.db.failures == old(ctx.db.failures) ==>
              && rc == Ok && Good(old(ctx.Abs()), ctx.Abs(), snap) && AtHead(ctx.Abs())
              && ctx.db.tables.marks == old(ctx.db.tables.marks)
  {
    ghost var s, failures := ctx.Abs(), ctx.db.failures;
    rc := ctx.Sync(r);
    if rc == Ok { SyncSetsCookie(s, ctx.Abs(), r); }
    if ctx.db.failures == failures {
      SyncSucceeds(s, snap);
      StepKeeps(s, Sync(r), ctx.Abs(), true, snap);
      SyncKeepsMarks(s, ctx.Abs(), r);
    }
  }

  /** TDNFRunTransactionWithHistory: sync, run, record. */
  method RunTransactionWithHistory(ctx: HistoryCtx, before: Rpmdb, runOk: bool, after: Rpmdb, cmdline: string,
                                   ghost snap: Snapshots) returns (ok: bool)
    requires ctx.Valid() && Inv(ctx.Abs(), snap) && Consistent(before, snap) && Consistent(after, snap)
    modifies ctx, ctx.db
    ensures ctx.Valid() && ctx.db.failures >= old(ctx.db.failures) && (ok ==> runOk && ctx.cookie.Some?)
    ensures ctx.db.failures == old(ctx.db.failures) ==> ok == runOk
    ensures ctx.db.failures == old(ctx.db.failures) && ok ==> Recorded(old(ctx.Abs()), ctx.Abs(), after, snap)
  {
    ghost var s, failures := ctx.Abs(), ctx.db.failures;
    var rc := SyncStore(ctx, before, snap);
    ghost var s1 := ctx.Abs();
    if rc != Ok || !runOk { return false; }
    rc := ctx.UpdateState(after, cmdline);
    if ctx.db.failures == failures {
      var s2 := ctx.Abs();
      UpdateKeeps(s1, s2, after, cmdline, true, snap);
      HeadShows(s2, after, snap);
      GoodTwice(s, s1, s2, snap);
    }
    return rc == Ok;
  }

  lemma SyncSetsCookie(s: State, s': State, r: Rpmdb)
    requires SyncStep(s, s', r, true)
    ensures s'.cookie.Some?
  {
    if s.tables.transactions != [] && s.tables.transactions[|s.tables.transactions| - 1].cookie != r.cookie {
      var ids :| SyncedByUpdate(s, s', ids, r, true);
    }
  }

  lemma SyncSucceeds(s: State, snap: Snapshots)
    requires Inv(s, snap)
    ensures s.tables.transactions != [] ==> StateAt(s.tables, |s.tables.transactions|) != None
  {
    if s.tables.transactions != [] { assert FaithfulAt(s.tables, snap, |s.tables.transactions|); }
  }

  lemma SyncKeepsMarks(s: State, s': State, r: Rpmdb)
    requires SyncStep(s, s', r, true)
    ensures s'.tables.marks == s.tables.marks
  {
    if s.tables.transactions != [] && s.tables.transactions[|s.tables.transactions| - 1].cookie != r.cookie {
      var ids :| SyncedByUpdate(s, s', ids, r, true);
    }
  }

  lemma GoodTwice(s: State, s1: State, s2: State, snap: Snapshots)
    requires Good(s, s1, snap) && Good(s1, s2, snap)
    ensures Good(s, s2, snap)
  {
    forall t | 0 < t <= |s.tables.transactions| ensures StateAt(s2.tables, t) == StateAt(s.tables, t) {
      assert StateAt(s1.tables, t) == StateAt(s.tables, t);
    }
  }

  // ----- history commands

  /** What the step after recording has made of the flags, as of any transaction. */
  ghost predicate FlagsBefore(marks: FlagTables, mid: FlagTables, last: int, now: int,
                              pkgs: seq<string>, user: seq<string>, marked: bool) {
    forall t, n :: FlagOf(mid, t, n) == FlagSeen(marks, last, now, pkgs, user, marked, t, n)
  }

  /** The flag of `n` as of `t` when the names to be marked have been marked at `now`. */
  ghost function FlagSeen(marks: FlagTables, last: int, now: int,
                          pkgs: seq<string>, user: seq<string>, marked: bool, t: int, n: string): int {
    if t < now then FlagOf(marks, t, n)
    else if marked && n in pkgs && n !in user then 1
    else FlagOf(marks, last, n)
  }

  /** What a history command makes of the flags, read at the new transaction `now`; `last` was the newest
      transaction before. Rollback restores the flags of its target. Undo and redo carry the flags that changed
      over the range, and leave the others to what was there before. A transaction that is not there yet
      counts as the new one. */
  ghost function FlagWanted(marks: FlagTables, last: int, now: int, args: Args,
                            pkgs: seq<string>, user: seq<string>, marked: bool, n: string): int {
    var seen := (t: int) => FlagSeen(marks, last, now, pkgs, user, marked, t, n);
    match args.command
    case Init => seen(now)
    case Rollback => seen(args.to)
    case Undo => Carried(seen(args.to), seen(args.from - 1), seen(now))
    case Redo => Carried(seen(args.from - 1), seen(args.to), seen(now))
  }

  ghost function Carried(from: int, to: int, other: int): int {
    if from != to then to else other
  }

  lemma FlagsFollow(marks: FlagTables, mid: FlagTables, later: FlagTables, last: int, now: int, args: Args,
                    pkgs: seq<string>, user: seq<string>, marked: bool)
    requires FlagsBefore(marks, mid, last, now, pkgs, user, marked)
    requires match args.command
             case Init => later == mid
             case Rollback => RestoreStep(mid, later, now, args.to, true)
             case Undo => ReplayStep(mid, later, now, args.to, args.from - 1, true)
             case Redo => ReplayStep(mid, later, now, args.from - 1, args.to, true)
    ensures forall n :: FlagOf(later, now, n) == FlagWanted(marks, last, now, args, pkgs, user, marked, n)
  {
    forall n ensures FlagOf(later, now, n) == FlagWanted(marks, last, now, args, pkgs, user, marked, n) {
      match args.command {
        case Init =>
        case Rollback => RestoreReads(mid, now, args.to, n);
        case Undo => ReplayReads(mid, now, args.to, args.from - 1, n);
        case Redo => ReplayReads(mid, now, args.from - 1, args.to, n);
      }
    }
  }

  lemma LateReads(marks: FlagTables, last: nat, t: int, n: string)
    requires FlagLog(marks, last) && last <= t
    ensures FlagOf(marks, t, n) == FlagOf(marks, last, n)
  {
    FlagAtLate(marks.flags, t, last, IdOf(marks.names, n));
  }

  lemma NothingMarked(marks: FlagTables, last: nat, now: nat, pkgs: seq<string>, user: seq<string>)
    requires FlagLog(marks, last) && last < now
    ensures FlagsBefore(marks, marks, last, now, pkgs, user, false)
  {
    forall t, n | t >= now ensures FlagOf(marks, t, n) == FlagOf(marks, last, n) { LateReads(marks, last, t, n); }
  }

  lemma SomeMarked(marks: FlagTables, mid: FlagTables, last: nat, now: nat, pkgs: seq<string>, user: seq<string>)
    requires FlagLog(marks, last) && last < now
    requires FlagLog(mid, now) && MarkedFlags(marks, mid, now, pkgs, user, true)
    ensures FlagsBefore(marks, mid, last, now, pkgs, user, true)
  {
    forall t, n | t >= now ensures FlagOf(mid, t, n) == FlagSeen(marks, last, now, pkgs, user, true, t, n) {
      LateReads(mid, now, t, n);
      LateReads(marks, last, now, n);
    }
  }

  /** The middle part of TDNFRpmExecHistoryTransaction: make sure that there is a transaction after `transId` to
      carry the flags, or mark what the transaction pulled in. */
  method RecordForFlags(ctx: HistoryCtx, transId: nat, pkgs: seq<string>, user: seq<string>, cmdline: string)
    returns (rc: Rc, marked: bool)
    requires ctx.Valid() && ctx.cookie.Some?
    modifies ctx`transId, ctx.db
    ensures ctx.Valid() && ctx.db.failures >= old(ctx.db.failures)
    ensures marked <==> transId != old(ctx.transId)
    ensures !marked ==> AddStep(old(ctx.Abs()), ctx.Abs(), cmdline, rc == Ok)
    ensures marked ==> ctx.Abs() == old(ctx.Abs()).(tables := old(ctx.db.tables).(marks := ctx.db.tables.marks))
    ensures ctx.db.failures == old(ctx.db.failures)
            && FlagLog(old(ctx.db.tables.marks), transId)
            && transId <= old(ctx.transId) == |old(ctx.db.tables).transactions| ==>
              && rc == Ok && transId < ctx.transId
              && FlagLog(ctx.db.tables.marks, ctx.transId)
              && FlagsBefore(old(ctx.db.tables.marks), ctx.db.tables.marks, transId, ctx.transId, pkgs, user, marked)
  {
    ghost var marks, good := ctx.db.tables.marks, transId <= ctx.transId && FlagLog(ctx.db.tables.marks, transId);
    marked := transId != ctx.transId;
    if good { FlagLogLater(marks, transId, ctx.transId); }
    if !marked {
      ghost var n := |ctx.db.tables.transactions|;
      rc := ctx.AddTransaction(cmdline);
      if rc == Ok && good && transId == n { NothingMarked(marks, transId, ctx.transId, pkgs, user); }
    } else {
      rc := MarkAutoInstalled(ctx, pkgs, user, true);
      if ctx.db.failures == old(ctx.db.failures) && good {
        SomeMarked(marks, ctx.db.tables.marks, transId, ctx.transId, pkgs, user);
      }
    }
  }

  /** The flag step of TDNFRpmExecHistoryTransaction. */
  method ApplyFlags(ctx: HistoryCtx, args: Args) returns (rc: Rc)
    requires ctx.Valid()
    modifies ctx.db`failures, ctx.db`tables
    ensures ctx.Valid() && rc != CheckFailed
    ensures ctx.db.failures == old(ctx.db.failures) + if rc == SqlFailed then 1 else 0
    ensures ctx.db.tables == old(ctx.db.tables).(marks := ctx.db.tables.marks)
    ensures match args.command
            case Init => ctx.db.tables.marks == old(ctx.db.tables.marks)
            case Rollback => RestoreStep(old(ctx.db.tables.marks), ctx.db.tables.marks, ctx.transId, args.to, rc == Ok)
            case Undo => ReplayStep(old(ctx.db.tables.marks), ctx.db.tables.marks, ctx.transId,
                                    args.to, args.from - 1, rc == Ok)
            case Redo => ReplayStep(old(ctx.db.tables.marks), ctx.db.tables.marks, ctx.transId,
                                    args.from - 1, args.to, rc == Ok)
  {
    rc := Ok;
    if args.command == Rollback {
      rc := ctx.RestoreAutoFlags(args.to);
    } else if args.command == Undo {
      rc := ctx.ReplayAutoFlags(args.to, args.from - 1);
    } else if args.command == Redo {
      rc := ctx.ReplayAutoFlags(args.from - 1, args.to);
    }
  }

  /** TDNFRpmExecHistoryTransaction on a freshly opened context. Unless a statement fails, it ends with a new
      newest transaction that shows the packages of `after` and carries the wanted flags; `marked` tells
      whether packages had been recorded as changed. */
  method ExecHistoryTransaction(ctx: HistoryCtx, before: Rpmdb, runOk: bool, after: Rpmdb, args: Args,
                                pkgs: seq<string>, user: seq<string>, cmdline: string, ghost snap: Snapshots)
    returns (ok: bool, marked: bool)
    requires ctx.Valid() && Inv(ctx.Abs(), snap) && Consistent(before, snap) && Consistent(after, snap)
    modifies ctx, ctx.db
    ensures ctx.Valid() && ctx.db.failures >= old(ctx.db.failures)
    ensures ctx.db.failures == old(ctx.db.failures) ==> ok == runOk
    ensures ctx.db.failures == old(ctx.db.failures) && ok ==>
              && Good(old(ctx.Abs()), ctx.Abs(), snap) && AtHead(ctx.Abs())
              && ctx.transId > old(ctx.transId)
              && Nevras(ctx.db.tables.rpms, ToSet(ctx.Abs().ids)) == Names(after.nevras)
              && forall n :: FlagOf(ctx.db.tables.marks, ctx.transId, n)
                             == FlagWanted(old(ctx.db.tables.marks), old(ctx.transId), ctx.transId, args,
                                           pkgs, user, marked, n)
  {
    ghost var s, failures := ctx.Abs(), ctx.db.failures;
    marked := false;
    var transId := ctx.transId;
    ok := RunTransactionWithHistory(ctx, before, runOk, after, cmdline, snap);
    ghost var s1 := ctx.Abs();
    if !ok { return; }
    var rc;
    rc, marked := RecordForFlags(ctx, transId, pkgs, user, cmdline);
    ghost var s2 := ctx.Abs();
    if ctx.db.failures == failures { RecordForFlagsKeeps(s, s1, s2, cmdline, marked, after, snap); }
    if rc != Ok { return false, marked; }
    rc := ApplyFlags(ctx, args);
    ok := rc == Ok;
    if ctx.db.failures == failures {
      FlagsFollow(s.tables.marks, s2.tables.marks, ctx.db.tables.marks, transId, ctx.transId, args, pkgs, user, marked);
      ApplyFlagsKeeps(s2, ctx.Abs(), args, snap);
      GoodTwice(s, s2, ctx.Abs(), snap);
    }
  }

  lemma RecordForFlagsKeeps(s: State, s1: State, s2: State, cmdline: string, marked: bool, r: Rpmdb, snap: Snapshots)
    requires Inv(s, snap) && Recorded(s, s1, r, snap)
    requires s2.transId >= 0 && FlagLog(s2.tables.marks, s2.transId)
    requires if marked then s2 == s1.(tables := s1.tables.(marks := s2.tables.marks))
             else AddStep(s1, s2, cmdline, true)
    ensures Good(s, s2, snap) && AtHead(s2) && Nevras(s2.tables.rpms, ToSet(s2.ids)) == Names(r.nevras)
  {
    if marked {
      MarksDontMatter(s1.tables, s2.tables, snap);
    } else {
      AddKeeps(s1, s2, cmdline, true, snap);
    }
    GoodTwice(s, s1, s2, snap);
  }

  lemma ApplyFlagsKeeps(s: State, s': State, args: Args, snap: Snapshots)
    requires Inv(s, snap) && AtHead(s) && s' == s.(tables := s.tables.(marks := s'.tables.marks))
    requires match args.command
             case Init => s'.tables.marks == s.tables.marks
             case Rollback => RestoreStep(s.tables.marks, s'.tables.marks, s.transId, args.to, true)
             case Undo => ReplayStep(s.tables.marks, s'.tables.marks, s.transId, args.to, args.from - 1, true)
             case Redo => ReplayStep(s.tables.marks, s'.tables.marks, s.transId, args.from - 1, args.to, true)
    ensures Good(s, s', snap) && AtHead(s')
  {
    match args.command {
      case Init => assert s' == s;
      case Rollback => FlagsKeep(s, Restore(args.to), s', true, snap);
      case Undo => FlagsKeep(s, ReplayFlags(args.to, args.from - 1), s', true, snap);
      case Redo => FlagsKeep(s, ReplayFlags(args.from - 1, args.to), s', true, snap);
    }
  }

  // ----- TDNFHistoryResolve

  datatype ResolveResult = Resolved | InvalidParameter | HistoryError

  predicate ValidArgs(args: Args) {
    match args.command
    case Init => true
    case Rollback => args.to > 0
    case Undo => args.from > 1 && args.from <= args.to
    case Redo => args.from > 1 && args.from <= args.to
  }

  /** Where the packages are to come from and go to: a rollback starts from what is installed, undo and redo
      start from one end of their range. */
  ghost predicate ResolvedDelta(s: State, args: Args, hd: HistoryDelta) {
    match args.command
    case Init => true
    case Rollback => StateAt(s.tables, args.to).Some? && Turns(hd, ToSet(s.ids), StateAt(s.tables, args.to).value)
    case Undo => DeltaRange(s.tables, hd, args.to, args.from - 1)
    case Redo => DeltaRange(s.tables, hd, args.from - 1, args.to)
  }

  ghost predicate DeltaRange(tables: Tables, hd: HistoryDelta, from: int, to: int) {
    && StateAt(tables, from).Some? && StateAt(tables, to).Some?
    && Turns(hd, StateAt(tables, from).value, StateAt(tables, to).value)
  }

  /** From and to which transaction a command looks for changed flags. */
  function FlagRange(args: Args, now: int): (int, int) {
    match args.command
    case Undo => (args.to, args.from - 1)
    case Redo => (args.from - 1, args.to)
    case _ => (now, args.to)
  }

  ghost function ResolvedFlags(s: State, args: Args): Option<seq<(int, int)>> {
    if args.command == Init || !s.tables.marks.hasNames then None
    else
      var marks, range := s.tables.marks, FlagRange(args, s.transId);
      Some(FlagsDelta(marks.flags, s.transId, range.0, range.1, |marks.names|))
  }

  /** The end of TDNFHistoryResolve: whether there is something to do, given whether packages change. None where
      the source reads the length of a flags delta that is null. */
  function NeedAction(packages: bool, hfd: Option<seq<(int, int)>>): Option<bool> {
    if packages then Some(true)
    else match hfd
      case None => None
      case Some(delta) => Some(delta != [])
  }

  /** The flag that carrying out the command gives `n`, as ExecHistoryTransaction does it, if no package is marked. */
  ghost function FlagAfter(s: State, args: Args, n: string): int {
    FlagWanted(s.tables.marks, s.transId, s.transId + 1, args, [], [], false, n)
  }

  /** A command that changes no package goes wrong exactly if no flag was ever set; otherwise there is something to
      do exactly if carrying out the command gives some name another flag. */
  lemma NeedActionExact(s: State, args: Args, packages: bool)
    requires s.transId >= 0 && FlagLog(s.tables.marks, s.transId) && args.command != Init
    ensures NeedAction(packages, ResolvedFlags(s, args)) == None <==> !packages && !s.tables.marks.hasNames
    ensures NeedAction(packages, ResolvedFlags(s, args)) == Some(false)
       <==> !packages && s.tables.marks.hasNames
            && forall n :: FlagAfter(s, args, n) == FlagOf(s.tables.marks, s.transId, n)
  {
    if s.tables.marks.hasNames { NothingListed(s, args); }
  }

  /** The flags delta lists exactly the names whose flag the command changes, with their new flags. */
  lemma ResolvedListed(s: State, args: Args, i: int, value: int)
    requires s.transId >= 0 && FlagLog(s.tables.marks, s.transId) && args.command != Init && s.tables.marks.hasNames
    ensures var names := s.tables.marks.names;
            (i, value) in ResolvedFlags(s, args).value <==>
              && 0 < i <= |names| && value == FlagAfter(s, args, names[i - 1])
              && value != FlagOf(s.tables.marks, s.transId, names[i - 1])
  {
    var marks, range := s.tables.marks, FlagRange(args, s.transId);
    FlagsDeltaLists(marks.flags, s.transId, range.0, range.1, |marks.names|, i, value);
    if 0 < i <= |marks.names| { NamedFlag(s, args, i); }
  }

  lemma {:induction false} FlagsDeltaLists(flags: seq<FlagEntry>, now: int, from: int, to: int, count: nat,
                                           i: int, value: int)
    ensures (i, value) in FlagsDelta(flags, now, from, to, count) <==>
              && 0 < i <= count && FlagAt(flags, from, i) != FlagAt(flags, to, i)
              && FlagAt(flags, to, i) == value != FlagAt(flags, now, i)
  {
    if count > 0 {
      FlagsDeltaLists(flags, now, from, to, count - 1, i, value);
      InPairs(FlagsDelta(flags, now, from, to, count - 1), (count, FlagAt(flags, to, count)), (i, value));
    }
  }

  lemma InPairs(pairs: seq<(int, int)>, last: (int, int), p: (int, int))
    ensures p in pairs + [last] <==> p in pairs || p == last
  {
  }

  /** Nothing is listed exactly if nothing changes. */
  lemma NothingListed(s: State, args: Args)
    requires s.transId >= 0 && FlagLog(s.tables.marks, s.transId) && args.command != Init && s.tables.marks.hasNames
    ensures ResolvedFlags(s, args).value == [] <==>
              forall n :: FlagAfter(s, args, n) == FlagOf(s.tables.marks, s.transId, n)
  {
    ListedChanges(s, args);
    var marks, delta := s.tables.marks, ResolvedFlags(s, args).value;
    forall n | delta == [] ensures FlagAfter(s, args, n) == FlagOf(marks, s.transId, n) {
      if n in marks.names { ResolvedListed(s, args, IdOf(marks.names, n), FlagAfter(s, args, n)); }
    }
  }

  lemma ListedChanges(s: State, args: Args)
    requires s.transId >= 0 && FlagLog(s.tables.marks, s.transId) && args.command != Init && s.tables.marks.hasNames
    ensures ResolvedFlags(s, args).value != [] ==>
              exists n :: FlagAfter(s, args, n) != FlagOf(s.tables.marks, s.transId, n)
  {
    var delta := ResolvedFlags(s, args).value;
    if delta != [] {
      var p := delta[0];
      assert p == (p.0, p.1) && p in delta;
      ResolvedListed(s, args, p.0, p.1);
      var n := s.tables.marks.names[p.0 - 1];
      assert FlagAfter(s, args, n) != FlagOf(s.tables.marks, s.transId, n);
    }
  }

  lemma NamedFlag(s: State, args: Args, i: int)
    requires s.transId >= 0 && FlagLog(s.tables.marks, s.transId) && args.command != Init && s.tables.marks.hasNames
    requires 0 < i <= |s.tables.marks.names|
    ensures var marks, range, n := s.tables.marks, FlagRange(args, s.transId), s.tables.marks.names[i - 1];
            && FlagOf(marks, s.transId, n) == FlagAt(marks.flags, s.transId, i)
            && FlagAfter(s, args, n)
               == Carried(FlagAt(marks.flags, range.0, i), FlagAt(marks.flags, range.1, i),
                          FlagAt(marks.flags, s.transId, i))
  {
    var marks, range := s.tables.marks, FlagRange(args, s.transId);
    SeenNow(s, range.0, marks.names[i - 1]);
    SeenNow(s, range.1, marks.names[i - 1]);
    NamedRead(marks, s.transId, i);
    NamedRead(marks, range.0, i);
    NamedRead(marks, range.1, i);
  }

  /** Before the command has added its transaction, reading as of that is reading as of the newest. */
  lemma SeenNow(s: State, t: int, n: string)
    requires s.transId >= 0 && FlagLog(s.tables.marks, s.transId)
    ensures FlagSeen(s.tables.marks, s.transId, s.transId + 1, [], [], false, t, n) == FlagOf(s.tables.marks, t, n)
  {
    if s.transId <= t { LateReads(s.tables.marks, s.transId, t, n); }
  }

  lemma NamedRead(marks: FlagTables, t: int, i: int)
    requires Distinct(marks.names) && marks.hasNames && (!marks.hasFlags ==> marks.flags == [])
    requires 0 < i <= |marks.names|
    ensures FlagOf(marks, t, marks.names[i - 1]) == FlagAt(marks.flags, t, i)
  {
    IdOfUnique(marks.names, i);
  }

  /** What the flags are after the command, for transactions that are there: rollback gives every name the flag of its
      target; undo of the newest transactions gives every name the flag from before them; redo gives every name the
      flag of the end of the range, if the flags were those from before it. */
  lemma FlagsComeOut(s: State, args: Args)
    requires s.transId >= 0 && 0 < args.from && args.from - 1 <= s.transId && args.to <= s.transId
    ensures args.command == Rollback ==>
              forall n :: FlagAfter(s, args, n) == FlagOf(s.tables.marks, args.to, n)
    ensures args.command == Undo && args.to == s.transId ==>
              forall n :: FlagAfter(s, args, n) == FlagOf(s.tables.marks, args.from - 1, n)
    ensures args.command == Redo
            && (forall n :: FlagOf(s.tables.marks, s.transId, n) == FlagOf(s.tables.marks, args.from - 1, n)) ==>
              forall n :: FlagAfter(s, args, n) == FlagOf(s.tables.marks, args.to, n)
  {
  }

  /** What the packages are after the delta: rollback reaches its target, undo from the end of its range the state
      before it, and redo from the state before its range the end of it. */
  lemma DeltaComesOut(s: State, args: Args, hd: HistoryDelta)
    requires ResolvedDelta(s, args, hd)
    ensures args.command == Rollback ==> Some(ApplyDelta(ToSet(s.ids), hd)) == StateAt(s.tables, args.to)
    ensures args.command == Undo && StateAt(s.tables, args.to) == Some(ToSet(s.ids)) ==>
              Some(ApplyDelta(ToSet(s.ids), hd)) == StateAt(s.tables, args.from - 1)
    ensures args.command == Redo && StateAt(s.tables, args.from - 1) == Some(ToSet(s.ids)) ==>
              Some(ApplyDelta(ToSet(s.ids), hd)) == StateAt(s.tables, args.to)
  {
    var to, before := StateAt(s.tables, args.to), StateAt(s.tables, args.from - 1);
    if to.Some? && Turns(hd, ToSet(s.ids), to.value) { HistoryUndo.DeltaTurns(hd, ToSet(s.ids), to.value); }
    if before.Some? && Turns(hd, ToSet(s.ids), before.value) {
      HistoryUndo.DeltaTurns(hd, ToSet(s.ids), before.value);
    }
  }

  /** Such a case: the first sync and then a rollback to the only transaction. Nothing is added or removed, and the null
      delta is read. */
  lemma NullDeltaExample(r: Rpmdb, snap: Snapshots)
    requires Consistent(r, snap)
    ensures var s, args := AfterRecord(FreshContext(Opened(EmptyTables), r.nevras, r)), Args(Rollback, 0, 1);
            && Step(Opened(EmptyTables), Sync(r), s, true) && AtHead(s) && ValidArgs(args)
            && ResolvedDelta(s, args, HistoryDelta([], []))
            && NeedAction(false, ResolvedFlags(s, args)) == None
  {
    FirstSyncStep(r, snap);
    FreshKeeps(Opened(EmptyTables), r.nevras, r, snap);
  }

  /** The history part of TDNFHistoryResolve: checks the arguments, syncs, and picks the package delta and the
      flags delta of the command. */
  method HistoryResolve(ctx: HistoryCtx, r: Rpmdb, args: Args, ghost snap: Snapshots)
    returns (result: ResolveResult, hd: HistoryDelta, hfd: Option<seq<(int, int)>>)
    requires ctx.Valid() && Inv(ctx.Abs(), snap) && Consistent(r, snap)
    modifies ctx, ctx.db
    ensures ctx.Valid()
    ensures result == InvalidParameter <==>
              || (args.command == Rollback && args.to <= 0)
              || ((args.command == Undo || args.command == Redo) && (args.from <= 1 || args.to < args.from))
    ensures result == InvalidParameter ==> ctx.Abs() == old(ctx.Abs())
    ensures ctx.db.failures == old(ctx.db.failures) && result == Resolved ==>
              && Good(old(ctx.Abs()), ctx.Abs(), snap) && AtHead(ctx.Abs())
              && ResolvedDelta(ctx.Abs(), args, hd) && hfd == ResolvedFlags(ctx.Abs(), args)
    ensures ctx.db.failures == old(ctx.db.failures) ==> result != HistoryError
  {
    ghost var s, failures := ctx.Abs(), ctx.db.failures;
    hd, hfd := HistoryDelta([], []), None;
    if args.command == Rollback {
      if args.to <= 0 { return InvalidParameter, hd, hfd; }
    } else if args.command == Undo || args.command == Redo {
      if args.from <= 1 || args.from > args.to { return InvalidParameter, hd, hfd; }
    }
    var rc := SyncStore(ctx, r, snap);
    ghost var s1 := ctx.Abs();
    if rc != Ok { return HistoryError, hd, hfd; }
    if args.command == Init { return Resolved, hd, hfd; }
    result, hd, hfd := PickDeltas(ctx, args);
    if ctx.db.failures == failures {
      EveryTargetReplays(s1.tables, args.to);
      if args.command != Rollback { EveryTargetReplays(s1.tables, args.from - 1); }
    }
  }

  /** Targets beyond the newest transaction are accepted, and stand for the newest state. */
  lemma {:induction false} BeyondIsNewest(tables: Tables, t: int)
    requires WellFormed(tables) && |tables.transactions| <= t
    ensures StateAt(tables, t) == StateAt(tables, |tables.transactions|)
    decreases t
  {
    if |tables.transactions| < t {
      BeyondIsNewest(tables, t - 1);
      var rows := RowsOf(tables.items, t);
      assert rows != [] ==> rows[0] in rows;
      RowsOfMembers(tables.items, t);
      assert forall i :: i in tables.items ==> ItemFits(tables, i);
    }
  }

  lemma EveryTargetReplays(tables: Tables, t: int)
    requires WellFormed(tables) && tables.transactions != [] && 0 < t
    ensures StateAt(tables, t).Some?
  {
    if t <= |tables.transactions| {
      StateAtFormula(tables, t);
    } else {
      BeyondIsNewest(tables, t);
      StateAtFormula(tables, |tables.transactions|);
    }
  }

  ghost predicate EndsReplay(tables: Tables, args: Args) {
    StateAt(tables, args.to).Some? && (args.command != Rollback ==> StateAt(tables, args.from - 1).Some?)
  }

  /** The switch over the command. */
  method PickDeltas(ctx: HistoryCtx, args: Args)
    returns (result: ResolveResult, hd: HistoryDelta, hfd: Option<seq<(int, int)>>)
    requires ctx.Valid() && args.command != Init
    modifies ctx.db`failures
    ensures result != InvalidParameter && ctx.db.failures >= old(ctx.db.failures)
    ensures ctx.db.failures == old(ctx.db.failures) && result == Resolved && StrictlySorted(ctx.Abs().ids) ==>
              ResolvedDelta(ctx.Abs(), args, hd) && hfd == ResolvedFlags(ctx.Abs(), args)
    ensures ctx.db.failures == old(ctx.db.failures) && EndsReplay(ctx.db.tables, args) ==> result == Resolved
  {
    var rc, rcFlags;
    hd, hfd := HistoryDelta([], []), None;
    match args.command {
      case Rollback =>
        rc, hd := ctx.GetDelta(args.to);
        rcFlags, hfd := ctx.GetFlagsDelta(ctx.transId, args.to);
      case Undo =>
        rc, hd := ctx.GetDeltaRange(args.from - 1, args.to);
        rcFlags, hfd := ctx.GetFlagsDelta(args.to, args.from - 1);
      case Redo =>
        rc, hd := ctx.GetDeltaRange(args.to, args.from - 1);
        rcFlags, hfd := ctx.GetFlagsDelta(args.from - 1, args.to);
    }
    result := if rc == Ok then Resolved else HistoryError;
  }

  /** The packages of a delta as solvables. `find` gives the solvables of a NEVRA that are installed or not, None
      for a NEVRA that cannot be split. Signing keys are skipped, what is already there is not installed
      again, and what no repository offers is reported. */
  method FillQueues(hd: HistoryDelta, idmap: seq<string>, find: (string, bool) -> Option<seq<int>>)
    returns (ok: bool, install: seq<int>, erase: seq<int>, missing: seq<string>)
    ensures ok <==> (forall id :: id in hd.added ==> CanInstall(id, idmap, find))
                    && (forall id :: id in hd.removed ==> CanErase(id, idmap, find))
    ensures ok ==> install == Installs(hd.added, idmap, find) && missing == Missing(hd.added, idmap, find)
    ensures ok ==> erase == Erases(hd.removed, idmap, find)
  {
    erase := [];
    ok, install, missing := QueueInstalls(hd.added, idmap, find);
    if !ok { return; }
    ok, erase := QueueErases(hd.removed, idmap, find);
  }

  /** The searches for an added id succeed: what is not on offer is not looked for among the installed. */
  predicate CanInstall(id: int, idmap: seq<string>, find: (string, bool) -> Option<seq<int>>) {
    && 0 < id <= |idmap|
    && var n := idmap[id - 1];
       IsKey(n) || (find(n, false).Some? && (find(n, false).value == [] || find(n, true).Some?))
  }

  /** The search for a removed id succeeds. */
  predicate CanErase(id: int, idmap: seq<string>, find: (string, bool) -> Option<seq<int>>) {
    0 < id <= |idmap| && (IsKey(idmap[id - 1]) || find(idmap[id - 1], true).Some?)
  }

  /** One turn of the loop over the added packages. */
  method QueueInstall(id: int, idmap: seq<string>, find: (string, bool) -> Option<seq<int>>)
    returns (ok: bool, install: seq<int>, missing: seq<string>)
    ensures ok <==> CanInstall(id, idmap, find)
    ensures ok ==> install == InstallOf(id, idmap, find) && missing == MissingOf(id, idmap, find)
  {
    ok, install, missing := true, [], [];
    var nevra := GetNevra(idmap, id);
    if nevra == None { return false, [], []; }
    if IsKey(nevra.value) { return; }
    var available := find(nevra.value, false);
    if available == None { return false, [], []; }
    if available.value == [] { return true, [], [nevra.value]; }
    var installed := find(nevra.value, true);
    if installed == None { return false, [], []; }
    if installed.value == [] { return true, [available.value[0]], []; }
  }

  method QueueInstalls(added: seq<int>, idmap: seq<string>, find: (string, bool) -> Option<seq<int>>)
    returns (ok: bool, install: seq<int>, missing: seq<string>)
    ensures ok <==> forall id :: id in added ==> CanInstall(id, idmap, find)
    ensures ok ==> install == Installs(added, idmap, find) && missing == Missing(added, idmap, find)
  {
    install, missing := [], [];
    for i := 0 to |added|
      invariant forall id :: id in added[..i] ==> CanInstall(id, idmap, find)
      invariant install == Installs(added[..i], idmap, find) && missing == Missing(added[..i], idmap, find)
    {
      OneMoreId(added, i);
      var more, others;
      ok, more, others := QueueInstall(added[i], idmap, find);
      if !ok { return; }
      install, missing := install + more, missing + others;
    }
    assert added[..|added|] == added;
    ok := true;
  }

  lemma OneMoreId(ids: seq<int>, i: nat)
    requires i < |ids|
    ensures ids[..i + 1] != [] && ids[..i + 1][..i] == ids[..i] && ids[..i + 1][i] == ids[i] && ids[i] in ids
    ensures forall id :: id in ids[..i + 1] <==> id in ids[..i] || id == ids[i]
  {
    assert ids[..i + 1] == ids[..i] + [ids[i]];
  }

  method QueueErases(removed: seq<int>, idmap: seq<string>, find: (string, bool) -> Option<seq<int>>)
    returns (ok: bool, erase: seq<int>)
    ensures ok <==> forall id :: id in removed ==> CanErase(id, idmap, find)
    ensures ok ==> erase == Erases(removed, idmap, find)
  {
    erase := [];
    for i := 0 to |removed|
      invariant forall id :: id in removed[..i] ==> CanErase(id, idmap, find)
      invariant erase == Erases(removed[..i], idmap, find)
    {
      OneMoreId(removed, i);
      var nevra := GetNevra(idmap, removed[i]);
      if nevra == None { return false, erase; }
      if IsKey(nevra.value) { continue; }
      var installed := find(nevra.value, true);
      if installed == None { return false, erase; }
      erase := erase + installed.value;
    }
    assert removed[..|removed|] == removed;
    ok := true;
  }

  predicate IsKey(nevra: string) {
    "gpg-pubkey-" <= nevra
  }

  /** Whether the package with this id has to be installed: no key, on offer, and not installed. */
  predicate Wanted(id: int, idmap: seq<string>, find: (string, bool) -> Option<seq<int>>) {
    && 0 < id <= |idmap| && !IsKey(idmap[id - 1])
    && find(idmap[id - 1], false).Some? && find(idmap[id - 1], false).value != []
    && find(idmap[id - 1], true) == Some([])
  }

  function InstallOf(id: int, idmap: seq<string>, find: (string, bool) -> Option<seq<int>>): seq<int> {
    if Wanted(id, idmap, find) then [find(idmap[id - 1], false).value[0]] else []
  }

  function MissingOf(id: int, idmap: seq<string>, find: (string, bool) -> Option<seq<int>>): seq<string> {
    if 0 < id <= |idmap| && !IsKey(idmap[id - 1]) && find(idmap[id - 1], false) == Some([]) then [idmap[id - 1]]
    else []
  }

  function EraseOf(id: int, idmap: seq<string>, find: (string, bool) -> Option<seq<int>>): seq<int> {
    if 0 < id <= |idmap| && !IsKey(idmap[id - 1]) && find(idmap[id - 1], true).Some?
    then find(idmap[id - 1], true).value else []
  }

  function Installs(ids: seq<int>, idmap: seq<string>, find: (string, bool) -> Option<seq<int>>): seq<int> {
    if ids == [] then []
    else Installs(ids[..|ids| - 1], idmap, find) + InstallOf(ids[|ids| - 1], idmap, find)
  }

  function Missing(ids: seq<int>, idmap: seq<string>, find: (string, bool) -> Option<seq<int>>): seq<string> {
    if ids == [] then []
    else Missing(ids[..|ids| - 1], idmap, find) + MissingOf(ids[|ids| - 1], idmap, find)
  }

  function Erases(ids: seq<int>, idmap: seq<string>, find: (string, bool) -> Option<seq<int>>): seq<int> {
    if ids == [] then []
    else Erases(ids[..|ids| - 1], idmap, find) + EraseOf(ids[|ids| - 1], idmap, find)
  }

  /** Every package that rollback, undo or redo should bring back is accounted for: it is a signing key, reported
      as missing, installed already, or queued. */
  lemma {:induction false} EveryAdditionAccountedFor(ids: seq<int>, idmap: seq<string>,
                                                     find: (string, bool) -> Option<seq<int>>, id: int)
    requires id in ids && CanInstall(id, idmap, find)
    ensures || IsKey(idmap[id - 1])
            || idmap[id - 1] in Missing(ids, idmap, find)
            || (find(idmap[id - 1], true).Some? && find(idmap[id - 1], true).value != [])
            || (find(idmap[id - 1], false).value != []
                && find(idmap[id - 1], false).value[0] in Installs(ids, idmap, find))
  {
    if ids[|ids| - 1] != id { EveryAdditionAccountedFor(ids[..|ids| - 1], idmap, find, id); }
  }

  /** Nothing is queued for installation but what an added id stands for that is on offer and not installed, ... */
  lemma {:induction false} InstallsExact(ids: seq<int>, idmap: seq<string>, find: (string, bool) -> Option<seq<int>>,
                                         x: int)
    ensures x in Installs(ids, idmap, find) <==> exists id :: id in ids && Installing(id, idmap, find, x)
  {
    if ids != [] {
      var init, last := ids[..|ids| - 1], ids[|ids| - 1];
      InstallsExact(init, idmap, find, x);
      InitOrLast(ids);
      assert (exists id :: id in ids && Installing(id, idmap, find, x)) <==>
             (exists id :: id in init && Installing(id, idmap, find, x)) || Installing(last, idmap, find, x);
    }
  }

  ghost predicate Installing(id: int, idmap: seq<string>, find: (string, bool) -> Option<seq<int>>, x: int) {
    && 0 < id <= |idmap| && !IsKey(idmap[id - 1])
    && find(idmap[id - 1], false).Some? && find(idmap[id - 1], false).value != []
    && find(idmap[id - 1], false).value[0] == x
    && find(idmap[id - 1], true) == Some([])
  }

  /** Keys are told from packages by how their NEVRA begins. */
  lemma KeysBegin(n: string)
    ensures IsKey(n) <==> |n| >= 11 && n[..11] == "gpg-pubkey-"
  {
  }

  /** ... nothing is reported as missing but what an added id stands for that is not on offer, ... */
  lemma {:induction false} MissingExact(ids: seq<int>, idmap: seq<string>, find: (string, bool) -> Option<seq<int>>,
                                        n: string)
    ensures n in Missing(ids, idmap, find) <==>
              !IsKey(n) && find(n, false) == Some([]) && exists id :: id in ids && StandsFor(id, idmap, n)
  {
    if ids != [] {
      var init, last := ids[..|ids| - 1], ids[|ids| - 1];
      MissingExact(init, idmap, find, n);
      InitOrLast(ids);
      assert (exists id :: id in ids && StandsFor(id, idmap, n)) <==>
             (exists id :: id in init && StandsFor(id, idmap, n)) || StandsFor(last, idmap, n);
    }
  }

  ghost predicate StandsFor(id: int, idmap: seq<string>, n: string) {
    0 < id <= |idmap| && idmap[id - 1] == n
  }

  lemma InitOrLast(ids: seq<int>)
    requires ids != []
    ensures forall id :: id in ids <==> id in ids[..|ids| - 1] || id == ids[|ids| - 1]
  {
    assert ids == ids[..|ids| - 1] + [ids[|ids| - 1]];
  }

  /** ... and what is queued to be erased are all the installed solvables of the removed ids, except for keys. */
  lemma {:induction false} ErasesExact(ids: seq<int>, idmap: seq<string>, find: (string, bool) -> Option<seq<int>>,
                                       x: int)
    ensures x in Erases(ids, idmap, find) <==> exists id :: id in ids && Erasing(id, idmap, find, x)
  {
    if ids != [] {
      var init, last := ids[..|ids| - 1], ids[|ids| - 1];
      ErasesExact(init, idmap, find, x);
      InitOrLast(ids);
      assert (exists id :: id in ids && Erasing(id, idmap, find, x)) <==>
             (exists id :: id in init && Erasing(id, idmap, find, x)) || Erasing(last, idmap, find, x);
    }
  }

  ghost predicate Erasing(id: int, idmap: seq<string>, find: (string, bool) -> Option<seq<int>>, x: int) {
    && 0 < id <= |idmap| && !IsKey(idmap[id - 1])
    && find(idmap[id - 1], true).Some? && x in find(idmap[id - 1], true).value
  }

  /** What the search finds are solvables of the name asked for, installed ones or others as asked. */
  ghost predicate Finds(find: (string, bool) -> Option<seq<int>>, nevraOf: int -> string, installed: set<int>) {
    forall n, b, x :: Found(find, n, b, x) ==> nevraOf(x) == n && (x in installed <==> b)
  }

  ghost predicate Found(find: (string, bool) -> Option<seq<int>>, n: string, b: bool, x: int) {
    find(n, b).Some? && x in find(n, b).value
  }

  /** If the search for installed solvables of the name `n` succeeds, it finds all of them. */
  ghost predicate FindsAll(find: (string, bool) -> Option<seq<int>>, nevraOf: int -> string, installed: set<int>,
                           n: string) {
    forall x :: x in installed && nevraOf(x) == n && find(n, true).Some? ==> Found(find, n, true, x)
  }

  ghost predicate Has(solvables: set<int>, nevraOf: int -> string, n: string) {
    exists x :: x in solvables && nevraOf(x) == n
  }

  /** A delta whose queues could be filled, as far as it concerns `id`, a known package that is no key. */
  ghost predicate Queued(hd: HistoryDelta, idmap: seq<string>, find: (string, bool) -> Option<seq<int>>, id: int) {
    && 0 < id <= |idmap| && !IsKey(idmap[id - 1])
    && (id in hd.added ==> CanInstall(id, idmap, find)) && (id in hd.removed ==> CanErase(id, idmap, find))
  }

  /** If both queues are carried out, a package that is no key is installed exactly if it is among the ids after the
      delta, and was not reported as missing unless it had been installed all along. */
  lemma QueuesReach(hd: HistoryDelta, idmap: seq<string>, find: (string, bool) -> Option<seq<int>>,
                    nevraOf: int -> string, installed: set<int>, have: set<int>, id: int)
    requires Distinct(idmap) && Finds(find, nevraOf, installed)
    requires ToSet(hd.added) !! ToSet(hd.removed)
    requires Queued(hd, idmap, find, id) && FindsAll(find, nevraOf, installed, idmap[id - 1])
    requires id in have <==> Has(installed, nevraOf, idmap[id - 1])
    ensures var after := installed - ToSet(Erases(hd.removed, idmap, find)) + ToSet(Installs(hd.added, idmap, find));
            Has(after, nevraOf, idmap[id - 1]) <==>
              id in ApplyDelta(have, hd) && (idmap[id - 1] in Missing(hd.added, idmap, find) ==> id in have)
  {
    var n := idmap[id - 1];
    ErasedHave(hd.removed, idmap, find, nevraOf, installed, id);
    InstallsHave(hd.added, idmap, find, nevraOf, installed, id);
    MissingHave(hd.added, idmap, find, id);
    HasEither(installed - ToSet(Erases(hd.removed, idmap, find)), ToSet(Installs(hd.added, idmap, find)), nevraOf, n);
  }

  lemma HasEither(a: set<int>, b: set<int>, nevraOf: int -> string, n: string)
    ensures Has(a + b, nevraOf, n) <==> Has(a, nevraOf, n) || Has(b, nevraOf, n)
  {
  }

  lemma MissingHave(added: seq<int>, idmap: seq<string>, find: (string, bool) -> Option<seq<int>>, id: int)
    requires Distinct(idmap) && 0 < id <= |idmap| && !IsKey(idmap[id - 1])
    ensures idmap[id - 1] in Missing(added, idmap, find) <==> id in added && find(idmap[id - 1], false) == Some([])
  {
    MissingExact(added, idmap, find, idmap[id - 1]);
    assert StandsFor(id, idmap, idmap[id - 1]);
  }

  lemma ErasedHave(removed: seq<int>, idmap: seq<string>, find: (string, bool) -> Option<seq<int>>,
                   nevraOf: int -> string, installed: set<int>, id: int)
    requires Distinct(idmap) && Finds(find, nevraOf, installed) && 0 < id <= |idmap| && !IsKey(idmap[id - 1])
    requires id in removed ==> CanErase(id, idmap, find)
    requires FindsAll(find, nevraOf, installed, idmap[id - 1])
    ensures Has(installed - ToSet(Erases(removed, idmap, find)), nevraOf, idmap[id - 1]) <==>
              id !in removed && Has(installed, nevraOf, idmap[id - 1])
  {
    forall x | x in installed && nevraOf(x) == idmap[id - 1]
      ensures x in ToSet(Erases(removed, idmap, find)) <==> id in removed
    {
      OneErased(removed, idmap, find, nevraOf, installed, id, x);
    }
  }

  lemma OneErased(removed: seq<int>, idmap: seq<string>, find: (string, bool) -> Option<seq<int>>,
                  nevraOf: int -> string, installed: set<int>, id: int, x: int)
    requires Distinct(idmap) && Finds(find, nevraOf, installed) && 0 < id <= |idmap| && !IsKey(idmap[id - 1])
    requires id in removed ==> CanErase(id, idmap, find)
    requires FindsAll(find, nevraOf, installed, idmap[id - 1])
    requires x in installed && nevraOf(x) == idmap[id - 1]
    ensures x in Erases(removed, idmap, find) <==> id in removed
  {
    ErasesExact(removed, idmap, find, x);
    if id in removed {
      assert Found(find, idmap[id - 1], true, x);
      assert Erasing(id, idmap, find, x);
    }
    if id' :| id' in removed && Erasing(id', idmap, find, x) {
      assert Found(find, idmap[id' - 1], true, x);
      assert id' == id;
    }
  }

  lemma InstallsHave(added: seq<int>, idmap: seq<string>, find: (string, bool) -> Option<seq<int>>,
                     nevraOf: int -> string, installed: set<int>, id: int)
    requires Distinct(idmap) && Finds(find, nevraOf, installed) && 0 < id <= |idmap| && !IsKey(idmap[id - 1])
    requires id in added ==> CanInstall(id, idmap, find)
    requires FindsAll(find, nevraOf, installed, idmap[id - 1])
    ensures Has(ToSet(Installs(added, idmap, find)), nevraOf, idmap[id - 1]) <==>
              id in added && find(idmap[id - 1], false) != Some([]) && !Has(installed, nevraOf, idmap[id - 1])
  {
    var n := idmap[id - 1];
    if id in added && find(n, false) != Some([]) {
      NoneInstalled(find, nevraOf, installed, n);
      assert Wanted(id, idmap, find) <==> find(n, false) != Some([]) && !Has(installed, nevraOf, n);
      if Wanted(id, idmap, find) {
        var x := find(n, false).value[0];
        FirstIsNamed(find, nevraOf, installed, n);
        assert Installing(id, idmap, find, x);
        InstallsExact(added, idmap, find, x);
      }
    }
    if Has(ToSet(Installs(added, idmap, find)), nevraOf, n) {
      InstalledIs(added, idmap, find, nevraOf, installed, id);
    }
  }

  lemma InstalledIs(added: seq<int>, idmap: seq<string>, find: (string, bool) -> Option<seq<int>>,
                    nevraOf: int -> string, installed: set<int>, id: int)
    requires Distinct(idmap) && Finds(find, nevraOf, installed) && 0 < id <= |idmap|
    requires Has(ToSet(Installs(added, idmap, find)), nevraOf, idmap[id - 1])
    ensures id in added && Wanted(id, idmap, find)
  {
    var x :| x in Installs(added, idmap, find) && nevraOf(x) == idmap[id - 1];
    InstallsExact(added, idmap, find, x);
    var id' :| id' in added && Installing(id', idmap, find, x);
    FirstIsNamed(find, nevraOf, installed, idmap[id' - 1]);
    assert id' == id;
  }

  lemma FirstIsNamed(find: (string, bool) -> Option<seq<int>>, nevraOf: int -> string, installed: set<int>, n: string)
    requires Finds(find, nevraOf, installed) && find(n, false).Some? && find(n, false).value != []
    ensures nevraOf(find(n, false).value[0]) == n
  {
    assert Found(find, n, false, find(n, false).value[0]);
  }

  lemma NoneInstalled(find: (string, bool) -> Option<seq<int>>, nevraOf: int -> string, installed: set<int>, n: string)
    requires Finds(find, nevraOf, installed) && FindsAll(find, nevraOf, installed, n) && find(n, true).Some?
    ensures find(n, true) == Some([]) <==> !Has(installed, nevraOf, n)
  {
    var found := find(n, true).value;
    if found != [] { assert Found(find, n, true, found[0]); }
    if Has(installed, nevraOf, n) {
      var x :| x in installed && nevraOf(x) == n;
      assert Found(find, n, true, x);
    }
  }
}
