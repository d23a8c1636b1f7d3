/** TDNFMark: packages are marked by hand, through a context that was opened and not synced. */
module HistoryMark {
  import opened HistoryTables
  import opened HistoryState
  import opened HistoryFlags
  import opened HistoryDatabase
  import opened HistoryContext
  import opened HistoryRuns
  import opened HistoryTransaction

  /** Flags as of `now` after all of `names` were set. */
  ghost predicate FlagsSet(marks: FlagTables, later: FlagTables, now: int, names: seq<string>, value: int) {
    && (forall n :: FlagOf(later, now, n) == if n in names then value else FlagOf(marks, now, n))
    && (forall t, n :: t < now ==> FlagOf(later, t, n) == FlagOf(marks, t, n))
  }

  lemma SetOne(marks: FlagTables, mid: FlagTables, later: FlagTables, now: nat,
               names: seq<string>, name: string, value: int)
    requires now > 0 && FlagLog(mid, now) && FlagsSet(marks, mid, now, names, value)
    requires SetFlagStep(mid, later, now, name, value, true)
    requires FlagOf(mid, now, name) != value ==> name in later.names
    ensures FlagLog(later, now) && FlagsSet(marks, later, now, names + [name], value)
  {
    SetFlagRecords(mid, now, later, name, value, true);
    forall n ensures FlagOf(later, now, n) == if n in names + [name] then value else FlagOf(marks, now, n) {
      assert n in names + [name] <==> n in names || n == name;
    }
  }

  /** Its loop. Without a transaction the first name fails. */
  method SetFlags(ctx: HistoryCtx, names: seq<string>, value: int) returns (rc: Rc)
    requires ctx.Valid()
    modifies ctx.db`failures, ctx.db`tables
    ensures ctx.Valid() && ctx.db.failures >= old(ctx.db.failures)
    ensures ctx.db.tables == old(ctx.db.tables).(marks := ctx.db.tables.marks)
    ensures ctx.transId <= 0 && names != [] ==>
              rc == CheckFailed && ctx.db.tables.marks.flags == old(ctx.db.tables).marks.flags
    ensures ctx.db.failures == old(ctx.db.failures) && CanMark(old(ctx.db.tables.marks), ctx.transId) ==>
              && rc == Ok && FlagLog(ctx.db.tables.marks, ctx.transId)
              && FlagsSet(old(ctx.db.tables.marks), ctx.db.tables.marks, ctx.transId, names, value)
  {
    rc := Ok;
    for i := 0 to |names|
      invariant rc == Ok && ctx.Valid() && ctx.db.failures >= old(ctx.db.failures)
      invariant ctx.db.tables == old(ctx.db.tables).(marks := ctx.db.tables.marks)
      invariant ctx.transId <= 0 ==> i == 0 && ctx.db.tables == old(ctx.db.tables)
      invariant ctx.db.failures == old(ctx.db.failures) && CanMark(old(ctx.db.tables.marks), ctx.transId) ==>
                  && FlagLog(ctx.db.tables.marks, ctx.transId)
                  && FlagsSet(old(ctx.db.tables.marks), ctx.db.tables.marks, ctx.transId, names[..i], value)
    {
      ghost var mid := ctx.db.tables.marks;
      rc := ctx.SetAutoFlag(names[i], value);
      if rc != Ok { return; }
      if ctx.db.failures == old(ctx.db.failures) && CanMark(old(ctx.db.tables.marks), ctx.transId) {
        assert names[..i + 1] == names[..i] + [names[i]];
        SetOne(old(ctx.db.tables.marks), mid, ctx.db.tables.marks, ctx.transId, names[..i], names[i], value);
      }
    }
    assert names[..|names|] == names;
  }

  /** TDNFMark, for the names of the packages found. The result of history_add_transaction is ignored: if just that
      statement fails, the flags of the newest transaction that there is are changed. On a store without transactions
      it always fails. */
  method Mark(ctx: HistoryCtx, names: seq<string>, value: int, cmdline: string, ghost snap: Snapshots)
    returns (rc: Rc)
    requires ctx.Valid() && Inv(ctx.Abs(), snap)
    modifies ctx`transId, ctx.db
    ensures ctx.Valid() && ctx.db.failures >= old(ctx.db.failures)
    ensures old(ctx.db.tables).transactions == [] && names != [] ==>
              rc == CheckFailed && ctx.db.tables.transactions == []
              && ctx.db.tables.marks.flags == old(ctx.db.tables).marks.flags
    ensures ctx.db.failures == old(ctx.db.failures) && old(ctx.db.tables).transactions != [] ==>
              && rc == Ok && ctx.transId == old(ctx.transId) + 1
              && Good(old(ctx.Abs()), ctx.Abs(), snap) && (AtHead(old(ctx.Abs())) <==> AtHead(ctx.Abs()))
              && StateAt(ctx.db.tables, ctx.transId) == StateAt(old(ctx.db.tables), old(ctx.transId))
              && FlagsSet(old(ctx.db.tables.marks), ctx.db.tables.marks, ctx.transId, names, value)
    ensures ctx.db.failures == old(ctx.db.failures) + 1 && ctx.transId == old(ctx.transId) > 0 ==>
              && rc == Ok && Good(old(ctx.Abs()), ctx.Abs(), snap)
              && ctx.db.tables == old(ctx.db.tables).(marks := ctx.db.tables.marks)
              && FlagsSet(old(ctx.db.tables.marks), ctx.db.tables.marks, ctx.transId, names, value)
  {
    ghost var s := ctx.Abs();
    var added := ctx.AddTransaction(cmdline);
    ghost var s1 := ctx.Abs();
    AddKeeps(s, s1, cmdline, added == Ok, snap);
    rc := SetFlags(ctx, names, value);
    ghost var s2 := ctx.Abs();
    MarksDontMatter(s1.tables, s2.tables, snap);
    if FlagLog(s2.tables.marks, s2.transId) { GoodMarks(s, s1, s2, snap); }
  }

  lemma GoodMarks(s: State, s1: State, s2: State, snap: Snapshots)
    requires Good(s, s1, snap) && s2 == s1.(tables := s1.tables.(marks := s2.tables.marks))
    requires FlagLog(s2.tables.marks, s2.transId)
    ensures Good(s, s2, snap) && (AtHead(s1) <==> AtHead(s2))
  {
    MarksDontMatter(s1.tables, s2.tables, snap);
    GoodTwice(s, s1, s2, snap);
  }
}
