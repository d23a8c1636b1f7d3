/** Rollback, undo and redo on the level of whole states: what the deltas do to the installed packages and
    what is on record afterwards. */
module HistoryUndo {
  import opened Wrappers
  import opened Sequences
  import opened SortedIds
  import opened HistoryTables
  import opened HistoryState
  import opened HistoryContext
  import opened HistoryRuns

  /** Applying the delta reaches the wanted set, and swapping the two sets swaps the two lists. */
  lemma DeltaTurns(d: HistoryDelta, have: set<int>, want: set<int>)
    requires Turns(d, have, want)
    ensures ApplyDelta(have, d) == want
    ensures Turns(HistoryDelta(d.removed, d.added), want, have)
  {
  }

  lemma TurnsUnique(d: HistoryDelta, e: HistoryDelta, have: set<int>, want: set<int>)
    requires Turns(d, have, want) && Turns(e, have, want)
    ensures d == e
  {
    StrictlySortedUnique(d.added, e.added);
    StrictlySortedUnique(d.removed, e.removed);
  }

  /** The delta for (a, b) and the one for (b, a) are each other's mirror image. */
  lemma SwappedRangeSwapsDelta(d: HistoryDelta, e: HistoryDelta, a: set<int>, b: set<int>)
    requires Turns(d, b, a) && Turns(e, a, b)
    ensures e == HistoryDelta(d.removed, d.added)
  {
    TurnsUnique(e, HistoryDelta(d.removed, d.added), a, b);
  }

  /** The ids on which two states differ. */
  ghost function Changed(a: set<int>, b: set<int>): set<int> {
    (a - b) + (b - a)
  }

  /** Undo of a range followed by redo of the same range is the identity on exactly those installed sets that
      agree with the state at the end of the range on everything the range changed. */
  lemma UndoThenRedo(undo: HistoryDelta, redo: HistoryDelta, before: set<int>, after: set<int>, have: set<int>)
    requires Turns(undo, after, before) && Turns(redo, before, after)
    ensures ApplyDelta(ApplyDelta(have, undo), redo) == have
        <==> have * Changed(before, after) == after * Changed(before, after)
  {
    var there := ApplyDelta(ApplyDelta(have, undo), redo);
    forall x ensures x in there <==> x in after - before || (x in have && x !in Changed(before, after)) {
      assert x in ApplyDelta(have, undo) <==> (x in have && x !in after - before) || x in before - after;
    }
    if there == have {
      forall x ensures x in have * Changed(before, after) <==> x in after * Changed(before, after) {
        assert x in there <==> x in have;
      }
    }
    if have * Changed(before, after) == after * Changed(before, after) {
      forall x ensures x in there <==> x in have {
        assert x in have * Changed(before, after) <==> x in after * Changed(before, after);
      }
    }
  }

  // ----- on record

  /** The packages that `r` reports are those that `ids` stand for. */
  ghost predicate Shows(r: Rpmdb, rpms: seq<string>, ids: set<int>) {
    Names(r.nevras) == Nevras(rpms, ids)
  }

  /** The outcome `r` of an rpm transaction is put on record: by an update, or by an empty transaction if the
      rpm database did not change. */
  ghost predicate RecordedBy(s: State, s': State, r: Rpmdb, cmdline: string) {
    if s.cookie == Some(r.cookie) then AddStep(s, s', cmdline, true)
    else UpdateStep(s, s', r, cmdline, true) && s'.transId == |s'.tables.transactions|
  }

  /** If the rpm transaction left exactly the packages that the ids `want` stand for, then recording the result
      gives a newest transaction that replays to `want`. The dictionary knows all of them, so no insert can be
      lost on the way. */
  lemma RecordingReaches(s: State, s': State, r: Rpmdb, cmdline: string, want: set<int>, snap: Snapshots)
    requires Inv(s, snap) && AtHead(s) && Consistent(r, snap)
    requires (forall id :: id in want ==> 0 < id <= |s.tables.rpms|) && Shows(r, s.tables.rpms, want)
    requires RecordedBy(s, s', r, cmdline)
    ensures Good(s, s', snap) && AtHead(s') && s'.transId == s.transId + 1
    ensures StateAt(s'.tables, s'.transId) == Some(want)
  {
    KnownNames(s.tables.rpms, r, want, s'.tables.rpms);
    if s.cookie == Some(r.cookie) {
      AddKeeps(s, s', cmdline, true, snap);
    } else {
      UpdateKeeps(s, s', r, cmdline, true, snap);
    }
    HeadIs(s', r, want, snap);
  }

  lemma KnownNames(rpms: seq<string>, r: Rpmdb, ids: set<int>, dict: seq<string>)
    requires rpms <= dict && Shows(r, rpms, ids) && forall id :: id in ids ==> 0 < id <= |rpms|
    ensures Covers(dict, r.nevras) && Shows(r, dict, ids)
  {
    NevrasGrown(rpms, dict, ids);
    forall n | n in r.nevras ensures n in dict {
      assert n in Names(r.nevras);
      var id :| id in ids && 0 < id <= |rpms| && rpms[id - 1] == n;
      assert dict[id - 1] == n;
    }
  }

  lemma HeadIs(s: State, r: Rpmdb, want: set<int>, snap: Snapshots)
    requires Inv(s, snap) && AtHead(s) && Consistent(r, snap) && s.cookie == Some(r.cookie)
    requires Shows(r, s.tables.rpms, want) && forall id :: id in want ==> 0 < id <= |s.tables.rpms|
    ensures StateAt(s.tables, s.transId) == Some(want)
  {
    assert FaithfulAt(s.tables, snap, s.transId);
    StateAtInRange(s.tables, s.transId);
    NevrasInjective(s.tables.rpms, ToSet(s.ids), want);
  }

  /** Rollback to `t` is exact: carrying out the delta and recording the outcome gives a transaction that
      replays to the very ids of transaction `t`, and transaction `t` still replays to them. */
  lemma RollbackIsExact(s: State, hd: HistoryDelta, t: int, s': State, r: Rpmdb, cmdline: string, snap: Snapshots)
    requires Inv(s, snap) && AtHead(s) && 0 < t <= s.transId
    requires StateAt(s.tables, t).Some? && Turns(hd, ToSet(s.ids), StateAt(s.tables, t).value)
    requires Consistent(r, snap) && Shows(r, s.tables.rpms, ApplyDelta(ToSet(s.ids), hd))
    requires RecordedBy(s, s', r, cmdline)
    ensures s'.transId == s.transId + 1
    ensures StateAt(s'.tables, s'.transId) == StateAt(s.tables, t) == StateAt(s'.tables, t)
  {
    DeltaTurns(hd, ToSet(s.ids), StateAt(s.tables, t).value);
    StateAtInRange(s.tables, t);
    RecordingReaches(s, s', r, cmdline, StateAt(s.tables, t).value, snap);
  }

  /** Undo of f..t, wherever the range ends, and then redo of it: the newest transaction replays to what was
      installed at the start exactly if this agreed with the state at `t` on what the range changed. At the state
      of `t` itself, undo puts the state before `f` on record again. */
  lemma UndoRedoOnRecord(s: State, f: int, t: int, undo: HistoryDelta, redo: HistoryDelta,
                         s1: State, r1: Rpmdb, s2: State, r2: Rpmdb, cmd1: string, cmd2: string, snap: Snapshots)
    requires Inv(s, snap) && AtHead(s) && 1 < f <= t <= s.transId
    requires StateAt(s.tables, f - 1).Some? && StateAt(s.tables, t).Some?
    requires Turns(undo, StateAt(s.tables, t).value, StateAt(s.tables, f - 1).value)
    requires Turns(redo, StateAt(s.tables, f - 1).value, StateAt(s.tables, t).value)
    requires Consistent(r1, snap) && Shows(r1, s.tables.rpms, ApplyDelta(ToSet(s.ids), undo))
    requires RecordedBy(s, s1, r1, cmd1)
    requires Consistent(r2, snap) && Shows(r2, s1.tables.rpms, ApplyDelta(ToSet(s1.ids), redo))
    requires RecordedBy(s1, s2, r2, cmd2)
    ensures var changed := Changed(StateAt(s.tables, f - 1).value, StateAt(s.tables, t).value);
            && (StateAt(s2.tables, s2.transId) == StateAt(s.tables, s.transId)
                <==> ToSet(s.ids) * changed == StateAt(s.tables, t).value * changed)
            && (t == s.transId ==> StateAt(s1.tables, s1.transId) == StateAt(s.tables, f - 1))
  {
    var before, after, have := StateAt(s.tables, f - 1).value, StateAt(s.tables, t).value, ToSet(s.ids);
    StateAtInRange(s.tables, f - 1);
    StateAtInRange(s.tables, t);
    StateAtInRange(s.tables, s.transId);
    ApplyKnown(undo, after, before, have, |s.tables.rpms|);
    ApplyKnown(redo, before, after, ApplyDelta(have, undo), |s.tables.rpms|);
    BothOnRecord(s, undo, redo, s1, r1, s2, r2, cmd1, cmd2, snap);
    UndoThenRedo(undo, redo, before, after, have);
    DeltaTurns(undo, after, before);
  }

  ghost predicate Known(ids: set<int>, count: nat) {
    forall id :: id in ids ==> 0 < id <= count
  }

  lemma ApplyKnown(d: HistoryDelta, have: set<int>, want: set<int>, ids: set<int>, count: nat)
    requires Turns(d, have, want) && Known(want, count) && Known(ids, count)
    ensures Known(ApplyDelta(ids, d), count)
  {
  }

  /** Two deltas carried out and recorded one after the other. */
  lemma BothOnRecord(s: State, d1: HistoryDelta, d2: HistoryDelta,
                     s1: State, r1: Rpmdb, s2: State, r2: Rpmdb, cmd1: string, cmd2: string, snap: Snapshots)
    requires Inv(s, snap) && AtHead(s)
    requires Known(ApplyDelta(ToSet(s.ids), d1), |s.tables.rpms|)
    requires Known(ApplyDelta(ApplyDelta(ToSet(s.ids), d1), d2), |s.tables.rpms|)
    requires Consistent(r1, snap) && Shows(r1, s.tables.rpms, ApplyDelta(ToSet(s.ids), d1))
    requires RecordedBy(s, s1, r1, cmd1)
    requires Consistent(r2, snap) && Shows(r2, s1.tables.rpms, ApplyDelta(ToSet(s1.ids), d2))
    requires RecordedBy(s1, s2, r2, cmd2)
    ensures StateAt(s1.tables, s1.transId) == Some(ApplyDelta(ToSet(s.ids), d1))
    ensures StateAt(s2.tables, s2.transId) == Some(ApplyDelta(ApplyDelta(ToSet(s.ids), d1), d2))
  {
    RecordingReaches(s, s1, r1, cmd1, ApplyDelta(ToSet(s.ids), d1), snap);
    assert s.tables.rpms <= s1.tables.rpms;
    RecordingReaches(s1, s2, r2, cmd2, ApplyDelta(ToSet(s1.ids), d2), snap);
  }

  /** The same for a whole history command (HistoryTransaction.ExecHistoryTransaction): if the packages left by the
      rpm transaction are those that `want` stood for before the command, then the newest transaction after
      the command replays to `want`. */
  lemma CommandLands(s: State, s': State, r: Rpmdb, want: set<int>, snap: Snapshots)
    requires Inv(s, snap) && Good(s, s', snap) && AtHead(s')
    requires Nevras(s'.tables.rpms, ToSet(s'.ids)) == Names(r.nevras)
    requires Shows(r, s.tables.rpms, want) && forall id :: id in want ==> 0 < id <= |s.tables.rpms|
    ensures StateAt(s'.tables, s'.transId) == Some(want)
  {
    NevrasGrown(s.tables.rpms, s'.tables.rpms, want);
    StateAtInRange(s'.tables, s'.transId);
    NevrasInjective(s'.tables.rpms, ToSet(s'.ids), want);
  }
}
