/** The "auto installed" flags: a log of (transaction, name, value) entries that is read as of a
    transaction, restored to a transaction, and replayed over a range of transactions. */
module HistoryFlags {
  import opened Sequences
  import opened HistoryTables

  /** SELECT ... WHERE name_id = n AND trans_id <= t ORDER BY id DESC: the first row decides, no row
      means 0. */
  function FlagAt(flags: seq<FlagEntry>, t: int, n: int): int {
    if flags == [] then 0
    else
      var last := flags[|flags| - 1];
      if last.nameId == n && last.transId <= t then last.value
      else FlagAt(flags[..|flags| - 1], t, n)
  }

  /** The flag of a name, 0 for a name the dictionary does not know. */
  function FlagOf(marks: FlagTables, t: int, name: string): int {
    if !marks.hasFlags || !marks.hasNames || name !in marks.names then 0
    else FlagAt(marks.flags, t, IdOf(marks.names, name))
  }

  function NameCount(marks: FlagTables): nat {
    if marks.hasNames then |marks.names| else 0
  }

  ghost predicate NoneAfter(flags: seq<FlagEntry>, t: int) {
    forall e :: e in flags ==> e.transId <= t
  }

  /** Entries are in transaction order, name known names and transactions, and each one changes the
      value its name had so far. */
  ghost predicate FlagLog(marks: FlagTables, now: nat) {
    && Distinct(marks.names)
    && (!marks.hasNames ==> marks.names == [])
    && (!marks.hasFlags ==> marks.flags == [])
    && (forall e :: e in marks.flags ==>
          0 < e.transId <= now && 0 < e.nameId <= |marks.names|)
    && InOrder(marks.flags)
    && Alternating(marks.flags)
  }

  ghost predicate InOrder(flags: seq<FlagEntry>) {
    forall i, j :: 0 <= i < j < |flags| ==> flags[i].transId <= flags[j].transId
  }

  ghost predicate Alternating(flags: seq<FlagEntry>) {
    forall k :: 0 <= k < |flags| ==> flags[k].value != FlagAt(flags[..k], flags[k].transId, flags[k].nameId)
  }

  // ----- one write

  lemma FlagAtSnoc(flags: seq<FlagEntry>, e: FlagEntry, t: int, n: int)
    ensures FlagAt(flags + [e], t, n) == if e.nameId == n && e.transId <= t then e.value else FlagAt(flags, t, n)
  {
    assert (flags + [e])[..|flags|] == flags;
  }

  /** Reading later than every entry is reading the last entry. */
  lemma {:induction false} FlagAtLate(flags: seq<FlagEntry>, t: int, t': int, n: int)
    requires NoneAfter(flags, t) && NoneAfter(flags, t')
    ensures FlagAt(flags, t, n) == FlagAt(flags, t', n)
  {
    if flags != [] {
      assert flags[|flags| - 1] in flags;
      FlagAtLate(flags[..|flags| - 1], t, t', n);
    }
  }

  /** Appending an entry that changes its name's value, at a transaction no earlier than any other,
      keeps the log in order and alternating. */
  lemma FlagLogSnoc(marks: FlagTables, now: nat, e: FlagEntry)
    requires FlagLog(marks, now) && marks.hasNames
    requires NoneAfter(marks.flags, e.transId) && 0 < e.transId <= now
    requires 0 < e.nameId <= |marks.names|
    requires FlagAt(marks.flags, e.transId, e.nameId) != e.value
    ensures FlagLog(marks.(hasFlags := true, flags := marks.flags + [e]), now)
  {
    var flags, later := marks.flags, marks.flags + [e];
    forall i, j | 0 <= i < j < |later| ensures later[i].transId <= later[j].transId {
      if j == |flags| { assert flags[i] in flags; }
    }
    forall k | 0 <= k < |later| ensures later[k].value != FlagAt(later[..k], later[k].transId, later[k].nameId) {
      if k < |flags| { assert later[..k] == flags[..k]; } else { assert later[..k] == flags; }
    }
  }

  /** Two successive entries of one name differ in value, and the first entry of a name is not 0. */
  lemma SuccessiveEntriesDiffer(marks: FlagTables, now: nat, j: int, k: nat)
    requires FlagLog(marks, now) && -1 <= j < k < |marks.flags|
    requires j >= 0 ==> marks.flags[j].nameId == marks.flags[k].nameId
    requires forall i :: j < i < k ==> marks.flags[i].nameId != marks.flags[k].nameId
    ensures marks.flags[k].value != if j >= 0 then marks.flags[j].value else 0
  {
    var e := marks.flags[k];
    assert forall i :: 0 <= i < k ==> marks.flags[i].transId <= e.transId;
    LastEntry(marks.flags[..k], e.transId, e.nameId, j);
  }

  lemma {:induction false} LastEntry(flags: seq<FlagEntry>, t: int, n: int, j: int)
    requires -1 <= j < |flags|
    requires j >= 0 ==> flags[j].nameId == n && flags[j].transId <= t
    requires forall i :: j < i < |flags| ==> flags[i].nameId != n || flags[i].transId > t
    ensures FlagAt(flags, t, n) == if j >= 0 then flags[j].value else 0
  {
    if flags != [] && j < |flags| - 1 { LastEntry(flags[..|flags| - 1], t, n, j); }
  }

  // ----- "shouldn't matter if we order by id or trans_id?"

  /** Entry `k` could come first if the query ordered by trans_id alone, leaving ties open. */
  ghost predicate CouldLeadByTrans(flags: seq<FlagEntry>, t: int, n: int, k: int) {
    && 0 <= k < |flags| && flags[k].nameId == n && flags[k].transId <= t
    && forall i :: 0 <= i < |flags| && flags[i].nameId == n && flags[i].transId <= t
                   ==> flags[i].transId <= flags[k].transId
  }

  ghost predicate LeadsById(flags: seq<FlagEntry>, t: int, n: int, k: int) {
    && 0 <= k < |flags| && flags[k].nameId == n && flags[k].transId <= t
    && forall i :: k < i < |flags| ==> flags[i].nameId != n || flags[i].transId > t
  }

  /** The row that leads by id also leads by trans_id, so with the id as tie-break both orders read the
      same row. */
  lemma LeadByIdLeadsByTrans(marks: FlagTables, now: nat, t: int, n: int, k: int)
    requires FlagLog(marks, now) && LeadsById(marks.flags, t, n, k)
    ensures CouldLeadByTrans(marks.flags, t, n, k) && FlagAt(marks.flags, t, n) == marks.flags[k].value
  {
    LastEntry(marks.flags, t, n, k);
    LeadOrdered(marks.flags, t, n, k);
  }

  lemma LeadOrdered(flags: seq<FlagEntry>, t: int, n: int, k: int)
    requires InOrder(flags) && LeadsById(flags, t, n, k)
    ensures CouldLeadByTrans(flags, t, n, k)
  {
  }

  /** Ordering by trans_id alone is decided by the data exactly when the last transaction that wrote the
      name wrote it once. */
  lemma OrderByTransDecides(marks: FlagTables, now: nat, t: int, n: int, k: int)
    requires FlagLog(marks, now) && LeadsById(marks.flags, t, n, k)
    ensures (forall j :: CouldLeadByTrans(marks.flags, t, n, j) ==> marks.flags[j].value == marks.flags[k].value)
        <==> (forall j :: 0 <= j < k && marks.flags[j].nameId == n ==> marks.flags[j].transId < marks.flags[k].transId)
  {
    if j :| 0 <= j < k && marks.flags[j].nameId == n && marks.flags[j].transId >= marks.flags[k].transId {
      TwiceIsUndecided(marks, now, t, n, k, j);
    } else {
      OnceIsDecided(marks, now, t, n, k);
    }
  }

  lemma TwiceIsUndecided(marks: FlagTables, now: nat, t: int, n: int, k: int, j: int)
    requires FlagLog(marks, now) && LeadsById(marks.flags, t, n, k)
    requires 0 <= j < k && marks.flags[j].nameId == n && marks.flags[j].transId >= marks.flags[k].transId
    ensures exists p :: CouldLeadByTrans(marks.flags, t, n, p) && marks.flags[p].value != marks.flags[k].value
  {
    var flags := marks.flags;
    var p := PreviousEntry(flags, n, k, j);
    assert flags[j].transId <= flags[p].transId <= flags[k].transId;
    LeadByIdLeadsByTrans(marks, now, t, n, k);
    assert CouldLeadByTrans(flags, t, n, p);
    SuccessiveEntriesDiffer(marks, now, p, k);
  }

  lemma OnceIsDecided(marks: FlagTables, now: nat, t: int, n: int, k: int)
    requires FlagLog(marks, now) && LeadsById(marks.flags, t, n, k)
    requires forall j :: 0 <= j < k && marks.flags[j].nameId == n ==> marks.flags[j].transId < marks.flags[k].transId
    ensures forall j :: CouldLeadByTrans(marks.flags, t, n, j) ==> j == k
  {
    forall j | CouldLeadByTrans(marks.flags, t, n, j) ensures j == k {
      assert marks.flags[k].transId <= marks.flags[j].transId;
    }
  }

  lemma PreviousEntry(flags: seq<FlagEntry>, n: int, k: int, j: int) returns (p: int)
    requires 0 <= j < k < |flags| && flags[j].nameId == n
    ensures j <= p < k && flags[p].nameId == n
    ensures forall i :: p < i < k ==> flags[i].nameId != n
  {
    p := k - 1;
    while flags[p].nameId != n
      invariant j <= p < k
      invariant forall i :: p < i < k ==> flags[i].nameId != n
      decreases p
    {
      p := p - 1;
    }
  }

  // ----- restoring and replaying

  /** One turn of the loops below: write `value` for name `i` unless it is current. */
  function WriteFlag(flags: seq<FlagEntry>, now: int, i: int, value: int): seq<FlagEntry> {
    if value != FlagAt(flags, now, i) then flags + [FlagEntry(now, i, value)] else flags
  }

  /** The log after history_restore_auto_flags has been through the names 1..count. */
  function Restored(flags: seq<FlagEntry>, now: int, to: int, count: nat): seq<FlagEntry> {
    if count == 0 then flags
    else
      var f := Restored(flags, now, to, count - 1);
      WriteFlag(f, now, count, FlagAt(f, to, count))
  }

  /** The log after history_replay_auto_flags has been through the names 1..count. */
  function Replayed(flags: seq<FlagEntry>, now: int, from: int, to: int, count: nat): seq<FlagEntry> {
    if count == 0 then flags
    else
      var f := Replayed(flags, now, from, to, count - 1);
      if FlagAt(f, from, count) != FlagAt(f, to, count) then WriteFlag(f, now, count, FlagAt(f, to, count)) else f
  }

  /** `later` is `flags` with writes at transaction `now` appended. */
  ghost predicate WrittenAt(flags: seq<FlagEntry>, later: seq<FlagEntry>, now: int) {
    flags <= later && forall k :: |flags| <= k < |later| ==> later[k].transId == now
  }

  /** Writing at `now` never changes what is read as of an earlier transaction. */
  lemma {:induction false} EarlierReadsStay(flags: seq<FlagEntry>, later: seq<FlagEntry>, now: int, t: int, n: int)
    requires WrittenAt(flags, later, now) && t < now
    ensures FlagAt(later, t, n) == FlagAt(flags, t, n)
    decreases |later|
  {
    if |later| > |flags| {
      EarlierReadsStay(flags, later[..|later| - 1], now, t, n);
    } else {
      assert later == flags;
    }
  }

  lemma {:induction false} RestoredFrame(flags: seq<FlagEntry>, now: int, to: int, count: nat)
    ensures WrittenAt(flags, Restored(flags, now, to, count), now)
    ensures forall t, n {:trigger FlagAt(Restored(flags, now, to, count), t, n)} ::
              n > count ==> FlagAt(Restored(flags, now, to, count), t, n) == FlagAt(flags, t, n)
  {
    if count > 0 {
      RestoredFrame(flags, now, to, count - 1);
      var f := Restored(flags, now, to, count - 1);
      forall t, n | n > count ensures FlagAt(Restored(flags, now, to, count), t, n) == FlagAt(flags, t, n) {
        FlagAtSnoc(f, FlagEntry(now, count, FlagAt(f, to, count)), t, n);
      }
    }
  }

  /** After restoring to `to`, every name's current flag is the flag it had as of `to`. */
  lemma {:induction false} RestoreIsExact(flags: seq<FlagEntry>, now: int, to: int, count: nat, n: int)
    requires 0 < n <= count
    ensures FlagAt(Restored(flags, now, to, count), now, n) == FlagAt(flags, to, n)
  {
    var f := Restored(flags, now, to, count - 1);
    RestoredFrame(flags, now, to, count - 1);
    FlagAtSnoc(f, FlagEntry(now, count, FlagAt(f, to, count)), now, n);
    if n < count { RestoreIsExact(flags, now, to, count - 1, n); }
  }

  lemma {:induction false} ReplayedFrame(flags: seq<FlagEntry>, now: int, from: int, to: int, count: nat)
    ensures WrittenAt(flags, Replayed(flags, now, from, to, count), now)
    ensures forall t, n {:trigger FlagAt(Replayed(flags, now, from, to, count), t, n)} ::
              n > count ==> FlagAt(Replayed(flags, now, from, to, count), t, n) == FlagAt(flags, t, n)
  {
    if count > 0 {
      ReplayedFrame(flags, now, from, to, count - 1);
      var f := Replayed(flags, now, from, to, count - 1);
      forall t, n | n > count ensures FlagAt(Replayed(flags, now, from, to, count), t, n) == FlagAt(flags, t, n) {
        FlagAtSnoc(f, FlagEntry(now, count, FlagAt(f, to, count)), t, n);
      }
    }
  }

  /** Replaying (from, to] gives the names whose flag differs between the two their flag as of `to`, and
      leaves all others alone. */
  lemma {:induction false} ReplayIsExact(flags: seq<FlagEntry>, now: int, from: int, to: int, count: nat, n: int)
    requires 0 < n <= count
    ensures FlagAt(Replayed(flags, now, from, to, count), now, n)
         == if FlagAt(flags, from, n) != FlagAt(flags, to, n) then FlagAt(flags, to, n) else FlagAt(flags, now, n)
  {
    var f := Replayed(flags, now, from, to, count - 1);
    ReplayedFrame(flags, now, from, to, count - 1);
    FlagAtSnoc(f, FlagEntry(now, count, FlagAt(f, to, count)), now, n);
    if n < count { ReplayIsExact(flags, now, from, to, count - 1, n); }
  }

  /** The two results above, read by name: a name without entries has flag 0 before and after. */
  lemma RestoreReads(marks: FlagTables, now: int, to: int, n: string)
    ensures FlagOf(marks.(flags := Restored(marks.flags, now, to, NameCount(marks))), now, n) == FlagOf(marks, to, n)
  {
    if marks.hasNames && n in marks.names {
      RestoreIsExact(marks.flags, now, to, |marks.names|, IdOf(marks.names, n));
    }
  }

  lemma ReplayReads(marks: FlagTables, now: int, from: int, to: int, n: string)
    ensures FlagOf(marks.(flags := Replayed(marks.flags, now, from, to, NameCount(marks))), now, n)
         == if FlagOf(marks, from, n) != FlagOf(marks, to, n) then FlagOf(marks, to, n) else FlagOf(marks, now, n)
  {
    if marks.hasNames && n in marks.names {
      ReplayIsExact(marks.flags, now, from, to, |marks.names|, IdOf(marks.names, n));
    }
  }

  /** Replaying everything since the present is restoring. */
  lemma {:induction false} ReplayFromNowIsRestore(flags: seq<FlagEntry>, now: int, to: int, count: nat)
    ensures Replayed(flags, now, now, to, count) == Restored(flags, now, to, count)
  {
    if count > 0 { ReplayFromNowIsRestore(flags, now, to, count - 1); }
  }

  /** What history_get_flags_delta lists: (name id, value) for the names 1..count. */
  function FlagsDelta(flags: seq<FlagEntry>, now: int, from: int, to: int, count: nat): seq<(int, int)> {
    if count == 0 then []
    else
      var d := FlagsDelta(flags, now, from, to, count - 1);
      var value := FlagAt(flags, to, count);
      if FlagAt(flags, from, count) != value && value != FlagAt(flags, now, count) then d + [(count, value)] else d
  }

  function Writes(now: int, delta: seq<(int, int)>): (w: seq<FlagEntry>)
    ensures |w| == |delta|
    ensures forall i :: 0 <= i < |w| ==> w[i] == FlagEntry(now, delta[i].0, delta[i].1)
  {
    seq(|delta|, i requires 0 <= i < |delta| => FlagEntry(now, delta[i].0, delta[i].1))
  }

  /** The listed delta is exactly the list of writes that replaying the same range then makes. */
  lemma {:induction false} DeltaIsWhatReplayWrites(flags: seq<FlagEntry>, now: int, from: int, to: int, count: nat)
    ensures |FlagsDelta(flags, now, from, to, count)| <= count
    ensures Replayed(flags, now, from, to, count) == flags + Writes(now, FlagsDelta(flags, now, from, to, count))
  {
    if count > 0 {
      DeltaIsWhatReplayWrites(flags, now, from, to, count - 1);
      ReplayedStep(flags, now, from, to, count);
      WriteIsListed(flags, Replayed(flags, now, from, to, count - 1), FlagsDelta(flags, now, from, to, count - 1),
                    now, FlagAt(flags, from, count), FlagAt(flags, to, count), count);
    }
  }

  /** What is read in a turn of the loop has not been changed by the turns before. */
  lemma ReplayedStep(flags: seq<FlagEntry>, now: int, from: int, to: int, count: nat)
    requires count > 0
    ensures var f := Replayed(flags, now, from, to, count - 1);
            && FlagAt(f, now, count) == FlagAt(flags, now, count)
            && Replayed(flags, now, from, to, count)
               == if FlagAt(flags, from, count) != FlagAt(flags, to, count)
                  then WriteFlag(f, now, count, FlagAt(flags, to, count)) else f
  {
    ReplayedFrame(flags, now, from, to, count - 1);
  }

  lemma WriteIsListed(flags: seq<FlagEntry>, f: seq<FlagEntry>, delta: seq<(int, int)>,
                      now: int, before: int, value: int, n: nat)
    requires f == flags + Writes(now, delta) && FlagAt(f, now, n) == FlagAt(flags, now, n)
    ensures (if before != value then WriteFlag(f, now, n, value) else f)
         == flags + Writes(now, if before != value && value != FlagAt(flags, now, n) then delta + [(n, value)]
                                else delta)
  {
    WritesSnoc(now, delta, n, value);
    var w, e := Writes(now, delta), FlagEntry(now, n, value);
    assert flags + w + [e] == flags + (w + [e]);
  }

  lemma WritesSnoc(now: int, delta: seq<(int, int)>, nameId: int, value: int)
    ensures Writes(now, delta + [(nameId, value)]) == Writes(now, delta) + [FlagEntry(now, nameId, value)]
  {
  }

  /** Restoring and replaying at the newest transaction keep the log in order and alternating. */
  lemma {:induction false} ReplayKeepsLog(marks: FlagTables, now: nat, from: int, to: int, count: nat)
    requires FlagLog(marks, now) && marks.hasFlags && count <= |marks.names| && now > 0
    ensures FlagLog(marks.(flags := Replayed(marks.flags, now, from, to, count)), now)
  {
    if count > 0 {
      ReplayKeepsLog(marks, now, from, to, count - 1);
      var f := Replayed(marks.flags, now, from, to, count - 1);
      var e := FlagEntry(now, count, FlagAt(f, to, count));
      if Replayed(marks.flags, now, from, to, count) != f { FlagLogSnoc(marks.(flags := f), now, e); }
    }
  }

  // ----- the flag operations as steps of the tables

  /** What setting a flag may do to the names and to the existence of the two marks. */
  ghost predicate NamesGrow(marks: FlagTables, later: FlagTables, name: string) {
    && later == marks.(hasNames := later.hasNames, names := later.names,
                       hasFlags := later.hasFlags, flags := later.flags)
    && (marks.hasNames ==> later.hasNames) && (marks.hasFlags ==> later.hasFlags)
    && (later.names == marks.names
        || (later.hasNames && name !in marks.names && later.names == marks.names + [name]))
  }

  /** history_set_auto_flag at transaction `t`. A name whose dictionary insert is lost gets an entry with
      an id that means nothing. */
  ghost predicate SetFlagStep(marks: FlagTables, later: FlagTables, t: int, name: string, value: int, ok: bool) {
    if ok && FlagOf(marks, t, name) == value then later == marks
    else
      && NamesGrow(marks, later, name)
      && if !ok then later.flags == marks.flags
         else
           && later.hasNames && later.hasFlags
           && |later.flags| == |marks.flags| + 1
           && var e := later.flags[|marks.flags|];
              && later.flags == marks.flags + [e] && e.transId == t && e.value == value
              && (name in later.names ==> e.nameId == IdOf(later.names, name))
  }

  /** history_restore_auto_flags: a failure leaves the writes made so far. */
  ghost predicate RestoreStep(marks: FlagTables, later: FlagTables, now: int, to: int, ok: bool) {
    exists k: nat {:trigger Restored(marks.flags, now, to, k)} ::
      k <= NameCount(marks) && (ok ==> k == NameCount(marks))
      && later == marks.(flags := Restored(marks.flags, now, to, k))
  }

  /** history_replay_auto_flags, likewise. */
  ghost predicate ReplayStep(marks: FlagTables, later: FlagTables, now: int, from: int, to: int, ok: bool) {
    exists k: nat {:trigger Replayed(marks.flags, now, from, to, k)} ::
      k <= NameCount(marks) && (ok ==> k == NameCount(marks))
      && later == marks.(flags := Replayed(marks.flags, now, from, to, k))
  }

  /** A flag write at the newest transaction with its name in the dictionary: the log stays a flag log, the
      name has the new flag, and no other name's flag and no earlier reading changes. */
  lemma SetFlagRecords(marks: FlagTables, now: nat, later: FlagTables, name: string, value: int, ok: bool)
    requires FlagLog(marks, now) && now > 0
    requires SetFlagStep(marks, later, now, name, value, ok)
    requires ok && FlagOf(marks, now, name) != value ==> name in later.names
    ensures FlagLog(later, now)
    ensures ok ==> FlagOf(later, now, name) == value
    ensures forall t, n :: t < now || n != name ==> FlagOf(later, t, n) == FlagOf(marks, t, n)
  {
    if ok && FlagOf(marks, now, name) != value {
      var e := later.flags[|marks.flags|];
      FlagWriteRecords(marks, now, later, e, name);
      forall t, n | t < e.transId || n != name ensures FlagOf(later, t, n) == FlagOf(marks, t, n) {
        FlagWriteFrame(marks, now, later, e, name, t, n);
      }
    } else if !ok {
      NamesGrowLog(marks, now, later, name);
      forall t, n ensures FlagOf(later, t, n) == FlagOf(marks, t, n) { FlagOfGrown(marks, now, later, name, t, n); }
    }
  }

  /** A reported write takes effect exactly if its name is in the dictionary, that is, if no insert was lost. */
  lemma SetFlagTakes(marks: FlagTables, now: nat, later: FlagTables, name: string, value: int)
    requires FlagLog(marks, now) && now > 0
    requires SetFlagStep(marks, later, now, name, value, true) && FlagOf(marks, now, name) != value
    ensures FlagOf(later, now, name) == value <==> name in later.names
  {
    if name in later.names { SetFlagRecords(marks, now, later, name, value, true); }
  }

  lemma FlagWriteRecords(marks: FlagTables, now: nat, later: FlagTables, e: FlagEntry, name: string)
    requires FlagLog(marks, now) && NamesGrow(marks, later, name)
    requires later.hasNames && later.hasFlags && later.flags == marks.flags + [e]
    requires name in later.names && e.nameId == IdOf(later.names, name)
    requires e.transId == now > 0 && FlagOf(marks, e.transId, name) != e.value
    ensures FlagLog(later, now) && FlagOf(later, e.transId, name) == e.value
  {
    var mid := later.(flags := marks.flags);
    NamesGrowLog(marks, now, mid, name);
    FlagOfGrown(marks, now, mid, name, e.transId, name);
    FlagLogSnoc(mid, now, e);
    FlagAtSnoc(mid.flags, e, e.transId, e.nameId);
  }

  lemma FlagWriteFrame(marks: FlagTables, now: nat, later: FlagTables, e: FlagEntry, name: string, t: int, n: string)
    requires FlagLog(marks, now) && NamesGrow(marks, later, name)
    requires later.hasNames && later.hasFlags && later.flags == marks.flags + [e]
    requires name in later.names && e.nameId == IdOf(later.names, name)
    requires t < e.transId || n != name
    ensures FlagOf(later, t, n) == FlagOf(marks, t, n)
  {
    FlagOfGrown(marks, now, later.(flags := marks.flags), name, t, n);
    if n in later.names { FlagAtSnoc(marks.flags, e, t, IdOf(later.names, n)); }
  }

  lemma NamesGrowLog(marks: FlagTables, now: nat, mid: FlagTables, name: string)
    requires FlagLog(marks, now) && NamesGrow(marks, mid, name) && mid.flags == marks.flags
    ensures FlagLog(mid, now)
  {
  }

  lemma FlagOfGrown(marks: FlagTables, now: nat, mid: FlagTables, name: string, t: int, n: string)
    requires FlagLog(marks, now) && NamesGrow(marks, mid, name) && mid.flags == marks.flags
    ensures FlagOf(mid, t, n) == FlagOf(marks, t, n)
    ensures n in mid.names ==> FlagAt(mid.flags, t, IdOf(mid.names, n)) == FlagOf(marks, t, n)
  {
    if n in marks.names {
      IdOfStable(marks.names, mid.names, n);
    } else if n in mid.names {
      UnknownId(marks.flags, t, IdOf(mid.names, n), |marks.names|);
    }
  }

  lemma {:induction false} UnknownId(flags: seq<FlagEntry>, t: int, id: int, count: nat)
    requires id > count && forall e :: e in flags ==> e.nameId <= count
    ensures FlagAt(flags, t, id) == 0
  {
    if flags != [] {
      assert flags[|flags| - 1] in flags;
      UnknownId(flags[..|flags| - 1], t, id, count);
    }
  }
}
