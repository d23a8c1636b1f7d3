/** TDNFSolvCheckInstallOnlyLimitInTrans: the limit on packages of which several may be installed. */
module GoalLimit {
  import opened Sequences
  import opened GoalJobs

  /** How many packages of a name there will be. */
  function Tally(pool: Pool, steps: seq<Step>, name: string): int {
    |OfName(pool, pool.installed, name)|
    + |StepsOf(pool, steps, name, MultiInstalled)| - |StepsOf(pool, steps, name, Erased)|
  }

  ghost predicate WithinLimit(pool: Pool, steps: seq<Step>, names: seq<string>, limit: int) {
    forall name :: name in names ==> Tally(pool, steps, name) <= limit
  }

  function Min(a: int, b: int): int {
    if a < b then a else b
  }

  function Excess(pool: Pool, steps: seq<Step>, name: string, limit: int): nat {
    if Tally(pool, steps, name) > limit then Tally(pool, steps, name) - limit else 0
  }

  function EraseJobs(ids: seq<nat>): (r: seq<Job>)
    ensures |r| == |ids| && forall i :: 0 <= i < |r| ==> r[i] == Job(Erase, true, ids[i])
  {
    seq(|ids|, i requires 0 <= i < |ids| => Job(Erase, true, ids[i]))
  }

  /** The ids that one name adds, given what has been removed for the names before it. */
  function Picked(pool: Pool, steps: seq<Step>, name: string, limit: int, removed: set<nat>): seq<nat> {
    var spare := Spare(pool, pool.installed, name, removed + ToSet(StepsOf(pool, steps, name, Erased)));
    spare[..Min(Excess(pool, steps, name, limit), |spare|)]
  }

  /** The map of removed ids after one name. */
  function RemovedAfter(pool: Pool, steps: seq<Step>, name: string, limit: int, removed: set<nat>): set<nat> {
    removed + ToSet(StepsOf(pool, steps, name, Erased)) + ToSet(Picked(pool, steps, name, limit, removed))
  }

  function PickedFor(pool: Pool, steps: seq<Step>, names: seq<string>, limit: int, removed: set<nat>): seq<nat> {
    if names == [] then []
    else
      Picked(pool, steps, names[0], limit, removed)
      + PickedFor(pool, steps, names[1..], limit, RemovedAfter(pool, steps, names[0], limit, removed))
  }

  // ----- the loops

  /** The loop that counts the installed packages. */
  method CountInstalled(pool: Pool, name: string) returns (n: nat)
    ensures n == |OfName(pool, pool.installed, name)|
  {
    n := 0;
    var k := 0;
    while k < |pool.installed|
      invariant 0 <= k <= |pool.installed|
      invariant n + |OfName(pool, pool.installed[k..], name)| == |OfName(pool, pool.installed, name)|
    {
      assert pool.installed[k..][1..] == pool.installed[k + 1..];
      if NameOf(pool, pool.installed[k]) == name { n := n + 1; }
      k := k + 1;
    }
  }

  lemma ToSetAppend(a: seq<nat>, b: seq<nat>)
    ensures ToSet(a + b) == ToSet(a) + ToSet(b)
  {
  }

  /** The loop over the steps: installs and removals of the name are counted, and removals are noted. */
  method CountSteps(pool: Pool, steps: seq<Step>, name: string, n0: int, removed0: set<nat>)
    returns (n: int, removed: set<nat>)
    ensures n == n0 + |StepsOf(pool, steps, name, MultiInstalled)| - |StepsOf(pool, steps, name, Erased)|
    ensures removed == removed0 + ToSet(StepsOf(pool, steps, name, Erased))
  {
    n, removed := n0, removed0;
    var j := 0;
    while j < |steps|
      invariant 0 <= j <= |steps|
      invariant n + |StepsOf(pool, steps[j..], name, MultiInstalled)| - |StepsOf(pool, steps[j..], name, Erased)|
             == n0 + |StepsOf(pool, steps, name, MultiInstalled)| - |StepsOf(pool, steps, name, Erased)|
      invariant removed + ToSet(StepsOf(pool, steps[j..], name, Erased))
             == removed0 + ToSet(StepsOf(pool, steps, name, Erased))
    {
      assert steps[j..][1..] == steps[j + 1..];
      ghost var rest := StepsOf(pool, steps[j + 1..], name, Erased);
      ToSetAppend([steps[j].id], rest);
      if NameOf(pool, steps[j].id) == name {
        if steps[j].multi == MultiInstalled {
          n := n + 1;
        } else if steps[j].multi == Erased {
          removed := removed + {steps[j].id};
          n := n - 1;
        }
      }
      j := j + 1;
    }
  }

  /** Of the spare ids `picked` have been taken, those before installed package `k`. */
  ghost predicate Taken(pool: Pool, name: string, removed: set<nat>, k: nat, picked: seq<nat>) {
    k <= |pool.installed|
    && picked + Spare(pool, pool.installed[k..], name, removed) == Spare(pool, pool.installed, name, removed)
  }

  lemma TakeOne(pool: Pool, name: string, removed: set<nat>, k: nat, picked: seq<nat>)
    requires Taken(pool, name, removed, k, picked) && k < |pool.installed| && Distinct(pool.installed)
    ensures var p := pool.installed[k];
            var wanted := NameOf(pool, p) == name && p !in removed + ToSet(picked);
            Taken(pool, name, removed, k + 1, if wanted then picked + [p] else picked)
  {
    var p, rest := pool.installed[k], pool.installed[k + 1..];
    assert pool.installed[k..][0] == p && pool.installed[k..][1..] == rest;
    SpareDistinct(pool, pool.installed, name, removed);
    if NameOf(pool, p) == name && p !in removed {
      var spare := Spare(pool, pool.installed, name, removed);
      assert spare == picked + ([p] + Spare(pool, rest, name, removed));
      assert spare[|picked|] == p;
      assert forall a :: 0 <= a < |picked| ==> picked[a] == spare[a];
      assert p !in picked;
      assert picked + [p] + Spare(pool, rest, name, removed) == spare;
    } else {
      assert [] + Spare(pool, rest, name, removed) == Spare(pool, rest, name, removed);
    }
  }

  /** The first spare ids have been taken, `n` of them or all there are. */
  ghost predicate TakenFirst(pool: Pool, name: string, removed: set<nat>, picked: seq<nat>, n: nat) {
    var spare := Spare(pool, pool.installed, name, removed);
    picked == spare[..Min(n, |spare|)]
  }

  lemma TakenIs(pool: Pool, name: string, removed: set<nat>, k: nat, picked: seq<nat>, n: nat)
    requires Taken(pool, name, removed, k, picked) && |picked| <= n && (k == |pool.installed| || |picked| == n)
    ensures TakenFirst(pool, name, removed, picked, n)
  {
  }

  lemma OneMoreErase(jobs: seq<Job>, picked: seq<nat>, p: nat, removed: set<nat>)
    ensures jobs + EraseJobs(picked + [p]) == jobs + EraseJobs(picked) + [Job(Erase, true, p)]
    ensures removed + ToSet(picked + [p]) == removed + ToSet(picked) + {p}
  {
  }

  lemma NoErase(jobs: seq<Job>, removed: set<nat>)
    ensures jobs + EraseJobs([]) == jobs && removed + ToSet([]) == removed
  {
  }

  lemma MoreErases(jobs: seq<Job>, a: seq<nat>, b: seq<nat>)
    ensures jobs + EraseJobs(a + b) == jobs + EraseJobs(a) + EraseJobs(b)
  {
  }

  /** The loop that adds erase jobs for installed packages of the name, in their order, until the limit is met. */
  method PushErases(pool: Pool, name: string, n0: int, limit: int, removed0: set<nat>, q: JobQueue)
    returns (removed: set<nat>, ghost picked: seq<nat>)
    requires n0 > limit && Distinct(pool.installed)
    modifies q
    ensures TakenFirst(pool, name, removed0, picked, n0 - limit)
    ensures q.jobs == old(q.jobs) + EraseJobs(picked) && removed == removed0 + ToSet(picked)
  {
    picked := [];
    removed := removed0;
    var n, k := n0, 0;
    assert pool.installed[0..] == pool.installed;
    NoErase(q.jobs, removed0);
    while k < |pool.installed|
      invariant Taken(pool, name, removed0, k, picked) && n == n0 - |picked| && n > limit
      invariant removed == removed0 + ToSet(picked)
      invariant q.jobs == old(q.jobs) + EraseJobs(picked)
    {
      var p := pool.installed[k];
      TakeOne(pool, name, removed0, k, picked);
      k := k + 1;
      if NameOf(pool, p) == name && p !in removed {
        OneMoreErase(old(q.jobs), picked, p, removed0);
        removed := removed + {p};
        q.Push(Job(Erase, true, p));
        picked := picked + [p];
        n := n - 1;
        if n <= limit { break; }
      }
    }
    TakenIs(pool, name, removed0, k, picked, n0 - limit);
  }

  lemma PickedStep(pool: Pool, steps: seq<Step>, names: seq<string>, i: nat, limit: int,
                   removed: set<nat>, picked: seq<nat>)
    requires i < |names|
    ensures picked + PickedFor(pool, steps, names[i..], limit, removed)
         == picked + Picked(pool, steps, names[i], limit, removed)
            + PickedFor(pool, steps, names[i + 1..], limit, RemovedAfter(pool, steps, names[i], limit, removed))
  {
    assert names[i..][1..] == names[i + 1..];
  }

  lemma WithinStep(pool: Pool, steps: seq<Step>, names: seq<string>, i: nat, limit: int)
    requires i < |names|
    ensures WithinLimit(pool, steps, names[..i + 1], limit)
       <==> WithinLimit(pool, steps, names[..i], limit) && Tally(pool, steps, names[i]) <= limit
  {
    assert names[..i + 1] == names[..i] + [names[i]];
    assert names[i] in names[..i + 1];
    assert forall name :: name in names[..i] ==> name in names[..i + 1];
  }

  /** TDNFSolvCheckInstallOnlyLimitInTrans. The error is that of an exceeded limit. */
  method CheckInstallOnlyLimit(pool: Pool, steps: seq<Step>, names: seq<string>, limit: int, q: JobQueue)
    returns (exceeded: bool)
    requires Distinct(pool.installed)
    modifies q
    ensures exceeded <==> !WithinLimit(pool, steps, names, limit)
    ensures exceeded <==>
              exists name :: name in names
                             && |OfName(pool, pool.installed, name)| + |StepsOf(pool, steps, name, MultiInstalled)|
                                > limit + |StepsOf(pool, steps, name, Erased)|
    ensures q.jobs == old(q.jobs) + EraseJobs(PickedFor(pool, steps, names, limit, {}))
  {
    exceeded := false;
    var removed: set<nat> := {};
    ghost var picked: seq<nat> := [];
    var i := 0;
    assert names[0..] == names;
    NoErase(q.jobs, {});
    while i < |names|
      invariant 0 <= i <= |names|
      invariant exceeded <==> !WithinLimit(pool, steps, names[..i], limit)
      invariant q.jobs == old(q.jobs) + EraseJobs(picked)
      invariant picked + PickedFor(pool, steps, names[i..], limit, removed) == PickedFor(pool, steps, names, limit, {})
    {
      ghost var more := Picked(pool, steps, names[i], limit, removed);
      PickedStep(pool, steps, names, i, limit, removed, picked);
      WithinStep(pool, steps, names, i, limit);
      var over;
      over, removed := CheckName(pool, steps, names[i], limit, removed, q);
      if over { exceeded := true; }
      MoreErases(old(q.jobs), picked, more);
      picked := picked + more;
      i := i + 1;
    }
    assert names[..i] == names;
  }

  /** One turn of its loop. */
  method CheckName(pool: Pool, steps: seq<Step>, name: string, limit: int, removed0: set<nat>, q: JobQueue)
    returns (over: bool, removed: set<nat>)
    requires Distinct(pool.installed)
    modifies q
    ensures over <==> Tally(pool, steps, name) > limit
    ensures q.jobs == old(q.jobs) + EraseJobs(Picked(pool, steps, name, limit, removed0))
    ensures removed == RemovedAfter(pool, steps, name, limit, removed0)
  {
    var n: int := CountInstalled(pool, name);
    n, removed := CountSteps(pool, steps, name, n, removed0);
    over := n > limit;
    if over {
      ghost var picked;
      removed, picked := PushErases(pool, name, n, limit, removed, q);
    } else {
      NoErase(q.jobs, removed);
    }
  }

  // ----- what the erase jobs amount to

  function Times(names: seq<string>, name: string): nat {
    if names == [] then 0 else (if names[0] == name then 1 else 0) + Times(names[1..], name)
  }

  lemma {:induction false} DemandOnce(names: seq<string>, name: string, e: nat)
    requires forall i, j :: 0 <= i < j < |names| ==> names[i] != names[j]
    ensures Demand(names, name, e) == if name in names then e else 0
  {
    if names != [] { DemandOnce(names[1..], name, e); }
  }

  /** `e` for every time that the name is in the list. */
  function Demand(names: seq<string>, name: string, e: nat): nat {
    if names == [] then 0 else (if names[0] == name then e else 0) + Demand(names[1..], name, e)
  }

  lemma {:induction false} DemandIs(names: seq<string>, name: string, e: nat)
    ensures Demand(names, name, e) == Times(names, name) * e
  {
    if names != [] { DemandIs(names[1..], name, e); }
  }

  /** The installed packages of a name that the transaction leaves. */
  function Left(pool: Pool, steps: seq<Step>, name: string): seq<nat> {
    Spare(pool, pool.installed, name, ToSet(StepsOf(pool, steps, name, Erased)))
  }

  lemma {:induction false} AllOfName(pool: Pool, ids: seq<nat>, name: string, own: string)
    requires forall id :: id in ids ==> NameOf(pool, id) == own
    ensures OfName(pool, ids, name) == if own == name then ids else []
  {
    if ids != [] { AllOfName(pool, ids[1..], name, own); }
  }

  lemma PickedOfName(pool: Pool, steps: seq<Step>, own: string, limit: int, removed: set<nat>, name: string)
    ensures OfName(pool, Picked(pool, steps, own, limit, removed), name)
         == if own == name then Picked(pool, steps, own, limit, removed) else []
  {
    var picked := Picked(pool, steps, own, limit, removed);
    var all := removed + ToSet(StepsOf(pool, steps, own, Erased));
    forall id | id in picked ensures NameOf(pool, id) == own {
      SpareIn(pool, pool.installed, own, all, id);
    }
    AllOfName(pool, picked, name, own);
  }

  /** The state of the map that matters for a name: the first `k` of what the transaction leaves are in it. */
  ghost predicate Reached(pool: Pool, steps: seq<Step>, name: string, removed: set<nat>, k: nat) {
    && k <= |Left(pool, steps, name)|
    && Spare(pool, pool.installed, name, removed + ToSet(StepsOf(pool, steps, name, Erased)))
       == Left(pool, steps, name)[k..]
  }

  /** At most `n` elements from place `k` on. */
  function FromTo(s: seq<nat>, k: nat, n: nat): seq<nat>
    requires k <= |s|
  {
    s[k..Min(k + n, |s|)]
  }

  lemma FromToJoin(s: seq<nat>, k: nat, a: nat, b: nat)
    requires k <= |s|
    ensures FromTo(s, k, a) + FromTo(s, Min(k + a, |s|), b) == FromTo(s, k, a + b)
  {
  }

  lemma ReachedOwn(pool: Pool, steps: seq<Step>, name: string, limit: int, removed: set<nat>, k: nat)
    requires Distinct(pool.installed) && Reached(pool, steps, name, removed, k)
    ensures var k' := Min(k + Excess(pool, steps, name, limit), |Left(pool, steps, name)|);
            && Picked(pool, steps, name, limit, removed)
               == FromTo(Left(pool, steps, name), k, Excess(pool, steps, name, limit))
            && Reached(pool, steps, name, RemovedAfter(pool, steps, name, limit, removed), k')
  {
    var left, e := Left(pool, steps, name), Excess(pool, steps, name, limit);
    var erased := ToSet(StepsOf(pool, steps, name, Erased));
    var n := Min(e, |left[k..]|);
    SpareDrop(pool, pool.installed, name, removed + erased, n);
    AddedTwice(removed, erased, ToSet(left[k..][..n]));
    SkipMore(left, k, e);
  }

  lemma AddedTwice(a: set<nat>, b: set<nat>, c: set<nat>)
    ensures a + b + c + b == a + b + c
  {
  }

  lemma SkipMore(s: seq<nat>, k: nat, e: nat)
    requires k <= |s|
    ensures var n := Min(e, |s[k..]|);
            s[k..][..n] == FromTo(s, k, e) && s[k..][n..] == s[Min(k + e, |s|)..]
  {
  }

  lemma ReachedOther(pool: Pool, steps: seq<Step>, own: string, limit: int, removed: set<nat>, name: string, k: nat)
    requires own != name && Reached(pool, steps, name, removed, k)
    ensures Reached(pool, steps, name, RemovedAfter(pool, steps, own, limit, removed), k)
  {
    var erased := ToSet(StepsOf(pool, steps, name, Erased));
    var after := RemovedAfter(pool, steps, own, limit, removed);
    var all := removed + ToSet(StepsOf(pool, steps, own, Erased));
    forall id | id in pool.installed && NameOf(pool, id) == name
      ensures id in removed + erased <==> id in after + erased
    {
      StepsOfIn(pool, steps, own, Erased, id);
      SpareIn(pool, pool.installed, own, all, id);
    }
    SpareSame(pool, pool.installed, name, removed + erased, after + erased);
  }

  lemma PickedCons(pool: Pool, steps: seq<Step>, names: seq<string>, limit: int, removed: set<nat>, name: string)
    requires names != []
    ensures var more := PickedFor(pool, steps, names[1..], limit, RemovedAfter(pool, steps, names[0], limit, removed));
            OfName(pool, PickedFor(pool, steps, names, limit, removed), name)
            == if names[0] == name then Picked(pool, steps, name, limit, removed) + OfName(pool, more, name)
               else OfName(pool, more, name)
  {
    var picked := Picked(pool, steps, names[0], limit, removed);
    var more := PickedFor(pool, steps, names[1..], limit, RemovedAfter(pool, steps, names[0], limit, removed));
    OfNameAppend(pool, picked, more, name);
    PickedOfName(pool, steps, names[0], limit, removed, name);
    assert [] + OfName(pool, more, name) == OfName(pool, more, name);
  }

  /** One more configured name. */
  lemma PickedOneMore(pool: Pool, steps: seq<Step>, names: seq<string>, limit: int, removed: set<nat>,
                   name: string, k: nat, left: seq<nat>, e: nat, more: seq<nat>)
    requires names != [] && k <= |left|
    requires names[0] == name ==> Picked(pool, steps, name, limit, removed) == FromTo(left, k, e)
    requires more == PickedFor(pool, steps, names[1..], limit, RemovedAfter(pool, steps, names[0], limit, removed))
    requires OfName(pool, more, name)
          == FromTo(left, if names[0] == name then Min(k + e, |left|) else k, Demand(names[1..], name, e))
    ensures OfName(pool, PickedFor(pool, steps, names, limit, removed), name) == FromTo(left, k, Demand(names, name, e))
  {
    PickedCons(pool, steps, names, limit, removed, name);
    if names[0] == name {
      FromToJoin(left, k, e, Demand(names[1..], name, e));
    } else {
      assert Demand(names, name, e) == Demand(names[1..], name, e);
    }
  }

  lemma {:induction false} PickedFrom(pool: Pool, steps: seq<Step>, names: seq<string>, limit: int, removed: set<nat>,
                                      name: string, k: nat, left: seq<nat>, e: nat)
    requires left == Left(pool, steps, name) && e == Excess(pool, steps, name, limit)
    requires Distinct(pool.installed) && Reached(pool, steps, name, removed, k)
    ensures OfName(pool, PickedFor(pool, steps, names, limit, removed), name) == FromTo(left, k, Demand(names, name, e))
    decreases |names|
  {
    if names != [] {
      var after := RemovedAfter(pool, steps, names[0], limit, removed);
      if names[0] == name {
        ReachedOwn(pool, steps, name, limit, removed, k);
        PickedFrom(pool, steps, names[1..], limit, after, name, Min(k + e, |left|), left, e);
      } else {
        ReachedOther(pool, steps, names[0], limit, removed, name, k);
        PickedFrom(pool, steps, names[1..], limit, after, name, k, left, e);
      }
      PickedOneMore(pool, steps, names, limit, removed, name, k, left, e,
                    PickedFor(pool, steps, names[1..], limit, after));
    }
  }

  /** The erase jobs for one name are the first packages left: the excess for every time the name is configured, or
      all there are. */
  lemma PickedForName(pool: Pool, steps: seq<Step>, names: seq<string>, limit: int, name: string)
    requires Distinct(pool.installed)
    ensures var left, n := Left(pool, steps, name), Demand(names, name, Excess(pool, steps, name, limit));
            OfName(pool, PickedFor(pool, steps, names, limit, {}), name) == left[..Min(n, |left|)]
  {
    assert {} + ToSet(StepsOf(pool, steps, name, Erased)) == ToSet(StepsOf(pool, steps, name, Erased));
    PickedFrom(pool, steps, names, limit, {}, name, 0, Left(pool, steps, name), Excess(pool, steps, name, limit));
  }

  ghost predicate Outside(ids: seq<nat>, removed: set<nat>) {
    forall id :: id in ids ==> id !in removed
  }

  /** Every erase job is for an installed package of an exceeding name that the transaction leaves, and none is given
      twice. */
  lemma {:induction false} PickedAreSpare(pool: Pool, steps: seq<Step>, names: seq<string>, limit: int,
                                          removed: set<nat>)
    requires Distinct(pool.installed)
    ensures Distinct(PickedFor(pool, steps, names, limit, removed))
    ensures Outside(PickedFor(pool, steps, names, limit, removed), removed)
    ensures forall id :: id in PickedFor(pool, steps, names, limit, removed) ==>
              id in pool.installed && NameOf(pool, id) in names && Tally(pool, steps, NameOf(pool, id)) > limit
              && id !in StepsOf(pool, steps, NameOf(pool, id), Erased)
    decreases |names|
  {
    if names != [] {
      var name, all := names[0], removed + ToSet(StepsOf(pool, steps, names[0], Erased));
      var picked, after := Picked(pool, steps, name, limit, removed), RemovedAfter(pool, steps, name, limit, removed);
      PickedAreSpare(pool, steps, names[1..], limit, after);
      SpareDistinct(pool, pool.installed, name, all);
      forall id | id in picked
        ensures id in pool.installed && NameOf(pool, id) == name && id !in removed
                && id !in StepsOf(pool, steps, name, Erased)
      {
        SpareIn(pool, pool.installed, name, all, id);
      }
      DistinctAppend(picked, PickedFor(pool, steps, names[1..], limit, after));
    }
  }

  lemma DistinctAppend(a: seq<nat>, b: seq<nat>)
    requires Distinct(a) && Distinct(b) && forall id :: id in b ==> id !in a
    ensures Distinct(a + b)
  {
    forall i, j | 0 <= i < j < |a + b| ensures (a + b)[i] != (a + b)[j] {
      if i < |a| <= j { assert b[j - |a|] in b; }
    }
  }

  // ----- solving again

  function EraseSteps(ids: seq<nat>): seq<Step> {
    seq(|ids|, i requires 0 <= i < |ids| => Step(ids[i], Erased, Erased, Erased))
  }

  lemma {:induction false} EraseStepsOf(pool: Pool, ids: seq<nat>, name: string, kind: Kind)
    ensures StepsOf(pool, EraseSteps(ids), name, kind) == if kind == Erased then OfName(pool, ids, name) else []
  {
    if ids != [] {
      assert EraseSteps(ids)[1..] == EraseSteps(ids[1..]);
      EraseStepsOf(pool, ids[1..], name, kind);
    }
  }

  lemma TallyAfterErasing(pool: Pool, steps: seq<Step>, ids: seq<nat>, name: string)
    ensures Tally(pool, steps + EraseSteps(ids), name) == Tally(pool, steps, name) - |OfName(pool, ids, name)|
  {
    StepsOfAppend(pool, steps, EraseSteps(ids), name, MultiInstalled);
    StepsOfAppend(pool, steps, EraseSteps(ids), name, Erased);
    EraseStepsOf(pool, ids, name, MultiInstalled);
    EraseStepsOf(pool, ids, name, Erased);
  }

  /** A transaction erases installed packages, each once. */
  ghost predicate ErasesInstalled(pool: Pool, steps: seq<Step>) {
    forall name :: Distinct(StepsOf(pool, steps, name, Erased))
                   && forall id :: id in StepsOf(pool, steps, name, Erased) ==> id in pool.installed
  }

  lemma LeftCount(pool: Pool, steps: seq<Step>, name: string)
    requires Distinct(pool.installed) && ErasesInstalled(pool, steps)
    ensures |Left(pool, steps, name)| == Tally(pool, steps, name) - |StepsOf(pool, steps, name, MultiInstalled)|
  {
    var erased := StepsOf(pool, steps, name, Erased);
    forall id | id in erased ensures id in pool.installed && NameOf(pool, id) == name {
      StepsOfIn(pool, steps, name, Erased, id);
    }
    SpareCount(pool, pool.installed, name, erased);
  }

  function Max(a: int, b: int): int {
    if a < b then b else a
  }

  /** How many packages of an exceeding name there are if the same transaction also erases what was asked for. */
  lemma TallyOnRetry(pool: Pool, steps: seq<Step>, names: seq<string>, limit: int, name: string)
    requires Distinct(pool.installed) && ErasesInstalled(pool, steps)
    ensures Tally(pool, steps + EraseSteps(PickedFor(pool, steps, names, limit, {})), name)
         == if Tally(pool, steps, name) <= limit then Tally(pool, steps, name)
            else Max(Tally(pool, steps, name) - Demand(names, name, Excess(pool, steps, name, limit)),
                     |StepsOf(pool, steps, name, MultiInstalled)|)
  {
    PickedForName(pool, steps, names, limit, name);
    TallyAfterErasing(pool, steps, PickedFor(pool, steps, names, limit, {}), name);
    LeftCount(pool, steps, name);
    DemandIs(names, name, 0);
    LessAtMost(Tally(pool, steps, name), Demand(names, name, Excess(pool, steps, name, limit)),
               |Left(pool, steps, name)|,
               |StepsOf(pool, steps, name, MultiInstalled)|);
  }

  lemma LessAtMost(tally: int, n: nat, left: nat, multi: nat)
    requires left == tally - multi
    ensures tally - Min(n, left) == Max(tally - n, multi)
  {
  }

  /** With distinct names, an exceeding name gets as many erase jobs as it exceeds the limit by, or as many as there
      are packages left. */
  lemma RetryJobs(pool: Pool, steps: seq<Step>, names: seq<string>, limit: int, name: string)
    requires Distinct(pool.installed) && (forall i, j :: 0 <= i < j < |names| ==> names[i] != names[j])
    requires name in names && Tally(pool, steps, name) > limit
    ensures |OfName(pool, PickedFor(pool, steps, names, limit, {}), name)|
         == Min(Tally(pool, steps, name) - limit, |Left(pool, steps, name)|)
  {
    DemandOnce(names, name, Excess(pool, steps, name, limit));
    PickedForName(pool, steps, names, limit, name);
  }

  lemma {:induction false} DemandEnough(names: seq<string>, name: string, e: nat)
    requires name in names
    ensures Demand(names, name, e) >= e
  {
    if names[0] != name { DemandEnough(names[1..], name, e); }
  }

  /** Erasing what was asked for is enough for every name exactly if none that exceeds the limit installs more than
      the limit, however often names are configured. */
  lemma RetryWithin(pool: Pool, steps: seq<Step>, names: seq<string>, limit: int)
    requires Distinct(pool.installed) && ErasesInstalled(pool, steps)
    ensures WithinLimit(pool, steps + EraseSteps(PickedFor(pool, steps, names, limit, {})), names, limit)
       <==> forall name :: name in names && Tally(pool, steps, name) > limit ==>
              |StepsOf(pool, steps, name, MultiInstalled)| <= limit
  {
    var again := steps + EraseSteps(PickedFor(pool, steps, names, limit, {}));
    forall name | name in names
      ensures Tally(pool, steps, name) > limit ==>
                (Tally(pool, again, name) <= limit <==> |StepsOf(pool, steps, name, MultiInstalled)| <= limit)
      ensures Tally(pool, steps, name) <= limit ==> Tally(pool, again, name) <= limit
    {
      DemandEnough(names, name, Excess(pool, steps, name, limit));
      TallyOnRetry(pool, steps, names, limit, name);
    }
  }

  /** A name that is configured twice loses twice the excess: with three kernels and a limit of two, two are erased. */
  lemma ConfiguredTwiceExample()
    ensures var pool := Pool(["kernel", "kernel", "kernel"], [0, 1, 2]);
            && Tally(pool, [], "kernel") == 3
            && |OfName(pool, PickedFor(pool, [], ["kernel", "kernel"], 2, {}), "kernel")| == 2
            && |OfName(pool, PickedFor(pool, [], ["kernel"], 2, {}), "kernel")| == 1
  {
    var pool := Pool(["kernel", "kernel", "kernel"], [0, 1, 2]);
    assert [0, 1, 2][1..] == [1, 2] && [1, 2][1..] == [2] && [2][1..] == [];
    assert |OfName(pool, [2], "kernel")| == 1 && |OfName(pool, [1, 2], "kernel")| == 2;
    assert |Spare(pool, [2], "kernel", {})| == 1 && |Spare(pool, [1, 2], "kernel", {})| == 2;
    assert ToSet<nat>([]) == {};
    assert |Left(pool, [], "kernel")| == 3;
    assert ["kernel", "kernel"][1..] == ["kernel"] && ["kernel"][1..] == [];
    assert Demand(["kernel"], "kernel", 1) == 1 && Demand(["kernel", "kernel"], "kernel", 1) == 2;
    PickedForName(pool, [], ["kernel", "kernel"], 2, "kernel");
    PickedForName(pool, [], ["kernel"], 2, "kernel");
  }
}
