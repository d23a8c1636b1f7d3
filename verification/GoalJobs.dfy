/** The solver's job queue and transactions, as far as client/goal.c looks at them. */
module GoalJobs {
  import opened Sequences

  /** The name of every solvable, and the installed ones in the order of the repository. */
  datatype Pool = Pool(names: seq<string>, installed: seq<nat>)

  function NameOf(pool: Pool, id: nat): string {
    if id < |pool.names| then pool.names[id] else ""
  }

  datatype Action = Install | Erase | AllowUninstall | UserInstalled | OtherAction

  /** One job: `solvable` is the bit SOLVER_SOLVABLE of the flags, `what` then an id. */
  datatype Job = Job(action: Action, solvable: bool, what: nat)

  class JobQueue {
    var jobs: seq<Job>

    constructor ()
      ensures jobs == []
    {
      jobs := [];
    }

    /** queue_push2 */
    method Push(job: Job)
      modifies this
      ensures jobs == old(jobs) + [job]
    {
      jobs := jobs + [job];
    }
  }

  datatype Kind = Erased | Obsoleted | MultiInstalled | OtherKind

  /** A step of a transaction, with its type in the three modes that are asked for: SHOW_MULTIINSTALL,
      SHOW_OBSOLETES and SHOW_ACTIVE|SHOW_ALL. */
  datatype Step = Step(id: nat, multi: Kind, obsoletes: Kind, all: Kind)

  // ----- choosing from lists

  /** The ids of one name. */
  function OfName(pool: Pool, ids: seq<nat>, name: string): (r: seq<nat>)
    ensures |r| <= |ids|
  {
    if ids == [] then []
    else (if NameOf(pool, ids[0]) == name then [ids[0]] else []) + OfName(pool, ids[1..], name)
  }

  /** The ids of one name that are not in a set. */
  function Spare(pool: Pool, ids: seq<nat>, name: string, removed: set<nat>): (r: seq<nat>)
    ensures |r| <= |ids|
  {
    if ids == [] then []
    else
      (if NameOf(pool, ids[0]) == name && ids[0] !in removed then [ids[0]] else [])
      + Spare(pool, ids[1..], name, removed)
  }

  /** The ids of one name with steps of one kind. */
  function StepsOf(pool: Pool, steps: seq<Step>, name: string, kind: Kind): seq<nat> {
    if steps == [] then []
    else
      (if NameOf(pool, steps[0].id) == name && steps[0].multi == kind then [steps[0].id] else [])
      + StepsOf(pool, steps[1..], name, kind)
  }

  lemma {:induction false} OfNameAppend(pool: Pool, a: seq<nat>, b: seq<nat>, name: string)
    ensures OfName(pool, a + b, name) == OfName(pool, a, name) + OfName(pool, b, name)
  {
    if a == [] {
      assert a + b == b;
    } else {
      assert (a + b)[1..] == a[1..] + b;
      OfNameAppend(pool, a[1..], b, name);
    }
  }

  lemma {:induction false} StepsOfAppend(pool: Pool, a: seq<Step>, b: seq<Step>, name: string, kind: Kind)
    ensures StepsOf(pool, a + b, name, kind) == StepsOf(pool, a, name, kind) + StepsOf(pool, b, name, kind)
  {
    if a == [] {
      assert a + b == b;
    } else {
      assert (a + b)[1..] == a[1..] + b;
      StepsOfAppend(pool, a[1..], b, name, kind);
    }
  }

  lemma {:induction false} OfNameIn(pool: Pool, ids: seq<nat>, name: string, id: nat)
    ensures id in OfName(pool, ids, name) <==> id in ids && NameOf(pool, id) == name
  {
    if ids != [] { OfNameIn(pool, ids[1..], name, id); }
  }

  lemma {:induction false} StepsOfIn(pool: Pool, steps: seq<Step>, name: string, kind: Kind, id: nat)
    ensures id in StepsOf(pool, steps, name, kind) <==>
              NameOf(pool, id) == name && exists k :: 0 <= k < |steps| && steps[k].id == id && steps[k].multi == kind
  {
    if steps != [] {
      StepsOfIn(pool, steps[1..], name, kind, id);
      assert forall k :: 1 <= k < |steps| ==> steps[k] == steps[1..][k - 1];
      assert forall k :: 0 <= k < |steps| - 1 ==> steps[1..][k] == steps[k + 1];
    }
  }

  lemma {:induction false} SpareIn(pool: Pool, ids: seq<nat>, name: string, removed: set<nat>, id: nat)
    ensures id in Spare(pool, ids, name, removed) <==> id in ids && NameOf(pool, id) == name && id !in removed
  {
    if ids != [] { SpareIn(pool, ids[1..], name, removed, id); }
  }

  lemma {:induction false} SpareDistinct(pool: Pool, ids: seq<nat>, name: string, removed: set<nat>)
    requires Distinct(ids)
    ensures Distinct(Spare(pool, ids, name, removed))
  {
    if ids != [] {
      SpareDistinct(pool, ids[1..], name, removed);
      SpareIn(pool, ids[1..], name, removed, ids[0]);
    }
  }

  /** Only the members of that name matter in the set. */
  lemma {:induction false} SpareSame(pool: Pool, ids: seq<nat>, name: string, a: set<nat>, b: set<nat>)
    requires forall id :: id in ids && NameOf(pool, id) == name ==> (id in a <==> id in b)
    ensures Spare(pool, ids, name, a) == Spare(pool, ids, name, b)
  {
    if ids != [] { SpareSame(pool, ids[1..], name, a, b); }
  }

  /** What is left when the first `k` are removed too. */
  lemma {:induction false} SpareDrop(pool: Pool, ids: seq<nat>, name: string, removed: set<nat>, k: nat)
    requires Distinct(ids) && k <= |Spare(pool, ids, name, removed)|
    ensures Spare(pool, ids, name, removed + ToSet(Spare(pool, ids, name, removed)[..k]))
         == Spare(pool, ids, name, removed)[k..]
    decreases |ids|
  {
    if k == 0 {
      assert removed + ToSet(Spare(pool, ids, name, removed)[..k]) == removed;
    } else if NameOf(pool, ids[0]) == name && ids[0] !in removed {
      SpareDropFirst(pool, ids, name, removed, k);
      SpareDrop(pool, ids[1..], name, removed, k - 1);
    } else {
      var s := Spare(pool, ids[1..], name, removed);
      SpareDrop(pool, ids[1..], name, removed, k);
      assert Spare(pool, ids, name, removed) == s;
      assert Spare(pool, ids, name, removed + ToSet(s[..k])) == Spare(pool, ids[1..], name, removed + ToSet(s[..k]));
    }
  }

  lemma SpareDropFirst(pool: Pool, ids: seq<nat>, name: string, removed: set<nat>, k: nat)
    requires Distinct(ids) && 0 < k <= |Spare(pool, ids, name, removed)|
    requires NameOf(pool, ids[0]) == name && ids[0] !in removed
    ensures var s, rest := Spare(pool, ids, name, removed), Spare(pool, ids[1..], name, removed);
            && k - 1 <= |rest| && s[k..] == rest[k - 1..]
            && Spare(pool, ids, name, removed + ToSet(s[..k]))
               == Spare(pool, ids[1..], name, removed + ToSet(rest[..k - 1]))
  {
    var s, rest := Spare(pool, ids, name, removed), Spare(pool, ids[1..], name, removed);
    ConsParts(ids[0], rest, k);
    SpareSame(pool, ids[1..], name, removed + ToSet(s[..k]), removed + ToSet(rest[..k - 1]));
  }

  lemma ConsParts(id: nat, rest: seq<nat>, k: nat)
    requires 0 < k <= |rest| + 1
    ensures ([id] + rest)[k..] == rest[k - 1..]
    ensures ToSet(([id] + rest)[..k]) == {id} + ToSet(rest[..k - 1])
  {
    assert ([id] + rest)[..k] == [id] + rest[..k - 1];
  }

  lemma NonEmptyHas(ids: seq<nat>)
    ensures ids != [] ==> exists id :: id in ids
  {
    if ids != [] { assert ids[0] in ids; }
  }

  /** Spared and removed ids of a name make up all of them. */
  lemma {:induction false} SpareCount(pool: Pool, ids: seq<nat>, name: string, removed: seq<nat>)
    requires Distinct(ids) && Distinct(removed)
    requires forall id :: id in removed ==> id in ids && NameOf(pool, id) == name
    ensures |OfName(pool, ids, name)| == |Spare(pool, ids, name, ToSet(removed))| + |removed|
    decreases |ids|
  {
    if ids == [] {
      NonEmptyHas(removed);
    } else if ids[0] in removed {
      var i :| 0 <= i < |removed| && removed[i] == ids[0];
      var less := removed[..i] + removed[i + 1..];
      forall id | id in less ensures id in ids[1..] && NameOf(pool, id) == name {
        assert id in removed && id != removed[i] && id in ids;
      }
      SpareCount(pool, ids[1..], name, less);
      SpareSame(pool, ids[1..], name, ToSet(removed), ToSet(less));
    } else {
      SpareCount(pool, ids[1..], name, removed);
    }
  }
}
