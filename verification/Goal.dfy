/** client/goal.c: protected packages, and solving with at most one retry, whatever the solver does. */
module Goal {
  import opened Wrappers
  import opened Sequences
  import opened GoalJobs
  import opened GoalLimit

  // ----- TDNFSolvAddProtectPkgs

  predicate ErasesDirectly(job: Job) {
    job.action == Erase && job.solvable
  }

  predicate InstallsName(pool: Pool, job: Job, name: string) {
    job.action == Install && job.solvable && NameOf(pool, job.what) == name
  }

  /** Another job installs a solvable of the same name as the one that job `j` is about. */
  ghost predicate AddedAgain(pool: Pool, jobs: seq<Job>, j: nat)
    requires j < |jobs|
  {
    exists i :: 0 <= i < |jobs| && i != j && jobs[i].action == Install && jobs[i].solvable
                && NameOf(pool, jobs[i].what) == NameOf(pool, jobs[j].what)
  }

  /** Job `j` takes a protected package away for good: it erases a solvable that no other job adds again. */
  ghost predicate Violates(pool: Pool, protected: seq<string>, jobs: seq<Job>, j: nat)
    requires j < |jobs|
  {
    && jobs[j].action == Erase && jobs[j].solvable && NameOf(pool, jobs[j].what) in protected
    && !AddedAgain(pool, jobs, j)
  }

  /** One solvable job for every installed package: the protected ones count as user installed, all others may be
      uninstalled. */
  ghost predicate KeepsAll(pool: Pool, protected: seq<string>, added: seq<Job>) {
    && |added| == |pool.installed|
    && forall k :: 0 <= k < |added| ==>
         && added[k].what == pool.installed[k] && added[k].solvable
         && (added[k].action == UserInstalled <==> NameOf(pool, pool.installed[k]) in protected)
         && (added[k].action == AllowUninstall <==> NameOf(pool, pool.installed[k]) !in protected)
  }

  /** The job that an installed package gets. */
  function KeepJob(pool: Pool, protected: seq<string>, id: nat): Job {
    Job(if NameOf(pool, id) in protected then UserInstalled else AllowUninstall, true, id)
  }

  function KeepJobs(pool: Pool, protected: seq<string>): (r: seq<Job>)
    ensures |r| == |pool.installed|
    ensures forall i :: 0 <= i < |r| ==> r[i] == KeepJob(pool, protected, pool.installed[i])
  {
    seq(|pool.installed|, i requires 0 <= i < |pool.installed| => KeepJob(pool, protected, pool.installed[i]))
  }

  lemma KeepJobsKeepAll(pool: Pool, protected: seq<string>)
    ensures KeepsAll(pool, protected, KeepJobs(pool, protected))
  {
  }

  /** The search through the queue of protected names. */
  method FindName(names: seq<string>, name: string) returns (i: nat)
    ensures i <= |names| && (i < |names| <==> name in names)
    ensures i < |names| ==> names[i] == name
  {
    i := 0;
    while i < |names| && names[i] != name
      invariant i <= |names| && name !in names[..i]
    {
      i := i + 1;
    }
    assert i == |names| ==> names[..i] == names;
  }

  /** The search for a job that adds the package again. */
  method FindAddedAgain(pool: Pool, jobs: seq<Job>, j: nat) returns (found: bool)
    requires j < |jobs|
    ensures found <==> AddedAgain(pool, jobs, j)
  {
    found := false;
    var i := 0;
    while i < |jobs| && !found
      invariant i <= |jobs|
      invariant found ==> AddedAgain(pool, jobs, j)
      invariant !found ==>
                  forall k :: 0 <= k < i ==> !(k != j && InstallsName(pool, jobs[k], NameOf(pool, jobs[j].what)))
      decreases |jobs| - i, !found
    {
      if i != j && InstallsName(pool, jobs[i], NameOf(pool, jobs[j].what)) {
        found := true;
      } else {
        i := i + 1;
      }
    }
  }

  /** TDNFSolvAddProtectPkgs. The error is that of a protected package. */
  method AddProtectPkgs(pool: Pool, protected: seq<string>, q: JobQueue) returns (error: bool)
    modifies q
    ensures error <==> exists j :: 0 <= j < |old(q.jobs)| && Violates(pool, protected, old(q.jobs), j)
    ensures old(q.jobs) <= q.jobs
    ensures if error then q.jobs == old(q.jobs) else KeepsAll(pool, protected, q.jobs[|old(q.jobs)|..])
    ensures q.jobs == old(q.jobs) + if error then [] else KeepJobs(pool, protected)
  {
    var jobs := q.jobs;
    var j := 0;
    while j < |jobs|
      invariant j <= |jobs| && q.jobs == jobs == old(q.jobs)
      invariant forall k :: 0 <= k < j ==> !Violates(pool, protected, jobs, k)
    {
      if ErasesDirectly(jobs[j]) {
        var i := FindName(protected, NameOf(pool, jobs[j].what));
        if i < |protected| {
          var again := FindAddedAgain(pool, jobs, j);
          if !again {
            assert Violates(pool, protected, jobs, j);
            return true;
          }
        }
      }
      j := j + 1;
    }
    var k := 0;
    assert KeepJobs(pool, protected)[..0] == [];
    while k < |pool.installed|
      invariant k <= |pool.installed|
      invariant q.jobs == jobs + KeepJobs(pool, protected)[..k]
    {
      var id := pool.installed[k];
      var i := FindName(protected, NameOf(pool, id));
      q.Push(Job(if i == |protected| then AllowUninstall else UserInstalled, true, id));
      assert KeepJobs(pool, protected)[..k + 1] == KeepJobs(pool, protected)[..k] + [KeepJob(pool, protected, id)];
      k := k + 1;
    }
    assert KeepJobs(pool, protected)[..k] == KeepJobs(pool, protected);
    return false;
  }

  // ----- TDNFSolvCheckProtectPkgsInTrans

  /** The step takes its package away. */
  predicate TakesAway(step: Step) {
    step.obsoletes == Obsoleted || step.all == Obsoleted || step.all == Erased
  }

  ghost predicate KeepsProtected(pool: Pool, protected: seq<string>, steps: seq<Step>) {
    forall k :: 0 <= k < |steps| && TakesAway(steps[k]) ==> NameOf(pool, steps[k].id) !in protected
  }

  method CheckProtectPkgs(pool: Pool, protected: seq<string>, steps: seq<Step>) returns (error: bool)
    ensures error <==> !KeepsProtected(pool, protected, steps)
    ensures error <==>
              exists k :: 0 <= k < |steps| && NameOf(pool, steps[k].id) in protected
                          && (steps[k].obsoletes == Obsoleted || steps[k].all == Obsoleted || steps[k].all == Erased)
  {
    var i := 0;
    while i < |steps|
      invariant i <= |steps| && KeepsProtected(pool, protected, steps[..i])
    {
      var kind := steps[i].obsoletes;
      if kind != Obsoleted { kind := steps[i].all; }
      if kind == Obsoleted || kind == Erased {
        var j := FindName(protected, NameOf(pool, steps[i].id));
        if j < |protected| {
          assert TakesAway(steps[i]);
          return true;
        }
      }
      assert steps[..i + 1] == steps[..i] + [steps[i]];
      i := i + 1;
    }
    assert steps[..i] == steps;
    return false;
  }

  // ----- TDNFSolv

  /** What one call of the solver comes to: problems that the user does not want skipped, no transaction, or one. */
  datatype Outcome = Problems | NoTransaction | Solved(steps: seq<Step>)

  /** Any behaviour at all: it may depend on the jobs and on how often the solver was called before. */
  type Solver = (nat, seq<Job>) -> Outcome

  /** The two lists may be missing in the configuration. */
  datatype Conf = Conf(protected: Option<seq<string>>, installOnly: Option<seq<string>>, limit: int)

  datatype Verdict = Done(steps: seq<Step>) | Unsolvable | InvalidParameter | ProtectedError | LimitExceeded

  ghost predicate ProtectionHolds(pool: Pool, conf: Conf, steps: seq<Step>) {
    conf.protected.Some? ==> KeepsProtected(pool, conf.protected.value, steps)
  }

  ghost predicate LimitHolds(pool: Pool, conf: Conf, steps: seq<Step>) {
    conf.installOnly.Some? ==> WithinLimit(pool, steps, conf.installOnly.value, conf.limit)
  }

  /** What the source makes of one outcome. */
  ghost function Judge(pool: Pool, conf: Conf, o: Outcome): Verdict {
    match o
    case Problems => Unsolvable
    case NoTransaction => InvalidParameter
    case Solved(steps) =>
      if !ProtectionHolds(pool, conf, steps) then ProtectedError
      else if !LimitHolds(pool, conf, steps) then LimitExceeded
      else Done(steps)
  }

  /** The erase jobs that an outcome over the limit leads to. */
  function ErasesFor(pool: Pool, conf: Conf, o: Outcome): seq<nat> {
    if o.Solved? && conf.installOnly.Some? then PickedFor(pool, o.steps, conf.installOnly.value, conf.limit, {}) else []
  }

  /** One turn of the loop. */
  method TryOnce(pool: Pool, conf: Conf, o: Outcome, q: JobQueue) returns (v: Verdict)
    requires Distinct(pool.installed)
    modifies q
    ensures v == Judge(pool, conf, o)
    ensures v.LimitExceeded? ==> q.jobs == old(q.jobs) + EraseJobs(ErasesFor(pool, conf, o))
  {
    match o {
      case Problems => return Unsolvable;
      case NoTransaction => return InvalidParameter;
      case Solved(steps) =>
        if conf.protected.Some? {
          var error := CheckProtectPkgs(pool, conf.protected.value, steps);
          if error { return ProtectedError; }
        }
        if conf.installOnly.Some? {
          var exceeded := CheckInstallOnlyLimit(pool, steps, conf.installOnly.value, conf.limit, q);
          if exceeded { return LimitExceeded; }
        }
        return Done(steps);
    }
  }

  /** The jobs that the solver starts with. */
  function FirstJobs(pool: Pool, conf: Conf, allowErasing: bool, jobs: seq<Job>): seq<Job> {
    if allowErasing && conf.protected.Some? then jobs + KeepJobs(pool, conf.protected.value) else jobs
  }

  ghost predicate Forbidden(pool: Pool, conf: Conf, allowErasing: bool, jobs: seq<Job>) {
    allowErasing && conf.protected.Some? && exists j :: 0 <= j < |jobs| && Violates(pool, conf.protected.value, jobs, j)
  }

  /** The jobs of the second try. */
  function SecondJobs(pool: Pool, conf: Conf, first: seq<Job>, o: Outcome): seq<Job> {
    first + EraseJobs(ErasesFor(pool, conf, o))
  }

  /** A run of TDNFSolv: the jobs of every call of the solver, and the verdict. */
  datatype Run = Run(calls: seq<seq<Job>>, verdict: Verdict)

  ghost function RunOf(pool: Pool, conf: Conf, allowErasing: bool, jobs: seq<Job>, solver: Solver): Run {
    var first := FirstJobs(pool, conf, allowErasing, jobs);
    var o := solver(0, first);
    var second := SecondJobs(pool, conf, first, o);
    if Forbidden(pool, conf, allowErasing, jobs) then Run([], ProtectedError)
    else if Judge(pool, conf, o).LimitExceeded? then Run([first, second], Judge(pool, conf, solver(1, second)))
    else Run([first], Judge(pool, conf, o))
  }

  /** The outcome of the last call. */
  ghost function LastOutcome(solver: Solver, calls: seq<seq<Job>>): Outcome
    requires calls != []
  {
    solver(|calls| - 1, calls[|calls| - 1])
  }

  /** Which verdict the outcome of the last call leads to: success exactly for a transaction that takes no protected
      package away and keeps every name within its limit. */
  ghost predicate Explains(pool: Pool, conf: Conf, o: Outcome, v: Verdict) {
    && (v == Unsolvable <==> o == Problems)
    && (v == InvalidParameter <==> o == NoTransaction)
    && (v == ProtectedError <==> o.Solved? && !ProtectionHolds(pool, conf, o.steps))
    && (v == LimitExceeded <==> o.Solved? && ProtectionHolds(pool, conf, o.steps) && !LimitHolds(pool, conf, o.steps))
    && (v.Done? <==> o.Solved? && ProtectionHolds(pool, conf, o.steps) && LimitHolds(pool, conf, o.steps))
    && (v.Done? ==> v.steps == o.steps)
  }

  /** A run as it has to be, in terms of the solver's outcomes: the solver is not called at all exactly if a protected
      package was to be erased directly, and called again exactly if the first transaction keeps the protected packages
      and is over the limit; then there are erase jobs more. */
  ghost predicate Proper(pool: Pool, conf: Conf, allowErasing: bool, jobs: seq<Job>, solver: Solver,
                         calls: seq<seq<Job>>, v: Verdict) {
    && |calls| <= 2
    && (calls == [] <==>
          allowErasing && conf.protected.Some?
          && exists j :: 0 <= j < |jobs| && Violates(pool, conf.protected.value, jobs, j))
    && (calls == [] ==> v == ProtectedError)
    && (calls != [] ==> FirstCall(pool, conf, allowErasing, jobs, calls[0]))
    && (calls != [] ==> Explains(pool, conf, LastOutcome(solver, calls), v))
    && (|calls| == 2 <==> calls != [] && OverLimit(pool, conf, solver(0, calls[0])))
    && (|calls| == 2 ==>
          calls[1] == calls[0] + EraseJobs(PickedFor(pool, solver(0, calls[0]).steps,
                                                     conf.installOnly.value, conf.limit, {})))
  }

  /** The jobs given, and where erasing is allowed one job for every installed package. */
  ghost predicate FirstCall(pool: Pool, conf: Conf, allowErasing: bool, jobs: seq<Job>, first: seq<Job>) {
    && jobs <= first
    && if allowErasing && conf.protected.Some? then KeepsAll(pool, conf.protected.value, first[|jobs|..])
       else first == jobs
  }

  ghost predicate OverLimit(pool: Pool, conf: Conf, o: Outcome) {
    o.Solved? && ProtectionHolds(pool, conf, o.steps) && !LimitHolds(pool, conf, o.steps)
  }

  lemma JudgeExplains(pool: Pool, conf: Conf, o: Outcome)
    ensures Explains(pool, conf, o, Judge(pool, conf, o))
    ensures Judge(pool, conf, o).LimitExceeded? <==> OverLimit(pool, conf, o)
  {
  }

  lemma RunIsProper(pool: Pool, conf: Conf, allowErasing: bool, jobs: seq<Job>, solver: Solver)
    ensures var run := RunOf(pool, conf, allowErasing, jobs, solver);
            Proper(pool, conf, allowErasing, jobs, solver, run.calls, run.verdict)
  {
    var first := FirstJobs(pool, conf, allowErasing, jobs);
    var o := solver(0, first);
    JudgeExplains(pool, conf, o);
    JudgeExplains(pool, conf, solver(1, SecondJobs(pool, conf, first, o)));
    FirstJobsAre(pool, conf, allowErasing, jobs);
  }

  lemma FirstJobsAre(pool: Pool, conf: Conf, allowErasing: bool, jobs: seq<Job>)
    ensures FirstCall(pool, conf, allowErasing, jobs, FirstJobs(pool, conf, allowErasing, jobs))
  {
    if allowErasing && conf.protected.Some? {
      KeepJobsKeepAll(pool, conf.protected.value);
      assert FirstJobs(pool, conf, allowErasing, jobs)[|jobs|..] == KeepJobs(pool, conf.protected.value);
    }
  }

  /** TDNFSolv as far as the loop. */
  method Solv(pool: Pool, conf: Conf, allowErasing: bool, q: JobQueue, solver: Solver)
    returns (v: Verdict, ghost calls: seq<seq<Job>>)
    requires Distinct(pool.installed)
    modifies q
    ensures Run(calls, v) == RunOf(pool, conf, allowErasing, old(q.jobs), solver)
    ensures Proper(pool, conf, allowErasing, old(q.jobs), solver, calls, v)
  {
    calls := [];
    RunIsProper(pool, conf, allowErasing, q.jobs, solver);
    if allowErasing && conf.protected.Some? {
      var error := AddProtectPkgs(pool, conf.protected.value, q);
      if error { return ProtectedError, calls; }
    }
    ghost var first := FirstJobs(pool, conf, allowErasing, old(q.jobs));
    ghost var second := SecondJobs(pool, conf, first, solver(0, first));
    assert q.jobs == first;
    var retries := 0;
    v := LimitExceeded;
    while v.LimitExceeded? && retries < 2
      invariant retries <= 2
      invariant retries == 0 ==> calls == [] && q.jobs == first && v.LimitExceeded?
      invariant retries == 1 ==> calls == [first] && v == Judge(pool, conf, solver(0, first))
                                 && (v.LimitExceeded? ==> q.jobs == second)
      invariant retries == 2 ==> Judge(pool, conf, solver(0, first)).LimitExceeded? && calls == [first, second]
                                 && v == Judge(pool, conf, solver(1, second))
    {
      var o := solver(retries, q.jobs);
      calls := calls + [q.jobs];
      v := TryOnce(pool, conf, o, q);
      retries := retries + 1;
    }
  }

  // ----- when the retry helps

  /** The second transaction is the first one and the erasures that were asked for. */
  ghost predicate Obeys(solver: Solver, first: seq<Job>, second: seq<Job>, picked: seq<nat>) {
    solver(0, first).Solved? && solver(1, second) == Solved(solver(0, first).steps + EraseSteps(picked))
  }

  /** If the solver does what it is asked to, the retry succeeds exactly if no erased package is protected and no name
      over the limit has more new packages than the limit allows. */
  lemma RetrySucceeds(pool: Pool, conf: Conf, allowErasing: bool, jobs: seq<Job>, solver: Solver)
    requires Distinct(pool.installed) && conf.installOnly.Some?
    requires !Forbidden(pool, conf, allowErasing, jobs)
    requires var first := FirstJobs(pool, conf, allowErasing, jobs);
             var o := solver(0, first);
             && Judge(pool, conf, o).LimitExceeded? && ErasesInstalled(pool, o.steps)
             && Obeys(solver, first, SecondJobs(pool, conf, first, o), ErasesFor(pool, conf, o))
    ensures var o := solver(0, FirstJobs(pool, conf, allowErasing, jobs));
            RunOf(pool, conf, allowErasing, jobs, solver).verdict.Done? <==>
              && (conf.protected.Some? ==>
                    forall id :: id in ErasesFor(pool, conf, o) ==> NameOf(pool, id) !in conf.protected.value)
              && (forall name :: name in conf.installOnly.value && Tally(pool, o.steps, name) > conf.limit ==>
                    |StepsOf(pool, o.steps, name, MultiInstalled)| <= conf.limit)
  {
    var o := solver(0, FirstJobs(pool, conf, allowErasing, jobs));
    var picked := ErasesFor(pool, conf, o);
    RetryWithin(pool, o.steps, conf.installOnly.value, conf.limit);
    if conf.protected.Some? { ErasuresProtected(pool, conf.protected.value, o.steps, picked); }
  }

  lemma ErasuresProtected(pool: Pool, protected: seq<string>, steps: seq<Step>, picked: seq<nat>)
    requires KeepsProtected(pool, protected, steps)
    ensures KeepsProtected(pool, protected, steps + EraseSteps(picked)) <==>
              forall id :: id in picked ==> NameOf(pool, id) !in protected
  {
    var all := steps + EraseSteps(picked);
    assert forall i :: 0 <= i < |picked| ==> all[|steps| + i] == Step(picked[i], Erased, Erased, Erased);
    if KeepsProtected(pool, protected, all) {
      forall id | id in picked ensures NameOf(pool, id) !in protected {
        var i :| 0 <= i < |picked| && picked[i] == id;
        assert TakesAway(all[|steps| + i]);
      }
    }
  }
}
