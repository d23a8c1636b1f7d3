/** The queues of a history command filled by the search that the client really uses, SolvFindSolvablesByNevraStr. */
module HistorySearch {
  import opened Wrappers
  import opened Sequences
  import opened HistoryContext
  import opened HistoryTransaction
  import opened Nevra

  /** The search in a pool, by the numbers of its solvables. The empty string, which the code cannot be asked for,
      counts as one that cannot be taken apart. */
  function Search(pool: seq<Solvable>): (string, bool) -> Option<seq<int>> {
    (n, installed) => if n == "" then None else Nevra.Found(pool, n, installed)
  }

  function NevraAt(pool: seq<Solvable>): int -> string {
    i => if 0 <= i < |pool| then NevraOf(pool[i]) else ""
  }

  ghost function InstalledIn(pool: seq<Solvable>): set<int> {
    set i | 0 <= i < |pool| && pool[i].installed
  }

  /** The parts of a solvable are of the usual form. */
  ghost predicate Usual(x: Solvable) {
    x.name != "" && OneDash(x.evr) && Without(x.arch, '.')
  }

  predicate Splits(n: string) {
    n != "" && SplitNevra(n).Split?
  }

  lemma SearchIs(pool: seq<Solvable>, n: string, installed: bool, i: int)
    ensures HistoryTransaction.Found(Search(pool), n, installed, i) <==>
              0 <= i < |pool| && n != "" && pool[i].installed == installed && NevraOf(pool[i]) == n && Usual(pool[i])
  {
    if n != "" {
      if 0 <= i < |pool| {
        FoundExactly(pool, n, installed, i);
      } else if SplitNevra(n).Split? {
        MatchingInside(pool, SplitNevra(n).parts, installed, 0);
      }
    }
  }

  lemma {:induction false} MatchingInside(pool: seq<Solvable>, p: Parts, installed: bool, from: nat)
    ensures forall i :: i in Matching(pool, p, installed, from) ==> i < |pool|
    decreases |pool| - from
  {
    if from < |pool| { MatchingInside(pool, p, installed, from + 1); }
  }

  predicate CanSearch(idmap: seq<string>, id: int) {
    0 < id <= |idmap| && (IsKey(idmap[id - 1]) || Splits(idmap[id - 1]))
  }

  /** The queues can be filled exactly if every NEVRA that is no key can be taken apart. */
  lemma CanQueueExactly(pool: seq<Solvable>, idmap: seq<string>, id: int)
    ensures CanInstall(id, idmap, Search(pool)) <==> CanSearch(idmap, id)
    ensures CanErase(id, idmap, Search(pool)) <==> CanSearch(idmap, id)
  {
  }

  /** The search never finds anything wrong, ... */
  lemma SearchFinds(pool: seq<Solvable>)
    ensures Finds(Search(pool), NevraAt(pool), InstalledIn(pool))
  {
    forall n, b, x | HistoryTransaction.Found(Search(pool), n, b, x)
      ensures NevraAt(pool)(x) == n && (x in InstalledIn(pool) <==> b)
    {
      SearchIs(pool, n, b, x);
    }
  }

  /** ... and finds every installed solvable of a NEVRA that can be taken apart exactly if their parts are of the
      usual form. */
  lemma SearchFindsAll(pool: seq<Solvable>, n: string)
    ensures FindsAll(Search(pool), NevraAt(pool), InstalledIn(pool), n) <==>
              (Splits(n) ==> forall i ::
                  0 <= i < |pool| && pool[i].installed && NevraOf(pool[i]) == n ==> Usual(pool[i]))
  {
    forall i ensures HistoryTransaction.Found(Search(pool), n, true, i) <==>
                       0 <= i < |pool| && n != "" && pool[i].installed && NevraOf(pool[i]) == n && Usual(pool[i])
    {
      SearchIs(pool, n, true, i);
    }
    if Splits(n) && FindsAll(Search(pool), NevraAt(pool), InstalledIn(pool), n) {
      forall i | 0 <= i < |pool| && pool[i].installed && NevraOf(pool[i]) == n ensures Usual(pool[i]) {
        assert i in InstalledIn(pool) && NevraAt(pool)(i) == n && Search(pool)(n, true).Some?;
      }
    }
  }

  /** QueuesReach for the real search: for every package whose NEVRA can be taken apart, and whose installed solvables
      have parts of the usual form. */
  lemma SearchQueuesReach(pool: seq<Solvable>, hd: HistoryDelta, idmap: seq<string>, have: set<int>, id: int)
    requires Distinct(idmap) && ToSet(hd.added) !! ToSet(hd.removed)
    requires 0 < id <= |idmap| && !IsKey(idmap[id - 1]) && Splits(idmap[id - 1])
    requires forall i :: 0 <= i < |pool| && pool[i].installed && NevraOf(pool[i]) == idmap[id - 1] ==> Usual(pool[i])
    requires id in have <==> Has(InstalledIn(pool), NevraAt(pool), idmap[id - 1])
    ensures var find, n := Search(pool), idmap[id - 1];
            var after := InstalledIn(pool) - ToSet(Erases(hd.removed, idmap, find))
                         + ToSet(Installs(hd.added, idmap, find));
            Has(after, NevraAt(pool), n) <==>
              id in ApplyDelta(have, hd) && (n in Missing(hd.added, idmap, find) ==> id in have)
  {
    SearchFinds(pool);
    SearchFindsAll(pool, idmap[id - 1]);
    CanQueueExactly(pool, idmap, id);
    QueuesReach(hd, idmap, Search(pool), NevraAt(pool), InstalledIn(pool), have, id);
  }
}
