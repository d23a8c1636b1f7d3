/** Sorted integer arrays: the id lists that the history store keeps and compares. */
module SortedIds {
  import opened Sequences

  ghost predicate StrictlySorted(s: seq<int>) {
    forall i, j :: 0 <= i < j < |s| ==> s[i] < s[j]
  }

  lemma NoMembers(s: seq<int>)
    ensures ToSet(s) == {} <==> s == []
  {
    if s != [] { assert s[0] in ToSet(s); }
  }

  /** A strictly sorted sequence is determined by its set. */
  lemma {:induction false} StrictlySortedUnique(a: seq<int>, b: seq<int>)
    requires StrictlySorted(a) && StrictlySorted(b) && ToSet(a) == ToSet(b)
    ensures a == b
  {
    if a != [] && b != [] {
      assert a[0] in ToSet(b) && b[0] in ToSet(a);
      forall x ensures x in ToSet(a[1..]) <==> x in ToSet(b[1..]) {
        assert x in ToSet(a) <==> x in ToSet(b);
      }
      StrictlySortedUnique(a[1..], b[1..]);
    } else {
      NoMembers(a);
      NoMembers(b);
    }
  }

  // ----- sorting

  function Insert(x: int, s: seq<int>): seq<int> {
    if s == [] || x <= s[0] then [x] + s else [s[0]] + Insert(x, s[1..])
  }

  /** The ascending arrangement of `s`. */
  function Ascending(s: seq<int>): seq<int> {
    if s == [] then [] else Insert(s[0], Ascending(s[1..]))
  }

  lemma {:induction false} InsertMembers(x: int, s: seq<int>)
    ensures |Insert(x, s)| == |s| + 1
    ensures multiset(Insert(x, s)) == multiset(s) + multiset{x}
    ensures forall y :: y in Insert(x, s) <==> y == x || y in s
  {
    if !(s == [] || x <= s[0]) {
      assert s == [s[0]] + s[1..];
      InsertMembers(x, s[1..]);
    }
  }

  lemma {:induction false} InsertStrict(x: int, s: seq<int>)
    requires StrictlySorted(s) && x !in s
    ensures StrictlySorted(Insert(x, s))
  {
    if !(s == [] || x <= s[0]) {
      InsertStrict(x, s[1..]);
      InsertMembers(x, s[1..]);
      var t := Insert(x, s[1..]);
      forall j | 0 <= j < |t| ensures s[0] < t[j] { assert t[j] in t; }
    }
  }

  /** `Ascending` only reorders. */
  lemma {:induction false} AscendingMembers(s: seq<int>)
    ensures |Ascending(s)| == |s| && multiset(Ascending(s)) == multiset(s)
    ensures forall y :: y in Ascending(s) <==> y in s
  {
    if s != [] {
      assert s == [s[0]] + s[1..];
      AscendingMembers(s[1..]);
      InsertMembers(s[0], Ascending(s[1..]));
    }
  }

  /** Sorting distinct ids gives a strictly ascending list of the same ids. */
  lemma {:induction false} AscendingStrict(s: seq<int>)
    requires Distinct(s)
    ensures StrictlySorted(Ascending(s)) && ToSet(Ascending(s)) == ToSet(s)
  {
    AscendingMembers(s);
    if s != [] {
      AscendingStrict(s[1..]);
      AscendingMembers(s[1..]);
      InsertStrict(s[0], Ascending(s[1..]));
    }
  }

  /** qsort with an ascending comparison; only its result matters to the callers. */
  method SortArray(a: array<int>)
    modifies a
    ensures a[..] == Ascending(old(a[..]))
  {
    var s := Ascending(a[..]);
    AscendingMembers(a[..]);
    forall i | 0 <= i < a.Length { a[i] := s[i]; }
  }

  // ----- comparing two sorted lists

  /** What a merge of two sorted lists finds in `a` only. */
  ghost function OnlyIn(a: seq<int>, b: seq<int>): seq<int>
    decreases |a| + |b|
  {
    if a == [] then []
    else if b == [] then a
    else if a[0] < b[0] then [a[0]] + OnlyIn(a[1..], b)
    else if a[0] > b[0] then OnlyIn(a, b[1..])
    else OnlyIn(a[1..], b[1..])
  }

  lemma {:induction false} OnlyInMembers(a: seq<int>, b: seq<int>)
    ensures forall x :: x in OnlyIn(a, b) ==> x in a
    ensures |OnlyIn(a, b)| <= |a|
    decreases |a| + |b|
  {
    if a != [] && b != [] {
      if a[0] < b[0] {
        OnlyInMembers(a[1..], b);
      } else if a[0] > b[0] {
        OnlyInMembers(a, b[1..]);
      } else {
        OnlyInMembers(a[1..], b[1..]);
      }
    }
  }

  lemma BelowAll(a: seq<int>, t: seq<int>)
    requires a != [] && StrictlySorted(a) && StrictlySorted(t) && forall x :: x in t ==> x in a[1..]
    ensures StrictlySorted([a[0]] + t)
  {
    forall j | 0 <= j < |t| ensures a[0] < t[j] {
      assert t[j] in t;
      var k :| 0 <= k < |a[1..]| && a[1..][k] == t[j];
      assert a[k + 1] == t[j];
    }
  }

  lemma {:induction false} OnlyInSorted(a: seq<int>, b: seq<int>)
    requires StrictlySorted(a)
    ensures StrictlySorted(OnlyIn(a, b))
    decreases |a| + |b|
  {
    if a != [] && b != [] {
      if a[0] < b[0] {
        OnlyInSorted(a[1..], b);
        OnlyInMembers(a[1..], b);
        BelowAll(a, OnlyIn(a[1..], b));
      } else if a[0] > b[0] {
        OnlyInSorted(a, b[1..]);
      } else {
        OnlyInSorted(a[1..], b[1..]);
      }
    }
  }

  lemma {:induction false} OnlyInKeeps(a: seq<int>, b: seq<int>, x: int)
    requires StrictlySorted(a) && StrictlySorted(b)
    ensures x in OnlyIn(a, b) <==> x in a && x !in b
    decreases |a| + |b|
  {
    if a != [] && b != [] {
      assert x in a <==> x == a[0] || x in a[1..];
      assert x in b <==> x == b[0] || x in b[1..];
      if a[0] < b[0] {
        OnlyInKeeps(a[1..], b, x);
      } else if a[0] > b[0] {
        OnlyInKeeps(a, b[1..], x);
      } else {
        OnlyInKeeps(a[1..], b[1..], x);
      }
    }
  }

  /** On strictly sorted lists the merge finds exactly the two set differences, sorted, and the
      two results have no id in common. */
  lemma DiffIsSetDifference(a: seq<int>, b: seq<int>)
    requires StrictlySorted(a) && StrictlySorted(b)
    ensures StrictlySorted(OnlyIn(a, b)) && ToSet(OnlyIn(a, b)) == ToSet(a) - ToSet(b)
    ensures StrictlySorted(OnlyIn(b, a)) && ToSet(OnlyIn(b, a)) == ToSet(b) - ToSet(a)
    ensures ToSet(OnlyIn(a, b)) !! ToSet(OnlyIn(b, a))
    ensures (ToSet(a) - ToSet(OnlyIn(a, b))) + ToSet(OnlyIn(b, a)) == ToSet(b)
  {
    OnlyInSorted(a, b);
    OnlyInSorted(b, a);
    forall x ensures x in OnlyIn(a, b) <==> x in a && x !in b { OnlyInKeeps(a, b, x); }
    forall x ensures x in OnlyIn(b, a) <==> x in b && x !in a { OnlyInKeeps(b, a, x); }
  }

  lemma OnlyInStep(a: seq<int>, i: nat, b: seq<int>, j: nat)
    requires i < |a| && j < |b|
    ensures a[i] < b[j] ==> OnlyIn(a[i..], b[j..]) == [a[i]] + OnlyIn(a[i + 1..], b[j..])
    ensures a[i] > b[j] ==> OnlyIn(a[i..], b[j..]) == OnlyIn(a[i..], b[j + 1..])
    ensures a[i] == b[j] ==> OnlyIn(a[i..], b[j..]) == OnlyIn(a[i + 1..], b[j + 1..])
  {
    assert a[i..][1..] == a[i + 1..] && b[j..][1..] == b[j + 1..];
  }

  /** `found` is what the merge has found to be only in `a`, arrived at `i` in `a` and at `j` in `b`. */
  ghost predicate MergedTo(a: seq<int>, i: nat, b: seq<int>, j: nat, found: seq<int>) {
    i <= |a| && j <= |b| && OnlyIn(a, b) == found + OnlyIn(a[i..], b[j..])
  }

  lemma MergeBegins(a: seq<int>, b: seq<int>)
    ensures MergedTo(a, 0, b, 0, [])
  {
    assert a[0..] == a && b[0..] == b && [] + OnlyIn(a, b) == OnlyIn(a, b);
  }

  lemma MergeStep(a: seq<int>, i: nat, b: seq<int>, j: nat, found: seq<int>)
    requires i < |a| && j < |b| && MergedTo(a, i, b, j, found)
    ensures a[i] < b[j] ==> MergedTo(a, i + 1, b, j, found + [a[i]])
    ensures a[i] > b[j] ==> MergedTo(a, i, b, j + 1, found)
    ensures a[i] == b[j] ==> MergedTo(a, i + 1, b, j + 1, found)
  {
    OnlyInStep(a, i, b, j);
    var rest := OnlyIn(a[i + 1..], b[j..]);
    assert found + ([a[i]] + rest) == found + [a[i]] + rest;
  }

  lemma MergeEnds(a: seq<int>, i: nat, b: seq<int>, j: nat, found: seq<int>)
    requires MergedTo(a, i, b, j, found) && (i == |a| || j == |b|)
    ensures OnlyIn(a, b) == found + a[i..]
  {
  }

  /** The merge loops of diff_arrays. `only1` and `only2` are buffers of the sizes of the inputs,
      filled up to `n1` and `n2`; no write leaves them. */
  method DiffArrays(arr1: array<int>, arr2: array<int>)
    returns (only1: array<int>, n1: nat, only2: array<int>, n2: nat)
    ensures fresh(only1) && fresh(only2)
    ensures only1.Length == arr1.Length && only2.Length == arr2.Length
    ensures n1 <= only1.Length && n2 <= only2.Length
    ensures only1[..n1] == OnlyIn(arr1[..], arr2[..])
    ensures only2[..n2] == OnlyIn(arr2[..], arr1[..])
  {
    only1, only2 := new int[arr1.Length], new int[arr2.Length];
    n1, n2 := 0, 0;
    var i1, i2 := 0, 0;
    ghost var a, b, found1, found2 := arr1[..], arr2[..], only1[..0], only2[..0];
    MergeBegins(a, b);
    MergeBegins(b, a);
    while i1 < arr1.Length && i2 < arr2.Length
      invariant n1 <= i1 <= arr1.Length && n2 <= i2 <= arr2.Length
      invariant only1[..n1] == found1 && only2[..n2] == found2
      invariant MergedTo(a, i1, b, i2, found1) && MergedTo(b, i2, a, i1, found2)
      decreases arr1.Length - i1 + arr2.Length - i2
    {
      MergeStep(a, i1, b, i2, found1);
      MergeStep(b, i2, a, i1, found2);
      if arr1[i1] != arr2[i2] {
        if arr1[i1] > arr2[i2] {
          found2 := found2 + [arr2[i2]];
          only2[n2] := arr2[i2];
          n2, i2 := n2 + 1, i2 + 1;
        } else {
          found1 := found1 + [arr1[i1]];
          only1[n1] := arr1[i1];
          n1, i1 := n1 + 1, i1 + 1;
        }
      } else {
        i1, i2 := i1 + 1, i2 + 1;
      }
    }
    MergeEnds(a, i1, b, i2, found1);
    MergeEnds(b, i2, a, i1, found2);
    if i1 == arr1.Length {
      n2 := CopyRest(arr2, i2, only2, n2);
    } else {
      n1 := CopyRest(arr1, i1, only1, n1);
    }
  }

  /** Appends what is left of `arr` from `i` on to the first `n` entries of `only`. */
  method CopyRest(arr: array<int>, i: nat, only: array<int>, n: nat) returns (m: nat)
    requires arr != only && n <= i <= arr.Length == only.Length
    modifies only
    ensures m <= only.Length && only[..m] == old(only[..n]) + arr[i..]
  {
    m := n;
    var k := i;
    while k < arr.Length
      invariant m <= k <= arr.Length
      invariant i <= k && only[..m] == old(only[..n]) + arr[i..k]
    {
      only[m] := arr[k];
      assert only[..m + 1] == only[..m] + [arr[k]];
      m, k := m + 1, k + 1;
    }
  }
}
