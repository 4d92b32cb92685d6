/** Deleting a set of marked indices from a list, the way the game's clean-up
    pass does it: from the highest index down, once per distinct index. */
module Removal {

  /** The elements of s at indices k.. that are not marked, in their original order. */
  function KeepFrom<T>(s: seq<T>, marked: set<int>, k: nat): seq<T>
    requires k <= |s|
    decreases |s| - k
  {
    if k == |s| then []
    else (if k in marked then [] else [s[k]]) + KeepFrom(s, marked, k + 1)
  }

  /** The unmarked indices in [k, n), ascending: an independent description of
      which elements survive. */
  function Unmarked(n: nat, marked: set<int>, k: nat): seq<nat>
    requires k <= n
    decreases n - k
  {
    if k == n then []
    else (if k in marked then [] else [k]) + Unmarked(n, marked, k + 1)
  }

  /** Unmarked(n, marked, k) lists exactly the unmarked indices in [k, n), each
      once and in strictly increasing order. */
  lemma {:induction false} UnmarkedExact(n: nat, marked: set<int>, k: nat)
    requires k <= n
    ensures var u := Unmarked(n, marked, k);
      (forall j :: j in u <==> k <= j < n && j !in marked) &&
      (forall a, b :: 0 <= a < b < |u| ==> u[a] < u[b])
    decreases n - k
  {
    if k < n {
      UnmarkedExact(n, marked, k + 1);
      var rest := Unmarked(n, marked, k + 1);
      if k !in marked {
        var u := Unmarked(n, marked, k);
        assert u == [k] + rest;
        forall a, b | 0 <= a < b < |u| ensures u[a] < u[b] {
          assert u[b] == rest[b - 1] && rest[b - 1] in rest;
        }
      }
    }
  }

  /** The survivors of the clean-up are the original elements at the unmarked
      indices, in order: the marked ones are deleted, each exactly once, and
      nothing else is touched. */
  lemma {:induction false} KeepFromSelects<T>(s: seq<T>, marked: set<int>, k: nat)
    requires k <= |s|
    ensures var u := Unmarked(|s|, marked, k);
      |KeepFrom(s, marked, k)| == |u| &&
      forall t :: 0 <= t < |u| ==> u[t] < |s| && KeepFrom(s, marked, k)[t] == s[u[t]]
    decreases |s| - k
  {
    if k < |s| {
      KeepFromSelects(s, marked, k + 1);
      UnmarkedExact(|s|, marked, k + 1);
    }
  }

  /** With nothing marked in range, the clean-up leaves the list as it was. */
  lemma {:induction false} KeepFromNoneMarked<T>(s: seq<T>, marked: set<int>, k: nat)
    requires k <= |s|
    requires forall j :: k <= j < |s| ==> j !in marked
    ensures KeepFrom(s, marked, k) == s[k..]
    decreases |s| - k
  {
    if k < |s| {
      KeepFromNoneMarked(s, marked, k + 1);
    }
  }

  /** Every survivor satisfies whatever all elements satisfy. */
  lemma {:induction false} KeepFromSubset<T>(s: seq<T>, marked: set<int>, k: nat)
    requires k <= |s|
    ensures forall x :: x in KeepFrom(s, marked, k) ==> x in s[k..]
    decreases |s| - k
  {
    if k < |s| {
      KeepFromSubset(s, marked, k + 1);
    }
  }
}
