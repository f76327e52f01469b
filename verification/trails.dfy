/** Walks along a relation on names. Whether they all end is decided by whether one of them comes back to a name. */
module Trails {
  import opened Common

  /** A walk from a start: every further name is one of those that follow the name before it. */
  ghost predicate Trail(next: string -> seq<string>, start: string, path: seq<string>) {
    && path != [] && path[0] == start
    && forall i :: 0 < i < |path| ==> path[i] in next(path[i - 1])
  }

  /** No walk from the start comes to a name twice. */
  ghost predicate NoneRecurs(next: string -> seq<string>, start: string) {
    forall path :: Trail(next, start, path) ==> Distinct(path)
  }

  /** No walk from the start makes more than n steps. */
  ghost predicate EndsWithin(next: string -> seq<string>, start: string, n: nat)
    decreases n
  {
    forall x :: x in next(start) ==> n > 0 && EndsWithin(next, x, n - 1)
  }

  /** The length of the longest walk, if there is one. */
  ghost function Steps(next: string -> seq<string>, start: string): nat {
    if exists n :: EndsWithin(next, start, n) then
      var n: nat :| EndsWithin(next, start, n);
      Least(next, start, n)
    else 0
  }

  ghost function Least(next: string -> seq<string>, start: string, n: nat): (r: nat)
    requires EndsWithin(next, start, n)
    ensures r <= n && EndsWithin(next, start, r) && (r > 0 ==> !EndsWithin(next, start, r - 1))
  {
    if n > 0 && EndsWithin(next, start, n - 1) then Least(next, start, n - 1) else n
  }

  lemma {:induction false} EndsLater(next: string -> seq<string>, start: string, n: nat, k: nat)
    requires EndsWithin(next, start, n) && n <= k
    ensures EndsWithin(next, start, k)
    decreases k
  {
    forall x | x in next(start) ensures k > 0 && EndsWithin(next, x, k - 1) {
      EndsLater(next, x, n - 1, k - 1);
    }
  }

  /** One step on, fewer are left. */
  lemma StepsDecrease(next: string -> seq<string>, start: string, n: nat, x: string)
    requires EndsWithin(next, start, n) && x in next(start)
    ensures Steps(next, x) < Steps(next, start)
  {
    var r := Steps(next, start);
    var k :| EndsWithin(next, start, k) && r == Least(next, start, k);
    assert EndsWithin(next, x, r - 1);
    var s := Steps(next, x);
    if s > r - 1 {
      EndsLater(next, x, r - 1, s - 1);
    }
  }

  lemma {:induction false} Along(next: string -> seq<string>, path: seq<string>, i: nat, j: nat, n: nat)
    requires path != [] && Trail(next, path[0], path) && i <= j < |path| && EndsWithin(next, path[i], n)
    ensures j - i <= n && EndsWithin(next, path[j], n - (j - i))
    decreases j - i
  {
    if i < j {
      assert path[i + 1] in next(path[i]);
      Along(next, path, i + 1, j, n - 1);
    }
  }

  /** A walk that ends does not come back: going round and round would use up any number of steps. */
  lemma {:induction false} NoReturn(next: string -> seq<string>, path: seq<string>, i: nat, j: nat, n: nat)
    requires path != [] && Trail(next, path[0], path) && i < j < |path| && EndsWithin(next, path[i], n)
    ensures path[i] != path[j]
    decreases n
  {
    Along(next, path, i, j, n);
    if path[i] == path[j] {
      NoReturn(next, path, i, j, n - (j - i));
    }
  }

  lemma TrailSnoc(next: string -> seq<string>, start: string, path: seq<string>, x: string)
    requires Trail(next, start, path) && x in next(path[|path| - 1])
    ensures Trail(next, start, path + [x])
  {
  }

  lemma TrailCons(next: string -> seq<string>, start: string, x: string, path: seq<string>)
    requires x in next(start) && Trail(next, x, path)
    ensures Trail(next, start, [start] + path)
  {
  }

  lemma {:induction false} DistinctBound(path: seq<string>, names: set<string>)
    requires Distinct(path) && forall i :: 0 <= i < |path| ==> path[i] in names
    ensures |path| <= |names|
  {
    if path != [] {
      DistinctBound(path[..|path| - 1], names - {path[|path| - 1]});
    }
  }

  /** Where only the names of a finite set are followed by others, a walk without repetition is short. */
  lemma {:induction false} Remaining(next: string -> seq<string>, busy: set<string>, start: string, path: seq<string>)
    requires forall x :: next(x) != [] ==> x in busy
    requires NoneRecurs(next, start) && Trail(next, start, path)
    ensures |path| - 1 <= |busy| && EndsWithin(next, path[|path| - 1], |busy| + 1 - |path|)
    decreases |busy| + 1 - |path|
  {
    hide NoneRecurs, Distinct;
    var last := path[|path| - 1];
    assert Distinct(path) by {
      NoneRecursMeans(next, start, path);
    }
    BusyBound(next, busy, path);
    forall x | x in next(last) ensures |busy| + 1 - |path| > 0 && EndsWithin(next, x, |busy| - |path|) {
      TrailSnoc(next, start, path, x);
      NoneRecursMeans(next, start, path + [x]);
      BusyBound(next, busy, path + [x]);
      Remaining(next, busy, start, path + [x]);
    }
  }

  lemma NoneRecursMeans(next: string -> seq<string>, start: string, path: seq<string>)
    requires NoneRecurs(next, start) && Trail(next, start, path)
    ensures Distinct(path)
  {
  }

  lemma BusyBound(next: string -> seq<string>, busy: set<string>, path: seq<string>)
    requires forall x :: next(x) != [] ==> x in busy
    requires path != [] && Trail(next, path[0], path) && Distinct(path)
    ensures |path| - 1 <= |busy|
  {
    var init := path[..|path| - 1];
    forall i | 0 <= i < |init| ensures init[i] in busy {
      assert path[i + 1] in next(path[i]);
    }
    DistinctBound(init, busy);
  }

  /** All walks from a start end, and within as many steps as there are names to step from, unless one comes back. */
  lemma EndsIff(next: string -> seq<string>, busy: set<string>, start: string)
    requires forall x :: next(x) != [] ==> x in busy
    ensures (exists n :: EndsWithin(next, start, n)) <==> NoneRecurs(next, start)
    ensures NoneRecurs(next, start) ==> EndsWithin(next, start, |busy|)
  {
    if NoneRecurs(next, start) {
      assert Trail(next, start, [start]);
      Remaining(next, busy, start, [start]);
    }
    if n: nat :| EndsWithin(next, start, n) {
      forall path | Trail(next, start, path) ensures Distinct(path) {
        forall i, j | 0 <= i < j < |path| ensures path[i] != path[j] {
          Along(next, path, 0, i, n);
          NoReturn(next, path, i, j, n - i);
        }
      }
    }
  }

  /** What follows a start without recurrence has none either, and fewer steps left. */
  lemma StepOn(next: string -> seq<string>, busy: set<string>, start: string, x: string)
    requires forall y :: next(y) != [] ==> y in busy
    requires NoneRecurs(next, start) && x in next(start)
    ensures NoneRecurs(next, x) && Steps(next, x) < Steps(next, start)
  {
    EndsIff(next, busy, start);
    StepsDecrease(next, start, |busy|, x);
    forall path | Trail(next, x, path) ensures Distinct(path) {
      TrailCons(next, start, x, path);
      assert path == ([start] + path)[1..];
    }
  }

  lemma SameTrails(next: string -> seq<string>, other: string -> seq<string>, start: string)
    requires forall x :: next(x) == other(x)
    ensures NoneRecurs(next, start) <==> NoneRecurs(other, start)
  {
    assert forall path :: Trail(next, start, path) <==> Trail(other, start, path);
  }
}
