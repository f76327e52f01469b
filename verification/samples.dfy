/**
 The contents of a transform buffer as a value: what inserting and looking up mean, and what a whole
 run of inserts leaves behind. Stamps and durations are nanoseconds.
 */
module Samples {
  import opened Arithmetic
  import opened Common

  datatype Sample<T> = Sample(stamp: int, value: T)

  ghost predicate Sorted<T>(s: seq<Sample<T>>) {
    forall i, j :: 0 <= i < j < |s| ==> s[i].stamp < s[j].stamp
  }

  /** A buffer that forgets nothing: the value written last at stamp k. */
  ghost function LastWrite<T>(writes: seq<Sample<T>>, k: int): Option<T> {
    if writes == [] then None
    else if writes[|writes| - 1].stamp == k then Some(writes[|writes| - 1].value)
    else LastWrite(writes[..|writes| - 1], k)
  }

  /** k is at most d older than everything written; any k is, when d is not positive. */
  ghost predicate InWindow<T>(writes: seq<Sample<T>>, d: int, k: int) {
    d > 0 ==> forall i :: 0 <= i < |writes| ==> writes[i].stamp - d <= k
  }

  /** s lists, in strictly increasing order, the last write to each stamp in the window, and nothing else. */
  ghost predicate Represents<T(!new)>(s: seq<Sample<T>>, writes: seq<Sample<T>>, d: int) {
    && Sorted(s)
    && forall k :: LastWrite(s, k) == if InWindow(writes, d, k) then LastWrite(writes, k) else None
  }

  // ---------- Inserting, by a linear scan

  function Put<T>(s: seq<Sample<T>>, stamp: int, value: T): (r: seq<Sample<T>>)
    ensures r != []
  {
    if s == [] || stamp < s[0].stamp then [Sample(stamp, value)] + s
    else if s[0].stamp == stamp then [Sample(stamp, value)] + s[1..]
    else [s[0]] + Put(s[1..], stamp, value)
  }

  function Prune<T>(s: seq<Sample<T>>, oldest: int): seq<Sample<T>> {
    if s != [] && s[0].stamp < oldest then Prune(s[1..], oldest) else s
  }

  function Insert<T>(s: seq<Sample<T>>, stamp: int, value: T, d: int): seq<Sample<T>> {
    var r := Put(s, stamp, value);
    if d <= 0 then r else Prune(r, r[|r| - 1].stamp - d)
  }

  /** The buffer after a run of inserts. */
  function Replay<T>(writes: seq<Sample<T>>, d: int): seq<Sample<T>> {
    if writes == [] then []
    else
      var last := writes[|writes| - 1];
      Insert(Replay(writes[..|writes| - 1], d), last.stamp, last.value, d)
  }

  // ---------- Looking up, by a linear scan

  /** How far time is on the way from a to b. */
  function Ratio<T>(a: Sample<T>, b: Sample<T>, time: int): real
    requires a.stamp != b.stamp
  {
    (time - a.stamp) as real / (b.stamp - a.stamp) as real
  }

  function Between<T>(a: Sample<T>, b: Sample<T>, time: int, blend: (T, T, real) -> T): T
    requires a.stamp != b.stamp
  {
    blend(a.value, b.value, Ratio(a, b, time))
  }

  ghost function Scan<T>(s: seq<Sample<T>>, time: int, blend: (T, T, real) -> T): T
    requires Sorted(s) && s != []
  {
    if |s| == 1 || time <= s[0].stamp then s[0].value
    else if time < s[1].stamp then Between(s[0], s[1], time, blend)
    else Scan(s[1..], time, blend)
  }

  /** Time 0 asks for the newest value. */
  ghost function Lookup<T>(s: seq<Sample<T>>, time: int, blend: (T, T, real) -> T): Option<T>
    requires Sorted(s)
  {
    if s == [] then None
    else if time == 0 then Some(s[|s| - 1].value)
    else Some(Scan(s, time, blend))
  }

  // ---------- What a run of inserts leaves behind

  ghost predicate DistinctStamps<T>(s: seq<Sample<T>>) {
    forall i, j :: 0 <= i < j < |s| ==> s[i].stamp != s[j].stamp
  }

  lemma {:induction false} WriteExists<T>(s: seq<Sample<T>>, k: int) returns (i: nat)
    ensures LastWrite(s, k).Some? ==> i < |s| && s[i].stamp == k && LastWrite(s, k).value == s[i].value
    ensures LastWrite(s, k).None? ==> forall j :: 0 <= j < |s| ==> s[j].stamp != k
  {
    i := 0;
    if s != [] {
      if s[|s| - 1].stamp == k {
        i := |s| - 1;
      } else {
        i := WriteExists(s[..|s| - 1], k);
        forall j | 0 <= j < |s| && LastWrite(s, k).None? ensures s[j].stamp != k {
          assert j < |s| - 1 ==> s[..|s| - 1][j] == s[j];
        }
      }
    }
  }

  lemma WriteAt<T>(s: seq<Sample<T>>, i: nat)
    requires DistinctStamps(s) && i < |s|
    ensures LastWrite(s, s[i].stamp) == Some(s[i].value)
  {
    var j := WriteExists(s, s[i].stamp);
  }

  lemma {:induction false} LastWriteCons<T>(x: Sample<T>, s: seq<Sample<T>>, k: int)
    ensures LastWrite([x] + s, k) ==
            if LastWrite(s, k).Some? then LastWrite(s, k) else if x.stamp == k then Some(x.value) else None
  {
    if s == [] {
      assert ([x] + s)[..0] == [];
    } else {
      assert ([x] + s)[..|s|] == [x] + s[..|s| - 1];
      LastWriteCons(x, s[..|s| - 1], k);
    }
  }

  lemma SortedTail<T>(s: seq<Sample<T>>, k: int)
    requires Sorted(s) && s != []
    ensures LastWrite(s, k) == if s[0].stamp == k then Some(s[0].value) else LastWrite(s[1..], k)
    ensures LastWrite(s[1..], k).Some? ==> s[0].stamp < k
  {
    assert s == [s[0]] + s[1..];
    LastWriteCons(s[0], s[1..], k);
    var i := WriteExists(s[1..], k);
  }

  /** A sorted buffer is determined by what it holds at each stamp. */
  lemma {:induction false} SortedUnique<T(!new)>(a: seq<Sample<T>>, b: seq<Sample<T>>)
    requires Sorted(a) && Sorted(b)
    requires forall k :: LastWrite(a, k) == LastWrite(b, k)
    ensures a == b
  {
    if a == [] {
      if b != [] { WriteAt(b, 0); }
    } else if b == [] {
      WriteAt(a, 0);
    } else {
      WriteAt(a, 0);
      WriteAt(b, 0);
      SortedTail(a, b[0].stamp);
      SortedTail(b, a[0].stamp);
      forall k ensures LastWrite(a[1..], k) == LastWrite(b[1..], k) {
        SortedTail(a, k);
        SortedTail(b, k);
      }
      SortedUnique(a[1..], b[1..]);
    }
  }

  lemma {:induction false} PutSorted<T>(s: seq<Sample<T>>, stamp: int, value: T)
    requires Sorted(s)
    ensures Sorted(Put(s, stamp, value))
    ensures forall x :: x in Put(s, stamp, value) ==> x in s || x == Sample(stamp, value)
  {
    if s != [] && s[0].stamp < stamp {
      var tail := Put(s[1..], stamp, value);
      PutSorted(s[1..], stamp, value);
      forall i | 0 <= i < |tail| ensures s[0].stamp < tail[i].stamp {
        assert tail[i] in tail;
      }
    }
  }

  lemma {:induction false} PutMeaning<T>(s: seq<Sample<T>>, stamp: int, value: T, k: int)
    requires Sorted(s)
    ensures LastWrite(Put(s, stamp, value), k) == if k == stamp then Some(value) else LastWrite(s, k)
  {
    if s == [] {
      LastWriteCons(Sample(stamp, value), s, k);
    } else {
      SortedTail(s, k);
      SortedTail(s, stamp);
      if stamp < s[0].stamp {
        LastWriteCons(Sample(stamp, value), s, k);
      } else if s[0].stamp == stamp {
        LastWriteCons(Sample(stamp, value), s[1..], k);
      } else {
        PutMeaning(s[1..], stamp, value, k);
        LastWriteCons(s[0], Put(s[1..], stamp, value), k);
      }
    }
  }

  lemma {:induction false} PruneMeaning<T>(s: seq<Sample<T>>, oldest: int, k: int)
    requires Sorted(s)
    ensures Sorted(Prune(s, oldest))
    ensures LastWrite(Prune(s, oldest), k) == if oldest <= k then LastWrite(s, k) else None
  {
    var i := WriteExists(s, k);
    if s != [] && s[0].stamp < oldest {
      SortedTail(s, k);
      PruneMeaning(s[1..], oldest, k);
    }
  }

  lemma {:induction false} Newest<T>(writes: seq<Sample<T>>) returns (n: nat)
    requires writes != []
    ensures n < |writes| && forall i :: 0 <= i < |writes| ==> writes[i].stamp <= writes[n].stamp
  {
    n := |writes| - 1;
    if |writes| > 1 {
      var m := Newest(writes[..|writes| - 1]);
      n := if writes[m].stamp > writes[n].stamp then m else n;
    }
  }

  /** Pruning never removes the newest sample, so the buffer's last stamp is the newest one written. */
  lemma NewestKept<T(!new)>(s: seq<Sample<T>>, writes: seq<Sample<T>>, d: int)
    requires Represents(s, writes, d) && writes != []
    ensures s != [] && exists i :: 0 <= i < |writes| && writes[i].stamp == s[|s| - 1].stamp
    ensures forall i :: 0 <= i < |writes| ==> writes[i].stamp <= s[|s| - 1].stamp
  {
    var n := Newest(writes);
    var newest := writes[n].stamp;
    var w := WriteExists(writes, newest);
    var i := WriteExists(s, newest);
    assert LastWrite(s, newest).Some?;
    WriteAt(s, |s| - 1);
    var j := WriteExists(writes, s[|s| - 1].stamp);
  }

  /** One insert is one more write, cut back to the window. */
  lemma InsertMeaning<T(!new)>(s: seq<Sample<T>>, writes: seq<Sample<T>>, x: Sample<T>, d: int)
    requires Represents(s, writes, d)
    ensures Represents(Insert(s, x.stamp, x.value, d), writes + [x], d)
  {
    hide Put, Prune, LastWrite, InWindow, Sorted;
    var p, all, r := Put(s, x.stamp, x.value), writes + [x], Insert(s, x.stamp, x.value, d);
    PutSorted(s, x.stamp, x.value);
    PruneMeaning(p, p[|p| - 1].stamp - d, 0);
    forall k ensures LastWrite(r, k) == if InWindow(all, d, k) then LastWrite(all, k) else None {
      InsertAt(s, writes, x, d, k);
    }
  }

  lemma LastWriteSnoc<T>(writes: seq<Sample<T>>, x: Sample<T>, k: int)
    ensures LastWrite(writes + [x], k) == if x.stamp == k then Some(x.value) else LastWrite(writes, k)
  {
    assert (writes + [x])[..|writes|] == writes;
  }

  lemma WindowSnoc<T>(writes: seq<Sample<T>>, x: Sample<T>, d: int, k: int)
    requires InWindow(writes + [x], d, k)
    ensures InWindow(writes, d, k)
  {
    assert forall i :: 0 <= i < |writes| ==> (writes + [x])[i] == writes[i];
  }

  lemma InsertAt<T(!new)>(s: seq<Sample<T>>, writes: seq<Sample<T>>, x: Sample<T>, d: int, k: int)
    requires Represents(s, writes, d)
    ensures var r, all := Insert(s, x.stamp, x.value, d), writes + [x];
            LastWrite(r, k) == if InWindow(all, d, k) then LastWrite(all, k) else None
  {
    var p, all := Put(s, x.stamp, x.value), writes + [x];
    assert d <= 0 ==> InWindow(writes, d, k) && InWindow(all, d, k);
    hide Put, Prune, LastWrite, InWindow, Sorted;
    LastWriteSnoc(writes, x, k);
    PutMeaning(s, x.stamp, x.value, k);
    if d > 0 {
      PutSorted(s, x.stamp, x.value);
      PruneMeaning(p, p[|p| - 1].stamp - d, k);
      WindowEnd(s, writes, x, d, k);
      if InWindow(all, d, k) {
        WindowSnoc(writes, x, d, k);
      }
    }
  }

  /** The newest stamp after the insert decides membership in the new window. */
  lemma WindowEnd<T(!new)>(s: seq<Sample<T>>, writes: seq<Sample<T>>, x: Sample<T>, d: int, k: int)
    requires Represents(s, writes, d) && d > 0
    ensures var p := Put(s, x.stamp, x.value);
            InWindow(writes + [x], d, k) <==> p[|p| - 1].stamp - d <= k
  {
    hide Put, LastWrite;
    var p, all := Put(s, x.stamp, x.value), writes + [x];
    var newest := p[|p| - 1].stamp;
    NewestWritten(s, writes, x, d);
    assert all[|writes|] == x;
    if InWindow(all, d, k) {
      var w :| 0 <= w < |all| && all[w].stamp == newest;
    }
  }

  /** The last stamp of the buffer after the put is the newest one written. */
  lemma NewestWritten<T(!new)>(s: seq<Sample<T>>, writes: seq<Sample<T>>, x: Sample<T>, d: int)
    requires Represents(s, writes, d) && d > 0
    ensures var p, all := Put(s, x.stamp, x.value), writes + [x];
            && (exists w :: 0 <= w < |all| && all[w].stamp == p[|p| - 1].stamp)
            && (forall w :: 0 <= w < |all| ==> all[w].stamp <= p[|p| - 1].stamp)
  {
    hide Put, LastWrite;
    var p, all := Put(s, x.stamp, x.value), writes + [x];
    var newest := p[|p| - 1].stamp;
    PutSorted(s, x.stamp, x.value);
    PutMeaning(s, x.stamp, x.value, x.stamp);
    var i := WriteExists(p, x.stamp);
    assert all[|writes|] == x && p[|p| - 1] in p;
    if s == [] {
      if writes != [] {
        NewestKept(s, writes, d);
      }
    } else {
      var last := s[|s| - 1].stamp;
      WriteAt(s, |s| - 1);
      var w := WriteExists(writes, last);
      assert all[w].stamp == last;
      NewestKept(s, writes, d);
      PutMeaning(s, x.stamp, x.value, last);
      var j := WriteExists(p, last);
      assert newest != x.stamp ==> p[|p| - 1] in s;
    }
  }

  /** The buffer is the sorted listing of the last write to each stamp in the window. */
  lemma {:induction false} ReplayIsWindow<T(!new)>(writes: seq<Sample<T>>, d: int)
    ensures Represents(Replay(writes, d), writes, d)
  {
    if writes != [] {
      var before, last := writes[..|writes| - 1], writes[|writes| - 1];
      ReplayIsWindow(before, d);
      InsertMeaning(Replay(before, d), before, last, d);
      assert writes == before + [last];
    }
  }

  /** With the newest stamp ever written named, the window is a closed interval that ends there. */
  lemma ReplayInterval<T(!new)>(writes: seq<Sample<T>>, d: int, k: int)
    requires writes != [] && d > 0
    ensures var r := Replay(writes, d);
            && r != []
            && (exists i :: 0 <= i < |writes| && writes[i].stamp == r[|r| - 1].stamp)
            && (forall i :: 0 <= i < |writes| ==> writes[i].stamp <= r[|r| - 1].stamp)
            && LastWrite(r, k) == if r[|r| - 1].stamp - d <= k <= r[|r| - 1].stamp then LastWrite(writes, k) else None
  {
    var r := Replay(writes, d);
    ReplayIsWindow(writes, d);
    NewestKept(r, writes, d);
    var i := WriteExists(writes, k);
  }

  /** Two runs that make the same writes, each stamp once, end in the same buffer whatever their order. */
  lemma OrderIrrelevant<T(!new)>(a: seq<Sample<T>>, b: seq<Sample<T>>, d: int)
    requires DistinctStamps(a) && DistinctStamps(b)
    requires forall x :: x in a <==> x in b
    ensures Replay(a, d) == Replay(b, d)
  {
    ReplayIsWindow(a, d);
    ReplayIsWindow(b, d);
    forall k ensures LastWrite(Replay(a, d), k) == LastWrite(Replay(b, d), k) {
      SameWrites(a, b, d, k);
      SameWrites(b, a, d, k);
    }
    SortedUnique(Replay(a, d), Replay(b, d));
  }

  lemma SameWrites<T(!new)>(a: seq<Sample<T>>, b: seq<Sample<T>>, d: int, k: int)
    requires DistinctStamps(a) && DistinctStamps(b)
    requires forall x :: x in a <==> x in b
    ensures InWindow(b, d, k) ==> InWindow(a, d, k)
    ensures LastWrite(a, k).Some? ==> LastWrite(b, k) == LastWrite(a, k)
  {
    forall i | 0 <= i < |a| && d > 0 && InWindow(b, d, k) ensures a[i].stamp - d <= k {
      assert a[i] in b;
    }
    var i := WriteExists(a, k);
    if LastWrite(a, k).Some? {
      assert a[i] in b;
      var j :| 0 <= j < |b| && b[j] == a[i];
      WriteAt(b, j);
    }
  }

  // ---------- What a lookup finds

  /** Outside the stored stamps the scan clamps; on one it is exact; between two it blends those two. */
  lemma {:induction false} ScanMeaning<T>(s: seq<Sample<T>>, time: int, blend: (T, T, real) -> T, i: nat)
    requires Sorted(s) && i < |s|
    ensures time <= s[0].stamp ==> Scan(s, time, blend) == s[0].value
    ensures time >= s[|s| - 1].stamp ==> Scan(s, time, blend) == s[|s| - 1].value
    ensures time == s[i].stamp ==> Scan(s, time, blend) == s[i].value
    ensures i + 1 < |s| && s[i].stamp < time < s[i + 1].stamp ==>
              && Scan(s, time, blend) == Between(s[i], s[i + 1], time, blend)
              && 0.0 < Ratio(s[i], s[i + 1], time) < 1.0
  {
    if i + 1 < |s| && s[i].stamp < time < s[i + 1].stamp {
      RatioInside(s[i], s[i + 1], time);
    }
    if |s| > 1 && s[1].stamp <= time {
      ScanMeaning(s[1..], time, blend, if i == 0 then 0 else i - 1);
    }
  }

  /** One of the cases of ScanMeaning always applies, and only one pair can bracket a time. */
  lemma {:induction false} BracketExists<T>(s: seq<Sample<T>>, time: int) returns (i: nat)
    requires Sorted(s) && s != []
    requires s[0].stamp < time < s[|s| - 1].stamp
    ensures i + 1 < |s| && s[i].stamp <= time < s[i + 1].stamp
    ensures forall j :: 0 <= j && j + 1 < |s| && s[j].stamp <= time < s[j + 1].stamp ==> j == i
  {
    if time < s[1].stamp {
      i := 0;
    } else if time == s[1].stamp {
      i := 1;
    } else {
      var k := BracketExists(s[1..], time);
      i := k + 1;
    }
  }

  lemma RatioInside<T>(a: Sample<T>, b: Sample<T>, time: int)
    requires a.stamp < time < b.stamp
    ensures 0.0 < Ratio(a, b, time) < 1.0
  {
    ProperFraction((time - a.stamp) as real, (b.stamp - a.stamp) as real);
  }

  /** A coordinate of a value that blending moves linearly, as each coordinate of a translation is. */
  ghost predicate Linear<T(!new)>(axis: T -> real, blend: (T, T, real) -> T) {
    forall a, b, ratio :: axis(blend(a, b, ratio)) == PartWay(axis(a), axis(b), ratio)
  }

  lemma BetweenWithinBounds<T(!new)>(a: Sample<T>, b: Sample<T>, time: int, blend: (T, T, real) -> T, axis: T -> real)
    requires a.stamp < time < b.stamp && Linear(axis, blend)
    ensures var p, q, r := axis(a.value), axis(b.value), axis(Between(a, b, time, blend));
            p <= r <= q || q <= r <= p
  {
    RatioInside(a, b, time);
    hide Ratio, PartWay;
    PartWayInside(axis(a.value), axis(b.value), Ratio(a, b, time));
  }

  lemma RatioTimes<T>(a: Sample<T>, b: Sample<T>, time: int)
    requires a.stamp < b.stamp
    ensures Ratio(a, b, time) * (b.stamp as real - a.stamp as real) == time as real - a.stamp as real
  {
    var p, w := (time - a.stamp) as real, (b.stamp - a.stamp) as real;
    DividedBack(p, w);
  }

  /** The blend of two samples is by the part of the gap between their stamps which has gone by. */
  lemma BetweenBlends<T>(a: Sample<T>, b: Sample<T>, time: int, blend: (T, T, real) -> T) returns (ratio: real)
    requires a.stamp < b.stamp
    ensures Between(a, b, time, blend) == blend(a.value, b.value, ratio)
    ensures IsPart(ratio, a.stamp, b.stamp, time)
  {
    hide Ratio;
    ratio := Ratio(a, b, time);
    RatioTimes(a, b, time);
  }

  /** Between two neighbours a lookup blends them by that part. */
  lemma ScanBlends<T>(s: seq<Sample<T>>, time: int, blend: (T, T, real) -> T, i: nat) returns (ratio: real)
    requires Sorted(s) && i + 1 < |s| && s[i].stamp < time < s[i + 1].stamp
    ensures Scan(s, time, blend) == blend(s[i].value, s[i + 1].value, ratio)
    ensures IsPart(ratio, s[i].stamp, s[i + 1].stamp, time)
  {
    hide Scan, Ratio, Between, IsPart;
    ScanMeaning(s, time, blend, i);
    ratio := BetweenBlends(s[i], s[i + 1], time, blend);
  }

  lemma BetweenStraight<T(!new)>(a: Sample<T>, b: Sample<T>, time: int, blend: (T, T, real) -> T, axis: T -> real,
                                 c: real, e: real)
    requires a.stamp < b.stamp && Linear(axis, blend)
    requires axis(a.value) == c * a.stamp as real + e && axis(b.value) == c * b.stamp as real + e
    ensures axis(Between(a, b, time, blend)) == c * time as real + e
  {
    hide Ratio, PartWay;
    var ratio := Ratio(a, b, time);
    RatioTimes(a, b, time);
    assert axis(Between(a, b, time, blend)) == PartWay(axis(a.value), axis(b.value), ratio);
    PartWayStraight(c, e, a.stamp as real, b.stamp as real, axis(a.value), axis(b.value), ratio, time as real);
  }

  lemma BetweenProportion<T(!new)>(a: Sample<T>, b: Sample<T>, time: int, blend: (T, T, real) -> T, axis: T -> real)
    requires a.stamp < b.stamp && Linear(axis, blend)
    ensures InProportion(axis(a.value), axis(b.value), axis(Between(a, b, time, blend)), a.stamp, b.stamp, time)
  {
    hide Ratio, PartWay, InProportion;
    var ratio := Ratio(a, b, time);
    RatioTimes(a, b, time);
    assert axis(Between(a, b, time, blend)) == PartWay(axis(a.value), axis(b.value), ratio);
    PartWayProportion(axis(a.value), axis(b.value), ratio, a.stamp, b.stamp, time);
  }

  /** A coordinate on a straight line over the stored stamps is looked up on that line. */
  lemma {:induction false} ScanStraight<T(!new)>(s: seq<Sample<T>>, time: int, blend: (T, T, real) -> T,
                                                 axis: T -> real, c: real, e: real)
    requires Sorted(s) && s != [] && Linear(axis, blend)
    requires forall i :: 0 <= i < |s| ==> axis(s[i].value) == c * s[i].stamp as real + e
    requires s[0].stamp <= time <= s[|s| - 1].stamp
    ensures axis(Scan(s, time, blend)) == c * time as real + e
  {
    hide Between, Linear;
    if |s| == 1 || time <= s[0].stamp {
      SameTimes(c, time as real, s[0].stamp as real);
    } else if time < s[1].stamp {
      BetweenStraight(s[0], s[1], time, blend, axis, c, e);
    } else {
      ScanStraight(s[1..], time, blend, axis, c, e);
    }
  }

  /** A looked-up coordinate never leaves the range of the stored ones. */
  lemma {:induction false} ScanWithinBounds<T(!new)>(s: seq<Sample<T>>, time: int, blend: (T, T, real) -> T,
                                                     axis: T -> real, lo: real, hi: real)
    requires Sorted(s) && s != [] && Linear(axis, blend)
    requires forall i :: 0 <= i < |s| ==> lo <= axis(s[i].value) <= hi
    ensures lo <= axis(Scan(s, time, blend)) <= hi
  {
    hide Between, Linear;
    if |s| == 1 || time <= s[0].stamp {
    } else if time < s[1].stamp {
      BetweenWithinBounds(s[0], s[1], time, blend, axis);
    } else {
      ScanWithinBounds(s[1..], time, blend, axis, lo, hi);
    }
  }

  lemma BetweenMonotone<T(!new)>(a: Sample<T>, b: Sample<T>, t: int, u: int, blend: (T, T, real) -> T, axis: T -> real)
    requires a.stamp < b.stamp && t <= u && Linear(axis, blend) && axis(a.value) <= axis(b.value)
    ensures axis(Between(a, b, t, blend)) <= axis(Between(a, b, u, blend))
  {
    hide Ratio, PartWay;
    RatioMonotone(a, b, t, u);
    PartWayGrows(axis(a.value), axis(b.value), Ratio(a, b, t), Ratio(a, b, u));
  }

  lemma RatioMonotone<T>(a: Sample<T>, b: Sample<T>, t: int, u: int)
    requires a.stamp < b.stamp && t <= u
    ensures Ratio(a, b, t) <= Ratio(a, b, u)
  {
    var p, q, w := (t - a.stamp) as real, (u - a.stamp) as real, (b.stamp - a.stamp) as real;
    QuotientGrows(p, q, w);
  }

  /** Where the stored coordinates increase with the stamps, looked-up ones increase with the time. */
  lemma {:induction false} ScanMonotone<T(!new)>(s: seq<Sample<T>>, t: int, u: int, blend: (T, T, real) -> T,
                                                 axis: T -> real)
    requires Sorted(s) && s != [] && Linear(axis, blend)
    requires forall i, j :: 0 <= i < j < |s| ==> axis(s[i].value) <= axis(s[j].value)
    requires t <= u
    ensures axis(Scan(s, t, blend)) <= axis(Scan(s, u, blend))
  {
    hide Between, Linear;
    var last := axis(s[|s| - 1].value);
    if |s| == 1 || t <= s[0].stamp {
      ScanWithinBounds(s, u, blend, axis, axis(s[0].value), last);
    } else if s[1].stamp <= t {
      ScanMonotone(s[1..], t, u, blend, axis);
    } else if u < s[1].stamp {
      BetweenMonotone(s[0], s[1], t, u, blend, axis);
    } else {
      BetweenWithinBounds(s[0], s[1], t, blend, axis);
      ScanWithinBounds(s[1..], u, blend, axis, axis(s[1].value), last);
    }
  }
}
