/**
 A graph in operation: the publisher sends the same frames again and again, each time with new transforms.
 The graph goes on accepting them. A query for the latest transform follows the last message, and a query for
 an earlier time the messages around it.
 */
module Republishing {
  import opened Arithmetic
  import opened Common
  import opened TransformAlgebra
  import opened Samples
  import opened RobotStructure
  import opened RobotWalk
  import opened FrameTrees
  import opened Kinematics

  /** The graph has exactly the frames of the list, hung as the list hangs them. */
  ghost predicate Shaped<T>(t: Tree<T>, root: string, ms: seq<Stamped<T>>) {
    && WellFormed(t) && Hangs(root, ms)
    && t.names == Names(root, ms)
    && forall k :: 0 <= k < |ms| ==> t.parent[k + 1] == Above(root, ms, k)
  }

  /** The buffer of frame i once the first j entries have been written. */
  ghost function Written<T>(t: Tree<T>, ms: seq<Stamped<T>>, j: nat, i: nat): seq<Sample<T>>
    requires j <= |ms| && i < |t.samples|
  {
    if 0 < i <= j then Insert(t.samples[i], ms[i - 1].stamp, ms[i - 1].transform, t.duration) else t.samples[i]
  }

  ghost function Refreshed<T>(t: Tree<T>, ms: seq<Stamped<T>>, j: nat): Tree<T>
    requires j <= |ms|
  {
    t.(samples := seq(|t.samples|, i requires 0 <= i < |t.samples| => Written(t, ms, j, i)))
  }

  lemma EntryKnown<T>(t: Tree<T>, root: string, ms: seq<Stamped<T>>, k: nat)
    requires Shaped(t, root, ms) && k < |ms|
    ensures |t.names| == |ms| + 1
    ensures IndexOf(t.names, ms[k].frameId) == Above(root, ms, k)
    ensures IndexOf(t.names, ms[k].childFrameId) == k + 1
  {
    hide Hangs, Names;
    NamesDistinct(root, ms);
    AboveNames(root, ms, k);
    IndexUnique(t.names, Above(root, ms, k));
    IndexUnique(t.names, k + 1);
  }

  lemma EntryRefreshes<T>(t: Tree<T>, root: string, ms: seq<Stamped<T>>, k: nat)
    requires Shaped(t, root, ms) && k < |ms|
    ensures Apply(Refreshed(t, ms, k), ms[k]) == (Refreshed(t, ms, k + 1), true)
  {
    hide Insert, IndexOf, Hangs, Names;
    EntryKnown(t, root, ms, k);
    var before, after := Refreshed(t, ms, k), Refreshed(t, ms, k + 1);
    assert before.samples[k + 1] == t.samples[k + 1];
    assert after.samples == before.samples[k + 1 := after.samples[k + 1]];
  }

  /** Every entry is accepted and goes into the buffer of its own frame; no frame is added or moved. */
  lemma {:induction false} RefreshAccepted<T>(t: Tree<T>, root: string, ms: seq<Stamped<T>>, k: nat)
    requires Shaped(t, root, ms) && k <= |ms|
    ensures ApplyAll(Refreshed(t, ms, k), ms[k..]) == (Refreshed(t, ms, |ms|), true)
    decreases |ms| - k
  {
    hide Shaped, Refreshed, Apply;
    if k < |ms| {
      EntryRefreshes(t, root, ms, k);
      RefreshAccepted(t, root, ms, k + 1);
      assert ms[k..][1..] == ms[k + 1..] && ms[k..][0] == ms[k];
    }
  }

  /** The graph keeps its shape, so the next message is accepted as well. */
  lemma RefreshedShaped<T>(t: Tree<T>, root: string, ms: seq<Stamped<T>>)
    requires Shaped(t, root, ms)
    ensures Shaped(Refreshed(t, ms, |ms|), root, ms)
  {
    var r := Refreshed(t, ms, |ms|);
    hide Insert, Sorted, Hangs, Names, Rooted;
    ShapedSize(t, root, ms);
    assert r.samples[0] == t.samples[0];
    forall i | 0 < i < |r.samples| ensures r.samples[i] != [] && Sorted(r.samples[i]) {
      EdgeRefreshed(t, root, ms, i);
    }
  }

  lemma EdgeRefreshed<T>(t: Tree<T>, root: string, ms: seq<Stamped<T>>, i: nat)
    requires Shaped(t, root, ms) && 0 < i < |t.samples| <= |ms| + 1
    ensures Written(t, ms, |ms|, i) != [] && Sorted(Written(t, ms, |ms|, i))
  {
    hide Insert, Sorted, Hangs, Names, Rooted;
    InsertKeeps(t.samples[i], ms[i - 1].stamp, ms[i - 1].transform, t.duration);
  }

  lemma ShapedSize<T>(t: Tree<T>, root: string, ms: seq<Stamped<T>>)
    requires Shaped(t, root, ms)
    ensures |t.names| == |t.parent| == |t.samples| == |ms| + 1
  {
  }

  /** Messages of the same frames: the entries agree on everything but their stamps and transforms. */
  ghost predicate SameFrames<T>(a: seq<Stamped<T>>, b: seq<Stamped<T>>) {
    && |a| == |b|
    && forall k :: 0 <= k < |a| ==> a[k].frameId == b[k].frameId && a[k].childFrameId == b[k].childFrameId
  }

  lemma {:induction false} SameNames<T>(root: string, a: seq<Stamped<T>>, b: seq<Stamped<T>>)
    requires SameFrames(a, b)
    ensures Names(root, a) == Names(root, b)
  {
    if a != [] {
      SameNames(root, a[..|a| - 1], b[..|b| - 1]);
    }
  }

  lemma SameShape<T>(t: Tree<T>, root: string, a: seq<Stamped<T>>, b: seq<Stamped<T>>)
    requires Shaped(t, root, a) && SameFrames(a, b)
    ensures Shaped(t, root, b)
  {
    hide Names;
    SameNames(root, a, b);
    forall k | 0 <= k < |a| ensures Names(root, a[..k]) == Names(root, b[..k]) {
      SameNames(root, a[..k], b[..k]);
    }
    assert Hangs(root, b);
    forall k | 0 <= k < |b| ensures t.parent[k + 1] == Above(root, b, k) {
      assert Above(root, a, k) == Above(root, b, k);
    }
  }

  /** A graph built by the first message has the shape of it. */
  lemma BuiltShaped<T>(root: string, d: int, ms: seq<Stamped<T>>)
    requires Hangs(root, ms)
    ensures Shaped(After(root, d, ms), root, ms)
  {
    hide Hangs, Names, After, WellFormed;
    AfterWellFormed(root, d, ms);
    BuiltTree(root, d, ms);
  }

  /** The graph after a first message and any number of further ones. */
  ghost function Fed<T>(root: string, d: int, messages: seq<seq<Stamped<T>>>): Tree<T>
    requires messages != []
    ensures |Fed(root, d, messages).names| == |Fed(root, d, messages).parent| == |Fed(root, d, messages).samples|
  {
    if |messages| == 1 then After(root, d, messages[0])
    else
      var before := Fed(root, d, messages[..|messages| - 1]);
      ApplyAllSizes(before, messages[|messages| - 1]);
      ApplyAll(before, messages[|messages| - 1]).0
  }

  lemma {:induction false} ApplyAllSizes<T>(t: Tree<T>, ms: seq<Stamped<T>>)
    requires |t.names| == |t.parent| == |t.samples|
    ensures var r := ApplyAll(t, ms).0; |r.names| == |r.parent| == |r.samples|
    decreases |ms|
  {
    hide Apply;
    if ms != [] && Apply(t, ms[0]).1 {
      ApplyAllSizes(Apply(t, ms[0]).0, ms[1..]);
    }
  }

  ghost predicate NotEarlier<T>(a: seq<Stamped<T>>, b: seq<Stamped<T>>) {
    forall k :: 0 <= k < |a| && k < |b| ==> a[k].stamp <= b[k].stamp
  }

  /** All messages have the frames of the first, and none is stamped earlier than the one before it. */
  ghost predicate Stream<T>(root: string, messages: seq<seq<Stamped<T>>>) {
    && messages != [] && Hangs(root, messages[0])
    && (forall n :: 0 <= n < |messages| ==> SameFrames(messages[0], messages[n]))
    && (forall n :: 0 < n < |messages| ==> NotEarlier(messages[n - 1], messages[n]))
  }

  ghost predicate NewestIs<T>(s: seq<Sample<T>>, m: Stamped<T>) {
    s != [] && s[|s| - 1] == Sample(m.stamp, m.transform)
  }

  /** The newest sample of every edge is the message's. */
  ghost predicate UpToDate<T>(t: Tree<T>, ms: seq<Stamped<T>>) {
    && |t.samples| == |ms| + 1
    && forall i :: 0 < i < |t.samples| ==> NewestIs(t.samples[i], ms[i - 1])
  }

  /** Every message of a stream is accepted whole, and each edge's newest sample is the last message's. */
  lemma {:induction false} StreamAccepted<T>(root: string, d: int, messages: seq<seq<Stamped<T>>>)
    requires Stream(root, messages)
    ensures var last, t := messages[|messages| - 1], Fed(root, d, messages);
            && Shaped(t, root, last) && UpToDate(t, last)
            && (|messages| > 1 ==> ApplyAll(Fed(root, d, messages[..|messages| - 1]), last).1)
  {
    hide Shaped, Hangs, After, Apply, Insert, UpToDate, SameFrames, Refreshed;
    var last := messages[|messages| - 1];
    if |messages| == 1 {
      BuiltShaped(root, d, last);
      BuiltUpToDate(root, d, last);
    } else {
      var init := messages[..|messages| - 1];
      StreamPrefix(root, messages);
      StreamAccepted(root, d, init);
      var t, previous := Fed(root, d, init), init[|init| - 1];
      SameShape(t, root, previous, last);
      RefreshAccepted(t, root, last, 0);
      RefreshedShaped(t, root, last);
      NothingRefreshed(t, last);
      assert last[0..] == last;
      RefreshedUpToDate(t, root, previous, last);
    }
  }

  lemma BuiltUpToDate<T>(root: string, d: int, ms: seq<Stamped<T>>)
    requires Hangs(root, ms)
    ensures UpToDate(After(root, d, ms), ms)
  {
    hide Hangs, After;
    BuiltTree(root, d, ms);
    var t := After(root, d, ms);
    forall i | 0 < i < |t.samples| ensures NewestIs(t.samples[i], ms[i - 1]) {
      var k := i - 1;
      assert t.samples[k + 1] == [Sample(ms[k].stamp, ms[k].transform)];
    }
  }

  lemma NothingRefreshed<T>(t: Tree<T>, ms: seq<Stamped<T>>)
    ensures Refreshed(t, ms, 0) == t
  {
    assert Refreshed(t, ms, 0).samples == t.samples;
  }

  /** Entries no older than the message before become the newest samples. */
  lemma RefreshedUpToDate<T>(t: Tree<T>, root: string, previous: seq<Stamped<T>>, last: seq<Stamped<T>>)
    requires Shaped(t, root, last) && UpToDate(t, previous) && |previous| == |last|
    requires forall k :: 0 <= k < |last| ==> previous[k].stamp <= last[k].stamp
    ensures UpToDate(Refreshed(t, last, |last|), last)
  {
    hide Shaped, Hangs, Insert, Sorted;
    var r := Refreshed(t, last, |last|);
    forall i | 0 < i < |r.samples| ensures NewestIs(r.samples[i], last[i - 1]) {
      ShapedSorted(t, root, last, i);
      assert NewestIs(t.samples[i], previous[i - 1]);
      InsertNewest(t.samples[i], last[i - 1].stamp, last[i - 1].transform, t.duration);
    }
  }

  lemma StreamPrefix<T>(root: string, messages: seq<seq<Stamped<T>>>)
    requires Stream(root, messages) && |messages| > 1
    ensures Stream(root, messages[..|messages| - 1])
    ensures var n := |messages| - 1;
            var a, b := messages[..n][|messages[..n]| - 1], messages[n];
            SameFrames(a, b) && |a| == |b| && forall k :: 0 <= k < |a| ==> a[k].stamp <= b[k].stamp
  {
    hide Hangs;
    var n := |messages| - 1;
    var a, b := messages[n - 1], messages[n];
    assert SameFrames(messages[0], a) && SameFrames(messages[0], b);
    assert NotEarlier(a, b);
  }

  lemma ShapedSorted<T>(t: Tree<T>, root: string, ms: seq<Stamped<T>>, i: nat)
    requires Shaped(t, root, ms) && i < |t.samples|
    ensures Sorted(t.samples[i])
  {
  }

  /** A sample that is not older than any stored one becomes the newest. */
  lemma InsertNewest<T>(s: seq<Sample<T>>, stamp: int, value: T, d: int)
    requires Sorted(s) && (s != [] ==> s[|s| - 1].stamp <= stamp)
    ensures var r := Insert(s, stamp, value, d); r != [] && r[|r| - 1] == Sample(stamp, value)
  {
    PutLast(s, stamp, value);
    if d > 0 {
      PruneLast(Put(s, stamp, value), stamp - d);
    }
  }

  lemma {:induction false} PutLast<T>(s: seq<Sample<T>>, stamp: int, value: T)
    requires Sorted(s) && (s != [] ==> s[|s| - 1].stamp <= stamp)
    ensures var p := Put(s, stamp, value); p[|p| - 1] == Sample(stamp, value)
  {
    if s != [] && s[0].stamp < stamp {
      PutLast(s[1..], stamp, value);
    }
  }

  lemma {:induction false} PruneLast<T>(s: seq<Sample<T>>, oldest: int)
    requires s != [] && oldest <= s[|s| - 1].stamp
    ensures var r := Prune(s, oldest); r != [] && r[|r| - 1] == s[|s| - 1]
  {
    if s[0].stamp < oldest {
      PruneLast(s[1..], oldest);
    }
  }

  /** At that time every edge answers with the message's transform. */
  ghost predicate ShowsAt<T(!new)>(t: Tree<T>, g: Algebra<T>, ms: seq<Stamped<T>>, time: int)
    requires WellFormed(t) && |t.names| == |ms| + 1
  {
    forall i: nat :: 0 < i <= |ms| ==> EdgeAt(t, g, i, time) == ms[i - 1].transform
  }

  lemma {:induction false} ShownFromRoot<T(!new)>(t: Tree<T>, root: string, ms: seq<Stamped<T>>, g: Algebra<T>, i: nat,
                                                  time: int)
    requires Shaped(t, root, ms) && ShowsAt(t, g, ms, time) && i <= |ms|
    ensures FromRoot(t, g, i, time) == Pose(root, ms, g, i)
    decreases i
  {
    hide Hangs, Names, EdgeAt;
    if i > 0 {
      var a := Above(root, ms, i - 1);
      ShownFromRoot(t, root, ms, g, a, time);
      RootIsAncestor(t.parent, a);
      RootIsAncestor(t.parent, i);
      assert t.parent[i] == a;
      assert EdgeAt(t, g, i, time) == ms[i - 1].transform;
    }
  }

  /** Then every frame answers with the pose the message gives it. */
  lemma ShownIsPose<T(!new)>(t: Tree<T>, root: string, ms: seq<Stamped<T>>, g: Algebra<T>, i: nat, time: int)
    requires Shaped(t, root, ms) && ShowsAt(t, g, ms, time) && IsGroup(g) && i <= |ms|
    ensures Query(t, g, Names(root, ms)[i], root, time) == Some(Pose(root, ms, g, i))
  {
    hide Hangs, Names, Pose, IsGroup;
    ShownFromRoot(t, root, ms, g, i, time);
    NamesDistinct(root, ms);
    IndexUnique(t.names, i);
    IndexUnique(t.names, 0);
    RootIsAncestor(t.parent, i);
    if i > 0 {
      RelativeToAncestor(t, g, i, 0, time);
      assert t.names[i] != t.names[0];
    }
  }

  /** For the latest transforms, that is the last message of the stream. */
  lemma LatestShows<T(!new)>(root: string, d: int, messages: seq<seq<Stamped<T>>>, g: Algebra<T>)
    requires Stream(root, messages)
    ensures var last, t := messages[|messages| - 1], Fed(root, d, messages);
            Shaped(t, root, last) && |t.names| == |last| + 1 && ShowsAt(t, g, last, 0)
  {
    hide Hangs, Names, Fed;
    var last, t := messages[|messages| - 1], Fed(root, d, messages);
    StreamAccepted(root, d, messages);
    forall i: nat | 0 < i <= |last| ensures EdgeAt(t, g, i, 0) == last[i - 1].transform {
      assert NewestIs(t.samples[i], last[i - 1]);
    }
  }

  /** So asked for them, the graph answers with its poses. */
  lemma LatestPose<T(!new)>(root: string, d: int, messages: seq<seq<Stamped<T>>>, g: Algebra<T>, i: nat)
    requires Stream(root, messages) && IsGroup(g)
    requires i <= |messages[|messages| - 1]|
    ensures var last, t := messages[|messages| - 1], Fed(root, d, messages);
            && Hangs(root, last) && WellFormed(t)
            && Query(t, g, Names(root, last)[i], root, 0) == Some(Pose(root, last, g, i))
  {
    assert messages != [];
    hide Hangs, Names, Pose, IsGroup, Fed, Stream, ShowsAt;
    LatestShows(root, d, messages, g);
    ShownIsPose(Fed(root, d, messages), root, messages[|messages| - 1], g, i, 0);
  }

  // ---------- Asked for an earlier time

  /** What a stream writes to the edge above frame i. */
  ghost function SentTo<T>(messages: seq<seq<Stamped<T>>>, i: nat): (writes: seq<Sample<T>>)
    requires 0 < i && forall n :: 0 <= n < |messages| ==> i <= |messages[n]|
    ensures |writes| == |messages|
    ensures forall n :: 0 <= n < |messages| ==>
              writes[n] == Sample(messages[n][i - 1].stamp, messages[n][i - 1].transform)
  {
    if messages == [] then []
    else
      var m := messages[|messages| - 1][i - 1];
      SentTo(messages[..|messages| - 1], i) + [Sample(m.stamp, m.transform)]
  }

  /** The edge's buffer is what inserting those one after the other leaves. */
  lemma {:induction false} EdgeIsReplay<T(!new)>(root: string, d: int, messages: seq<seq<Stamped<T>>>, i: nat)
    requires Stream(root, messages) && 0 < i <= |messages[0]|
    ensures var t := Fed(root, d, messages);
            && t.duration == d && i < |t.samples|
            && (forall n :: 0 <= n < |messages| ==> i <= |messages[n]|)
            && t.samples[i] == Replay(SentTo(messages, i), d)
  {
    hide Hangs, After, Apply, Insert, NotEarlier, Names;
    var last := messages[|messages| - 1];
    assert forall n :: 0 <= n < |messages| ==> i <= |messages[n]|;
    if |messages| == 1 {
      BuiltTree(root, d, last);
      var k := i - 1;
      assert After(root, d, last).samples[k + 1] == [Sample(last[k].stamp, last[k].transform)];
      InsertFirst(last[k].stamp, last[k].transform, d);
      assert SentTo(messages[..0], i) == [];
    } else {
      var init := messages[..|messages| - 1];
      StreamPrefix(root, messages);
      EdgeIsReplay(root, d, init, i);
      FedOn(root, d, messages);
      var writes := SentTo(messages, i);
      assert writes[..|writes| - 1] == SentTo(init, i);
    }
  }

  lemma FedOn<T>(root: string, d: int, messages: seq<seq<Stamped<T>>>)
    requires Stream(root, messages) && |messages| > 1
    ensures var init, last := messages[..|messages| - 1], messages[|messages| - 1];
            && Fed(root, d, messages) == Refreshed(Fed(root, d, init), last, |last|)
            && |Fed(root, d, init).samples| == |last| + 1
  {
    hide Shaped, Hangs, After, Apply, UpToDate, SameFrames, Refreshed;
    var init, last := messages[..|messages| - 1], messages[|messages| - 1];
    StreamPrefix(root, messages);
    StreamAccepted(root, d, init);
    var t := Fed(root, d, init);
    SameShape(t, root, init[|init| - 1], last);
    RefreshAccepted(t, root, last, 0);
    NothingRefreshed(t, last);
    assert last[0..] == last;
    ShapedSize(t, root, last);
  }

  /** Every message is stamped throughout with its own time, and these increase. */
  ghost predicate Timed<T>(messages: seq<seq<Stamped<T>>>, stamps: seq<int>) {
    && |stamps| == |messages|
    && (forall n :: 0 <= n < |messages| ==> AllStamped(messages[n], stamps[n]))
    && forall n, k :: 0 <= n < k < |stamps| ==> stamps[n] < stamps[k]
  }

  ghost predicate AllStamped<T>(ms: seq<Stamped<T>>, stamp: int) {
    forall k :: 0 <= k < |ms| ==> ms[k].stamp == stamp
  }

  /** Still stored: not more than the buffers' duration older than the last message. */
  ghost predicate Remembered(stamps: seq<int>, d: int, n: nat)
    requires n < |stamps|
  {
    d > 0 ==> stamps[|stamps| - 1] - d <= stamps[n]
  }

  /** The edge holds what message n wrote to it, at that message's stamp. */
  lemma EdgeHolds<T(!new)>(root: string, d: int, messages: seq<seq<Stamped<T>>>, stamps: seq<int>, n: nat, i: nat)
    returns (j: nat)
    requires Stream(root, messages) && Timed(messages, stamps) && 0 < i <= |messages[0]|
    requires n < |messages| && Remembered(stamps, d, n)
    ensures var t := Fed(root, d, messages);
            && i < |t.samples| && i <= |messages[n]| && Represents(t.samples[i], SentTo(messages, i), d)
            && j < |t.samples[i]| && t.samples[i][j] == Sample(stamps[n], messages[n][i - 1].transform)
  {
    hide Stream, Fed, LastWrite;
    EdgeIsReplay(root, d, messages, i);
    var writes, s := SentTo(messages, i), Fed(root, d, messages).samples[i];
    ReplayIsWindow(writes, d);
    assert forall k :: 0 <= k < |messages| ==> AllStamped(messages[k], stamps[k]) && writes[k].stamp == stamps[k];
    WriteAt(writes, n);
    assert InWindow(writes, d, stamps[n]);
    j := WriteExists(s, stamps[n]);
  }

  /** For the time of any message still stored, it is that message. */
  lemma PastShows<T(!new)>(root: string, d: int, messages: seq<seq<Stamped<T>>>, stamps: seq<int>, g: Algebra<T>,
                           n: nat)
    requires Stream(root, messages) && Timed(messages, stamps)
    requires n < |messages| && Remembered(stamps, d, n) && stamps[n] != 0
    ensures var t := Fed(root, d, messages);
            && Shaped(t, root, messages[n]) && |t.names| == |messages[n]| + 1
            && ShowsAt(t, g, messages[n], stamps[n])
  {
    assert |stamps| == |messages|;
    hide Hangs, Names, Fed, NotEarlier, Timed, Represents;
    var t, last := Fed(root, d, messages), messages[|messages| - 1];
    StreamAccepted(root, d, messages);
    SameAsLast(root, messages, n);
    SameShape(t, root, last, messages[n]);
    forall i: nat | 0 < i <= |messages[n]| ensures EdgeAt(t, g, i, stamps[n]) == messages[n][i - 1].transform {
      var j := EdgeHolds(root, d, messages, stamps, n, i);
      ShapedSorted(t, root, last, i);
      ScanMeaning(t.samples[i], stamps[n], g.blend, j);
    }
  }

  /** So at that time the graph answers with that message's poses. */
  lemma PastPose<T(!new)>(root: string, d: int, messages: seq<seq<Stamped<T>>>, stamps: seq<int>, g: Algebra<T>, n: nat,
                          i: nat)
    requires Stream(root, messages) && IsGroup(g) && Timed(messages, stamps)
    requires n < |messages| && Remembered(stamps, d, n) && stamps[n] != 0 && i <= |messages[n]|
    ensures var t := Fed(root, d, messages);
            && Hangs(root, messages[n]) && WellFormed(t)
            && Query(t, g, Names(root, messages[n])[i], root, stamps[n]) == Some(Pose(root, messages[n], g, i))
  {
    assert |stamps| == |messages|;
    hide Hangs, Names, Pose, IsGroup, Fed, Stream, Timed, ShowsAt;
    PastShows(root, d, messages, stamps, g, n);
    ShownIsPose(Fed(root, d, messages), root, messages[n], g, i, stamps[n]);
  }

  lemma SameAsLast<T>(root: string, messages: seq<seq<Stamped<T>>>, n: nat)
    requires Stream(root, messages) && n < |messages|
    ensures SameFrames(messages[|messages| - 1], messages[n]) && |messages[n]| == |messages[0]|
  {
    assert SameFrames(messages[0], messages[|messages| - 1]) && SameFrames(messages[0], messages[n]);
  }

  lemma EdgeBetween<T(!new)>(root: string, d: int, messages: seq<seq<Stamped<T>>>, stamps: seq<int>, g: Algebra<T>,
                             n: nat, i: nat, time: int)
    requires Stream(root, messages) && Timed(messages, stamps) && 0 < i <= |messages[0]|
    requires n + 1 < |messages| && Remembered(stamps, d, n) && stamps[n] < time < stamps[n + 1] && time != 0
    ensures var t := Fed(root, d, messages);
            && WellFormed(t) && i < |t.names| && i <= |messages[n]| && i <= |messages[n + 1]|
            && EdgeAt(t, g, i, time)
               == Between(Sample(stamps[n], messages[n][i - 1].transform),
                          Sample(stamps[n + 1], messages[n + 1][i - 1].transform), time, g.blend)
  {
    assert |stamps| == |messages|;
    hide Stream, Fed, Timed, Represents, WellFormed, Between, Lookup;
    var t, last := Fed(root, d, messages), messages[|messages| - 1];
    StreamAccepted(root, d, messages);
    SameAsLast(root, messages, |messages| - 1);
    ShapedSize(t, root, last);
    ShapedWell(t, root, last);
    var a := EdgeHolds(root, d, messages, stamps, n, i);
    RememberedNext(messages, stamps, d, n);
    var b := EdgeHolds(root, d, messages, stamps, n + 1, i);
    TimedWrites(messages, stamps, i);
    NothingBetween(t.samples[i], SentTo(messages, i), d, stamps, n, a, b);
    BetweenNeighbours(t.samples[i], time, g.blend, a);
  }

  /**
   Between two messages that follow each other, every edge answers with the blend of what they wrote to it, by the part
   of the time between them that has gone by.
   */
  lemma PastBlend<T(!new)>(root: string, d: int, messages: seq<seq<Stamped<T>>>, stamps: seq<int>, g: Algebra<T>,
                           n: nat, i: nat, time: int)
    returns (ratio: real)
    requires Stream(root, messages) && Timed(messages, stamps) && 0 < i <= |messages[0]|
    requires n + 1 < |messages| && Remembered(stamps, d, n) && stamps[n] < time < stamps[n + 1] && time != 0
    ensures var t := Fed(root, d, messages);
            && WellFormed(t) && i < |t.names| && i <= |messages[n]| && i <= |messages[n + 1]|
            && EdgeAt(t, g, i, time) == g.blend(messages[n][i - 1].transform, messages[n + 1][i - 1].transform, ratio)
    ensures IsPart(ratio, stamps[n], stamps[n + 1], time)
  {
    TimedSize(messages, stamps);
    hide Stream, Fed, Timed, WellFormed, Between, EdgeAt, Remembered, IsPart;
    EdgeBetween(root, d, messages, stamps, g, n, i, time);
    var a := Sample(stamps[n], messages[n][i - 1].transform);
    var b := Sample(stamps[n + 1], messages[n + 1][i - 1].transform);
    ratio := BetweenBlends(a, b, time, g.blend);
  }

  lemma TimedSize<T>(messages: seq<seq<Stamped<T>>>, stamps: seq<int>)
    requires Timed(messages, stamps)
    ensures |stamps| == |messages|
  {
  }

  /** A coordinate that blends linearly has then gone that part of its way from the one message to the next. */
  lemma PastProportion<T(!new)>(root: string, d: int, messages: seq<seq<Stamped<T>>>, stamps: seq<int>, g: Algebra<T>,
                                n: nat, i: nat, time: int, axis: T -> real)
    requires Stream(root, messages) && Timed(messages, stamps) && 0 < i <= |messages[0]| && Linear(axis, g.blend)
    requires n + 1 < |messages| && Remembered(stamps, d, n) && stamps[n] < time < stamps[n + 1] && time != 0
    ensures var t := Fed(root, d, messages);
            && WellFormed(t) && i < |t.names| && i <= |messages[n]| && i <= |messages[n + 1]|
            && InProportion(axis(messages[n][i - 1].transform), axis(messages[n + 1][i - 1].transform),
                            axis(EdgeAt(t, g, i, time)), stamps[n], stamps[n + 1], time)
  {
    TimedSize(messages, stamps);
    hide Stream, Fed, Timed, WellFormed, Between, EdgeAt, Linear, Remembered, InProportion;
    EdgeBetween(root, d, messages, stamps, g, n, i, time);
    var a := Sample(stamps[n], messages[n][i - 1].transform);
    var b := Sample(stamps[n + 1], messages[n + 1][i - 1].transform);
    BetweenProportion(a, b, time, g.blend, axis);
  }

  lemma ShapedWell<T>(t: Tree<T>, root: string, ms: seq<Stamped<T>>)
    requires Shaped(t, root, ms)
    ensures WellFormed(t) && forall i :: 0 <= i < |t.samples| ==> Sorted(t.samples[i])
  {
  }

  lemma RememberedNext<T>(messages: seq<seq<Stamped<T>>>, stamps: seq<int>, d: int, n: nat)
    requires Timed(messages, stamps) && n + 1 < |stamps| && Remembered(stamps, d, n)
    ensures Remembered(stamps, d, n + 1)
  {
  }

  lemma TimedWrites<T>(messages: seq<seq<Stamped<T>>>, stamps: seq<int>, i: nat)
    requires Timed(messages, stamps) && 0 < i && forall n :: 0 <= n < |messages| ==> i <= |messages[n]|
    ensures |stamps| == |messages|
    ensures forall k :: 0 <= k < |messages| ==> SentTo(messages, i)[k].stamp == stamps[k]
    ensures forall k, l :: 0 <= k < l < |stamps| ==> stamps[k] < stamps[l]
  {
    assert forall k :: 0 <= k < |messages| ==> AllStamped(messages[k], stamps[k]);
  }

  lemma BetweenNeighbours<T>(s: seq<Sample<T>>, time: int, blend: (T, T, real) -> T, a: nat)
    requires Sorted(s) && a + 1 < |s| && s[a].stamp < time < s[a + 1].stamp && time != 0
    ensures Lookup(s, time, blend)
            == Some(Between(s[a], s[a + 1], time, blend))
  {
    ScanMeaning(s, time, blend, a);
  }

  lemma NothingBetween<T(!new)>(s: seq<Sample<T>>, writes: seq<Sample<T>>, d: int, stamps: seq<int>, n: nat, a: nat,
                                b: nat)
    requires Represents(s, writes, d) && a < |s| && b < |s| && n + 1 < |stamps| == |writes|
    requires forall k :: 0 <= k < |writes| ==> writes[k].stamp == stamps[k]
    requires forall k, l :: 0 <= k < l < |stamps| ==> stamps[k] < stamps[l]
    requires s[a].stamp == stamps[n] && s[b].stamp == stamps[n + 1]
    ensures b == a + 1
  {
    if a + 1 < b {
      WriteAt(s, a + 1);
      var w := WriteExists(writes, s[a + 1].stamp);
      assert false;
    }
  }

  /** The message that would have said so at a time between two. */
  ghost function Midway<T>(g: Algebra<T>, a: seq<Stamped<T>>, b: seq<Stamped<T>>, s: int, u: int, time: int)
    : (ms: seq<Stamped<T>>)
    requires SameFrames(a, b) && s != u
    ensures SameFrames(a, ms)
    ensures forall k :: 0 <= k < |a| ==>
              ms[k].transform == Between(Sample(s, a[k].transform), Sample(u, b[k].transform), time, g.blend)
  {
    seq(|a|, k requires 0 <= k < |a| =>
      a[k].(stamp := time,
            transform := Between(Sample(s, a[k].transform), Sample(u, b[k].transform), time, g.blend)))
  }

  lemma NextFrames<T>(root: string, messages: seq<seq<Stamped<T>>>, stamps: seq<int>, n: nat)
    requires Stream(root, messages) && Timed(messages, stamps) && n + 1 < |messages|
    ensures SameFrames(messages[n], messages[n + 1]) && stamps[n] != stamps[n + 1]
  {
    assert SameFrames(messages[0], messages[n]) && SameFrames(messages[0], messages[n + 1]);
  }

  lemma BetweenShows<T(!new)>(root: string, d: int, messages: seq<seq<Stamped<T>>>, stamps: seq<int>, g: Algebra<T>,
                              n: nat, time: int)
    requires Stream(root, messages) && Timed(messages, stamps)
    requires n + 1 < |messages| && Remembered(stamps, d, n) && stamps[n] < time < stamps[n + 1] && time != 0
    requires SameFrames(messages[n], messages[n + 1])
    ensures var t := Fed(root, d, messages);
            var ms := Midway(g, messages[n], messages[n + 1], stamps[n], stamps[n + 1], time);
            Shaped(t, root, ms) && |t.names| == |ms| + 1 && ShowsAt(t, g, ms, time)
  {
    assert |stamps| == |messages|;
    hide Hangs, Names, Fed, Stream, Timed, Midway;
    var t, last := Fed(root, d, messages), messages[|messages| - 1];
    var ms := Midway(g, messages[n], messages[n + 1], stamps[n], stamps[n + 1], time);
    StreamAccepted(root, d, messages);
    SameAsLast(root, messages, n);
    SameShape(t, root, last, ms);
    forall i: nat | 0 < i <= |ms| ensures EdgeAt(t, g, i, time) == ms[i - 1].transform {
      EdgeBetween(root, d, messages, stamps, g, n, i, time);
    }
  }

  /** So the graph answers with the poses of the blended transforms. */
  lemma BetweenPose<T(!new)>(root: string, d: int, messages: seq<seq<Stamped<T>>>, stamps: seq<int>, g: Algebra<T>,
                             n: nat, i: nat, time: int)
    requires Stream(root, messages) && IsGroup(g) && Timed(messages, stamps)
    requires n + 1 < |messages| && Remembered(stamps, d, n) && stamps[n] < time < stamps[n + 1] && time != 0
    requires i <= |messages[n]| && SameFrames(messages[n], messages[n + 1])
    ensures var t := Fed(root, d, messages);
            var ms := Midway(g, messages[n], messages[n + 1], stamps[n], stamps[n + 1], time);
            && Hangs(root, ms) && WellFormed(t)
            && Query(t, g, Names(root, ms)[i], root, time) == Some(Pose(root, ms, g, i))
  {
    assert |stamps| == |messages|;
    hide Hangs, Names, Pose, IsGroup, Fed, Stream, Timed, Midway, Query, ShowsAt;
    BetweenShows(root, d, messages, stamps, g, n, time);
    ShownIsPose(Fed(root, d, messages), root,
                Midway(g, messages[n], messages[n + 1], stamps[n], stamps[n + 1], time), g, i, time);
  }

  // ---------- The robot seen through the graph

  /** One robot, listed in its one order at different times, always lists the same frames. */
  lemma ListsSameFrames<T>(m: Model<T>, order: seq<string>, worldA: T, sentA: map<string, T>, a: seq<Stamped<T>>,
                           worldB: T, sentB: map<string, T>, b: seq<Stamped<T>>)
    requires Lists(m, worldA, sentA, order, a) && Lists(m, worldB, sentB, order, b)
    ensures SameFrames(a, b)
  {
    forall k | 0 <= k < |a| ensures a[k].frameId == b[k].frameId && a[k].childFrameId == b[k].childFrameId {
      if k > 0 {
        var i := k - 1;
        assert a[i + 1].frameId == m.joints[order[i]].parent && b[i + 1].frameId == m.joints[order[i]].parent;
        assert a[i + 1].childFrameId == m.joints[order[i]].child && b[i + 1].childFrameId == m.joints[order[i]].child;
      }
    }
  }

  /** A published message, with its stamp, the world-to-root transform and the joints' transforms it was made from. */
  datatype Publication<T> = Publication(stamp: int, world: T, sent: map<string, T>, tf: seq<Stamped<T>>)

  /** The publication lists the robot in that order, with its own stamp throughout. */
  ghost predicate Issue<T>(m: Model<T>, order: seq<string>, p: Publication<T>) {
    Lists(m, p.world, p.sent, order, p.tf) && p.sent.Keys == m.joints.Keys && AllStamped(p.tf, p.stamp)
  }

  /** Each publication lists the robot in that order, and is stamped no earlier than the one before. */
  ghost predicate Published<T>(m: Model<T>, order: seq<string>, ps: seq<Publication<T>>) {
    && (forall n :: 0 <= n < |ps| ==> Issue(m, order, ps[n]))
    && forall n, k :: 0 <= n < k < |ps| ==> ps[n].stamp <= ps[k].stamp
  }

  ghost function MessagesOf<T>(ps: seq<Publication<T>>): (messages: seq<seq<Stamped<T>>>)
    ensures |messages| == |ps| && forall i :: 0 <= i < |ps| ==> messages[i] == ps[i].tf
  {
    if ps == [] then [] else MessagesOf(ps[..|ps| - 1]) + [ps[|ps| - 1].tf]
  }

  ghost function StampsOf<T>(ps: seq<Publication<T>>): (stamps: seq<int>)
    ensures |stamps| == |ps| && forall i :: 0 <= i < |ps| ==> stamps[i] == ps[i].stamp
  {
    if ps == [] then [] else StampsOf(ps[..|ps| - 1]) + [ps[|ps| - 1].stamp]
  }

  lemma PublishedStream<T>(m: Model<T>, order: seq<string>, ps: seq<Publication<T>>)
    requires Proper(m) && IsWalk(m, order) && ps != [] && Published(m, order, ps)
    ensures Stream(WORLD, MessagesOf(ps))
    ensures forall n :: 0 <= n < |ps| ==> Hangs(WORLD, ps[n].tf)
  {
    hide Proper, IsWalk, Lists, Hangs, SameFrames, NotEarlier, MessagesOf;
    var messages := MessagesOf(ps);
    forall n | 0 <= n < |ps| ensures Hangs(WORLD, ps[n].tf) {
      assert Issue(m, order, ps[n]);
      TransformsHang(m, ps[n].world, ps[n].sent, order, ps[n].tf);
    }
    forall n | 0 <= n < |messages|
      ensures SameFrames(messages[0], messages[n]) && (n > 0 ==> NotEarlier(messages[n - 1], messages[n])) {
      assert Issue(m, order, ps[0]) && Issue(m, order, ps[n]);
      ListsSameFrames(m, order, ps[0].world, ps[0].sent, ps[0].tf, ps[n].world, ps[n].sent, ps[n].tf);
      if n > 0 {
        assert Issue(m, order, ps[n - 1]);
        IssuesOrdered(m, order, ps[n - 1], ps[n]);
      }
    }
  }

  lemma IssuesOrdered<T>(m: Model<T>, order: seq<string>, a: Publication<T>, b: Publication<T>)
    requires Issue(m, order, a) && Issue(m, order, b) && a.stamp <= b.stamp
    ensures NotEarlier(a.tf, b.tf)
  {
  }

  /**
   However often a robot has been published, and however its joints have moved in between: the latest
   transform of a link against the world is the product, over the link's chain, of what was sent last.
   */
  lemma LiveKinematics<T(!new)>(m: Model<T>, g: Algebra<T>, order: seq<string>, ps: seq<Publication<T>>, d: int,
                                l: string)
    requires Proper(m) && IsGroup(g) && IsWalk(m, order) && l in m.links
    requires ps != [] && Published(m, order, ps)
    ensures var last, t := ps[|ps| - 1], Fed(WORLD, d, MessagesOf(ps));
            && Ascends(m, l) && Covers(last.sent, Chain(m, l)) && WellFormed(t)
            && Query(t, g, l, WORLD, 0) == Some(ProductOver(g, last.world, last.sent, Chain(m, l)))
  {
    hide Proper, IsGroup, IsWalk, Lists, Hangs, Names, Pose, ProductOver, Ascends, Chain, Covers, Stream, Fed,
         MessagesOf;
    var last := ps[|ps| - 1];
    PublishedStream(m, order, ps);
    assert Issue(m, order, last);
    var n := ProperDepth(m, l);
    var i := PoseIsProduct(m, g, last.world, last.sent, order, last.tf, l, n);
    LatestPose(WORLD, d, MessagesOf(ps), g, i);
  }

  /** And at the stamp of any earlier publication that the buffers still hold, of what was sent then. */
  lemma PastKinematics<T(!new)>(m: Model<T>, g: Algebra<T>, order: seq<string>, ps: seq<Publication<T>>, d: int,
                                l: string, k: nat)
    requires Proper(m) && IsGroup(g) && IsWalk(m, order) && l in m.links
    requires Published(m, order, ps) && forall i, j :: 0 <= i < j < |ps| ==> ps[i].stamp < ps[j].stamp
    requires k < |ps| && Remembered(StampsOf(ps), d, k) && ps[k].stamp != 0
    ensures var t := Fed(WORLD, d, MessagesOf(ps));
            && Ascends(m, l) && Covers(ps[k].sent, Chain(m, l)) && WellFormed(t)
            && Query(t, g, l, WORLD, ps[k].stamp) == Some(ProductOver(g, ps[k].world, ps[k].sent, Chain(m, l)))
  {
    hide Proper, IsGroup, IsWalk, Lists, Hangs, Names, Pose, ProductOver, Ascends, Chain, Covers, Stream, Fed,
         MessagesOf, StampsOf;
    PublishedStream(m, order, ps);
    assert forall i :: 0 <= i < |ps| ==> Issue(m, order, ps[i]);
    var n := ProperDepth(m, l);
    var i := PoseIsProduct(m, g, ps[k].world, ps[k].sent, order, ps[k].tf, l, n);
    PastPose(WORLD, d, MessagesOf(ps), StampsOf(ps), g, k, i);
  }

  /** The publication that would have been made at a time between two. */
  ghost function Blended<T>(g: Algebra<T>, a: Publication<T>, b: Publication<T>, time: int): Publication<T>
    requires SameFrames(a.tf, b.tf) && a.sent.Keys == b.sent.Keys && a.stamp != b.stamp
  {
    Publication(time,
                Between(Sample(a.stamp, a.world), Sample(b.stamp, b.world), time, g.blend),
                map j | j in a.sent :: Between(Sample(a.stamp, a.sent[j]), Sample(b.stamp, b.sent[j]), time, g.blend),
                Midway(g, a.tf, b.tf, a.stamp, b.stamp, time))
  }

  /** All of it is blended by the part of the time between the two that has gone by. */
  lemma BlendedExact<T>(g: Algebra<T>, a: Publication<T>, b: Publication<T>, time: int) returns (ratio: real)
    requires SameFrames(a.tf, b.tf) && a.sent.Keys == b.sent.Keys && a.stamp < b.stamp
    ensures IsPart(ratio, a.stamp, b.stamp, time)
    ensures var p := Blended(g, a, b, time);
            && p.stamp == time && p.world == g.blend(a.world, b.world, ratio) && p.sent.Keys == a.sent.Keys
            && forall j :: j in a.sent ==> p.sent[j] == g.blend(a.sent[j], b.sent[j], ratio)
  {
    hide Between, SameFrames, Midway, IsPart;
    ratio := BetweenBlends(Sample(a.stamp, a.world), Sample(b.stamp, b.world), time, g.blend);
    forall j | j in a.sent
      ensures Blended(g, a, b, time).sent[j] == g.blend(a.sent[j], b.sent[j], ratio) {
      var same := BetweenBlends(Sample(a.stamp, a.sent[j]), Sample(b.stamp, b.sent[j]), time, g.blend);
      PartUnique(ratio, same, a.stamp, b.stamp, time);
    }
  }

  lemma IssuesAgree<T>(m: Model<T>, order: seq<string>, ps: seq<Publication<T>>, n: nat)
    requires Published(m, order, ps) && n + 1 < |ps|
    ensures SameFrames(ps[n].tf, ps[n + 1].tf) && ps[n].sent.Keys == ps[n + 1].sent.Keys == m.joints.Keys
  {
    hide Lists;
    assert Issue(m, order, ps[n]) && Issue(m, order, ps[n + 1]);
    ListsSameFrames(m, order, ps[n].world, ps[n].sent, ps[n].tf, ps[n + 1].world, ps[n + 1].sent, ps[n + 1].tf);
  }

  lemma BlendedLists<T>(m: Model<T>, g: Algebra<T>, order: seq<string>, a: Publication<T>, b: Publication<T>, time: int)
    requires Issue(m, order, a) && Issue(m, order, b) && a.stamp != b.stamp && SameFrames(a.tf, b.tf)
    ensures var p := Blended(g, a, b, time);
            Lists(m, p.world, p.sent, order, p.tf) && p.sent.Keys == m.joints.Keys
  {
    hide Between;
    var p := Blended(g, a, b, time);
    forall k | 0 <= k < |order|
      ensures order[k] in m.joints && order[k] in p.sent
      ensures p.tf[k + 1].frameId == m.joints[order[k]].parent
      ensures p.tf[k + 1].childFrameId == m.joints[order[k]].child
      ensures p.tf[k + 1].transform == p.sent[order[k]] {
      assert a.tf[k + 1].transform == a.sent[order[k]] && b.tf[k + 1].transform == b.sent[order[k]];
    }
  }

  /** Between two publications, a link's transform is the product over its chain of the blends of what was sent. */
  lemma BetweenKinematics<T(!new)>(m: Model<T>, g: Algebra<T>, order: seq<string>, ps: seq<Publication<T>>, d: int,
                                   l: string, k: nat, time: int)
    requires Proper(m) && IsGroup(g) && IsWalk(m, order) && l in m.links
    requires Published(m, order, ps) && forall i, j :: 0 <= i < j < |ps| ==> ps[i].stamp < ps[j].stamp
    requires k + 1 < |ps| && Remembered(StampsOf(ps), d, k) && ps[k].stamp < time < ps[k + 1].stamp && time != 0
    ensures SameFrames(ps[k].tf, ps[k + 1].tf) && ps[k].sent.Keys == ps[k + 1].sent.Keys
    ensures var t, p := Fed(WORLD, d, MessagesOf(ps)), Blended(g, ps[k], ps[k + 1], time);
            && Ascends(m, l) && Covers(p.sent, Chain(m, l)) && WellFormed(t)
            && Query(t, g, l, WORLD, time) == Some(ProductOver(g, p.world, p.sent, Chain(m, l)))
  {
    IssuesAgree(m, order, ps, k);
    hide Proper, IsGroup, IsWalk, Lists, Hangs, Names, Pose, ProductOver, Ascends, Chain, Covers, Stream, Fed,
         MessagesOf, StampsOf, Midway, Query, WellFormed, SameFrames, Between, Timed;
    var p := Blended(g, ps[k], ps[k + 1], time);
    PublishedStream(m, order, ps);
    PublishedTimed(m, order, ps);
    assert Issue(m, order, ps[k]) && Issue(m, order, ps[k + 1]);
    BlendedLists(m, g, order, ps[k], ps[k + 1], time);
    TransformsHang(m, p.world, p.sent, order, p.tf);
    var n := ProperDepth(m, l);
    var i := PoseIsProduct(m, g, p.world, p.sent, order, p.tf, l, n);
    SameLength(ps[k].tf, p.tf);
    BetweenPose(WORLD, d, MessagesOf(ps), StampsOf(ps), g, k, i, time);
  }

  lemma PublishedTimed<T>(m: Model<T>, order: seq<string>, ps: seq<Publication<T>>)
    requires Published(m, order, ps) && forall i, j :: 0 <= i < j < |ps| ==> ps[i].stamp < ps[j].stamp
    ensures Timed(MessagesOf(ps), StampsOf(ps))
  {
    hide Lists, AllStamped, MessagesOf, StampsOf;
    assert forall i :: 0 <= i < |ps| ==> Issue(m, order, ps[i]);
  }

  lemma SameLength<T>(a: seq<Stamped<T>>, b: seq<Stamped<T>>)
    requires SameFrames(a, b)
    ensures |a| == |b|
  {
  }

  lemma ProperDepth<T>(m: Model<T>, l: string) returns (n: nat)
    requires Proper(m) && l in m.links
    ensures AtDepth(m, l, n)
  {
    hide Consistent, Declared, SingleRoot, Acyclic;
    AllReachable(m, l);
    n :| AtDepth(m, l, n);
  }
}
