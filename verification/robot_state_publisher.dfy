/**
 The robot state publisher: each joint message updates the robot, and at most one in a period is answered
 with the robot's transforms. Stamps and periods are nanoseconds.
 */
module RobotStatePublishers {
  import opened Arithmetic
  import opened Common
  import opened TransformAlgebra
  import opened Samples
  import opened Joints
  import opened RobotStructure
  import opened RobotWalk
  import opened RobotModels
  import opened FrameTrees
  import opened Kinematics
  import opened LinkQueries
  import opened Republishing

  // ---------- The throttle as a state machine

  /** The stamp published last, 0 before the first, and the stamps published so far. */
  datatype Throttle = Throttle(last: int, published: seq<int>)

  predicate Passes(s: Throttle, stamp: int, period: int) {
    s.last == 0 || stamp - s.last >= period
  }

  function Step(s: Throttle, stamp: int, period: int): Throttle {
    if Passes(s, stamp, period) then Throttle(stamp, s.published + [stamp]) else s
  }

  function Run(stamps: seq<int>, period: int): Throttle {
    if stamps == [] then Throttle(0, []) else Step(Run(stamps[..|stamps| - 1], period), stamps[|stamps| - 1], period)
  }

  ghost predicate Spaced(p: seq<int>, period: int) {
    forall i :: 0 < i < |p| ==> p[i] - p[i - 1] >= period
  }

  ghost predicate Remembers(s: Throttle) {
    s.last == if s.published == [] then 0 else s.published[|s.published| - 1]
  }

  lemma {:induction false} RunRemembers(stamps: seq<int>, period: int)
    ensures Remembers(Run(stamps, period))
    ensures forall i :: 0 <= i < |Run(stamps, period).published| ==> Run(stamps, period).published[i] in stamps
  {
    if stamps != [] {
      var init := stamps[..|stamps| - 1];
      RunRemembers(init, period);
      assert forall x :: x in init ==> x in stamps;
    }
  }

  lemma SpacedSnoc(p: seq<int>, stamp: int, period: int)
    ensures Spaced(p + [stamp], period) <==> Spaced(p, period) && (p == [] || stamp - p[|p| - 1] >= period)
  {
    var q := p + [stamp];
    assert forall i :: 0 <= i < |p| ==> q[i] == p[i];
    if p != [] && Spaced(q, period) {
      assert q[|p|] - q[|p| - 1] >= period;
    }
    if Spaced(q, period) {
      forall i | 0 < i < |p| ensures p[i] - p[i - 1] >= period {
        assert q[i] - q[i - 1] >= period;
      }
    }
  }

  /**
   One callback keeps the published stamps a period apart, except exactly when the one before was published
   with stamp 0, which the code cannot tell from none, and the new stamp is less than a period.
   */
  lemma StepSpacedIff(s: Throttle, stamp: int, period: int)
    requires Remembers(s)
    ensures Spaced(Step(s, stamp, period).published, period)
            <==> Spaced(s.published, period) && (s.published == [] || s.last != 0 || stamp >= period)
  {
    if Passes(s, stamp, period) {
      SpacedSnoc(s.published, stamp, period);
    }
  }

  /** No message stamped less than a period comes while 0 is the stamp published last. */
  ghost predicate Guarded(stamps: seq<int>, period: int) {
    forall k :: 0 < k < |stamps| ==> Run(stamps[..k], period).last != 0 || stamps[k] >= period
  }

  /** Over a whole run, published stamps are a period apart exactly then, whatever order the messages come in. */
  lemma {:induction false} RunSpacedIff(stamps: seq<int>, period: int)
    ensures Spaced(Run(stamps, period).published, period) <==> Guarded(stamps, period)
  {
    hide Spaced, Step, Guarded;
    if stamps == [] {
      NothingPublished(period);
    } else {
      var n := |stamps| - 1;
      var init := stamps[..n];
      RunSpacedIff(init, period);
      RunRemembers(init, period);
      StepSpacedIff(Run(init, period), stamps[n], period);
      FirstPublished(init, period);
      GuardedSnoc(stamps, period);
    }
  }

  lemma GuardedSnoc(stamps: seq<int>, period: int)
    requires stamps != []
    ensures var n := |stamps| - 1;
            Guarded(stamps, period) <==>
              Guarded(stamps[..n], period) && (n == 0 || Run(stamps[..n], period).last != 0 || stamps[n] >= period)
  {
    hide Run;
    var n := |stamps| - 1;
    assert forall k :: 0 < k < n ==> stamps[..n][..k] == stamps[..k] && stamps[..n][k] == stamps[k];
  }

  lemma NothingPublished(period: int)
    ensures Run([], period).published == [] && Spaced([], period) && Guarded([], period)
  {
  }

  lemma {:induction false} FirstPublished(stamps: seq<int>, period: int)
    ensures Run(stamps, period).published == [] <==> stamps == []
  {
    if stamps != [] {
      RunRemembers(stamps[..|stamps| - 1], period);
      FirstPublished(stamps[..|stamps| - 1], period);
    }
  }

  /** Of stamps that are not negative only the first two matter: a 0 and then less than a period is what does harm. */
  lemma GuardedIff(stamps: seq<int>, period: int)
    requires period > 0 && forall i :: 0 <= i < |stamps| ==> stamps[i] >= 0
    ensures Guarded(stamps, period) <==> |stamps| < 2 || stamps[0] != 0 || stamps[1] >= period
  {
    hide Run;
    if |stamps| >= 2 {
      assert stamps[..1] == [stamps[0]];
      RunOfOne(stamps[0], period);
      if stamps[0] != 0 || stamps[1] >= period {
        forall k | 0 < k < |stamps| ensures Run(stamps[..k], period).last != 0 || stamps[k] >= period {
          if k > 1 || stamps[0] != 0 {
            LastPositive(stamps[..k], period);
          }
        }
      }
    }
  }

  lemma RunOfOne(stamp: int, period: int)
    ensures Run([stamp], period) == Throttle(stamp, [stamp])
  {
    assert [stamp][..0] == [];
  }

  lemma {:induction false} LastPositive(stamps: seq<int>, period: int)
    requires period > 0 && stamps != [] && forall i :: 0 <= i < |stamps| ==> stamps[i] >= 0
    requires stamps[0] != 0 || (|stamps| > 1 && stamps[1] >= period)
    ensures Run(stamps, period).last > 0
  {
    var n := |stamps| - 1;
    if n > 0 && (n > 1 || stamps[0] != 0) {
      LastPositive(stamps[..n], period);
    } else {
      RunOfOne(stamps[0], period);
      assert stamps[..1] == [stamps[0]];
    }
  }

  /** So a run without stamp 0 is spaced. */
  lemma RunSpaced(stamps: seq<int>, period: int)
    requires forall i :: 0 <= i < |stamps| ==> stamps[i] != 0
    ensures Guarded(stamps, period) && Spaced(Run(stamps, period).published, period)
  {
    hide Run;
    RunSpacedIff(stamps, period);
    forall k | 0 < k < |stamps| ensures Run(stamps[..k], period).last != 0 {
      RunRemembers(stamps[..k], period);
      FirstPublished(stamps[..k], period);
      assert forall x :: x in stamps[..k] ==> x in stamps;
    }
  }

  /** A stamp 0 in the stream breaks it: two messages one nanosecond apart are both published. */
  lemma ZeroStampUnthrottled(period: int)
    requires period > 1
    ensures !Spaced(Run([0, 1], period).published, period)
  {
    assert [0, 1][..1] == [0] && [0][..0] == [];
    assert Run([0], period) == Throttle(0, [0]);
    assert Run([0, 1], period).published == [0, 1];
  }

  // ---------- Which messages are answered, in terms of their stamps alone

  /** Every message between the two positions comes less than a period after the first of them, which is not stamped
      0. */
  ghost predicate HeldBack(stamps: seq<int>, period: int, from: nat, to: nat)
    requires from < to <= |stamps|
  {
    && (from + 1 < to ==> stamps[from] != 0)
    && (forall j :: from < j < to ==> stamps[j] - stamps[from] < period)
  }

  /**
   The positions of the messages that are answered. The first message is; after one that is, the next is the first
   that is a period or more later, or, after stamp 0, whichever comes next.
   */
  ghost predicate Picks(stamps: seq<int>, period: int, picks: seq<nat>) {
    && (forall n :: 0 <= n < |picks| ==> picks[n] < |stamps|)
    && (forall m, n :: 0 <= m < n < |picks| ==> picks[m] < picks[n])
    && (forall m, n :: 0 <= m < n < |picks| && n == m + 1 ==>
          && (stamps[picks[m]] == 0 || stamps[picks[n]] - stamps[picks[m]] >= period)
          && HeldBack(stamps, period, picks[m], picks[n]))
    && (stamps != [] ==>
          && picks != [] && picks[0] == 0 && HeldBack(stamps, period, picks[|picks| - 1], |stamps|))
  }

  /** Message k - 1 is the last that is answered. */
  ghost predicate IsLastPicked(stamps: seq<int>, period: int, k: nat) {
    exists picks :: Picks(stamps, period, picks) && picks != [] && k == picks[|picks| - 1] + 1
  }

  /** Every message after it is less than a period later. */
  lemma NonePickedAfter(stamps: seq<int>, period: int, k: nat)
    requires IsLastPicked(stamps, period, k)
    ensures 0 < k <= |stamps|
    ensures k < |stamps| ==> stamps[k - 1] != 0
    ensures forall i :: k <= i < |stamps| ==> stamps[i] - stamps[k - 1] < period
  {
    var picks :| Picks(stamps, period, picks) && picks != [] && k == picks[|picks| - 1] + 1;
    var last := picks[|picks| - 1];
    assert last < |stamps| && HeldBack(stamps, period, last, |stamps|);
  }

  /** One more message. */
  lemma PicksSnoc(stamps: seq<int>, period: int, picks: seq<nat>, stamp: int)
    requires Picks(stamps, period, picks)
    ensures var due := picks == [] || stamps[picks[|picks| - 1]] == 0
                       || stamp - stamps[picks[|picks| - 1]] >= period;
            Picks(stamps + [stamp], period, if due then picks + [|stamps|] else picks)
  {
    if picks == [] {
      assert stamps == [];
      NoneBetween([stamp], period, 0);
    } else {
      PicksOn(stamps, period, picks, stamp);
    }
  }

  lemma PicksOn(stamps: seq<int>, period: int, picks: seq<nat>, stamp: int)
    requires Picks(stamps, period, picks) && picks != []
    ensures picks[|picks| - 1] < |stamps|
    ensures var last := stamps[picks[|picks| - 1]];
            if last == 0 || stamp - last >= period then Picks(stamps + [stamp], period, picks + [|stamps|])
            else Picks(stamps + [stamp], period, picks)
  {
    hide HeldBack;
    var all, last := stamps + [stamp], |picks| - 1;
    assert picks[last] < |stamps|;
    HeldSnoc(stamps, period, picks[last], |stamps|, stamp);
    forall n | 0 <= n < last ensures HeldBack(all, period, picks[n], picks[n + 1]) {
      assert picks[n] < picks[n + 1] < |stamps|;
      HeldSnoc(stamps, period, picks[n], picks[n + 1], stamp);
    }
    NoneBetween(all, period, |stamps|);
  }

  lemma HeldSnoc(stamps: seq<int>, period: int, from: nat, to: nat, stamp: int)
    requires from < to <= |stamps| && HeldBack(stamps, period, from, to)
    ensures HeldBack(stamps + [stamp], period, from, to)
    ensures to == |stamps| && stamps[from] != 0 && stamp - stamps[from] < period ==>
              HeldBack(stamps + [stamp], period, from, to + 1)
  {
    var all := stamps + [stamp];
    assert forall j :: from < j < to ==> all[j] == stamps[j];
    assert all[from] == stamps[from] && all[|stamps|] == stamp;
  }

  lemma NoneBetween(stamps: seq<int>, period: int, from: nat)
    requires from < |stamps|
    ensures HeldBack(stamps, period, from, from + 1)
  {
  }

  /** The messages that are answered are determined by the stamps. */
  lemma PicksUnique(stamps: seq<int>, period: int, a: seq<nat>, b: seq<nat>)
    requires Picks(stamps, period, a) && Picks(stamps, period, b)
    ensures a == b
  {
    hide Picks;
    PicksAgree(stamps, period, a, b, |a|);
    PicksAgree(stamps, period, b, a, |b|);
  }

  lemma {:induction false} PicksAgree(stamps: seq<int>, period: int, a: seq<nat>, b: seq<nat>, n: nat)
    requires Picks(stamps, period, a) && Picks(stamps, period, b) && n <= |a|
    ensures n <= |b| && a[..n] == b[..n]
  {
    if n > 1 {
      PicksAgree(stamps, period, a, b, n - 1);
      var last, next := a[n - 2], a[n - 1];
      assert last == a[..n - 1][n - 2] == b[..n - 1][n - 2] == b[n - 2];
      assert n - 1 < |b| ==> b[n - 2] < b[n - 1];
      assert n == |b| + 1 ==> HeldBack(stamps, period, last, |stamps|);
    }
  }

  /** The throttle publishes just those. */
  lemma {:induction false} RunPicks(stamps: seq<int>, period: int) returns (picks: seq<nat>)
    ensures Picks(stamps, period, picks)
    ensures Run(stamps, period).published == StampsAt(stamps, picks)
  {
    hide Picks;
    picks := [];
    if stamps == [] {
      NothingPicked(period);
    } else {
      var n := |stamps| - 1;
      var init, last := stamps[..n], stamps[n];
      assert init + [last] == stamps;
      picks := RunPicks(init, period);
      RunRemembers(init, period);
      FirstPublished(init, period);
      PicksInside(init, period, picks);
      PicksSnoc(init, period, picks, last);
      picks := if Passes(Run(init, period), last, period) then picks + [n] else picks;
    }
  }

  ghost function StampsAt(stamps: seq<int>, picks: seq<nat>): (p: seq<int>)
    requires forall n :: 0 <= n < |picks| ==> picks[n] < |stamps|
    ensures |p| == |picks|
  {
    seq(|picks|, n requires 0 <= n < |picks| => stamps[picks[n]])
  }

  lemma PicksInside(stamps: seq<int>, period: int, picks: seq<nat>)
    requires Picks(stamps, period, picks)
    ensures stamps == [] <==> picks == []
    ensures forall n :: 0 <= n < |picks| ==> picks[n] < |stamps|
  {
    assert picks != [] ==> picks[0] < |stamps|;
  }

  lemma NothingPicked(period: int)
    ensures Picks([], period, [])
  {
  }

  /** So what it remembers is the stamp of the message answered last. */
  lemma PicksMeanRun(stamps: seq<int>, period: int, picks: seq<nat>)
    requires Picks(stamps, period, picks)
    ensures stamps == [] <==> picks == []
    ensures forall n :: 0 <= n < |picks| ==> picks[n] < |stamps|
    ensures Run(stamps, period).published == StampsAt(stamps, picks)
    ensures Run(stamps, period).last == if picks == [] then 0 else stamps[picks[|picks| - 1]]
  {
    hide Picks, Run;
    var p := RunPicks(stamps, period);
    PicksUnique(stamps, period, p, picks);
    RunRemembers(stamps, period);
    PicksInside(stamps, period, picks);
  }

  /** A message at least a period after everything published is published. */
  lemma DueIsPublished(stamps: seq<int>, period: int, stamp: int)
    requires forall i :: 0 <= i < |Run(stamps, period).published| ==> stamp - Run(stamps, period).published[i] >= period
    ensures Run(stamps + [stamp], period).published == Run(stamps, period).published + [stamp]
  {
    hide Run;
    RunRemembers(stamps, period);
    OneMoreStamp(stamps, stamp, period);
  }

  /** Of stamps that do not decrease, none is a period or more after what was published up to it. */
  lemma {:induction false} NeverStale(stamps: seq<int>, period: int, i: nat) returns (n: nat)
    requires period > 0 && i < |stamps| && forall a, b :: 0 <= a < b < |stamps| ==> stamps[a] <= stamps[b]
    ensures n < |Run(stamps, period).published|
    ensures Run(stamps, period).published[n] <= stamps[i] < Run(stamps, period).published[n] + period
  {
    hide Run;
    var k := |stamps| - 1;
    var init := stamps[..k];
    assert init + [stamps[k]] == stamps;
    OneMoreStamp(init, stamps[k], period);
    if i < k {
      n := NeverStale(init, period, i);
    } else {
      LastNotLater(stamps, period);
      n := |Run(stamps, period).published| - 1;
      FreshAfterStep(init, stamps[k], period);
    }
  }

  lemma LastNotLater(stamps: seq<int>, period: int)
    requires stamps != [] && forall a, b :: 0 <= a < b < |stamps| ==> stamps[a] <= stamps[b]
    ensures var p := Run(stamps, period).published;
            p != [] && p[|p| - 1] <= stamps[|stamps| - 1]
  {
    hide Run;
    RunRemembers(stamps, period);
    FirstPublished(stamps, period);
    var p := Run(stamps, period).published;
    assert p[|p| - 1] in stamps;
  }

  lemma FreshAfterStep(stamps: seq<int>, stamp: int, period: int)
    requires period > 0
    ensures var p := Step(Run(stamps, period), stamp, period).published;
            p != [] && stamp < p[|p| - 1] + period
  {
    hide Run;
    RunRemembers(stamps, period);
  }

  lemma {:induction false} SpacedApart(p: seq<int>, period: int, i: nat, j: nat)
    requires Spaced(p, period) && i <= j < |p|
    ensures p[j] - p[i] >= (j - i) * period
  {
    if i < j {
      SpacedApart(p, period, i, j - 1);
      OnceMore(j - i, period);
    }
  }

  /** How many stamps of p lie between lo and hi. */
  ghost function Count(p: seq<int>, lo: int, hi: int): nat {
    if p == [] then 0 else Count(p[..|p| - 1], lo, hi) + if lo <= p[|p| - 1] <= hi then 1 else 0
  }

  /** Stamps a period apart use up the interval from its lower end. */
  lemma {:induction false} CountFits(p: seq<int>, period: int, lo: int, hi: int)
    requires Spaced(p, period) && period > 0 && Count(p, lo, hi) > 0
    ensures (Count(p, lo, hi) - 1) * period <= p[|p| - 1] - lo
    ensures (Count(p, lo, hi) - 1) * period <= hi - lo
  {
    var init, last := p[..|p| - 1], p[|p| - 1];
    var n := Count(init, lo, hi);
    if n > 0 {
      CountFits(init, period, lo, hi);
      assert last - init[|init| - 1] >= period;
      OnceMore(n, period);
      TimesGrows(0, n - 1, period);
    }
  }

  /** No interval of a given length sees more publications than fit into it a period apart. */
  lemma RateBound(stamps: seq<int>, period: int, from: int, length: nat)
    requires period > 0 && Guarded(stamps, period)
    ensures Count(Run(stamps, period).published, from, from + length) <= length / period + 1
  {
    hide Guarded, Run;
    var p := Run(stamps, period).published;
    var n := Count(p, from, from + length);
    RunSpacedIff(stamps, period);
    if n > 0 {
      CountFits(p, period, from, from + length);
      DivideBound(n - 1, length, period);
    }
  }

  /** A transform buffer fed by the publisher stays as short as its duration and the period allow. */
  lemma BufferBound<T(!new)>(stamps: seq<int>, period: int, writes: seq<Sample<T>>, d: int)
    requires period > 0 && d > 0 && Guarded(stamps, period)
    requires var p := Run(stamps, period).published;
             |writes| == |p| && forall i :: 0 <= i < |p| ==> writes[i].stamp == p[i]
    ensures |Replay(writes, d)| <= d / period + 1
  {
    hide Guarded, Run, Replay, Represents, Spaced;
    var p, r := Run(stamps, period).published, Replay(writes, d);
    RunSpacedIff(stamps, period);
    ReplayIsWindow(writes, d);
    if r != [] {
      var n := |r| - 1;
      forall k | 0 <= k <= n ensures r[k].stamp in p {
        Stored(r, writes, d, k);
      }
      Gaps(p, period, r, n);
      Stored(r, writes, d, 0);
      Stored(r, writes, d, n);
      DivideBound(n, d, period);
    }
  }

  lemma Stored<T(!new)>(r: seq<Sample<T>>, writes: seq<Sample<T>>, d: int, k: nat)
    requires Represents(r, writes, d) && k < |r|
    ensures exists i :: 0 <= i < |writes| && writes[i].stamp == r[k].stamp
    ensures d > 0 ==> r[|r| - 1].stamp - d <= r[k].stamp
  {
    WriteAt(r, k);
    var i := WriteExists(writes, r[k].stamp);
    WriteAt(r, |r| - 1);
    var j := WriteExists(writes, r[|r| - 1].stamp);
    assert InWindow(writes, d, r[k].stamp);
  }

  lemma {:induction false} Gaps<T>(p: seq<int>, period: int, r: seq<Sample<T>>, n: nat)
    requires Spaced(p, period) && period > 0 && Sorted(r) && n < |r|
    requires forall k :: 0 <= k < |r| ==> r[k].stamp in p
    ensures r[n].stamp - r[0].stamp >= n * period
  {
    if n > 0 {
      Gaps(p, period, r, n - 1);
      var i :| 0 <= i < |p| && p[i] == r[n - 1].stamp;
      var j :| 0 <= j < |p| && p[j] == r[n].stamp;
      if i < j {
        SpacedApart(p, period, i, j);
        TimesGrows(1, j - i, period);
      } else {
        SpacedApart(p, period, j, i);
        TimesGrows(0, i - j, period);
      }
      OnceMore(n, period);
    }
  }

  // ---------- The node

  /** The motions after all messages received so far, in order. */
  ghost function Received<T>(records: map<string, JointRecord<T>>, initial: map<string, Motion>,
                             inbox: seq<seq<JointState>>): map<string, Motion> {
    if inbox == [] then initial
    else SetAll(records, Received(records, initial, inbox[..|inbox| - 1]), inbox[|inbox| - 1])
  }

  /** Only the transforms of such a model are listed. */
  predicate IsListed<T>(m: Model<T>) {
    m.joints != map[] && m.links != map[] && m.root != ""
  }

  /** The publication shows the robot with its joints moved so. */
  ghost predicate ShowsRobot<T>(m: Model<T>, g: Algebra<T>, motions: map<string, Motion>, p: Publication<T>) {
    && p.sent == SentBy(g, m.joints, motions)
    && AllStamped(p.tf, p.stamp)
    && (IsListed(m) ==> exists order :: WalkOrder(m, order) && Lists(m, p.world, p.sent, order, p.tf))
  }

  /** These publications answer the messages at those positions, each with the robot as it then was. */
  ghost predicate Answers<T>(m: Model<T>, g: Algebra<T>, initial: map<string, Motion>, inbox: seq<seq<JointState>>,
                             stamps: seq<int>, picks: seq<nat>, ps: seq<Publication<T>>)
    requires |inbox| == |stamps|
  {
    && |ps| == |picks|
    && forall n :: 0 <= n < |ps| ==>
         && picks[n] < |stamps| && ps[n].stamp == stamps[picks[n]]
         && ShowsRobot(m, g, Received(m.joints, initial, inbox[..picks[n] + 1]), ps[n])
  }

  /** What has been published after these messages: one publication for each that is answered. */
  ghost predicate Broadcast<T>(m: Model<T>, g: Algebra<T>, initial: map<string, Motion>, period: int,
                               inbox: seq<seq<JointState>>, stamps: seq<int>, ps: seq<Publication<T>>)
    requires |inbox| == |stamps|
  {
    exists picks :: Picks(stamps, period, picks) && Answers(m, g, initial, inbox, stamps, picks, ps)
  }

  lemma OneMoreReceived<T>(records: map<string, JointRecord<T>>, initial: map<string, Motion>,
                           inbox: seq<seq<JointState>>, states: seq<JointState>)
    ensures Received(records, initial, inbox + [states]) == SetAll(records, Received(records, initial, inbox), states)
  {
    assert (inbox + [states])[..|inbox|] == inbox;
  }

  lemma OneMoreStamp(stamps: seq<int>, stamp: int, period: int)
    ensures Run(stamps + [stamp], period) == Step(Run(stamps, period), stamp, period)
  {
    assert (stamps + [stamp])[..|stamps|] == stamps;
  }

  lemma OneMoreBroadcast<T>(m: Model<T>, g: Algebra<T>, initial: map<string, Motion>, period: int,
                            inbox: seq<seq<JointState>>, stamps: seq<int>, ps: seq<Publication<T>>,
                            states: seq<JointState>, p: Publication<T>)
    requires |inbox| == |stamps| && Broadcast(m, g, initial, period, inbox, stamps, ps)
    requires Run(stamps, period).last == 0 || p.stamp - Run(stamps, period).last >= period
    requires ShowsRobot(m, g, SetAll(m.joints, Received(m.joints, initial, inbox), states), p)
    ensures Broadcast(m, g, initial, period, inbox + [states], stamps + [p.stamp], ps + [p])
  {
    hide ShowsRobot, Run, Picks, Received;
    var picks :| Picks(stamps, period, picks) && Answers(m, g, initial, inbox, stamps, picks, ps);
    PicksMeanRun(stamps, period, picks);
    PicksSnoc(stamps, period, picks, p.stamp);
    OneMoreReceived(m.joints, initial, inbox, states);
    AnswersMore(m, g, initial, inbox, stamps, picks, ps, states, p);
  }

  lemma AnswersMore<T>(m: Model<T>, g: Algebra<T>, initial: map<string, Motion>, inbox: seq<seq<JointState>>,
                       stamps: seq<int>, picks: seq<nat>, ps: seq<Publication<T>>, states: seq<JointState>,
                       p: Publication<T>)
    requires |inbox| == |stamps| && Answers(m, g, initial, inbox, stamps, picks, ps)
    requires ShowsRobot(m, g, Received(m.joints, initial, inbox + [states]), p)
    ensures Answers(m, g, initial, inbox + [states], stamps + [p.stamp], picks + [|stamps|], ps + [p])
  {
    hide ShowsRobot, Received;
    AnswersOn(m, g, initial, inbox, stamps, picks, ps, states, p.stamp);
    assert (inbox + [states])[..|inbox| + 1] == inbox + [states];
  }

  /** A further message does not touch the answers to the earlier ones. */
  lemma AnswersOn<T>(m: Model<T>, g: Algebra<T>, initial: map<string, Motion>, inbox: seq<seq<JointState>>,
                     stamps: seq<int>, picks: seq<nat>, ps: seq<Publication<T>>, states: seq<JointState>, stamp: int)
    requires |inbox| == |stamps| && Answers(m, g, initial, inbox, stamps, picks, ps)
    ensures Answers(m, g, initial, inbox + [states], stamps + [stamp], picks, ps)
  {
    hide ShowsRobot, Received;
    forall n | 0 <= n < |ps| ensures (inbox + [states])[..picks[n] + 1] == inbox[..picks[n] + 1] {
    }
  }

  lemma NoMoreBroadcast<T>(m: Model<T>, g: Algebra<T>, initial: map<string, Motion>, period: int,
                           inbox: seq<seq<JointState>>, stamps: seq<int>, ps: seq<Publication<T>>,
                           states: seq<JointState>, stamp: int)
    requires |inbox| == |stamps| && Broadcast(m, g, initial, period, inbox, stamps, ps)
    requires Run(stamps, period).last != 0 && stamp - Run(stamps, period).last < period
    ensures Broadcast(m, g, initial, period, inbox + [states], stamps + [stamp], ps)
  {
    hide ShowsRobot, Run, Picks, Received;
    var picks :| Picks(stamps, period, picks) && Answers(m, g, initial, inbox, stamps, picks, ps);
    PicksMeanRun(stamps, period, picks);
    PicksSnoc(stamps, period, picks, stamp);
    AnswersOn(m, g, initial, inbox, stamps, picks, ps, states, stamp);
  }

  lemma NothingBroadcast<T>(m: Model<T>, g: Algebra<T>, initial: map<string, Motion>, period: int,
                            ps: seq<Publication<T>>)
    ensures Broadcast(m, g, initial, period, [], [], ps) <==> ps == []
  {
    hide ShowsRobot, Received, Picks;
    NothingPicked(period);
    assert Answers<T>(m, g, initial, [], [], [], []);
    if Broadcast(m, g, initial, period, [], [], ps) {
      var picks :| Picks([], period, picks) && Answers(m, g, initial, [], [], picks, ps);
      PicksInside([], period, picks);
    }
  }

  // ---------- What a run of the node makes of a graph

  /** A run publishes the stamps that pass the throttle, and each time lists the robot in the one order of the walk. */
  lemma BroadcastPublished<T>(m: Model<T>, g: Algebra<T>, initial: map<string, Motion>, period: int,
                              inbox: seq<seq<JointState>>, stamps: seq<int>,
                              ps: seq<Publication<T>>, order: seq<string>)
    requires |inbox| == |stamps| && Broadcast(m, g, initial, period, inbox, stamps, ps)
    requires IsListed(m) && WalkOrder(m, order) && m.joints.Keys <= initial.Keys
    ensures StampsOf(ps) == Run(stamps, period).published
    ensures forall n :: 0 <= n < |ps| ==> Issue(m, order, ps[n])
  {
    hide WalkOrder, Lists, IsListed, AllStamped, Picks, Run, Received;
    var picks :| Picks(stamps, period, picks) && Answers(m, g, initial, inbox, stamps, picks, ps);
    PicksMeanRun(stamps, period, picks);
    forall n | 0 <= n < |ps| ensures Issue(m, order, ps[n]) {
      var o :| WalkOrder(m, o) && Lists(m, ps[n].world, ps[n].sent, o, ps[n].tf);
      WalkOrderUnique(m, o, order);
      ReceivedKeys(m.joints, initial, inbox[..picks[n] + 1]);
      assert ps[n].sent.Keys == m.joints.Keys;
    }
  }

  lemma {:induction false} ReceivedKeys<T>(records: map<string, JointRecord<T>>, initial: map<string, Motion>,
                                           inbox: seq<seq<JointState>>)
    requires records.Keys <= initial.Keys
    ensures records.Keys <= Received(records, initial, inbox).Keys
  {
    if inbox != [] {
      var before := inbox[..|inbox| - 1];
      ReceivedKeys(records, initial, before);
      SetAllKeys(records, Received(records, initial, before), inbox[|inbox| - 1]);
    }
  }

  /** The last publication shows the robot as it was after the last message that is answered. */
  lemma LastBroadcast<T>(m: Model<T>, g: Algebra<T>, initial: map<string, Motion>, period: int,
                         inbox: seq<seq<JointState>>, stamps: seq<int>, ps: seq<Publication<T>>)
    returns (k: nat)
    requires |inbox| == |stamps| && Broadcast(m, g, initial, period, inbox, stamps, ps) && inbox != []
    ensures 0 < k <= |inbox| && IsLastPicked(stamps, period, k) && ps != []
    ensures ps[|ps| - 1].sent == SentBy(g, m.joints, Received(m.joints, initial, inbox[..k]))
  {
    hide SentBy, Received, Picks;
    var picks :| Picks(stamps, period, picks) && Answers(m, g, initial, inbox, stamps, picks, ps);
    PicksInside(stamps, period, picks);
    k := picks[|picks| - 1] + 1;
  }

  /**
   After any run of callbacks that keeps its stamps a positive period apart, a graph fed with everything that was
   published answers for a link with the product, over the link's chain, of what the joints sent after the last
   message that is answered. Every later message comes less than a period after that one.
   */
  lemma NodeKinematics<T(!new)>(m: Model<T>, g: Algebra<T>, initial: map<string, Motion>, period: int,
                                inbox: seq<seq<JointState>>, stamps: seq<int>, ps: seq<Publication<T>>, d: int,
                                l: string)
    returns (k: nat)
    requires |inbox| == |stamps| && Broadcast(m, g, initial, period, inbox, stamps, ps) && inbox != []
    requires period > 0 && Guarded(stamps, period)
    requires Proper(m) && IsListed(m) && m.joints.Keys <= initial.Keys && IsGroup(g) && l in m.links
    ensures IsLastPicked(stamps, period, k) && ps != []
    ensures 0 < k <= |stamps| && forall i :: k <= i < |stamps| ==> stamps[i] - stamps[k - 1] < period
    ensures var sent, t := SentBy(g, m.joints, Received(m.joints, initial, inbox[..k])), Fed(WORLD, d, MessagesOf(ps));
            && Ascends(m, l) && Covers(sent, Chain(m, l)) && WellFormed(t)
            && Query(t, g, l, WORLD, 0) == Some(ProductOver(g, ps[|ps| - 1].world, sent, Chain(m, l)))
  {
    hide Proper, Broadcast, IsListed, WalkOrder, IsWalk, IsGroup, SentBy, Received, Fed, Query, Ascends, Chain, Covers,
         ProductOver, WellFormed, Lists;
    k := LastBroadcast(m, g, initial, period, inbox, stamps, ps);
    NonePickedAfter(stamps, period, k);
    var order := OneOrder(m);
    RunPublished(m, g, initial, period, inbox, stamps, ps, order);
    LiveKinematics(m, g, order, ps, d, l);
  }

  lemma OneOrder<T>(m: Model<T>) returns (order: seq<string>)
    requires Proper(m)
    ensures WalkOrder(m, order) && IsWalk(m, order)
  {
    hide Consistent, Declared, SingleRoot, Acyclic, IsWalk;
    WalkTerminates(m);
    var n: nat :| StackAfter(m, n) == [];
    order := OrderAfter(m, n);
    WalkOrderAt(m, n);
    WalkMeetsPromise(m, order);
  }

  lemma RunPublished<T>(m: Model<T>, g: Algebra<T>, initial: map<string, Motion>, period: int,
                        inbox: seq<seq<JointState>>, stamps: seq<int>, ps: seq<Publication<T>>, order: seq<string>)
    requires |inbox| == |stamps| && Broadcast(m, g, initial, period, inbox, stamps, ps)
    requires period > 0 && Guarded(stamps, period)
    requires IsListed(m) && WalkOrder(m, order) && m.joints.Keys <= initial.Keys
    ensures Published(m, order, ps) && forall i, j :: 0 <= i < j < |ps| ==> ps[i].stamp < ps[j].stamp
  {
    hide Broadcast, IsListed, WalkOrder, Issue;
    BroadcastPublished(m, g, initial, period, inbox, stamps, ps, order);
    RunSpacedIff(stamps, period);
    var p := Run(stamps, period).published;
    forall i, j | 0 <= i < j < |ps| ensures ps[i].stamp < ps[j].stamp {
      SpacedApart(p, period, i, j);
      TimesGrows(1, j - i, period);
      assert StampsOf(ps)[i] == p[i] && StampsOf(ps)[j] == p[j];
    }
  }

  /** The same for any earlier publication that the buffers still hold, asked for at its stamp. */
  lemma NodePast<T(!new)>(m: Model<T>, g: Algebra<T>, initial: map<string, Motion>, period: int,
                          inbox: seq<seq<JointState>>, stamps: seq<int>, ps: seq<Publication<T>>, d: int, l: string,
                          k: nat)
    requires |inbox| == |stamps| && Broadcast(m, g, initial, period, inbox, stamps, ps)
    requires period > 0 && Guarded(stamps, period)
    requires Proper(m) && IsListed(m) && m.joints.Keys <= initial.Keys && IsGroup(g) && l in m.links
    requires k < |ps| && Remembered(StampsOf(ps), d, k) && ps[k].stamp != 0
    ensures var t := Fed(WORLD, d, MessagesOf(ps));
            && Ascends(m, l) && Covers(ps[k].sent, Chain(m, l)) && WellFormed(t)
            && Query(t, g, l, WORLD, ps[k].stamp) == Some(ProductOver(g, ps[k].world, ps[k].sent, Chain(m, l)))
  {
    hide Proper, Broadcast, IsListed, WalkOrder, IsWalk, IsGroup, Fed, Query, Ascends, Chain, Covers, ProductOver,
         WellFormed, Lists;
    var order := OneOrder(m);
    RunPublished(m, g, initial, period, inbox, stamps, ps, order);
    PastKinematics(m, g, order, ps, d, l, k);
  }

  /** Between two links, the latest answer is the product down to the one and back up from the other. */
  lemma NodeLinks<T(!new)>(m: Model<T>, g: Algebra<T>, initial: map<string, Motion>, period: int,
                           inbox: seq<seq<JointState>>, stamps: seq<int>, ps: seq<Publication<T>>, d: int, a: string,
                           b: string)
    returns (k: nat)
    requires |inbox| == |stamps| && Broadcast(m, g, initial, period, inbox, stamps, ps) && inbox != []
    requires period > 0 && Guarded(stamps, period)
    requires Proper(m) && IsListed(m) && m.joints.Keys <= initial.Keys && IsGroup(g) && a in m.links && b in m.links
    ensures IsLastPicked(stamps, period, k) && ps != []
    ensures 0 < k <= |stamps| && forall i :: k <= i < |stamps| ==> stamps[i] - stamps[k - 1] < period
    ensures var sent, t := SentBy(g, m.joints, Received(m.joints, initial, inbox[..k])), Fed(WORLD, d, MessagesOf(ps));
            && Ascends(m, a) && Ascends(m, b) && Covers(sent, Chain(m, a)) && Covers(sent, Chain(m, b))
            && WellFormed(t) && Query(t, g, a, b, 0) == Some(Apart(g, sent, Chain(m, a), Chain(m, b)))
  {
    hide Proper, Broadcast, IsListed, WalkOrder, IsWalk, IsGroup, SentBy, Received, Fed, Query, Ascends, Chain, Covers,
         Apart, WellFormed, Lists;
    k := LastBroadcast(m, g, initial, period, inbox, stamps, ps);
    NonePickedAfter(stamps, period, k);
    var order := OneOrder(m);
    RunPublished(m, g, initial, period, inbox, stamps, ps, order);
    LiveLinks(m, g, order, ps, d, a, b);
  }

  /** And for any time between two publications that follow each other, of the blends of what was sent. */
  lemma NodeBetween<T(!new)>(m: Model<T>, g: Algebra<T>, initial: map<string, Motion>, period: int,
                             inbox: seq<seq<JointState>>, stamps: seq<int>, ps: seq<Publication<T>>, d: int, l: string,
                             k: nat, time: int)
    requires |inbox| == |stamps| && Broadcast(m, g, initial, period, inbox, stamps, ps)
    requires period > 0 && Guarded(stamps, period)
    requires Proper(m) && IsListed(m) && m.joints.Keys <= initial.Keys && IsGroup(g) && l in m.links
    requires k + 1 < |ps| && Remembered(StampsOf(ps), d, k) && ps[k].stamp < time < ps[k + 1].stamp && time != 0
    ensures SameFrames(ps[k].tf, ps[k + 1].tf) && ps[k].sent.Keys == ps[k + 1].sent.Keys
    ensures var t, p := Fed(WORLD, d, MessagesOf(ps)), Blended(g, ps[k], ps[k + 1], time);
            && Ascends(m, l) && Covers(p.sent, Chain(m, l)) && WellFormed(t)
            && Query(t, g, l, WORLD, time) == Some(ProductOver(g, p.world, p.sent, Chain(m, l)))
  {
    hide Proper, Broadcast, IsListed, WalkOrder, IsWalk, IsGroup, Fed, Query, Ascends, Chain, Covers, ProductOver,
         WellFormed, Lists, Blended;
    var order := OneOrder(m);
    RunPublished(m, g, initial, period, inbox, stamps, ps, order);
    BetweenKinematics(m, g, order, ps, d, l, k, time);
  }

  class RobotStatePublisher<T(!new)> {
    const robot: RobotModel<T>
    const period: int
    const ignoreTimestamps: bool
    var lastPublishTime: int
    // What has happened so far: the messages, the stamps they were judged by, and what was published.
    ghost var initial: map<string, Motion>
    ghost var inbox: seq<seq<JointState>>
    ghost var stamps: seq<int>
    ghost var sent: seq<Publication<T>>

    ghost predicate Valid()
      reads this, robot, robot.joints.Values
    {
      && (robot.IsValid() ==> NoLoops(robot.View()))
      && (forall name :: name in robot.joints ==> robot.joints[name].info.name == name)
      && |inbox| == |stamps| && lastPublishTime == Run(stamps, period).last
      && robot.joints.Keys <= initial.Keys
      && MotionsOf(robot.joints) == Received(RecordsOf(robot.joints), initial, inbox)
      && Broadcast(robot.View(), robot.algebra, initial, period, inbox, stamps, sent)
    }

    constructor (robot: RobotModel<T>, period: int, ignoreTimestamps: bool)
      requires robot.IsValid() ==> NoLoops(robot.View())
      requires forall name :: name in robot.joints ==> robot.joints[name].info.name == name
      ensures Valid() && lastPublishTime == 0 && inbox == [] && stamps == [] && sent == []
      ensures initial == MotionsOf(robot.joints)
      ensures this.robot == robot && this.period == period && this.ignoreTimestamps == ignoreTimestamps
    {
      hide NoLoops, RecordsOf, Broadcast;
      NothingBroadcast(robot.View(), robot.algebra, MotionsOf(robot.joints), period, []);
      this.robot := robot;
      this.period := period;
      this.ignoreTimestamps := ignoreTimestamps;
      lastPublishTime := 0;
      initial := MotionsOf(robot.joints);
      inbox := [];
      stamps := [];
      sent := [];
    }

    /**
     One joint message, with the time on the clock. Whatever is published shows the robot after every message
     so far, this one and the throttled ones included, and carries the stamp of the message.
     */
    method JointStateCallback(states: seq<JointState>, messageStamp: int, now: int)
      returns (tf: Option<seq<Stamped<T>>>)
      requires Valid()
      modifies this, robot.joints.Values
      ensures Valid() && robot.View() == old(robot.View()) && initial == old(initial)
      ensures var stamp := if ignoreTimestamps then now else messageStamp;
              && inbox == old(inbox) + [states] && stamps == old(stamps) + [stamp]
              && (tf.Some? <==> old(lastPublishTime) == 0 || stamp - old(lastPublishTime) >= period)
              && lastPublishTime == (if tf.Some? then stamp else old(lastPublishTime))
              && sent == old(sent) +
                         if tf.None? then [] else [Publication(stamp, robot.worldToRoot, robot.Sent(), tf.value)]
    {
      hide NoLoops, IsWalk, WalkOrder, Lists, SetAll, RecordsOf, MotionsOf, Received, Broadcast, ShowsRobot, Run,
           AllStamped, SentBy;
      var stamp := if ignoreTimestamps then now else messageStamp;
      ghost var m, ps := robot.View(), sent;
      ghost var before, judged := inbox, stamps;
      OneMoreReceived(m.joints, initial, inbox, states);
      OneMoreStamp(stamps, stamp, period);
      robot.SetStateAll(states);
      inbox := inbox + [states];
      stamps := stamps + [stamp];
      if lastPublishTime != 0 && stamp - lastPublishTime < period {
        NoMoreBroadcast(m, robot.algebra, initial, period, before, judged, ps, states, stamp);
        return None;
      }
      var listed := Announce(stamp, now);
      OneMoreBroadcast(m, robot.algebra, initial, period, before, judged, ps, states, sent[|ps|]);
      return Some(listed);
    }

    /** The part that publishes. */
    method Announce(stamp: int, now: int) returns (tf: seq<Stamped<T>>)
      requires robot.IsValid() ==> NoLoops(robot.View())
      modifies this`lastPublishTime, this`sent
      ensures lastPublishTime == stamp
      ensures sent == old(sent) + [Publication(stamp, robot.worldToRoot, robot.Sent(), tf)]
      ensures ShowsRobot(robot.View(), robot.algebra, MotionsOf(robot.joints), sent[|old(sent)|])
    {
      hide NoLoops, WalkOrder, Lists, RecordsOf, MotionsOf, ShowsRobot;
      ghost var order;
      lastPublishTime := stamp;
      tf, order := Transforms(stamp, now);
      ghost var p := Publication(stamp, robot.worldToRoot, robot.Sent(), tf);
      IsShown(robot, order, p);
      sent := sent + [p];
    }

    /** The robot's transforms, all with one stamp. */
    method Transforms(stamp: int, now: int) returns (tf: seq<Stamped<T>>, ghost order: seq<string>)
      requires robot.IsValid() ==> NoLoops(robot.View())
      ensures AllStamped(tf, stamp)
      ensures robot.IsValid() ==>
                WalkOrder(robot.View(), order) && Lists(robot.View(), robot.worldToRoot, robot.Sent(), order, tf)
    {
      hide NoLoops, IsWalk, WalkOrder, Lists, RecordsOf;
      tf, order := robot.GetTransforms(now);
      tf := Restamp(tf, stamp, robot.View(), robot.worldToRoot, robot.Sent(), order);
    }

    /** The loop that gives every transform the stamp of the publication. */
    method Restamp(listed: seq<Stamped<T>>, stamp: int, ghost m: Model<T>, ghost world: T, ghost sent: map<string, T>,
                   ghost order: seq<string>)
      returns (tf: seq<Stamped<T>>)
      ensures |tf| == |listed| && forall k :: 0 <= k < |tf| ==> tf[k] == listed[k].(stamp := stamp)
      ensures Lists(m, world, sent, order, listed) ==> Lists(m, world, sent, order, tf)
    {
      tf := listed;
      for i := 0 to |tf|
        invariant |tf| == |listed|
        invariant forall k :: 0 <= k < i ==> tf[k] == listed[k].(stamp := stamp)
        invariant forall k :: i <= k < |tf| ==> tf[k] == listed[k]
      {
        tf := tf[i := tf[i].(stamp := stamp)];
      }
    }
  }

  lemma IsShown<T(!new)>(robot: RobotModel<T>, order: seq<string>, p: Publication<T>)
    requires p.world == robot.worldToRoot && p.sent == robot.Sent() && AllStamped(p.tf, p.stamp)
    requires robot.IsValid() ==> WalkOrder(robot.View(), order) && Lists(robot.View(), p.world, p.sent, order, p.tf)
    ensures ShowsRobot(robot.View(), robot.algebra, MotionsOf(robot.joints), p)
  {
    hide WalkOrder, Lists;
    assert robot.View().joints.Keys == robot.joints.Keys;
    if IsListed(robot.View()) {
      assert robot.joints != map[];
    }
  }
}
