/**
 From a published list of transforms to the poses of its frames: what a fresh graph becomes, and why a
 robot's transforms give every link the product of the joints above it.
 */
module Kinematics {
  import opened Common
  import opened TransformAlgebra
  import opened Samples
  import opened Joints
  import opened RobotStructure
  import opened RobotWalk
  import opened FrameTrees

  // ---------- Lists that hang together

  /** Every entry introduces a new frame, under the root or under the frame of an earlier entry. */
  ghost predicate Hangs<T>(root: string, ms: seq<Stamped<T>>) {
    && (forall k :: 0 <= k < |ms| ==> ms[k].childFrameId != root)
    && (forall i, j :: 0 <= i < j < |ms| ==> ms[i].childFrameId != ms[j].childFrameId)
    && (forall k :: 0 <= k < |ms| ==> ms[k].frameId in Names(root, ms[..k]))
  }

  /** The root and then the frame of each entry. */
  ghost function Names<T>(root: string, ms: seq<Stamped<T>>): (names: seq<string>)
    ensures |names| == |ms| + 1 && names[0] == root
    ensures forall k :: 0 <= k < |ms| ==> names[k + 1] == ms[k].childFrameId
  {
    if ms == [] then [root] else Names(root, ms[..|ms| - 1]) + [ms[|ms| - 1].childFrameId]
  }

  lemma {:induction false} NamesPrefix<T>(root: string, ms: seq<Stamped<T>>, k: nat)
    requires k <= |ms|
    ensures Names(root, ms[..k]) == Names(root, ms)[..k + 1]
  {
    var names, cut := Names(root, ms), Names(root, ms[..k]);
    forall i | 0 <= i <= k ensures cut[i] == names[i] {
      if i > 0 {
        assert cut[i] == ms[..k][i - 1].childFrameId;
        assert names[i] == ms[i - 1].childFrameId;
      }
    }
  }

  /** The index of the frame that entry k hangs under. */
  ghost function Above<T>(root: string, ms: seq<Stamped<T>>, k: nat): (i: nat)
    requires Hangs(root, ms) && k < |ms|
    ensures i <= k
  {
    IndexOf(Names(root, ms[..k]), ms[k].frameId)
  }

  /** The pose of frame i, composed down from the root. */
  ghost function Pose<T>(root: string, ms: seq<Stamped<T>>, g: Algebra<T>, i: nat): T
    requires Hangs(root, ms) && i <= |ms|
    decreases i
  {
    if i == 0 then g.one else g.mul(Pose(root, ms, g, Above(root, ms, i - 1)), ms[i - 1].transform)
  }

  lemma NamesDistinct<T>(root: string, ms: seq<Stamped<T>>)
    requires Hangs(root, ms)
    ensures Distinct(Names(root, ms))
  {
    hide Names;
    var names := Names(root, ms);
    forall i, j | 0 <= i < j < |names| ensures names[i] != names[j] {
      assert names[j] == ms[j - 1].childFrameId;
      if i > 0 {
        assert names[i] == ms[i - 1].childFrameId;
      }
    }
  }

  lemma IndexUnique(names: seq<string>, i: nat)
    requires Distinct(names) && i < |names|
    ensures IndexOf(names, names[i]) == i
  {
  }

  lemma AboveIs<T>(root: string, ms: seq<Stamped<T>>, k: nat, i: nat)
    requires Hangs(root, ms) && k < |ms| && i <= |ms| && Names(root, ms)[i] == ms[k].frameId
    ensures Above(root, ms, k) == i
  {
    var a := Above(root, ms, k);
    NamesPrefix(root, ms, k);
    NamesDistinct(root, ms);
    assert Names(root, ms)[a] == Names(root, ms[..k])[a] == ms[k].frameId;
  }

  lemma HangsPrefix<T>(root: string, ms: seq<Stamped<T>>, k: nat)
    requires Hangs(root, ms) && k <= |ms|
    ensures Hangs(root, ms[..k])
  {
    forall i | 0 <= i < k ensures ms[..k][i].frameId in Names(root, ms[..k][..i]) {
      assert ms[..k][..i] == ms[..i];
    }
  }

  // ---------- The graph such a list builds

  lemma InsertFirst<T>(stamp: int, value: T, d: int)
    ensures Insert([], stamp, value, d) == [Sample(stamp, value)]
  {
    var r := Put([], stamp, value);
    assert r == [Sample(stamp, value)];
  }

  /** Each entry becomes one frame, with that entry as its only sample. */
  lemma {:induction false} BuiltTree<T>(root: string, d: int, ms: seq<Stamped<T>>)
    requires Hangs(root, ms)
    ensures var t := After(root, d, ms);
            && t.names == Names(root, ms) && t.duration == d
            && |t.parent| == |t.samples| == |ms| + 1 && t.parent[0] == -1 && t.samples[0] == []
            && (forall k :: 0 <= k < |ms| ==> t.parent[k + 1] == Above(root, ms, k))
            && (forall k :: 0 <= k < |ms| ==> t.samples[k + 1] == [Sample(ms[k].stamp, ms[k].transform)])
  {
    hide Names, Apply, Hangs;
    NamesSnoc(root, ms);
    if ms != [] {
      var n := |ms| - 1;
      var init, m := ms[..n], ms[n];
      HangsPrefix(root, ms, n);
      BuiltTree(root, d, init);
      NewChild(root, ms);
      ApplyNew(After(root, d, init), m);
      InsertFirst(m.stamp, m.transform, d);
      forall k | 0 <= k < n ensures Above(root, init, k) == Above(root, ms, k) {
        assert init[..k] == ms[..k];
      }
    }
  }

  lemma NamesSnoc<T>(root: string, ms: seq<Stamped<T>>)
    ensures Names(root, ms) == if ms == [] then [root] else Names(root, ms[..|ms| - 1]) + [ms[|ms| - 1].childFrameId]
  {
  }

  lemma NewChild<T>(root: string, ms: seq<Stamped<T>>)
    requires Hangs(root, ms) && ms != []
    ensures var n := |ms| - 1;
            ms[n].childFrameId !in Names(root, ms[..n]) && ms[n].frameId in Names(root, ms[..n])
  {
    var n := |ms| - 1;
    var names := Names(root, ms[..n]);
    forall i | 0 <= i <= n ensures names[i] != ms[n].childFrameId {
      if i > 0 {
        assert names[i] == ms[..n][i - 1].childFrameId;
      }
    }
  }

  lemma NextAccepted<T>(root: string, d: int, ms: seq<Stamped<T>>, k: nat)
    requires Hangs(root, ms) && k < |ms|
    ensures Apply(After(root, d, ms[..k]), ms[k]) == (After(root, d, ms[..k + 1]), true)
  {
    hide Names, Apply, Hangs, After;
    var done, next := ms[..k], ms[..k + 1];
    HangsPrefix(root, ms, k);
    HangsPrefix(root, ms, k + 1);
    assert next[..k] == done && next == done + [ms[k]];
    BuiltTree(root, d, done);
    NewChild(root, next);
    ApplyNew(After(root, d, done), ms[k]);
    AfterOneMore(root, d, done, ms[k]);
  }

  /** A fresh graph accepts the whole list. */
  lemma {:induction false} AllAccepted<T>(root: string, d: int, ms: seq<Stamped<T>>, k: nat)
    requires Hangs(root, ms) && k <= |ms|
    ensures ApplyAll(After(root, d, ms[..k]), ms[k..]) == (After(root, d, ms), true)
    decreases |ms| - k
  {
    hide Apply, Hangs, After;
    if k == |ms| {
      assert ms[..k] == ms;
    } else {
      NextAccepted(root, d, ms, k);
      AllAccepted(root, d, ms, k + 1);
      assert ms[k..][1..] == ms[k + 1..];
    }
  }

  /** In the graph it builds, the way down from the root to a frame is the frame's pose, at any time. */
  lemma {:induction false} FromRootIsPose<T(!new)>(root: string, d: int, ms: seq<Stamped<T>>, g: Algebra<T>, i: nat,
                                                   time: int)
    requires Hangs(root, ms) && i <= |ms|
    ensures WellFormed(After(root, d, ms)) && i < |After(root, d, ms).names|
    ensures FromRoot(After(root, d, ms), g, i, time) == Pose(root, ms, g, i)
    decreases i
  {
    hide Names, After, Hangs;
    var t := After(root, d, ms);
    AfterWellFormed(root, d, ms);
    BuiltTree(root, d, ms);
    if i > 0 {
      var a := Above(root, ms, i - 1);
      FromRootIsPose(root, d, ms, g, a, time);
      RootIsAncestor(t.parent, a);
      RootIsAncestor(t.parent, i);
      assert t.parent[i] == a;
      assert EdgeAt(t, g, i, time) == ms[i - 1].transform;
    }
  }

  /** So a query against the root answers with the pose. */
  lemma QueryIsPose<T(!new)>(root: string, d: int, ms: seq<Stamped<T>>, g: Algebra<T>, i: nat, time: int)
    requires Hangs(root, ms) && IsGroup(g) && i <= |ms|
    ensures WellFormed(After(root, d, ms))
    ensures Query(After(root, d, ms), g, Names(root, ms)[i], root, time) == Some(Pose(root, ms, g, i))
  {
    var t := After(root, d, ms);
    FromRootIsPose(root, d, ms, g, i, time);
    BuiltTree(root, d, ms);
    NamesDistinct(root, ms);
    IndexUnique(t.names, i);
    IndexUnique(t.names, 0);
    RootIsAncestor(t.parent, i);
    if i > 0 {
      RelativeToAncestor(t, g, i, 0, time);
      assert t.names[i] != t.names[0];
    }
  }

  // ---------- The transforms of a robot

  /** A robot whose links all hang from one root, and none of which is called like the world. */
  ghost predicate Proper<T>(m: Model<T>) {
    && Consistent(m) && Declared(m) && SingleRoot(m) && Acyclic(m)
    && m.root != "" && WORLD !in m.links
  }

  ghost predicate Publishes<T>(m: Model<T>, world: T, sent: map<string, T>, order: seq<string>, tf: seq<Stamped<T>>) {
    IsWalk(m, order) && Lists(m, world, sent, order, tf)
  }

  lemma JointEnds<T>(m: Model<T>, j: string)
    requires Proper(m) && j in m.joints
    ensures m.joints[j].child in m.links && m.joints[j].child != m.root && m.joints[j].child != WORLD
    ensures m.joints[j].parent in m.links && m.joints[j].parent != WORLD
    ensures m.links[m.joints[j].child].parent == j
  {
    JointDown(m, j);
    JointOwns(m, j, m.joints[j].child);
  }

  lemma SameChild<T>(m: Model<T>, i: string, j: string)
    requires Consistent(m) && i in m.joints && j in m.joints
    ensures m.joints[i].child == m.joints[j].child ==> i == j
  {
  }

  /** The walk's list hangs together under the world. */
  lemma TransformsHang<T>(m: Model<T>, world: T, sent: map<string, T>, order: seq<string>, tf: seq<Stamped<T>>)
    requires Proper(m) && Publishes(m, world, sent, order, tf)
    ensures Hangs(WORLD, tf)
  {
    hide Proper, Consistent, Names, ParentsFirst;
    ProperRoot(m);
    forall k | 0 <= k < |tf| ensures tf[k].childFrameId != WORLD {
      if k > 0 { JointEnds(m, order[k - 1]); }
    }
    forall i, j | 0 <= i < j < |tf| ensures tf[i].childFrameId != tf[j].childFrameId {
      JointEnds(m, order[j - 1]);
      if i > 0 {
        SameChild(m, order[i - 1], order[j - 1]);
      }
    }
    forall k | 0 <= k < |tf| ensures tf[k].frameId in Names(WORLD, tf[..k]) {
      EntryHangs(m, world, sent, order, tf, k);
    }
  }

  lemma EntryHangs<T>(m: Model<T>, world: T, sent: map<string, T>, order: seq<string>, tf: seq<Stamped<T>>, k: nat)
    requires Publishes(m, world, sent, order, tf) && k < |tf|
    ensures tf[k].frameId in Names(WORLD, tf[..k])
  {
    hide Names, Reachable;
    var names := Names(WORLD, tf[..k]);
    if k == 0 {
      assert names[0] == WORLD;
    } else {
      var parent := m.joints[order[k - 1]].parent;
      assert tf[k].frameId == parent;
      if parent == m.root {
        assert names[1] == tf[..k][0].childFrameId == parent;
      } else {
        var before := order[..k - 1];
        EndsExact(m, before, parent);
        var i :| 0 <= i < k - 1 && m.joints[before[i]].child == parent;
        assert tf[i + 1].childFrameId == m.joints[order[i]].child;
        assert names[i + 2] == tf[..k][i + 1].childFrameId;
      }
    }
  }

  lemma ProperRoot<T>(m: Model<T>)
    requires Proper(m)
    ensures Consistent(m) && m.root in m.links && m.root != "" && WORLD !in m.links
  {
  }

  ghost predicate Covers<T>(sent: map<string, T>, chain: seq<string>) {
    forall k :: 0 <= k < |chain| ==> chain[k] in sent
  }

  /** What was sent for the joints of a chain, multiplied down from a start. */
  ghost function ProductOver<T>(g: Algebra<T>, start: T, sent: map<string, T>, chain: seq<string>): T
    requires Covers(sent, chain)
  {
    if chain == [] then start
    else g.mul(ProductOver(g, start, sent, chain[..|chain| - 1]), sent[chain[|chain| - 1]])
  }

  lemma RootEntry<T>(m: Model<T>, world: T, sent: map<string, T>, order: seq<string>, tf: seq<Stamped<T>>)
    requires Publishes(m, world, sent, order, tf)
    ensures tf != [] && tf[0].frameId == WORLD && tf[0].childFrameId == m.root && tf[0].transform == world
  {
  }

  /** The entry of a joint below a reachable link. */
  lemma EntryOf<T>(m: Model<T>, world: T, sent: map<string, T>, order: seq<string>, tf: seq<Stamped<T>>, j: string)
      returns (k: nat)
    requires Publishes(m, world, sent, order, tf) && j in m.joints && Reachable(m, m.joints[j].parent)
    ensures 0 < k < |tf| && k <= |order| && order[k - 1] == j && j in sent
    ensures tf[k].frameId == m.joints[j].parent && tf[k].childFrameId == m.joints[j].child && tf[k].transform == sent[j]
  {
    hide ParentsFirst, Distinct;
    var i :| 0 <= i < |order| && order[i] == j;
    k := i + 1;
  }

  /** A link n joints below the root is a frame whose pose is the product over its chain. */
  lemma {:induction false} PoseIsProduct<T(!new)>(m: Model<T>, g: Algebra<T>, world: T, sent: map<string, T>,
                                                  order: seq<string>, tf: seq<Stamped<T>>, l: string, n: nat)
      returns (i: nat)
    requires Proper(m) && IsGroup(g) && Publishes(m, world, sent, order, tf) && AtDepth(m, l, n)
    requires sent.Keys == m.joints.Keys && Hangs(WORLD, tf)
    ensures Ascends(m, l) && Covers(sent, Chain(m, l))
    ensures 0 < i <= |tf| && Names(WORLD, tf)[i] == l
    ensures Pose(WORLD, tf, g, i) == ProductOver(g, world, sent, Chain(m, l))
    decreases n
  {
    hide Consistent, Proper, Names, Hangs, Ascends, Reachable, Pose, ProductOver, Chain, IsGroup, Covers, Publishes,
         AtDepth;
    ProperRoot(m);
    DepthUp(m, l, n);
    DepthIsChainLength(m, l, n);
    ChainStep(m, l);
    if n == 0 {
      i := 1;
      RootEntry(m, world, sent, order, tf);
      AboveIs(WORLD, tf, 0, 0);
      RootPose(tf, g);
      ProductOfNone(g, world, sent, Chain(m, l));
    } else {
      var p := m.links[l].parent;
      var above := m.joints[p].parent;
      var a := PoseIsProduct(m, g, world, sent, order, tf, above, n - 1);
      ReachableAt(m, above, n - 1);
      var k := EntryOf(m, world, sent, order, tf, p);
      i := k + 1;
      AboveIs(WORLD, tf, k, a);
      PoseStep(WORLD, tf, g, i);
      ProductStep(g, world, sent, Chain(m, above), p);
    }
  }

  lemma DepthUp<T>(m: Model<T>, l: string, n: nat)
    requires Consistent(m) && m.root != "" && AtDepth(m, l, n)
    ensures l in m.links && (n == 0 ==> l == m.root && m.links[l].parent == "")
    ensures n > 0 ==>
              && m.links[l].parent in m.joints && m.links[l].parent != ""
              && m.joints[m.links[l].parent].child == l
              && AtDepth(m, m.joints[m.links[l].parent].parent, n - 1)
  {
    hide Consistent;
    RootParent(m);
    if n > 0 {
      JointNotEmpty(m, l);
      OwnerOf(m, l);
    }
  }

  lemma RootParent<T>(m: Model<T>)
    requires Consistent(m) && m.root != ""
    ensures m.root in m.links && m.links[m.root].parent == ""
  {
  }

  lemma RootPose<T(!new)>(tf: seq<Stamped<T>>, g: Algebra<T>)
    requires Hangs(WORLD, tf) && IsGroup(g) && tf != [] && Above(WORLD, tf, 0) == 0
    ensures Pose(WORLD, tf, g, 1) == tf[0].transform
  {
  }

  lemma PoseStep<T>(root: string, ms: seq<Stamped<T>>, g: Algebra<T>, i: nat)
    requires Hangs(root, ms) && 0 < i <= |ms|
    ensures Pose(root, ms, g, i) == g.mul(Pose(root, ms, g, Above(root, ms, i - 1)), ms[i - 1].transform)
  {
  }

  lemma ProductOfNone<T>(g: Algebra<T>, start: T, sent: map<string, T>, chain: seq<string>)
    requires chain == []
    ensures Covers(sent, chain) && ProductOver(g, start, sent, chain) == start
  {
  }

  lemma ProductStep<T>(g: Algebra<T>, start: T, sent: map<string, T>, chain: seq<string>, j: string)
    requires Covers(sent, chain) && j in sent
    ensures Covers(sent, chain + [j])
    ensures ProductOver(g, start, sent, chain + [j]) == g.mul(ProductOver(g, start, sent, chain), sent[j])
  {
    assert (chain + [j])[..|chain|] == chain;
  }

  lemma ReachableAt<T>(m: Model<T>, l: string, n: nat)
    requires AtDepth(m, l, n)
    ensures Reachable(m, l)
  {
  }

  lemma JointNotEmpty<T>(m: Model<T>, l: string)
    requires Consistent(m) && l in m.links && m.links[l].parent in m.joints
    ensures m.links[l].parent != ""
  {
  }

  /**
   End to end: a fresh graph called "world" accepts a robot's transforms, and from then on the transform of
   any link against the world, at any time, is the world-to-root transform times the ordered product of what
   was sent for the joints in the link's chain.
   */
  lemma EndToEnd<T(!new)>(m: Model<T>, g: Algebra<T>, world: T, sent: map<string, T>, order: seq<string>,
                          tf: seq<Stamped<T>>, d: int, l: string, time: int)
    requires Proper(m) && IsGroup(g) && Publishes(m, world, sent, order, tf)
    requires sent.Keys == m.joints.Keys && l in m.links
    ensures Ascends(m, l) && Covers(sent, Chain(m, l))
    ensures var (t, ok) := ApplyAll(Fresh(WORLD, d), tf);
            && ok && WellFormed(t)
            && Query(t, g, l, WORLD, time) == Some(ProductOver(g, world, sent, Chain(m, l)))
  {
    hide Consistent, Declared, SingleRoot, Acyclic, Ascends, Chain;
    AllReachable(m, l);
    var n: nat :| AtDepth(m, l, n);
    TransformsHang(m, world, sent, order, tf);
    var i := PoseIsProduct(m, g, world, sent, order, tf, l, n);
    QueryIsPose(WORLD, d, tf, g, i, time);
    AllAccepted(WORLD, d, tf, 0);
  }

  /** The leaves of the graph built from a robot are its end effectors. */
  lemma LeavesAreEndEffectors<T(!new)>(m: Model<T>, world: T, sent: map<string, T>, order: seq<string>,
                                       tf: seq<Stamped<T>>, d: int, name: string)
    requires Proper(m) && Publishes(m, world, sent, order, tf)
    ensures var t := ApplyAll(Fresh(WORLD, d), tf).0;
            && WellFormed(t)
            && (name in Leaves(t, |t.names|) <==> name in m.links && m.links[name].IsEndEffector())
            && Distinct(Leaves(t, |t.names|))
  {
    hide Consistent, Proper, Declared, SingleRoot, Acyclic, Hangs;
    var t := After(WORLD, d, tf);
    TransformsHang(m, world, sent, order, tf);
    AllAccepted(WORLD, d, tf, 0);
    assert tf[..0] == [] && tf[0..] == tf;
    AfterWellFormed(WORLD, d, tf);
    BuiltTree(WORLD, d, tf);
    LeavesExact(t, |t.names|, name);
    if name in m.links {
      var i := FrameOfLink(m, world, sent, order, tf, name);
      LeafIffEffector(m, world, sent, order, tf, d, name, i);
      NamesDistinct(WORLD, tf);
    } else {
      forall i | 0 < i <= |tf| ensures t.names[i] in m.links {
        ProperRoot(m);
        if i > 1 { JointEnds(m, order[i - 2]); }
      }
    }
  }

  lemma FrameOfLink<T>(m: Model<T>, world: T, sent: map<string, T>, order: seq<string>, tf: seq<Stamped<T>>,
                       l: string) returns (i: nat)
    requires Proper(m) && Publishes(m, world, sent, order, tf) && l in m.links
    ensures 0 < i <= |tf| && Names(WORLD, tf)[i] == l
  {
    hide Consistent, Proper;
    ProperRoot(m);
    if l == m.root {
      i := 1;
      RootEntry(m, world, sent, order, tf);
    } else {
      ProperAbove(m, l);
      var k := EntryOf(m, world, sent, order, tf, m.links[l].parent);
      i := k + 1;
      assert Names(WORLD, tf)[i] == tf[i - 1].childFrameId;
    }
  }

  lemma ProperAbove<T>(m: Model<T>, l: string)
    requires Proper(m) && l in m.links && l != m.root
    ensures m.links[l].parent in m.joints && m.joints[m.links[l].parent].child == l
    ensures Reachable(m, m.joints[m.links[l].parent].parent)
  {
    hide Consistent, Acyclic, Declared;
    LinkUp(m, l);
    JointDown(m, m.links[l].parent);
    AllReachable(m, m.joints[m.links[l].parent].parent);
  }

  lemma LeafIffEffector<T>(m: Model<T>, world: T, sent: map<string, T>, order: seq<string>, tf: seq<Stamped<T>>,
                           d: int, l: string, i: nat)
    requires Proper(m) && Publishes(m, world, sent, order, tf) && Hangs(WORLD, tf) && l in m.links
    requires 0 < i <= |tf| && Names(WORLD, tf)[i] == l
    ensures IsLeaf(After(WORLD, d, tf), i) <==> m.links[l].IsEndEffector()
  {
    hide Consistent, Proper, Declared, SingleRoot, Acyclic, Hangs;
    var t := After(WORLD, d, tf);
    BuiltTree(WORLD, d, tf);
    ProperRoot(m);
    ChildrenAre(m, l);
    if m.links[l].children != [] {
      var j := m.links[l].children[0];
      assert j in m.links[l].children;
      ProperReachable(m, l);
      var k := EntryOf(m, world, sent, order, tf, j);
      AboveIs(WORLD, tf, k, i);
      assert t.parent[k + 1] == i;
    } else {
      forall k | 0 <= k < |t.parent| ensures t.parent[k] != i {
        if k > 0 {
          AboveNames(WORLD, tf, k - 1);
          if k > 1 {
            assert tf[k - 1].frameId == m.joints[order[k - 2]].parent;
            assert order[k - 2] !in m.links[l].children;
          }
        }
      }
    }
  }

  lemma AboveNames<T>(root: string, ms: seq<Stamped<T>>, k: nat)
    requires Hangs(root, ms) && k < |ms|
    ensures Names(root, ms)[Above(root, ms, k)] == Names(root, ms[..k])[Above(root, ms, k)] == ms[k].frameId
  {
    NamesPrefix(root, ms, k);
  }

  lemma ProperReachable<T>(m: Model<T>, l: string)
    requires Proper(m) && l in m.links
    ensures Reachable(m, l)
  {
    AllReachable(m, l);
  }

  /**
   A description is proper when its joints have distinct, non-empty names and distinct ends, all their links
   are declared, none is called like the world, there is one link more than joints, and no cycle.
   */
  lemma ParsedProper<T>(js: seq<JointRecord<T>>, ls: seq<string>)
    requires ProperNames(js) && DistinctChildren(js)
    requires forall a :: 0 <= a < |js| ==> js[a].parent in ls && js[a].child in ls
    requires WORLD !in ls && RootOf(js, ls) != "" && Acyclic(Parsed(js, ls))
    requires |LinkMap(js, ls).Keys| == |JointMap(js).Keys| + 1
    ensures Proper(Parsed(js, ls))
  {
    hide Consistent, JointMap, LinkMap, RootOf, Acyclic, SingleRoot;
    var m := Parsed(js, ls);
    ParsedConsistent(js, ls);
    forall j | j in m.joints ensures m.joints[j].parent in m.links && m.joints[j].child in m.links {
      JointMapExact(js, j);
      LinkMapExact(js, ls, m.joints[j].parent);
      LinkMapExact(js, ls, m.joints[j].child);
    }
    LinkMapExact(js, ls, WORLD);
    CountsGiveSingleRoot(m);
  }

  /** There are such robots: two links and a joint between them. */
  lemma ProperExists<T>(origin: T)
    ensures Proper(Parsed([Named("j", "base", "tip", origin)], ["base", "tip"]))
  {
    hide Proper, Consistent, Declared, SingleRoot;
    var js, ls := [Named("j", "base", "tip", origin)], ["base", "tip"];
    var m := Parsed(js, ls);
    assert js[..0] == [] && ls[..1] == ["base"] && ls[..1][..0] == [];
    assert JointMap(js) == map["j" := js[0]];
    ParentMapExact(js, "base");
    ParentMapExact(js, "tip");
    assert js[0].child == "tip" && |"tip"| != |"base"|;
    assert MakeLink(js, "base").parent == "" && MakeLink(js, "tip").parent == "j";
    assert RootOf(js, ls[..1]) == "base" && RootOf(js, ls) == "base";
    forall l ensures l in LinkMap(js, ls) <==> l == "base" || l == "tip" {
      LinkMapExact(js, ls, l);
      assert l in ls <==> l == ls[0] || l == ls[1];
    }
    assert LinkMap(js, ls).Keys == {"base", "tip"} && JointMap(js).Keys == {"j"};
    var rank: map<string, nat> := map["base" := 0, "tip" := 1];
    assert Ranks(m, rank);
    assert Acyclic(m);
    ParsedProper(js, ls);
  }
}
