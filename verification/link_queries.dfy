/**
 Queries between two links of a robot: the joints below the point where their chains part, down to one, against those
 down to the other.
 */
module LinkQueries {
  import opened Common
  import opened TransformAlgebra
  import opened RobotStructure
  import opened RobotWalk
  import opened FrameTrees
  import opened Samples
  import opened Kinematics
  import opened Republishing

  /** How many joints two chains have in common, from the top. */
  ghost function Shared(a: seq<string>, b: seq<string>): (k: nat)
    ensures k <= |a| && k <= |b| && a[..k] == b[..k]
    ensures k < |a| && k < |b| ==> a[k] != b[k]
  {
    if a == [] || b == [] || a[0] != b[0] then 0
    else
      var k := Shared(a[1..], b[1..]);
      OneMoreShared(a, b, k);
      k + 1
  }

  lemma OneMoreShared(a: seq<string>, b: seq<string>, k: nat)
    requires k < |a| && k < |b| && a[0] == b[0] && a[1..][..k] == b[1..][..k]
    ensures a[..k + 1] == b[..k + 1]
  {
    assert a[..k + 1] == [a[0]] + a[1..][..k];
    assert b[..k + 1] == [b[0]] + b[1..][..k];
  }

  /** The product of what is sent for a chain. */
  ghost function Along<T>(g: Algebra<T>, sent: map<string, T>, chain: seq<string>): T
    requires Covers(sent, chain)
  {
    ProductOver(g, g.one, sent, chain)
  }

  /** Down to a from where the chains part, and back up from b. */
  ghost function Apart<T>(g: Algebra<T>, sent: map<string, T>, a: seq<string>, b: seq<string>): T
    requires Covers(sent, a) && Covers(sent, b)
  {
    var k := Shared(a, b);
    g.mul(Along(g, sent, a[k..]), g.inv(Along(g, sent, b[k..])))
  }

  lemma {:induction false} WithinShared(a: seq<string>, b: seq<string>, u: nat)
    requires u <= |a| && u <= |b| && a[..u] == b[..u]
    ensures u <= Shared(a, b)
  {
    if u > 0 {
      assert a[0] == a[..u][0] == b[..u][0] == b[0];
      assert a[1..][..u - 1] == a[..u][1..] && b[1..][..u - 1] == b[..u][1..];
      WithinShared(a[1..], b[1..], u - 1);
    }
  }

  lemma CutsAgree(a: seq<string>, b: seq<string>, u: nat, v: nat)
    requires u <= |a| && v <= |b| && a[..u] == b[..v]
    ensures u == v && u <= Shared(a, b)
  {
    assert u == |a[..u]| && v == |b[..v]|;
    WithinShared(a, b, u);
  }

  lemma CutTwice(a: seq<string>, k: nat, u: nat)
    requires u <= k <= |a|
    ensures a[..k][..u] == a[..u]
  {
  }

  // ---------- Links as frames

  /** A list of a robot's transforms, in a tree whose edges answer with them. */
  ghost predicate Stands<T(!new)>(m: Model<T>, g: Algebra<T>, world: T, sent: map<string, T>, order: seq<string>,
                                  tf: seq<Stamped<T>>, t: Tree<T>, time: int) {
    && Proper(m) && IsGroup(g) && Publishes(m, world, sent, order, tf) && sent.Keys == m.joints.Keys
    && Shaped(t, WORLD, tf) && |t.names| == |tf| + 1 && ShowsAt(t, g, tf, time)
  }

  ghost function FrameOf<T>(t: Tree<T>, l: string): int {
    IndexOf(t.names, l)
  }

  /** The frame of a link is the frame of its name, under the frame of the link above it or, for the root, the world. */
  lemma LinkFrame<T(!new)>(m: Model<T>, g: Algebra<T>, world: T, sent: map<string, T>, order: seq<string>,
                           tf: seq<Stamped<T>>, t: Tree<T>, time: int, l: string)
    requires Stands(m, g, world, sent, order, tf, t, time) && l in m.links
    ensures WellFormed(t) && 0 < FrameOf(t, l) < |t.names| && t.names[FrameOf(t, l)] == l
    ensures l == m.root ==> t.parent[FrameOf(t, l)] == 0
    ensures l != m.root ==>
              && m.links[l].parent in m.joints && m.joints[m.links[l].parent].parent in m.links
              && t.parent[FrameOf(t, l)] == FrameOf(t, m.joints[m.links[l].parent].parent)
              && EdgeAt(t, g, FrameOf(t, l), time) == sent[m.links[l].parent]
  {
    hide Proper, Consistent, Names, Hangs, IsGroup, EdgeAt, IsWalk;
    NamesDistinct(WORLD, tf);
    var i := FrameOfLink(m, world, sent, order, tf, l);
    IndexUnique(t.names, i);
    if l == m.root {
      RootEntry(m, world, sent, order, tf);
      assert Names(WORLD, tf)[1] == tf[0].childFrameId;
      IndexUnique(t.names, 1);
      AboveIs(WORLD, tf, 0, 0);
      assert t.parent[0 + 1] == 0;
    } else {
      ProperAbove(m, l);
      var j := m.links[l].parent;
      var up := m.joints[j].parent;
      JointEnds(m, j);
      var k := EntryOf(m, world, sent, order, tf, j);
      assert Names(WORLD, tf)[k + 1] == tf[k].childFrameId;
      IndexUnique(t.names, k + 1);
      var a := FrameOfLink(m, world, sent, order, tf, up);
      IndexUnique(t.names, a);
      AboveIs(WORLD, tf, k, a);
      assert t.parent[k + 1] == a;
      assert EdgeAt(t, g, k + 1, time) == tf[(k + 1) - 1].transform;
    }
  }

  /** The link reached by the first k joints of a chain. */
  ghost function LinkAt<T>(m: Model<T>, chain: seq<string>, k: nat): string
    requires k <= |chain| && forall i :: 0 <= i < |chain| ==> chain[i] in m.joints
  {
    if k == 0 then m.root else m.joints[chain[k - 1]].child
  }

  /** The chain of that link is the first part of the chain. */
  lemma {:induction false} ChainCut<T>(m: Model<T>, a: string, n: nat, k: nat)
    requires Consistent(m) && m.root != "" && AtDepth(m, a, n) && k <= n
    ensures Ascends(m, a) && |Chain(m, a)| == n && forall i :: 0 <= i < n ==> Chain(m, a)[i] in m.joints
    ensures var q := LinkAt(m, Chain(m, a), k);
            AtDepth(m, q, k) && Ascends(m, q) && Chain(m, q) == Chain(m, a)[..k]
    decreases n
  {
    hide Consistent, Ascends, Chain, AtDepth;
    DepthChain(m, a, n);
    var c := Chain(m, a);
    if k == n {
      assert c[..k] == c;
    } else {
      var up := m.joints[m.links[a].parent].parent;
      ChainCut(m, up, n - 1, k);
      assert c[..k] == Chain(m, up)[..k];
    }
  }

  /** That link is an ancestor, and the way down from it is the product over the rest of the chain. */
  lemma {:induction false} OnTheWay<T(!new)>(m: Model<T>, g: Algebra<T>, world: T, sent: map<string, T>,
                                             order: seq<string>, tf: seq<Stamped<T>>, t: Tree<T>, time: int, a: string,
                                             n: nat, k: nat)
    requires Stands(m, g, world, sent, order, tf, t, time) && AtDepth(m, a, n) && k <= n
    ensures Ascends(m, a) && |Chain(m, a)| == n && forall i :: 0 <= i < n ==> Chain(m, a)[i] in m.joints
    ensures var q := LinkAt(m, Chain(m, a), k);
            && WellFormed(t) && 0 < FrameOf(t, q) <= FrameOf(t, a) < |t.names|
            && Ancestor(t.parent, FrameOf(t, q), FrameOf(t, a))
            && Covers(sent, Chain(m, a)[k..])
            && Down(t, g, FrameOf(t, q), FrameOf(t, a), time) == Along(g, sent, Chain(m, a)[k..])
    decreases n
  {
    hide Proper, Consistent, IsGroup, Ascends, Chain, Stands, EdgeAt, WellFormed, Along, Down, Ancestor, AtDepth,
         FrameOf;
    StandsProper(m, g, world, sent, order, tf, t, time);
    DepthChain(m, a, n);
    LinkFrame(m, g, world, sent, order, tf, t, time, a);
    RootedTree(t);
    var c := Chain(m, a);
    if k == n {
      assert c[k..] == [];
      NoJoints(g, sent);
      DownSelf(t, g, FrameOf(t, a), time);
    } else {
      var p := m.links[a].parent;
      var up := m.joints[p].parent;
      OnTheWay(m, g, world, sent, order, tf, t, time, up, n - 1, k);
      RootNotBelow(m, a, n);
      SameLinkAt(m, c, Chain(m, up), k);
      assert c[k..] == Chain(m, up)[k..] + [p];
      OneJoint(g, sent, Chain(m, up)[k..], p);
      DownStep(t, g, FrameOf(t, LinkAt(m, c, k)), FrameOf(t, a), time);
    }
  }

  lemma StandsProper<T(!new)>(m: Model<T>, g: Algebra<T>, world: T, sent: map<string, T>, order: seq<string>,
                              tf: seq<Stamped<T>>, t: Tree<T>, time: int)
    requires Stands(m, g, world, sent, order, tf, t, time)
    ensures Proper(m) && Consistent(m) && m.root in m.links && m.root != "" && IsGroup(g) && WellFormed(t)
    ensures sent.Keys == m.joints.Keys
  {
    ProperRoot(m);
  }

  lemma RootedTree<T>(t: Tree<T>)
    requires WellFormed(t)
    ensures Rooted(t.parent) && |t.parent| == |t.names|
  {
  }

  lemma DownSelf<T>(t: Tree<T>, g: Algebra<T>, i: nat, time: int)
    requires WellFormed(t) && i < |t.names|
    ensures Ancestor(t.parent, i, i) && Down(t, g, i, i, time) == g.one
  {
  }

  lemma DownStep<T>(t: Tree<T>, g: Algebra<T>, q: nat, i: nat, time: int)
    requires WellFormed(t) && 0 < i < |t.names| && Ancestor(t.parent, q, t.parent[i])
    ensures q <= t.parent[i] < i && Ancestor(t.parent, q, i)
    ensures Down(t, g, q, i, time) == g.mul(Down(t, g, q, t.parent[i], time), EdgeAt(t, g, i, time))
  {
    AncestorBelow(t.parent, q, t.parent[i]);
  }

  lemma NoJoints<T>(g: Algebra<T>, sent: map<string, T>)
    ensures Covers(sent, []) && Along(g, sent, []) == g.one
  {
  }

  lemma OneJoint<T>(g: Algebra<T>, sent: map<string, T>, chain: seq<string>, j: string)
    requires Covers(sent, chain) && j in sent
    ensures Covers(sent, chain + [j]) && Along(g, sent, chain + [j]) == g.mul(Along(g, sent, chain), sent[j])
  {
    ProductStep(g, g.one, sent, chain, j);
  }

  /** The chain of a link n joints below the root. */
  lemma DepthChain<T>(m: Model<T>, a: string, n: nat)
    requires Consistent(m) && m.root != "" && AtDepth(m, a, n)
    ensures a in m.links && Ascends(m, a) && |Chain(m, a)| == n
    ensures forall i :: 0 <= i < n ==> Chain(m, a)[i] in m.joints
    ensures LinkAt(m, Chain(m, a), n) == a
    ensures n > 0 ==>
              && m.links[a].parent in m.joints && AtDepth(m, m.joints[m.links[a].parent].parent, n - 1)
              && Ascends(m, m.joints[m.links[a].parent].parent)
              && Chain(m, a) == Chain(m, m.joints[m.links[a].parent].parent) + [m.links[a].parent]
  {
    hide Ascends, Chain, Consistent;
    DepthIsChainLength(m, a, n);
    ChainLinked(m, a);
    if n > 0 {
      JointNotEmpty(m, a);
      ChainStep(m, a);
    }
  }

  lemma RootNotBelow<T>(m: Model<T>, a: string, n: nat)
    requires Consistent(m) && m.root != "" && AtDepth(m, a, n) && n > 0
    ensures a != m.root
  {
    JointNotEmpty(m, a);
  }

  /** Every ancestor of a link's frame but the world is the frame of a link on its chain. */
  lemma {:induction false} AncestorIsLink<T(!new)>(m: Model<T>, g: Algebra<T>, world: T, sent: map<string, T>,
                                                   order: seq<string>, tf: seq<Stamped<T>>, t: Tree<T>, time: int,
                                                   a: string, n: nat, c: nat)
    returns (k: nat)
    requires Stands(m, g, world, sent, order, tf, t, time) && AtDepth(m, a, n)
    requires WellFormed(t) && 0 < FrameOf(t, a) < |t.names| && Ancestor(t.parent, c, FrameOf(t, a)) && c > 0
    ensures Ascends(m, a) && k <= n == |Chain(m, a)| && forall i :: 0 <= i < n ==> Chain(m, a)[i] in m.joints
    ensures FrameOf(t, LinkAt(m, Chain(m, a), k)) == c
    decreases n
  {
    hide Proper, Consistent, IsGroup, Ascends, Chain, Stands, WellFormed, EdgeAt;
    StandsProper(m, g, world, sent, order, tf, t, time);
    DepthChain(m, a, n);
    LinkFrame(m, g, world, sent, order, tf, t, time, a);
    RootedTree(t);
    if c == FrameOf(t, a) {
      k := n;
    } else {
      RootHasNone(t, c);
      if n > 0 {
        RootNotBelow(m, a, n);
        LinkFrame(m, g, world, sent, order, tf, t, time, m.joints[m.links[a].parent].parent);
        k := AncestorIsLink(m, g, world, sent, order, tf, t, time, m.joints[m.links[a].parent].parent, n - 1, c);
      }
    }
  }

  lemma RootHasNone<T>(t: Tree<T>, c: nat)
    requires WellFormed(t) && c > 0
    ensures !Ancestor(t.parent, c, 0)
  {
  }

  /** Two links meet where their chains part. */
  lemma ForkMeets<T(!new)>(m: Model<T>, g: Algebra<T>, world: T, sent: map<string, T>, order: seq<string>,
                           tf: seq<Stamped<T>>, t: Tree<T>, time: int, a: string, n: nat, b: string, l: nat)
    requires Stands(m, g, world, sent, order, tf, t, time) && AtDepth(m, a, n) && AtDepth(m, b, l)
    ensures Ascends(m, a) && Ascends(m, b) && forall i :: 0 <= i < |Chain(m, a)| ==> Chain(m, a)[i] in m.joints
    ensures WellFormed(t) && 0 < FrameOf(t, a) < |t.names| && 0 < FrameOf(t, b) < |t.names|
    ensures Nearest(t.parent, FrameOf(t, a), FrameOf(t, b))
            == FrameOf(t, LinkAt(m, Chain(m, a), Shared(Chain(m, a), Chain(m, b))))
  {
    hide Proper, Consistent, IsGroup, Ascends, Chain, Stands, WellFormed, Along, Ancestor, Down, FrameOf, Shared;
    StandsProper(m, g, world, sent, order, tf, t, time);
    DepthChain(m, a, n);
    DepthChain(m, b, l);
    RootedTree(t);
    var k := Shared(Chain(m, a), Chain(m, b));
    OnTheWay(m, g, world, sent, order, tf, t, time, a, n, k);
    OnTheWay(m, g, world, sent, order, tf, t, time, b, l, k);
    OnTheWay(m, g, world, sent, order, tf, t, time, b, l, l);
    var i, j, q := FrameOf(t, a), FrameOf(t, b), FrameOf(t, LinkAt(m, Chain(m, a), k));
    SameLinkAt(m, Chain(m, a), Chain(m, b), k);
    forall c: nat | Ancestor(t.parent, c, i) && Ancestor(t.parent, c, j) ensures c <= q {
      if c > 0 {
        CommonAbove(m, g, world, sent, order, tf, t, time, a, n, b, l, c);
      }
    }
    NearestUnique(t.parent, i, j, q);
  }

  lemma SameLinkAt<T>(m: Model<T>, a: seq<string>, b: seq<string>, k: nat)
    requires k <= |a| && k <= |b| && a[..k] == b[..k]
    requires (forall i :: 0 <= i < |a| ==> a[i] in m.joints) && forall i :: 0 <= i < |b| ==> b[i] in m.joints
    ensures LinkAt(m, a, k) == LinkAt(m, b, k)
  {
    if k > 0 {
      assert a[..k][k - 1] == b[..k][k - 1];
    }
  }

  /** A common ancestor is on the shared part of the chains. */
  lemma CommonAbove<T(!new)>(m: Model<T>, g: Algebra<T>, world: T, sent: map<string, T>, order: seq<string>,
                             tf: seq<Stamped<T>>, t: Tree<T>, time: int, a: string, n: nat, b: string, l: nat, c: nat)
    requires Stands(m, g, world, sent, order, tf, t, time) && AtDepth(m, a, n) && AtDepth(m, b, l)
    requires WellFormed(t) && 0 < FrameOf(t, a) < |t.names| && 0 < FrameOf(t, b) < |t.names| && c > 0
    requires Ancestor(t.parent, c, FrameOf(t, a)) && Ancestor(t.parent, c, FrameOf(t, b))
    requires Ascends(m, a) && Ascends(m, b) && forall i :: 0 <= i < |Chain(m, a)| ==> Chain(m, a)[i] in m.joints
    ensures c <= FrameOf(t, LinkAt(m, Chain(m, a), Shared(Chain(m, a), Chain(m, b))))
  {
    hide Proper, Consistent, IsGroup, Ascends, Chain, Stands, WellFormed, Along, Ancestor, Down, Shared, FrameOf,
         AtDepth;
    var ca, cb := Chain(m, a), Chain(m, b);
    var k := Shared(ca, cb);
    StandsProper(m, g, world, sent, order, tf, t, time);
    var u := AncestorIsLink(m, g, world, sent, order, tf, t, time, a, n, c);
    var v := AncestorIsLink(m, g, world, sent, order, tf, t, time, b, l, c);
    ChainCut(m, a, n, u);
    ChainCut(m, b, l, v);
    var p, r := LinkAt(m, ca, u), LinkAt(m, cb, v);
    NameBack(m, g, world, sent, order, tf, t, time, p, u);
    NameBack(m, g, world, sent, order, tf, t, time, r, v);
    CutsAgree(ca, cb, u, v);
    ChainCut(m, a, n, k);
    var q := LinkAt(m, ca, k);
    OnTheWay(m, g, world, sent, order, tf, t, time, q, k, u);
    CutTwice(ca, k, u);
    SameLinkAt(m, ca[..k], ca, u);
  }

  lemma NameBack<T(!new)>(m: Model<T>, g: Algebra<T>, world: T, sent: map<string, T>, order: seq<string>,
                          tf: seq<Stamped<T>>, t: Tree<T>, time: int, l: string, n: nat)
    requires Stands(m, g, world, sent, order, tf, t, time) && AtDepth(m, l, n)
    ensures 0 < FrameOf(t, l) < |t.names| && t.names[FrameOf(t, l)] == l
  {
    hide Proper, Stands, EdgeAt;
    LinkFrame(m, g, world, sent, order, tf, t, time, l);
  }

  /** A query between two links is the product down to the one and back up from the other, from where they part. */
  lemma LinkToLink<T(!new)>(m: Model<T>, g: Algebra<T>, world: T, sent: map<string, T>, order: seq<string>,
                            tf: seq<Stamped<T>>, t: Tree<T>, time: int, a: string, b: string)
    requires Stands(m, g, world, sent, order, tf, t, time) && a in m.links && b in m.links
    ensures WellFormed(t) && Ascends(m, a) && Ascends(m, b)
    ensures Covers(sent, Chain(m, a)) && Covers(sent, Chain(m, b))
    ensures Query(t, g, a, b, time) == Some(Apart(g, sent, Chain(m, a), Chain(m, b)))
  {
    hide Proper, Consistent, IsGroup, Ascends, Chain, Stands, WellFormed, Along, Ancestor, Down, Shared, Nearest;
    StandsProper(m, g, world, sent, order, tf, t, time);
    var n := ProperDepth(m, a);
    var l := ProperDepth(m, b);
    DepthChain(m, a, n);
    DepthChain(m, b, l);
    var ca, cb := Chain(m, a), Chain(m, b);
    var k := Shared(ca, cb);
    ForkMeets(m, g, world, sent, order, tf, t, time, a, n, b, l);
    OnTheWay(m, g, world, sent, order, tf, t, time, a, n, k);
    OnTheWay(m, g, world, sent, order, tf, t, time, b, l, k);
    SameLinkAt(m, ca, cb, k);
    assert forall i :: 0 <= i < |ca| ==> ca[i] in sent;
    assert forall i :: 0 <= i < |cb| ==> cb[i] in sent;
    NameBack(m, g, world, sent, order, tf, t, time, a, n);
    NameBack(m, g, world, sent, order, tf, t, time, b, l);
    if a == b {
      WithItself(g, sent, ca);
    }
  }

  /** A chain and itself part nowhere. */
  lemma {:induction false} SharedAll(chain: seq<string>)
    ensures Shared(chain, chain) == |chain|
  {
    if chain != [] {
      SharedAll(chain[1..]);
    }
  }

  lemma WithItself<T(!new)>(g: Algebra<T>, sent: map<string, T>, chain: seq<string>)
    requires IsGroup(g) && Covers(sent, chain)
    ensures Apart(g, sent, chain, chain) == g.one
  {
    SharedAll(chain);
    InverseOne(g);
  }

  // ---------- In a fresh graph, and in one in operation

  lemma FreshStands<T(!new)>(m: Model<T>, g: Algebra<T>, world: T, sent: map<string, T>, order: seq<string>,
                             tf: seq<Stamped<T>>, d: int, time: int)
    requires Proper(m) && IsGroup(g) && Publishes(m, world, sent, order, tf) && sent.Keys == m.joints.Keys
    ensures Stands(m, g, world, sent, order, tf, ApplyAll(Fresh(WORLD, d), tf).0, time)
    ensures ApplyAll(Fresh(WORLD, d), tf).1
  {
    hide Proper, IsGroup, Publishes, Hangs, Names, WellFormed, ApplyAll;
    TransformsHang(m, world, sent, order, tf);
    AllAccepted(WORLD, d, tf, 0);
    assert tf[..0] == [] && tf[0..] == tf;
    var t := After(WORLD, d, tf);
    BuiltShaped(WORLD, d, tf);
    BuiltTree(WORLD, d, tf);
    forall i: nat | 0 < i <= |tf| ensures EdgeAt(t, g, i, time) == tf[i - 1].transform {
      var k := i - 1;
      assert t.samples[k + 1] == [Sample(tf[k].stamp, tf[k].transform)];
    }
  }

  /** A fresh graph that is fed with a robot's transforms answers so between any two links, at any time. */
  lemma EndToEndLinks<T(!new)>(m: Model<T>, g: Algebra<T>, world: T, sent: map<string, T>, order: seq<string>,
                               tf: seq<Stamped<T>>, d: int, a: string, b: string, time: int)
    requires Proper(m) && IsGroup(g) && Publishes(m, world, sent, order, tf) && sent.Keys == m.joints.Keys
    requires a in m.links && b in m.links
    ensures Ascends(m, a) && Ascends(m, b) && Covers(sent, Chain(m, a)) && Covers(sent, Chain(m, b))
    ensures var (t, ok) := ApplyAll(Fresh(WORLD, d), tf);
            ok && WellFormed(t) && Query(t, g, a, b, time) == Some(Apart(g, sent, Chain(m, a), Chain(m, b)))
  {
    hide Proper, IsGroup, Publishes, Stands, ApplyAll, WellFormed, Query, Ascends, Chain, Covers, Apart;
    FreshStands(m, g, world, sent, order, tf, d, time);
    LinkToLink(m, g, world, sent, order, tf, ApplyAll(Fresh(WORLD, d), tf).0, time, a, b);
  }

  /** However often the robot has been published, the latest answer is that of what was sent last. */
  lemma LiveLinks<T(!new)>(m: Model<T>, g: Algebra<T>, order: seq<string>, ps: seq<Publication<T>>, d: int, a: string,
                           b: string)
    requires Proper(m) && IsGroup(g) && IsWalk(m, order) && ps != [] && Published(m, order, ps)
    requires a in m.links && b in m.links
    ensures var last, t := ps[|ps| - 1], Fed(WORLD, d, MessagesOf(ps));
            && Ascends(m, a) && Ascends(m, b) && Covers(last.sent, Chain(m, a)) && Covers(last.sent, Chain(m, b))
            && WellFormed(t) && Query(t, g, a, b, 0) == Some(Apart(g, last.sent, Chain(m, a), Chain(m, b)))
  {
    hide Proper, IsGroup, IsWalk, Lists, Fed, WellFormed, Query, Ascends, Chain, Covers, Apart, Stream, MessagesOf,
         Shaped,
         ShowsAt;
    var last := ps[|ps| - 1];
    assert Issue(m, order, last);
    PublishedStream(m, order, ps);
    LatestShows(WORLD, d, MessagesOf(ps), g);
    LinkToLink(m, g, last.world, last.sent, order, last.tf, Fed(WORLD, d, MessagesOf(ps)), 0, a, b);
  }

  /** And at the stamp of an earlier publication that the buffers still hold, of what was sent then. */
  lemma PastLinks<T(!new)>(m: Model<T>, g: Algebra<T>, order: seq<string>, ps: seq<Publication<T>>, d: int, a: string,
                           b: string, k: nat)
    requires Proper(m) && IsGroup(g) && IsWalk(m, order) && a in m.links && b in m.links
    requires Published(m, order, ps) && forall i, j :: 0 <= i < j < |ps| ==> ps[i].stamp < ps[j].stamp
    requires k < |ps| && Remembered(StampsOf(ps), d, k) && ps[k].stamp != 0
    ensures var p, t := ps[k], Fed(WORLD, d, MessagesOf(ps));
            && Ascends(m, a) && Ascends(m, b) && Covers(p.sent, Chain(m, a)) && Covers(p.sent, Chain(m, b))
            && WellFormed(t) && Query(t, g, a, b, p.stamp) == Some(Apart(g, p.sent, Chain(m, a), Chain(m, b)))
  {
    hide Proper, IsGroup, IsWalk, Lists, Fed, WellFormed, Query, Ascends, Chain, Covers, Apart, Stream, MessagesOf,
         StampsOf,
         Shaped, ShowsAt, Timed;
    var p := ps[k];
    assert Issue(m, order, p);
    PublishedStream(m, order, ps);
    PublishedTimed(m, order, ps);
    PastShows(WORLD, d, MessagesOf(ps), StampsOf(ps), g, k);
    LinkToLink(m, g, p.world, p.sent, order, p.tf, Fed(WORLD, d, MessagesOf(ps)), p.stamp, a, b);
  }

  /** And between two publications, of the blends of what was sent. */
  lemma BetweenLinks<T(!new)>(m: Model<T>, g: Algebra<T>, order: seq<string>, ps: seq<Publication<T>>, d: int,
                              a: string, b: string, k: nat, time: int)
    requires Proper(m) && IsGroup(g) && IsWalk(m, order) && a in m.links && b in m.links
    requires Published(m, order, ps) && forall i, j :: 0 <= i < j < |ps| ==> ps[i].stamp < ps[j].stamp
    requires k + 1 < |ps| && Remembered(StampsOf(ps), d, k) && ps[k].stamp < time < ps[k + 1].stamp && time != 0
    ensures SameFrames(ps[k].tf, ps[k + 1].tf) && ps[k].sent.Keys == ps[k + 1].sent.Keys
    ensures var p, t := Blended(g, ps[k], ps[k + 1], time), Fed(WORLD, d, MessagesOf(ps));
            && Ascends(m, a) && Ascends(m, b) && Covers(p.sent, Chain(m, a)) && Covers(p.sent, Chain(m, b))
            && WellFormed(t) && Query(t, g, a, b, time) == Some(Apart(g, p.sent, Chain(m, a), Chain(m, b)))
  {
    IssuesAgree(m, order, ps, k);
    hide Proper, IsGroup, IsWalk, Lists, Fed, WellFormed, Query, Ascends, Chain, Covers, Apart, Stream, MessagesOf,
         StampsOf,
         Shaped, ShowsAt, Timed, SameFrames, Between, Midway;
    var p := Blended(g, ps[k], ps[k + 1], time);
    assert Issue(m, order, ps[k]) && Issue(m, order, ps[k + 1]);
    PublishedStream(m, order, ps);
    PublishedTimed(m, order, ps);
    BlendedLists(m, g, order, ps[k], ps[k + 1], time);
    BetweenShows(WORLD, d, MessagesOf(ps), StampsOf(ps), g, k, time);
    LinkToLink(m, g, p.world, p.sent, order, p.tf, Fed(WORLD, d, MessagesOf(ps)), time, a, b);
  }
}
