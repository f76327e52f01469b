/**
 Where the links really are. A mimic joint is listed with its origin and not with the transform at the position it
 reports, so what is sent can differ from where the robot stands: this says exactly when.
 */
module ActualKinematics {
  import opened TransformAlgebra
  import opened Joints
  import opened RobotStructure
  import opened RobotWalk
  import opened Kinematics

  /** Each joint's transform at the position it reports. */
  ghost function Actual<T>(g: Algebra<T>, records: map<string, JointRecord<T>>, motions: map<string, Motion>)
    : map<string, T>
    requires records.Keys <= motions.Keys && forall j :: j in records ==> Driven(records, j)
  {
    map j | j in records :: TransformAt(g, records[j], StateOf(records, motions, j).position)
  }

  /** The joint stands at its origin. */
  predicate AtOrigin<T(==)>(g: Algebra<T>, r: JointRecord<T>, position: real) {
    TransformAt(g, r, position) == r.origin
  }

  /** That is when it cannot move, or its turn or slide to the position is no motion. */
  lemma AtOriginIff<T(!new)>(g: Algebra<T>, r: JointRecord<T>, position: real)
    requires IsGroup(g)
    ensures AtOrigin(g, r, position) <==>
              || r.axis == Vec3(0.0, 0.0, 0.0) || r.kind.Fixed?
              || (if r.kind.Prismatic? then g.slide(r.axis, position) else g.turn(r.axis, position)) == g.one
  {
    LeftCancel(g, g.slide(r.axis, position), g.one, r.origin);
    LeftCancel(g, g.turn(r.axis, position), g.one, r.origin);
  }

  /** What is sent for a joint is its actual transform, unless it is a mimic joint away from its origin, which is sent
      instead. */
  lemma SentIsActualIff<T>(g: Algebra<T>, records: map<string, JointRecord<T>>, motions: map<string, Motion>, j: string)
    requires records.Keys <= motions.Keys && (forall j :: j in records ==> Driven(records, j)) && j in records
    ensures SentBy(g, records, motions)[j] == Actual(g, records, motions)[j] <==>
              (records[j].IsMimic() ==> AtOrigin(g, records[j], StateOf(records, motions, j).position))
    ensures SentBy(g, records, motions)[j] == if records[j].mimic.name != "" then records[j].origin
                                              else TransformAt(g, records[j], motions[j].position)
  {
    hide Driven;
    DrivenStep(records, j);
  }

  /** The link is shown where it is: the product of what is sent for its chain is that of the actual transforms. */
  ghost predicate ShownRight<T>(m: Model<T>, g: Algebra<T>, world: T, motions: map<string, Motion>, l: string)
    requires m.joints.Keys <= motions.Keys && forall j :: j in m.joints ==> Driven(m.joints, j)
  {
    var sent, actual := SentBy(g, m.joints, motions), Actual(g, m.joints, motions);
    && Ascends(m, l) && Covers(sent, Chain(m, l)) && Covers(actual, Chain(m, l))
    && ProductOver(g, world, sent, Chain(m, l)) == ProductOver(g, world, actual, Chain(m, l))
  }

  lemma {:induction false} SameProduct<T>(g: Algebra<T>, start: T, a: map<string, T>, b: map<string, T>,
                                          chain: seq<string>)
    requires Covers(a, chain) && Covers(b, chain) && forall k :: 0 <= k < |chain| ==> a[chain[k]] == b[chain[k]]
    ensures ProductOver(g, start, a, chain) == ProductOver(g, start, b, chain)
  {
    if chain != [] {
      SameProduct(g, start, a, b, chain[..|chain| - 1]);
    }
  }

  lemma ChainCovered<T>(m: Model<T>, l: string)
    requires Proper(m) && l in m.links
    ensures Ascends(m, l) && forall k :: 0 <= k < |Chain(m, l)| ==> Chain(m, l)[k] in m.joints
  {
    hide Declared, SingleRoot, Acyclic, Ascends, Chain;
    AllReachable(m, l);
    var n: nat :| AtDepth(m, l, n);
    DepthIsChainLength(m, l, n);
    ChainLinked(m, l);
  }

  /** A link is shown right when every mimic joint in its chain stands at its origin, as when there is none. */
  lemma ChainShownRight<T>(m: Model<T>, g: Algebra<T>, world: T, motions: map<string, Motion>, l: string)
    requires Proper(m) && l in m.links
    requires m.joints.Keys <= motions.Keys && forall j :: j in m.joints ==> Driven(m.joints, j)
    requires Ascends(m, l)
    requires forall k :: 0 <= k < |Chain(m, l)| ==>
               var j := Chain(m, l)[k];
               j in m.joints && m.joints[j].IsMimic() ==>
                 AtOrigin(g, m.joints[j], StateOf(m.joints, motions, j).position)
    ensures ShownRight(m, g, world, motions, l)
  {
    hide Proper, Ascends, Chain, Driven, AtOrigin, StateOf, ProductOver;
    ChainCovered(m, l);
    var c := Chain(m, l);
    forall k | 0 <= k < |c| ensures SentBy(g, m.joints, motions)[c[k]] == Actual(g, m.joints, motions)[c[k]] {
      SentIsActualIff(g, m.joints, motions, c[k]);
    }
    SameProduct(g, world, SentBy(g, m.joints, motions), Actual(g, m.joints, motions), c);
  }

  /** All links are shown where they are exactly when every mimic joint stands at its origin. */
  lemma ShownRightIff<T(!new)>(m: Model<T>, g: Algebra<T>, world: T, motions: map<string, Motion>)
    requires Proper(m) && IsGroup(g)
    requires m.joints.Keys <= motions.Keys && forall j :: j in m.joints ==> Driven(m.joints, j)
    ensures (forall l :: l in m.links ==> ShownRight(m, g, world, motions, l)) <==>
              forall j :: j in m.joints && m.joints[j].IsMimic() ==>
                AtOrigin(g, m.joints[j], StateOf(m.joints, motions, j).position)
  {
    hide Proper, IsGroup, Ascends, Chain, Driven, AtOrigin, StateOf, ShownRight;
    if forall l :: l in m.links ==> ShownRight(m, g, world, motions, l) {
      forall j | j in m.joints && m.joints[j].IsMimic()
        ensures AtOrigin(g, m.joints[j], StateOf(m.joints, motions, j).position) {
        JointEnds(m, j);
        JointShownRight(m, g, world, motions, j);
        SentIsActualIff(g, m.joints, motions, j);
      }
    }
    if forall j :: j in m.joints && m.joints[j].IsMimic() ==>
         AtOrigin(g, m.joints[j], StateOf(m.joints, motions, j).position) {
      forall l | l in m.links ensures ShownRight(m, g, world, motions, l) {
        ChainCovered(m, l);
        ChainShownRight(m, g, world, motions, l);
      }
    }
  }

  /** If the links at both ends of a joint are shown right, what is sent for the joint is right. */
  lemma JointShownRight<T(!new)>(m: Model<T>, g: Algebra<T>, world: T, motions: map<string, Motion>, j: string)
    requires Proper(m) && IsGroup(g) && j in m.joints
    requires m.joints.Keys <= motions.Keys && forall j :: j in m.joints ==> Driven(m.joints, j)
    requires ShownRight(m, g, world, motions, m.joints[j].parent)
    requires ShownRight(m, g, world, motions, m.joints[j].child)
    ensures SentBy(g, m.joints, motions)[j] == Actual(g, m.joints, motions)[j]
  {
    hide Proper, IsGroup, Ascends, Chain, Driven, ProductOver, Covers;
    var sent, actual := SentBy(g, m.joints, motions), Actual(g, m.joints, motions);
    var up, l := m.joints[j].parent, m.joints[j].child;
    JointEnds(m, j);
    ProperRoot(m);
    JointNotEmpty(m, l);
    ChainStep(m, l);
    var c := Chain(m, up);
    ProductStep(g, world, sent, c, j);
    ProductStep(g, world, actual, c, j);
    LeftCancel(g, sent[j], actual[j], ProductOver(g, world, sent, c));
  }

  /** A joint that mimics a slide by one is sent as if it had not moved. */
  lemma MimicMisplaced<T(!new)>(g: Algebra<T>, axis: Vec3)
    requires IsGroup(g) && axis != Vec3(0.0, 0.0, 0.0) && g.slide(axis, 1.0) != g.one
    ensures var p := Named("p", "base", "a", g.one).(kind := Prismatic, axis := axis);
            var q := Named("q", "base", "b", g.one)
                     .(kind := Prismatic, axis := axis, mimic := JointMimic("p", 1.0, 0.0));
            var records, rest := JointMap([p, q]), Motion(0.0, 0.0, 0.0);
            var motions := map["p" := Motion(1.0, 0.0, 0.0), "q" := rest];
            && ProperNames([p, q]) && DistinctChildren([p, q]) && MimicsKnown(records)
            && records.Keys <= motions.Keys && (forall j :: j in records ==> Driven(records, j))
            && "q" in records
            && SentBy(g, records, motions)["q"] == g.one
            && Actual(g, records, motions)["q"] == g.slide(axis, 1.0)
  {
    hide Driven, JointMap;
    var p := Named("p", "base", "a", g.one).(kind := Prismatic, axis := axis);
    var q := Named("q", "base", "b", g.one).(kind := Prismatic, axis := axis, mimic := JointMimic("p", 1.0, 0.0));
    JointMapOfTwo([p, q]);
    var motions := map["p" := Motion(1.0, 0.0, 0.0), "q" := Motion(0.0, 0.0, 0.0)];
    FollowsAlong(g, axis, JointMap([p, q]), motions, "p", "q");
  }

  lemma FollowsAlong<T(!new)>(g: Algebra<T>, axis: Vec3, records: map<string, JointRecord<T>>,
                              motions: map<string, Motion>, p: string, q: string)
    requires IsGroup(g) && axis != Vec3(0.0, 0.0, 0.0)
    requires p in records && q in records && records.Keys <= motions.Keys && motions[p].position == 1.0
    requires !records[p].IsMimic() && records[q].IsMimic() && records[q].mimic == JointMimic(p, 1.0, 0.0)
    requires records[q].kind == Prismatic && records[q].axis == axis && records[q].origin == g.one
    requires forall j :: j in records ==> j == p || j == q
    ensures forall j :: j in records ==> Driven(records, j)
    ensures SentBy(g, records, motions)[q] == g.one
    ensures Actual(g, records, motions)[q] == g.slide(axis, 1.0)
  {
    hide Driven, StateOf, Follow;
    ShortChain(records, p, 0);
    ShortChain(records, q, 1);
    FollowedState(records, motions, p, q);
    FollowUnits(p, motions[p]);
  }

  lemma ShortChain<T>(records: map<string, JointRecord<T>>, name: string, n: nat)
    requires ChainEnds(records, name, n)
    ensures Driven(records, name)
  {
    hide Driven;
    ChainEndsIff(records, name);
  }

  lemma FollowedState<T>(records: map<string, JointRecord<T>>, motions: map<string, Motion>, p: string, q: string)
    requires records.Keys <= motions.Keys && q in records && Driven(records, p) && Driven(records, q)
    requires p in records && !records[p].IsMimic() && records[q].IsMimic() && records[q].mimic.name == p
    ensures StateOf(records, motions, q) == Follow(records[q].mimic, motions[p])
  {
    hide Driven, Follow;
    DrivenStep(records, q);
  }

  lemma FollowUnits(p: string, s: Motion)
    ensures Follow(JointMimic(p, 1.0, 0.0), s) == s
  {
  }
}
