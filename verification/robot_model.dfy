/** The robot model: built from a description, walked for its transforms, and set from joint states. */
module RobotModels {
  import opened Common
  import opened TransformAlgebra
  import opened Joints
  import opened NameOrder
  import opened RobotStructure
  import opened Trails
  import opened RobotWalk
  import opened FrameTrees

  /**
   How parse_jrdf ends: after the last link, early at a link with two joints above it, or with an exception
   for a mimic joint that names no joint.
   */
  datatype Outcome = Complete | SecondParent | MissingMimic

  class RobotModel<T(!new)> {
    const algebra: Algebra<T>
    var joints: map<string, Joint<T>>
    var links: map<string, Link>
    var root: string
    var worldToRoot: T

    constructor (algebra: Algebra<T>)
      ensures joints == map[] && links == map[] && root == ""
      ensures this.algebra == algebra && worldToRoot == algebra.one
    {
      this.algebra := algebra;
      joints := map[];
      links := map[];
      root := "";
      worldToRoot := algebra.one;
    }

    ghost function View(): Model<T>
      reads this
    {
      Model(RecordsOf(joints), links, root)
    }

    predicate IsValid()
      reads this
    {
      joints != map[] && links != map[] && root != ""
    }

    // ---------- Parsing

    method ParseJrdf(js: seq<JointRecord<T>>, ls: seq<string>) returns (outcome: Outcome)
      requires joints == map[] && links == map[] && root == ""
      modifies this
      ensures outcome == if !DistinctChildren(js) then SecondParent
                         else if !MimicsKnown(JointMap(js)) then MissingMimic
                         else Complete
      ensures outcome == Complete ==> View() == Parsed(js, ls) && Wired(joints)
      ensures outcome == Complete ==> forall name :: name in joints ==> fresh(joints[name])
      ensures outcome == Complete ==> AtRest(joints)
      ensures outcome == SecondParent ==> exists i :: StopsAt(js, i) && RecordsOf(joints) == JointMap(js[..i + 1])
      ensures outcome == MissingMimic ==> RecordsOf(joints) == JointMap(js)
      ensures outcome != Complete ==> links == map[] && root == "" && !IsValid()
      ensures worldToRoot == old(worldToRoot)
    {
      hide JointMap, LinkMap, Tables, RootOf;
      var ok, parentMap, childrenMap := ParseJoints(js);
      if !ok {
        return SecondParent;
      }
      var known := WireMimics();
      if !known {
        return MissingMimic;
      }
      ParseLinks(js, ls, parentMap, childrenMap);
      return Complete;
    }

    /** Files a new joint under its name, unless the name is taken. */
    method InsertJoint(record: JointRecord<T>)
      requires AtRest(joints)
      modifies this`joints
      ensures AtRest(joints)
      ensures forall name :: name in joints ==>
                fresh(joints[name]) || (name in old(joints) && joints[name] == old(joints)[name])
      ensures var before := RecordsOf(old(joints));
              RecordsOf(joints) == if record.name in before then before else before[record.name := record]
    {
      var joint := new Joint(record);
      if joint.info.name !in joints {
        joints := joints[joint.info.name := joint];
      }
    }

    /** The joints, and for every link the joint above it and the joints below it. */
    method ParseJoints(js: seq<JointRecord<T>>)
        returns (ok: bool, parentMap: map<string, string>, childrenMap: map<string, seq<string>>)
      requires joints == map[]
      modifies this`joints
      ensures ok <==> DistinctChildren(js)
      ensures (forall name :: name in joints ==> fresh(joints[name])) && AtRest(joints)
      ensures ok ==> RecordsOf(joints) == JointMap(js) && Tables(js, parentMap, childrenMap)
      ensures !ok ==> exists i :: StopsAt(js, i) && RecordsOf(joints) == JointMap(js[..i + 1])
    {
      hide JointMap, DistinctChildren, RecordsOf, AtRest, Tables, StopsAt;
      parentMap, childrenMap := map[], map[];
      NothingParsed(js, joints);
      for i := 0 to |js|
        invariant (forall name :: name in joints ==> fresh(joints[name])) && AtRest(joints)
        invariant RecordsOf(joints) == JointMap(js[..i])
        invariant Tables(js[..i], parentMap, childrenMap) && DistinctChildren(js[..i])
      {
        OneMoreJoint(js, i, parentMap, childrenMap);
        InsertJoint(js[i]);
        if js[i].child in parentMap {
          StopsHere(js, i, parentMap, childrenMap);
          return false, parentMap, childrenMap;
        }
        parentMap := parentMap[js[i].child := js[i].name];
        var siblings := if js[i].parent in childrenMap then childrenMap[js[i].parent] else [];
        childrenMap := childrenMap[js[i].parent := siblings + [js[i].name]];
      }
      assert js[..|js|] == js;
      return true, parentMap, childrenMap;
    }

    /** The links; the last one without a joint above it becomes the root. */
    method ParseLinks(ghost js: seq<JointRecord<T>>, ls: seq<string>, parentMap: map<string, string>,
                      childrenMap: map<string, seq<string>>)
      requires links == map[] && root == ""
      requires Tables(js, parentMap, childrenMap)
      modifies this`links, this`root
      ensures links == LinkMap(js, ls) && root == RootOf(js, ls)
    {
      hide ParentMap, ChildrenOf;
      for i := 0 to |ls|
        invariant links == LinkMap(js, ls[..i]) && root == RootOf(js, ls[..i])
      {
        assert ls[..i + 1][..i] == ls[..i] && ls[..i + 1][i] == ls[i];
        var link := Link(ls[i],
                         if ls[i] in parentMap then parentMap[ls[i]] else "",
                         if ls[i] in childrenMap then childrenMap[ls[i]] else []);
        if link.IsRoot() {
          root := link.name;
        }
        if link.name !in links {
          links := links[link.name := link];
        }
      }
      assert ls[..|ls|] == ls;
    }

    /** Assigns the mimic pointers; a name that is not a joint ends it with an exception. */
    method WireMimics() returns (known: bool)
      requires AtRest(joints)
      modifies joints.Values
      ensures known <==> MimicsKnown(RecordsOf(joints))
      ensures known ==> Wired(joints)
      ensures AtRest(joints)
    {
      var todo := joints.Keys;
      while todo != {}
        invariant todo <= joints.Keys
        invariant forall name :: name in joints ==> joints[name].motion == Motion(0.0, 0.0, 0.0)
        invariant forall name :: name in joints && name !in todo && joints[name].info.IsMimic() ==>
                    && joints[name].info.mimic.name in joints
                    && joints[name].mimicJoint == joints[joints[name].info.mimic.name]
        decreases todo
      {
        var name :| name in todo;
        var joint := joints[name];
        if joint.info.IsMimic() {
          if joint.info.mimic.name !in joints {
            assert RecordsOf(joints)[name] == joint.info;
            return false;
          }
          joint.mimicJoint := joints[joint.info.mimic.name];
        }
        todo := todo - {name};
      }
      return true;
    }

    // ---------- Walking

    /** The links without joints below them, in the order of their names. */
    method GetEndEffectors() returns (effectors: seq<Link>)
      requires forall l :: l in links ==> links[l].name == l
      ensures forall l :: l in effectors <==> l.name in links && links[l.name] == l && l.IsEndEffector()
      ensures forall i, j :: 0 <= i < j < |effectors| ==> Before(effectors[i].name, effectors[j].name)
    {
      hide Before;
      effectors := [];
      var names := InOrder(links.Keys);
      for k := 0 to |names|
        invariant forall l :: l in effectors <==>
                    l.name in names[..k] && l.name in links && links[l.name] == l && l.IsEndEffector()
        invariant forall i, j :: 0 <= i < j < |effectors| ==> Before(effectors[i].name, effectors[j].name)
      {
        assert names[k] in names;
        if links[names[k]].IsEndEffector() {
          forall i | 0 <= i < |effectors| ensures Before(effectors[i].name, names[k]) {
            assert effectors[i] in effectors;
          }
          effectors := effectors + [links[names[k]]];
        }
        assert names[..k + 1] == names[..k] + [names[k]];
      }
      assert names[..|names|] == names;
    }

    /** Climbs from the link and hands back the joints passed, topmost first. */
    method GetJointsInChain(link: string) returns (chain: seq<Joint<T>>)
      requires Ascends(View(), link)
      ensures |chain| == |Chain(View(), link)|
      ensures forall k :: 0 <= k < |chain| ==>
                Chain(View(), link)[k] in joints && chain[k] == joints[Chain(View(), link)[k]]
    {
      hide Ascends, Chain, RecordsOf, Reverse, Steps;
      ChainStep(View(), link);
      if link !in links {
        return [];
      }
      var stack := ClimbFrom(link, View());
      chain := Popped(stack);
    }

    /** The loop upwards: pushes the joint above each link until there is none or its link is undeclared. */
    method ClimbFrom(link: string, ghost m: Model<T>) returns (stack: seq<string>)
      requires m == View() && link in m.links && Ascends(m, link)
      ensures forall k :: 0 <= k < |stack| ==> stack[k] in joints
      ensures Reverse(stack) == Chain(m, link)
    {
      hide Ascends, Chain, RecordsOf, Reverse, Steps;
      stack := [];
      var current := link;
      while !links[current].IsRoot()
        invariant current in links && Ascends(m, current)
        invariant forall k :: 0 <= k < |stack| ==> stack[k] in joints
        invariant Chain(m, link) == Chain(m, current) + Reverse(stack)
        decreases Steps(Upward(m), current)
      {
        ChainStep(m, current);
        var name := links[current].parent;
        RecordAt(joints, name);
        if name !in joints {
          return;
        }
        stack := stack + [name];
        ReverseSnoc(stack);
        var up := joints[name].info.parent;
        if up !in links {
          ChainStep(m, up);
          return;
        }
        current := up;
      }
      ChainStep(m, current);
    }

    /** Empties the stack of joints into a list. */
    method Popped(names: seq<string>) returns (chain: seq<Joint<T>>)
      requires forall k :: 0 <= k < |names| ==> names[k] in joints
      ensures |chain| == |names|
      ensures forall k :: 0 <= k < |chain| ==> Reverse(names)[k] in joints && chain[k] == joints[Reverse(names)[k]]
    {
      chain := [];
      var stack := names;
      while stack != []
        invariant |stack| + |chain| == |names| && stack == names[..|stack|]
        invariant forall k :: 0 <= k < |chain| ==> chain[k] == joints[names[|names| - 1 - k]]
        decreases |stack|
      {
        chain := chain + [joints[stack[|stack| - 1]]];
        stack := stack[..|stack| - 1];
      }
    }

    /** What each joint contributes in its present state. */
    ghost function Sent(): map<string, T>
      reads this, joints.Values
    {
      map name | name in joints :: Emitted(algebra, joints[name].info, joints[name].motion)
    }

    /**
     The walk over the links; now is the clock. It needs a model over which the walk ends; what it emits is what the
     walk emits, which over a consistent model is every reachable joint once, parents first.
     */
    method GetTransforms(now: int) returns (tf: seq<Stamped<T>>, ghost order: seq<string>)
      requires IsValid() ==> NoLoops(View())
      ensures !IsValid() ==> tf == []
      ensures IsValid() ==> WalkOrder(View(), order) && Lists(View(), worldToRoot, Sent(), order, tf)
      ensures IsValid() && Consistent(View()) ==> IsWalk(View(), order)
      ensures forall k :: 0 <= k < |tf| ==> tf[k].stamp == now
    {
      hide Consistent, IsWalk, Lists, WalkOrder, NoLoops;
      order := [];
      if !IsValid() {
        return [], order;
      }
      tf, order := WalkLinks(View(), Sent(), now);
      if Consistent(View()) {
        WalkMeetsPromise(View(), order);
      }
    }

    /** The stack of links still to be expanded, from the root down. */
    method WalkLinks(ghost m: Model<T>, ghost sent: map<string, T>, now: int)
        returns (tf: seq<Stamped<T>>, ghost order: seq<string>)
      requires NoLoops(m) && m == View() && sent == Sent()
      ensures WalkOrder(m, order) && Lists(m, worldToRoot, sent, order, tf)
      ensures forall k :: 0 <= k < |tf| ==> tf[k].stamp == now
    {
      hide NoLoops, Lists, RecordsOf, Sent, WalkOrder, Pushed, Known, StackAfter, OrderAfter;
      WalkEndsIff(m);
      ghost var last: nat :| StackAfter(m, last) == [];
      ghost var steps := 0;
      order := [];
      tf := [Stamped(0, now, WORLD, root, worldToRoot)];
      var sequence := 1;
      var stack := [root];
      WalkBegins(m);
      ListsStart(m, worldToRoot, sent, tf);
      while stack != []
        invariant steps <= last && stack == StackAfter(m, steps) && order == OrderAfter(m, steps)
        invariant Lists(m, worldToRoot, sent, order, tf) && sequence == Sequence(|tf|)
        invariant forall k :: 0 <= k < |tf| ==> tf[k].stamp == now
        decreases last - steps
      {
        WalkGoesOn(m, steps, last);
        var current := stack[|stack| - 1];
        stack := stack[..|stack| - 1];
        if current in links {
          stack, tf, sequence, order :=
            ExpandLink(m, sent, order, links[current].children, stack, tf, sequence, now);
        }
        steps := steps + 1;
      }
      WalkOrderAt(m, steps);
    }

    lemma SentAt(name: string)
      requires name in joints
      ensures var joint := joints[name];
              name in Sent() && Sent()[name] ==
                if joint.info.IsMimic() then joint.info.origin
                else TransformAt(algebra, joint.info, joint.motion.position)
    {
    }

    /** The loop over the joints below one link. */
    method ExpandLink(ghost m: Model<T>, ghost sent: map<string, T>, ghost before: seq<string>,
                      children: seq<string>, waiting: seq<string>, listed: seq<Stamped<T>>, next: int, now: int)
      returns (stack: seq<string>, tf: seq<Stamped<T>>, sequence: int, ghost order: seq<string>)
      requires m == View() && sent == Sent()
      requires Lists(m, worldToRoot, sent, before, listed) && next == Sequence(|listed|)
      requires forall k :: 0 <= k < |listed| ==> listed[k].stamp == now
      ensures stack == waiting + Pushed(m, children) && order == before + Known(m, children)
      ensures Lists(m, worldToRoot, sent, order, tf) && sequence == Sequence(|tf|)
      ensures forall k :: 0 <= k < |tf| ==> tf[k].stamp == now
    {
      hide Lists, RecordsOf, Pushed, Known, TransformAt, Sent, Sequence;
      NothingPushed(m);
      stack, tf, sequence, order := waiting, listed, next, before;
      for i := 0 to |children|
        invariant stack == waiting + Pushed(m, children[..i]) && order == before + Known(m, children[..i])
        invariant Lists(m, worldToRoot, sent, order, tf) && sequence == Sequence(|tf|)
        invariant forall k :: 0 <= k < |tf| ==> tf[k].stamp == now
      {
        PushedAt(m, children, i);
        RecordAt(joints, children[i]);
        if children[i] !in joints {
          continue;
        }
        SentAt(children[i]);
        var joint := joints[children[i]];
        var transform := if joint.info.IsMimic() then joint.info.origin
                         else TransformAt(algebra, joint.info, joint.motion.position);
        var entry := Stamped(sequence, now, joint.info.parent, joint.info.child, transform);
        ListsSnoc(m, worldToRoot, sent, order, tf, children[i], entry);
        NextSequence(|tf|);
        tf := tf + [entry];
        sequence := (sequence + 1) % SEQUENCE_LIMIT;
        order := order + [children[i]];
        if joint.info.child in links {
          stack := stack + [joint.info.child];
        }
      }
      assert children[..|children|] == children;
    }

    // ---------- States

    /** Every joint's state, in the order of the names. */
    method GetJointStates() returns (report: seq<JointState>)
      requires Wired(joints) && forall j :: j in joints ==> Driven(RecordsOf(joints), j)
      ensures forall i :: 0 <= i < |report| ==>
                && report[i].name in joints
                && report[i].motion == StateOf(RecordsOf(joints), MotionsOf(joints), report[i].name)
      ensures Reported(report) == joints.Keys && |report| == |joints|
      ensures forall i, j :: 0 <= i < j < |report| ==> Before(report[i].name, report[j].name)
    {
      hide StateOf, Driven, Reported, Before;
      report := [];
      var names := InOrder(joints.Keys);
      assert forall k :: 0 <= k < |names| ==> names[k] in names;
      for k := 0 to |names|
        invariant |report| == k && forall i :: 0 <= i < k ==>
                    report[i] == JointState(names[i], StateOf(RecordsOf(joints), MotionsOf(joints), names[i]))
      {
        var state := joints[names[k]].GetState(joints);
        report := report + [state];
      }
      forall name ensures name in Reported(report) <==> name in joints.Keys {
        ReportedExact(report, name);
        if name in names {
          var k :| 0 <= k < |names| && names[k] == name;
          assert report[k].name == name;
        }
      }
    }

    method SetStateAll(states: seq<JointState>)
      requires forall name :: name in joints ==> joints[name].info.name == name
      modifies joints.Values
      ensures MotionsOf(joints) == SetAll(RecordsOf(joints), old(MotionsOf(joints)), states)
      ensures old(Wired(joints)) ==> Wired(joints)
    {
      for i := 0 to |states|
        invariant MotionsOf(joints) == SetAll(RecordsOf(joints), old(MotionsOf(joints)), states[..i])
        invariant old(Wired(joints)) ==> Wired(joints)
      {
        SetState(states[i]);
        assert states[..i + 1][..i] == states[..i];
      }
      assert states[..|states|] == states;
    }

    method SetState(js: JointState)
      requires forall name :: name in joints ==> joints[name].info.name == name
      modifies joints.Values
      ensures MotionsOf(joints) == SetOne(RecordsOf(joints), old(MotionsOf(joints)), js)
      ensures old(Wired(joints)) ==> Wired(joints)
    {
      if js.name !in joints {
        return;
      }
      joints[js.name].SetState(js.motion);
    }

    method SetWorldToRoot(transform: T)
      modifies this`worldToRoot
      ensures worldToRoot == transform
    {
      worldToRoot := transform;
    }
  }

  /**
   One model reports its joint states and another of the same structure takes them: every joint of the second, mimic
   joints included, then reports what the first one's does.
   */
  method Transfer<T(!new)>(sender: RobotModel<T>, receiver: RobotModel<T>)
    requires Wired(sender.joints) && Wired(receiver.joints) && RecordsOf(sender.joints) == RecordsOf(receiver.joints)
    requires forall j :: j in sender.joints ==> Driven(RecordsOf(sender.joints), j)
    modifies receiver.joints.Values
    ensures Wired(receiver.joints)
    ensures forall j :: j in receiver.joints ==>
              && Driven(RecordsOf(sender.joints), j)
              && receiver.joints[j].GetState(receiver.joints).motion
                 == old(StateOf(RecordsOf(sender.joints), MotionsOf(sender.joints), j))
  {
    hide StateOf, Driven, Reported, SetAll, MotionsOf;
    ghost var records, sent, before := RecordsOf(sender.joints), MotionsOf(sender.joints), MotionsOf(receiver.joints);
    SameKeys(sender.joints, receiver.joints);
    var report := sender.GetJointStates();
    receiver.SetStateAll(report);
    forall j | j in receiver.joints
      ensures Driven(records, j) && records.Keys <= MotionsOf(receiver.joints).Keys
      ensures StateOf(records, MotionsOf(receiver.joints), j) == StateOf(records, sent, j) {
      TransferAgrees(records, sent, before, report, j);
    }
  }

  lemma SameKeys<T(!new)>(a: map<string, Joint<T>>, b: map<string, Joint<T>>)
    requires RecordsOf(a) == RecordsOf(b)
    ensures RecordsOf(a).Keys == a.Keys == b.Keys == MotionsOf(a).Keys == MotionsOf(b).Keys
  {
    assert RecordsOf(a).Keys == a.Keys && RecordsOf(b).Keys == b.Keys;
  }

  lemma {:induction false} ReportedExact(report: seq<JointState>, name: string)
    ensures name in Reported(report) <==> exists k :: 0 <= k < |report| && report[k].name == name
  {
    if report != [] {
      var init := report[..|report| - 1];
      ReportedExact(init, name);
      assert forall k :: 0 <= k < |init| ==> init[k] == report[k];
    }
  }

  // Joints as they are made: filed under their own names, unmoved, and pointing to no other joint.
  ghost predicate AtRest<T(!new)>(joints: map<string, Joint<T>>)
    reads joints.Values
  {
    forall name :: name in joints ==>
      joints[name].info.name == name && joints[name].motion == Motion(0.0, 0.0, 0.0)
  }

  lemma RecordAt<T(!new)>(joints: map<string, Joint<T>>, name: string)
    ensures name in joints <==> name in RecordsOf(joints)
    ensures name in joints ==> RecordsOf(joints)[name] == joints[name].info
  {
  }

  /** The maps a parse keeps on the side: for each link the joint above it and the joints below it. */
  ghost predicate Tables<T>(js: seq<JointRecord<T>>, parentMap: map<string, string>,
                            childrenMap: map<string, seq<string>>) {
    && parentMap == ParentMap(js)
    && forall l :: ChildrenOf(js, l) == if l in childrenMap then childrenMap[l] else []
  }

  /** The first joint that ends where an earlier one does: it is filed, and nothing after it. */
  ghost predicate StopsAt<T>(js: seq<JointRecord<T>>, i: int) {
    && 0 <= i < |js|
    && (forall a, b :: 0 <= a < b < i ==> js[a].child != js[b].child)
    && exists a :: 0 <= a < i && js[a].child == js[i].child
  }

  lemma StopsHere<T>(js: seq<JointRecord<T>>, i: nat, parentMap: map<string, string>,
                     childrenMap: map<string, seq<string>>)
    requires i < |js| && DistinctChildren(js[..i]) && Tables(js[..i], parentMap, childrenMap)
    requires js[i].child in parentMap
    ensures StopsAt(js, i)
  {
    hide ParentMap, ChildrenOf;
    ParentMapExact(js[..i], js[i].child);
    assert forall a :: 0 <= a < i ==> js[..i][a] == js[a];
  }

  lemma NothingParsed<T(!new)>(js: seq<JointRecord<T>>, joints: map<string, Joint<T>>)
    requires joints == map[]
    ensures AtRest(joints) && RecordsOf(joints) == JointMap(js[..0])
    ensures Tables(js[..0], map[], map[]) && DistinctChildren(js[..0])
  {
  }

  lemma OneMoreJoint<T>(js: seq<JointRecord<T>>, i: nat, parentMap: map<string, string>,
                        childrenMap: map<string, seq<string>>)
    requires i < |js| && DistinctChildren(js[..i]) && Tables(js[..i], parentMap, childrenMap)
    ensures var before, j := JointMap(js[..i]), js[i];
            JointMap(js[..i + 1]) == if j.name in before then before else before[j.name := j]
    ensures js[i].child in parentMap ==> !DistinctChildren(js)
    ensures js[i].child !in parentMap ==> DistinctChildren(js[..i + 1])
    ensures var p, siblings := js[i].parent, if js[i].parent in childrenMap then childrenMap[js[i].parent] else [];
            Tables(js[..i + 1], parentMap[js[i].child := js[i].name], childrenMap[p := siblings + [js[i].name]])
  {
    hide DistinctChildren, JointMap, ParentMap, ChildrenOf;
    OneMoreChild(js, i);
    OneMoreRecord(js, i);
    forall l ensures ChildrenOf(js[..i + 1], l) ==
                     ChildrenOf(js[..i], l) + if js[i].parent == l then [js[i].name] else [] {
      ChildrenOfLast(js[..i + 1], l);
      assert js[..i + 1][..i] == js[..i];
    }
  }

  lemma OneMoreRecord<T>(js: seq<JointRecord<T>>, i: nat)
    requires i < |js|
    ensures var before, j := JointMap(js[..i]), js[i];
            JointMap(js[..i + 1]) == if j.name in before then before else before[j.name := j]
    ensures ParentMap(js[..i + 1]) == ParentMap(js[..i])[js[i].child := js[i].name]
  {
    assert js[..i + 1][..i] == js[..i];
  }

  lemma OneMoreChild<T>(js: seq<JointRecord<T>>, i: nat)
    requires i < |js| && DistinctChildren(js[..i])
    ensures js[i].child in ParentMap(js[..i]) ==> !DistinctChildren(js)
    ensures js[i].child !in ParentMap(js[..i]) ==> DistinctChildren(js[..i + 1])
  {
    hide ParentMap;
    ParentMapExact(js[..i], js[i].child);
    assert forall a :: 0 <= a < i ==> js[..i][a] == js[a];
  }

  lemma ReverseSnoc<A>(s: seq<A>)
    requires s != []
    ensures Reverse(s) == [s[|s| - 1]] + Reverse(s[..|s| - 1])
  {
  }
}
