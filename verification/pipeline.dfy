/** The objects put together: a robot publishes, a graph and a viewer listen, and the graph is asked about a link. */
module Pipeline {
  import opened Common
  import opened TransformAlgebra
  import opened Joints
  import opened RobotStructure
  import opened RobotWalk
  import opened RobotModels
  import opened FrameTrees
  import opened FrameGraphs
  import opened ForwardKinematics
  import opened Republishing
  import opened RobotStatePublishers
  import opened Kinematics

  /** A listener called "world" takes one published message and answers for one link. */
  method PublishAndAsk<T(!new)>(robot: RobotModel<T>, d: int, now: int, link: string, time: int)
      returns (pose: T)
    requires IsGroup(robot.algebra) && Proper(robot.View()) && robot.IsValid() && link in robot.links
    ensures Ascends(robot.View(), link) && Covers(robot.Sent(), Chain(robot.View(), link))
    ensures pose == ProductOver(robot.algebra, robot.worldToRoot, robot.Sent(), Chain(robot.View(), link))
  {
    hide Proper, Consistent, NoLoops, WalkOrder, IsWalk, Lists, Ascends, Chain, ProductOver, Covers, IsGroup,
         RecordsOf, Hangs, Names, ApplyAll, Query, WellFormed;
    ProperMeans(robot.View());
    KeysOf(robot.joints);
    var tf, order := robot.GetTransforms(now);
    ghost var j;
    j := Answers(robot.View(), robot.algebra, robot.worldToRoot, robot.Sent(), order, tf, d, link, time);
    var ok;
    ok, pose := Listen(robot.algebra, tf, d, link, time);
  }

  /** The viewer takes such a message too, and fills in the same pose. */
  method PublishAndShow<T(!new)>(robot: RobotModel<T>, now: int, link: string) returns (pose: T)
    requires IsGroup(robot.algebra) && Proper(robot.View()) && robot.IsValid() && link in robot.links
    ensures Ascends(robot.View(), link) && Covers(robot.Sent(), Chain(robot.View(), link))
    ensures pose == ProductOver(robot.algebra, robot.worldToRoot, robot.Sent(), Chain(robot.View(), link))
  {
    hide Proper, Consistent, NoLoops, WalkOrder, IsWalk, Lists, Ascends, Chain, ProductOver, Covers, IsGroup,
         RecordsOf, Hangs, Names, ApplyAll, Query, WellFormed;
    ProperMeans(robot.View());
    KeysOf(robot.joints);
    var tf, order := robot.GetTransforms(now);
    ghost var j;
    j := Answers(robot.View(), robot.algebra, robot.worldToRoot, robot.Sent(), order, tf, 0, link, 0);
    pose := Show(robot.algebra, tf, link, 0, 0, j);
  }

  lemma Answers<T(!new)>(m: Model<T>, g: Algebra<T>, world: T, sent: map<string, T>, order: seq<string>,
                         tf: seq<Stamped<T>>, d: int, l: string, time: int) returns (j: nat)
    requires Proper(m) && IsGroup(g) && IsWalk(m, order) && Lists(m, world, sent, order, tf)
    requires sent.Keys == m.joints.Keys && l in m.links
    ensures Ascends(m, l) && Covers(sent, Chain(m, l))
    ensures var t := ApplyAll(Fresh(WORLD, d), tf).0;
            WellFormed(t) && Query(t, g, l, WORLD, time) == Some(ProductOver(g, world, sent, Chain(m, l)))
    ensures Hangs(WORLD, tf) && 0 < j <= |tf| && Names(WORLD, tf)[j] == l
  {
    hide Proper, IsWalk, Lists, IsGroup, Hangs, Names, ApplyAll, Query, WellFormed, Ascends, Covers, Chain, ProductOver;
    EndToEnd(m, g, world, sent, order, tf, d, l, time);
    TransformsHang(m, world, sent, order, tf);
    j := FrameOfLink(m, world, sent, order, tf, l);
  }

  /** The viewer's side: what it fills in for a frame is what a graph answers. */
  method Show<T(!new)>(algebra: Algebra<T>, tf: seq<Stamped<T>>, link: string, ghost d: int, ghost time: int,
                       ghost j: nat) returns (pose: T)
    requires IsGroup(algebra) && Hangs(WORLD, tf) && 0 < j <= |tf| && Names(WORLD, tf)[j] == link
    ensures var t := ApplyAll(Fresh(WORLD, d), tf).0;
            WellFormed(t) && Query(t, algebra, link, WORLD, time) == Some(pose)
  {
    hide IsGroup, Hangs, Names, Shows, ApplyAll, Query, WellFormed;
    var viewer := new Viewer(algebra);
    HangsNoLoops(WORLD, tf);
    viewer.TfCallback(tf, WORLD);
    ShownIsAnswer(WORLD, d, tf, algebra, viewer.globalTf, j, time);
    pose := viewer.globalTf[link];
  }

  /** What a transform listener does with one message and one question. */
  method Listen<T(!new)>(algebra: Algebra<T>, tf: seq<Stamped<T>>, d: int, link: string, time: int)
      returns (ok: bool, pose: T)
    ensures var t := ApplyAll(Fresh(WORLD, d), tf).0;
            && WellFormed(t)
            && (ok <==> Query(t, algebra, link, WORLD, time).Some?)
            && (ok ==> pose == Query(t, algebra, link, WORLD, time).value)
  {
    hide ApplyAll, Query, WellFormed;
    ghost var k := ApplyAllIsRun(WORLD, d, [], tf);
    AfterWellFormed(WORLD, d, [] + tf[..k]);
    var graph := new FrameGraph(WORLD, d, algebra);
    var accepted := graph.UpdateAll(tf);
    var answer;
    ok, answer := graph.GetTransform(link, WORLD, time, Stamped(0, 0, "", "", algebra.one));
    pose := answer.transform;
  }

  /** What a graph holds that was fed with these messages from the start. */
  ghost function Heard<T>(d: int, messages: seq<seq<Stamped<T>>>): (t: Tree<T>)
    ensures |t.names| == |t.parent| == |t.samples|
  {
    if messages == [] then Fresh(WORLD, d) else Fed(WORLD, d, messages)
  }

  lemma HeardOn<T>(d: int, messages: seq<seq<Stamped<T>>>, tf: seq<Stamped<T>>)
    requires messages == [] ==> Hangs(WORLD, tf)
    ensures Heard(d, messages + [tf]) == ApplyAll(Heard(d, messages), tf).0
  {
    hide Hangs, ApplyAll;
    assert (messages + [tf])[..|messages|] == messages;
    if messages == [] {
      AllAccepted(WORLD, d, tf, 0);
      assert tf[..0] == [] && tf[0..] == tf;
    }
  }

  /**
   The whole pipeline in operation: the publisher is called for one joint message after the other, every message it
   sends goes to the graph, and in the end the graph is asked for the latest transform of a link. The answer is the
   product over the link's chain of what the joints sent after the last message that is answered, and every later
   message comes less than a period after that one.
   */
  method Operate<T(!new)>(node: RobotStatePublisher<T>, inbox: seq<seq<JointState>>, stamps: seq<int>, clock: seq<int>,
                          d: int, link: string)
    returns (pose: T, ghost k: nat)
    requires node.Valid() && node.inbox == [] && node.period > 0 && inbox != [] && |inbox| == |stamps| == |clock|
    requires Guarded(if node.ignoreTimestamps then clock else stamps, node.period)
    requires IsGroup(node.robot.algebra) && Proper(node.robot.View()) && node.robot.IsValid()
    requires link in node.robot.links
    modifies node, node.robot.joints.Values
    ensures IsLastPicked(if node.ignoreTimestamps then clock else stamps, node.period, k)
    ensures var judged := if node.ignoreTimestamps then clock else stamps;
            0 < k <= |judged| && forall i :: k <= i < |judged| ==> judged[i] - judged[k - 1] < node.period
    ensures var m, g := node.robot.View(), node.robot.algebra;
            var sent := SentBy(g, m.joints, Received(m.joints, old(node.initial), inbox[..k]));
            && m == old(node.robot.View()) && Ascends(m, link) && Covers(sent, Chain(m, link))
            && pose == ProductOver(g, node.robot.worldToRoot, sent, Chain(m, link))
  {
    hide RobotStatePublisher.Valid, FrameGraph.Valid, Guarded, Proper, IsGroup, Broadcast, Query, Fed, Heard, SentBy,
         Received, Ascends, Chain, Covers, ProductOver,
         RecordsOf, WellFormed, NoLoops, MessagesOf, IsLastPicked, IsListed, Links, Indexes, MotionsOf, Run;
    ghost var m, g, initial := node.robot.View(), node.robot.algebra, node.initial;
    ghost var judged := if node.ignoreTimestamps then clock else stamps;
    NodeMeans(node);
    NodeHistory(node);
    var graph := new FrameGraph(WORLD, d, node.robot.algebra);
    NothingHeard(m, g, initial, node.period, node.sent, d);
    for i := 0 to |inbox|
      invariant node.Valid() && node.robot.View() == m && node.initial == initial
      invariant node.inbox == inbox[..i] && node.stamps == judged[..i]
      invariant forall p :: p in node.sent ==> p.world == node.robot.worldToRoot
      invariant graph.Valid() && fresh(graph) && fresh(graph.buffers)
      invariant graph.tree == Heard(d, MessagesOf(node.sent))
    {
      Relay(node, graph, inbox[i], stamps[i], clock[i], d);
      assert inbox[..i + 1] == inbox[..i] + [inbox[i]] && judged[..i + 1] == judged[..i] + [judged[i]];
    }
    assert inbox[..|inbox|] == inbox && judged[..|judged|] == judged;
    NodeHistory(node);
    k := AllHeard(m, g, initial, node.period, inbox, judged, node.sent, d, link, node.robot.worldToRoot);
    var ok, answer := graph.GetTransform(link, WORLD, 0, Stamped(0, 0, "", "", node.robot.algebra.one));
    pose := answer.transform;
  }

  /** One joint message: what the publisher sends for it, if anything, goes to the graph. */
  method Relay<T(!new)>(node: RobotStatePublisher<T>, graph: FrameGraph<T>, states: seq<JointState>, stamp: int,
                        now: int, ghost d: int)
    requires node.Valid() && graph.Valid()
    requires Proper(node.robot.View()) && IsListed(node.robot.View())
    requires node.robot.View().joints.Keys <= node.initial.Keys
    requires graph.tree == Heard(d, MessagesOf(node.sent))
    modifies node, node.robot.joints.Values, graph, graph.buffers
    ensures node.Valid() && node.robot.View() == old(node.robot.View()) && node.initial == old(node.initial)
    ensures node.inbox == old(node.inbox) + [states]
    ensures node.stamps == old(node.stamps) + [if node.ignoreTimestamps then now else stamp]
    ensures forall p :: p in node.sent ==> p in old(node.sent) || p.world == node.robot.worldToRoot
    ensures graph.Valid() && fresh(graph.buffers - old(graph.buffers))
    ensures graph.tree == Heard(d, MessagesOf(node.sent))
  {
    hide RobotStatePublisher.Valid, FrameGraph.Valid, Proper, Broadcast, Hangs, ApplyAll, Heard, SentBy, Received,
         RecordsOf, NoLoops, MessagesOf, IsListed,
         WellFormed, Links, Indexes, MotionsOf, Run;
    ghost var before := node.sent;
    var tf := node.JointStateCallback(states, stamp, now);
    if tf.Some? {
      NodeHistory(node);
      SentHangs(node.robot.View(), node.robot.algebra, node.initial, node.period, node.inbox, node.stamps, node.sent);
      assert Hangs(WORLD, node.sent[|before|].tf);
      MessagesOn(before, node.sent[|before|]);
      HeardOn(d, MessagesOf(before), tf.value);
      var ok := graph.UpdateAll(tf.value);
    } else {
      assert node.sent == before;
    }
  }

  lemma NodeHistory<T(!new)>(node: RobotStatePublisher<T>)
    requires node.Valid()
    ensures |node.inbox| == |node.stamps|
    ensures Broadcast(node.robot.View(), node.robot.algebra, node.initial, node.period, node.inbox, node.stamps,
                      node.sent)
  {
  }

  lemma NodeMeans<T(!new)>(node: RobotStatePublisher<T>)
    requires node.Valid() && node.robot.IsValid()
    ensures IsListed(node.robot.View()) && node.robot.View().joints.Keys <= node.initial.Keys
  {
    var name :| name in node.robot.joints;
    assert name in node.robot.View().joints;
    assert node.robot.View().joints.Keys == node.robot.joints.Keys;
  }

  lemma ProperMeans<T>(m: Model<T>)
    requires Proper(m)
    ensures Consistent(m) && NoLoops(m) && WORLD !in m.links
  {
    WalkTerminates(m);
  }

  lemma KeysOf<T(!new)>(joints: map<string, Joint<T>>)
    ensures RecordsOf(joints).Keys == joints.Keys
  {
  }

  lemma AllHeard<T(!new)>(m: Model<T>, g: Algebra<T>, initial: map<string, Motion>, period: int,
                          inbox: seq<seq<JointState>>, stamps: seq<int>, ps: seq<Publication<T>>, d: int, l: string,
                          world: T)
    returns (k: nat)
    requires |inbox| == |stamps| && Broadcast(m, g, initial, period, inbox, stamps, ps) && inbox != []
    requires period > 0 && Guarded(stamps, period)
    requires Proper(m) && IsListed(m) && m.joints.Keys <= initial.Keys && IsGroup(g) && l in m.links
    requires forall p :: p in ps ==> p.world == world
    ensures IsLastPicked(stamps, period, k)
    ensures 0 < k <= |stamps| && forall i :: k <= i < |stamps| ==> stamps[i] - stamps[k - 1] < period
    ensures var sent, t := SentBy(g, m.joints, Received(m.joints, initial, inbox[..k])), Heard(d, MessagesOf(ps));
            && Ascends(m, l) && Covers(sent, Chain(m, l)) && WellFormed(t)
            && Query(t, g, l, WORLD, 0) == Some(ProductOver(g, world, sent, Chain(m, l)))
  {
    hide Proper, Broadcast, IsListed, IsGroup, SentBy, Received, Query, Ascends, Chain, Covers, ProductOver, WellFormed,
         IsLastPicked, Guarded;
    k := NodeKinematics(m, g, initial, period, inbox, stamps, ps, d, l);
    assert ps[|ps| - 1] in ps;
  }

  lemma NothingHeard<T>(m: Model<T>, g: Algebra<T>, initial: map<string, Motion>, period: int, ps: seq<Publication<T>>,
                        d: int)
    requires Broadcast(m, g, initial, period, [], [], ps)
    ensures ps == [] && Heard(d, MessagesOf(ps)) == Fresh(WORLD, d)
  {
    NothingBroadcast(m, g, initial, period, ps);
  }

  lemma MessagesOn<T>(ps: seq<Publication<T>>, p: Publication<T>)
    ensures MessagesOf(ps + [p]) == MessagesOf(ps) + [p.tf]
  {
    assert (ps + [p])[..|ps|] == ps;
  }

  lemma SentHangs<T>(m: Model<T>, g: Algebra<T>, initial: map<string, Motion>, period: int, inbox: seq<seq<JointState>>,
                     stamps: seq<int>, ps: seq<Publication<T>>)
    requires |inbox| == |stamps| && Broadcast(m, g, initial, period, inbox, stamps, ps)
    requires Proper(m) && IsListed(m) && m.joints.Keys <= initial.Keys
    ensures forall n :: 0 <= n < |ps| ==> Hangs(WORLD, ps[n].tf)
  {
    hide Proper, Broadcast, IsListed, Hangs, WalkOrder, IsWalk, Lists;
    var order := OneOrder(m);
    BroadcastPublished(m, g, initial, period, inbox, stamps, ps, order);
    forall n | 0 <= n < |ps| ensures Hangs(WORLD, ps[n].tf) {
      assert Issue(m, order, ps[n]);
      TransformsHang(m, ps[n].world, ps[n].sent, order, ps[n].tf);
    }
  }
}
