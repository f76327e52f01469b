/**
 The walk over a robot that lists its transforms, as a value: its stack step by step, when the stack runs empty,
 and what the order in which joints are emitted promises.
 */
module RobotWalk {
  import opened Common
  import opened TransformAlgebra
  import opened Joints
  import opened RobotStructure
  import opened FrameTrees
  import opened Trails

  const WORLD := "world"

  /** Sequence numbers are 32 bits wide. */
  const SEQUENCE_LIMIT := 0x1_0000_0000

  /** The sequence number of entry n. */
  function Sequence(n: nat): nat {
    n % SEQUENCE_LIMIT
  }

  lemma NextSequence(n: nat)
    ensures (Sequence(n) + 1) % SEQUENCE_LIMIT == Sequence(n + 1)
  {
  }

  /** What is sent for a joint: a mimic joint's origin, and any other joint's current transform. */
  function Emitted<T>(g: Algebra<T>, r: JointRecord<T>, motion: Motion): T {
    if r.IsMimic() then r.origin else TransformAt(g, r, motion.position)
  }

  /** What is sent for each joint when the joints have moved so. */
  ghost function SentBy<T>(g: Algebra<T>, records: map<string, JointRecord<T>>, motions: map<string, Motion>)
    : map<string, T>
  {
    map name | name in records && name in motions :: Emitted(g, records[name], motions[name])
  }

  /** The links at which the listed joints end. */
  ghost function Ends<T>(m: Model<T>, order: seq<string>): set<string>
    requires forall k :: 0 <= k < |order| ==> order[k] in m.joints
  {
    if order == [] then {} else Ends(m, order[..|order| - 1]) + {m.joints[order[|order| - 1]].child}
  }

  lemma {:induction false} EndsExact<T>(m: Model<T>, order: seq<string>, l: string)
    requires forall k :: 0 <= k < |order| ==> order[k] in m.joints
    ensures l in Ends(m, order) <==> exists i :: 0 <= i < |order| && m.joints[order[i]].child == l
  {
    if order != [] {
      EndsExact(m, order[..|order| - 1], l);
      assert forall i :: 0 <= i < |order| - 1 ==> order[..|order| - 1][i] == order[i];
    }
  }

  /** Each joint in the order hangs from the root or from the end of an earlier one. */
  ghost predicate ParentsFirst<T>(m: Model<T>, order: seq<string>) {
    && (forall k :: 0 <= k < |order| ==> order[k] in m.joints)
    && (forall k :: 0 <= k < |order| ==>
          m.joints[order[k]].parent == m.root || m.joints[order[k]].parent in Ends(m, order[..k]))
  }

  /** One entry for the root and then one for each joint of the order. */
  ghost predicate Lists<T>(m: Model<T>, world: T, sent: map<string, T>, order: seq<string>, tf: seq<Stamped<T>>) {
    && |tf| == |order| + 1
    && tf[0].frameId == WORLD && tf[0].childFrameId == m.root && tf[0].transform == world
    && (forall k :: 0 <= k < |order| ==> order[k] in m.joints && order[k] in sent)
    && (forall k :: 0 <= k < |order| ==> tf[k + 1].frameId == m.joints[order[k]].parent)
    && (forall k :: 0 <= k < |order| ==> tf[k + 1].childFrameId == m.joints[order[k]].child)
    && (forall k :: 0 <= k < |order| ==> tf[k + 1].transform == sent[order[k]])
    && (forall k :: 0 <= k < |tf| ==> tf[k].sequence == Sequence(k))
  }

  /** The entries are counted from 0, in 32 bits. */
  lemma EntriesCounted<T>(m: Model<T>, world: T, sent: map<string, T>, order: seq<string>, tf: seq<Stamped<T>>, k: nat)
    returns (times: nat)
    requires Lists(m, world, sent, order, tf) && k < |tf|
    ensures tf[k].sequence < 0x1_0000_0000 && tf[k].sequence + times * 0x1_0000_0000 == k
  {
    hide Sequence;
    times := SequenceOf(k);
  }

  lemma SequenceOf(n: nat) returns (times: nat)
    ensures Sequence(n) < 0x1_0000_0000 && Sequence(n) + times * 0x1_0000_0000 == n
  {
    times := n / SEQUENCE_LIMIT;
  }

  lemma ListsStart<T>(m: Model<T>, world: T, sent: map<string, T>, tf: seq<Stamped<T>>)
    requires |tf| == 1 && tf[0].sequence == 0
    requires tf[0].frameId == WORLD && tf[0].childFrameId == m.root && tf[0].transform == world
    ensures Lists(m, world, sent, [], tf)
  {
  }

  lemma ListsSnoc<T>(m: Model<T>, world: T, sent: map<string, T>, order: seq<string>, tf: seq<Stamped<T>>, j: string,
                     entry: Stamped<T>)
    requires Lists(m, world, sent, order, tf) && j in m.joints && j in sent
    requires entry.frameId == m.joints[j].parent && entry.childFrameId == m.joints[j].child
    requires entry.transform == sent[j] && entry.sequence == Sequence(|tf|)
    ensures Lists(m, world, sent, order + [j], tf + [entry])
  {
  }

  /** The whole promise: exactly the joints below reachable links, each once, parents first. */
  ghost predicate IsWalk<T>(m: Model<T>, order: seq<string>) {
    && Distinct(order)
    && ParentsFirst(m, order)
    && (forall j :: j in order <==> j in m.joints && Reachable(m, m.joints[j].parent))
  }

  // ---------- The walk, step by step

  /** The links that are pushed for a list of joints. */
  function Pushed<T>(m: Model<T>, js: seq<string>): seq<string> {
    if js == [] then []
    else (if js[0] in m.joints && m.joints[js[0]].child in m.links then [m.joints[js[0]].child] else [])
         + Pushed(m, js[1..])
  }

  /** The joints that are emitted for a list of names: names of no joint are passed over. */
  ghost function Known<T>(m: Model<T>, js: seq<string>): seq<string> {
    if js == [] then [] else (if js[0] in m.joints then [js[0]] else []) + Known(m, js[1..])
  }

  /** What is pushed when a link is expanded. */
  function Expansion<T>(m: Model<T>, l: string): seq<string> {
    if l in m.links then Pushed(m, m.links[l].children) else []
  }

  ghost function EmittedBelow<T>(m: Model<T>, l: string): seq<string> {
    if l in m.links then Known(m, m.links[l].children) else []
  }

  /** The link pushed last is expanded first. */
  function NextStack<T>(m: Model<T>, stack: seq<string>): seq<string> {
    if stack == [] then [] else stack[..|stack| - 1] + Expansion(m, stack[|stack| - 1])
  }

  /** The stack after n links have been popped and expanded. */
  function StackAfter<T>(m: Model<T>, n: nat): seq<string> {
    if n == 0 then [m.root] else NextStack(m, StackAfter(m, n - 1))
  }

  /** The joints emitted by then. */
  ghost function OrderAfter<T>(m: Model<T>, n: nat): seq<string> {
    if n == 0 then []
    else
      var stack := StackAfter(m, n - 1);
      OrderAfter(m, n - 1) + if stack == [] then [] else EmittedBelow(m, stack[|stack| - 1])
  }

  /** The whole order in which joints are emitted. */
  ghost predicate WalkOrder<T>(m: Model<T>, order: seq<string>) {
    exists n :: StackAfter(m, n) == [] && OrderAfter(m, n) == order
  }

  lemma {:induction false} WalkStays<T>(m: Model<T>, n: nat, k: nat)
    requires n <= k && StackAfter(m, n) == []
    ensures StackAfter(m, k) == [] && OrderAfter(m, k) == OrderAfter(m, n)
    decreases k
  {
    if n < k {
      WalkStays(m, n, k - 1);
    }
  }

  lemma WalkOrderUnique<T>(m: Model<T>, a: seq<string>, b: seq<string>)
    requires WalkOrder(m, a) && WalkOrder(m, b)
    ensures a == b
  {
    var n: nat :| StackAfter(m, n) == [] && OrderAfter(m, n) == a;
    var k: nat :| StackAfter(m, k) == [] && OrderAfter(m, k) == b;
    WalkStays(m, n, if n <= k then k else n);
    WalkStays(m, k, if n <= k then k else n);
  }

  lemma WalkOrderAt<T>(m: Model<T>, n: nat)
    requires StackAfter(m, n) == []
    ensures WalkOrder(m, OrderAfter(m, n))
  {
  }

  lemma WalkBegins<T>(m: Model<T>)
    ensures StackAfter(m, 0) == [m.root] && OrderAfter(m, 0) == []
  {
  }

  /** One turn of the walk's outer loop. */
  lemma WalkTurn<T>(m: Model<T>, n: nat)
    requires StackAfter(m, n) != []
    ensures var stack := StackAfter(m, n);
            var rest, l := stack[..|stack| - 1], stack[|stack| - 1];
            && StackAfter(m, n + 1) == rest + (if l in m.links then Pushed(m, m.links[l].children) else [])
            && OrderAfter(m, n + 1) == OrderAfter(m, n) + if l in m.links then Known(m, m.links[l].children) else []
  {
    hide Pushed, Known;
  }

  /** While the stack is not empty, the turn at which it will be is still to come. */
  lemma WalkGoesOn<T>(m: Model<T>, n: nat, last: nat)
    requires StackAfter(m, n) != [] && StackAfter(m, last) == []
    ensures n < last
    ensures var stack := StackAfter(m, n);
            var rest, l := stack[..|stack| - 1], stack[|stack| - 1];
            && StackAfter(m, n + 1) == rest + (if l in m.links then Pushed(m, m.links[l].children) else [])
            && OrderAfter(m, n + 1) == OrderAfter(m, n) + if l in m.links then Known(m, m.links[l].children) else []
  {
    hide Pushed, Known, StackAfter, OrderAfter;
    WalkTurn(m, n);
    if last <= n {
      WalkStays(m, last, n);
    }
  }

  lemma NothingPushed<T>(m: Model<T>)
    ensures Pushed(m, []) == [] && Known(m, []) == []
  {
  }

  lemma {:induction false} PushedSnoc<T>(m: Model<T>, js: seq<string>, j: string)
    ensures Pushed(m, js + [j]) ==
            Pushed(m, js) + if j in m.joints && m.joints[j].child in m.links then [m.joints[j].child] else []
    ensures Known(m, js + [j]) == Known(m, js) + if j in m.joints then [j] else []
  {
    if js == [] {
      assert (js + [j])[1..] == [];
    } else {
      assert (js + [j])[1..] == js[1..] + [j];
      PushedSnoc(m, js[1..], j);
    }
  }

  lemma PushedAt<T>(m: Model<T>, js: seq<string>, i: nat)
    requires i < |js|
    ensures Pushed(m, js[..i + 1]) == Pushed(m, js[..i]) +
            if js[i] in m.joints && m.joints[js[i]].child in m.links then [m.joints[js[i]].child] else []
    ensures Known(m, js[..i + 1]) == Known(m, js[..i]) + if js[i] in m.joints then [js[i]] else []
  {
    hide Pushed, Known;
    assert js[..i + 1] == js[..i] + [js[i]];
    PushedSnoc(m, js[..i], js[i]);
  }

  // ---------- When the stack runs empty

  ghost function Expansions<T>(m: Model<T>): string -> seq<string> {
    l => Expansion(m, l)
  }

  /** No link that is reached from the root through pushed links lies below itself. */
  ghost predicate NoLoops<T>(m: Model<T>) {
    NoneRecurs(Expansions(m), m.root)
  }

  /** The stack after n more steps. */
  ghost function StackFrom<T>(m: Model<T>, stack: seq<string>, n: nat): seq<string>
    decreases n
  {
    if n == 0 then stack else StackFrom(m, NextStack(m, stack), n - 1)
  }

  lemma {:induction false} StackFromAdds<T>(m: Model<T>, stack: seq<string>, a: nat, b: nat)
    ensures StackFrom(m, stack, a + b) == StackFrom(m, StackFrom(m, stack, a), b)
    decreases a
  {
    hide NextStack;
    if a > 0 {
      StackFromAdds(m, NextStack(m, stack), a - 1, b);
    }
  }

  lemma {:induction false} StackFromRoot<T>(m: Model<T>, n: nat)
    ensures StackFrom(m, [m.root], n) == StackAfter(m, n)
  {
    if n > 0 {
      StackFromRoot(m, n - 1);
      StackFromAdds(m, [m.root], n - 1, 1);
      assert StackFrom(m, StackAfter(m, n - 1), 1) == StackFrom(m, NextStack(m, StackAfter(m, n - 1)), 0);
    }
  }

  /** Links from which no walk makes more than h steps are worked off the top of the stack. */
  lemma {:induction false} WorkedOff<T>(m: Model<T>, base: seq<string>, tops: seq<string>, h: nat) returns (n: nat)
    requires forall l :: l in tops ==> EndsWithin(Expansions(m), l, h)
    ensures StackFrom(m, base + tops, n) == base
    decreases h, |tops|
  {
    hide Expansion, NextStack;
    if tops == [] {
      n := 0;
      assert base + tops == base;
    } else {
      var rest, l := tops[..|tops| - 1], tops[|tops| - 1];
      var pushed := Expansion(m, l);
      var a := 0;
      if pushed == [] {
        assert base + rest + pushed == base + rest;
      } else {
        assert l in tops && pushed[0] in Expansions(m)(l);
        a := WorkedOff(m, base + rest, pushed, h - 1);
      }
      var b := WorkedOff(m, base, rest, h);
      NextOnTop(m, base, tops);
      StackFromAdds(m, base + rest + pushed, a, b);
      n := 1 + a + b;
    }
  }

  lemma NextOnTop<T>(m: Model<T>, base: seq<string>, tops: seq<string>)
    requires tops != []
    ensures NextStack(m, base + tops) == base + tops[..|tops| - 1] + Expansion(m, tops[|tops| - 1])
  {
    hide Expansion;
    assert (base + tops)[..|base + tops| - 1] == base + tops[..|tops| - 1];
  }

  /** Whatever stands on a stack that runs empty in n steps makes no walk longer than that. */
  lemma {:induction false} RanEmpty<T>(m: Model<T>, stack: seq<string>, n: nat, l: string)
    requires StackFrom(m, stack, n) == [] && l in stack
    ensures EndsWithin(Expansions(m), l, n)
    decreases n
  {
    hide Expansion;
    var next := NextStack(m, stack);
    if l == stack[|stack| - 1] {
      forall x | x in Expansions(m)(l) ensures n > 0 && EndsWithin(Expansions(m), x, n - 1) {
        assert x in next;
        RanEmpty(m, next, n - 1, x);
      }
    } else {
      assert l in next;
      RanEmpty(m, next, n - 1, l);
      EndsLater(Expansions(m), l, n - 1, n);
    }
  }

  /** The walk ends exactly when none of the links it expands from the root lies below itself. */
  lemma WalkEndsIff<T>(m: Model<T>)
    ensures (exists n :: StackAfter(m, n) == []) <==> NoLoops(m)
  {
    hide StackAfter, StackFrom, EndsWithin, NoneRecurs, Expansion;
    ExpansionsBusy(m);
    EndsIff(Expansions(m), m.links.Keys, m.root);
    if NoLoops(m) {
      var n := WorkedOff(m, [], [m.root], |m.links.Keys|);
      assert [] + [m.root] == [m.root];
      StackFromRoot(m, n);
    }
    if n: nat :| StackAfter(m, n) == [] {
      StackFromRoot(m, n);
      RanEmpty(m, [m.root], n, m.root);
      assert EndsWithin(Expansions(m), m.root, n);
    }
  }

  lemma ExpansionsBusy<T>(m: Model<T>)
    ensures forall l :: Expansions(m)(l) != [] ==> l in m.links.Keys
  {
  }

  // ---------- The invariant of the walk over a consistent model

  /**
   Links wait on the stack or have been expanded; of the link being expanded, the pending joints are still
   to be emitted. Consistency of the model makes every link arrive on the stack at most once.
   */
  ghost predicate Walking<T>(m: Model<T>, stack: seq<string>, expanded: set<string>, pending: seq<string>,
                             order: seq<string>) {
    && m.root != ""
    && Distinct(stack) && Distinct(pending) && Distinct(order)
    && ParentsFirst(m, order)
    && Met(m, stack, expanded, order)
    && Told(m, stack, expanded, pending, order)
  }

  /** The links met so far: the root, and below it only ends of emitted joints. */
  ghost predicate Met<T>(m: Model<T>, stack: seq<string>, expanded: set<string>, order: seq<string>) {
    && (m.root in stack || m.root in expanded)
    && (forall l :: l in stack ==> l in m.links && l !in expanded)
    && (forall l :: l in expanded ==> l in m.links)
    && (forall l :: l in stack || l in expanded ==> Reachable(m, l))
    && (forall l {:trigger m.links[l]} :: (l in stack || l in expanded) && l != m.root ==> m.links[l].parent in order)
  }

  /** The joints emitted so far: those below expanded links, but for the pending ones. */
  ghost predicate Told<T>(m: Model<T>, stack: seq<string>, expanded: set<string>, pending: seq<string>,
                          order: seq<string>) {
    && (forall j :: j in pending ==> j in m.joints && m.joints[j].parent in expanded)
    && (forall j :: j in order <==> j in m.joints && m.joints[j].parent in expanded && j !in pending)
    && (forall j :: j in order && m.joints[j].child in m.links
         ==> m.joints[j].child in stack || m.joints[j].child in expanded)
  }

  lemma WalkStarts<T>(m: Model<T>)
    requires Consistent(m) && m.root != ""
    ensures Walking(m, [m.root], {}, [], [])
  {
    assert AtDepth(m, m.root, 0);
  }

  lemma ChildrenAre<T>(m: Model<T>, l: string)
    requires Consistent(m) && l in m.links
    ensures Distinct(m.links[l].children)
    ensures forall j :: j in m.links[l].children <==> j in m.joints && m.joints[j].parent == l
  {
  }

  lemma WalkPops<T>(m: Model<T>, stack: seq<string>, expanded: set<string>, order: seq<string>)
    requires Consistent(m) && Walking(m, stack, expanded, [], order) && stack != []
    ensures var l := stack[|stack| - 1];
            && l in m.links && l !in expanded
            && Walking(m, stack[..|stack| - 1], expanded + {l}, m.links[l].children, order)
  {
    hide Consistent, Reachable, ParentsFirst, Distinct, Told, Met;
    var l, rest := stack[|stack| - 1], stack[..|stack| - 1];
    DistinctInit(stack);
    assert forall x :: x in stack <==> x in rest || x == l;
    MetPops(m, stack, expanded, order);
    ChildrenAre(m, l);
    ToldPops(m, stack, expanded, order);
  }

  lemma MetPops<T>(m: Model<T>, stack: seq<string>, expanded: set<string>, order: seq<string>)
    requires Met(m, stack, expanded, order) && stack != []
    requires stack[|stack| - 1] !in stack[..|stack| - 1]
    ensures var l := stack[|stack| - 1];
            l in m.links && l !in expanded && Met(m, stack[..|stack| - 1], expanded + {l}, order)
  {
    hide Reachable;
    assert forall x :: x in stack <==> x in stack[..|stack| - 1] || x == stack[|stack| - 1];
  }

  lemma ToldPops<T>(m: Model<T>, stack: seq<string>, expanded: set<string>, order: seq<string>)
    requires Consistent(m) && Told(m, stack, expanded, [], order) && stack != []
    requires stack[|stack| - 1] in m.links && stack[|stack| - 1] !in expanded
    ensures var l := stack[|stack| - 1];
            Told(m, stack[..|stack| - 1], expanded + {l}, m.links[l].children, order)
  {
    hide Consistent;
    ChildrenAre(m, stack[|stack| - 1]);
    assert forall x :: x in stack <==> x in stack[..|stack| - 1] || x == stack[|stack| - 1];
  }

  lemma DistinctInit<A>(s: seq<A>)
    requires Distinct(s) && s != []
    ensures Distinct(s[..|s| - 1]) && s[|s| - 1] !in s[..|s| - 1]
  {
  }

  lemma DistinctTail<A>(s: seq<A>)
    requires Distinct(s) && s != []
    ensures Distinct(s[1..]) && s[0] !in s[1..]
  {
  }

  lemma DistinctSnoc<A>(s: seq<A>, x: A)
    requires Distinct(s) && x !in s
    ensures Distinct(s + [x])
  {
  }

  lemma JointOwns<T>(m: Model<T>, j: string, l: string)
    requires Consistent(m) && m.root != "" && j in m.joints && l in m.links && m.joints[j].child == l
    ensures m.links[l].parent == j && l != m.root
  {
  }

  lemma StepReachable<T>(m: Model<T>, j: string)
    requires Consistent(m) && m.root != "" && j in m.joints && m.joints[j].child in m.links
               && Reachable(m, m.joints[j].parent)
    ensures Reachable(m, m.joints[j].child)
  {
    hide Consistent;
    JointOwns(m, j, m.joints[j].child);
    var n: nat :| AtDepth(m, m.joints[j].parent, n);
    assert AtDepth(m, m.joints[j].child, n + 1);
  }

  lemma ParentsFirstSnoc<T>(m: Model<T>, order: seq<string>, j: string)
    requires Consistent(m) && ParentsFirst(m, order) && j in m.joints
    requires var parent := m.joints[j].parent;
             parent == m.root || (parent in m.links && m.links[parent].parent in order)
    ensures ParentsFirst(m, order + [j])
  {
    hide Consistent;
    var parent, all := m.joints[j].parent, order + [j];
    if parent != m.root {
      var i :| 0 <= i < |order| && order[i] == m.links[parent].parent;
      OwnerOf(m, parent);
      EndsExact(m, order, parent);
    }
    assert all[..|order|] == order;
    forall k | 0 <= k < |all| && m.joints[all[k]].parent != m.root
      ensures m.joints[all[k]].parent in Ends(m, all[..k])
    {
      if k < |order| {
        assert all[..k] == order[..k];
      }
    }
  }

  lemma OwnerOf<T>(m: Model<T>, l: string)
    requires Consistent(m) && l in m.links && m.links[l].parent in m.joints
    ensures m.joints[m.links[l].parent].child == l
  {
  }

  /** Emitting a pending joint keeps the invariant: its end is a declared link never seen before, or none. */
  lemma WalkEmits<T>(m: Model<T>, stack: seq<string>, expanded: set<string>, pending: seq<string>, order: seq<string>)
    requires Consistent(m) && Walking(m, stack, expanded, pending, order) && pending != []
    ensures pending[0] in m.joints
    ensures var c := m.joints[pending[0]].child;
            Walking(m, if c in m.links then stack + [c] else stack, expanded, pending[1..], order + [pending[0]])
  {
    hide Consistent, Reachable, ParentsFirst, Distinct, Told, Met;
    var j, rest := pending[0], pending[1..];
    DistinctTail(pending);
    ToldEmits(m, stack, expanded, pending, order);
    var c := m.joints[j].child;
    MetEmits(m, stack, expanded, order, j);
    DistinctSnoc(order, j);
    ParentsFirstSnoc(m, order, j);
    if c in m.links {
      DistinctSnoc(stack, c);
    }
  }

  lemma ToldEmits<T>(m: Model<T>, stack: seq<string>, expanded: set<string>, pending: seq<string>, order: seq<string>)
    requires Told(m, stack, expanded, pending, order) && pending != [] && pending[0] !in pending[1..]
    ensures var j := pending[0];
            && j in m.joints && m.joints[j].parent in expanded && j !in order
            && Told(m, if m.joints[j].child in m.links then stack + [m.joints[j].child] else stack, expanded,
                    pending[1..], order + [j])
  {
    var j := pending[0];
    assert forall x :: x in pending <==> x in pending[1..] || x == j;
    assert forall x :: x in order + [j] <==> x in order || x == j;
    assert forall x :: x in stack + [m.joints[j].child] <==> x in stack || x == m.joints[j].child;
  }

  /** The end of an emitted joint, where it is a declared link, was not met before. */
  lemma MetEmits<T>(m: Model<T>, stack: seq<string>, expanded: set<string>, order: seq<string>, j: string)
    requires Consistent(m) && m.root != "" && Met(m, stack, expanded, order)
    requires j in m.joints && m.joints[j].parent in expanded && j !in order
    ensures m.joints[j].parent == m.root ||
            (m.joints[j].parent in m.links && m.links[m.joints[j].parent].parent in order)
    ensures var c := m.joints[j].child;
            && (c in m.links ==> c !in stack)
            && Met(m, if c in m.links then stack + [c] else stack, expanded, order + [j])
  {
    hide Consistent, Reachable;
    var c := m.joints[j].child;
    assert forall x :: x in order + [j] <==> x in order || x == j;
    if c in m.links {
      JointOwns(m, j, c);
      StepReachable(m, j);
      assert forall x :: x in stack + [c] <==> x in stack || x == c;
    }
  }

  /** When the stack is empty everything reachable has been expanded. */
  lemma WalkEnds<T>(m: Model<T>, expanded: set<string>, order: seq<string>)
    requires Consistent(m) && Walking(m, [], expanded, [], order)
    ensures IsWalk(m, order)
  {
    forall j | j in m.joints && Reachable(m, m.joints[j].parent) ensures j in order {
      var n: nat :| AtDepth(m, m.joints[j].parent, n);
      ReachedExpanded(m, expanded, order, m.joints[j].parent, n);
    }
  }

  lemma {:induction false} ReachedExpanded<T>(m: Model<T>, expanded: set<string>, order: seq<string>, l: string, n: nat)
    requires Consistent(m) && Walking(m, [], expanded, [], order) && AtDepth(m, l, n)
    ensures l in expanded
    decreases n
  {
    hide Consistent, Reachable, ParentsFirst, Distinct;
    if n > 0 {
      ReachedExpanded(m, expanded, order, m.joints[m.links[l].parent].parent, n - 1);
      OwnerOf(m, l);
    }
  }

  /** Emitting all pending joints, one after the other. */
  lemma {:induction false} WalkExpands<T>(m: Model<T>, stack: seq<string>, expanded: set<string>,
                                          pending: seq<string>, order: seq<string>)
    requires Consistent(m) && Walking(m, stack, expanded, pending, order)
    ensures Walking(m, stack + Pushed(m, pending), expanded, [], order + Known(m, pending))
    decreases |pending|
  {
    hide Consistent, Walking;
    if pending == [] {
      assert stack + Pushed(m, pending) == stack && order + Known(m, pending) == order;
    } else {
      WalkEmits(m, stack, expanded, pending, order);
      var c := m.joints[pending[0]].child;
      var next := if c in m.links then stack + [c] else stack;
      WalkExpands(m, next, expanded, pending[1..], order + [pending[0]]);
      assert next + Pushed(m, pending[1..]) == stack + Pushed(m, pending);
      assert order + [pending[0]] + Known(m, pending[1..]) == order + Known(m, pending);
    }
  }

  /** Over a consistent model the walk keeps the invariant from step to step. */
  lemma {:induction false} WalkKeeps<T>(m: Model<T>, n: nat) returns (expanded: set<string>)
    requires Consistent(m) && m.root != ""
    ensures Walking(m, StackAfter(m, n), expanded, [], OrderAfter(m, n))
  {
    hide Consistent, Walking, Pushed, Known;
    if n == 0 {
      WalkStarts(m);
      expanded := {};
    } else {
      expanded := WalkKeeps(m, n - 1);
      var stack, order := StackAfter(m, n - 1), OrderAfter(m, n - 1);
      if stack != [] {
        var l, rest := stack[|stack| - 1], stack[..|stack| - 1];
        WalkPops(m, stack, expanded, order);
        expanded := expanded + {l};
        WalkExpands(m, rest, expanded, m.links[l].children, order);
      } else {
        assert OrderAfter(m, n) == order;
      }
    }
  }

  /** So the order it emits the joints in is the promised one. */
  lemma WalkMeetsPromise<T>(m: Model<T>, order: seq<string>)
    requires Consistent(m) && m.root != "" && WalkOrder(m, order)
    ensures IsWalk(m, order)
  {
    hide Consistent, Walking, StackAfter, OrderAfter, IsWalk;
    var n: nat :| StackAfter(m, n) == [] && OrderAfter(m, n) == order;
    var expanded := WalkKeeps(m, n);
    WalkEnds(m, expanded, order);
  }

  // ---------- Which models have no loops

  /** Whatever cycles there are among joints that the root does not reach, the walk over a consistent model ends. */
  lemma WalkTerminates<T>(m: Model<T>)
    requires Consistent(m) && m.root != ""
    ensures NoLoops(m) && exists n :: StackAfter(m, n) == []
  {
    hide Consistent, StackAfter, Trail, Expansion;
    forall path | Trail(Expansions(m), m.root, path) ensures Distinct(path) {
      forall i, j | 0 <= i < j < |path| ensures path[i] != path[j] {
        TrailClimbs(m, path, i, j);
      }
    }
    WalkEndsIff(m);
  }

  /** Every link of a trail but the root knows the link before it. */
  lemma {:induction false} TrailClimbs<T>(m: Model<T>, path: seq<string>, i: nat, j: nat)
    requires Consistent(m) && m.root != "" && Trail(Expansions(m), m.root, path) && i < j < |path|
    ensures path[i] != path[j]
  {
    hide Consistent, Expansion;
    assert path[j] in Expansions(m)(path[j - 1]);
    PushedFrom(m, path[j - 1], path[j]);
    if i > 0 {
      assert path[i] in Expansions(m)(path[i - 1]);
      PushedFrom(m, path[i - 1], path[i]);
      TrailClimbs(m, path, i - 1, j - 1);
    }
  }

  lemma PushedFrom<T>(m: Model<T>, l: string, c: string)
    requires Consistent(m) && m.root != "" && c in Expansion(m, l)
    ensures c in m.links && c != m.root
    ensures m.links[c].parent in m.joints && m.joints[m.links[c].parent].parent == l
  {
    hide Consistent;
    ChildrenAre(m, l);
    var j := PushedFor(m, m.links[l].children, c);
    JointOwns(m, j, c);
  }

  lemma {:induction false} PushedFor<T>(m: Model<T>, js: seq<string>, c: string) returns (j: string)
    requires c in Pushed(m, js)
    ensures j in js && j in m.joints && m.joints[j].child == c && c in m.links
  {
    if js[0] in m.joints && m.joints[js[0]].child == c && c in m.links {
      j := js[0];
    } else {
      j := PushedFor(m, js[1..], c);
    }
  }

  /** Two joints of one name, one below the other, parse without complaint, and the walk over them never ends. */
  lemma SameNameNeverEnds<T>(origin: T, n: nat)
    ensures var js, ls := [Named("j", "a", "b", origin), Named("j", "b", "c", origin)], ["a", "b", "c"];
            && DistinctChildren(js) && MimicsKnown(JointMap(js))
            && StackAfter(Parsed(js, ls), n) != []
  {
    hide JointMap, LinkMap, ParentMap, ChildrenOf, StackAfter, NoLoops;
    var js, ls := [Named("j", "a", "b", origin), Named("j", "b", "c", origin)], ["a", "b", "c"];
    var m := Parsed(js, ls);
    JointMapOfOneName(js);
    ChildrenOfTwo(js, ls[0]);
    ChildrenOfTwo(js, ls[1]);
    ParentMapExact(js, ls[0]);
    ParentMapExact(js, ls[1]);
    ParentMapExact(js, ls[2]);
    assert js[0].child == "b" && js[1].child == "c";
    LinkMapExact(js, ls, ls[0]);
    LinkMapExact(js, ls, ls[1]);
    RootOfThree(js, ls);
    SelfLoop(m);
    WalkEndsIff(m);
  }

  /** A repeated name need not do harm: with both joints below the root, the walk lists the first one twice and ends. */
  lemma SameNameMayEnd<T>(origin: T)
    ensures var js, ls := [Named("j", "a", "b", origin), Named("j", "a", "c", origin)], ["a", "b"];
            && DistinctChildren(js) && MimicsKnown(JointMap(js))
            && WalkOrder(Parsed(js, ls), ["j", "j"]) && !Consistent(Parsed(js, ls))
  {
    hide JointMap, LinkMap, ParentMap, ChildrenOf, StackAfter, OrderAfter;
    var js, ls := [Named("j", "a", "b", origin), Named("j", "a", "c", origin)], ["a", "b"];
    var m := Parsed(js, ls);
    JointMapOfOneName(js);
    ChildrenOfTwo(js, ls[0]);
    ChildrenOfTwo(js, ls[1]);
    ParentMapExact(js, ls[0]);
    ParentMapExact(js, ls[1]);
    assert js[0].child == "b" && js[1].child == "c";
    LinkMapExact(js, ls, ls[0]);
    LinkMapExact(js, ls, ls[1]);
    assert ls[..1] == [ls[0]];
    assert RootOf(js, [ls[0]]) == ls[0];
    TwiceBelow(m);
    var twice := ["j", "j"];
    assert m.links["a"].children == twice && twice[0] == twice[1];
  }

  lemma TwiceBelow<T>(m: Model<T>)
    requires m.root == "a" && "a" in m.links && "b" in m.links && "j" in m.joints && m.joints["j"].child == "b"
    requires m.links["a"].children == ["j", "j"] && m.links["b"].children == []
    ensures WalkOrder(m, ["j", "j"])
  {
    hide StackAfter, OrderAfter, Pushed, Known;
    var js, bs := ["j", "j"], ["b", "b"];
    NothingPushed(m);
    PushedSnoc(m, [], "j");
    PushedSnoc(m, ["j"], "j");
    assert [] + ["j"] == ["j"] && ["j"] + ["j"] == js && ["b"] + ["b"] == bs;
    WalkBegins(m);
    WalkTurn(m, 0);
    assert StackAfter(m, 1) == bs && OrderAfter(m, 1) == js;
    WalkTurn(m, 1);
    assert StackAfter(m, 2) == bs[..1] && OrderAfter(m, 2) == js;
    WalkTurn(m, 2);
    assert StackAfter(m, 3) == [] && OrderAfter(m, 3) == js;
    WalkOrderAt(m, 3);
  }

  lemma JointMapOfOneName<T>(js: seq<JointRecord<T>>)
    requires |js| == 2 && js[0].name == js[1].name
    ensures JointMap(js) == map[js[0].name := js[0]]
  {
    assert js[..1] == [js[0]] && js[..1][..0] == [];
    assert JointMap(js[..1]) == map[js[0].name := js[0]];
  }

  lemma ChildrenOfTwo<T>(js: seq<JointRecord<T>>, link: string)
    requires |js| == 2
    ensures ChildrenOf(js, link) == (if js[0].parent == link then [js[0].name] else [])
              + (if js[1].parent == link then [js[1].name] else [])
  {
    assert js[..1][..0] == [];
    assert ChildrenOf(js[..1], link) == if js[0].parent == link then [js[0].name] else [];
  }

  lemma RootOfThree<T>(js: seq<JointRecord<T>>, ls: seq<string>)
    requires |ls| == 3 && MakeLink(js, ls[0]).IsRoot() && !MakeLink(js, ls[1]).IsRoot() && !MakeLink(js, ls[2]).IsRoot()
    ensures RootOf(js, ls) == ls[0]
  {
    hide MakeLink;
    var two := ls[..2];
    assert ls[..|ls| - 1] == two && two[..|two| - 1] == [ls[0]];
    assert RootOf(js, [ls[0]]) == ls[0];
    assert RootOf(js, two) == ls[0];
  }

  /** The link below the root is below itself. */
  lemma SelfLoop<T>(m: Model<T>)
    requires m.root == "a" && "a" in m.links && "b" in m.links && "j" in m.joints && m.joints["j"].child == "b"
    requires m.links["a"].children == ["j"] && m.links["b"].children == ["j"]
    ensures !NoLoops(m)
  {
    hide NoneRecurs;
    assert Pushed(m, ["j"]) == ["b"] by {
      assert ["j"][1..] == [];
    }
    var round := ["a", "b", "b"];
    assert round[1] == round[2];
    assert Trail(Expansions(m), "a", round);
    if NoLoops(m) {
      NoneRecursMeans(Expansions(m), "a", round);
    }
  }
}
