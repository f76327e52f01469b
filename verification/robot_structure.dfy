/**
 The structure of a robot as a value: what parsing a description builds, which links its joints reach,
 and the chain of joints above a link.
 */
module RobotStructure {
  import opened Common
  import opened TransformAlgebra
  import opened Joints
  import opened Trails

  /** A link knows the joint above it, if any, and the joints below it, by name. */
  datatype Link = Link(name: string, parent: string, children: seq<string>) {
    predicate IsRoot() {
      parent == ""
    }

    predicate IsEndEffector() {
      children == []
    }
  }

  datatype Model<T> = Model(joints: map<string, JointRecord<T>>, links: map<string, Link>, root: string)

  // ---------- What a parse builds, from the joint records and the link names in the order of the file

  /** The first joint of each name is kept. */
  function JointMap<T>(js: seq<JointRecord<T>>): map<string, JointRecord<T>> {
    if js == [] then map[]
    else
      var before, last := JointMap(js[..|js| - 1]), js[|js| - 1];
      if last.name in before then before else before[last.name := last]
  }

  function ParentMap<T>(js: seq<JointRecord<T>>): map<string, string> {
    if js == [] then map[]
    else ParentMap(js[..|js| - 1])[js[|js| - 1].child := js[|js| - 1].name]
  }

  /** The names of the joints below a link, in the order of the file. */
  function ChildrenOf<T>(js: seq<JointRecord<T>>, link: string): seq<string> {
    if js == [] then []
    else ChildrenOf(js[..|js| - 1], link) + if js[|js| - 1].parent == link then [js[|js| - 1].name] else []
  }

  function MakeLink<T>(js: seq<JointRecord<T>>, name: string): Link {
    Link(name, if name in ParentMap(js) then ParentMap(js)[name] else "", ChildrenOf(js, name))
  }

  function LinkMap<T>(js: seq<JointRecord<T>>, ls: seq<string>): map<string, Link> {
    if ls == [] then map[]
    else
      var before, last := LinkMap(js, ls[..|ls| - 1]), ls[|ls| - 1];
      if last in before then before else before[last := MakeLink(js, last)]
  }

  /** The last link without a joint above it. */
  function RootOf<T>(js: seq<JointRecord<T>>, ls: seq<string>): string {
    if ls == [] then ""
    else if MakeLink(js, ls[|ls| - 1]).IsRoot() then ls[|ls| - 1]
    else RootOf(js, ls[..|ls| - 1])
  }

  predicate DistinctChildren<T>(js: seq<JointRecord<T>>) {
    forall a, b :: 0 <= a < b < |js| ==> js[a].child != js[b].child
  }

  predicate MimicsKnown<T>(joints: map<string, JointRecord<T>>) {
    forall j :: j in joints && joints[j].IsMimic() ==> joints[j].mimic.name in joints
  }

  function Parsed<T>(js: seq<JointRecord<T>>, ls: seq<string>): Model<T> {
    Model(JointMap(js), LinkMap(js, ls), RootOf(js, ls))
  }

  // ---------- What the parse promises when the joints have distinct names, none of them empty

  predicate ProperNames<T>(js: seq<JointRecord<T>>) {
    && (forall a, b :: 0 <= a < b < |js| ==> js[a].name != js[b].name)
    && (forall a :: 0 <= a < |js| ==> js[a].name != "")
  }

  /** Joints and links mirror each other, and the root has no joint above it. */
  ghost predicate Consistent<T>(m: Model<T>) {
    && (forall j {:trigger m.joints[j]} :: j in m.joints ==> m.joints[j].name == j && j != "")
    && (forall i, j {:trigger m.joints[i], m.joints[j]} ::
         i in m.joints && j in m.joints && m.joints[i].child == m.joints[j].child ==> i == j)
    && (forall l {:trigger m.links[l]} :: l in m.links ==> m.links[l].name == l)
    && (forall l, j {:trigger m.links[l], m.joints[j]} ::
         l in m.links && j in m.joints ==> (m.links[l].parent == j <==> m.joints[j].child == l))
    && (forall l {:trigger m.links[l]} :: l in m.links && m.links[l].parent != "" ==> m.links[l].parent in m.joints)
    && (forall l, j {:trigger j in m.links[l].children} {:trigger m.links[l], m.joints[j]} ::
          l in m.links ==> (j in m.links[l].children <==> j in m.joints && m.joints[j].parent == l))
    && (forall l {:trigger m.links[l]} :: l in m.links ==> Distinct(m.links[l].children))
    && (m.root != "" ==> m.root in m.links && m.links[m.root].parent == "")
  }

  /** Of several joints with one name the first is kept. */
  lemma {:induction false} JointMapExact<T>(js: seq<JointRecord<T>>, name: string)
    ensures name in JointMap(js) <==> exists a :: 0 <= a < |js| && js[a].name == name
    ensures forall a :: 0 <= a < |js| && js[a].name == name && (forall b :: 0 <= b < a ==> js[b].name != name) ==>
              JointMap(js)[name] == js[a]
  {
    if js != [] {
      var init := js[..|js| - 1];
      JointMapExact(init, name);
      JointMapExact(init, js[|js| - 1].name);
      assert forall a :: 0 <= a < |init| ==> init[a] == js[a];
    }
  }

  lemma {:induction false} ParentMapExact<T>(js: seq<JointRecord<T>>, link: string)
    requires DistinctChildren(js)
    ensures link in ParentMap(js) <==> exists a :: 0 <= a < |js| && js[a].child == link
    ensures forall a :: 0 <= a < |js| && js[a].child == link ==> ParentMap(js)[link] == js[a].name
  {
    if js != [] {
      var init := js[..|js| - 1];
      ParentMapExact(init, link);
      assert forall a :: 0 <= a < |init| ==> init[a] == js[a];
    }
  }

  lemma {:induction false} ChildrenOfExact<T>(js: seq<JointRecord<T>>, link: string, name: string)
    requires forall a, b :: 0 <= a < b < |js| ==> js[a].name != js[b].name
    ensures name in ChildrenOf(js, link) <==> exists a :: 0 <= a < |js| && js[a].name == name && js[a].parent == link
    ensures Distinct(ChildrenOf(js, link))
  {
    if js != [] {
      var init, last := js[..|js| - 1], js[|js| - 1];
      ChildrenOfLast(js, link);
      hide ChildrenOf;
      assert forall a :: 0 <= a < |init| ==> init[a] == js[a];
      ChildrenOfExact(init, link, name);
      ChildrenOfExact(init, link, last.name);
    }
  }

  /** They come in the order of the file; this needs no distinct names. */
  lemma {:induction false} ChildrenOfInOrder<T>(js: seq<JointRecord<T>>, link: string) returns (at: seq<nat>)
    ensures |at| == |ChildrenOf(js, link)|
    ensures forall k :: 0 <= k < |at| ==>
              at[k] < |js| && js[at[k]].parent == link && ChildrenOf(js, link)[k] == js[at[k]].name
    ensures forall k, l :: 0 <= k < l < |at| ==> at[k] < at[l]
    ensures forall a :: 0 <= a < |js| && js[a].parent == link ==> a in at
  {
    at := [];
    if js != [] {
      var n := |js| - 1;
      var init := js[..n];
      at := ChildrenOfInOrder(init, link);
      ChildrenOfLast(js, link);
      hide ChildrenOf;
      assert forall a :: 0 <= a < n ==> init[a] == js[a];
      if js[n].parent == link {
        at := at + [n];
        assert n == at[|at| - 1];
      }
    }
  }

  lemma ChildrenOfLast<T>(js: seq<JointRecord<T>>, link: string)
    requires js != []
    ensures ChildrenOf(js, link) ==
            ChildrenOf(js[..|js| - 1], link) + if js[|js| - 1].parent == link then [js[|js| - 1].name] else []
  {
  }

  lemma {:induction false} LinkMapExact<T>(js: seq<JointRecord<T>>, ls: seq<string>, name: string)
    ensures name in LinkMap(js, ls) <==> name in ls
    ensures name in ls ==> LinkMap(js, ls)[name] == MakeLink(js, name)
  {
    if ls != [] {
      LinkMapExact(js, ls[..|ls| - 1], name);
      assert name in ls <==> name in ls[..|ls| - 1] || name == ls[|ls| - 1];
    }
  }

  /** No joint ends there, but for joints with an empty name. */
  ghost predicate NothingAbove<T>(js: seq<JointRecord<T>>, link: string) {
    forall a :: 0 <= a < |js| && js[a].child == link ==> js[a].name == ""
  }

  /** The root is the last parentless link, and there is none when no link is parentless. */
  lemma {:induction false} RootOfExact<T>(js: seq<JointRecord<T>>, ls: seq<string>) returns (last: int)
    requires DistinctChildren(js)
    ensures -1 <= last < |ls| && (last >= 0 ==> NothingAbove(js, ls[last]))
    ensures forall i :: last < i < |ls| ==> !NothingAbove(js, ls[i])
    ensures RootOf(js, ls) == if last >= 0 then ls[last] else ""
  {
    last := -1;
    if ls != [] {
      var n := |ls| - 1;
      var before := RootOfExact(js, ls[..n]);
      assert forall i :: 0 <= i < n ==> ls[..n][i] == ls[i];
      RootIffNothingAbove(js, ls[n]);
      last := if MakeLink(js, ls[n]).IsRoot() then n else before;
    }
  }

  lemma RootKnown<T>(js: seq<JointRecord<T>>, ls: seq<string>)
    requires DistinctChildren(js)
    ensures var root := RootOf(js, ls);
            root != "" ==> root in LinkMap(js, ls) && LinkMap(js, ls)[root].parent == ""
  {
    hide LinkMap, RootOf, NothingAbove, DistinctChildren;
    var last := RootOfExact(js, ls);
    if last >= 0 {
      RootIffNothingAbove(js, ls[last]);
      LinkMapExact(js, ls, ls[last]);
    }
  }

  lemma RootIffNothingAbove<T>(js: seq<JointRecord<T>>, link: string)
    requires DistinctChildren(js)
    ensures MakeLink(js, link).IsRoot() <==> NothingAbove(js, link)
  {
    hide ParentMap, ChildrenOf, DistinctChildren;
    ParentMapExact(js, link);
  }

  /** A complete parse of properly named joints is consistent. */
  lemma ParsedConsistent<T>(js: seq<JointRecord<T>>, ls: seq<string>)
    requires ProperNames(js) && DistinctChildren(js)
    ensures Consistent(Parsed(js, ls))
  {
    var m := Parsed(js, ls);
    hide JointMap, ParentMap, ChildrenOf, LinkMap, RootOf, Distinct;
    forall j | j in m.joints ensures exists a :: 0 <= a < |js| && js[a].name == j && m.joints[j] == js[a] {
      JointMapExact(js, j);
    }
    forall a | 0 <= a < |js| ensures js[a].name in m.joints && m.joints[js[a].name] == js[a] {
      JointMapExact(js, js[a].name);
    }
    forall l | l in m.links ensures l in ls && m.links[l] == MakeLink(js, l) && Distinct(m.links[l].children) {
      LinkMapExact(js, ls, l);
      ChildrenOfExact(js, l, "");
    }
    forall l, j | l in m.links && j in m.joints ensures m.links[l].parent == j <==> m.joints[j].child == l {
      ParentMapExact(js, l);
    }
    forall l | l in m.links && m.links[l].parent != "" ensures m.links[l].parent in m.joints {
      ParentMapExact(js, l);
    }
    forall l, j | l in m.links ensures j in m.links[l].children <==> j in m.joints && m.joints[j].parent == l {
      ChildrenOfExact(js, l, j);
    }
    RootKnown(js, ls);
  }

  /**
   A link counts as a root exactly when no joint ends there, unless a joint with an empty name ends at a
   declared link: that link passes for a root although it has a joint above it.
   */
  lemma RootsHonestIff<T>(js: seq<JointRecord<T>>, ls: seq<string>)
    requires DistinctChildren(js)
    ensures (forall l :: l in ls ==> (MakeLink(js, l).IsRoot() <==> forall a :: 0 <= a < |js| ==> js[a].child != l))
            <==> forall a :: 0 <= a < |js| && js[a].name == "" ==> js[a].child !in ls
  {
    hide ParentMap, ChildrenOf;
    forall l ensures MakeLink(js, l).IsRoot() <==> NothingAbove(js, l) {
      RootIffNothingAbove(js, l);
    }
  }

  // ---------- Which links the joints reach

  /** The link hangs exactly n joints below the root. */
  ghost predicate AtDepth<T>(m: Model<T>, l: string, n: nat)
    decreases n
  {
    && l in m.links
    && if n == 0 then l == m.root
       else m.links[l].parent in m.joints && AtDepth(m, m.joints[m.links[l].parent].parent, n - 1)
  }

  ghost predicate Reachable<T>(m: Model<T>, l: string) {
    exists n :: AtDepth(m, l, n)
  }

  ghost predicate Declared<T>(m: Model<T>) {
    forall j {:trigger m.joints[j]} :: j in m.joints ==> m.joints[j].parent in m.links && m.joints[j].child in m.links
  }

  ghost predicate SingleRoot<T>(m: Model<T>) {
    && m.root in m.links
    && forall l :: l in m.links ==> (m.links[l].IsRoot() <==> l == m.root)
  }

  ghost predicate Ranks<T>(m: Model<T>, rank: map<string, nat>) {
    forall j :: j in m.joints ==>
      m.joints[j].parent in rank && m.joints[j].child in rank && rank[m.joints[j].parent] < rank[m.joints[j].child]
  }

  /** No joints form a cycle: the links can be ranked so that every joint leads upwards. */
  ghost predicate Acyclic<T>(m: Model<T>) {
    exists rank: map<string, nat> :: Ranks(m, rank)
  }

  /** One root and no cycle: then the joints reach every link. */
  lemma AllReachable<T>(m: Model<T>, l: string)
    requires Consistent(m) && Declared(m) && SingleRoot(m) && Acyclic(m) && l in m.links
    ensures Reachable(m, l)
  {
    var rank: map<string, nat> :| Ranks(m, rank);
    var n := ClimbToRoot(m, rank, l);
  }

  lemma LinkUp<T>(m: Model<T>, l: string)
    requires Consistent(m) && l in m.links && m.links[l].parent != ""
    ensures m.links[l].parent in m.joints && m.joints[m.links[l].parent].child == l
  {
  }

  lemma JointDown<T>(m: Model<T>, j: string)
    requires Consistent(m) && Declared(m) && j in m.joints
    ensures m.joints[j].parent in m.links && m.joints[j].child in m.links
    ensures m.links[m.joints[j].child].parent == j && j != ""
  {
  }

  lemma {:induction false} ClimbToRoot<T>(m: Model<T>, rank: map<string, nat>, l: string) returns (n: nat)
    requires Consistent(m) && Declared(m) && SingleRoot(m) && Ranks(m, rank) && l in m.links
    ensures AtDepth(m, l, n)
    decreases if l in rank then rank[l] else 0
  {
    hide Consistent, Declared;
    if l == m.root {
      n := 0;
    } else {
      LinkUp(m, l);
      JointDown(m, m.links[l].parent);
      var k := ClimbToRoot(m, rank, m.joints[m.links[l].parent].parent);
      n := k + 1;
    }
  }

  ghost function Parentless<T>(m: Model<T>): set<string> {
    set l | l in m.links && m.links[l].IsRoot()
  }

  /** Every joint takes one link out of the roots, so the counts decide how many roots there are. */
  lemma RootCount<T>(m: Model<T>)
    requires Consistent(m) && Declared(m)
    ensures |Parentless(m)| == |m.links.Keys| - |m.joints.Keys|
  {
    hide Consistent, Declared;
    var below := set l | l in m.links && !m.links[l].IsRoot();
    assert Parentless(m) + below == m.links.Keys;
    forall l | l in m.links ensures l in below <==> m.links[l].parent in m.joints.Keys {
      if m.links[l].parent != "" {
        LinkUp(m, l);
      } else if "" in m.joints {
        JointDown(m, "");
      }
    }
    ChildrenCount(m, m.joints.Keys, below);
  }

  /** With one link more than joints, the root is the only root. */
  lemma CountsGiveSingleRoot<T>(m: Model<T>)
    requires Consistent(m) && Declared(m) && m.root != "" && |m.links.Keys| == |m.joints.Keys| + 1
    ensures SingleRoot(m)
  {
    hide Consistent, Declared;
    RootCount(m);
    RootIn(m);
    forall l | l in m.links && m.links[l].IsRoot() ensures l == m.root {
      if l != m.root {
        assert {l, m.root} <= Parentless(m);
        CardinalityAtLeast({l, m.root}, Parentless(m));
      }
    }
  }

  lemma RootIn<T>(m: Model<T>)
    requires Consistent(m) && m.root != ""
    ensures m.root in Parentless(m)
  {
  }

  lemma {:induction false} CardinalityAtLeast<A>(a: set<A>, b: set<A>)
    requires a <= b
    ensures |a| <= |b|
  {
    if a != {} {
      var x :| x in a;
      CardinalityAtLeast(a - {x}, b - {x});
    }
  }

  lemma {:induction false} ChildrenCount<T>(m: Model<T>, js: set<string>, below: set<string>)
    requires Consistent(m) && Declared(m) && js <= m.joints.Keys
    requires forall l :: l in below <==> l in m.links && m.links[l].parent in js
    ensures |below| == |js|
    decreases |js|
  {
    hide Consistent, Declared;
    if js == {} {
      assert below == {};
    } else {
      var j :| j in js;
      var c := m.joints[j].child;
      JointDown(m, j);
      forall l | l in m.links && m.links[l].parent == j ensures l == c {
        LinkUp(m, l);
      }
      ChildrenCount(m, js - {j}, below - {c});
      assert c in below;
    }
  }

  // ---------- The chain of joints above a link

  /** The link one joint further up. */
  ghost function Upward<T>(m: Model<T>): string -> seq<string> {
    l => if l in m.links && m.links[l].parent != "" && m.links[l].parent in m.joints
         then [m.joints[m.links[l].parent].parent] else []
  }

  /** Climbing from a link stops within n joints, at a link that is undeclared or has no joint above it. */
  ghost predicate Climbs<T>(m: Model<T>, l: string, n: nat)
    decreases n
  {
    l in m.links && m.links[l].parent != "" && m.links[l].parent in m.joints ==>
      n > 0 && Climbs(m, m.joints[m.links[l].parent].parent, n - 1)
  }

  /** Climbing from a link never comes back to a link. */
  ghost predicate Ascends<T>(m: Model<T>, l: string) {
    NoneRecurs(Upward(m), l)
  }

  /** That is exactly when the climb stops, and it then does so within as many joints as there are links. */
  lemma ClimbStopsIff<T>(m: Model<T>, l: string)
    ensures (exists n :: Climbs(m, l, n)) <==> Ascends(m, l)
    ensures Ascends(m, l) ==> Climbs(m, l, |m.links.Keys|)
  {
    hide NoneRecurs, Climbs, EndsWithin;
    EndsIff(Upward(m), m.links.Keys, l);
    ClimbsIs(m, l, |m.links.Keys|);
    if n: nat :| Climbs(m, l, n) {
      ClimbsIs(m, l, n);
    }
  }

  lemma {:induction false} ClimbsIs<T>(m: Model<T>, l: string, n: nat)
    ensures Climbs(m, l, n) <==> EndsWithin(Upward(m), l, n)
    decreases n
  {
    if l in m.links && m.links[l].parent != "" && m.links[l].parent in m.joints {
      var up := m.joints[m.links[l].parent].parent;
      assert up in Upward(m)(l);
      if n > 0 {
        ClimbsIs(m, up, n - 1);
      }
    }
  }

  lemma AscendsOn<T>(m: Model<T>, l: string)
    requires Ascends(m, l) && l in m.links && m.links[l].parent != "" && m.links[l].parent in m.joints
    ensures var up := m.joints[m.links[l].parent].parent;
            Ascends(m, up) && Steps(Upward(m), up) < Steps(Upward(m), l)
  {
    hide NoneRecurs, Steps;
    StepOn(Upward(m), m.links.Keys, l, m.joints[m.links[l].parent].parent);
  }

  /** The joints passed on the way, topmost first. */
  ghost function Chain<T>(m: Model<T>, l: string): seq<string>
    requires Ascends(m, l)
    decreases Steps(Upward(m), l)
  {
    if l !in m.links || m.links[l].parent == "" || m.links[l].parent !in m.joints then []
    else
      AscendsOn(m, l);
      Chain(m, m.joints[m.links[l].parent].parent) + [m.links[l].parent]
  }

  lemma ChainStep<T>(m: Model<T>, l: string)
    requires Ascends(m, l)
    ensures if l in m.links && m.links[l].parent != "" && m.links[l].parent in m.joints
            then var p := m.links[l].parent;
                 && Ascends(m, m.joints[p].parent)
                 && Steps(Upward(m), m.joints[p].parent) < Steps(Upward(m), l)
                 && Chain(m, l) == Chain(m, m.joints[p].parent) + [p]
            else Chain(m, l) == []
  {
    hide Ascends, Steps;
    if l in m.links && m.links[l].parent != "" && m.links[l].parent in m.joints {
      AscendsOn(m, l);
    }
  }

  /** The link below joint k of a chain that leads down to link l: where the next joint starts, or l itself. */
  ghost function LinkBelow<T>(m: Model<T>, c: seq<string>, l: string, k: nat): string
    requires k < |c| && forall i :: 0 <= i < |c| ==> c[i] in m.joints
  {
    if k == |c| - 1 then l else m.joints[c[k + 1]].parent
  }

  ghost predicate IsAbove<T>(m: Model<T>, j: string, l: string) {
    l in m.links && m.links[l].parent == j && j != ""
  }

  /** In any model: the last joint of a chain is the one above the link, and so on up to where the climb stops. */
  lemma {:induction false} ChainAbove<T>(m: Model<T>, l: string)
    requires Ascends(m, l)
    ensures var c := Chain(m, l);
            && (forall k :: 0 <= k < |c| ==> c[k] in m.joints)
            && (forall k :: 0 <= k < |c| ==> IsAbove(m, c[k], LinkBelow(m, c, l, k)))
            && var top := if c == [] then l else m.joints[c[0]].parent;
               top !in m.links || m.links[top].parent == "" || m.links[top].parent !in m.joints
    decreases Steps(Upward(m), l)
  {
    hide Ascends, Steps, Chain, IsAbove;
    ChainStep(m, l);
    if l in m.links && m.links[l].parent != "" && m.links[l].parent in m.joints {
      var p := m.links[l].parent;
      assert IsAbove(m, p, l) by {
        AboveLink(m, l);
      }
      ChainAbove(m, m.joints[p].parent);
      var c, d := Chain(m, l), Chain(m, m.joints[p].parent);
      forall k | 0 <= k < |d| ensures c[k] == d[k] && LinkBelow(m, c, l, k) == LinkBelow(m, d, m.joints[p].parent, k) {
      }
    }
  }

  lemma AboveLink<T>(m: Model<T>, l: string)
    requires l in m.links && m.links[l].parent != ""
    ensures IsAbove(m, m.links[l].parent, l)
  {
  }

  /** Each joint of a chain ends where the next one starts, and the last one ends at the link. */
  lemma {:induction false} ChainLinked<T>(m: Model<T>, l: string)
    requires Consistent(m) && Ascends(m, l)
    ensures var c := Chain(m, l);
            && (forall k :: 0 <= k < |c| ==> c[k] in m.joints)
            && (forall k :: 0 <= k < |c| - 1 ==> m.joints[c[k]].child == m.joints[c[k + 1]].parent)
            && (c == [] <==> l !in m.links || m.links[l].IsRoot())
            && (c != [] ==> m.joints[c[|c| - 1]].child == l)
            && (c != [] ==> var top := m.joints[c[0]].parent; top in m.links ==> m.links[top].IsRoot())
    decreases Steps(Upward(m), l)
  {
    hide Ascends, Steps, Chain;
    ChainStep(m, l);
    if l in m.links && m.links[l].parent != "" {
      ChainLinked(m, m.joints[m.links[l].parent].parent);
    }
  }

  /** Cut after any of its joints, a chain is the chain of the link that joint ends at. */
  lemma {:induction false} ChainPrefix<T>(m: Model<T>, l: string, k: nat)
    requires Consistent(m) && Ascends(m, l) && k < |Chain(m, l)|
    ensures Chain(m, l)[k] in m.joints && Ascends(m, m.joints[Chain(m, l)[k]].child)
    ensures Chain(m, m.joints[Chain(m, l)[k]].child) == Chain(m, l)[..k + 1]
    decreases Steps(Upward(m), l)
  {
    hide Ascends, Steps, Chain;
    var c := Chain(m, l);
    ChainStep(m, l);
    LinkUp(m, l);
    if k == |c| - 1 {
      assert c[..k + 1] == c;
    } else {
      ChainPrefix(m, m.joints[m.links[l].parent].parent, k);
      assert c[..k + 1] == c[..|c| - 1][..k + 1];
    }
  }

  /** No joint occurs twice in a chain. */
  lemma ChainDistinct<T>(m: Model<T>, l: string)
    requires Consistent(m) && Ascends(m, l)
    ensures Distinct(Chain(m, l))
  {
    hide Ascends, Chain, Consistent;
    var c := Chain(m, l);
    forall i, j | 0 <= i < j < |c| ensures c[i] != c[j] {
      ChainPrefix(m, l, i);
      ChainPrefix(m, l, j);
    }
  }

  /** So in a consistent model a climb passes no more joints than there are. */
  lemma ClimbBound<T>(m: Model<T>, l: string)
    requires Consistent(m) && Ascends(m, l)
    ensures |Chain(m, l)| <= |m.joints.Keys| && Climbs(m, l, |m.joints.Keys|)
  {
    hide Ascends, Chain, Consistent, Climbs;
    ChainLinked(m, l);
    ChainDistinct(m, l);
    DistinctBound(Chain(m, l), m.joints.Keys);
    ChainClimbs(m, l, |m.joints.Keys|);
  }

  lemma {:induction false} ChainClimbs<T>(m: Model<T>, l: string, n: nat)
    requires Ascends(m, l) && |Chain(m, l)| <= n
    ensures Climbs(m, l, n)
    decreases n
  {
    hide Ascends, Chain;
    ChainStep(m, l);
    if l in m.links && m.links[l].parent != "" && m.links[l].parent in m.joints {
      ChainClimbs(m, m.joints[m.links[l].parent].parent, n - 1);
    }
  }

  /** A link n joints below the root has a chain of n joints, and the chain starts at the root. */
  lemma {:induction false} DepthIsChainLength<T>(m: Model<T>, l: string, n: nat)
    requires Consistent(m) && m.root != "" && AtDepth(m, l, n)
    ensures Ascends(m, l) && |Chain(m, l)| == n
    ensures n > 0 ==> Chain(m, l)[0] in m.joints && m.joints[Chain(m, l)[0]].parent == m.root
    decreases n
  {
    hide Ascends, Chain;
    DepthAscends(m, l, n);
    ChainStep(m, l);
    if n > 0 {
      DepthIsChainLength(m, m.joints[m.links[l].parent].parent, n - 1);
    }
  }

  lemma DepthAscends<T>(m: Model<T>, l: string, n: nat)
    requires Consistent(m) && m.root != "" && AtDepth(m, l, n)
    ensures Ascends(m, l)
  {
    hide Ascends;
    DepthClimbs(m, l, n);
    ClimbStopsIff(m, l);
    assert exists k :: Climbs(m, l, k);
  }

  lemma {:induction false} DepthClimbs<T>(m: Model<T>, l: string, n: nat)
    requires Consistent(m) && m.root != "" && AtDepth(m, l, n)
    ensures Climbs(m, l, n)
    decreases n
  {
    if n > 0 {
      DepthClimbs(m, m.joints[m.links[l].parent].parent, n - 1);
    }
  }

  // ---------- Descriptions that parse and yet mislead

  function Named<T>(name: string, parent: string, child: string, origin: T): JointRecord<T> {
    JointRecord(name, parent, child, Fixed, Vec3(0.0, 0.0, 0.0), origin, JointMimic("", 0.0, 0.0))
  }

  /** A joint with an empty name passes the parse, and the link below it becomes the root. */
  lemma EmptyNameMisread<T>(origin: T)
    ensures var js, ls := [Named("", "a", "b", origin)], ["a", "b"];
            && DistinctChildren(js) && MimicsKnown(JointMap(js))
            && js[0].child == "b" && MakeLink(js, "b").IsRoot() && RootOf(js, ls) == "b"
  {
    hide ParentMap, ChildrenOf;
    var js := [Named("", "a", "b", origin)];
    assert js[..0] == [];
    assert JointMap(js) == map["" := js[0]];
    ParentMapExact(js, js[0].child);
  }

  /** Two joints that mimic each other pass the parse, and following either never ends. */
  lemma MimicCycleNeverEnds<T>(origin: T, n: nat)
    ensures var p := Named("p", "a", "b", origin).(mimic := JointMimic("q", 1.0, 0.0));
            var q := Named("q", "a", "c", origin).(mimic := JointMimic("p", 1.0, 0.0));
            && ProperNames([p, q]) && DistinctChildren([p, q]) && MimicsKnown(JointMap([p, q]))
            && !ChainEnds(JointMap([p, q]), "p", n)
  {
    var p := Named("p", "a", "b", origin).(mimic := JointMimic("q", 1.0, 0.0));
    var q := Named("q", "a", "c", origin).(mimic := JointMimic("p", 1.0, 0.0));
    JointMapOfTwo([p, q]);
    MimicCycle(JointMap([p, q]), n);
  }

  lemma JointMapOfTwo<T>(js: seq<JointRecord<T>>)
    requires |js| == 2 && js[0].name != js[1].name
    ensures JointMap(js) == map[js[0].name := js[0], js[1].name := js[1]]
  {
    assert js[..1] == [js[0]] && js[..1][..0] == [];
    assert JointMap(js[..1]) == map[js[0].name := js[0]];
  }

  lemma MimicCycle<T>(records: map<string, JointRecord<T>>, n: nat)
    requires "p" in records && records["p"].mimic.name == "q"
    requires "q" in records && records["q"].mimic.name == "p"
    ensures !ChainEnds(records, "p", n)
  {
    hide ChainEnds, NoneRecurs;
    var round := ["p", "q", "p"];
    assert round[0] == round[2];
    assert Trail(Followed(records), "p", round);
    if Driven(records, "p") {
      NoneRecursMeans(Followed(records), "p", round);
    }
    ChainEndsIff(records, "p");
  }

  /** Two joints that close a circle beside the root pass the parse, and climbing from it never ends. */
  lemma JointCycleNeverEnds<T>(origin: T, n: nat)
    ensures var js, ls := [Named("j", "a", "b", origin), Named("k", "b", "a", origin)], ["a", "b", "c"];
            && ProperNames(js) && DistinctChildren(js) && MimicsKnown(JointMap(js)) && RootOf(js, ls) == "c"
            && !Climbs(Parsed(js, ls), "a", n)
  {
    hide LinkMap, Climbs, ParentMap, ChildrenOf;
    var js, ls := [Named("j", "a", "b", origin), Named("k", "b", "a", origin)], ["a", "b", "c"];
    JointMapOfTwo(js);
    assert js[0].child == "b" && js[1].child == "a";
    ParentMapExact(js, ls[0]);
    ParentMapExact(js, ls[1]);
    ParentMapExact(js, ls[2]);
    LinkMapExact(js, ls, ls[0]);
    LinkMapExact(js, ls, ls[1]);
    JointCycle(Parsed(js, ls), n);
  }

  lemma JointCycle<T>(m: Model<T>, n: nat)
    requires "a" in m.links && m.links["a"].parent == "k" && "b" in m.links && m.links["b"].parent == "j"
    requires "k" in m.joints && m.joints["k"].parent == "b" && "j" in m.joints && m.joints["j"].parent == "a"
    ensures !Climbs(m, "a", n)
  {
    hide Climbs, NoneRecurs;
    var round := ["a", "b", "a"];
    assert round[0] == round[2];
    assert Trail(Upward(m), "a", round);
    if Ascends(m, "a") {
      NoneRecursMeans(Upward(m), "a", round);
    }
    ClimbStopsIff(m, "a");
  }
}
