/**
 The frame graph as a value: a tree of named frames, each with the buffer of the edge from its parent.
 What an update and a query mean, what every run of updates keeps, and the algebra of queries.
 */
module FrameTrees {
  import opened Common
  import opened TransformAlgebra
  import opened Samples

  /** The TransformStamped message; its stamp is in nanoseconds. */
  datatype Stamped<T> = Stamped(sequence: nat, stamp: int, frameId: string, childFrameId: string, transform: T)

  /** Frame i hangs under frame parent[i]; samples[i] is the buffer of that edge. Frame 0 is the root. */
  datatype Tree<T> = Tree(names: seq<string>, parent: seq<int>, samples: seq<seq<Sample<T>>>, duration: int)

  function IndexOf(names: seq<string>, name: string): (i: int)
    ensures -1 <= i < |names|
    ensures if i < 0 then name !in names else names[i] == name
  {
    if names == [] then -1
    else if names[|names| - 1] == name then |names| - 1
    else IndexOf(names[..|names| - 1], name)
  }

  function Fresh<T>(root: string, duration: int): Tree<T> {
    Tree([root], [-1], [[]], duration)
  }

  /** One update: the parent must be known; a new child is hung under it, a known one must hang there already. */
  function Apply<T>(t: Tree<T>, m: Stamped<T>): (r: (Tree<T>, bool))
    requires |t.names| == |t.parent| == |t.samples|
    ensures |r.0.names| == |r.0.parent| == |r.0.samples|
  {
    var p, c := IndexOf(t.names, m.frameId), IndexOf(t.names, m.childFrameId);
    if p < 0 then (t, false)
    else if c < 0 then
      (t.(names := t.names + [m.childFrameId],
          parent := t.parent + [p],
          samples := t.samples + [Insert([], m.stamp, m.transform, t.duration)]), true)
    else if t.parent[c] != p then (t, false)
    else (t.(samples := t.samples[c := Insert(t.samples[c], m.stamp, m.transform, t.duration)]), true)
  }

  /** A whole TF message: updates in order, up to the first that is rejected. */
  function ApplyAll<T>(t: Tree<T>, ms: seq<Stamped<T>>): (Tree<T>, bool)
    requires |t.names| == |t.parent| == |t.samples|
    decreases |ms|
  {
    if ms == [] then (t, true)
    else
      var r := Apply(t, ms[0]);
      if r.1 then ApplyAll(r.0, ms[1..]) else r
  }

  /** Any run of single updates, accepted or not, from a new graph. */
  function After<T>(root: string, d: int, ms: seq<Stamped<T>>): (t: Tree<T>)
    ensures |t.names| == |t.parent| == |t.samples|
  {
    if ms == [] then Fresh(root, d)
    else Apply(After(root, d, ms[..|ms| - 1]), ms[|ms| - 1]).0
  }

  /** What an update does when it names a new child of a known frame. */
  lemma ApplyNew<T>(t: Tree<T>, m: Stamped<T>)
    requires |t.names| == |t.parent| == |t.samples|
    requires m.frameId in t.names && m.childFrameId !in t.names
    ensures var p := IndexOf(t.names, m.frameId);
            Apply(t, m) == (Tree(t.names + [m.childFrameId], t.parent + [p],
                                 t.samples + [Insert([], m.stamp, m.transform, t.duration)], t.duration), true)
  {
  }

  // ---------- What every run keeps

  /** A tree with its root at 0 and every other frame after its parent. */
  predicate Rooted(parent: seq<int>) {
    && parent != []
    && parent[0] == -1
    && forall i :: 0 < i < |parent| ==> 0 <= parent[i] < i
  }

  ghost predicate WellFormed<T>(t: Tree<T>) {
    && |t.names| == |t.parent| == |t.samples|
    && Rooted(t.parent)
    && (forall i, j :: 0 <= i < j < |t.names| ==> t.names[i] != t.names[j])
    && t.samples[0] == []
    && (forall i :: 0 < i < |t.samples| ==> t.samples[i] != [])
    && (forall i :: 0 <= i < |t.samples| ==> Sorted(t.samples[i]))
  }

  lemma InsertKeeps<T>(s: seq<Sample<T>>, stamp: int, value: T, d: int)
    requires Sorted(s)
    ensures Sorted(Insert(s, stamp, value, d)) && Insert(s, stamp, value, d) != []
  {
    hide Put, Prune, Sorted, LastWrite;
    var p := Put(s, stamp, value);
    PutSorted(s, stamp, value);
    if d > 0 {
      NewestSurvives(p, p[|p| - 1].stamp - d);
    }
  }

  lemma NewestSurvives<T>(s: seq<Sample<T>>, oldest: int)
    requires Sorted(s) && s != [] && oldest <= s[|s| - 1].stamp
    ensures Sorted(Prune(s, oldest)) && Prune(s, oldest) != []
  {
    PruneMeaning(s, oldest, s[|s| - 1].stamp);
    WriteAt(s, |s| - 1);
  }

  /** An update keeps the tree, never moves a frame, and when it is rejected changes nothing. */
  lemma ApplyKeeps<T>(t: Tree<T>, m: Stamped<T>)
    requires WellFormed(t)
    ensures var (r, ok) := Apply(t, m);
            && WellFormed(r) && r.duration == t.duration
            && t.names <= r.names && t.parent <= r.parent
            && (!ok ==> r == t)
            && (forall i :: 0 <= i < |t.samples| && (!ok || t.names[i] != m.childFrameId)
                 ==> r.samples[i] == t.samples[i])
  {
    var c := IndexOf(t.names, m.childFrameId);
    InsertKeeps([], m.stamp, m.transform, t.duration);
    if c >= 0 {
      InsertKeeps(t.samples[c], m.stamp, m.transform, t.duration);
    }
  }

  /** The named frame hangs under the other named frame. */
  ghost predicate HangsUnder<T>(t: Tree<T>, child: string, parent: string) {
    exists i :: 0 < i < |t.names| && i < |t.parent| && t.names[i] == child &&
                0 <= t.parent[i] < |t.names| && t.names[t.parent[i]] == parent
  }

  /** The parent is known, and the child is new or hangs there already. */
  ghost predicate Acceptable<T>(t: Tree<T>, m: Stamped<T>) {
    m.frameId in t.names && (m.childFrameId in t.names ==> HangsUnder(t, m.childFrameId, m.frameId))
  }

  /**
   An update is accepted exactly then, and afterwards the child hangs under that parent. It adds no frame but a new
   child, and writes its sample to the child's edge and to no other.
   */
  lemma ApplyExact<T>(t: Tree<T>, m: Stamped<T>)
    requires WellFormed(t)
    ensures var (r, ok) := Apply(t, m);
            && |r.names| == |r.parent| == |r.samples|
            && (ok <==> Acceptable(t, m))
            && (ok <==> HangsUnder(r, m.childFrameId, m.frameId))
            && r.names == (if ok && m.childFrameId !in t.names then t.names + [m.childFrameId] else t.names)
            && forall i :: 0 <= i < |r.names| ==>
                 var before := if i < |t.samples| then t.samples[i] else [];
                 r.samples[i] == if ok && r.names[i] == m.childFrameId
                                 then Insert(before, m.stamp, m.transform, t.duration) else before
  {
    hide Insert;
    var (r, ok) := Apply(t, m);
    var p, c := IndexOf(t.names, m.frameId), IndexOf(t.names, m.childFrameId);
    if p >= 0 && c < 0 {
      assert r.names[|t.names|] == m.childFrameId && r.names[r.parent[|t.names|]] == m.frameId;
    }
    if ok && c >= 0 {
      assert c > 0 && t.names[t.parent[c]] == m.frameId;
    }
  }

  lemma {:induction false} AfterWellFormed<T>(root: string, d: int, ms: seq<Stamped<T>>)
    ensures WellFormed(After(root, d, ms)) && After(root, d, ms).duration == d
    ensures After(root, d, ms).names[0] == root
  {
    if ms != [] {
      AfterWellFormed(root, d, ms[..|ms| - 1]);
      ApplyKeeps(After(root, d, ms[..|ms| - 1]), ms[|ms| - 1]);
    }
  }

  /** Along a run, frames are only added: none is renamed, renumbered or hung elsewhere. */
  lemma {:induction false} FramesNeverMove<T>(root: string, d: int, ms: seq<Stamped<T>>, k: nat)
    requires k <= |ms|
    ensures After(root, d, ms[..k]).names <= After(root, d, ms).names
    ensures After(root, d, ms[..k]).parent <= After(root, d, ms).parent
  {
    if k == |ms| {
      assert ms[..k] == ms;
    } else {
      var before := ms[..|ms| - 1];
      AfterWellFormed(root, d, before);
      ApplyKeeps(After(root, d, before), ms[|ms| - 1]);
      FramesNeverMove(root, d, before, k);
      assert before[..k] == ms[..k];
    }
  }

  lemma AfterOneMore<T>(root: string, d: int, ms: seq<Stamped<T>>, m: Stamped<T>)
    ensures After(root, d, ms + [m]) == Apply(After(root, d, ms), m).0
  {
    assert (ms + [m])[..|ms|] == ms;
  }

  /** A TF message is a run of single updates too: the ones before the first that is not acceptable where it comes. */
  lemma {:induction false} ApplyAllIsRun<T>(root: string, d: int, ms: seq<Stamped<T>>, tf: seq<Stamped<T>>)
      returns (k: nat)
    ensures k <= |tf| && (ApplyAll(After(root, d, ms), tf).1 <==> k == |tf|)
    ensures ApplyAll(After(root, d, ms), tf).0 == After(root, d, ms + tf[..k])
    ensures forall i :: 0 <= i < k ==> Acceptable(After(root, d, ms + tf[..i]), tf[i])
    ensures k < |tf| ==> !Acceptable(After(root, d, ms + tf[..k]), tf[k])
    decreases |tf|
  {
    hide Apply, After, WellFormed, Acceptable, HangsUnder;
    k := 0;
    assert ms + tf[..0] == ms;
    if tf != [] {
      AfterWellFormed(root, d, ms);
      ApplyKeeps(After(root, d, ms), tf[0]);
      ApplyExact(After(root, d, ms), tf[0]);
      AfterOneMore(root, d, ms, tf[0]);
      if Apply(After(root, d, ms), tf[0]).1 {
        var more := ApplyAllIsRun(root, d, ms + [tf[0]], tf[1..]);
        k := more + 1;
        CutOn(ms, tf, more);
        forall i | 0 < i < k ensures Acceptable(After(root, d, ms + tf[..i]), tf[i]) {
          CutOn(ms, tf, i - 1);
          assert tf[i] == tf[1..][i - 1];
        }
      }
    }
  }

  lemma CutOn<T>(ms: seq<T>, tf: seq<T>, i: nat)
    requires i < |tf|
    ensures ms + tf[..i + 1] == ms + [tf[0]] + tf[1..][..i]
  {
  }

  /** What a run wrote, through accepted updates, to the edge above the named frame. */
  ghost function Accepted<T>(root: string, d: int, ms: seq<Stamped<T>>, name: string): seq<Sample<T>> {
    if ms == [] then []
    else
      var before, m := ms[..|ms| - 1], ms[|ms| - 1];
      Accepted(root, d, before, name) +
      if m.childFrameId == name && Acceptable(After(root, d, before), m) then [Sample(m.stamp, m.transform)] else []
  }

  /** In every reachable graph, every edge holds exactly the window of what was accepted for it. */
  lemma {:induction false} BufferIsWindow<T(!new)>(root: string, d: int, ms: seq<Stamped<T>>, i: nat)
    requires 0 < i < |After(root, d, ms).names|
    ensures Represents(After(root, d, ms).samples[i], Accepted(root, d, ms, After(root, d, ms).names[i]), d)
  {
    hide Represents, Insert, IndexOf;
    NothingHeld<T>(d);
    if ms != [] {
      var before, m := ms[..|ms| - 1], ms[|ms| - 1];
      var earlier := After(root, d, before);
      var name := After(root, d, ms).names[i];
      AfterWellFormed(root, d, before);
      ApplyKeeps(earlier, m);
      if i < |earlier.names| {
        BufferIsWindow(root, d, before, i);
        if m.childFrameId == name && Apply(earlier, m).1 {
          InsertMeaning(earlier.samples[i], Accepted(root, d, before, name), Sample(m.stamp, m.transform), d);
        } else {
          assert Accepted(root, d, ms, name) == Accepted(root, d, before, name);
        }
      } else {
        NothingAccepted(root, d, before, name);
        InsertMeaning([], [], Sample(m.stamp, m.transform), d);
      }
    }
  }

  lemma NothingHeld<T(!new)>(d: int)
    ensures Represents<T>([], [], d)
  {
  }

  lemma {:induction false} NothingAccepted<T>(root: string, d: int, ms: seq<Stamped<T>>, name: string)
    requires name !in After(root, d, ms).names
    ensures Accepted(root, d, ms, name) == []
  {
    if ms != [] {
      var before, m := ms[..|ms| - 1], ms[|ms| - 1];
      AfterWellFormed(root, d, before);
      ApplyKeeps(After(root, d, before), m);
      NothingAccepted(root, d, before, name);
    }
  }

  // ---------- Children

  /** The frames hung under frame i, in the order they were hung. */
  ghost function Children(parent: seq<int>, i: int): seq<int> {
    if parent == [] then []
    else Children(parent[..|parent| - 1], i) + if parent[|parent| - 1] == i then [|parent| - 1] else []
  }

  /** j is listed under i exactly when its parent is i, and only once. */
  lemma {:induction false} ChildrenExact(parent: seq<int>, i: int, j: int)
    ensures j in Children(parent, i) <==> 0 <= j < |parent| && parent[j] == i
    ensures forall a, b :: 0 <= a < b < |Children(parent, i)|
              ==> Children(parent, i)[a] < Children(parent, i)[b] < |parent|
    ensures forall a :: 0 <= a < |Children(parent, i)| ==> 0 <= Children(parent, i)[a] < |parent|
  {
    if parent != [] {
      ChildrenLast(parent, i);
      hide Children;
      ChildrenExact(parent[..|parent| - 1], i, j);
    }
  }

  lemma ChildrenLast(parent: seq<int>, i: int)
    requires parent != []
    ensures var init, last := parent[..|parent| - 1], |parent| - 1;
            Children(parent, i) == Children(init, i) + if parent[last] == i then [last] else []
  {
  }

  // ---------- Ancestors

  predicate Ancestor(parent: seq<int>, a: nat, b: nat)
    requires Rooted(parent) && b < |parent|
  {
    a == b || (b > 0 && Ancestor(parent, a, parent[b]))
  }

  /** The nearest common ancestor, by always climbing from the frame with the greater index. */
  ghost function Nearest(parent: seq<int>, a: nat, b: nat): nat
    requires Rooted(parent) && a < |parent| && b < |parent|
    decreases a + b
  {
    if a == b then a
    else if a > b then Nearest(parent, parent[a], b)
    else Nearest(parent, a, parent[b])
  }

  lemma {:induction false} AncestorBelow(parent: seq<int>, a: nat, b: nat)
    requires Rooted(parent) && b < |parent| && Ancestor(parent, a, b)
    ensures a <= b
  {
    if a != b {
      AncestorBelow(parent, a, parent[b]);
    }
  }

  lemma {:induction false} RootIsAncestor(parent: seq<int>, b: nat)
    requires Rooted(parent) && b < |parent|
    ensures Ancestor(parent, 0, b)
  {
    if b != 0 {
      RootIsAncestor(parent, parent[b]);
    }
  }

  lemma {:induction false} AncestorTransitive(parent: seq<int>, a: nat, b: nat, c: nat)
    requires Rooted(parent) && b < |parent| && c < |parent|
    requires Ancestor(parent, a, b) && Ancestor(parent, b, c)
    ensures Ancestor(parent, a, c)
  {
    if b != c {
      AncestorTransitive(parent, a, b, parent[c]);
    }
  }

  /** Of two ancestors of one frame, the one with the smaller index is an ancestor of the other. */
  lemma {:induction false} AncestorsOrdered(parent: seq<int>, a: nat, b: nat, c: nat)
    requires Rooted(parent) && b < |parent| && c < |parent|
    requires Ancestor(parent, a, c) && Ancestor(parent, b, c) && a <= b
    ensures Ancestor(parent, a, b)
  {
    if b != c {
      AncestorBelow(parent, b, c);
      AncestorsOrdered(parent, a, b, parent[c]);
    }
  }

  lemma {:induction false} NearestIsCommon(parent: seq<int>, a: nat, b: nat)
    requires Rooted(parent) && a < |parent| && b < |parent|
    ensures var n := Nearest(parent, a, b);
            n <= a && n <= b && Ancestor(parent, n, a) && Ancestor(parent, n, b)
    decreases a + b
  {
    if a > b {
      NearestIsCommon(parent, parent[a], b);
    } else if a < b {
      NearestIsCommon(parent, a, parent[b]);
    }
  }

  /** Every common ancestor is an ancestor of the nearest one, which so has the greatest index of them all. */
  lemma {:induction false} NearestIsNearest(parent: seq<int>, a: nat, b: nat, c: nat)
    requires Rooted(parent) && a < |parent| && b < |parent|
    requires Ancestor(parent, c, a) && Ancestor(parent, c, b)
    ensures var n := Nearest(parent, a, b);
            n < |parent| && Ancestor(parent, c, n) && c <= n
    decreases a + b
  {
    AncestorBelow(parent, c, a);
    AncestorBelow(parent, c, b);
    if a > b {
      NearestIsNearest(parent, parent[a], b, c);
    } else if a < b {
      NearestIsNearest(parent, a, parent[b], c);
    }
  }

  /** A common ancestor below which there is no other is the nearest one. */
  lemma NearestUnique(parent: seq<int>, a: nat, b: nat, n: nat)
    requires Rooted(parent) && a < |parent| && b < |parent|
    requires Ancestor(parent, n, a) && Ancestor(parent, n, b)
    requires forall c: nat :: Ancestor(parent, c, a) && Ancestor(parent, c, b) ==> c <= n
    ensures n == Nearest(parent, a, b)
  {
    NearestIsCommon(parent, a, b);
    NearestIsNearest(parent, a, b, n);
  }

  lemma NearestSymmetric(parent: seq<int>, a: nat, b: nat)
    requires Rooted(parent) && a < |parent| && b < |parent|
    ensures Nearest(parent, a, b) == Nearest(parent, b, a)
    ensures Ancestor(parent, a, b) ==> Nearest(parent, a, b) == a
  {
    var n, m := Nearest(parent, a, b), Nearest(parent, b, a);
    NearestIsCommon(parent, a, b);
    NearestIsCommon(parent, b, a);
    NearestIsNearest(parent, a, b, m);
    NearestIsNearest(parent, b, a, n);
    if Ancestor(parent, a, b) {
      NearestIsNearest(parent, a, b, a);
    }
  }

  // ---------- Queries

  /** The transform of the edge above frame i, at a time. */
  ghost function EdgeAt<T>(t: Tree<T>, g: Algebra<T>, i: nat, time: int): T
    requires WellFormed(t) && 0 < i < |t.names|
  {
    Lookup(t.samples[i], time, g.blend).value
  }

  /** The product of the edges on the way down from a to b. */
  ghost function Down<T>(t: Tree<T>, g: Algebra<T>, a: nat, b: nat, time: int): T
    requires WellFormed(t) && b < |t.names| && Ancestor(t.parent, a, b)
    decreases b
  {
    if a == b then g.one
    else g.mul(Down(t, g, a, t.parent[b], time), EdgeAt(t, g, b, time))
  }

  ghost function FromRoot<T>(t: Tree<T>, g: Algebra<T>, b: nat, time: int): T
    requires WellFormed(t) && b < |t.names|
  {
    RootIsAncestor(t.parent, b);
    Down(t, g, 0, b, time)
  }

  ghost function Relative<T>(t: Tree<T>, g: Algebra<T>, target: nat, source: nat, time: int): T
    requires WellFormed(t) && target < |t.names| && source < |t.names|
  {
    var n := Nearest(t.parent, target, source);
    NearestIsCommon(t.parent, target, source);
    g.mul(Down(t, g, n, target, time), g.inv(Down(t, g, n, source, time)))
  }

  ghost function Query<T>(t: Tree<T>, g: Algebra<T>, target: string, source: string, time: int): Option<T>
    requires WellFormed(t)
  {
    var i, j := IndexOf(t.names, target), IndexOf(t.names, source);
    if target == source then Some(g.one)
    else if i < 0 || j < 0 then None
    else Some(Relative(t, g, i, j, time))
  }

  lemma {:induction false} DownComposes<T(!new)>(t: Tree<T>, g: Algebra<T>, a: nat, b: nat, c: nat, time: int)
    requires WellFormed(t) && IsGroup(g) && b < |t.names| && c < |t.names|
    requires Ancestor(t.parent, a, b) && Ancestor(t.parent, b, c)
    ensures Ancestor(t.parent, a, c)
    ensures Down(t, g, a, c, time) == g.mul(Down(t, g, a, b, time), Down(t, g, b, c, time))
    decreases c
  {
    AncestorTransitive(t.parent, a, b, c);
    AncestorBelow(t.parent, a, b);
    if b != c {
      AncestorBelow(t.parent, b, t.parent[c]);
      DownComposes(t, g, a, b, t.parent[c], time);
      Associative(g, Down(t, g, a, b, time), Down(t, g, b, t.parent[c], time), EdgeAt(t, g, c, time));
    }
  }

  /** In a reachable graph no edge is ever empty, so a query succeeds exactly for equal names, known or not, and for
      known ones. */
  lemma QuerySucceeds<T>(root: string, d: int, ms: seq<Stamped<T>>, g: Algebra<T>, target: string, source: string,
                         time: int)
    ensures var t := After(root, d, ms);
            && WellFormed(t)
            && (Query(t, g, target, source, time).Some? <==>
                target == source || (target in t.names && source in t.names))
            && (target == source ==> Query(t, g, target, source, time) == Some(g.one))
            && (forall i, j :: 0 <= i < |t.names| && 0 <= j < |t.names| && t.names[i] == target != source == t.names[j]
                  ==> Query(t, g, target, source, time) == Some(Relative(t, g, i, j, time)))
            && (forall i :: 0 < i < |t.names| ==> Lookup(t.samples[i], time, g.blend).Some?)
  {
    AfterWellFormed(root, d, ms);
  }

  /** Swapping target and source gives the inverse. */
  lemma RelativeSwap<T(!new)>(t: Tree<T>, g: Algebra<T>, i: nat, j: nat, time: int)
    requires WellFormed(t) && IsGroup(g) && i < |t.names| && j < |t.names|
    ensures Relative(t, g, j, i, time) == g.inv(Relative(t, g, i, j, time))
  {
    var n := Nearest(t.parent, i, j);
    NearestIsCommon(t.parent, i, j);
    NearestSymmetric(t.parent, i, j);
    var p, q := Down(t, g, n, i, time), Down(t, g, n, j, time);
    InverseProduct(g, p, g.inv(q));
    InverseInverse(g, q);
  }

  /** Towards an ancestor, the query is the product of the edges on the way down from it. */
  lemma RelativeToAncestor<T(!new)>(t: Tree<T>, g: Algebra<T>, i: nat, j: nat, time: int)
    requires WellFormed(t) && IsGroup(g) && i < |t.names| && j < |t.names| && Ancestor(t.parent, j, i)
    ensures Relative(t, g, i, j, time) == Down(t, g, j, i, time)
  {
    NearestSymmetric(t.parent, j, i);
    InverseOne(g);
  }

  /** Down a chain of ancestors, queries multiply. */
  lemma RelativeTelescopes<T(!new)>(t: Tree<T>, g: Algebra<T>, a: nat, b: nat, c: nat, time: int)
    requires WellFormed(t) && IsGroup(g) && b < |t.names| && c < |t.names|
    requires Ancestor(t.parent, a, b) && Ancestor(t.parent, b, c)
    ensures a < |t.names|
    ensures Relative(t, g, c, a, time) == g.mul(Relative(t, g, b, a, time), Relative(t, g, c, b, time))
  {
    AncestorBelow(t.parent, a, b);
    DownComposes(t, g, a, b, c, time);
    RelativeToAncestor(t, g, c, a, time);
    RelativeToAncestor(t, g, b, a, time);
    RelativeToAncestor(t, g, c, b, time);
  }

  // ---------- When queries between three frames compose

  /** Of the three pairs among three frames, the one whose nearest common ancestor is lowest. */
  ghost function InnerPair(parent: seq<int>, a: nat, b: nat, c: nat): (pair: (nat, nat))
    requires Rooted(parent) && a < |parent| && b < |parent| && c < |parent|
    ensures pair == (a, b) || pair == (b, c) || pair == (a, c)
  {
    var ab, bc, ac := Nearest(parent, a, b), Nearest(parent, b, c), Nearest(parent, a, c);
    if bc <= ab && ac <= ab then (a, b) else if ac <= bc then (b, c) else (a, c)
  }

  ghost function MeetOfThree(parent: seq<int>, a: nat, b: nat, c: nat): (n: nat)
    requires Rooted(parent) && a < |parent| && b < |parent| && c < |parent|
  {
    NearestIsCommon(parent, a, b);
    Nearest(parent, Nearest(parent, a, b), c)
  }

  /** The other two pairs meet where all three frames do, at or above that. */
  lemma OuterPairs(parent: seq<int>, x: nat, y: nat, z: nat)
    requires Rooted(parent) && x < |parent| && y < |parent| && z < |parent|
    requires Nearest(parent, y, z) <= Nearest(parent, x, y) && Nearest(parent, x, z) <= Nearest(parent, x, y)
    ensures var m := Nearest(parent, x, y);
            && m < |parent| && Nearest(parent, y, z) == Nearest(parent, x, z) == Nearest(parent, m, z)
            && Ancestor(parent, m, x) && Ancestor(parent, m, y) && Ancestor(parent, Nearest(parent, m, z), m)
            && Ancestor(parent, Nearest(parent, m, z), z)
  {
    var m, p, q := Nearest(parent, x, y), Nearest(parent, y, z), Nearest(parent, x, z);
    NearestIsCommon(parent, x, y);
    NearestIsCommon(parent, y, z);
    NearestIsCommon(parent, x, z);
    AncestorsOrdered(parent, p, m, y);
    AncestorsOrdered(parent, q, m, x);
    AncestorTransitive(parent, p, m, x);
    AncestorTransitive(parent, q, m, y);
    NearestIsNearest(parent, x, z, p);
    NearestIsNearest(parent, y, z, q);
    var r := Nearest(parent, m, z);
    NearestIsCommon(parent, m, z);
    NearestIsNearest(parent, m, z, p);
    AncestorTransitive(parent, r, m, y);
    NearestIsNearest(parent, y, z, r);
  }

  /**
   Let w be the way down from where three frames meet to where the inner pair of them meets, and x the query
   between that pair. The queries compose exactly when w and x commute.
   */
  lemma RelativeComposesIff<T(!new)>(t: Tree<T>, g: Algebra<T>, a: nat, b: nat, c: nat, time: int)
    requires WellFormed(t) && IsGroup(g) && a < |t.names| && b < |t.names| && c < |t.names|
    ensures var (i, j) := InnerPair(t.parent, a, b, c);
            var n, m := MeetOfThree(t.parent, a, b, c), Nearest(t.parent, i, j);
            && m < |t.names| && Ancestor(t.parent, n, m)
            && var w, x := Down(t, g, n, m, time), Relative(t, g, i, j, time);
               Relative(t, g, a, c, time) == g.mul(Relative(t, g, a, b, time), Relative(t, g, b, c, time))
               <==> g.mul(w, x) == g.mul(x, w)
  {
    hide IsGroup, Nearest, Ancestor, Down, Relative;
    var ab, bc, ac := Nearest(t.parent, a, b), Nearest(t.parent, b, c), Nearest(t.parent, a, c);
    NearestSymmetric(t.parent, a, b);
    NearestSymmetric(t.parent, b, c);
    NearestSymmetric(t.parent, a, c);
    NearestIsCommon(t.parent, a, c);
    NearestIsCommon(t.parent, b, c);
    if bc <= ab && ac <= ab {
      OuterPairs(t.parent, a, b, c);
      InnerFirst(t, g, a, b, c, time);
    } else if ac <= bc {
      OuterPairs(t.parent, b, c, a);
      InnerLast(t, g, a, b, c, time);
      NearestSymmetric(t.parent, ab, c);
    } else {
      OuterPairs(t.parent, a, c, b);
      InnerEnds(t, g, a, b, c, time);
      NearestSymmetric(t.parent, ab, c);
    }
  }

  lemma InnerFirst<T(!new)>(t: Tree<T>, g: Algebra<T>, a: nat, b: nat, c: nat, time: int)
    requires WellFormed(t) && IsGroup(g) && a < |t.names| && b < |t.names| && c < |t.names|
    requires var n, m := Nearest(t.parent, a, c), Nearest(t.parent, a, b);
             m < |t.names| && n == Nearest(t.parent, b, c) && Ancestor(t.parent, n, m)
    ensures var w := Down(t, g, Nearest(t.parent, a, c), Nearest(t.parent, a, b), time);
            var x := Relative(t, g, a, b, time);
            Relative(t, g, a, c, time) == g.mul(x, Relative(t, g, b, c, time)) <==> g.mul(w, x) == g.mul(x, w)
  {
    hide IsGroup, Nearest, Ancestor, Down;
    var n, m := Nearest(t.parent, a, c), Nearest(t.parent, a, b);
    NearestIsCommon(t.parent, a, b);
    NearestIsCommon(t.parent, a, c);
    NearestIsCommon(t.parent, b, c);
    DownComposes(t, g, n, m, a, time);
    DownComposes(t, g, n, m, b, time);
    ComposeFirst(g, Down(t, g, n, m, time), Down(t, g, m, a, time), Down(t, g, m, b, time), Down(t, g, n, c, time));
  }

  lemma InnerLast<T(!new)>(t: Tree<T>, g: Algebra<T>, a: nat, b: nat, c: nat, time: int)
    requires WellFormed(t) && IsGroup(g) && a < |t.names| && b < |t.names| && c < |t.names|
    requires var n, m := Nearest(t.parent, a, c), Nearest(t.parent, b, c);
             m < |t.names| && n == Nearest(t.parent, a, b) && Ancestor(t.parent, n, m)
    ensures var w := Down(t, g, Nearest(t.parent, a, c), Nearest(t.parent, b, c), time);
            var x := Relative(t, g, b, c, time);
            Relative(t, g, a, c, time) == g.mul(Relative(t, g, a, b, time), x) <==> g.mul(w, x) == g.mul(x, w)
  {
    hide IsGroup, Nearest, Ancestor, Down;
    var n, m := Nearest(t.parent, a, c), Nearest(t.parent, b, c);
    NearestIsCommon(t.parent, a, b);
    NearestIsCommon(t.parent, a, c);
    NearestIsCommon(t.parent, b, c);
    DownComposes(t, g, n, m, b, time);
    DownComposes(t, g, n, m, c, time);
    ComposeLast(g, Down(t, g, n, m, time), Down(t, g, n, a, time), Down(t, g, m, b, time), Down(t, g, m, c, time));
  }

  lemma InnerEnds<T(!new)>(t: Tree<T>, g: Algebra<T>, a: nat, b: nat, c: nat, time: int)
    requires WellFormed(t) && IsGroup(g) && a < |t.names| && b < |t.names| && c < |t.names|
    requires var n, m := Nearest(t.parent, a, b), Nearest(t.parent, a, c);
             m < |t.names| && n == Nearest(t.parent, b, c) && Ancestor(t.parent, n, m)
    ensures var w := Down(t, g, Nearest(t.parent, a, b), Nearest(t.parent, a, c), time);
            var x := Relative(t, g, a, c, time);
            x == g.mul(Relative(t, g, a, b, time), Relative(t, g, b, c, time)) <==> g.mul(w, x) == g.mul(x, w)
  {
    hide IsGroup, Nearest, Ancestor, Down;
    var n, m := Nearest(t.parent, a, b), Nearest(t.parent, a, c);
    NearestIsCommon(t.parent, a, b);
    NearestIsCommon(t.parent, a, c);
    NearestIsCommon(t.parent, b, c);
    DownComposes(t, g, n, m, a, time);
    DownComposes(t, g, n, m, c, time);
    ComposeEnds(g, Down(t, g, n, m, time), Down(t, g, m, a, time), Down(t, g, n, b, time), Down(t, g, m, c, time));
  }

  /** So three frames that all meet in one place compose. */
  lemma RelativeComposes<T(!new)>(t: Tree<T>, g: Algebra<T>, a: nat, b: nat, c: nat, time: int)
    requires WellFormed(t) && IsGroup(g) && a < |t.names| && b < |t.names| && c < |t.names|
    requires Nearest(t.parent, a, b) == Nearest(t.parent, b, c) == Nearest(t.parent, a, c)
    ensures Relative(t, g, a, c, time) == g.mul(Relative(t, g, a, b, time), Relative(t, g, b, c, time))
  {
    RelativeComposesIff(t, g, a, b, c, time);
    NearestIsCommon(t.parent, a, b);
    NearestIsCommon(t.parent, b, c);
    NearestSymmetric(t.parent, Nearest(t.parent, a, b), c);
  }

  /** Conjugated by the way from the root to the meeting point, the query is the root-based quotient. */
  lemma RelativeFromRoot<T(!new)>(t: Tree<T>, g: Algebra<T>, i: nat, j: nat, time: int)
    requires WellFormed(t) && IsGroup(g) && i < |t.names| && j < |t.names|
    ensures Nearest(t.parent, i, j) < |t.names|
    ensures var r := FromRoot(t, g, Nearest(t.parent, i, j), time);
            g.mul(g.mul(r, Relative(t, g, i, j, time)), g.inv(r))
            == g.mul(FromRoot(t, g, i, time), g.inv(FromRoot(t, g, j, time)))
  {
    var n := Nearest(t.parent, i, j);
    NearestIsCommon(t.parent, i, j);
    RootIsAncestor(t.parent, n);
    DownComposes(t, g, 0, n, i, time);
    DownComposes(t, g, 0, n, j, time);
    var r, p, q := FromRoot(t, g, n, time), Down(t, g, n, i, time), Down(t, g, n, j, time);
    InverseProduct(g, r, q);
    Associative(g, r, p, g.inv(q));
    Associative(g, g.mul(r, p), g.inv(q), g.inv(r));
  }

  /**
   The pose of the target seen from the source would be the root-based source⁻¹ · target. The query is
   that exactly when the two ways down from the meeting point commute, as they do on one branch.
   */
  lemma RelativeIsPoseIff<T(!new)>(t: Tree<T>, g: Algebra<T>, i: nat, j: nat, time: int)
    requires WellFormed(t) && IsGroup(g) && i < |t.names| && j < |t.names|
    ensures var n := Nearest(t.parent, i, j);
            && n <= i && n <= j && Ancestor(t.parent, n, i) && Ancestor(t.parent, n, j)
            && var p, q := Down(t, g, n, i, time), Down(t, g, n, j, time);
               Relative(t, g, i, j, time) == g.mul(g.inv(FromRoot(t, g, j, time)), FromRoot(t, g, i, time))
               <==> g.mul(p, q) == g.mul(q, p)
    ensures Ancestor(t.parent, i, j) || Ancestor(t.parent, j, i) ==>
              Relative(t, g, i, j, time) == g.mul(g.inv(FromRoot(t, g, j, time)), FromRoot(t, g, i, time))
  {
    var n := Nearest(t.parent, i, j);
    NearestIsCommon(t.parent, i, j);
    NearestSymmetric(t.parent, i, j);
    NearestSymmetric(t.parent, j, i);
    RootIsAncestor(t.parent, n);
    DownComposes(t, g, 0, n, i, time);
    DownComposes(t, g, 0, n, j, time);
    var r, p, q := FromRoot(t, g, n, time), Down(t, g, n, i, time), Down(t, g, n, j, time);
    InverseProduct(g, r, q);
    Cancel(g, g.inv(q), r, p);
    Associative(g, g.inv(q), g.inv(r), g.mul(r, p));
    CommuteIff(g, p, q);
  }

  // ---------- Leaves

  /** A frame other than the root that is no frame's parent. */
  ghost predicate IsLeaf<T>(t: Tree<T>, i: int) {
    0 < i < |t.parent| && forall j :: 0 <= j < |t.parent| ==> t.parent[j] != i
  }

  /** The names of the leaves among the first n frames, in order. */
  ghost function Leaves<T>(t: Tree<T>, n: nat): seq<string>
    requires n <= |t.names|
  {
    if n == 0 then []
    else Leaves(t, n - 1) + if IsLeaf(t, n - 1) then [t.names[n - 1]] else []
  }

  /** The list names every leaf once and nothing else. */
  lemma {:induction false} LeavesExact<T>(t: Tree<T>, n: nat, name: string)
    requires WellFormed(t) && n <= |t.names|
    ensures name in Leaves(t, n) <==> exists i :: 0 <= i < n && IsLeaf(t, i) && t.names[i] == name
    ensures forall a, b :: 0 <= a < b < |Leaves(t, n)| ==> Leaves(t, n)[a] != Leaves(t, n)[b]
  {
    if n > 0 {
      LeavesExact(t, n - 1, name);
      LeavesExact(t, n - 1, t.names[n - 1]);
    }
  }

  /** In the order of the indices. */
  lemma {:induction false} LeavesInOrder<T>(t: Tree<T>, n: nat) returns (at: seq<nat>)
    requires n <= |t.names|
    ensures |at| == |Leaves(t, n)|
    ensures forall k :: 0 <= k < |at| ==> at[k] < n && IsLeaf(t, at[k]) && Leaves(t, n)[k] == t.names[at[k]]
    ensures forall k, l :: 0 <= k < l < |at| ==> at[k] < at[l]
  {
    hide IsLeaf;
    at := [];
    if n > 0 {
      at := LeavesInOrder(t, n - 1);
      if IsLeaf(t, n - 1) {
        at := at + [n - 1];
      }
    }
  }
}
