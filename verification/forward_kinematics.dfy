/**
 The viewer's own forward kinematics: two dictionaries built from a TF message, and a recursion that keeps
 a stack of matrices. For the messages of a robot it finds the poses a frame graph would give.
 */
module ForwardKinematics {
  import opened Common
  import opened TransformAlgebra
  import opened FrameTrees
  import opened Kinematics
  import opened Trails

  // ---------- The dictionaries

  /** For each frame its last transform, and for each frame the frames below it, in the order of the message. */
  ghost predicate Dictionaries<T>(ms: seq<Stamped<T>>, tdict: map<string, T>, cdict: map<string, seq<string>>) {
    && (forall name :: LastFor(ms, name) == if name in tdict then Some(tdict[name]) else None)
    && (forall name :: Below(ms, name) == if name in cdict then cdict[name] else [])
  }

  ghost function LastFor<T>(ms: seq<Stamped<T>>, name: string): Option<T> {
    if ms == [] then None
    else if ms[|ms| - 1].childFrameId == name then Some(ms[|ms| - 1].transform)
    else LastFor(ms[..|ms| - 1], name)
  }

  ghost function Below<T>(ms: seq<Stamped<T>>, name: string): seq<string> {
    if ms == [] then []
    else Below(ms[..|ms| - 1], name) + if ms[|ms| - 1].frameId == name then [ms[|ms| - 1].childFrameId] else []
  }

  /** The frames below a name are those of the entries that hang there. */
  lemma {:induction false} BelowExact<T>(ms: seq<Stamped<T>>, name: string, child: string)
    ensures child in Below(ms, name) <==>
              exists k :: 0 <= k < |ms| && ms[k].frameId == name && ms[k].childFrameId == child
  {
    if ms != [] {
      var init := ms[..|ms| - 1];
      BelowExact(init, name, child);
      assert forall k :: 0 <= k < |init| ==> init[k] == ms[k];
    }
  }

  lemma {:induction false} LastExact<T>(ms: seq<Stamped<T>>, k: nat)
    requires k < |ms|
    ensures LastFor(ms, ms[k].childFrameId).Some?
    ensures (forall i, j :: 0 <= i < j < |ms| ==> ms[i].childFrameId != ms[j].childFrameId) ==>
              LastFor(ms, ms[k].childFrameId) == Some(ms[k].transform)
  {
    if k < |ms| - 1 {
      LastExact(ms[..|ms| - 1], k);
    }
  }

  lemma OneMoreEntry<T>(ms: seq<Stamped<T>>, k: nat, tdict: map<string, T>, cdict: map<string, seq<string>>)
    requires k < |ms| && Dictionaries(ms[..k], tdict, cdict)
    ensures var parent, child := ms[k].frameId, ms[k].childFrameId;
            var siblings := if parent in cdict then cdict[parent] else [];
            Dictionaries(ms[..k + 1], tdict[child := ms[k].transform], cdict[parent := siblings + [child]])
  {
    hide LastFor, Below;
    var parent, child := ms[k].frameId, ms[k].childFrameId;
    var siblings := if parent in cdict then cdict[parent] else [];
    var tnext, cnext := tdict[child := ms[k].transform], cdict[parent := siblings + [child]];
    forall name ensures LastFor(ms[..k + 1], name) == if name in tnext then Some(tnext[name]) else None {
      EntryAdds(ms, k, name);
    }
    forall name ensures Below(ms[..k + 1], name) == if name in cnext then cnext[name] else [] {
      EntryAdds(ms, k, name);
    }
  }

  lemma EntryAdds<T>(ms: seq<Stamped<T>>, k: nat, name: string)
    requires k < |ms|
    ensures LastFor(ms[..k + 1], name) ==
            if ms[k].childFrameId == name then Some(ms[k].transform) else LastFor(ms[..k], name)
    ensures Below(ms[..k + 1], name) ==
            Below(ms[..k], name) + if ms[k].frameId == name then [ms[k].childFrameId] else []
  {
    assert ms[..k + 1][..k] == ms[..k] && ms[..k + 1][k] == ms[k];
  }

  // ---------- What the recursion fills in

  ghost function Listed(cdict: map<string, seq<string>>): string -> seq<string> {
    name => if name in cdict then cdict[name] else []
  }

  ghost function Hung<T>(ms: seq<Stamped<T>>): string -> seq<string> {
    name => Below(ms, name)
  }

  lemma DictionaryTrails<T>(ms: seq<Stamped<T>>, tdict: map<string, T>, cdict: map<string, seq<string>>, root: string)
    requires Dictionaries(ms, tdict, cdict)
    ensures NoneRecurs(Hung(ms), root) <==> NoneRecurs(Listed(cdict), root)
  {
    SameTrails(Hung(ms), Listed(cdict), root);
  }

  ghost predicate Known<T>(tdict: map<string, T>, cdict: map<string, seq<string>>) {
    forall name, child :: child in Listed(cdict)(name) ==> child in tdict
  }

  lemma DictionariesKnown<T>(ms: seq<Stamped<T>>, tdict: map<string, T>, cdict: map<string, seq<string>>)
    requires Dictionaries(ms, tdict, cdict)
    ensures Known(tdict, cdict)
  {
    forall name, child | child in Listed(cdict)(name) ensures child in tdict {
      BelowExact(ms, name, child);
      var k :| 0 <= k < |ms| && ms[k].frameId == name && ms[k].childFrameId == child;
      LastExact(ms, k);
    }
  }

  /** Depth first: each child gets its parent's matrix times its own transform, a frame met again a new one. */
  ghost function FillFrom<T>(g: Algebra<T>, tdict: map<string, T>, cdict: map<string, seq<string>>, link: string,
                             base: T, tf: map<string, T>): map<string, T>
    requires Known(tdict, cdict) && NoneRecurs(Listed(cdict), link)
    decreases Steps(Listed(cdict), link), 1, 0
  {
    FillSome(g, tdict, cdict, link, base, tf, |Listed(cdict)(link)|)
  }

  /** The same for the first n children of the link. */
  ghost function FillSome<T>(g: Algebra<T>, tdict: map<string, T>, cdict: map<string, seq<string>>, link: string,
                             base: T, tf: map<string, T>, n: nat): map<string, T>
    requires Known(tdict, cdict) && NoneRecurs(Listed(cdict), link) && n <= |Listed(cdict)(link)|
    decreases Steps(Listed(cdict), link), 0, n
  {
    if n == 0 then tf
    else
      var child := Listed(cdict)(link)[n - 1];
      StepOn(Listed(cdict), cdict.Keys, link, child);
      var pose := g.mul(base, tdict[child]);
      FillFrom(g, tdict, cdict, child, pose, FillSome(g, tdict, cdict, link, base, tf, n - 1)[child := pose])
  }

  lemma FillEnds<T>(g: Algebra<T>, tdict: map<string, T>, cdict: map<string, seq<string>>, link: string, base: T,
                    tf: map<string, T>)
    requires Known(tdict, cdict) && NoneRecurs(Listed(cdict), link)
    ensures FillSome(g, tdict, cdict, link, base, tf, 0) == tf
    ensures FillFrom(g, tdict, cdict, link, base, tf)
            == FillSome(g, tdict, cdict, link, base, tf, |Listed(cdict)(link)|)
  {
  }

  lemma FillNext<T>(g: Algebra<T>, tdict: map<string, T>, cdict: map<string, seq<string>>, link: string, base: T,
                    tf: map<string, T>, n: nat)
    requires Known(tdict, cdict) && NoneRecurs(Listed(cdict), link) && n < |Listed(cdict)(link)|
    ensures var child := Listed(cdict)(link)[n];
            && child in tdict && NoneRecurs(Listed(cdict), child)
            && Steps(Listed(cdict), child) < Steps(Listed(cdict), link)
            && var pose, before := g.mul(base, tdict[child]), FillSome(g, tdict, cdict, link, base, tf, n);
               FillSome(g, tdict, cdict, link, base, tf, n + 1)
               == FillFrom(g, tdict, cdict, child, pose, before[child := pose])
  {
    hide Steps, NoneRecurs, FillFrom;
    StepOn(Listed(cdict), cdict.Keys, link, Listed(cdict)(link)[n]);
  }

  // ---------- Below which frame a frame is, in a list that hangs together

  /** Frame j is frame i or below it. */
  ghost predicate Under<T>(root: string, ms: seq<Stamped<T>>, i: nat, j: nat)
    requires Hangs(root, ms) && j <= |ms|
    decreases j
  {
    i == j || (j > 0 && Under(root, ms, i, Above(root, ms, j - 1)))
  }

  lemma {:induction false} UnderRoot<T>(root: string, ms: seq<Stamped<T>>, j: nat)
    requires Hangs(root, ms) && j <= |ms|
    ensures Under(root, ms, 0, j)
    decreases j
  {
    if j > 0 {
      UnderRoot(root, ms, Above(root, ms, j - 1));
    }
  }

  /** Below a frame is what is at or below the frames directly below it. */
  lemma {:induction false} UnderVia<T>(root: string, ms: seq<Stamped<T>>, i: nat, j: nat) returns (c: nat)
    requires Hangs(root, ms) && j <= |ms| && i != j && Under(root, ms, i, j)
    ensures 0 < c <= j && Above(root, ms, c - 1) == i && Under(root, ms, c, j)
    decreases j
  {
    var a := Above(root, ms, j - 1);
    if a == i {
      c := j;
    } else {
      c := UnderVia(root, ms, i, a);
    }
  }

  lemma {:induction false} UnderStep<T>(root: string, ms: seq<Stamped<T>>, i: nat, c: nat, j: nat)
    requires Hangs(root, ms) && 0 < c && j <= |ms| && c <= |ms| && Above(root, ms, c - 1) == i && Under(root, ms, c, j)
    ensures Under(root, ms, i, j) && i < c <= j
    decreases j
  {
    if j != c {
      UnderStep(root, ms, i, c, Above(root, ms, j - 1));
    }
  }

  /** What has been filled in so far is right. */
  ghost predicate Correct<T>(root: string, ms: seq<Stamped<T>>, g: Algebra<T>, globalTf: map<string, T>)
    requires Hangs(root, ms)
  {
    forall j :: 0 < j <= |ms| && Names(root, ms)[j] in globalTf ==> globalTf[Names(root, ms)[j]] == Pose(root, ms, g, j)
  }

  /** Frame j is at or below one of the first n of the listed frames. */
  ghost predicate Covered<T>(root: string, ms: seq<Stamped<T>>, children: seq<string>, n: nat, j: nat)
    requires Hangs(root, ms) && n <= |children| && j <= |ms|
  {
    exists c :: 0 <= c <= |ms| && Names(root, ms)[c] in children[..n] && Under(root, ms, c, j)
  }

  /** A listed child is a frame, hung under the frame that lists it, and its pose is one product further. */
  lemma ChildIndex<T>(root: string, ms: seq<Stamped<T>>, g: Algebra<T>, i: nat, child: string) returns (c: nat)
    requires Hangs(root, ms) && i <= |ms| && child in Below(ms, Names(root, ms)[i])
    ensures i < c <= |ms| && Names(root, ms)[c] == child && ms[c - 1].childFrameId == child
    ensures Above(root, ms, c - 1) == i
    ensures Pose(root, ms, g, c) == g.mul(Pose(root, ms, g, i), ms[c - 1].transform)
  {
    hide Hangs, Names;
    BelowExact(ms, Names(root, ms)[i], child);
    var k :| 0 <= k < |ms| && ms[k].frameId == Names(root, ms)[i] && ms[k].childFrameId == child;
    c := k + 1;
    AboveIs(root, ms, k, i);
  }

  lemma CoveredStep<T>(root: string, ms: seq<Stamped<T>>, children: seq<string>, n: nat, c: nat, j: nat)
    requires Hangs(root, ms) && n < |children| && c <= |ms| && j <= |ms| && Names(root, ms)[c] == children[n]
    ensures Covered(root, ms, children, n + 1, j) <==> Covered(root, ms, children, n, j) || Under(root, ms, c, j)
  {
    hide Hangs, Names, Under;
    NamesDistinct(root, ms);
    assert children[..n + 1] == children[..n] + [children[n]];
  }

  /** The frames at or below the listed children are all that is below the link. */
  lemma CoveredAll<T>(root: string, ms: seq<Stamped<T>>, g: Algebra<T>, i: nat, children: seq<string>, j: nat)
    requires Hangs(root, ms) && i <= |ms| && j <= |ms| && children == Below(ms, Names(root, ms)[i])
    ensures Covered(root, ms, children, |children|, j) <==> j != i && Under(root, ms, i, j)
  {
    hide Hangs, Names, Under, Below, Above;
    assert children[..|children|] == children;
    if Covered(root, ms, children, |children|, j) {
      var c :| 0 <= c <= |ms| && Names(root, ms)[c] in children[..|children|] && Under(root, ms, c, j);
      var c' := ChildIndex(root, ms, g, i, Names(root, ms)[c]);
      NamesDistinct(root, ms);
      UnderStep(root, ms, i, c, j);
    }
    if j != i && Under(root, ms, i, j) {
      var c := UnderVia(root, ms, i, j);
      AboveNames(root, ms, c - 1);
      BelowExact(ms, Names(root, ms)[i], Names(root, ms)[c]);
    }
  }

  lemma FillKeeps<T>(root: string, ms: seq<Stamped<T>>, g: Algebra<T>, globalTf: map<string, T>, c: nat)
    requires Hangs(root, ms) && Correct(root, ms, g, globalTf) && 0 < c <= |ms|
    ensures Correct(root, ms, g, globalTf[Names(root, ms)[c] := Pose(root, ms, g, c)])
    ensures forall j :: 0 < j <= |ms| && Names(root, ms)[j] == Names(root, ms)[c] ==> j == c
  {
    hide Hangs, Names, Pose;
    NamesDistinct(root, ms);
  }

  lemma NothingCovered<T>(root: string, ms: seq<Stamped<T>>, children: seq<string>)
    requires Hangs(root, ms)
    ensures forall j :: 0 <= j <= |ms| ==> !Covered(root, ms, children, 0, j)
  {
  }

  lemma UnderSelf<T>(root: string, ms: seq<Stamped<T>>, c: nat)
    requires Hangs(root, ms) && c <= |ms|
    ensures Under(root, ms, c, c)
  {
  }

  lemma Look<T>(root: string, ms: seq<Stamped<T>>, tdict: map<string, T>, cdict: map<string, seq<string>>, link: string)
    requires Hangs(root, ms) && Dictionaries(ms, tdict, cdict)
    ensures Below(ms, link) == Listed(cdict)(link)
    ensures forall k :: 0 <= k < |ms| && ms[k].childFrameId == link ==> link in tdict && tdict[link] == ms[k].transform
  {
    hide Names, Below;
    forall k | 0 <= k < |ms| && ms[k].childFrameId == link ensures link in tdict && tdict[link] == ms[k].transform {
      LastExact(ms, k);
    }
  }

  // ---------- What the recursion fills in for a list that hangs together

  /** Exactly the frames of the list are filled in, with their poses. */
  ghost predicate Shows<T>(root: string, ms: seq<Stamped<T>>, g: Algebra<T>, globalTf: map<string, T>)
    requires Hangs(root, ms)
  {
    && Correct(root, ms, g, globalTf)
    && forall name :: name in globalTf <==> exists j :: 0 < j <= |ms| && Names(root, ms)[j] == name
  }

  ghost predicate OnlyFrames<T>(root: string, ms: seq<Stamped<T>>, before: map<string, T>, after: map<string, T>) {
    forall name :: name in after ==> name in before || exists j :: 0 < j <= |ms| && Names(root, ms)[j] == name
  }

  /** From a frame on, what is filled in is right, and it is exactly what is below the frame. */
  lemma {:induction false} FillRight<T>(root: string, ms: seq<Stamped<T>>, g: Algebra<T>, tdict: map<string, T>,
                                        cdict: map<string, seq<string>>, i: nat, tf: map<string, T>)
    requires Hangs(root, ms) && Dictionaries(ms, tdict, cdict) && Known(tdict, cdict) && i <= |ms|
    requires NoneRecurs(Listed(cdict), Names(root, ms)[i]) && Correct(root, ms, g, tf)
    ensures var r := FillFrom(g, tdict, cdict, Names(root, ms)[i], Pose(root, ms, g, i), tf);
            && Correct(root, ms, g, r) && OnlyFrames(root, ms, tf, r)
            && forall j :: 0 < j <= |ms| ==>
                 (Names(root, ms)[j] in r <==> Names(root, ms)[j] in tf || (j != i && Under(root, ms, i, j)))
    decreases |ms| - i, 1, 0
  {
    hide Hangs, Names, Under, Covered, Correct, Pose, Dictionaries, Below, Above, NoneRecurs, Steps, OnlyFrames, Known;
    var children := Listed(cdict)(Names(root, ms)[i]);
    FillRightSome(root, ms, g, tdict, cdict, i, tf, |children|);
    Look(root, ms, tdict, cdict, Names(root, ms)[i]);
    forall j | 0 < j <= |ms| ensures Covered(root, ms, children, |children|, j) <==> j != i && Under(root, ms, i, j) {
      CoveredAll(root, ms, g, i, children, j);
    }
  }

  lemma {:induction false} FillRightSome<T>(root: string, ms: seq<Stamped<T>>, g: Algebra<T>, tdict: map<string, T>,
                                            cdict: map<string, seq<string>>, i: nat, tf: map<string, T>, n: nat)
    requires Hangs(root, ms) && Dictionaries(ms, tdict, cdict) && Known(tdict, cdict) && i <= |ms|
    requires NoneRecurs(Listed(cdict), Names(root, ms)[i]) && Correct(root, ms, g, tf)
    requires n <= |Listed(cdict)(Names(root, ms)[i])|
    ensures var r := FillSome(g, tdict, cdict, Names(root, ms)[i], Pose(root, ms, g, i), tf, n);
            && Correct(root, ms, g, r) && OnlyFrames(root, ms, tf, r)
            && forall j :: 0 < j <= |ms| ==>
                 (Names(root, ms)[j] in r <==>
                    Names(root, ms)[j] in tf || Covered(root, ms, Listed(cdict)(Names(root, ms)[i]), n, j))
    decreases |ms| - i, 0, n
  {
    hide Hangs, Names, Under, Covered, Correct, Pose, Dictionaries, Below, Above, NoneRecurs, Steps, Known, FillFrom;
    var names := Names(root, ms);
    var children := Listed(cdict)(names[i]);
    if n == 0 {
      NothingCovered(root, ms, children);
    } else {
      var child := children[n - 1];
      var before := FillSome(g, tdict, cdict, names[i], Pose(root, ms, g, i), tf, n - 1);
      FillRightSome(root, ms, g, tdict, cdict, i, tf, n - 1);
      Look(root, ms, tdict, cdict, names[i]);
      var c := ChildIndex(root, ms, g, i, child);
      Look(root, ms, tdict, cdict, child);
      StepOn(Listed(cdict), cdict.Keys, names[i], child);
      FillKeeps(root, ms, g, before, c);
      FillRight(root, ms, g, tdict, cdict, c, before[child := Pose(root, ms, g, c)]);
      forall j | 0 < j <= |ms|
        ensures Covered(root, ms, children, n, j) <==> Covered(root, ms, children, n - 1, j) || Under(root, ms, c, j) {
        CoveredStep(root, ms, children, n - 1, c, j);
      }
      UnderSelf(root, ms, c);
    }
  }

  lemma ShowsAll<T>(root: string, ms: seq<Stamped<T>>, g: Algebra<T>, tdict: map<string, T>,
                    cdict: map<string, seq<string>>)
    requires Hangs(root, ms) && Dictionaries(ms, tdict, cdict) && Known(tdict, cdict)
    requires NoneRecurs(Listed(cdict), root)
    ensures Shows(root, ms, g, FillFrom(g, tdict, cdict, root, g.one, map[]))
  {
    hide Hangs, Names, Under, Dictionaries, Known, NoneRecurs, FillFrom;
    FillRight(root, ms, g, tdict, cdict, 0, map[]);
    forall j | 0 < j <= |ms| ensures Under(root, ms, 0, j) {
      UnderRoot(root, ms, j);
    }
  }

  /** In such a list no frame is below itself, so the recursion ends. */
  lemma HangsNoLoops<T>(root: string, ms: seq<Stamped<T>>)
    requires Hangs(root, ms)
    ensures NoneRecurs(Hung(ms), root)
  {
    hide Hangs, Names, Below, Trail;
    forall path | Trail(Hung(ms), root, path) ensures Distinct(path) {
      forall i, j | 0 <= i < j < |path| ensures path[i] != path[j] {
        var a := TrailIndex(root, ms, path, i);
        var b := TrailFurther(root, ms, path, i, j, a);
        NamesDistinct(root, ms);
      }
    }
  }

  lemma {:induction false} TrailIndex<T>(root: string, ms: seq<Stamped<T>>, path: seq<string>, k: nat) returns (c: nat)
    requires Hangs(root, ms) && Trail(Hung(ms), root, path) && k < |path|
    ensures c <= |ms| && Names(root, ms)[c] == path[k]
  {
    hide Hangs, Names, Below;
    if k == 0 {
      c := 0;
    } else {
      var a := TrailIndex(root, ms, path, k - 1);
      c := HungIndex(root, ms, a, path[k]);
    }
  }

  lemma {:induction false} TrailFurther<T>(root: string, ms: seq<Stamped<T>>, path: seq<string>, i: nat, j: nat, a: nat)
    returns (b: nat)
    requires Hangs(root, ms) && Trail(Hung(ms), root, path) && i < j < |path|
    requires a <= |ms| && Names(root, ms)[a] == path[i]
    ensures a < b <= |ms| && Names(root, ms)[b] == path[j]
    decreases j
  {
    hide Hangs, Names, Below;
    assert path[j] in Hung(ms)(path[j - 1]);
    if i == j - 1 {
      b := HungIndex(root, ms, a, path[j]);
    } else {
      var c := TrailFurther(root, ms, path, i, j - 1, a);
      b := HungIndex(root, ms, c, path[j]);
    }
  }

  lemma HungIndex<T>(root: string, ms: seq<Stamped<T>>, i: nat, child: string) returns (c: nat)
    requires Hangs(root, ms) && i <= |ms| && child in Hung(ms)(Names(root, ms)[i])
    ensures i < c <= |ms| && Names(root, ms)[c] == child
  {
    hide Hangs, Names, Below;
    BelowExact(ms, Names(root, ms)[i], child);
    var k :| 0 <= k < |ms| && ms[k].frameId == Names(root, ms)[i] && ms[k].childFrameId == child;
    c := k + 1;
    AboveIs(root, ms, k, i);
  }

  class Viewer<T(!new)> {
    const algebra: Algebra<T>
    var mstack: seq<T>
    var globalTf: map<string, T>

    constructor (algebra: Algebra<T>)
      ensures this.algebra == algebra && mstack == [] && globalTf == map[]
    {
      this.algebra := algebra;
      mstack := [];
      globalTf := map[];
    }

    /** The loop of tf_callback that fills the dictionaries. */
    static method BuildDictionaries(ms: seq<Stamped<T>>)
        returns (tdict: map<string, T>, cdict: map<string, seq<string>>)
      ensures Dictionaries(ms, tdict, cdict)
    {
      tdict, cdict := map[], map[];
      for k := 0 to |ms|
        invariant Dictionaries(ms[..k], tdict, cdict)
      {
        hide Dictionaries;
        OneMoreEntry(ms, k, tdict, cdict);
        var parent, child := ms[k].frameId, ms[k].childFrameId;
        tdict := tdict[child := ms[k].transform];
        var siblings := if parent in cdict then cdict[parent] else [];
        cdict := cdict[parent := siblings + [child]];
      }
      assert ms[..|ms|] == ms;
    }

    /** Fills in what is below the link and leaves the matrix stack as it was. It ends when no frame is below itself. */
    method FkRecursive(link: string, tdict: map<string, T>, cdict: map<string, seq<string>>)
      requires Known(tdict, cdict) && NoneRecurs(Listed(cdict), link) && mstack != []
      modifies this
      ensures mstack == old(mstack)
      ensures globalTf == FillFrom(algebra, tdict, cdict, link, old(mstack[|mstack| - 1]), old(globalTf))
      decreases Steps(Listed(cdict), link)
    {
      hide NoneRecurs, Steps, Known, FillFrom, FillSome;
      var children := if link in cdict then cdict[link] else [];
      FillEnds(algebra, tdict, cdict, link, mstack[|mstack| - 1], globalTf);
      if children == [] {
        return;
      }
      var base := mstack[|mstack| - 1];
      for n := 0 to |children|
        invariant mstack == old(mstack)
        invariant globalTf == FillSome(algebra, tdict, cdict, link, base, old(globalTf), n)
      {
        var child := children[n];
        FillNext(algebra, tdict, cdict, link, base, old(globalTf), n);
        var childTf := algebra.mul(base, tdict[child]);
        mstack := mstack + [childTf];
        globalTf := globalTf[child := childTf];
        FkRecursive(child, tdict, cdict);
        mstack := mstack[..|mstack| - 1];
      }
    }

    /**
     The part of tf_callback that computes. Of a list that hangs together under the root, exactly the frames are
     filled in, each with its pose.
     */
    method TfCallback(ms: seq<Stamped<T>>, root: string)
      requires NoneRecurs(Hung(ms), root)
      modifies this
      ensures mstack == [algebra.one]
      ensures exists tdict, cdict ::
                && Dictionaries(ms, tdict, cdict) && Known(tdict, cdict) && NoneRecurs(Listed(cdict), root)
                && globalTf == FillFrom(algebra, tdict, cdict, root, algebra.one, map[])
      ensures Hangs(root, ms) ==> Shows(root, ms, algebra, globalTf)
    {
      hide Dictionaries, Known, NoneRecurs, FillFrom, Hangs, Shows;
      var tdict, cdict := BuildDictionaries(ms);
      DictionariesKnown(ms, tdict, cdict);
      DictionaryTrails(ms, tdict, cdict, root);
      globalTf := map[];
      mstack := [algebra.one];
      FkRecursive(root, tdict, cdict);
      if Hangs(root, ms) {
        ShowsAll(root, ms, algebra, tdict, cdict);
      }
    }
  }

  /** What is shown for a frame is the frame graph's answer against the root, at any time. */
  lemma ShownIsAnswer<T(!new)>(root: string, d: int, ms: seq<Stamped<T>>, g: Algebra<T>, globalTf: map<string, T>,
                               j: nat, time: int)
    requires Hangs(root, ms) && IsGroup(g) && 0 < j <= |ms| && Shows(root, ms, g, globalTf)
    ensures Names(root, ms)[j] in globalTf
    ensures var (t, ok) := ApplyAll(Fresh(root, d), ms);
            && ok && WellFormed(t)
            && Query(t, g, Names(root, ms)[j], root, time) == Some(globalTf[Names(root, ms)[j]])
  {
    AllAccepted(root, d, ms, 0);
    assert ms[..0] == [] && ms[0..] == ms;
    QueryIsPose(root, d, ms, g, j, time);
  }

  /**
   For a list that hangs together, the viewer's recursion over its dictionaries ends, fills in exactly the frames, and
   gives each the transform that a frame graph fed with the same list answers against the root, at any time.
   */
  lemma ViewerAgrees<T(!new)>(root: string, d: int, ms: seq<Stamped<T>>, g: Algebra<T>, tdict: map<string, T>,
                              cdict: map<string, seq<string>>, name: string, time: int)
    requires Hangs(root, ms) && IsGroup(g) && Dictionaries(ms, tdict, cdict)
    ensures Known(tdict, cdict) && NoneRecurs(Listed(cdict), root)
    ensures var (t, ok) := ApplyAll(Fresh(root, d), ms);
            var shown := FillFrom(g, tdict, cdict, root, g.one, map[]);
            && ok && WellFormed(t)
            && (name in shown <==> name in t.names && name != root)
            && (name in shown ==> Query(t, g, name, root, time) == Some(shown[name]))
  {
    hide Hangs, IsGroup, Dictionaries, Known, NoneRecurs, FillFrom, Names, WellFormed, Query, ApplyAll;
    DictionariesKnown(ms, tdict, cdict);
    HangsNoLoops(root, ms);
    DictionaryTrails(ms, tdict, cdict, root);
    ShowsAll(root, ms, g, tdict, cdict);
    AllAccepted(root, d, ms, 0);
    assert ms[..0] == [] && ms[0..] == ms;
    AfterWellFormed(root, d, ms);
    BuiltTree(root, d, ms);
    NamesDistinct(root, ms);
    var shown := FillFrom(g, tdict, cdict, root, g.one, map[]);
    if name in Names(root, ms) && name != root {
      var j :| 0 <= j < |Names(root, ms)| && Names(root, ms)[j] == name;
      ShownIsAnswer(root, d, ms, g, shown, j, time);
    }
  }
}
