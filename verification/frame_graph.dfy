/**
 The frame graph as the program keeps it: parent and child indices in one list per frame, a name index,
 and one buffer per frame. The ghost tree is its value; every method is proved against FrameTrees.
 */
module FrameGraphs {
  import opened Common
  import opened TransformAlgebra
  import opened Samples
  import opened TransformBuffers
  import opened FrameTrees

  datatype Frame<T(!new)> = Frame(name: string, buffer: TransformBuffer<T>)

  /** The index of the iterator past the end. */
  const END := -1

  class FrameGraph<T(!new)> {
    const algebra: Algebra<T>
    const duration: int
    // graph[i][0] is the parent of frame i and the rest are its children; the root's list starts out empty.
    var graph: seq<seq<int>>
    var frames: seq<Frame<T>>
    var nameToIndex: map<string, int>
    ghost var tree: Tree<T>

    ghost var buffers: set<TransformBuffer<T>>

    ghost predicate Valid()
      reads this, buffers
    {
      && WellFormed(tree) && tree.duration == duration
      && Links(graph, tree.parent)
      && Indexes(nameToIndex, tree.names)
      && |frames| == |tree.names|
      && (forall i :: 0 <= i < |frames| ==> frames[i].name == tree.names[i])
      && (forall i :: 0 <= i < |frames| ==> frames[i].buffer in buffers && frames[i].buffer.duration == duration)
      && (forall i :: 0 <= i < |frames| ==> frames[i].buffer.samples == tree.samples[i])
      && (forall i, j :: 0 <= i < j < |frames| ==> frames[i].buffer != frames[j].buffer)
    }

    constructor (root: string, duration: int, algebra: Algebra<T>)
      ensures Valid() && fresh(buffers)
      ensures tree == Fresh(root, duration)
      ensures this.algebra == algebra && this.duration == duration
    {
      var buffer := new TransformBuffer(duration);
      this.algebra := algebra;
      this.duration := duration;
      frames := [Frame(root, buffer)];
      graph := [[]];
      nameToIndex := map[root := 0];
      tree := Fresh(root, duration);
      buffers := {buffer};
    }

    method Exists(name: string) returns (known: bool)
      requires Valid()
      ensures known <==> name in tree.names
    {
      known := name in nameToIndex;
    }

    method Find(name: string) returns (index: int)
      requires Valid()
      ensures index == IndexOf(tree.names, name)
    {
      index := if name in nameToIndex then nameToIndex[name] else END;
    }

    method GetLeaves() returns (leaves: seq<string>)
      requires Valid()
      ensures leaves == Leaves(tree, |tree.names|)
    {
      leaves := [];
      hide WellFormed, IsLeaf, Children;
      WellFormedMeans(tree);
      RootIsNoLeaf(tree);
      for i := 1 to |graph|
        invariant leaves == Leaves(tree, i)
      {
        LeafIffNoChildren(tree, i);
        if |graph[i]| <= 1 {
          leaves := leaves + [frames[i].name];
        }
      }
    }

    /** Updates in order and stops at the first that is rejected, keeping what was done before it. */
    method UpdateAll(tf: seq<Stamped<T>>) returns (ok: bool)
      requires Valid()
      modifies this, buffers
      ensures Valid() && fresh(buffers - old(buffers))
      ensures (tree, ok) == ApplyAll(old(tree), tf)
    {
      hide Apply, Links, Indexes;
      for i := 0 to |tf|
        invariant Valid() && fresh(buffers - old(buffers))
        invariant ApplyAll(tree, tf[i..]) == ApplyAll(old(tree), tf)
      {
        ok := Update(tf[i]);
        if !ok {
          return;
        }
      }
      ok := true;
    }

    /** The scan of a frame's children. */
    method ListsChild(p: nat, c: int) returns (found: bool)
      requires p < |graph| && graph[p] != []
      ensures found <==> c in graph[p][1..]
    {
      found := false;
      for k := 1 to |graph[p]|
        invariant forall l :: 1 <= l < k ==> graph[p][l] != c
      {
        if graph[p][k] == c {
          assert graph[p][1..][k - 1] == c;
          return true;
        }
      }
    }

    method Update(m: Stamped<T>) returns (ok: bool)
      requires Valid()
      modifies this, buffers
      ensures Valid() && fresh(buffers - old(buffers))
      ensures (tree, ok) == Apply(old(tree), m)
      // A rejected update changes nothing, except that it may give the root its slot.
      ensures !ok ==> frames == old(frames) && nameToIndex == old(nameToIndex)
      ensures !ok ==> graph == old(graph) || (old(graph)[0] == [] && graph == old(graph)[0 := [-1]])
    {
      hide WellFormed, Samples.Insert, Children, Links, Indexes, IndexOf;
      WellFormedMeans(tree);
      ApplyKeeps(tree, m);
      IndexesFind(nameToIndex, tree.names, m.frameId);
      IndexesFind(nameToIndex, tree.names, m.childFrameId);
      if m.frameId !in nameToIndex {
        return false;
      }
      var p := nameToIndex[m.frameId];
      FillSlot(p);
      if m.childFrameId !in nameToIndex {
        AddChild(p, m);
      } else {
        var c := nameToIndex[m.childFrameId];
        LinksListed(graph, tree.parent, p, c);
        var currentParent := if |graph[c]| == 0 then -1 else graph[c][0];
        if currentParent != p {
          return false;
        }
        var found := ListsChild(p, c);
        if !found {
          assert false;
        }
        ghost var next := Apply(tree, m).0;
        Record(c, m, tree.samples[c], next);
      }
      ok := true;
    }

    /** Gives a frame that has none its parent slot. */
    method FillSlot(p: nat)
      requires Valid() && p < |tree.parent|
      modifies this`graph
      ensures Valid() && |graph| == |tree.parent| && graph[p] != []
      ensures graph == old(graph) || (p == 0 && old(graph)[0] == [] && graph == old(graph)[0 := [-1]])
    {
      LinksSlot(graph, tree.parent, p);
      if |graph[p]| == 0 {
        // Only the root can lack its slot, so the search for another frame's parent never runs.
        if p != 0 {
          assert false;
        }
        graph := graph[p := [-1]];
      }
    }

    /** An update that names a new child: the frame is pushed, indexed, and listed under its parent. */
    method AddChild(p: nat, m: Stamped<T>)
      requires Valid()
      requires p < |graph| && graph[p] != [] && p == IndexOf(tree.names, m.frameId)
      requires m.childFrameId !in tree.names
      modifies this, buffers
      ensures Valid() && fresh(buffers - old(buffers))
      ensures tree == Apply(old(tree), m).0
    {
      hide WellFormed, Samples.Insert, Children, Links, Indexes, Apply;
      WellFormedMeans(tree);
      ApplyKeeps(tree, m);
      ApplyNew(tree, m);
      ghost var next := Apply(tree, m).0;
      LinksHang(graph, tree.parent, p);
      LinksSlot(graph, tree.parent, p);
      IndexesAppend(nameToIndex, tree.names, m.childFrameId);
      ghost var hung := (graph + [[p]])[p := graph[p] + [|graph|]];
      var c := |frames|;
      var buffer := new TransformBuffer(duration);
      frames := frames + [Frame(m.childFrameId, buffer)];
      buffers := buffers + {buffer};
      graph := graph + [[p]];
      nameToIndex := nameToIndex[m.childFrameId := c];
      var found := ListsChild(p, c);
      if !found {
        graph := graph[p := graph[p] + [c]];
      }
      assert graph == hung;
      Record(c, m, [], next);
    }

    /** The last step of an accepted update: the sample goes into the buffer of its edge. */
    method Record(c: nat, m: Stamped<T>, ghost written: seq<Sample<T>>, ghost next: Tree<T>)
      requires WellFormed(next) && next.duration == duration
      requires Links(graph, next.parent) && Indexes(nameToIndex, next.names)
      requires c < |frames| == |next.names| == |next.samples|
      requires forall i :: 0 <= i < |frames| ==> frames[i].name == next.names[i]
      requires forall i :: 0 <= i < |frames| ==> frames[i].buffer in buffers && frames[i].buffer.duration == duration
      requires forall i :: 0 <= i < |frames| && i != c ==> frames[i].buffer.samples == next.samples[i]
      requires frames[c].buffer.samples == written
      requires forall i, j :: 0 <= i < j < |frames| ==> frames[i].buffer != frames[j].buffer
      requires Sorted(written) && next.samples[c] == Samples.Insert(written, m.stamp, m.transform, duration)
      modifies this`tree, frames[c].buffer
      ensures Valid() && tree == next && buffers == old(buffers)
    {
      hide WellFormed, Samples.Insert, Links, Indexes, Sorted;
      frames[c].buffer.Insert(m.stamp, m.transform);
      tree := next;
    }

    /** The parent index stored for a frame, or END for the root, whose slot may be missing. */
    method ParentOf(index: int) returns (parent: int)
      requires Valid() && END <= index < |tree.parent|
      ensures parent == if index < 0 then END else tree.parent[index]
    {
      if index < 0 {
        return END;
      }
      LinksListed(graph, tree.parent, 0, index);
      parent := if |graph[index]| == 0 then END else graph[index][0];
    }

    /** Iterator decrement: one step towards the root; the root and the end stay where they are. */
    method StepUp(index: int) returns (up: int)
      requires Valid() && END <= index < |tree.parent|
      ensures up == if index <= 0 then index else tree.parent[index]
      ensures index > 0 ==> 0 <= up < index
    {
      up := index;
      if index > 0 {
        LinksListed(graph, tree.parent, 0, index);
        up := graph[index][0];
      }
    }

    method FindNearestAncestor(a: int, b: int) returns (nearest: int)
      requires Valid() && END <= a < |tree.parent| && END <= b < |tree.parent|
      ensures nearest == if a == END || b == END then END else Nearest(tree.parent, a, b)
    {
      if a == END || b == END {
        return END;
      }
      var visited := MarkAncestors(a);
      nearest := FirstMarked(visited, a, b);
    }

    /** The climb from the first frame, marking every frame it passes. */
    method MarkAncestors(a: nat) returns (visited: array<bool>)
      requires Valid() && a < |tree.parent|
      ensures fresh(visited) && visited.Length == |tree.parent|
      ensures forall c: nat :: c < |tree.parent| ==> (visited[c] <==> Ancestor(tree.parent, c, a))
    {
      hide Links, Indexes;
      visited := new bool[|frames|](_ => false);
      var index := a;
      while index >= 0
        invariant END <= index <= a
        invariant index >= 0 ==> Ancestor(tree.parent, index, a)
        invariant forall c: nat :: c < |tree.parent| ==>
                    (visited[c] <==> Ancestor(tree.parent, c, a) && !(index >= 0 && Ancestor(tree.parent, c, index)))
        decreases index
      {
        ghost var here := index;
        visited[index] := true;
        index := ParentOf(index);
        if index >= 0 {
          AncestorTransitive(tree.parent, index, here, a);
          NotOwnAncestor(tree.parent, here, index);
        }
      }
    }

    /** The climb from the second frame, to the first marked one. */
    method FirstMarked(visited: array<bool>, ghost a: nat, b: nat) returns (nearest: nat)
      requires Valid() && a < |tree.parent| && b < |tree.parent| == visited.Length
      requires forall c: nat :: c < |tree.parent| ==> (visited[c] <==> Ancestor(tree.parent, c, a))
      ensures nearest == Nearest(tree.parent, a, b)
    {
      hide Links, Indexes;
      RootIsAncestor(tree.parent, a);
      RootIsAncestor(tree.parent, b);
      var index: int := b;
      while index >= 0
        invariant END <= index <= b
        invariant index >= 0 ==> Ancestor(tree.parent, index, b)
        invariant forall c: nat ::
                    c < |tree.parent| && Ancestor(tree.parent, c, b) && visited[c] ==>
                    index >= 0 && Ancestor(tree.parent, c, index)
        decreases index
      {
        ghost var here := index;
        if visited[index] {
          forall c: nat | Ancestor(tree.parent, c, a) && Ancestor(tree.parent, c, b) ensures c <= index {
            AncestorBelow(tree.parent, c, a);
            AncestorBelow(tree.parent, c, b);
            assert visited[c];
            AncestorBelow(tree.parent, c, index);
          }
          NearestUnique(tree.parent, a, b, index);
          return index;
        }
        index := ParentOf(index);
        if index >= 0 {
          AncestorTransitive(tree.parent, index, here, b);
        }
      }
      // The root is visited and reached, so the loop never runs out of frames.
      assert false;
    }

    /** The frames from an ancestor down to a frame, or nothing when it is no ancestor. */
    method BuildPath(node: nat, ancestor: nat) returns (path: seq<nat>)
      requires Valid() && node < |tree.parent| && ancestor < |tree.parent|
      ensures if Ancestor(tree.parent, ancestor, node)
              then path != [] && path[0] == ancestor && path[|path| - 1] == node && IsPath(tree.parent, path)
              else path == []
    {
      hide Links, Indexes;
      path := [node];
      while path[|path| - 1] != ancestor
        invariant path != [] && path[0] == node && IsPathUp(tree.parent, path)
        invariant Ancestor(tree.parent, ancestor, node) <==> Ancestor(tree.parent, ancestor, path[|path| - 1])
        decreases path[|path| - 1]
      {
        var parent := ParentOf(path[|path| - 1]);
        if parent < 0 {
          return [];
        }
        path := path + [parent];
      }
      path := Reverse(path);
    }

    /** The product of the edges along a path, taken at a time. */
    method ComputeTransform(path: seq<nat>, time: int) returns (r: Option<T>)
      requires Valid() && path != [] && IsPath(tree.parent, path)
      ensures Ancestor(tree.parent, path[0], path[|path| - 1])
      ensures r == Some(Down(tree, algebra, path[0], path[|path| - 1], time))
    {
      hide Links, Indexes;
      var result := algebra.one;
      for i := 0 to |path| - 1
        invariant path[i] < |tree.parent| && Ancestor(tree.parent, path[0], path[i])
        invariant result == Down(tree, algebra, path[0], path[i], time)
      {
        var child := path[i + 1];
        AncestorBelow(tree.parent, path[0], path[i]);
        var edge := frames[child].buffer.Get(time, algebra.blend);
        // An edge's buffer is never empty, so this lookup does not fail.
        if edge.None? {
          assert false;
        }
        result := algebra.mul(result, edge.value);
      }
      r := Some(result);
    }

    /** Answers in the message passed in, which a failed query leaves alone. */
    method GetTransform(target: string, source: string, time: int, message: Stamped<T>)
        returns (ok: bool, r: Stamped<T>)
      requires Valid()
      ensures ok <==> Query(tree, algebra, target, source, time).Some?
      ensures ok ==> r == message.(frameId := source, childFrameId := target, stamp := time,
                                   transform := Query(tree, algebra, target, source, time).value)
      ensures !ok ==> r == message
    {
      hide Links, Indexes, Relative, Sorted, Rooted, WellFormed;
      WellFormedMeans(tree);
      r := message;
      if target == source {
        return true, message.(frameId := source, childFrameId := target, stamp := time, transform := algebra.one);
      }
      var t := Find(target);
      if t == END {
        return false, r;
      }
      var s := Find(source);
      if s == END {
        return false, r;
      }
      var final := Between(t, s, time);
      return true, message.(frameId := source, childFrameId := target, stamp := time, transform := final);
    }

    /** The part of it that computes, for two known frames. */
    method Between(target: nat, source: nat, time: int) returns (transform: T)
      requires Valid() && target < |tree.names| && source < |tree.names|
      ensures transform == Relative(tree, algebra, target, source, time)
    {
      hide Links, Indexes, Ancestor, Down, Nearest, IsPath, Rooted, Sorted;
      NearestIsCommon(tree.parent, target, source);
      var ancestor := FindNearestAncestor(target, source);
      var targetPath := BuildPath(target, ancestor);
      var sourcePath := BuildPath(source, ancestor);
      var targetTransform := ComputeTransform(targetPath, time);
      var sourceTransform := ComputeTransform(sourcePath, time);
      transform := algebra.mul(targetTransform.value, algebra.inv(sourceTransform.value));
    }
  }

  /** Each frame is the parent of the next. */
  ghost predicate IsPath(parent: seq<int>, path: seq<nat>) {
    && (forall k :: 0 <= k < |path| ==> path[k] < |parent|)
    && (forall k :: 1 <= k < |path| ==> parent[path[k]] == path[k - 1])
  }

  ghost predicate IsPathUp(parent: seq<int>, path: seq<nat>) {
    && (forall k :: 0 <= k < |path| ==> path[k] < |parent|)
    && (forall k :: 1 <= k < |path| ==> parent[path[k - 1]] == path[k])
  }

  /** Each list is the parent followed by the mirrored children; the root's may still be empty. */
  ghost predicate Links(graph: seq<seq<int>>, parent: seq<int>) {
    && |graph| == |parent| > 0
    && (graph[0] == Children(parent, 0) == [] || graph[0] == [-1] + Children(parent, 0))
    && (forall i :: 0 < i < |graph| ==> graph[i] == [parent[i]] + Children(parent, i))
  }

  ghost predicate Indexes(m: map<string, int>, names: seq<string>) {
    && (forall name :: name in m <==> name in names)
    && (forall i :: 0 <= i < |names| ==> m[names[i]] == i)
  }

  lemma IndexesFind(m: map<string, int>, names: seq<string>, name: string)
    requires Indexes(m, names)
    requires forall i, j :: 0 <= i < j < |names| ==> names[i] != names[j]
    ensures IndexOf(names, name) == if name in m then m[name] else -1
    ensures name in m ==> 0 <= m[name] < |names|
  {
  }

  lemma IndexesAppend(m: map<string, int>, names: seq<string>, name: string)
    requires Indexes(m, names) && name !in names
    ensures Indexes(m[name := |names|], names + [name])
  {
  }

  /** Only the root can lack its slot; filling it in keeps the mirror. */
  lemma LinksSlot(graph: seq<seq<int>>, parent: seq<int>, p: nat)
    requires Links(graph, parent) && p < |parent|
    ensures |graph| == |parent|
    ensures graph[p] == [] ==> p == 0 && Links(graph[p := [-1]], parent)
  {
    hide Children;
  }

  /** Pushing a new frame and listing it under its parent keeps the mirror. */
  lemma LinksHang(graph: seq<seq<int>>, parent: seq<int>, p: nat)
    requires Links(graph, parent) && p < |graph| && graph[p] != [] && Rooted(parent)
    ensures Links((graph + [[p]])[p := graph[p] + [|graph|]], parent + [p])
    ensures |graph| !in graph[p][1..]
  {
    hide Children, Rooted;
    var n := |graph|;
    ChildrenExact(parent, p, n);
    forall i | 0 <= i <= n ensures Children(parent + [p], i) == Children(parent, i) + if i == p then [n] else [] {
      ChildrenAppend(parent, p, i);
    }
    RootedBelow(parent);
    NoChildrenYet(parent, n);
    assert graph[p][1..] == Children(parent, p);
  }

  lemma RootedBelow(parent: seq<int>)
    requires Rooted(parent)
    ensures forall j :: 0 <= j < |parent| ==> parent[j] != |parent|
  {
  }

  /** The parent slot of a frame says its parent, and its parent lists it. */
  lemma LinksListed(graph: seq<seq<int>>, parent: seq<int>, p: nat, c: nat)
    requires Links(graph, parent) && Rooted(parent) && p < |graph| && c < |graph|
    ensures (if graph[c] == [] then -1 else graph[c][0]) == parent[c]
    ensures parent[c] == p ==> graph[p] != [] && c in graph[p][1..]
  {
    hide Children;
    ChildrenExact(parent, p, c);
    assert graph[p] != [] ==> graph[p][1..] == Children(parent, p);
  }

  lemma WellFormedMeans<T>(t: Tree<T>)
    requires WellFormed(t)
    ensures |t.names| == |t.parent| == |t.samples|
    ensures Rooted(t.parent)
    ensures forall i, j :: 0 <= i < j < |t.names| ==> t.names[i] != t.names[j]
    ensures forall i :: 0 <= i < |t.samples| ==> Sorted(t.samples[i])
  {
  }

  lemma {:induction false} NoChildrenYet(parent: seq<int>, i: int)
    requires forall j :: 0 <= j < |parent| ==> parent[j] != i
    ensures Children(parent, i) == []
  {
    if parent != [] {
      NoChildrenYet(parent[..|parent| - 1], i);
    }
  }

  lemma ChildrenAppend(parent: seq<int>, p: int, i: int)
    ensures Children(parent + [p], i) == Children(parent, i) + if i == p then [|parent|] else []
  {
    assert (parent + [p])[..|parent|] == parent;
  }

  lemma NotOwnAncestor(parent: seq<int>, i: nat, up: nat)
    requires Rooted(parent) && i < |parent| && up < i
    ensures !Ancestor(parent, i, up)
  {
    if Ancestor(parent, i, up) {
      AncestorBelow(parent, i, up);
    }
  }

  lemma RootIsNoLeaf<T>(t: Tree<T>)
    requires |t.names| == |t.parent| > 0
    ensures Leaves(t, 1) == []
  {
    assert !IsLeaf(t, 0);
  }

  lemma LeafIffNoChildren<T>(t: Tree<T>, i: int)
    requires WellFormed(t) && 0 < i < |t.parent|
    ensures IsLeaf(t, i) <==> Children(t.parent, i) == []
  {
    if IsLeaf(t, i) {
      NoChildrenYet(t.parent, i);
    } else {
      var j :| 0 <= j < |t.parent| && t.parent[j] == i;
      ChildrenExact(t.parent, i, j);
    }
  }
}
