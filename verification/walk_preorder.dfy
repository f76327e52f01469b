/**
 The order in which the walk over a robot lists the joints, said without the walk's stack: the joints below a link in
 the order of the file, and then what is below the links they end at, the last of them first.
 */
module WalkPreorder {
  import opened RobotStructure
  import opened RobotWalk
  import opened Trails

  // ---------- The order by recursion over the links

  /** The joints from a link on downwards. */
  ghost function Preorder<T>(m: Model<T>, l: string): seq<string>
    requires NoneRecurs(Expansions(m), l)
    decreases Steps(Expansions(m), l), 1, 0
  {
    if l !in m.links then []
    else JointsAmong(m, m.links[l].children) + PreorderBelow(m, l, |m.links[l].children|)
  }

  /** What is below the ends of the first n joints of a link, the last of them first. */
  ghost function PreorderBelow<T>(m: Model<T>, l: string, n: nat): seq<string>
    requires NoneRecurs(Expansions(m), l) && l in m.links && n <= |m.links[l].children|
    decreases Steps(Expansions(m), l), 0, n
  {
    if n == 0 then []
    else
      var j := m.links[l].children[n - 1];
      if j in m.joints && m.joints[j].child in m.links then
        EndFollows(m, l, n - 1);
        Preorder(m, m.joints[j].child) + PreorderBelow(m, l, n - 1)
      else PreorderBelow(m, l, n - 1)
  }

  /** The names that name a joint. */
  ghost function JointsAmong<T>(m: Model<T>, names: seq<string>): seq<string> {
    if names == [] then []
    else JointsAmong(m, names[..|names| - 1]) + if names[|names| - 1] in m.joints then [names[|names| - 1]] else []
  }

  lemma EndFollows<T>(m: Model<T>, l: string, i: nat)
    requires NoneRecurs(Expansions(m), l) && l in m.links && i < |m.links[l].children|
    requires var j := m.links[l].children[i]; j in m.joints && m.joints[j].child in m.links
    ensures var x := m.joints[m.links[l].children[i]].child;
            NoneRecurs(Expansions(m), x) && Steps(Expansions(m), x) < Steps(Expansions(m), l)
  {
    hide NoneRecurs, Steps, Pushed;
    var js := m.links[l].children;
    IsPushed(m, js, i);
    ExpansionsBusy(m);
    StepOn(Expansions(m), m.links.Keys, l, m.joints[js[i]].child);
  }

  lemma {:induction false} IsPushed<T>(m: Model<T>, js: seq<string>, i: nat)
    requires i < |js| && js[i] in m.joints && m.joints[js[i]].child in m.links
    ensures m.joints[js[i]].child in Pushed(m, js)
  {
    if i > 0 {
      IsPushed(m, js[1..], i - 1);
    }
  }

  // ---------- It is what the stack gives

  /** What is emitted in n steps from a stack. */
  ghost function OrderFrom<T>(m: Model<T>, stack: seq<string>, n: nat): seq<string>
    decreases n
  {
    if n == 0 || stack == [] then []
    else EmittedBelow(m, stack[|stack| - 1]) + OrderFrom(m, NextStack(m, stack), n - 1)
  }

  /** One step, and the rest. */
  lemma OrderFromStep<T>(m: Model<T>, stack: seq<string>, n: nat)
    requires n > 0
    ensures StackFrom(m, stack, n) == StackFrom(m, NextStack(m, stack), n - 1)
    ensures OrderFrom(m, stack, n) == EmittedNext(m, stack) + OrderFrom(m, NextStack(m, stack), n - 1)
  {
    hide EmittedBelow, Expansion;
    if stack == [] {
      NothingFrom(m, n - 1);
    }
  }

  ghost function EmittedNext<T>(m: Model<T>, stack: seq<string>): seq<string> {
    if stack == [] then [] else EmittedBelow(m, stack[|stack| - 1])
  }

  lemma NothingFrom<T>(m: Model<T>, n: nat)
    ensures OrderFrom(m, [], n) == []
  {
  }

  lemma {:induction false} OrderFromAdds<T>(m: Model<T>, stack: seq<string>, a: nat, b: nat)
    ensures OrderFrom(m, stack, a + b) == OrderFrom(m, stack, a) + OrderFrom(m, StackFrom(m, stack, a), b)
    decreases a
  {
    hide OrderFrom, StackFrom, NextStack, EmittedNext;
    if a == 0 {
      NoSteps(m, stack);
    } else {
      var next := NextStack(m, stack);
      OrderFromAdds(m, next, a - 1, b);
      OrderFromStep(m, stack, a);
      OrderFromStep(m, stack, a + b);
      Regrouped(EmittedNext(m, stack), OrderFrom(m, next, a - 1), OrderFrom(m, StackFrom(m, stack, a), b));
    }
  }

  lemma NoSteps<T>(m: Model<T>, stack: seq<string>)
    ensures OrderFrom(m, stack, 0) == [] && StackFrom(m, stack, 0) == stack
  {
  }

  lemma Regrouped(a: seq<string>, b: seq<string>, c: seq<string>)
    ensures a + (b + c) == a + b + c
  {
  }

  lemma {:induction false} OrderFromRoot<T>(m: Model<T>, n: nat)
    ensures OrderFrom(m, [m.root], n) == OrderAfter(m, n)
  {
    hide OrderFrom, StackFrom, NextStack, EmittedBelow, StackAfter;
    if n == 0 {
      NoSteps(m, [m.root]);
    } else {
      var stack := StackAfter(m, n - 1);
      OrderFromRoot(m, n - 1);
      OrderFromAdds(m, [m.root], n - 1, 1);
      StackFromRoot(m, n - 1);
      OrderFromStep(m, stack, 1);
      NoSteps(m, NextStack(m, stack));
      assert EmittedNext(m, stack) + [] == EmittedNext(m, stack);
    }
  }

  /** What the links on a stack give, from the top down. */
  ghost function TopDown<T>(m: Model<T>, stack: seq<string>): seq<string>
    requires forall l :: l in stack ==> NoneRecurs(Expansions(m), l)
  {
    if stack == [] then [] else Preorder(m, stack[|stack| - 1]) + TopDown(m, stack[..|stack| - 1])
  }

  lemma {:induction false} JointsAmongKnown<T>(m: Model<T>, names: seq<string>)
    ensures JointsAmong(m, names) == Known(m, names)
  {
    if names == [] {
    } else {
      var n := |names| - 1;
      JointsAmongKnown(m, names[..n]);
      PushedSnoc(m, names[..n], names[n]);
      assert names == names[..n] + [names[n]];
    }
  }

  lemma TopDownSnoc<T>(m: Model<T>, stack: seq<string>, l: string)
    requires NoneRecurs(Expansions(m), l) && forall x :: x in stack ==> NoneRecurs(Expansions(m), x)
    ensures forall x :: x in stack + [l] ==> NoneRecurs(Expansions(m), x)
    ensures TopDown(m, stack + [l]) == Preorder(m, l) + TopDown(m, stack)
  {
    hide NoneRecurs, Preorder;
    assert (stack + [l])[..|stack|] == stack;
  }

  lemma PreorderNext<T>(m: Model<T>, l: string, n: nat)
    requires NoneRecurs(Expansions(m), l) && l in m.links && 0 < n <= |m.links[l].children|
    requires var j := m.links[l].children[n - 1]; j in m.joints && m.joints[j].child in m.links
    ensures var x := m.joints[m.links[l].children[n - 1]].child;
            && NoneRecurs(Expansions(m), x)
            && PreorderBelow(m, l, n) == Preorder(m, x) + PreorderBelow(m, l, n - 1)
  {
    hide NoneRecurs, Preorder, Steps;
    EndFollows(m, l, n - 1);
  }

  /** Below a link: the ends of its joints as they stand on the stack. */
  lemma {:induction false} BelowIsTopDown<T>(m: Model<T>, l: string, n: nat)
    requires NoneRecurs(Expansions(m), l) && l in m.links && n <= |m.links[l].children|
    ensures forall x :: x in Pushed(m, m.links[l].children[..n]) ==> NoneRecurs(Expansions(m), x)
    ensures PreorderBelow(m, l, n) == TopDown(m, Pushed(m, m.links[l].children[..n]))
  {
    hide NoneRecurs, Preorder, Pushed, Steps;
    var js := m.links[l].children;
    if n == 0 {
      assert js[..n] == [];
      NothingPushed(m);
      assert TopDown(m, []) == [] && PreorderBelow(m, l, 0) == [];
    } else {
      BelowIsTopDown(m, l, n - 1);
      PushedAt(m, js, n - 1);
      var j := js[n - 1];
      if j in m.joints && m.joints[j].child in m.links {
        EndFollows(m, l, n - 1);
        var before, x := Pushed(m, js[..n - 1]), m.joints[j].child;
        TopDownSnoc(m, before, x);
        PreorderNext(m, l, n);
      } else {
        assert PreorderBelow(m, l, n) == PreorderBelow(m, l, n - 1);
        assert Pushed(m, js[..n]) == Pushed(m, js[..n - 1]);
      }
    }
  }

  lemma PreorderSplit<T>(m: Model<T>, l: string)
    requires NoneRecurs(Expansions(m), l)
    ensures forall x :: x in Expansion(m, l) ==> NoneRecurs(Expansions(m), x)
    ensures Preorder(m, l) == EmittedBelow(m, l) + TopDown(m, Expansion(m, l))
  {
    hide NoneRecurs, Steps, Pushed, Known, PreorderBelow;
    if l in m.links {
      var js := m.links[l].children;
      assert js[..|js|] == js;
      BelowIsTopDown(m, l, |js|);
      JointsAmongKnown(m, js);
    }
  }

  /** Working links off the top of the stack emits what they give, from the top down. */
  lemma {:induction false} EmitsTopDown<T>(m: Model<T>, base: seq<string>, tops: seq<string>, h: nat) returns (n: nat)
    requires forall l :: l in tops ==> NoneRecurs(Expansions(m), l) && EndsWithin(Expansions(m), l, h)
    ensures StackFrom(m, base + tops, n) == base
    ensures OrderFrom(m, base + tops, n) == TopDown(m, tops)
    decreases h, |tops|
  {
    hide Expansion, NextStack, NoneRecurs, Preorder, EmittedBelow;
    if tops == [] {
      n := 0;
      assert base + tops == base;
    } else {
      var rest, l := tops[..|tops| - 1], tops[|tops| - 1];
      var pushed := Expansion(m, l);
      assert l in tops;
      PreorderSplit(m, l);
      var a := 0;
      if pushed == [] {
        assert base + rest + pushed == base + rest;
      } else {
        assert pushed[0] in Expansions(m)(l);
        a := EmitsTopDown(m, base + rest, pushed, h - 1);
      }
      var b := EmitsTopDown(m, base, rest, h);
      NextOnTop(m, base, tops);
      StackFromAdds(m, base + rest + pushed, a, b);
      OrderFromAdds(m, base + rest + pushed, a, b);
      n := 1 + a + b;
    }
  }

  /** If the walk ends, then with the joints in just that order. */
  lemma WalkIsPreorder<T>(m: Model<T>, order: seq<string>)
    requires NoLoops(m)
    ensures WalkOrder(m, order) <==> order == Preorder(m, m.root)
  {
    hide NoneRecurs, Preorder, StackAfter, OrderAfter, WalkOrder;
    ExpansionsBusy(m);
    EndsIff(Expansions(m), m.links.Keys, m.root);
    var n := EmitsTopDown(m, [], [m.root], |m.links.Keys|);
    assert StackFrom(m, [m.root], n) == [];
    assert OrderFrom(m, [m.root], n) == TopDown(m, [m.root]);
    assert [] + [m.root] == [m.root];
    StackFromRoot(m, n);
    OrderFromRoot(m, n);
    assert [m.root][..0] == [] && TopDown(m, []) == [] && TopDown(m, [m.root]) == Preorder(m, m.root) + [];
    WalkOrderAt(m, n);
    assert OrderAfter(m, n) == Preorder(m, m.root);
    if WalkOrder(m, order) {
      WalkOrderUnique(m, order, OrderAfter(m, n));
    }
  }
}
