/** The order in which the program visits what it files by name. */
module NameOrder {

  /** a comes before b in a dictionary of strings. */
  predicate Before(a: string, b: string) {
    b != [] && (a == [] || a[0] < b[0] || (a[0] == b[0] && Before(a[1..], b[1..])))
  }

  predicate Ascending(names: seq<string>) {
    forall i, j :: 0 <= i < j < |names| ==> Before(names[i], names[j])
  }

  /** Where the two first differ, a ends or has the smaller character. */
  ghost predicate DiffersAt(a: string, b: string, k: nat) {
    k <= |a| && k < |b| && a[..k] == b[..k] && (k == |a| || a[k] < b[k])
  }

  lemma {:induction false} BeforeIff(a: string, b: string)
    ensures Before(a, b) <==> exists k: nat :: DiffersAt(a, b, k)
  {
    if a == [] || b == [] || a[0] != b[0] {
      assert Before(a, b) ==> DiffersAt(a, b, 0);
      assert forall k: nat | DiffersAt(a, b, k) && k > 0 :: a[..k][0] == b[..k][0];
    } else {
      BeforeIff(a[1..], b[1..]);
      forall k: nat ensures DiffersAt(a, b, k + 1) <==> DiffersAt(a[1..], b[1..], k) {
        if k < |a| && k + 1 < |b| {
          assert a[..k + 1] == [a[0]] + a[1..][..k] && b[..k + 1] == [b[0]] + b[1..][..k];
        }
      }
      if k: nat :| DiffersAt(a, b, k) {
        assert k > 0 && DiffersAt(a[1..], b[1..], k - 1);
      }
    }
  }

  lemma {:induction false} BeforeTotal(a: string, b: string)
    ensures a == b || Before(a, b) || Before(b, a)
  {
    if a != [] && b != [] && a[0] == b[0] {
      BeforeTotal(a[1..], b[1..]);
      assert a == [a[0]] + a[1..] && b == [b[0]] + b[1..];
    }
  }

  lemma {:induction false} BeforeTransitive(a: string, b: string, c: string)
    requires Before(a, b) && Before(b, c)
    ensures Before(a, c)
  {
    if a != [] && a[0] == b[0] == c[0] {
      BeforeTransitive(a[1..], b[1..], c[1..]);
    }
  }

  lemma {:induction false} FirstExists(keys: set<string>) returns (first: string)
    requires keys != {}
    ensures first in keys && forall other :: other in keys ==> other == first || Before(first, other)
  {
    hide Before;
    first :| first in keys;
    if keys != {first} {
      var next := FirstExists(keys - {first});
      BeforeTotal(first, next);
      forall other | other in keys && Before(first, next) ensures other == first || Before(first, other) {
        if other != first && other != next {
          BeforeTransitive(first, next, other);
        }
      }
      if !Before(first, next) {
        first := next;
      }
    }
  }

  /** The keys of a std::map, as an iterator visits them. */
  method InOrder(keys: set<string>) returns (names: seq<string>)
    ensures Ascending(names) && |names| == |keys|
    ensures forall name :: name in names <==> name in keys
  {
    hide Before;
    names := [];
    var todo := keys;
    while todo != {}
      invariant todo <= keys && |names| + |todo| == |keys| && Ascending(names)
      invariant forall name :: name in names <==> name in keys && name !in todo
      invariant forall name, other :: name in names && other in todo ==> Before(name, other)
      decreases todo
    {
      ghost var first := FirstExists(todo);
      var name :| name in todo && forall other :: other in todo ==> other == name || Before(name, other);
      assert forall i :: 0 <= i < |names| ==> names[i] in names;
      names := names + [name];
      todo := todo - {name};
    }
  }
}
