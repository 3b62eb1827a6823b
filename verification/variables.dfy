/** `VariablesGetter`: the visitor that collects the names of the variables
    of a tree and hands them out sorted, each name once.

    The visitor adds every variable name it meets to a hash set; the list it
    returns is that set copied into a list and sorted with
    `String.compareTo`. `Collect` models the set, `Below` the string order
    and `Sorted` the sorted copy. `Below` compares characters by code
    point, while `compareTo` compares UTF-16 code units; the two orders
    agree on names without characters above U+FFFF. */
module VariablesGetter {
  import opened Nodes

  /** The names added to the set while `e` is visited. */
  function Collect(e: Node): set<string>
    decreases e, 1
  {
    match e
    case ConstantNode(_) => {}
    case VariableNode(name) => {name}
    case UnaryOperatorNode(_, _, child) => Collect(child)
    case BinaryOperatorNode(_, _, children) => CollectAll(children)
  }

  /** `children.forEach(child -> child.accept(this))`. */
  function CollectAll(children: seq<Node>): set<string>
    decreases children, 0
  {
    if |children| == 0 then {}
    else CollectAll(children[..|children| - 1]) + Collect(children[|children| - 1])
  }

  /** The visitor collects exactly the variables occurring in the tree. */
  lemma {:induction false} CollectIsOccurs(e: Node, x: string)
    ensures x in Collect(e) <==> Occurs(x, e)
    decreases e, 1
  {
    match e
    case ConstantNode(_) =>
    case VariableNode(_) =>
    case UnaryOperatorNode(_, _, child) =>
      CollectIsOccurs(child, x);
    case BinaryOperatorNode(_, _, children) =>
      CollectAllIsOccurs(children, x);
  }

  lemma {:induction false} CollectAllIsOccurs(children: seq<Node>, x: string)
    ensures x in CollectAll(children) <==> exists i :: 0 <= i < |children| && Occurs(x, children[i])
    decreases children, 0
  {
    if |children| > 0 {
      var init := children[..|children| - 1];
      CollectAllIsOccurs(init, x);
      CollectIsOccurs(children[|children| - 1], x);
      if exists i :: 0 <= i < |children| && Occurs(x, children[i]) {
        var i :| 0 <= i < |children| && Occurs(x, children[i]);
        if i < |children| - 1 {
          assert init[i] == children[i];
        }
      }
      if exists i :: 0 <= i < |init| && Occurs(x, init[i]) {
        var i :| 0 <= i < |init| && Occurs(x, init[i]);
        assert children[i] == init[i];
      }
    }
  }

  // ---------------------------------------------------------------------
  // The order of `String.compareTo`, on names without characters above
  // U+FFFF

  /** a sorts strictly before b: at the first position where they differ
      the character of a is smaller, or a is a proper prefix of b. */
  predicate Below(a: string, b: string) {
    if |a| == 0 then |b| > 0
    else if |b| == 0 then false
    else if a[0] != b[0] then a[0] < b[0]
    else Below(a[1..], b[1..])
  }

  lemma {:induction false} BelowIrreflexive(a: string)
    ensures !Below(a, a)
  {
    if |a| > 0 {
      BelowIrreflexive(a[1..]);
    }
  }

  lemma {:induction false} BelowTransitive(a: string, b: string, c: string)
    requires Below(a, b) && Below(b, c)
    ensures Below(a, c)
  {
    if |a| > 0 && |b| > 0 && |c| > 0 && a[0] == b[0] && b[0] == c[0] {
      BelowTransitive(a[1..], b[1..], c[1..]);
    }
  }

  lemma {:induction false} BelowTotal(a: string, b: string)
    ensures a == b || Below(a, b) || Below(b, a)
  {
    if |a| > 0 && |b| > 0 && a[0] == b[0] {
      BelowTotal(a[1..], b[1..]);
      if a[1..] == b[1..] {
        assert a == [a[0]] + a[1..] && b == [b[0]] + b[1..];
      }
    }
  }

  lemma BelowAsymmetric(a: string, b: string)
    requires Below(a, b)
    ensures !Below(b, a)
  {
    if Below(b, a) {
      BelowTransitive(a, b, a);
      BelowIrreflexive(a);
    }
  }

  /** Every finite non-empty set of names has a least element. */
  lemma {:induction false} LeastExists(s: set<string>)
    requires s != {}
    ensures exists m :: m in s && forall y :: y in s && y != m ==> Below(m, y)
    decreases |s|
  {
    var x :| x in s;
    if s == {x} {
      assert forall y :: y in s && y != x ==> Below(x, y);
    } else {
      var rest := s - {x};
      LeastExists(rest);
      var m :| m in rest && forall y :: y in rest && y != m ==> Below(m, y);
      BelowTotal(m, x);
      if Below(m, x) {
        assert forall y :: y in s && y != m ==> Below(m, y);
      } else {
        forall y | y in s && y != x
          ensures Below(x, y)
        {
          if y != m {
            BelowTransitive(x, m, y);
          }
        }
      }
    }
  }

  /** The least name of a non-empty set. */
  function Least(s: set<string>): (m: string)
    requires s != {}
    ensures m in s
    ensures forall y :: y in s && y != m ==> Below(m, y)
  {
    LeastExists(s);
    forall a, b | Below(a, b) ensures !Below(b, a) {
      BelowAsymmetric(a, b);
    }
    var m :| m in s && forall y :: y in s && y != m ==> Below(m, y);
    m
  }

  /** The names of `s` as a list sorted by `Below`. */
  function Sorted(s: set<string>): (r: seq<string>)
    ensures |r| == |s|
    ensures forall x :: x in r <==> x in s
    ensures forall i, j :: 0 <= i < j < |r| ==> Below(r[i], r[j])
    decreases |s|
  {
    if s == {} then []
    else
      var m := Least(s);
      var tail := Sorted(s - {m});
      assert forall j :: 0 <= j < |tail| ==> Below(m, tail[j]) by {
        forall j | 0 <= j < |tail| ensures Below(m, tail[j]) {
          assert tail[j] in tail;
        }
      }
      [m] + tail
  }

  /** `getVariables()` after the tree has been visited. */
  function GetVariables(e: Node): seq<string> {
    Sorted(Collect(e))
  }

  /** The list holds each variable of the tree exactly once, in strictly
      increasing `Below` order. */
  lemma GetVariablesSpec(e: Node)
    ensures forall x :: x in GetVariables(e) <==> Occurs(x, e)
    ensures forall i, j :: 0 <= i < j < |GetVariables(e)| ==> Below(GetVariables(e)[i], GetVariables(e)[j])
    ensures forall i, j :: 0 <= i < j < |GetVariables(e)| ==> GetVariables(e)[i] != GetVariables(e)[j]
  {
    forall x ensures x in GetVariables(e) <==> Occurs(x, e) {
      CollectIsOccurs(e, x);
    }
    forall i, j | 0 <= i < j < |GetVariables(e)|
      ensures GetVariables(e)[i] != GetVariables(e)[j]
    {
      BelowIrreflexive(GetVariables(e)[i]);
    }
  }

  /** Any strictly increasing list of the same names is this list: the
      result does not depend on the hash set's iteration order. */
  lemma {:induction false} SortedUnique(s: set<string>, r: seq<string>)
    requires |r| == |s|
    requires forall x :: x in r <==> x in s
    requires forall i, j :: 0 <= i < j < |r| ==> Below(r[i], r[j])
    ensures r == Sorted(s)
    decreases |s|
  {
    if s != {} {
      var m := Least(s);
      assert |r| > 0;
      if r[0] != m {
        var k :| 0 <= k < |r| && r[k] == m;
        assert Below(r[0], m);
        BelowAsymmetric(r[0], m);
      }
      var tail := r[1..];
      forall x ensures x in tail <==> x in s - {m} {
        if x in tail {
          var k :| 0 <= k < |tail| && tail[k] == x;
          assert r[k + 1] == x;
          assert Below(r[0], r[k + 1]);
          BelowIrreflexive(m);
        }
        if x in s - {m} {
          var k :| 0 <= k < |r| && r[k] == x;
          assert k != 0;
          assert tail[k - 1] == x;
        }
      }
      forall i, j | 0 <= i < j < |tail| ensures Below(tail[i], tail[j]) {
        assert tail[i] == r[i + 1] && tail[j] == r[j + 1];
      }
      SortedUnique(s - {m}, tail);
      assert r == [m] + tail;
    }
  }

  /** The example of the class documentation: `(c + a) xor (a or b)` has the
      variables A, B and C. */
  lemma ExampleVariables()
    ensures GetVariables(BinaryOperatorNode("xor", Xor, [
      BinaryOperatorNode("or", Or, [VariableNode("C"), VariableNode("A")]),
      BinaryOperatorNode("or", Or, [VariableNode("A"), VariableNode("B")])])) == ["A", "B", "C"]
  {
    var e := BinaryOperatorNode("xor", Xor, [
      BinaryOperatorNode("or", Or, [VariableNode("C"), VariableNode("A")]),
      BinaryOperatorNode("or", Or, [VariableNode("A"), VariableNode("B")])]);
    var c := BinaryOperatorNode("or", Or, [VariableNode("C"), VariableNode("A")]);
    var d := BinaryOperatorNode("or", Or, [VariableNode("A"), VariableNode("B")]);
    assert [c, d][..1] == [c];
    assert [VariableNode("C"), VariableNode("A")][..1] == [VariableNode("C")];
    assert [VariableNode("A"), VariableNode("B")][..1] == [VariableNode("A")];
    assert CollectAll([VariableNode("C"), VariableNode("A")]) == {"C", "A"};
    assert CollectAll([VariableNode("A"), VariableNode("B")]) == {"A", "B"};
    assert CollectAll([c, d]) == CollectAll([c]) + Collect(d);
    assert Collect(e) == {"A", "B", "C"};
    var r := ["A", "B", "C"];
    assert Below("A", "B") && Below("A", "C") && Below("B", "C");
    SortedUnique({"A", "B", "C"}, r);
  }
}
