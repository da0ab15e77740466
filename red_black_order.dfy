/**
 * What the tree operations do to the in-order sequence of values: insertion
 * adds the value and keeps the sequence ascending, and search follows the
 * order. What delete does to it is proved in RedBlackBalance.
 */
module RedBlackOrder {
  import opened Ordering
  import opened RedBlack

  /** `s` with every occurrence of `v` taken out. */
  function Without(s: seq<string>, v: string): (r: seq<string>)
    ensures |r| <= |s|
  {
    if s == [] then []
    else (if s[0] == v then [] else [s[0]]) + Without(s[1..], v)
  }

  lemma {:induction false} WithoutConcat(a: seq<string>, b: seq<string>, v: string)
    ensures Without(a + b, v) == Without(a, v) + Without(b, v)
  {
    if a == [] {
      assert a + b == b;
    } else {
      assert (a + b)[1..] == a[1..] + b;
      WithoutConcat(a[1..], b, v);
    }
  }

  lemma {:induction false} WithoutAbsent(s: seq<string>, v: string)
    requires v !in s
    ensures Without(s, v) == s
  {
    if s != [] {
      WithoutAbsent(s[1..], v);
    }
  }

  lemma DropFirst(a: seq<string>, x: string, b: seq<string>)
    requires |a| >= 1
    ensures (a + [x] + b)[1..] == a[1..] + [x] + b
  {
  }

  lemma RejoinFirst(a: seq<string>, b: seq<string>)
    requires |b| >= 1
    ensures a + [b[0]] + b[1..] == a + b
  {
    assert [b[0]] + b[1..] == b;
    assert a + [b[0]] + b[1..] == a + ([b[0]] + b[1..]);
  }

  lemma WithoutSingle(x: string, v: string)
    ensures Without([x], v) == if x == v then [] else [x]
  {
    assert [x][1..] == [];
  }

  /** A sequence `l + [v] + r` is ascending exactly when both sides are and `v` separates them. */
  lemma SortedNode(l: seq<string>, v: string, r: seq<string>)
    ensures Sorted(l + [v] + r) <==>
      Sorted(l) && Sorted(r) && (forall x :: x in l ==> Less(x, v)) && (forall y :: y in r ==> Less(v, y))
  {
    if Sorted(l + [v] + r) {
      SortedSplit(l, v, r);
    }
    if Sorted(l) && Sorted(r) && (forall x :: x in l ==> Less(x, v)) && (forall y :: y in r ==> Less(v, y)) {
      SortedJoin(l, v, r);
    }
  }

  lemma SortedSplit(l: seq<string>, v: string, r: seq<string>)
    requires Sorted(l + [v] + r)
    ensures Sorted(l) && Sorted(r) && (forall x :: x in l ==> Less(x, v)) && (forall y :: y in r ==> Less(v, y))
  {
    var s := l + [v] + r;
    assert forall i :: 0 <= i < |l| ==> s[i] == l[i];
    assert s[|l|] == v;
    assert forall j :: 0 <= j < |r| ==> s[|l| + 1 + j] == r[j];
    forall x | x in l ensures Less(x, v) {
      var i :| 0 <= i < |l| && l[i] == x;
      assert Less(s[i], s[|l|]);
    }
    forall y | y in r ensures Less(v, y) {
      var j :| 0 <= j < |r| && r[j] == y;
      assert Less(s[|l|], s[|l| + 1 + j]);
    }
    forall i, j | 0 <= i < j < |l| ensures Less(l[i], l[j]) {
      assert Less(s[i], s[j]);
    }
    forall i, j | 0 <= i < j < |r| ensures Less(r[i], r[j]) {
      assert Less(s[|l| + 1 + i], s[|l| + 1 + j]);
    }
  }

  lemma SortedJoin(l: seq<string>, v: string, r: seq<string>)
    requires Sorted(l) && Sorted(r) && (forall x :: x in l ==> Less(x, v)) && (forall y :: y in r ==> Less(v, y))
    ensures Sorted(l + [v] + r)
  {
    var s := l + [v] + r;
    forall i, j | 0 <= i < j < |s| ensures Less(s[i], s[j]) {
      if j < |l| {
        assert s[i] == l[i] && s[j] == l[j];
      } else if i < |l| && j == |l| {
        assert s[i] == l[i] && s[i] in l;
      } else if i < |l| {
        assert s[i] == l[i] && s[i] in l && s[j] == r[j - |l| - 1];
        LessTransitive(s[i], v, s[j]);
      } else if i == |l| {
        assert s[j] == r[j - |l| - 1];
      } else {
        assert s[i] == r[i - |l| - 1] && s[j] == r[j - |l| - 1];
      }
    }
  }

  /** In a search tree, a value below the root can only be in the left subtree, one above only in the right. */
  lemma SideOf(t: Tree, v: string)
    requires t.Node? && Sorted(InOrder(t))
    ensures Sorted(InOrder(t.left)) && Sorted(InOrder(t.right))
    ensures Less(v, t.value) ==> (v in InOrder(t) <==> v in InOrder(t.left))
    ensures Less(t.value, v) ==> (v in InOrder(t) <==> v in InOrder(t.right))
  {
    SortedNode(InOrder(t.left), t.value, InOrder(t.right));
    LessAsymmetric(v, t.value);
    LessIrreflexive(v);
  }

  /** Taking `v` out of an ascending `a + [x] + b`, according to where `v` is. */
  lemma WithoutSplit(a: seq<string>, x: string, b: seq<string>, v: string)
    requires Sorted(a + [x] + b)
    ensures v in a ==> Without(a + [x] + b, v) == Without(a, v) + [x] + b
    ensures v == x ==> Without(a + [x] + b, v) == a + b
    ensures v in b ==> Without(a + [x] + b, v) == a + [x] + Without(b, v)
  {
    SortedNode(a, x, b);
    LessIrreflexive(v);
    LessAsymmetric(v, x);
    var inA, inB := v in a, v in b;
    if inA {
      assert Less(v, x);
      assert v !in b;
    } else if v == x {
      assert v !in b;
    } else if inB {
      assert Less(x, v);
    }
    if inA {
      WithoutInLeft(a, x, b, v);
    } else if v == x {
      WithoutAtRoot(a, x, b, v);
    } else if inB {
      WithoutInRight(a, x, b, v);
    }
  }

  lemma WithoutInLeft(a: seq<string>, x: string, b: seq<string>, v: string)
    requires v != x && v !in b
    ensures Without(a + [x] + b, v) == Without(a, v) + [x] + b
  {
    WithoutConcat(a + [x], b, v);
    WithoutConcat(a, [x], v);
    WithoutSingle(x, v);
    WithoutAbsent(b, v);
  }

  lemma WithoutAtRoot(a: seq<string>, x: string, b: seq<string>, v: string)
    requires v == x && v !in a && v !in b
    ensures Without(a + [x] + b, v) == a + b
  {
    WithoutConcat(a + [x], b, v);
    WithoutConcat(a, [x], v);
    WithoutSingle(x, v);
    WithoutAbsent(a, v);
    WithoutAbsent(b, v);
    assert a + [] == a;
  }

  lemma WithoutInRight(a: seq<string>, x: string, b: seq<string>, v: string)
    requires v != x && v !in a
    ensures Without(a + [x] + b, v) == a + [x] + Without(b, v)
  {
    WithoutConcat(a + [x], b, v);
    WithoutConcat(a, [x], v);
    WithoutSingle(x, v);
    WithoutAbsent(a, v);
  }

  /** Insertion keeps the in-order sequence ascending. */
  lemma {:induction false} InsertKeepsSorted(t: Tree, v: string)
    requires Sorted(InOrder(t))
    ensures Sorted(InOrder(Insert(t, v)))
  {
    if t.Nil? {
      return;
    }
    SortedNode(InOrder(t.left), t.value, InOrder(t.right));
    if Compare(v, t.value) < 0 {
      InsertKeepsSorted(t.left, v);
      SortedNode(InOrder(Insert(t.left, v)), t.value, InOrder(t.right));
    } else if Compare(v, t.value) > 0 {
      LessTotal(v, t.value);
      InsertKeepsSorted(t.right, v);
      SortedNode(InOrder(t.left), t.value, InOrder(Insert(t.right, v)));
    }
  }

  /** Inserting a value that is already present leaves the values as they were. */
  lemma {:induction false} InsertPresent(t: Tree, v: string)
    requires Sorted(InOrder(t)) && v in InOrder(t)
    ensures InOrder(Insert(t, v)) == InOrder(t)
  {
    SideOf(t, v);
    LessTotal(v, t.value);
    if Compare(v, t.value) < 0 {
      InsertPresent(t.left, v);
      assert InOrder(t.(left := Insert(t.left, v))) == InOrder(t);
    } else if Compare(v, t.value) > 0 {
      InsertPresent(t.right, v);
      assert InOrder(t.(right := Insert(t.right, v))) == InOrder(t);
    }
  }

  /**
   * The loop of `Contains`: walk down from the root, left when the value is
   * smaller, right when it is larger.
   */
  method Search(root: Tree, v: string) returns (found: bool)
    requires Sorted(InOrder(root))
    ensures found <==> v in InOrder(root)
  {
    var x := root;
    while x != Nil
      invariant Sorted(InOrder(x))
      invariant v in InOrder(root) <==> v in InOrder(x)
      decreases x
    {
      var c := Compare(v, x.value);
      SideOf(x, v);
      LessTotal(v, x.value);
      CompareZeroIffEqual(v, x.value);
      if c < 0 {
        x := x.left;
      } else if c > 0 {
        x := x.right;
      } else {
        return true;
      }
    }
    return false;
  }
}
