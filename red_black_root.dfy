/**
 * The whole-tree operations both `TreeSet` copies share: the body of the
 * `Insert` and `Remove` loops (operate on the root, then paint it black),
 * and the promise a Go range-over-func iterator makes to its caller.
 */
module RedBlackRoot {
  import opened Ordering
  import opened RedBlack
  import opened RedBlackOrder
  import opened RedBlackBalance

  /** A whole tree: left-leaning red-black, black root, strictly ascending values. */
  predicate ValidTree(t: Tree)
  {
    RB(t, Height(t)) && !IsRed(t) && Sorted(InOrder(t))
  }

  /** One step of `Insert`'s loop: `insert` at the root, then paint the root black. */
  function Put(root: Tree, v: string): (r: Tree)
    ensures r.Node? && !IsRed(r)
    ensures forall x :: x in InOrder(r) <==> x in InOrder(root) || x == v
  {
    Recolor(Insert(root, v), Black)
  }

  /** One step of `Remove`'s loop as the source writes it. */
  function RemoveAsWritten(root: Tree, v: string): (r: Tree)
    ensures !IsRed(r)
    ensures forall x :: x in InOrder(r) ==> x in InOrder(root)
  {
    Recolor(Delete(root, v, AsWritten), Black)
  }

  /**
   * One step of `Remove`'s loop with the recolouring the delete path needs:
   * skip a value that is absent, redden a root whose children are both
   * black, delete with inverting flips, paint the root black.
   */
  function Remove(root: Tree, v: string): (r: Tree)
    ensures v in InOrder(root) ==> !IsRed(r)
    ensures forall x :: x in InOrder(r) ==> x in InOrder(root)
  {
    if v !in InOrder(root) then root
    else
      var h := if !IsRed(root.left) && !IsRed(root.right) then root.(color := Red) else root;
      Recolor(Delete(h, v, Inverting), Black)
  }

  /** `Insert(values...)`: the values inserted one after another, in order. */
  function PutAll(root: Tree, values: seq<string>): Tree
  {
    if values == [] then root
    else Put(PutAll(root, values[..|values| - 1]), values[|values| - 1])
  }

  /** `Remove(values...)`: the values removed one after another, in order. */
  function RemoveAll(root: Tree, values: seq<string>): Tree
  {
    if values == [] then root
    else Remove(RemoveAll(root, values[..|values| - 1]), values[|values| - 1])
  }

  /** Painting a red-black subtree's root black keeps it red-black, one level higher at most. */
  lemma Blacken(t: Tree, n: int)
    requires RB(t, n) && t.Node?
    ensures RB(t.(color := Black), if t.color == Red then n + 1 else n)
  {
  }

  lemma {:induction false} WithoutKeepsSorted(s: seq<string>, v: string)
    requires Sorted(s)
    ensures Sorted(Without(s, v)) && forall x :: x in Without(s, v) <==> x in s && x != v
  {
    if s != [] {
      WithoutKeepsSorted(s[1..], v);
      var head := if s[0] == v then [] else [s[0]];
      assert Without(s, v) == head + Without(s[1..], v);
      assert forall x :: x in s <==> x == s[0] || x in s[1..];
      forall i, j | 0 <= i < j < |Without(s, v)|
        ensures Less(Without(s, v)[i], Without(s, v)[j])
      {
        if head != [] && i == 0 {
          assert Without(s, v)[j] in s[1..];
        } else {
          assert Without(s, v)[i] == Without(s[1..], v)[i - |head|];
        }
      }
    }
  }

  /** Inserting keeps the tree valid and adds exactly the value. */
  lemma PutCorrect(root: Tree, v: string)
    requires ValidTree(root)
    ensures ValidTree(Put(root, v))
    ensures forall x :: x in InOrder(Put(root, v)) <==> x in InOrder(root) || x == v
  {
    var n := Height(root);
    InsertBalanced(root, v, n);
    InsertKeepsSorted(root, v);
    var r := Insert(root, v);
    Blacken(r, n);
    HeightOfRB(Put(root, v), if r.color == Red then n + 1 else n);
  }

  /** The corrected removal keeps the tree valid and takes out exactly the value. */
  lemma RemoveCorrect(root: Tree, v: string)
    requires ValidTree(root)
    ensures ValidTree(Remove(root, v))
    ensures InOrder(Remove(root, v)) == Without(InOrder(root), v)
  {
    if v !in InOrder(root) {
      WithoutAbsent(InOrder(root), v);
      return;
    }
    var n := Height(root);
    var h := if !IsRed(root.left) && !IsRed(root.right) then root.(color := Red) else root;
    var k := if h.color == Red then n - 1 else n;
    assert RB(root.left, n - 1) && RB(root.right, n - 1);
    assert DeletePre(h, v, k);
    DeleteBalanced(h, v, k);
    DeleteRemoves(h, v, k);
    WithoutKeepsSorted(InOrder(root), v);
    var r := Delete(h, v, Inverting);
    if r.Node? {
      Blacken(r, k);
      HeightOfRB(Remove(root, v), if r.color == Red then k + 1 else k);
    }
  }

  lemma {:induction false} PutAllCorrect(root: Tree, values: seq<string>)
    requires ValidTree(root)
    ensures ValidTree(PutAll(root, values))
    ensures forall x :: x in InOrder(PutAll(root, values)) <==> x in InOrder(root) || x in values
  {
    if values != [] {
      var front := values[..|values| - 1];
      PutAllCorrect(root, front);
      PutCorrect(PutAll(root, front), values[|values| - 1]);
      assert forall x :: x in values <==> x in front || x == values[|values| - 1] by {
        assert values == front + [values[|values| - 1]];
      }
    }
  }

  lemma {:induction false} RemoveAllCorrect(root: Tree, values: seq<string>)
    requires ValidTree(root)
    ensures ValidTree(RemoveAll(root, values))
    ensures forall x :: x in InOrder(RemoveAll(root, values)) <==> x in InOrder(root) && x !in values
  {
    if values != [] {
      var front := values[..|values| - 1];
      var prev := RemoveAll(root, front);
      RemoveAllCorrect(root, front);
      RemoveCorrect(prev, values[|values| - 1]);
      WithoutKeepsSorted(InOrder(prev), values[|values| - 1]);
      assert forall x :: x in values <==> x in front || x == values[|values| - 1] by {
        assert values == front + [values[|values| - 1]];
      }
    }
  }

  /**
   * What a range-over-func iterator over `values` does with `yield`: it
   * hands over the values in order and stops right after the first call
   * that returns false. `visited` is what `yield` was called with.
   */
  predicate YieldedUntilStop(values: seq<string>, keepGoing: string -> bool, visited: seq<string>)
  {
    |visited| <= |values| && visited == values[..|visited|] &&
    (forall i :: 0 <= i < |visited| - 1 ==> keepGoing(visited[i])) &&
    (|visited| < |values| ==> |visited| >= 1 && !keepGoing(visited[|visited| - 1]))
  }

  /** A `yield` that never asks to stop is handed every value. */
  lemma YieldAlwaysTrue(values: seq<string>, keepGoing: string -> bool, visited: seq<string>)
    requires forall x :: keepGoing(x)
    requires YieldedUntilStop(values, keepGoing, visited)
    ensures visited == values
  {
  }

  /** The iterator's stopping point is determined by `yield`: there is only one `visited`. */
  lemma YieldedUnique(values: seq<string>, keepGoing: string -> bool, a: seq<string>, b: seq<string>)
    requires YieldedUntilStop(values, keepGoing, a) && YieldedUntilStop(values, keepGoing, b)
    ensures a == b
  {
  }

  /** The iteration over a snapshot of the values (the pkg copy's `All`). */
  method Range(values: seq<string>, keepGoing: string -> bool) returns (visited: seq<string>)
    ensures YieldedUntilStop(values, keepGoing, visited)
  {
    visited := [];
    for i := 0 to |values|
      invariant visited == values[..i]
      invariant forall j :: 0 <= j < i ==> keepGoing(values[j])
    {
      visited := visited + [values[i]];
      if !keepGoing(values[i]) {
        return;
      }
    }
  }

  /** The tree `Insert("A", "B", "C")` builds: "B" at a black root over two black leaves. */
  lemma ThreeValues()
    ensures var t := Put(Put(Put(Nil, "A"), "B"), "C");
      t == Node(Black, Node(Black, Nil, "A", Nil), "B", Node(Black, Nil, "C", Nil)) &&
      ValidTree(t) && InOrder(t) == ["A", "B", "C"]
  {
    assert Compare("B", "A") == 1 && Compare("C", "B") == 1;
    var t1 := Put(Nil, "A");
    assert t1 == Node(Black, Nil, "A", Nil);
    var t2 := Put(t1, "B");
    assert Insert(t1, "B") == RotateLeft(Node(Black, Nil, "A", Node(Red, Nil, "B", Nil)));
    assert t2 == Node(Black, Node(Red, Nil, "A", Nil), "B", Nil);
    assert Insert(t2, "C") == Flip(Node(Black, Node(Red, Nil, "A", Nil), "B", Node(Red, Nil, "C", Nil)), AsWritten);
    var t := Node(Black, Node(Black, Nil, "A", Nil), "B", Node(Black, Nil, "C", Nil));
    assert Less("A", "B") && Less("B", "C") && Less("A", "C");
    assert RB(Node(Black, Nil, "A", Nil), 1) && RB(Node(Black, Nil, "C", Nil), 1);
    assert Height(t) == 2 && RB(t, 2);
    assert InOrder(t) == ["A", "B", "C"];
  }

  /** The source's loss of data, on three values. */
  lemma AsWrittenRemoveLosesValue()
    ensures var t := Put(Put(Put(Nil, "A"), "B"), "C");
      ValidTree(t) && InOrder(t) == ["A", "B", "C"] &&
      InOrder(RemoveAsWritten(t, "B")) == ["A", "C"] &&
      !ValidTree(RemoveAsWritten(t, "B")) &&
      InOrder(RemoveAsWritten(RemoveAsWritten(t, "B"), "C")) == []
  {
    ThreeValues();
    var a, c := Node(Black, Nil, "A", Nil), Node(Black, Nil, "C", Nil);
    var t := Node(Black, a, "B", c);
    CompareZeroIffEqual("B", "B");
    CompareZeroIffEqual("C", "C");
    var flipped := Node(Red, a, "B", c);
    assert MoveRedRight(t, AsWritten) == flipped;
    assert Min(c) == "C" && DeleteMin(c, AsWritten) == Nil;
    assert Balance(Node(Red, a, "C", Nil), AsWritten) == Node(Red, a, "C", Nil);
    assert Delete(t, "B", AsWritten) == Node(Red, a, "C", Nil);
    var r1 := Node(Black, a, "C", Nil);
    assert RemoveAsWritten(t, "B") == r1;
    assert InOrder(a) == ["A"];
    assert InOrder(r1) == ["A"] + ["C"];
    assert Height(r1) == 2 && !RB(Nil, 1);
    assert Delete(r1, "C", AsWritten) == Nil;
  }

  /** The same removals with the corrected recolouring keep "A". */
  lemma CorrectedRemoveKeepsValue()
    ensures var t := Put(Put(Put(Nil, "A"), "B"), "C");
      InOrder(Remove(Remove(t, "B"), "C")) == ["A"]
  {
    ThreeValues();
    var t := Put(Put(Put(Nil, "A"), "B"), "C");
    RemoveCorrect(t, "B");
    RemoveCorrect(Remove(t, "B"), "C");
    TwoRemovals();
  }

  lemma TwoRemovals()
    ensures Without(["A", "B", "C"], "B") == ["A", "C"] && Without(["A", "C"], "C") == ["A"]
  {
    assert "A"[0] != "B"[0] && "A"[0] != "C"[0] && "C"[0] != "B"[0];
    assert ["A", "B", "C"][1..] == ["B", "C"] && ["B", "C"][1..] == ["C"] && ["A", "C"][1..] == ["C"];
    WithoutSingle("C", "B");
    WithoutSingle("C", "C");
    assert Without(["B", "C"], "B") == ["C"];
  }
}
