/**
 * `TreeSet` of server/pkg/utils/treeset.go: a set of strings kept in a
 * left-leaning red-black tree ordered by `Ordering.Compare`. The object
 * owns one field, the root, which `Insert` and `Remove` replace.
 */
module TreeSets {
  import opened RedBlack
  import opened RedBlackOrder
  import opened RedBlackBalance
  import opened RedBlackRoot

  class TreeSet {
    var root: Tree

    ghost predicate Valid()
      reads this
    {
      ValidTree(root)
    }

    /** `NewTreeSet`: an empty set. */
    constructor ()
      ensures Valid() && root == Nil
    {
      root := Nil;
    }

    /** `Insert(values...)`: each value inserted at the root, the root painted black. */
    method Insert(values: seq<string>)
      requires Valid()
      modifies this
      ensures Valid() && root == PutAll(old(root), values)
      ensures forall x :: x in InOrder(root) <==> x in old(InOrder(root)) || x in values
    {
      PutAllCorrect(root, values);
      ghost var start := root;
      for i := 0 to |values|
        invariant root == PutAll(start, values[..i])
      {
        assert values[..i + 1][..i] == values[..i];
        root := Recolor(RedBlack.Insert(root, values[i]), Black);
      }
      assert values[..|values|] == values;
    }

    /**
     * `Remove(values...)`, with the delete path's recolouring inverting
     * colours, an absent value skipped and a root with two black children
     * reddened first.
     */
    method Remove(values: seq<string>)
      requires Valid()
      modifies this
      ensures Valid() && root == RemoveAll(old(root), values)
      ensures forall x :: x in InOrder(root) <==> x in old(InOrder(root)) && x !in values
    {
      RemoveAllCorrect(root, values);
      ghost var start := root;
      for i := 0 to |values|
        invariant root == RemoveAll(start, values[..i])
        invariant ValidTree(root)
      {
        assert values[..i + 1][..i] == values[..i];
        RemoveCorrect(root, values[i]);
        var found := Search(root, values[i]);
        if found {
          var h := if !IsRed(root.left) && !IsRed(root.right) then root.(color := Red) else root;
          root := Recolor(Delete(h, values[i], Inverting), Black);
        }
      }
      assert values[..|values|] == values;
    }

    /** `Contains`: the walk down from the root. */
    method Contains(v: string) returns (found: bool)
      requires Valid()
      ensures found <==> v in InOrder(root)
    {
      found := Search(root, v);
    }

    /** `AsSlice`: the values in ascending order, collected by a recursive in-order walk. */
    method AsSlice() returns (slice: seq<string>)
      requires Valid()
      ensures slice == InOrder(root) && Sorted(slice)
    {
      slice := Traverse(root, []);
    }

    /** `All`: a snapshot taken by `AsSlice`, then iterated over with `Range`. */
    method All(keepGoing: string -> bool) returns (visited: seq<string>)
      requires Valid()
      ensures YieldedUntilStop(InOrder(root), keepGoing, visited)
    {
      var values := AsSlice();
      visited := Range(values, keepGoing);
    }
  }

  /** The `traverse` closure of `AsSlice`: appends the subtree's values to `slice`. */
  method Traverse(n: Tree, slice: seq<string>) returns (r: seq<string>)
    ensures r == slice + InOrder(n)
    decreases n
  {
    if n == Nil {
      return slice;
    }
    r := Traverse(n.left, slice);
    r := r + [n.value];
    r := Traverse(n.right, r);
  }
}
