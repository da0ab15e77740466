/**
 * The older `TreeSet` of server/treeset.go. Its tree code is the same as
 * the pkg copy's; its `All` walks the tree itself with an explicit stack,
 * and `AsSlice` collects what `All` hands over.
 */
module LegacyTreeSets {
  import opened RedBlack
  import opened RedBlackOrder
  import opened RedBlackBalance
  import opened RedBlackRoot

  /**
   * What is left to visit once the nodes on `stack` are popped: each node's
   * value followed by its right subtree, from the top of the stack (its last
   * element) down.
   */
  function Pending(stack: seq<Tree>): seq<string>
  {
    if stack == [] then []
    else
      var top := stack[|stack| - 1];
      (if top.Node? then [top.value] + InOrder(top.right) else []) + Pending(stack[..|stack| - 1])
  }

  /** Everything the walk has still to hand over. */
  function Rest(curr: Tree, stack: seq<Tree>): seq<string>
  {
    InOrder(curr) + Pending(stack)
  }

  class LegacyTreeSet {
    var root: Tree

    ghost predicate Valid()
      reads this
    {
      ValidTree(root)
    }

    /** `NewTreeSet`: an empty set. */
    constructor ()
      ensures Valid() && root == Nil
    {
      root := Nil;
    }

    /** `Insert(values...)`, as in the pkg copy. */
    method Insert(values: seq<string>)
      requires Valid()
      modifies this
      ensures Valid() && root == PutAll(old(root), values)
      ensures forall x :: x in InOrder(root) <==> x in old(InOrder(root)) || x in values
    {
      PutAllCorrect(root, values);
      ghost var start := root;
      for i := 0 to |values|
        invariant root == PutAll(start, values[..i])
      {
        assert values[..i + 1][..i] == values[..i];
        root := Recolor(RedBlack.Insert(root, values[i]), Black);
      }
      assert values[..|values|] == values;
    }

    /** `Remove(values...)`, with the corrected recolouring of the pkg copy. */
    method Remove(values: seq<string>)
      requires Valid()
      modifies this
      ensures Valid() && root == RemoveAll(old(root), values)
      ensures forall x :: x in InOrder(root) <==> x in old(InOrder(root)) && x !in values
    {
      RemoveAllCorrect(root, values);
      ghost var start := root;
      for i := 0 to |values|
        invariant root == RemoveAll(start, values[..i])
        invariant ValidTree(root)
      {
        assert values[..i + 1][..i] == values[..i];
        RemoveCorrect(root, values[i]);
        var found := Search(root, values[i]);
        if found {
          var h := if !IsRed(root.left) && !IsRed(root.right) then root.(color := Red) else root;
          root := Recolor(Delete(h, values[i], Inverting), Black);
        }
      }
      assert values[..|values|] == values;
    }

    /** `Contains`: the walk down from the root. */
    method Contains(v: string) returns (found: bool)
      requires Valid()
      ensures found <==> v in InOrder(root)
    {
      found := Search(root, v);
    }

    /**
     * `All`: the in-order walk with an explicit stack. Go left as far as
     * possible pushing each node, pop one, hand its value to `yield`, stop
     * if that returns false, otherwise continue with its right subtree.
     */
    method All(keepGoing: string -> bool) returns (visited: seq<string>)
      ensures YieldedUntilStop(InOrder(root), keepGoing, visited)
    {
      var stack: seq<Tree> := [];
      var curr := root;
      visited := [];
      while curr != Nil || |stack| > 0
        invariant visited + Rest(curr, stack) == InOrder(root)
        invariant forall i :: 0 <= i < |stack| ==> stack[i].Node?
        invariant forall i :: 0 <= i < |visited| ==> keepGoing(visited[i])
        decreases |InOrder(root)| - |visited|, curr
      {
        while curr != Nil
          invariant visited + Rest(curr, stack) == InOrder(root)
          invariant forall i :: 0 <= i < |stack| ==> stack[i].Node?
          invariant curr != Nil || |stack| > 0
          decreases curr
        {
          PushPending(stack, curr);
          stack := stack + [curr];
          curr := curr.left;
        }
        PopPending(visited, stack);
        curr := stack[|stack| - 1];
        stack := stack[..|stack| - 1];
        visited := visited + [curr.value];
        if !keepGoing(curr.value) {
          PrefixOf(visited, Rest(curr.right, stack), InOrder(root));
          return;
        }
        curr := curr.right;
      }
      PrefixOf(visited, Rest(curr, stack), InOrder(root));
    }

    /** `AsSlice`: every value `All` hands over, with a `yield` that never stops. */
    method AsSlice() returns (slice: seq<string>)
      ensures slice == InOrder(root)
    {
      var collect := (v: string) => true;
      slice := All(collect);
      YieldAlwaysTrue(InOrder(root), collect, slice);
    }
  }

  /** Pushing a node moves its value and right subtree from `curr` onto the stack. */
  lemma PushPending(stack: seq<Tree>, curr: Tree)
    requires curr.Node?
    ensures Rest(curr, stack) == Rest(curr.left, stack + [curr])
  {
    assert (stack + [curr])[..|stack|] == stack;
  }

  /** Popping the top node hands over its value; its right subtree becomes `curr`. */
  lemma PopPending(visited: seq<string>, stack: seq<Tree>)
    requires |stack| > 0 && stack[|stack| - 1].Node?
    ensures visited + Rest(Nil, stack) ==
      (visited + [stack[|stack| - 1].value]) + Rest(stack[|stack| - 1].right, stack[..|stack| - 1])
  {
  }

  lemma PrefixOf(visited: seq<string>, rest: seq<string>, all: seq<string>)
    requires visited + rest == all
    ensures |visited| <= |all| && visited == all[..|visited|]
    ensures |visited| < |all| <==> rest != []
  {
    assert all[..|visited|] == visited;
  }
}
