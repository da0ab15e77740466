/**
 * The left-leaning red-black shape: no red right link, no two red links in a
 * row, and the same number of black links on every path from the root down.
 * Insertion as written keeps it; the delete path keeps it (and loses no
 * value) when its recolouring inverts colours.
 */
module RedBlackBalance {
  import opened Ordering
  import opened RedBlack
  import opened RedBlackOrder

  /** `t` is a left-leaning red-black tree with `n` black links on every path down. */
  predicate RB(t: Tree, n: int)
  {
    match t
    case Nil => n == 0
    case Node(c, l, _, r) =>
      var m := if c == Black then n - 1 else n;
      m >= 0 && !IsRed(r) && (c == Red ==> !IsRed(l)) && RB(l, m) && RB(r, m)
  }

  /** The number of black nodes on the leftmost path. */
  function Height(t: Tree): nat
  {
    match t
    case Nil => 0
    case Node(c, l, _, _) => (if c == Black then 1 else 0) + Height(l)
  }

  lemma {:induction false} HeightOfRB(t: Tree, n: int)
    requires RB(t, n)
    ensures n == Height(t)
  {
    if t.Node? {
      HeightOfRB(t.left, if t.color == Black then n - 1 else n);
    }
  }

  /** What `insert` promises: a black (or empty) subtree stays a tree of the
      same height; a red one stays red and may lean left twice, which its parent repairs. */
  predicate InsertPost(h: Tree, r: Tree, n: int)
  {
    (!IsRed(h) ==> RB(r, n)) &&
    (IsRed(h) ==> r.Node? && r.color == Red && !IsRed(r.right) && RB(r.left, n) && RB(r.right, n))
  }

  lemma {:induction false} InsertBalanced(h: Tree, v: string, n: int)
    requires RB(h, n)
    ensures InsertPost(h, Insert(h, v), n)
  {
    if h.Nil? {
      return;
    }
    var Node(c, l, k, r) := h;
    var m := if c == Black then n - 1 else n;
    if Compare(v, k) < 0 {
      InsertBalanced(l, v, m);
      InsertLeftFixed(h, v, n);
    } else if Compare(v, k) > 0 {
      InsertBalanced(r, v, m);
      InsertRightFixed(h, v, n);
    }
  }

  /** The fix-ups after an insertion into the left subtree restore the shape. */
  lemma InsertLeftFixed(h: Tree, v: string, n: int)
    requires RB(h, n) && h.Node? && Compare(v, h.value) < 0
    requires InsertPost(h.left, Insert(h.left, v), if h.color == Black then n - 1 else n)
    ensures InsertPost(h, Insert(h, v), n)
  {
  }

  /** The fix-ups after an insertion into the right subtree restore the shape. */
  lemma InsertRightFixed(h: Tree, v: string, n: int)
    requires RB(h, n) && h.Node? && Compare(v, h.value) > 0
    requires InsertPost(h.right, Insert(h.right, v), if h.color == Black then n - 1 else n)
    ensures InsertPost(h, Insert(h, v), n)
  {
  }

  /** The states `delete` may be entered in: a red node, a black node leaning
      red to the left, or a black node whose red link was moved to the right
      (only when the value is not below it). */
  predicate DeletePre(h: Tree, v: string, n: int)
  {
    h.Node? &&
    ((h.color == Red && RB(h, n)) ||
     (h.color == Black && IsRed(h.left) && RB(h, n)) ||
     (h.color == Black && !IsRed(h.left) && IsRed(h.right) && n >= 1 &&
      RB(h.left, n - 1) && RB(h.right, n - 1) && !Less(v, h.value)))
  }

  /** The states `deleteMin` may be entered in. */
  predicate DeleteMinPre(h: Tree, n: int)
  {
    h.Node? && RB(h, n) && (h.color == Red || IsRed(h.left))
  }

  /** What both deletions promise: a tree of the same height, not red if the input was black. */
  predicate DeletePost(h: Tree, r: Tree, n: int)
  {
    RB(r, n) && (h.Node? && h.color == Black ==> !IsRed(r))
  }

  lemma BalanceBlack(l: Tree, k: string, r: Tree, m: int)
    requires RB(l, m) && RB(r, m)
    ensures RB(Balance(Node(Black, l, k, r), Inverting), m + 1)
    ensures !IsRed(l) || !IsRed(r) ==> !IsRed(Balance(Node(Black, l, k, r), Inverting))
  {
  }

  lemma BalanceRed(l: Tree, k: string, r: Tree, m: int)
    requires RB(l, m) && RB(r, m) && !IsRed(l) && !IsRed(r)
    ensures Balance(Node(Red, l, k, r), Inverting) == Node(Red, l, k, r)
    ensures RB(Node(Red, l, k, r), m)
  {
  }

  /** `moveRedLeft` on a red node over two black children whose right child does not lean red. */
  lemma MoveRedLeftFlips(h: Tree)
    requires h.Node? && h.left.Node? && h.right.Node? && h.color == Red
    requires h.left.color == Black && h.right.color == Black && !IsRed(h.right.left)
    ensures MoveRedLeft(h, Inverting) == Node(Black, h.left.(color := Red), h.value, h.right.(color := Red))
  {
  }

  /** `moveRedLeft` on a red node over two black children whose right child leans red. */
  lemma MoveRedLeftRotates(h: Tree)
    requires h.Node? && h.left.Node? && h.right.Node? && h.color == Red
    requires h.left.color == Black && h.right.color == Black && IsRed(h.right.left)
    ensures var Node(_, Node(_, a, rk, b), rv, rr) := h.right;
      MoveRedLeft(h, Inverting) == Node(Red, Node(Black, h.left.(color := Red), h.value, a), rk, Node(Black, b, rv, rr))
  {
  }

  /**
   * `moveRedLeft` on a red node whose left child is a 2-node: the new left
   * child is an entry state `m` high, it still holds every value of the old
   * left child, and the node rebuilt above it keeps the height of `h`.
   */
  lemma LeftBorrow(h: Tree, n: int) returns (m: int)
    requires h.Node? && h.color == Red && RB(h, n)
    requires h.left.Node? && !IsRed(h.left) && !IsRed(h.left.left)
    ensures DeleteMinPre(MoveRedLeft(h, Inverting).left, m)
    ensures forall x :: x in InOrder(h.left) ==> x in InOrder(MoveRedLeft(h, Inverting).left)
    ensures forall t :: DeletePost(MoveRedLeft(h, Inverting).left, t, m) ==>
      DeletePost(h, Balance(MoveRedLeft(h, Inverting).(left := t), Inverting), n)
  {
    assert RB(h.left, n) && RB(h.right, n) && h.right.Node?;
    if IsRed(h.right.left) {
      m := LeftBorrowRotating(h, n);
    } else {
      m := LeftBorrowFlipping(h, n);
    }
  }

  /** ... when the right sibling is a 3-node: a value rotates over from the right. */
  lemma LeftBorrowRotating(h: Tree, n: int) returns (m: int)
    requires h.Node? && h.color == Red && RB(h, n)
    requires h.left.Node? && !IsRed(h.left) && !IsRed(h.left.left)
    requires h.right.Node? && IsRed(h.right.left)
    ensures DeleteMinPre(MoveRedLeft(h, Inverting).left, m)
    ensures forall x :: x in InOrder(h.left) ==> x in InOrder(MoveRedLeft(h, Inverting).left)
    ensures forall t :: DeletePost(MoveRedLeft(h, Inverting).left, t, m) ==>
      DeletePost(h, Balance(MoveRedLeft(h, Inverting).(left := t), Inverting), n)
  {
    var Node(c, l, k, r) := h;
    assert RB(l, n) && RB(r, n);
    assert RB(l.(color := Red), n - 1);
    var Node(_, Node(_, a, rk, b), rv, rr) := r;
    MoveRedLeftRotates(h);
    assert RB(Node(Red, a, rk, b), n - 1);
    m := n;
    forall t | DeletePost(MoveRedLeft(h, Inverting).left, t, m)
      ensures DeletePost(h, Balance(MoveRedLeft(h, Inverting).(left := t), Inverting), n)
    {
      BalanceRed(t, rk, Node(Black, b, rv, rr), n);
    }
  }

  /** ... when the right sibling is a 2-node: the colours flip. */
  lemma LeftBorrowFlipping(h: Tree, n: int) returns (m: int)
    requires h.Node? && h.color == Red && RB(h, n)
    requires h.left.Node? && !IsRed(h.left) && !IsRed(h.left.left)
    requires h.right.Node? && !IsRed(h.right.left)
    ensures DeleteMinPre(MoveRedLeft(h, Inverting).left, m)
    ensures forall x :: x in InOrder(h.left) ==> x in InOrder(MoveRedLeft(h, Inverting).left)
    ensures forall t :: DeletePost(MoveRedLeft(h, Inverting).left, t, m) ==>
      DeletePost(h, Balance(MoveRedLeft(h, Inverting).(left := t), Inverting), n)
  {
    var Node(c, l, k, r) := h;
    assert RB(l, n) && RB(r, n);
    assert RB(l.(color := Red), n - 1);
    MoveRedLeftFlips(h);
    assert RB(r.(color := Red), n - 1);
    m := n - 1;
    forall t | DeletePost(MoveRedLeft(h, Inverting).left, t, m)
      ensures DeletePost(h, Balance(MoveRedLeft(h, Inverting).(left := t), Inverting), n)
    {
      BalanceBlack(t, k, r.(color := Red), n - 1);
    }
  }

  /**
   * The child `deleteMin` descends into (after `moveRedLeft` when it is
   * needed) is again in an entry state, `m` black links high; and the
   * result rebuilt above it keeps the height of `h`.
   */
  lemma DeleteMinChild(h: Tree, n: int) returns (m: int)
    requires DeleteMinPre(h, n) && h.left.Node?
    ensures var h1 := if !IsRed(h.left) && !IsRed(h.left.left) then MoveRedLeft(h, Inverting) else h;
      DeleteMinPre(h1.left, m)
    ensures var h1 := if !IsRed(h.left) && !IsRed(h.left.left) then MoveRedLeft(h, Inverting) else h;
      forall t :: DeletePost(h1.left, t, m) ==> DeletePost(h, Balance(h1.(left := t), Inverting), n)
  {
    var Node(c, l, k, r) := h;
    if !IsRed(l) && !IsRed(l.left) {
      m := LeftBorrow(h, n);
    } else if IsRed(l) {
      m := n - 1;
      forall t | DeletePost(l, t, m) ensures DeletePost(h, Balance(h.(left := t), Inverting), n) {
        BalanceBlack(t, k, r, n - 1);
      }
    } else {
      m := n;
      forall t | DeletePost(l, t, m) ensures DeletePost(h, Balance(h.(left := t), Inverting), n) {
        BalanceRed(t, k, r, n);
      }
    }
  }

  lemma DeleteMinChildPre(h: Tree, n: int) returns (m: int)
    requires DeleteMinPre(h, n) && h.left.Node?
    ensures var h1 := if !IsRed(h.left) && !IsRed(h.left.left) then MoveRedLeft(h, Inverting) else h;
      DeleteMinPre(h1.left, m)
  {
    m := DeleteMinChild(h, n);
  }

  /** `deleteMin` with inverting flips keeps the shape and the height. */
  lemma {:induction false} DeleteMinBalanced(h: Tree, n: int)
    requires DeleteMinPre(h, n)
    ensures DeletePost(h, DeleteMin(h, Inverting), n)
    decreases |InOrder(h)|
  {
    if h.left == Nil {
      assert h.color == Red && RB(h.left, n) && RB(h.right, n);
    } else {
      var h1 := if !IsRed(h.left) && !IsRed(h.left.left) then MoveRedLeft(h, Inverting) else h;
      var m := DeleteMinChild(h, n);
      DeleteMinBalanced(h1.left, m);
    }
  }

  /** `deleteMin` with inverting flips removes the smallest value and nothing else. */
  lemma {:induction false} DeleteMinRemovesMin(h: Tree, n: int)
    requires DeleteMinPre(h, n)
    ensures InOrder(DeleteMin(h, Inverting)) == InOrder(h)[1..]
    decreases |InOrder(h)|
  {
    if h.left == Nil {
      assert h.color == Red && RB(h.left, n) && RB(h.right, n);
    } else {
      var h1 := if !IsRed(h.left) && !IsRed(h.left.left) then MoveRedLeft(h, Inverting) else h;
      var m := DeleteMinChildPre(h, n);
      DeleteMinRemovesMin(h1.left, m);
      var t := DeleteMin(h1.left, Inverting);
      assert h1.left.Node?;
      assert DeleteMin(h, Inverting) == Balance(h1.(left := t), Inverting);
      DropFirst(InOrder(h1.left), h1.value, InOrder(h1.right));
    }
  }

  /** `delete` below the node: the node it descends from, after `moveRedLeft` if needed. */
  function LeftStep(h: Tree): Tree
    requires h.Node?
  {
    if !IsRed(h.left) && (h.left == Nil || !IsRed(h.left.left)) then MoveRedLeft(h, Inverting) else h
  }

  /** `delete` at or above the node: after `rotateRight` if the left link is red. */
  function RightStep1(h: Tree): Tree
    requires h.Node?
  {
    if IsRed(h.left) then RotateRight(h) else h
  }

  /** ... and then after `moveRedRight` if the right child is a 2-node. */
  function RightStep2(h: Tree): (h2: Tree)
    requires h.Node?
    ensures h2.Node?
  {
    var h1 := RightStep1(h);
    if !IsRed(h1.right) && (h1.right == Nil || !IsRed(h1.right.left)) then MoveRedRight(h1, Inverting) else h1
  }

  lemma DeleteLeftChild(h: Tree, v: string, n: int) returns (m: int)
    requires DeletePre(h, v, n) && Sorted(InOrder(h)) && v in InOrder(h) && Less(v, h.value)
    ensures LeftStep(h).left.Node? && v in InOrder(LeftStep(h).left)
    ensures Sorted(InOrder(LeftStep(h))) && DeletePre(LeftStep(h).left, v, m)
    ensures forall t :: DeletePost(LeftStep(h).left, t, m) ==> DeletePost(h, Balance(LeftStep(h).(left := t), Inverting), n)
  {
    var Node(c, l, k, r) := h;
    SideOf(h, v);
    if !IsRed(l) && (l == Nil || !IsRed(l.left)) {
      m := LeftBorrow(h, n);
      assert LeftStep(h) == MoveRedLeft(h, Inverting);
    } else if IsRed(l) {
      m := n - 1;
      forall t | DeletePost(l, t, m) ensures DeletePost(h, Balance(h.(left := t), Inverting), n) {
        BalanceBlack(t, k, r, n - 1);
      }
    } else {
      m := n;
      forall t | DeletePost(l, t, m) ensures DeletePost(h, Balance(h.(left := t), Inverting), n) {
        BalanceRed(t, k, r, n);
      }
    }
  }

  /** `delete` stops at the node: the value is here and there is nothing to its right. */
  predicate RightStop(h: Tree, v: string)
    requires h.Node?
  {
    RightStep1(h).value == v && RightStep1(h).right == Nil
  }

  /** When `delete` goes on to the right, the child it descends into is in an entry state, `m` high. */
  predicate RightDescends(h: Tree, v: string, m: int)
    requires h.Node?
  {
    !RightStop(h, v) ==>
      RightStep2(h).right.Node? && Sorted(InOrder(RightStep2(h))) &&
      (v == RightStep2(h).value || v in InOrder(RightStep2(h).right)) &&
      (v == RightStep2(h).value ==> DeleteMinPre(RightStep2(h).right, m)) &&
      (v != RightStep2(h).value ==> DeletePre(RightStep2(h).right, v, m))
  }

  /** ... and whatever well-shaped subtree comes back, the node rebuilt above it keeps the height of `h`. */
  ghost predicate RightRebuilds(h: Tree, v: string, n: int, m: int)
    requires h.Node?
  {
    !RightStop(h, v) ==>
      forall t, x :: DeletePost(RightStep2(h).right, t, m) ==>
        DeletePost(h, Balance(Node(RightStep2(h).color, RightStep2(h).left, x, t), Inverting), n)
  }

  /** Where `v` lies in a node it is not below. */
  lemma RightOf(h: Tree, v: string)
    requires h.Node? && Sorted(InOrder(h)) && v in InOrder(h) && !Less(v, h.value)
    ensures v !in InOrder(h.left) && (v != h.value ==> v in InOrder(h.right) && Less(h.value, v))
    ensures forall x :: x in InOrder(h.left) ==> Less(x, h.value)
  {
    SortedNode(InOrder(h.left), h.value, InOrder(h.right));
    LessTotal(v, h.value);
    LessAsymmetric(v, h.value);
  }

  /** A black node leaning left: `delete` rotates the red link to the right. */
  lemma RightOfLeaning(h: Tree, v: string, n: int) returns (m: int)
    requires DeletePre(h, v, n) && Sorted(InOrder(h)) && v in InOrder(h) && !Less(v, h.value)
    requires IsRed(h.left)
    ensures !RightStop(h, v) && RightDescends(h, v, m) && RightRebuilds(h, v, n, m)
  {
    var Node(c, l, k, r) := h;
    RightOf(h, v);
    var Node(_, ll, lk, lr) := l;
    assert RB(l, n - 1) && RB(r, n - 1);
    assert lk in InOrder(l);
    if v != k { LessTransitive(lk, k, v); }
    LessIrreflexive(v);
    assert RightStep2(h) == Node(Black, ll, lk, Node(Red, lr, k, r));
    m := n - 1;
    forall t, x | DeletePost(RightStep2(h).right, t, m)
      ensures DeletePost(h, Balance(Node(Black, ll, x, t), Inverting), n)
    {
      BalanceBlack(ll, x, t, n - 1);
    }
  }

  /** A red node whose right child is a 2-node: `delete` borrows through the left sibling or inverts. */
  lemma RightOfRedBorrow(h: Tree, v: string, n: int) returns (m: int)
    requires DeletePre(h, v, n) && Sorted(InOrder(h)) && v in InOrder(h) && !Less(v, h.value)
    requires h.color == Red && h.right.Node? && !IsRed(h.right.left)
    ensures !RightStop(h, v) && RightDescends(h, v, m) && RightRebuilds(h, v, n, m)
  {
    if h.left.Node? && IsRed(h.left.left) {
      m := RightOfRedBorrowRotating(h, v, n);
    } else {
      m := RightOfRedBorrowFlipping(h, v, n);
    }
  }

  /** ... when the left child is a 3-node: `moveRedRight` rotates a value over from the left. */
  lemma RightOfRedBorrowRotating(h: Tree, v: string, n: int) returns (m: int)
    requires DeletePre(h, v, n) && Sorted(InOrder(h)) && v in InOrder(h) && !Less(v, h.value)
    requires h.color == Red && h.right.Node? && !IsRed(h.right.left)
    requires h.left.Node? && IsRed(h.left.left)
    ensures !RightStop(h, v) && RightDescends(h, v, m) && RightRebuilds(h, v, n, m)
  {
    var Node(c, l, k, r) := h;
    RightOf(h, v);
    assert RB(l, n) && RB(r, n);
    var Node(_, ll, lk, lr) := l;
    assert RB(r.(color := Red), n - 1);
    assert lk in InOrder(l);
    if v != k { LessTransitive(lk, k, v); }
    LessIrreflexive(v);
    assert RB(ll, n - 1) && RB(lr, n - 1);
    assert RightStep2(h) == Node(Red, ll.(color := Black), lk, Node(Black, lr, k, r.(color := Red)));
    assert RB(ll.(color := Black), n);
    m := n;
    forall t, x | DeletePost(RightStep2(h).right, t, m)
      ensures DeletePost(h, Balance(Node(Red, ll.(color := Black), x, t), Inverting), n)
    {
      BalanceRed(ll.(color := Black), x, t, n);
    }
  }

  /** ... when the left child is a 2-node: `moveRedRight` only flips the colours. */
  lemma RightOfRedBorrowFlipping(h: Tree, v: string, n: int) returns (m: int)
    requires DeletePre(h, v, n) && Sorted(InOrder(h)) && v in InOrder(h) && !Less(v, h.value)
    requires h.color == Red && h.right.Node? && !IsRed(h.right.left)
    requires !(h.left.Node? && IsRed(h.left.left))
    ensures !RightStop(h, v) && RightDescends(h, v, m) && RightRebuilds(h, v, n, m)
  {
    var Node(c, l, k, r) := h;
    RightOf(h, v);
    assert RB(l, n) && RB(r, n);
    assert n >= 1 && l.Node?;
    assert RB(r.(color := Red), n - 1);
    assert RightStep2(h) == Node(Black, l.(color := Red), k, r.(color := Red));
    assert RB(l.(color := Red), n - 1);
    m := n - 1;
    forall t, x | DeletePost(RightStep2(h).right, t, m)
      ensures DeletePost(h, Balance(Node(Black, l.(color := Red), x, t), Inverting), n)
    {
      BalanceBlack(l.(color := Red), x, t, n - 1);
    }
  }

  /** A red node whose right child is a 3-node, or a black node whose red link was moved right: no fix-up. */
  lemma RightOfReady(h: Tree, v: string, n: int) returns (m: int)
    requires DeletePre(h, v, n) && Sorted(InOrder(h)) && v in InOrder(h) && !Less(v, h.value)
    requires !IsRed(h.left) && (h.color == Black || (h.right.Node? && IsRed(h.right.left)))
    requires !(h.value == v && h.right == Nil)
    ensures !RightStop(h, v) && RightDescends(h, v, m) && RightRebuilds(h, v, n, m)
  {
    var Node(c, l, k, r) := h;
    RightOf(h, v);
    assert RightStep2(h) == h;
    m := if c == Black then n - 1 else n;
    if c == Black {
      forall t, x | DeletePost(r, t, m)
        ensures DeletePost(h, Balance(Node(Black, l, x, t), Inverting), n)
      {
        BalanceBlack(l, x, t, n - 1);
      }
    } else {
      forall t, x | DeletePost(r, t, m)
        ensures DeletePost(h, Balance(Node(Red, l, x, t), Inverting), n)
      {
        BalanceRed(l, x, t, n);
      }
    }
  }

  lemma DeleteRightChild(h: Tree, v: string, n: int) returns (m: int)
    requires DeletePre(h, v, n) && Sorted(InOrder(h)) && v in InOrder(h) && !Less(v, h.value)
    ensures RightStop(h, v) ==> n == 0 && InOrder(h) == [v]
    ensures RightDescends(h, v, m) && RightRebuilds(h, v, n, m)
  {
    var Node(c, l, k, r) := h;
    if IsRed(l) {
      m := RightOfLeaning(h, v, n);
    } else if c == Red {
      RightOf(h, v);
      if v == k && r == Nil {
        assert RB(l, n) && RB(r, n);
        return 0;
      }
      if !IsRed(r.left) {
        m := RightOfRedBorrow(h, v, n);
      } else {
        m := RightOfReady(h, v, n);
      }
    } else {
      m := RightOfReady(h, v, n);
    }
  }

  lemma DeleteLeftChildPre(h: Tree, v: string, n: int) returns (m: int)
    requires DeletePre(h, v, n) && Sorted(InOrder(h)) && v in InOrder(h) && Less(v, h.value)
    ensures LeftStep(h).left.Node? && v in InOrder(LeftStep(h).left)
    ensures Sorted(InOrder(LeftStep(h))) && DeletePre(LeftStep(h).left, v, m)
  {
    m := DeleteLeftChild(h, v, n);
  }

  lemma DeleteRightChildPre(h: Tree, v: string, n: int) returns (m: int)
    requires DeletePre(h, v, n) && Sorted(InOrder(h)) && v in InOrder(h) && !Less(v, h.value)
    ensures RightStop(h, v) ==> n == 0 && InOrder(h) == [v]
    ensures RightDescends(h, v, m)
  {
    m := DeleteRightChild(h, v, n);
  }

  /** `delete` with inverting flips keeps the shape and the height. */
  lemma {:induction false} DeleteBalanced(h: Tree, v: string, n: int)
    requires DeletePre(h, v, n) && Sorted(InOrder(h)) && v in InOrder(h)
    ensures DeletePost(h, Delete(h, v, Inverting), n)
    decreases |InOrder(h)|, 2
  {
    CompareZeroIffEqual(v, h.value);
    if Compare(v, h.value) < 0 {
      DeleteBalancedBelow(h, v, n);
    } else {
      LessTotal(v, h.value);
      DeleteBalancedAtOrAbove(h, v, n);
    }
  }

  lemma {:induction false} DeleteBalancedBelow(h: Tree, v: string, n: int)
    requires DeletePre(h, v, n) && Sorted(InOrder(h)) && v in InOrder(h) && Compare(v, h.value) < 0
    ensures DeletePost(h, Delete(h, v, Inverting), n)
    decreases |InOrder(h)|, 0
  {
    var m := DeleteLeftChild(h, v, n);
    SideOf(LeftStep(h), v);
    DeleteBalanced(LeftStep(h).left, v, m);
  }

  lemma {:induction false} DeleteBalancedAtOrAbove(h: Tree, v: string, n: int)
    requires DeletePre(h, v, n) && Sorted(InOrder(h)) && v in InOrder(h) && Compare(v, h.value) >= 0
    ensures DeletePost(h, Delete(h, v, Inverting), n)
    decreases |InOrder(h)|, 1
  {
    LessTotal(v, h.value);
    var m := DeleteRightChild(h, v, n);
    var h1, h2 := RightStep1(h), RightStep2(h);
    CompareZeroIffEqual(v, h1.value);
    if RightStop(h, v) {
      assert Delete(h, v, Inverting) == Nil;
    } else if v == h2.value {
      DeleteBalancedFound(h, v, n, m);
    } else {
      DeleteBalancedPast(h, v, n, m);
    }
  }

  /** The value is at the node: `deleteMin` below keeps the height, and so does the node rebuilt above. */
  lemma DeleteBalancedFound(h: Tree, v: string, n: int, m: int)
    requires h.Node? && Compare(v, h.value) >= 0 && !RightStop(h, v) && v == RightStep2(h).value
    requires RightStep2(h).right.Node? && DeleteMinPre(RightStep2(h).right, m) && RightRebuilds(h, v, n, m)
    ensures DeletePost(h, Delete(h, v, Inverting), n)
  {
    var h1, h2 := RightStep1(h), RightStep2(h);
    CompareZeroIffEqual(v, h1.value);
    CompareZeroIffEqual(v, h2.value);
    DeleteMinBalanced(h2.right, m);
    assert Delete(h, v, Inverting) == Balance(Node(h2.color, h2.left, Min(h2.right), DeleteMin(h2.right, Inverting)), Inverting);
  }

  /** The value is above the node: the deletion in the right subtree keeps its height, and so does the node rebuilt above. */
  lemma {:induction false} DeleteBalancedPast(h: Tree, v: string, n: int, m: int)
    requires h.Node? && Compare(v, h.value) >= 0 && !RightStop(h, v) && v != RightStep2(h).value
    requires RightStep2(h).right.Node? && Sorted(InOrder(RightStep2(h))) && v in InOrder(RightStep2(h).right)
    requires DeletePre(RightStep2(h).right, v, m) && RightRebuilds(h, v, n, m)
    ensures DeletePost(h, Delete(h, v, Inverting), n)
    decreases |InOrder(h)|, 0
  {
    var h1, h2 := RightStep1(h), RightStep2(h);
    CompareZeroIffEqual(v, h1.value);
    CompareZeroIffEqual(v, h2.value);
    SideOf(h2, v);
    assert |InOrder(h2.right)| < |InOrder(h)|;
    DeleteBalanced(h2.right, v, m);
    assert Delete(h, v, Inverting) == Balance(Node(h2.color, h2.left, h2.value, Delete(h2.right, v, Inverting)), Inverting);
  }

  /** `delete` with inverting flips takes out exactly the value asked for. */
  lemma {:induction false} DeleteRemoves(h: Tree, v: string, n: int)
    requires DeletePre(h, v, n) && Sorted(InOrder(h)) && v in InOrder(h)
    ensures InOrder(Delete(h, v, Inverting)) == Without(InOrder(h), v)
    decreases |InOrder(h)|, 2
  {
    CompareZeroIffEqual(v, h.value);
    if Compare(v, h.value) < 0 {
      DeleteRemovesBelow(h, v, n);
    } else {
      LessTotal(v, h.value);
      DeleteRemovesAtOrAbove(h, v, n);
    }
  }

  lemma {:induction false} DeleteRemovesBelow(h: Tree, v: string, n: int)
    requires DeletePre(h, v, n) && Sorted(InOrder(h)) && v in InOrder(h) && Less(v, h.value)
    ensures InOrder(Delete(h, v, Inverting)) == Without(InOrder(h), v)
    decreases |InOrder(h)|, 0
  {
    var m := DeleteLeftChildPre(h, v, n);
    var h1 := LeftStep(h);
    SideOf(h1, v);
    DeleteRemoves(h1.left, v, m);
    WithoutSplit(InOrder(h1.left), h1.value, InOrder(h1.right), v);
    assert Delete(h, v, Inverting) == Balance(h1.(left := Delete(h1.left, v, Inverting)), Inverting);
  }

  lemma {:induction false} DeleteRemovesAtOrAbove(h: Tree, v: string, n: int)
    requires DeletePre(h, v, n) && Sorted(InOrder(h)) && v in InOrder(h) && !Less(v, h.value)
    ensures InOrder(Delete(h, v, Inverting)) == Without(InOrder(h), v)
    decreases |InOrder(h)|, 1
  {
    var m := DeleteRightChildPre(h, v, n);
    var h1, h2 := RightStep1(h), RightStep2(h);
    CompareZeroIffEqual(v, h.value);
    CompareZeroIffEqual(v, h1.value);
    CompareZeroIffEqual(v, h2.value);
    if h1.value == v && h1.right == Nil {
      WithoutSingle(v, v);
    } else if v == h2.value {
      DeleteRemovesFound(h, v, m);
    } else {
      DeleteRemovesPast(h, v, m);
    }
  }

  /** The value is above the node: it is taken out of the right subtree. */
  lemma {:induction false} DeleteRemovesPast(h: Tree, v: string, m: int)
    requires h.Node? && Sorted(InOrder(RightStep2(h))) && InOrder(RightStep2(h)) == InOrder(h) && v in InOrder(h)
    requires !(RightStep1(h).value == v && RightStep1(h).right == Nil)
    requires v != RightStep2(h).value && v in InOrder(RightStep2(h).right) && !Less(v, h.value)
    requires RightStep2(h).right.Node? && DeletePre(RightStep2(h).right, v, m)
    ensures InOrder(Delete(h, v, Inverting)) == Without(InOrder(h), v)
    decreases |InOrder(h)|, 0
  {
    var h2 := RightStep2(h);
    CompareZeroIffEqual(v, h.value);
    CompareZeroIffEqual(v, h2.value);
    SideOf(h2, v);
    WithoutSplit(InOrder(h2.left), h2.value, InOrder(h2.right), v);
    assert |InOrder(h2.right)| < |InOrder(h)|;
    DeleteRemoves(h2.right, v, m);
    assert Delete(h, v, Inverting) == Balance(h2.(right := Delete(h2.right, v, Inverting)), Inverting);
  }

  /** The value is at the node: it is replaced by its successor, which `deleteMin` takes out below. */
  lemma DeleteRemovesFound(h: Tree, v: string, m: int)
    requires h.Node? && Sorted(InOrder(RightStep2(h))) && InOrder(RightStep2(h)) == InOrder(h)
    requires !(RightStep1(h).value == v && RightStep1(h).right == Nil)
    requires v == RightStep2(h).value && !Less(v, h.value)
    requires RightStep2(h).right.Node? && DeleteMinPre(RightStep2(h).right, m)
    ensures InOrder(Delete(h, v, Inverting)) == Without(InOrder(h), v)
  {
    var h1, h2 := RightStep1(h), RightStep2(h);
    CompareZeroIffEqual(v, h2.value);
    CompareZeroIffEqual(v, h1.value);
    var h3 := h2.(value := Min(h2.right), right := DeleteMin(h2.right, Inverting));
    assert Delete(h, v, Inverting) == Balance(h3, Inverting);
    WithoutSplit(InOrder(h2.left), h2.value, InOrder(h2.right), v);
    DeleteMinRemovesMin(h2.right, m);
    RejoinFirst(InOrder(h2.left), InOrder(h2.right));
  }
}
