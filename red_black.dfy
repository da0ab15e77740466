/**
 * The node-level algorithms of the left-leaning red-black tree behind
 * `TreeSet` (server/pkg/utils/treeset.go, copied in server/treeset.go).
 * The Go code mutates `*node` values and returns the new subtree root; here
 * a subtree is a value and every operation returns the new subtree.
 */
module RedBlack {
  import opened Ordering

  datatype Color = Red | Black

  datatype Tree = Nil | Node(color: Color, left: Tree, value: string, right: Tree)

  /**
   * How `flipColors` recolours a node. `AsWritten` is the source's version,
   * which paints the node red and both children black; `Inverting` inverts
   * all three colours, which is what the delete path needs.
   */
  datatype FlipRule = AsWritten | Inverting

  /** The values of a subtree in the order an in-order walk visits them. */
  function InOrder(t: Tree): seq<string>
  {
    match t
    case Nil => []
    case Node(_, l, v, r) => InOrder(l) + [v] + InOrder(r)
  }

  /** Strictly ascending: the binary-search-tree order, with no duplicates. */
  predicate Sorted(s: seq<string>)
  {
    forall i, j :: 0 <= i < j < |s| ==> Less(s[i], s[j])
  }

  predicate IsRed(n: Tree)
  {
    n.Node? && n.color == Red
  }

  function Recolor(t: Tree, c: Color): (r: Tree)
    ensures InOrder(r) == InOrder(t) && (r.Nil? <==> t.Nil?)
  {
    if t.Nil? then Nil else t.(color := c)
  }

  function Invert(c: Color): Color
  {
    if c == Red then Black else Red
  }

  function RotateLeft(n: Tree): (x: Tree)
    requires n.Node? && n.right.Node?
    ensures x.Node? && InOrder(x) == InOrder(n)
  {
    var r := n.right;
    Node(n.color, Node(Red, n.left, n.value, r.left), r.value, r.right)
  }

  function RotateRight(n: Tree): (x: Tree)
    requires n.Node? && n.left.Node?
    ensures x.Node? && InOrder(x) == InOrder(n)
  {
    var l := n.left;
    Node(n.color, l.left, l.value, Node(Red, l.right, n.value, n.right))
  }

  function Flip(n: Tree, rule: FlipRule): (r: Tree)
    requires n.Node?
    ensures r.Node? && InOrder(r) == InOrder(n) && r.value == n.value
    ensures r.left.Nil? == n.left.Nil? && r.right.Nil? == n.right.Nil?
  {
    match rule
    case AsWritten => Node(Red, Recolor(n.left, Black), n.value, Recolor(n.right, Black))
    case Inverting =>
      Node(Invert(n.color),
           Recolor(n.left, if n.left.Nil? then Black else Invert(n.left.color)),
           n.value,
           Recolor(n.right, if n.right.Nil? then Black else Invert(n.right.color)))
  }

  /** `insert`: the recursive insertion with its three fix-ups on the way up. */
  function Insert(n: Tree, v: string): (r: Tree)
    ensures r.Node?
    ensures forall x :: x in InOrder(r) <==> x in InOrder(n) || x == v
  {
    if n == Nil then Node(Red, Nil, v, Nil)
    else
      var n1 := if Compare(v, n.value) < 0 then n.(left := Insert(n.left, v))
                else if Compare(v, n.value) > 0 then n.(right := Insert(n.right, v))
                else n;
      CompareZeroIffEqual(v, n.value);
      assert forall x :: x in InOrder(n1) <==> x in InOrder(n) || x == v;
      FixUp(n1)
  }

  /** The three fix-ups `insert` applies on the way up: lean left, split a red run, flip. */
  function FixUp(n1: Tree): (r: Tree)
    requires n1.Node?
    ensures r.Node? && InOrder(r) == InOrder(n1)
  {
    var n2 := if IsRed(n1.right) && !IsRed(n1.left) then RotateLeft(n1) else n1;
    var n3 := if IsRed(n2.left) && IsRed(n2.left.left) then RotateRight(n2) else n2;
    if IsRed(n3.left) && IsRed(n3.right) then Flip(n3, AsWritten) else n3
  }

  /** `balance`: the fix-ups applied on the way up a delete path. */
  function Balance(n: Tree, rule: FlipRule): (r: Tree)
    ensures InOrder(r) == InOrder(n) && (r.Nil? <==> n.Nil?)
  {
    if n == Nil then Nil
    else
      var n1 := if IsRed(n.right) then RotateLeft(n) else n;
      var n2 := if IsRed(n1.left) && IsRed(n1.left.left) then RotateRight(n1) else n1;
      if IsRed(n2.left) && IsRed(n2.right) then Flip(n2, rule) else n2
  }

  /** `moveRedLeft`: borrow from the right sibling so the left child is not a 2-node. */
  function MoveRedLeft(n: Tree, rule: FlipRule): (r: Tree)
    requires n.Node?
    ensures r.Node? && InOrder(r) == InOrder(n)
    ensures r.left.Node? || (r.left.Nil? && n.left.Nil?)
  {
    var n1 := Flip(n, rule);
    if n1.right != Nil && IsRed(n1.right.left)
    then Flip(RotateLeft(n1.(right := RotateRight(n1.right))), rule)
    else n1
  }

  /** `moveRedRight`: borrow from the left sibling so the right child is not a 2-node. */
  function MoveRedRight(n: Tree, rule: FlipRule): (r: Tree)
    requires n.Node?
    ensures r.Node? && InOrder(r) == InOrder(n)
    ensures r.right.Nil? ==> n.right.Nil? && r.value == n.value
  {
    var n1 := Flip(n, rule);
    if n1.left != Nil && IsRed(n1.left.left) then Flip(RotateRight(n1), rule) else n1
  }

  /** `min`: the leftmost value of a non-empty subtree. */
  function Min(n: Tree): (m: string)
    requires n.Node?
    ensures |InOrder(n)| > 0 && m == InOrder(n)[0]
  {
    if n.left == Nil then n.value else Min(n.left)
  }

  /** `deleteMin`, with the flip rule of the recolouring it uses. */
  function DeleteMin(n: Tree, rule: FlipRule): (r: Tree)
    ensures forall x :: x in InOrder(r) ==> x in InOrder(n)
    decreases |InOrder(n)|
  {
    if n == Nil then Nil
    else if n.left == Nil then Nil
    else
      var n1 := if !IsRed(n.left) && !IsRed(n.left.left) then MoveRedLeft(n, rule) else n;
      Balance(n1.(left := DeleteMin(n1.left, rule)), rule)
  }

  /** `delete`, with the flip rule of the recolouring it uses. */
  function Delete(h: Tree, v: string, rule: FlipRule): (r: Tree)
    ensures forall x :: x in InOrder(r) ==> x in InOrder(h)
    decreases |InOrder(h)|
  {
    if h == Nil then Nil
    else if Compare(v, h.value) < 0 then
      var h1 := if !IsRed(h.left) && (h.left == Nil || !IsRed(h.left.left)) then MoveRedLeft(h, rule) else h;
      var h2 := if h1.left != Nil then h1.(left := Delete(h1.left, v, rule)) else h1;
      Balance(h2, rule)
    else
      var h1 := if IsRed(h.left) then RotateRight(h) else h;
      if Compare(v, h1.value) == 0 && h1.right == Nil then Nil
      else
        var h2 := if !IsRed(h1.right) && (h1.right == Nil || !IsRed(h1.right.left)) then MoveRedRight(h1, rule) else h1;
        var h3 := if Compare(v, h2.value) == 0 then h2.(value := Min(h2.right), right := DeleteMin(h2.right, rule))
                  else if h2.right != Nil then h2.(right := Delete(h2.right, v, rule))
                  else h2;
        Balance(h3, rule)
  }
}
