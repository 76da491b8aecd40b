/**
 The mutable nodes of src/rbtree.c and the values that describe what a heap full of them means.

 A `Tree` is the mathematical tree a node pointer stands for; it remembers which node sits where.
 A `Ctx` is such a tree with one subtree cut out: the way from the false root `head` down to the hole.
 Insert and erase walk down with a few trailing pointers; at every moment the heap is one `Ctx`
 plugged with one `Tree`, and everything that must not change is a property of those two values.
 */
module RbShape {
  import opened Options

  /** Keys are C `int`s (handle trees) or `unsigned int`s (notification tree). */
  type Key = k: int | -0x8000_0000 <= k <= 0xFFFF_FFFF

  datatype Item<+V> = Item(key: Key, value: V)

  /** The three comparators of the tree helper: the sign is that of the second key minus the first. */
  function Cmp(first: Key, second: Key): int {
    if second == first then 0 else if second < first then -1 else 1
  }

  /** The link to follow from a node: link[cmp < 0], so link[1] leads to the smaller keys. */
  function Towards(at: Key, wanted: Key): bool {
    Cmp(at, wanted) < 0
  }

  /** The two links of a node; false stands for index 0, true for index 1. */
  datatype Links<V> = Links(l0: RbNode?<V>, l1: RbNode?<V>) {
    function At(d: bool): RbNode?<V> {
      if d then l1 else l0
    }

    function With(d: bool, n: RbNode?<V>): Links<V> {
      if d then Links(l0, n) else Links(n, l1)
    }
  }

  class RbNode<V> {
    var red: bool
    var data: Option<Item<V>>  // None only in the false root
    var link: Links<V>

    constructor (red: bool, data: Option<Item<V>>)
      ensures this.red == red && this.data == data && link == Links(null, null)
    {
      this.red, this.data, link := red, data, Links(null, null);
    }
  }

  // ---------- trees ----------

  datatype Tree<V> = Leaf | Br(n: RbNode<V>, red: bool, item: Item<V>, left: Tree<V>, right: Tree<V>) {
    ghost function Child(d: bool): Tree<V>
      requires Br?
    {
      if d then right else left
    }
  }

  /** The branch whose d-child is `a` and whose other child is `b`. */
  ghost function Mk<V>(n: RbNode<V>, red: bool, item: Item<V>, d: bool, a: Tree<V>, b: Tree<V>): Tree<V> {
    if d then Br(n, red, item, b, a) else Br(n, red, item, a, b)
  }

  ghost predicate IsRed<V>(t: Tree<V>) {
    t.Br? && t.red
  }

  ghost predicate BothRed<V>(t: Tree<V>) {
    t.Br? && IsRed(t.left) && IsRed(t.right)
  }

  ghost function Size<V>(t: Tree<V>): nat {
    match t
    case Leaf => 0
    case Br(_, _, _, l, r) => Size(l) + Size(r) + 1
  }

  ghost function Refs<V>(t: Tree<V>): set<RbNode<V>> {
    match t
    case Leaf => {}
    case Br(n, _, _, l, r) => {n} + Refs(l) + Refs(r)
  }

  /** No node is used twice. */
  ghost predicate Sep<V>(t: Tree<V>) {
    match t
    case Leaf => true
    case Br(n, _, _, l, r) =>
      n !in Refs(l) && n !in Refs(r) && Refs(l) !! Refs(r) && Sep(l) && Sep(r)
  }

  /** The heap below pointer `p` is the tree `t`. */
  ghost predicate Shape<V>(p: RbNode?<V>, t: Tree<V>)
    reads Refs(t)
    decreases t
  {
    match t
    case Leaf => p == null
    case Br(n, red, item, l, r) =>
      p == n && n.red == red && n.data == Some(item) && Shape(n.link.At(false), l) && Shape(n.link.At(true), r)
  }

  /** Red-black tree of black height h: no red node has a red child, all paths have h black nodes. */
  ghost predicate RB<V>(t: Tree<V>, h: nat) {
    match t
    case Leaf => h == 0
    case Br(_, red, _, l, r) =>
      if red then !IsRed(l) && !IsRed(r) && RB(l, h) && RB(r, h)
      else h > 0 && RB(l, h - 1) && RB(r, h - 1)
  }

  datatype Entry<V> = Entry(n: RbNode<V>, item: Item<V>)

  /** In-order walk, link[0] side first. */
  ghost function Flat<V>(t: Tree<V>): seq<Entry<V>> {
    match t
    case Leaf => []
    case Br(n, _, item, l, r) => Flat(l) + [Entry(n, item)] + Flat(r)
  }

  /** The reversed comparator makes every tree descend along its in-order walk. */
  ghost predicate Sorted<V>(s: seq<Entry<V>>) {
    forall i, j :: 0 <= i < j < |s| ==> s[i].item.key > s[j].item.key
  }

  ghost predicate AllAbove<V>(s: seq<Entry<V>>, key: Key) {
    forall i :: 0 <= i < |s| ==> s[i].item.key > key
  }

  ghost predicate AllBelow<V>(s: seq<Entry<V>>, key: Key) {
    forall i :: 0 <= i < |s| ==> s[i].item.key < key
  }

  // ---------- trees with a hole ----------

  datatype Ctx<V> =
    | Top(head: RbNode<V>)
    | Under(up: Ctx<V>, n: RbNode<V>, red: bool, item: Item<V>, dir: bool, sib: Tree<V>)
  {
    /** The node whose link is the hole. */
    ghost function Node(): RbNode<V> {
      if Top? then head else n
    }

    ghost function Dir(): bool {
      if Top? then true else dir
    }
  }

  ghost predicate TopRed<V>(c: Ctx<V>) {
    c.Under? && c.red
  }

  ghost function CRefs<V>(c: Ctx<V>): set<RbNode<V>> {
    match c
    case Top(head) => {head}
    case Under(up, n, _, _, _, sib) => {n} + Refs(sib) + CRefs(up)
  }

  ghost predicate CSep<V>(c: Ctx<V>) {
    match c
    case Top(_) => true
    case Under(up, n, _, _, _, sib) =>
      n !in Refs(sib) && n !in CRefs(up) && Refs(sib) !! CRefs(up) && Sep(sib) && CSep(up)
  }

  /** The heap is the context `c`, and the link that leads into its hole holds `hole`. */
  ghost predicate Hooked<V>(c: Ctx<V>, hole: RbNode?<V>)
    reads CRefs(c)
    decreases c
  {
    match c
    case Top(head) => !head.red && head.link == Links(null, hole)
    case Under(up, n, red, item, dir, sib) =>
      && n.red == red && n.data == Some(item)
      && n.link.At(dir) == hole && Shape(n.link.At(!dir), sib)
      && Hooked(up, n)
  }

  /** What a context asks of the tree that fills it: black height h, and a black top under a red node. */
  ghost predicate CtxOk<V>(c: Ctx<V>, h: nat) {
    match c
    case Top(_) => true
    case Under(up, _, red, _, _, sib) =>
      && RB(sib, h)
      && (red ==> !IsRed(sib) && !TopRed(up))
      && CtxOk(up, if red then h else h + 1)
  }

  ghost function FlatL<V>(c: Ctx<V>): seq<Entry<V>> {
    match c
    case Top(_) => []
    case Under(up, n, _, item, dir, sib) =>
      if dir then FlatL(up) + Flat(sib) + [Entry(n, item)] else FlatL(up)
  }

  ghost function FlatR<V>(c: Ctx<V>): seq<Entry<V>> {
    match c
    case Top(_) => []
    case Under(up, n, _, item, dir, sib) =>
      if dir then FlatR(up) else [Entry(n, item)] + Flat(sib) + FlatR(up)
  }

  ghost function Walk<V>(c: Ctx<V>, t: Tree<V>): seq<Entry<V>> {
    FlatL(c) + Flat(t) + FlatR(c)
  }

  ghost function Plug<V>(c: Ctx<V>, t: Tree<V>): Tree<V> {
    match c
    case Top(_) => t
    case Under(up, n, red, item, dir, sib) => Plug(up, Mk(n, red, item, dir, t, sib))
  }

  ghost function HeadOf<V>(c: Ctx<V>): RbNode<V> {
    match c
    case Top(head) => head
    case Under(up, _, _, _, _, _) => HeadOf(up)
  }

  /** Heap, context and tree belong together and share no node. */
  ghost predicate Zip<V>(c: Ctx<V>, t: Tree<V>, p: RbNode?<V>)
    reads CRefs(c), Refs(t)
  {
    Hooked(c, p) && Shape(p, t) && CSep(c) && Sep(t) && CRefs(c) !! Refs(t)
  }

  ghost function Down<V>(c: Ctx<V>, t: Tree<V>, d: bool): Ctx<V>
    requires t.Br?
  {
    Under(c, t.n, t.red, t.item, d, t.Child(!d))
  }

  ghost function Up<V>(c: Ctx<V>, t: Tree<V>): Tree<V>
    requires c.Under?
  {
    Mk(c.n, c.red, c.item, c.dir, t, c.sib)
  }

  lemma DownZip<V>(c: Ctx<V>, t: Tree<V>, p: RbNode<V>, d: bool)
    requires Zip(c, t, p)
    ensures t.Br? && Zip(Down(c, t, d), t.Child(d), p.link.At(d))
    ensures HeadOf(Down(c, t, d)) == HeadOf(c)
    ensures CRefs(Down(c, t, d)) + Refs(t.Child(d)) == CRefs(c) + Refs(t)
  {
  }

  lemma UpZip<V>(c: Ctx<V>, t: Tree<V>, p: RbNode?<V>)
    requires Zip(c, t, p) && c.Under?
    ensures Zip(c.up, Up(c, t), c.n)
    ensures HeadOf(c.up) == HeadOf(c)
    ensures CRefs(c.up) + Refs(Up(c, t)) == CRefs(c) + Refs(t)
  {
  }

  lemma DownWalk<V>(c: Ctx<V>, t: Tree<V>, d: bool)
    requires t.Br?
    ensures Walk(Down(c, t, d), t.Child(d)) == Walk(c, t)
  {
  }

  lemma UpWalk<V>(c: Ctx<V>, t: Tree<V>)
    requires c.Under?
    ensures Walk(c.up, Up(c, t)) == Walk(c, t)
  {
  }

  /** Closing a zipper gives back the whole tree, in the heap and as a value. */
  lemma {:induction false} PlugShape<V>(c: Ctx<V>, t: Tree<V>, p: RbNode?<V>)
    requires Zip(c, t, p)
    ensures Shape(HeadOf(c).link.At(true), Plug(c, t)) && Sep(Plug(c, t))
    ensures HeadOf(c) in CRefs(c) && Refs(Plug(c, t)) == CRefs(c) + Refs(t) - {HeadOf(c)}
    decreases c
  {
    if c.Under? {
      UpZip(c, t, p);
      PlugShape(c.up, Up(c, t), c.n);
    }
  }

  lemma {:induction false} PlugWalk<V>(c: Ctx<V>, t: Tree<V>)
    ensures Flat(Plug(c, t)) == Walk(c, t)
    decreases c
  {
    if c.Under? {
      UpWalk(c, t);
      PlugWalk(c.up, Up(c, t));
    } else {
      assert Walk(c, t) == Flat(t);
    }
  }

  lemma {:induction false} PlugRB<V>(c: Ctx<V>, t: Tree<V>, h: nat) returns (k: nat)
    requires RB(t, h) && CtxOk(c, h) && (TopRed(c) ==> !IsRed(t))
    ensures RB(Plug(c, t), k)
    decreases c
  {
    k := h;
    if c.Under? {
      k := PlugRB(c.up, Up(c, t), if c.red then h else h + 1);
    }
  }

  // ---------- sorted walks ----------

  /** Descending one step keeps the wanted key inside the hole: everything left of it is larger, right of it smaller. */
  lemma DownBrackets<V>(c: Ctx<V>, t: Tree<V>, key: Key)
    requires t.Br? && Sorted(Walk(c, t)) && key != t.item.key
    requires AllAbove(FlatL(c), key) && AllBelow(FlatR(c), key)
    ensures AllAbove(FlatL(Down(c, t, Towards(t.item.key, key))), key)
    ensures AllBelow(FlatR(Down(c, t, Towards(t.item.key, key))), key)
  {
    var s := Walk(c, t);
    var m := |FlatL(c)| + |Flat(t.left)|;
    assert s[m] == Entry(t.n, t.item);
    if Towards(t.item.key, key) {
      var l := FlatL(Down(c, t, true));
      assert l == s[..m + 1];
    } else {
      var r := FlatR(Down(c, t, false));
      assert r == s[m..];
    }
  }
}
