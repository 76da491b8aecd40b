/** The erasing loop of src/rbtree.c on the heap. */
module RbErase {
  import opened Options
  import opened RbShape
  import opened RbRotate
  import opened RbInsertSteps
  import opened RbEraseSteps
  import opened RbContents
  import opened RbInsert

  // ---------- the three branches that push a red node down ----------

  /** p = p->link[last] = jsw_single(q, dir) */
  method Borrow<V>(p: RbNode<V>, q: RbNode<V>, dir: bool, last: bool, ghost c: Ctx<V>, ghost u: Tree<V>)
    returns (r: RbNode<V>)
    requires Zip(c, u, q) && u.Br? && p == c.Node() && last == c.Dir() && Branch(c, u, dir) == Push.Borrow
    modifies p`link, Refs(u)
    ensures Zip(PushCtx(c, u, dir), PushTree(c, u, dir), q) && r == PushCtx(c, u, dir).Node()
    ensures CRefs(PushCtx(c, u, dir)) + Refs(PushTree(c, u, dir)) == CRefs(c) + Refs(u)
  {
    SingleKeeps(u, dir);
    HoldsHole(c, q);
    assert allocated(CRefs(c));
    r := Single(q, dir, u);
    Hang(p, last, r, c, SingleT(u, dir));
    DownZip(c, SingleT(u, dir), r, dir);
  }

  method Merge<V>(p: RbNode<V>, s: RbNode<V>, q: RbNode<V>, dir: bool, ghost c: Ctx<V>, ghost u: Tree<V>)
    requires Zip(c, u, q) && u.Br? && Branch(c, u, dir) == Push.Merge && p == c.n && s == p.link.At(!c.dir)
    modifies p, s, q
    ensures Zip(PushCtx(c, u, dir), PushTree(c, u, dir), q)
    ensures CRefs(PushCtx(c, u, dir)) + Refs(PushTree(c, u, dir)) == CRefs(c) + Refs(u)
  {
    assert Shape(s, c.sib) && Hooked(c.up, p) && Sep(c.sib);
    p.red := false;
    s.red := true;
    q.red := true;
  }

  /** The four colour assignments after the rotation of the last branch. */
  ghost function Coloured<V>(t: Tree<V>, dir: bool): Tree<V>
    requires t.Br? && t.Child(dir).Br?
  {
    var low := t.Child(dir);
    Mk(t.n, true, t.item, dir,
       Mk(low.n, false, low.item, dir, Paint(low.Child(dir), true), low.Child(!dir)),
       Paint(t.Child(!dir), false))
  }

  lemma PaintKeeps<V>(t: Tree<V>, red: bool)
    ensures Refs(Paint(t, red)) == Refs(t) && Flat(Paint(t, red)) == Flat(t) && (Sep(t) ==> Sep(Paint(t, red)))
  {
  }

  lemma ColouredKeeps<V>(t: Tree<V>, dir: bool)
    requires t.Br? && t.Child(dir).Br? && Sep(t)
    ensures Sep(Coloured(t, dir)) && Refs(Coloured(t, dir)) == Refs(t)
  {
    var low := t.Child(dir);
    PaintKeeps(low.Child(dir), true);
    PaintKeeps(t.Child(!dir), false);
    assert Sep(low) && Sep(t.Child(!dir));
    var low1 := Mk(low.n, false, low.item, dir, Paint(low.Child(dir), true), low.Child(!dir));
    assert Refs(low1) == Refs(low) && Sep(low1);
  }

  /** t with the child on side dir, twice down, painted red. */
  ghost function Reddened<V>(t: Tree<V>, dir: bool): Tree<V>
    requires t.Br? && t.Child(dir).Br?
  {
    var low := t.Child(dir);
    Mk(t.n, t.red, t.item, dir, Mk(low.n, low.red, low.item, dir, Paint(low.Child(dir), true), low.Child(!dir)),
        t.Child(!dir))
  }

  lemma ReddenKeeps<V>(t: Tree<V>, dir: bool)
    requires t.Br? && t.Child(dir).Br? && Sep(t)
    ensures Sep(Reddened(t, dir)) && Refs(Reddened(t, dir)) == Refs(t)
  {
    var low := t.Child(dir);
    PaintKeeps(low.Child(dir), true);
    assert Sep(low);
    var low1 := Mk(low.n, low.red, low.item, dir, Paint(low.Child(dir), true), low.Child(!dir));
    assert Refs(low1) == Refs(low) && Sep(low1);
  }

  /** q->red = 1 */
  method Redden<V>(q: RbNode<V>, ghost y: RbNode<V>, ghost dir: bool, ghost t: Tree<V>)
    requires Shape(y, t) && Sep(t) && t.Br? && t.Child(dir).Br? && t.Child(dir).Child(dir).Br?
    requires q == t.Child(dir).Child(dir).n
    modifies q
    ensures Shape(y, Reddened(t, dir)) && Sep(Reddened(t, dir))
  {
    ghost var low := t.Child(dir);
    assert Sep(low) && Sep(low.Child(dir)) && Shape(y.link.At(dir), low) && Shape(low.n.link.At(dir), low.Child(dir));
    ReddenKeeps(t, dir);
    q.red := true;
    assert Shape(q, Paint(low.Child(dir), true));
    assert Shape(low.n, Reddened(t, dir).Child(dir));
  }

  /** y->red = 1, and both its children black */
  method RedOverBlack<V>(y: RbNode<V>, ghost t: Tree<V>)
    requires Shape(y, t) && Sep(t) && t.Br? && t.left.Br? && t.right.Br?
    modifies t.n, t.left.n, t.right.n
    ensures Shape(y, Br(t.n, true, t.item, Paint(t.left, false), Paint(t.right, false)))
  {
    assert Sep(t.left) && Sep(t.right);
    y.red := true;
    y.link.l0.red := false;
    y.link.l1.red := false;
  }

  method Colour<V>(y: RbNode<V>, q: RbNode<V>, ghost dir: bool, ghost t: Tree<V>)
    requires Shape(y, t) && Sep(t) && t.Br? && t.Child(dir).Br? && t.Child(!dir).Br?
    requires t.Child(dir).Child(dir).Br? && q == t.Child(dir).Child(dir).n
    modifies t.n, t.left.n, t.right.n, q
    ensures Shape(y, Coloured(t, dir))
  {
    Redden(q, y, dir, t);
    RedOverBlack(y, Reddened(t, dir));
  }

  /** g->link[dir2] = jsw_double(p, last) or jsw_single(p, last) */
  method LendRotate<V>(g: RbNode<V>, p: RbNode<V>, s: RbNode<V>, dir2: bool, last: bool, ghost c: Ctx<V>,
      ghost u: Tree<V>)
    requires c.Under? && c.sib.Br? && (IsRed(c.sib.left) || IsRed(c.sib.right))
    requires Zip(c.up, Up(c, u), p) && g == c.up.Node() && last == c.dir && s == p.link.At(!last)
    modifies g`link, Refs(Up(c, u))
    ensures Zip(c.up, LendT(c, u), LendT(c, u).n) && Refs(LendT(c, u)) == Refs(Up(c, u))
  {
    assert Shape(s, c.sib);
    assert Shape(s.link.At(last), c.sib.Child(last)) && Shape(s.link.At(!last), c.sib.Child(!last));
    ghost var b := c.sib.Child(last);
    assert b.Br? ==> b.n in Refs(c.sib);
    if IsRedNode(s.link.At(last)) {
      HangDouble(g, p, last, c.up, Up(c, u));
    } else if IsRedNode(s.link.At(!last)) {
      HangSingle(g, p, last, c.up, Up(c, u));
    }
  }

  method Lend<V>(g: RbNode<V>, p: RbNode<V>, s: RbNode<V>, q: RbNode<V>, dir: bool, last: bool, ghost c: Ctx<V>,
      ghost u: Tree<V>)
    requires Zip(c, u, q) && u.Br? && Branch(c, u, dir) == Push.Lend
    requires p == c.n && g == c.up.Node() && last == c.dir && s == p.link.At(!last)
    modifies g`link, Refs(Up(c, u))
    ensures Zip(PushCtx(c, u, dir), PushTree(c, u, dir), q)
    ensures CRefs(PushCtx(c, u, dir)) + Refs(PushTree(c, u, dir)) == CRefs(c) + Refs(u)
  {
    UpZip(c, u, q);
    HoleSide(c.up, p);
    var dir2 := g.link.At(true) == p;
    LendRotate(g, p, s, dir2, last, c, u);
    LendKeepsSides(c, u);
    LendColour(g, q, dir2, c.up, last, LendT(c, u));
  }

  method LendColour<V>(g: RbNode<V>, q: RbNode<V>, dir2: bool, ghost c: Ctx<V>, ghost last: bool, ghost t: Tree<V>)
    requires t.Br? && Zip(c, t, t.n) && g == c.Node() && dir2 == c.Dir()
    requires t.Child(last).Br? && t.Child(!last).Br?
    requires t.Child(last).Child(last).Br? && q == t.Child(last).Child(last).n
    modifies Refs(t)
    ensures var t1 := Coloured(t, last);
      && Zip(Down(Down(c, t1, last), t1.Child(last), last), t1.Child(last).Child(last), q)
      && CRefs(Down(Down(c, t1, last), t1.Child(last), last)) + Refs(t1.Child(last).Child(last)) == CRefs(c) + Refs(t)
  {
    HoldsHole(c, t.n);
    ColouredKeeps(t, last);
    assert allocated(CRefs(c));
    assert q in Refs(t.Child(last));
    Colour(g.link.At(dir2), q, last, t);
    ghost var t1 := Coloured(t, last);
    DownZip(c, t1, t.n, last);
    DownZip(Down(c, t1, last), t1.Child(last), t.n.link.At(last), last);
  }

  /** The colours the loop looks at are the ones of the trees. */
  lemma RedAt<V>(n: RbNode<V>, t: Tree<V>)
    requires Shape(n, t)
    ensures t.Br? && IsRedNode(n) == t.red
    ensures IsRedNode(n.link.At(true)) == IsRed(t.right) && IsRedNode(n.link.At(false)) == IsRed(t.left)
  {
  }

  /** Both children of q are black: take the red from the parent, by way of the sibling s. */
  method PushFromParent<V>(g: RbNode?<V>, p: RbNode<V>, q: RbNode<V>, dir: bool, last: bool, ghost c: Ctx<V>,
      ghost u: Tree<V>)
    requires Zip(c, u, q) && u.Br? && p == c.Node() && last == c.Dir() && (c.Under? ==> g == c.up.Node())
    requires !u.red && !IsRed(u.left) && !IsRed(u.right)
    modifies CRefs(c), Refs(u)
    ensures Zip(PushCtx(c, u, dir), PushTree(c, u, dir), q) && p == PushCtx(c, u, dir).Node()
    ensures CRefs(PushCtx(c, u, dir)) + Refs(PushTree(c, u, dir)) == CRefs(c) + Refs(u)
    ensures HeadOf(PushCtx(c, u, dir)) == HeadOf(c)
  {
    var s := p.link.At(!last);
    assert s == null <==> c.Top? || c.sib.Leaf?;
    if s != null {
      assert Hooked(c.up, p);
      HoldsHole(c.up, p);
      RedAt(s, c.sib);
      if !IsRedNode(s.link.At(!last)) && !IsRedNode(s.link.At(last)) {
        Merge(p, s, q, dir, c, u);
      } else {
        LendKeepsSides(c, u);
        Lend(g, p, s, q, dir, last, c, u);
      }
    }
  }

  method PushDown<V>(g: RbNode?<V>, p: RbNode<V>, q: RbNode<V>, dir: bool, last: bool, ghost c: Ctx<V>,
      ghost u: Tree<V>)
    returns (r: RbNode<V>)
    requires Zip(c, u, q) && u.Br? && p == c.Node() && last == c.Dir() && (c.Under? ==> g == c.up.Node())
    modifies CRefs(c), Refs(u)
    ensures Zip(PushCtx(c, u, dir), PushTree(c, u, dir), q) && r == PushCtx(c, u, dir).Node()
    ensures CRefs(PushCtx(c, u, dir)) + Refs(PushTree(c, u, dir)) == CRefs(c) + Refs(u)
    ensures HeadOf(PushCtx(c, u, dir)) == HeadOf(c)
  {
    r := p;
    RedAt(q, u);
    if !IsRedNode(q) && !IsRedNode(q.link.At(dir)) {
      if IsRedNode(q.link.At(!dir)) {
        HoldsHole(c, q);
        r := Borrow(p, q, dir, last, c, u);
      } else if !IsRedNode(q.link.At(!dir)) {
        PushFromParent(g, p, q, dir, last, c, u);
      }
    }
  }

  // ---------- replacing the found record by its in-order neighbour's ----------

  /** The context whose nearest node to the right of the hole carries another record. */
  ghost function SetSucc<V>(c: Ctx<V>, item: Item<V>): Ctx<V> {
    match c
    case Top(_) => c
    case Under(up, n, red, old_, dir, sib) =>
      if dir then Under(SetSucc(up, item), n, red, old_, dir, sib) else Under(up, n, red, item, dir, sib)
  }

  lemma {:induction false} SetSuccKeeps<V>(c: Ctx<V>, item: Item<V>, h: nat)
    requires CtxOk(c, h) && CSep(c) && FlatR(c) != []
    ensures var d := SetSucc(c, item);
      && FlatL(d) == FlatL(c) && FlatR(d) == [Entry(FlatR(c)[0].n, item)] + FlatR(c)[1..]
      && CRefs(d) == CRefs(c) && CSep(d) && CtxOk(d, h) && TopRed(d) == TopRed(c)
      && HeadOf(d) == HeadOf(c) && d.Node() == c.Node() && d.Dir() == c.Dir()
      && FlatR(c)[0].n in CRefs(c)
    decreases c
  {
    if c.Under? && c.dir {
      SetSuccKeeps(c.up, item, if c.red then h else h + 1);
    }
  }

  lemma {:induction false} InRight<V>(c: Ctx<V>)
    requires FlatR(c) != []
    ensures FlatR(c)[0].n in CRefs(c)
    decreases c
  {
    if c.Under? && c.dir {
      InRight(c.up);
    }
  }

  /** Hooked, except that nothing is said about the record in the nearest node to the right of the hole. */
  ghost predicate Spine<V>(c: Ctx<V>, hole: RbNode?<V>, f: RbNode<V>)
    requires CSep(c) && FlatR(c) != [] && f == FlatR(c)[0].n
    reads CRefs(c) - {f}, f`red, f`link
    decreases c
  {
    if c.dir then
      InRight(c.up);
      && c.n.red == c.red && c.n.data == Some(c.item)
      && c.n.link.At(true) == hole && Shape(c.n.link.At(false), c.sib)
      && Spine(c.up, c.n, f)
    else
      && f.red == c.red
      && f.link.At(false) == hole && Shape(f.link.At(true), c.sib)
      && Hooked(c.up, f)
  }

  lemma {:induction false} HookedSpine<V>(c: Ctx<V>, p: RbNode?<V>)
    requires Hooked(c, p) && CSep(c) && FlatR(c) != []
    ensures Spine(c, p, FlatR(c)[0].n)
    decreases c
  {
    if c.dir {
      HookedSpine(c.up, c.n);
    }
  }

  lemma {:induction false} SpineHooked<V>(c: Ctx<V>, p: RbNode?<V>, item: Item<V>)
    requires CSep(c) && FlatR(c) != [] && Spine(c, p, FlatR(c)[0].n) && FlatR(c)[0].n.data == Some(item)
    ensures Hooked(SetSucc(c, item), p)
    decreases c
  {
    if c.dir {
      SpineHooked(c.up, c.n, item);
    }
  }

  // ---------- the loop ----------

  /** The walk after an erasure: unchanged if the key was absent, otherwise without its record. */
  ghost predicate Erased<V>(before: seq<Entry<V>>, after: seq<Entry<V>>, key: Key) {
    if !HasKey(before, key) then after == before
    else exists i :: 0 <= i < |before| && before[i].item.key == key && SameItems(after, before[..i] + before[i + 1..])
  }

  ghost predicate SameItems<V>(a: seq<Entry<V>>, b: seq<Entry<V>>) {
    |a| == |b| && forall i :: 0 <= i < |a| ==> a[i].item == b[i].item
  }

  ghost predicate Loop<V>(head: RbNode<V>, x: Tree<V>, key: Key, q: RbNode<V>, p: RbNode?<V>, f: RbNode?<V>, dir: bool,
                          c: Ctx<V>, u: Tree<V>, h: nat)
    reads CRefs(c), Refs(u), q
  {
    && Zip(c, u, q.link.At(dir)) && HeadOf(c) == head && CRefs(c) + Refs(u) == {head} + Refs(x)
    && q == c.Node() && dir == c.Dir() && (c.Under? ==> p == c.up.Node())
    && Place(c, u, h) && Found(c, key, f) && Walk(c, u) == Flat(x)
  }

  lemma NotFound<V>(c: Ctx<V>, key: Key)
    requires Found(c, key, null)
    ensures !HasKey(Walk(c, Leaf), key)
  {
    var s := Walk(c, Leaf);
    assert forall i :: 0 <= i < |s| ==> s[i] == if i < |FlatL(c)| then FlatL(c)[i] else FlatR(c)[i - |FlatL(c)|];
  }

  /** The context once f has been given the record of q, and q itself is gone. */
  ghost function Without<V>(c: Ctx<V>): Ctx<V>
    requires c.Under?
  {
    if c.dir then SetSucc(c.up, c.item) else c.up
  }

  lemma FoundAt<V>(c: Ctx<V>, key: Key, f: RbNode<V>, after: seq<Entry<V>>)
    requires Found(c, key, f)
    requires SameItems(after, FlatL(c) + FlatR(c)[1..])
    ensures Erased(Walk(c, Leaf), after, key)
  {
    var s, i := Walk(c, Leaf), |FlatL(c)|;
    assert s[i] == FlatR(c)[0];
    assert s[..i] + s[i + 1..] == FlatL(c) + FlatR(c)[1..];
  }

  /** Taking out q and giving its record to f removes exactly the record of the key. */
  lemma Removed<V>(c: Ctx<V>, key: Key, f: RbNode<V>)
    requires c.Under? && Found(c, key, f) && CSep(c) && Place(c, Leaf, 0)
    ensures c.sib.Leaf? && CtxOk(Without(c), 0)
    ensures HeadOf(Without(c)) == HeadOf(c) && CRefs(Without(c)) == CRefs(c) - {c.n} && f in CRefs(c)
    ensures Without(c).Node() == c.up.Node() && CSep(Without(c))
    ensures Erased(Walk(c, Leaf), Walk(Without(c), Leaf), key)
  {
    InRight(c);
    if c.dir {
      SetSuccKeeps(c.up, c.item, if c.red then 0 else 1);
    }
    assert CtxOk(Without(c), 0) by {
      if c.dir && c.red { SetSuccKeeps(c.up, c.item, 0); }
    }
    FoundAt(c, key, f, Walk(Without(c), Leaf));
  }

  /** f->data = q->data */
  method Patch<V>(q: RbNode<V>, f: RbNode<V>, ghost key: Key, ghost c: Ctx<V>)
    requires c.Under? && Hooked(c, null) && CSep(c) && q == c.n && Found(c, key, f)
    modifies f`data
    ensures Hooked(Without(c), q)
  {
    assert Hooked(c.up, q);
    if c.dir {
      HookedSpine(c.up, q);
    }
    f.data := q.data;
    if c.dir {
      SpineHooked(c.up, q, c.item);
    }
  }

  /** f->data = q->data; p->link[p->link[1] == q] = q->link[q->link[0] == NULL] */
  method Unlink<V>(p: RbNode<V>, q: RbNode<V>, f: RbNode<V>, ghost key: Key, ghost c: Ctx<V>)
    requires c.Under? && Zip(c, Leaf, null) && p == c.up.Node() && q == c.n
    requires Found(c, key, f) && Place(c, Leaf, 0)
    modifies CRefs(c)
    ensures Zip(Without(c), Leaf, null)
  {
    Removed(c, key, f);
    UpZip(c, Leaf, null);
    Patch(q, f, key, c);
    ghost var c1 := Without(c);
    HoldsHole(c1, q);
    HoleSide(c1, q);
    Hang(p, p.link.At(true) == q, q.link.At(q.link.At(false) == null), c1, Leaf);
  }

  method EraseBelow<V>(head: RbNode<V>, key: Key, ghost x: Tree<V>, ghost bh: nat)
    returns (ghost y: Tree<V>, ghost k: nat)
    requires Zip(Top(head), x, head.link.At(true)) && RB(x, bh) && !IsRed(x) && Sorted(Flat(x))
    modifies {head} + Refs(x)
    ensures Shape(head.link.At(true), y) && Sep(y) && RB(y, k)
    ensures head !in Refs(y) && Refs(y) <= Refs(x)
    ensures Erased(Flat(x), Flat(y), key)
  {
    var q: RbNode<V>, p: RbNode?<V>, g: RbNode?<V>, f: RbNode?<V> := head, null, null, null;
    var dir := true;
    ghost var c, u, h := Top(head), x, bh;
    assert Walk(c, u) == Flat(x);
    while q.link.At(dir) != null
      invariant Loop(head, x, key, q, p, f, dir, c, u, h)
      decreases Size(u)
    {
      var last := dir;

      g, p := p, q;
      q := q.link.At(dir);
      dir := Cmp(q.data.value.key, key) < 0;

      ghost var f0 := f;
      if Cmp(q.data.value.key, key) == 0 {
        f := q;
      }
      p := PushDown(g, p, q, dir, last, c, u);

      PushKeepsWalk(c, u, dir);
      FoundMoves(c, u, key, f0);
      h := PushKeepsRB(c, u, h, dir);
      ghost var c1, u1 := PushCtx(c, u, dir), PushTree(c, u, dir);
      DownZip(c1, u1, q, dir);
      DownWalk(c1, u1, dir);
      c, u := Down(c1, u1, dir), u1.Child(dir);
    }

    ghost var c1 := c;
    if f != null {
      Removed(c, key, f);
      Unlink(p, q, f, key, c);
      c1 := Without(c);
    } else {
      NotFound(c, key);
    }
    k := PlugRB(c1, Leaf, 0);
    y := Plug(c1, Leaf);
    PlugShape(c1, Leaf, null);
    PlugWalk(c1, Leaf);
  }
}
