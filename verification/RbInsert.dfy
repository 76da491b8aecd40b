/** The insertion loop of src/rbtree.c on the heap. */
module RbInsert {
  import opened Options
  import opened RbShape
  import opened RbRotate
  import opened RbInsertSteps
  import opened RbContents

  function IsRedNode<V>(n: RbNode?<V>): bool
    reads n
  {
    n != null && n.red
  }

  method ColourFlip<V>(q: RbNode<V>, ghost t: Tree<V>)
    requires Shape(q, t) && Sep(t) && BothRed(t)
    modifies t.n, t.left.n, t.right.n
    ensures Shape(q, FlipT(t))
  {
    assert Sep(t.left) && Sep(t.right);
    q.red := true;
    q.link.l0.red := false;
    q.link.l1.red := false;
  }

  /** Only one link of a context's lowest node leads into its hole, so comparing pointers finds the side. */
  lemma HoleSide<V>(c: Ctx<V>, p: RbNode<V>)
    requires Hooked(c, p) && p !in CRefs(c)
    ensures (c.Node().link.At(true) == p) == c.Dir()
  {
  }

  /** t->link[t->link[1] == g] = r */
  method Hang<V>(t: RbNode<V>, dir2: bool, r: RbNode?<V>, ghost c: Ctx<V>, ghost x: Tree<V>)
    requires t == c.Node() && dir2 == c.Dir() && Hooked(c, t.link.At(dir2)) && CSep(c)
    requires Shape(r, x) && Sep(x) && CRefs(c) !! Refs(x)
    modifies t`link
    ensures Zip(c, x, r)
  {
    t.link := t.link.With(dir2, r);
  }

  lemma HoldsHole<V>(c: Ctx<V>, p: RbNode?<V>)
    requires Hooked(c, p)
    ensures c.Node().link.At(c.Dir()) == p && c.Node() in CRefs(c)
  {
  }

  /** t->link[t->link[1] == g] = jsw_single(g, dir) */
  method HangSingle<V>(t: RbNode<V>, g: RbNode<V>, dir: bool, ghost c: Ctx<V>, ghost x: Tree<V>)
    requires Zip(c, x, g) && t == c.Node() && x.Br? && x.Child(!dir).Br?
    modifies t`link, x.n, x.Child(!dir).n
    ensures Zip(c, SingleT(x, dir), SingleT(x, dir).n) && Refs(SingleT(x, dir)) == Refs(x)
  {
    SingleKeeps(x, dir);
    HoleSide(c, g);
    assert allocated(CRefs(c)) && allocated(Refs(x));
    var dir2 := t.link.At(true) == g;
    var r := Single(g, dir, x);
    HoldsHole(c, g);
    Hang(t, dir2, r, c, SingleT(x, dir));
  }

  /** t->link[t->link[1] == g] = jsw_double(g, dir) */
  method HangDouble<V>(t: RbNode<V>, g: RbNode<V>, dir: bool, ghost c: Ctx<V>, ghost x: Tree<V>)
    requires Zip(c, x, g) && t == c.Node() && x.Br? && x.Child(!dir).Br? && x.Child(!dir).Child(dir).Br?
    modifies t`link, x.n, x.Child(!dir).n, x.Child(!dir).Child(dir).n
    ensures Zip(c, DoubleT(x, dir), DoubleT(x, dir).n) && Refs(DoubleT(x, dir)) == Refs(x)
  {
    DoubleKeeps(x, dir);
    HoleSide(c, g);
    assert allocated(CRefs(c)) && allocated(Refs(x));
    var dir2 := t.link.At(true) == g;
    var r := Double(g, dir, x);
    HoldsHole(c, g);
    Hang(t, dir2, r, c, DoubleT(x, dir));
  }

  /** The rotation branch: t, g, p and q form a genuine chain and p and q are both red. */
  method Rotate<V>(t: RbNode<V>, g: RbNode<V>, p: RbNode<V>, q: RbNode<V>, last: bool, ghost c: Ctx<V>,
      ghost x: Tree<V>)
    requires Zip(c, x, q) && x.Br? && c.Under? && c.up.Under?
    requires p == c.n && g == c.up.n && t == c.up.up.Node() && last == c.up.dir
    modifies t`link, g, p, q
    ensures Zip(FixedCtx(c, x), FixedTree(c, x), q)
    ensures CRefs(FixedCtx(c, x)) + Refs(FixedTree(c, x)) == CRefs(c) + Refs(x)
  {
    ghost var c2, big := c.up.up, Grand(c, x);
    UpZip(c, x, q);
    HoleSide(c, q);
    UpZip(c.up, Up(c, x), p);
    if q == p.link.At(last) {
      HangSingle(t, g, !last, c2, big);
      DownZip(c2, SingleT(big, !last), p, last);
    } else {
      HangDouble(t, g, !last, c2, big);
    }
  }

  /** The walk after an insertion: unchanged if the key was there, otherwise with the one new record. */
  ghost predicate Inserted<V>(before: seq<Entry<V>>, after: seq<Entry<V>>, item: Item<V>) {
    if HasKey(before, item.key) then after == before
    else
      && |after| == |before| + 1 && Sorted(after)
      && exists i :: 0 <= i <= |before| && after[i].item == item && after == before[..i] + [after[i]] + before[i..]
  }

  lemma AttachSorts<V>(a: seq<Entry<V>>, e: Entry<V>, b: seq<Entry<V>>)
    requires AllAbove(a, e.item.key) && AllBelow(b, e.item.key) && Sorted(a + b)
    ensures Inserted(a + b, a + [e] + b, e.item)
  {
    var s, r := a + b, a + [e] + b;
    assert forall i :: 0 <= i < |r| ==> r[i] == if i < |a| then s[i] else if i == |a| then e else s[i - 1];
    assert forall i :: 0 <= i < |s| ==> s[i] == if i < |a| then a[i] else b[i - |a|];
    assert r == s[..|a|] + [r[|a|]] + s[|a|..];
  }

  /** p->link[dir] = q for a fresh red node q. */
  method Attach<V>(p: RbNode<V>, dir: bool, q: RbNode<V>, ghost c: Ctx<V>, ghost item: Item<V>)
    requires Hooked(c, null) && CSep(c) && p == c.Node() && dir == c.Dir()
    requires q !in CRefs(c) && q.red && q.data == Some(item) && q.link == Links(null, null)
    modifies p`link
    ensures Zip(c, Br(q, true, item, Leaf, Leaf), q)
  {
    HoldsHole(c, null);
    p.link := p.link.With(dir, q);
  }

  /** if both children are red, move the red up */
  method FlipIfDue<V>(q: RbNode<V>, ghost c: Ctx<V>, ghost u: Tree<V>, ghost h: nat)
    requires Zip(c, u, q) && RB(u, h)
    modifies Refs(u)
    ensures u.Br? && Zip(c, if BothRed(u) then FlipT(u) else u, q)
  {
    assert allocated(CRefs(c));
    assert Shape(q.link.At(false), u.left) && Shape(q.link.At(true), u.right);
    if IsRedNode(q.link.At(false)) && IsRedNode(q.link.At(true)) {
      FlipKeeps(u, h);
      ColourFlip(q, u);
    }
  }

  /** if q and p are both red, rotate; only then are t, g and last used */
  method RotateIfDue<V>(t: RbNode<V>, g: RbNode?<V>, p: RbNode?<V>, q: RbNode<V>, last: bool, ghost c: Ctx<V>,
      ghost u: Tree<V>)
    requires Zip(c, u, q) && u.Br? && p == (if c.Top? then null else c.n)
    requires IsRed(u) && TopRed(c) ==>
               c.up.Under? && g == c.up.n && t == c.up.up.Node() && last == c.up.dir
    modifies CRefs(c), Refs(u)
    ensures var due := IsRed(u) && TopRed(c);
      && var c1, u1 := if due then FixedCtx(c, u) else c, if due then FixedTree(c, u) else u;
      && Zip(c1, u1, q) && HeadOf(c1) == HeadOf(c) && CRefs(c1) + Refs(u1) == CRefs(c) + Refs(u)
  {
    if IsRedNode(q) && IsRedNode(p) {
      assert Hooked(c.up, c.n) && Hooked(c.up.up, c.up.n);
      HoldsHole(c.up.up, c.up.n);
      Rotate(t, g, p, q, last, c, u);
    }
  }

  /** Everything the loop must hold at its top, on the heap and as values. */
  ghost predicate Loop<V>(head: RbNode<V>, x: Tree<V>, key: Key,
                          t: RbNode<V>, g: RbNode?<V>, p: RbNode?<V>, q: RbNode?<V>, dir: bool, last: bool,
                          c: Ctx<V>, u: Tree<V>, h: nat, phase: Phase)
    reads CRefs(c), Refs(u)
  {
    && Zip(c, u, q) && HeadOf(c) == head && CRefs(c) + Refs(u) == {head} + Refs(x)
    && Chain(c, t, g, p, dir, last, phase) && Stand(c, u, h, key, phase) && Walk(c, u) == Flat(x)
  }

  /** The loop body down to the exit test: attach or flip, then rotate. */
  method Turn<V>(head: RbNode<V>, item: Item<V>, t: RbNode<V>, g: RbNode?<V>, p: RbNode?<V>, q0: RbNode?<V>,
      dir: bool, last: bool,
                 ghost x: Tree<V>, ghost c: Ctx<V>, ghost u: Tree<V>, ghost h: nat, ghost phase: Phase)
    returns (q: RbNode<V>, ghost u0: Tree<V>)
    requires Loop(head, x, item.key, t, g, p, q0, dir, last, c, u, h, phase)
    modifies {head} + Refs(x)
    ensures if u.Br? then u0 == u && q == q0 else u0 == Br(q, true, item, Leaf, Leaf) && fresh(q)
    ensures Zip(TurnCtx(c, u0), TurnTree(c, u0), q) && HeadOf(TurnCtx(c, u0)) == head
    ensures CRefs(TurnCtx(c, u0)) + Refs(TurnTree(c, u0)) == {head} + Refs(x) + Refs(u0)
  {
    ghost var v;
    assert allocated(CRefs(c)) && (q0 == null <==> u.Leaf?);
    if q0 == null {
      q := new RbNode(true, Some(item));
      u0 := Br(q, true, item, Leaf, Leaf);
      v := u0;
      Attach(p, dir, q, c, item);
    } else {
      q := q0;
      u0 := u;
      FlipIfDue(q, c, u, h);
      v := if BothRed(u) then FlipT(u) else u;
      if BothRed(u) {
        FlipKeeps(u, h);
      }
    }
    RotateIfDue(t, g, p, q, last, c, v);
  }

  lemma FocusInWalk<V>(c: Ctx<V>, u: Tree<V>)
    requires u.Br?
    ensures HasKey(Walk(c, u), u.item.key)
  {
    assert Walk(c, u)[|FlatL(c)| + |Flat(u.left)|] == Entry(u.n, u.item);
  }

  lemma LeafWalk<V>(c: Ctx<V>, e: Entry<V>, red: bool)
    ensures Walk(c, Leaf) == FlatL(c) + FlatR(c)
    ensures Walk(c, Br(e.n, red, e.item, Leaf, Leaf)) == FlatL(c) + [e] + FlatR(c)
  {
  }

  /** The new record goes between everything larger and everything smaller. */
  lemma TurnInserts<V>(x: Tree<V>, c: Ctx<V>, u: Tree<V>, u0: Tree<V>, h: nat, item: Item<V>, phase: Phase)
      returns (k: nat)
    requires Stand(c, u, h, item.key, phase) && Walk(c, u) == Flat(x) && Sorted(Flat(x))
    requires if u.Br? then u0 == u else u0.Br? && u0 == Br(u0.n, true, item, Leaf, Leaf)
    ensures var c1, u1 := TurnCtx(c, u0), TurnTree(c, u0);
      && u1.Br? && u1.n == u0.n && u1.item == u0.item
      && RB(u1, k) && CtxOk(c1, k) && (TopRed(c1) ==> !IsRed(u1))
      && (u1.item.key == item.key ==> Inserted(Flat(x), Walk(c1, u1), item))
      && (u.Br? ==> Walk(c1, u1) == Flat(x))
  {
    k := TurnColours(c, u0, h, item.key);
    if u.Br? {
      FocusInWalk(c, u);
    } else {
      LeafWalk(c, Entry(u0.n, item), true);
      AttachSorts(FlatL(c), Entry(u0.n, item), FlatR(c));
    }
  }

  /** Moving the helpers down re-establishes the chain that the next phase promises. */
  lemma ChainMoves<V>(c: Ctx<V>, u: Tree<V>, h: nat, key: Key, phase: Phase,
                      t: RbNode<V>, g: RbNode?<V>, p: RbNode?<V>, q: RbNode<V>, dir: bool, last: bool, d: bool)
    requires Stand(c, u, h, key, phase) && Chain(c, t, g, p, dir, last, phase) && u.Br? && q == u.n
    requires TurnTree(c, u).Br? && TurnTree(c, u).n == q && key != u.item.key
    ensures Chain(Down(TurnCtx(c, u), TurnTree(c, u), d), if g != null then g else t, p, q, d, dir,
        NextPhase(c, u, phase))
  {
  }

  method InsertBelow<V>(head: RbNode<V>, root: RbNode<V>, item: Item<V>, ghost x: Tree<V>, ghost bh: nat)
    returns (ghost y: Tree<V>, ghost k: nat)
    requires Zip(Top(head), x, root) && RB(x, bh) && !IsRed(x) && Sorted(Flat(x))
    modifies {head} + Refs(x)
    ensures Shape(head.link.At(true), y) && Sep(y) && RB(y, k) && y.Br?
    ensures head !in Refs(y) && forall o :: o in Refs(y) ==> o in Refs(x) || fresh(o)
    ensures Inserted(Flat(x), Flat(y), item)
  {
    var t: RbNode<V>, g: RbNode?<V>, p: RbNode?<V>, q: RbNode?<V> := head, null, null, root;
    var dir, last := false, false;
    ghost var c, u, h, phase := Top(head), x, bh, Normal;
    assert Walk(c, u) == Flat(x);
    while true
      invariant Loop(head, x, item.key, t, g, p, q, dir, last, c, u, h, phase)
      decreases Rank(u, item.key, phase)
    {
      ghost var u0;
      q, u0 := Turn(head, item, t, g, p, q, dir, last, x, c, u, h, phase);
      ghost var c1, u1 := TurnCtx(c, u0), TurnTree(c, u0);
      k := TurnInserts(x, c, u, u0, h, item, phase);

      if Cmp(q.data.value.key, item.key) == 0 {
        k := PlugRB(c1, u1, k);
        y := Plug(c1, u1);
        PlugShape(c1, u1, q);
        PlugWalk(c1, u1);
        break;
      }

      ghost var last0 := last;
      last := dir;
      dir := Cmp(q.data.value.key, item.key) < 0;
      ChainMoves(c, u, h, item.key, phase, t, g, p, q, last, last0, dir);
      h := TurnKeeps(c, u, h, item.key, phase);
      phase := NextPhase(c, u, phase);
      DownZip(c1, u1, q, dir);
      DownWalk(c1, u1, dir);
      c, u := Down(c1, u1, dir), u1.Child(dir);

      if g != null {
        t := g;
      }
      g, p := p, q;
      q := q.link.At(dir);
    }
  }
}
