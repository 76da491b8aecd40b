/** What one turn of the erasing loop does to context and tree: a red node is pushed down ahead of the search. */
module RbEraseSteps {
  import opened Options
  import opened RbShape
  import opened RbRotate
  import opened RbInsertSteps

  /**
   The position is the hole below q: q is the context's lowest node (or the false root) and the loop
   goes on while the hole is not empty. Either q or the tree in the hole is red; the one exception is a
   black root q whose other child is black too.
   */
  ghost predicate Pushed<V>(c: Ctx<V>, u: Tree<V>) {
    c.Top? || c.red || IsRed(u) || (c.up.Top? && !IsRed(c.sib))
  }

  ghost predicate Place<V>(c: Ctx<V>, u: Tree<V>, h: nat) {
    RB(u, h) && CtxOk(c, h) && (TopRed(c) ==> !IsRed(u)) && Pushed(c, u)
  }

  /** Nothing found: the key can only be in the hole. Found: it sits just right of the hole, in node f. */
  ghost predicate Found<V>(c: Ctx<V>, key: Key, f: RbNode?<V>) {
    && AllAbove(FlatL(c), key)
    && if f == null then AllBelow(FlatR(c), key)
       else FlatR(c) != [] && FlatR(c)[0].n == f && FlatR(c)[0].item.key == key
  }

  // ---------- the four branches ----------

  datatype Push = Keep | Borrow | Merge | Lend

  /** Which branch the loop takes at node u.n, about to go on in direction d. */
  ghost function Branch<V>(c: Ctx<V>, u: Tree<V>, d: bool): Push
    requires u.Br?
  {
    if u.red || IsRed(u.Child(d)) then Keep
    else if IsRed(u.Child(!d)) then Borrow
    else if c.Top? || c.sib.Leaf? then Keep
    else if !IsRed(c.sib.left) && !IsRed(c.sib.right) then Merge
    else Lend
  }

  /** The tree rooted at p after the rotation of the Lend branch and the colouring that follows it. */
  ghost function LendT<V>(c: Ctx<V>, u: Tree<V>): Tree<V>
    requires c.Under? && c.sib.Br?
  {
    if IsRed(c.sib.Child(c.dir)) then DoubleT(Up(c, u), c.dir) else SingleT(Up(c, u), c.dir)
  }

  ghost function PushCtx<V>(c: Ctx<V>, u: Tree<V>, d: bool): Ctx<V>
    requires u.Br?
  {
    match Branch(c, u, d)
    case Keep => c
    case Borrow => Down(c, SingleT(u, d), d)
    case Merge => Under(c.up, c.n, false, c.item, c.dir, Paint(c.sib, true))
    case Lend =>
      var y := LendT(c, u);
      var low := y.Child(c.dir);
      Under(Under(c.up, y.n, true, y.item, c.dir, Paint(y.Child(!c.dir), false)),
            low.n, false, low.item, c.dir, low.Child(!c.dir))
  }

  ghost function PushTree<V>(c: Ctx<V>, u: Tree<V>, d: bool): Tree<V>
    requires u.Br?
  {
    match Branch(c, u, d)
    case Keep => u
    case Borrow => SingleT(u, d).Child(d)
    case _ => Paint(u, true)
  }

  lemma PushKeepsRB<V>(c: Ctx<V>, u: Tree<V>, h: nat, d: bool) returns (k: nat)
    requires u.Br? && Place(c, u, h)
    ensures var c1, u1 := PushCtx(c, u, d), PushTree(c, u, d);
      && u1.Br? && u1.n == u.n && u1.item == u.item && u1.Child(d) == u.Child(d)
      && Place(Down(c1, u1, d), u1.Child(d), k)
  {
    k := if u.red then h else h - 1;
    var c1, u1 := PushCtx(c, u, d), PushTree(c, u, d);
    match Branch(c, u, d)
    case Keep =>
      assert CtxOk(Down(c1, u1, d), k);
    case Borrow =>
      assert RB(u.Child(!d), k);
      assert CtxOk(Down(c1, u1, d), k);
    case Merge =>
      assert CtxOk(Down(c1, u1, d), k);
    case Lend =>
      LendKeepsRB(c, u, h);
      assert CtxOk(c1.up, k + 1);
      assert CtxOk(Down(c1, u1, d), k);
  }

  /** The rotation may change the whole tree's black height, but only when p is the root. */
  lemma LendKeepsRB<V>(c: Ctx<V>, u: Tree<V>, h: nat)
    requires c.Under? && c.sib.Br? && (IsRed(c.sib.left) || IsRed(c.sib.right))
    requires Place(c, u, h) && u.Br? && !u.red && !IsRed(u.left) && !IsRed(u.right)
    ensures h > 0 && RB(Paint(u, true), h - 1)
    ensures var y := LendT(c, u); var low := y.Child(c.dir);
      && low.Child(c.dir) == u && RB(low.Child(!c.dir), h - 1) && RB(Paint(y.Child(!c.dir), false), h) && CtxOk(c.up, h)
      && !TopRed(c.up)
  {
    assert !c.sib.red;
    assert RB(c.sib.Child(c.dir), h - 1) && RB(c.sib.Child(!c.dir), h - 1);
  }

  lemma PushKeepsWalk<V>(c: Ctx<V>, u: Tree<V>, d: bool)
    requires u.Br?
    ensures var c1, u1 := PushCtx(c, u, d), PushTree(c, u, d);
      && u1.Br? && u1.n == u.n && u1.item == u.item && u1.Child(d) == u.Child(d)
      && Walk(c1, u1) == Walk(c, u)
      && (d ==> FlatR(c1) == FlatR(c)) && (!d ==> FlatL(c1) == FlatL(c)) && |FlatR(c)| <= |FlatR(c1)|
  {
    var c1, u1 := PushCtx(c, u, d), PushTree(c, u, d);
    match Branch(c, u, d)
    case Keep =>
    case Borrow =>
      SingleKeeps(u, d);
      DownWalk(c, SingleT(u, d), d);
    case Merge =>
    case Lend =>
      LendKeepsSides(c, u);
      assert Flat(u1) == Flat(u);
  }

  lemma LendKeepsSides<V>(c: Ctx<V>, u: Tree<V>)
    requires c.Under? && c.sib.Br? && u.Br? && (IsRed(c.sib.left) || IsRed(c.sib.right))
    ensures var y := LendT(c, u);
      && y.Br? && y.Child(c.dir).Br? && y.Child(!c.dir).Br? && y.Child(c.dir).n == c.n && y.Child(c.dir).item == c.item
      && y.Child(c.dir).Child(c.dir) == u
      && var c1 := Under(Under(c.up, y.n, true, y.item, c.dir, Paint(y.Child(!c.dir), false)),
                         c.n, false, c.item, c.dir, y.Child(c.dir).Child(!c.dir));
      && FlatL(c1) == FlatL(c) && FlatR(c1) == FlatR(c)
  {
    var y := LendT(c, u);
    var up, s := [Entry(c.n, c.item)], c.sib;
    var w, z := Flat(y.Child(!c.dir)), Flat(y.Child(c.dir).Child(!c.dir));
    if c.dir {
      assert Flat(s) == w + [Entry(y.n, y.item)] + z;
      assert FlatL(c.up) + (w + [Entry(y.n, y.item)] + z) + up == FlatL(c.up) + w + [Entry(y.n, y.item)] + z + up;
    } else {
      assert Flat(s) == z + [Entry(y.n, y.item)] + w;
      assert up + (z + [Entry(y.n, y.item)] + w) + FlatR(c.up) == up + z + ([Entry(y.n, y.item)] + w + FlatR(c.up));
    }
  }

  lemma FoundRight<V>(c: Ctx<V>, c1: Ctx<V>, u1: Tree<V>, key: Key, f: RbNode?<V>)
    requires u1.Br? && Sorted(Walk(c1, u1)) && key < u1.item.key
    requires FlatR(c1) == FlatR(c) && Found(c, key, f)
    ensures Found(Down(c1, u1, true), key, f)
  {
    var m := |FlatL(c1)| + |Flat(u1.left)|;
    assert Walk(c1, u1)[m] == Entry(u1.n, u1.item);
    assert FlatL(Down(c1, u1, true)) == Walk(c1, u1)[..m + 1];
  }

  /** Going left after the key was found is impossible: everything in the hole is larger than the key. */
  lemma FoundLeft<V>(c: Ctx<V>, c1: Ctx<V>, u1: Tree<V>, key: Key, f: RbNode?<V>)
    requires u1.Br? && Sorted(Walk(c1, u1)) && key >= u1.item.key
    requires FlatL(c1) == FlatL(c) && |FlatR(c)| <= |FlatR(c1)| && Found(c, key, f)
    requires f != null ==> FlatR(c)[0] == Walk(c1, u1)[|Walk(c1, u1)| - |FlatR(c)|]
    ensures Found(Down(c1, u1, false), key, if key == u1.item.key then u1.n else f)
  {
    var s := Walk(c1, u1);
    var m := |FlatL(c1)| + |Flat(u1.left)|;
    assert s[m] == Entry(u1.n, u1.item);
    assert f == null;
    assert FlatR(Down(c1, u1, false)) == s[m..];
  }

  /** Where the key is, relative to the next hole. */
  lemma FoundMoves<V>(c: Ctx<V>, u: Tree<V>, key: Key, f: RbNode?<V>)
    requires u.Br? && Sorted(Walk(c, u)) && Found(c, key, f)
    ensures var d := Towards(u.item.key, key); var c1, u1 := PushCtx(c, u, d), PushTree(c, u, d);
      u1.Br? && Found(Down(c1, u1, d), key, if Cmp(u.item.key, key) == 0 then u.n else f)
  {
    var d := Towards(u.item.key, key);
    var c1, u1 := PushCtx(c, u, d), PushTree(c, u, d);
    PushKeepsWalk(c, u, d);
    if d {
      FoundRight(c, c1, u1, key, f);
    } else {
      FoundLeft(c, c1, u1, key, f);
    }
  }
}
