/** What one turn of the insertion loop does to context and tree, and why its trailing pointers may be stale. */
module RbInsertSteps {
  import opened Options
  import opened RbShape
  import opened RbRotate

  /**
   Where the loop of jsw_rbinsert stands.
     Normal  t, g, p, q are a genuine chain of ancestors; only here can a rotation follow.
     Quiet   the turn after a colour flip: p is red, q is black and cannot be flipped, t may be stale.
     Bump    the turn after a double rotation, which lifted q: both t and g are stale.
   */
  datatype Phase = Normal | Quiet | Bump

  /** Black, present, and not due for a colour flip. */
  ghost predicate Calm<V>(t: Tree<V>) {
    t.Br? && !t.red && !BothRed(t)
  }

  ghost predicate Brackets<V>(c: Ctx<V>, key: Key) {
    AllAbove(FlatL(c), key) && AllBelow(FlatR(c), key)
  }

  /** Colour and order facts at the top of the loop. */
  ghost predicate Stand<V>(c: Ctx<V>, t: Tree<V>, h: nat, key: Key, phase: Phase) {
    && RB(t, h) && CtxOk(c, h) && (TopRed(c) ==> !IsRed(t)) && Brackets(c, key)
    && match phase
       case Normal =>
         && (c.Top? ==> t.Br? && !IsRed(t))
         && (c.Under? ==> !(IsRed(t) && IsRed(c.sib)))
         && (TopRed(c) ==> c.up.Under? && !IsRed(c.up.sib))
       case Quiet => c.Under? && Calm(t)
       case Bump => c.Under? && IsRed(t) && key != t.item.key && Calm(t.Child(Towards(t.item.key, key)))
  }

  /** Which of the four helpers can be trusted in which phase. */
  ghost predicate Chain<V>(c: Ctx<V>, t: RbNode<V>, g: RbNode?<V>, p: RbNode?<V>, dir: bool, last: bool, phase: Phase) {
    if c.Top? then
      p == null && g == null && t == c.head
    else
      && p == c.n && dir == c.dir
      && match phase
         case Normal =>
           if c.up.Top? then g == null && t == c.up.head
           else g == c.up.n && t == c.up.up.Node() && last == c.up.dir
         case Quiet =>
           if c.up.Top? then g == null && t == c.up.head else g == c.up.n
         case Bump => g != null
  }

  /**
   Whenever the rotation branch runs, q red below a red p once a flip or an attachment is done, the four helpers are a
   genuine chain of ancestors: what an earlier rotation left stale has been put right by then.
   */
  lemma RotationFindsChain<V>(c: Ctx<V>, u: Tree<V>, h: nat, key: Key, phase: Phase,
                              t: RbNode<V>, g: RbNode?<V>, p: RbNode?<V>, dir: bool, last: bool)
    requires Stand(c, u, h, key, phase) && Chain(c, t, g, p, dir, last, phase)
    requires TopRed(c) && (u.Leaf? || BothRed(u) || IsRed(u))
    ensures phase == Normal && c.up.Under?
    ensures p == c.n && dir == c.dir && g == c.up.n && last == c.up.dir && t == c.up.up.Node() && !IsRed(c.up.sib)
  {
  }

  /** The loop's termination measure: a double rotation moves q up, but the search resumes below the old q. */
  ghost function Rank<V>(t: Tree<V>, key: Key, phase: Phase): nat {
    if phase != Bump then 3 * Size(t)
    else if t.Leaf? then 0
    else 3 * Size(t.Child(Towards(t.item.key, key))) + 1
  }

  ghost function Paint<V>(t: Tree<V>, red: bool): Tree<V> {
    if t.Leaf? then Leaf else Br(t.n, red, t.item, t.left, t.right)
  }

  ghost function FlipT<V>(t: Tree<V>): Tree<V>
    requires t.Br?
  {
    Br(t.n, true, t.item, Paint(t.left, false), Paint(t.right, false))
  }

  lemma FlipKeeps<V>(t: Tree<V>, h: nat)
    requires BothRed(t) && RB(t, h)
    ensures RB(FlipT(t), h) && Calm(FlipT(t).left) && Calm(FlipT(t).right) && !t.red
    ensures Flat(FlipT(t)) == Flat(t) && Size(FlipT(t)) == Size(t)
    ensures Refs(FlipT(t)) == Refs(t) && (Sep(t) ==> Sep(FlipT(t)))
  {
    assert Sep(t) ==> Sep(t.left) && Sep(t.right);
  }

  /** The tree rooted at the grandparent of the hole. */
  ghost function Grand<V>(c: Ctx<V>, t: Tree<V>): Tree<V>
    requires c.Under? && c.up.Under?
  {
    Up(c.up, Up(c, t))
  }

  ghost predicate Outer<V>(c: Ctx<V>)
    requires c.Under? && c.up.Under?
  {
    c.dir == c.up.dir
  }

  /** Context and focus after the rotation that cures a red q below a red p. */
  ghost function FixedCtx<V>(c: Ctx<V>, t: Tree<V>): Ctx<V>
    requires c.Under? && c.up.Under? && t.Br?
  {
    if Outer(c) then Down(c.up.up, SingleT(Grand(c, t), !c.dir), c.dir) else c.up.up
  }

  ghost function FixedTree<V>(c: Ctx<V>, t: Tree<V>): Tree<V>
    requires c.Under? && c.up.Under? && t.Br?
  {
    if Outer(c) then t else DoubleT(Grand(c, t), c.dir)
  }

  lemma FixKeepsWalk<V>(c: Ctx<V>, t: Tree<V>)
    requires c.Under? && c.up.Under? && t.Br?
    ensures Walk(FixedCtx(c, t), FixedTree(c, t)) == Walk(c, t)
  {
    UpWalk(c, t);
    UpWalk(c.up, Up(c, t));
    if Outer(c) {
      SingleKeeps(Grand(c, t), !c.dir);
      DownWalk(c.up.up, SingleT(Grand(c, t), !c.dir), c.dir);
    } else {
      DoubleKeeps(Grand(c, t), c.dir);
    }
  }

  lemma FixKeepsRB<V>(c: Ctx<V>, t: Tree<V>, h: nat)
    requires c.Under? && c.up.Under? && IsRed(t) && RB(t, h)
    requires TopRed(c) && CtxOk(c, h) && !IsRed(c.up.sib)
    ensures var k := if Outer(c) then h else h + 1;
      && RB(FixedTree(c, t), k) && CtxOk(FixedCtx(c, t), k)
      && (IsRed(FixedTree(c, t)) ==> Outer(c) && !TopRed(FixedCtx(c, t)))
  {
    assert CtxOk(c.up, h) && !c.up.red;
  }

  lemma UpBrackets<V>(c: Ctx<V>, key: Key)
    requires c.Under? && Brackets(c, key)
    ensures Brackets(c.up, key) && key != c.item.key && Towards(c.item.key, key) == c.dir
  {
    if c.dir {
      assert FlatL(c)[|FlatL(c)| - 1].item == c.item;
      assert FlatL(c.up) == FlatL(c)[..|FlatL(c.up)|];
    } else {
      assert FlatR(c)[0].item == c.item;
      assert FlatR(c.up) == FlatR(c)[|FlatR(c)| - |FlatR(c.up)|..];
    }
  }

  /** After a double rotation the wanted key lies, two steps down, in the child of q it would have gone to anyway. */
  lemma DoubleLeadsBack<V>(c: Ctx<V>, t: Tree<V>, key: Key)
    requires c.Under? && c.up.Under? && t.Br? && !Outer(c) && Brackets(c, key) && key != t.item.key
    ensures var d := Towards(t.item.key, key); var x := FixedTree(c, t);
      && x.Br? && x.n == t.n && x.item == t.item && x.Child(d).Br? && x.Child(d).red
      && key != x.Child(d).item.key
      && x.Child(d).Child(Towards(x.Child(d).item.key, key)) == t.Child(d)
  {
    UpBrackets(c, key);
    UpBrackets(c.up, key);
  }

  lemma FixKeepsBrackets<V>(c: Ctx<V>, t: Tree<V>, key: Key)
    requires c.Under? && c.up.Under? && t.Br? && Brackets(c, key)
    ensures Brackets(FixedCtx(c, t), key)
  {
    UpBrackets(c, key);
    UpBrackets(c.up, key);
    if Outer(c) {
      var f := FixedCtx(c, t);
      if c.dir {
        assert FlatL(f) == FlatL(c);
      } else {
        assert FlatR(f) == FlatR(c);
      }
    }
  }

  /** Moving the focus to the child on the search path. */
  lemma Descend<V>(c: Ctx<V>, t: Tree<V>, h: nat, key: Key)
    requires RB(t, h) && CtxOk(c, h) && (TopRed(c) ==> !IsRed(t)) && Brackets(c, key)
    requires t.Br? && key != t.item.key && Sorted(Walk(c, t))
    ensures var d := Towards(t.item.key, key); var k := if t.red then h else h - 1;
      && k >= 0 && RB(t.Child(d), k) && CtxOk(Down(c, t, d), k)
      && (TopRed(Down(c, t, d)) ==> !IsRed(t.Child(d))) && Brackets(Down(c, t, d), key)
  {
    DownBrackets(c, t, key);
  }

  ghost function NextPhase<V>(c: Ctx<V>, t: Tree<V>, phase: Phase): Phase {
    if BothRed(t) then (if TopRed(c) && c.up.Under? && !Outer(c) then Bump else Quiet)
    else if phase == Bump then Quiet
    else Normal
  }

  /** Context and focus after the flip and the rotation of one turn, before the helpers move down. */
  ghost function TurnTree<V>(c: Ctx<V>, t: Tree<V>): Tree<V>
    requires t.Br?
  {
    var u := if BothRed(t) then FlipT(t) else t;
    if IsRed(u) && TopRed(c) && c.up.Under? then FixedTree(c, u) else u
  }

  ghost function TurnCtx<V>(c: Ctx<V>, t: Tree<V>): Ctx<V>
    requires t.Br?
  {
    var u := if BothRed(t) then FlipT(t) else t;
    if IsRed(u) && TopRed(c) && c.up.Under? then FixedCtx(c, u) else c
  }

  /** The flip and the rotation of one turn repair every colour and keep the walk, also after a node was attached. */
  lemma TurnColours<V>(c: Ctx<V>, t: Tree<V>, h: nat, key: Key) returns (k: nat)
    requires t.Br? && RB(t, h) && CtxOk(c, h) && Brackets(c, key)
    requires TopRed(c) && (BothRed(t) || IsRed(t)) ==> c.up.Under? && !IsRed(c.up.sib)
    ensures var c1, t1 := TurnCtx(c, t), TurnTree(c, t);
      && t1.Br? && t1.n == t.n && t1.item == t.item
      && RB(t1, k) && CtxOk(c1, k) && (TopRed(c1) ==> !IsRed(t1)) && Brackets(c1, key)
      && Walk(c1, t1) == Walk(c, t)
  {
    k := h;
    var u := t;
    if BothRed(t) {
      FlipKeeps(t, h);
      u := FlipT(t);
    }
    if IsRed(u) && TopRed(c) {
      FixKeepsWalk(c, u);
      FixKeepsRB(c, u, h);
      FixKeepsBrackets(c, u, key);
      k := if Outer(c) then h else h + 1;
    }
  }

  /** One whole turn keeps every colour and order fact, in the phase that NextPhase announces. */
  lemma TurnKeeps<V>(c: Ctx<V>, t: Tree<V>, h: nat, key: Key, phase: Phase) returns (k: nat)
    requires Stand(c, t, h, key, phase) && Sorted(Walk(c, t)) && t.Br? && key != t.item.key
    ensures var c1, t1, d := TurnCtx(c, t), TurnTree(c, t), Towards(t.item.key, key);
      && t1.Br? && t1.n == t.n && t1.item == t.item
      && Stand(Down(c1, t1, d), t1.Child(d), k, key, NextPhase(c, t, phase))
      && Rank(t1.Child(d), key, NextPhase(c, t, phase)) < Rank(t, key, phase)
  {
    var c1, t1, d := TurnCtx(c, t), TurnTree(c, t), Towards(t.item.key, key);
    var k1 := TurnColours(c, t, h, key);
    Descend(c1, t1, k1, key);
    k := if t1.red then k1 else k1 - 1;
    if BothRed(t) {
      FlipKeeps(t, h);
      if TopRed(c) && !Outer(c) {
        DoubleLeadsBack(c, FlipT(t), key);
      }
    }
  }
}
