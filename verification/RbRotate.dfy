/** The two rotations of src/rbtree.c, on node pointers and on trees. */
module RbRotate {
  import opened Options
  import opened RbShape

  /** What jsw_single does to the tree it is given; the grandchildren stay whole. */
  ghost function SingleT<V>(t: Tree<V>, dir: bool): Tree<V>
    requires t.Br? ==> t.Child(!dir).Br?
  {
    if t.Leaf? then Leaf else
      var s := t.Child(!dir);
      Mk(s.n, false, s.item, dir, Mk(t.n, true, t.item, dir, t.Child(dir), s.Child(dir)), s.Child(!dir))
  }

  ghost function DoubleT<V>(t: Tree<V>, dir: bool): Tree<V>
    requires t.Br? && t.Child(!dir).Br? && t.Child(!dir).Child(dir).Br?
  {
    SingleT(Mk(t.n, t.red, t.item, dir, t.Child(dir), SingleT(t.Child(!dir), !dir)), dir)
  }

  lemma SingleKeeps<V>(t: Tree<V>, dir: bool)
    requires t.Br? ==> t.Child(!dir).Br?
    ensures Flat(SingleT(t, dir)) == Flat(t) && Refs(SingleT(t, dir)) == Refs(t)
    ensures Size(SingleT(t, dir)) == Size(t)
    ensures Sep(t) ==> Sep(SingleT(t, dir))
  {
    if t.Br? {
      var s := t.Child(!dir);
      var e, f := [Entry(t.n, t.item)], [Entry(s.n, s.item)];
      var low := Mk(t.n, true, t.item, dir, t.Child(dir), s.Child(dir));
      assert Sep(t) ==> Sep(s) && Sep(low);
      if dir {
        assert (Flat(s.left) + f + Flat(s.right)) + e + Flat(t.right) ==
               Flat(s.left) + f + (Flat(s.right) + e + Flat(t.right));
      } else {
        assert Flat(t.left) + e + (Flat(s.left) + f + Flat(s.right)) ==
               (Flat(t.left) + e + Flat(s.left)) + f + Flat(s.right);
      }
    }
  }

  lemma DoubleKeeps<V>(t: Tree<V>, dir: bool)
    requires t.Br? && t.Child(!dir).Br? && t.Child(!dir).Child(dir).Br?
    ensures Flat(DoubleT(t, dir)) == Flat(t) && Refs(DoubleT(t, dir)) == Refs(t)
    ensures Size(DoubleT(t, dir)) == Size(t)
    ensures Sep(t) ==> Sep(DoubleT(t, dir))
  {
    SingleKeeps(t.Child(!dir), !dir);
    var u := Mk(t.n, t.red, t.item, dir, t.Child(dir), SingleT(t.Child(!dir), !dir));
    SingleKeeps(u, dir);
  }

  method Single<V>(root: RbNode?<V>, dir: bool, ghost t: Tree<V>) returns (save: RbNode?<V>)
    requires Shape(root, t) && Sep(t)
    requires t.Br? ==> t.Child(!dir).Br?
    modifies if t.Br? then {t.n, t.Child(!dir).n} else {}
    ensures Shape(save, SingleT(t, dir))
  {
    save := null;
    if root != null {
      save := root.link.At(!dir);
      assert Shape(save, t.Child(!dir)) && Sep(t.Child(!dir));

      root.link := root.link.With(!dir, save.link.At(dir));
      save.link := save.link.With(dir, root);

      root.red := true;
      save.red := false;
    }
  }

  method Double<V>(root: RbNode<V>, dir: bool, ghost t: Tree<V>) returns (save: RbNode?<V>)
    requires Shape(root, t) && Sep(t)
    requires t.Br? && t.Child(!dir).Br? && t.Child(!dir).Child(dir).Br?
    modifies t.n, t.Child(!dir).n, t.Child(!dir).Child(dir).n
    ensures Shape(save, DoubleT(t, dir))
  {
    assert allocated(Refs(t));
    SingleKeeps(t.Child(!dir), !dir);
    var inner := Single(root.link.At(!dir), !dir, t.Child(!dir));
    root.link := root.link.With(!dir, inner);
    save := Single(root, dir, Mk(t.n, t.red, t.item, dir, t.Child(dir), SingleT(t.Child(!dir), !dir)));
  }
}
