/** jsw_rbdelete: freeing a tree by rotating its left links away while walking it. */
module RbDelete {
  import opened Options
  import opened RbShape

  /** The shape after one rotation of the loop: the left child moves up. */
  ghost function LiftT<V>(t: Tree<V>): Tree<V>
    requires t.Br? && t.left.Br?
  {
    var s := t.left;
    Br(s.n, s.red, s.item, s.left, Br(t.n, t.red, t.item, s.right, t.right))
  }

  lemma Regroup<T>(a: seq<T>, b: seq<T>, c: seq<T>, d: seq<T>, e: seq<T>)
    ensures (a + b + c) + d + e == a + b + (c + d + e)
  {
  }

  lemma LiftKeeps<V>(t: Tree<V>)
    requires t.Br? && t.left.Br? && Sep(t)
    ensures Flat(LiftT(t)) == Flat(t) && Refs(LiftT(t)) == Refs(t) && Sep(LiftT(t)) && Size(LiftT(t)) == Size(t)
  {
    var s := t.left;
    assert Sep(s);
    Regroup(Flat(s.left), [Entry(s.n, s.item)], Flat(s.right), [Entry(t.n, t.item)], Flat(t.right));
  }

  method Lift<V>(it: RbNode<V>, save: RbNode<V>, ghost t: Tree<V>)
    requires Shape(it, t) && Sep(t) && t.left.Br? && save == t.left.n
    modifies it`link, save`link
    ensures Shape(save, LiftT(t))
  {
    assert Shape(save, t.left) && Sep(t.left);
    it.link := it.link.With(false, save.link.At(true));
    save.link := save.link.With(true, it);
  }

  /** No node occurs twice in the walk of a tree. */
  lemma {:induction false} WalkOnce<V>(t: Tree<V>)
    requires Sep(t)
    ensures forall i :: 0 <= i < |Flat(t)| ==> Flat(t)[i].n in Refs(t)
    ensures forall i, j :: 0 <= i < j < |Flat(t)| ==> Flat(t)[i].n != Flat(t)[j].n
  {
    if t.Br? {
      WalkOnce(t.left);
      WalkOnce(t.right);
      var l, m := Flat(t), |Flat(t.left)|;
      assert forall i :: 0 <= i < |l| ==>
          l[i] == if i < m then Flat(t.left)[i] else if i == m then Entry(t.n, t.item) else Flat(t.right)[i - m - 1];
    }
  }

  /** What the loop does to nodes: it reads or writes their fields, or frees them. */
  datatype Access<V> = Use(n: RbNode<V>) | Free(n: RbNode<V>)

  /** Nothing is done to a node once it has been freed, not even freeing it again. */
  ghost predicate NoUseAfterFree<V>(trace: seq<Access<V>>) {
    forall i, j :: 0 <= i < j < |trace| && trace[i].Free? ==> trace[j].n != trace[i].n
  }

  ghost function Frees<V>(trace: seq<Access<V>>): seq<RbNode<V>> {
    if trace == [] then []
    else Frees(trace[..|trace| - 1]) + if trace[|trace| - 1].Free? then [trace[|trace| - 1].n] else []
  }

  ghost function NodesOf<V>(walk: seq<Entry<V>>): seq<RbNode<V>> {
    seq(|walk|, i requires 0 <= i < |walk| => walk[i].n)
  }

  /** So far only live nodes were used, and the nodes of u are still live. */
  ghost predicate TraceOk<V>(trace: seq<Access<V>>, u: Tree<V>) {
    NoUseAfterFree(trace) && forall i :: 0 <= i < |trace| && trace[i].Free? ==> trace[i].n !in Refs(u)
  }

  lemma FreesNext<V>(trace: seq<Access<V>>, a: Access<V>)
    ensures Frees(trace + [a]) == Frees(trace) + if a.Free? then [a.n] else []
  {
    assert (trace + [a])[..|trace|] == trace;
  }

  /** The trace of one rotation. */
  lemma TraceLift<V>(trace: seq<Access<V>>, u: Tree<V>) returns (next: seq<Access<V>>)
    requires TraceOk(trace, u) && u.Br? && u.left.Br? && Sep(u)
    ensures next == trace + [Use(u.n)] + [Use(u.left.n)]
    ensures TraceOk(next, LiftT(u)) && Frees(next) == Frees(trace)
  {
    LiftKeeps(u);
    FreesNext(trace, Use(u.n));
    FreesNext(trace + [Use(u.n)], Use(u.left.n));
    next := trace + [Use(u.n)] + [Use(u.left.n)];
  }

  /** The trace of taking off the first node, and the lists it leads to. */
  lemma TraceKill<V>(trace: seq<Access<V>>, freed: seq<Entry<V>>, u: Tree<V>)
    returns (next: seq<Access<V>>, freedNow: seq<Entry<V>>)
    requires TraceOk(trace, u) && Frees(trace) == NodesOf(freed) && u.Br? && u.left.Leaf? && Sep(u)
    ensures next == trace + [Use(u.n)] + [Free(u.n)] && freedNow == freed + [Entry(u.n, u.item)]
    ensures TraceOk(next, u.right) && Frees(next) == NodesOf(freedNow)
    ensures freed + Flat(u) == freedNow + Flat(u.right)
  {
    FreesNext(trace, Use(u.n));
    FreesNext(trace + [Use(u.n)], Free(u.n));
    next, freedNow := trace + [Use(u.n)] + [Free(u.n)], freed + [Entry(u.n, u.item)];
    assert Flat(u) == [Entry(u.n, u.item)] + Flat(u.right);
    assert NodesOf(freedNow) == NodesOf(freed) + [u.n];
  }

  /**
   Frees every node with its record once, in the order of the walk; the trace of everything it does to nodes has no use
   of a freed one. Colours and order play no part.
   */
  method Release<V>(root: RbNode?<V>, ghost t: Tree<V>)
    returns (released: seq<Item<V>>, ghost freed: seq<Entry<V>>, ghost trace: seq<Access<V>>)
    requires Shape(root, t) && Sep(t)
    modifies Refs(t)
    ensures freed == Flat(t) && |released| == |freed|
    ensures forall i :: 0 <= i < |freed| ==> released[i] == freed[i].item
    ensures forall i, j :: 0 <= i < j < |freed| ==> freed[i].n != freed[j].n
    ensures NoUseAfterFree(trace) && Frees(trace) == NodesOf(freed)
  {
    var it := root;
    released, freed, trace := [], [], [];
    ghost var u := t;
    while it != null
      invariant Shape(it, u) && Sep(u) && Refs(u) <= Refs(t)
      invariant freed + Flat(u) == Flat(t) && |released| == |freed|
      invariant forall i :: 0 <= i < |freed| ==> released[i] == freed[i].item
      invariant TraceOk(trace, u) && Frees(trace) == NodesOf(freed)
      decreases Size(u), if u.Br? then Size(u.left) else 0
    {
      var save;
      if it.link.At(false) == null {
        save := it.link.At(true);
        released := released + [it.data.value];
        trace, freed := TraceKill(trace, freed, u);
        u := u.right;
      } else {
        save := it.link.At(false);
        trace := TraceLift(trace, u);
        LiftKeeps(u);
        Lift(it, save, u);
        u := LiftT(u);
      }
      it := save;
    }
    WalkOnce(t);
  }
}
