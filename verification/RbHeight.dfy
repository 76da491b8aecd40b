/** A red-black tree of n nodes is at most 2 * log2(n + 1) deep. */
module RbHeight {
  import opened RbShape

  ghost function Pow2(n: nat): nat {
    if n == 0 then 1 else 2 * Pow2(n - 1)
  }

  /** Nodes on the longest way down. */
  ghost function Depth<V>(t: Tree<V>): nat {
    match t
    case Leaf => 0
    case Br(_, _, _, l, r) => 1 + if Depth(l) > Depth(r) then Depth(l) else Depth(r)
  }

  lemma {:induction false} Pow2Sum(a: nat, b: nat)
    ensures Pow2(a + b) == Pow2(a) * Pow2(b)
  {
    if a > 0 {
      Pow2Sum(a - 1, b);
    }
  }

  lemma {:induction false} Pow2Mono(a: nat, b: nat)
    requires a <= b
    ensures 1 <= Pow2(a) <= Pow2(b)
  {
    if a < b {
      Pow2Mono(a, b - 1);
    } else if a > 0 {
      Pow2Mono(a - 1, a - 1);
    }
  }

  lemma {:induction false} BlackHeight<V>(t: Tree<V>, h: nat)
    requires RB(t, h)
    ensures Pow2(h) <= Size(t) + 1
    ensures Depth(t) <= 2 * h + if IsRed(t) then 1 else 0
    decreases t
  {
    if t.Br? {
      var k := if t.red then h else h - 1;
      BlackHeight(t.left, k);
      BlackHeight(t.right, k);
    }
  }

  lemma SquareMono(a: nat, b: nat)
    requires a <= b
    ensures a * a <= b * b
  {
    assert a * a <= a * b <= b * b;
  }

  lemma DepthBound<V>(t: Tree<V>, h: nat)
    requires RB(t, h) && !IsRed(t)
    ensures Pow2(Depth(t)) <= (Size(t) + 1) * (Size(t) + 1)
  {
    BlackHeight(t, h);
    Pow2Mono(Depth(t), 2 * h);
    Pow2Sum(h, h);
    SquareMono(Pow2(h), Size(t) + 1);
    assert 2 * h == h + h;
  }

  lemma {:induction false} SizeIsWalk<V>(t: Tree<V>)
    ensures Size(t) == |Flat(t)|
  {
    if t.Br? {
      SizeIsWalk(t.left);
      SizeIsWalk(t.right);
    }
  }
}
