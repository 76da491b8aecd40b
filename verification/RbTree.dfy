/** src/rbtree.c: the red-black tree its callers see. */
module RbTree {
  import opened Options
  import opened RbShape
  import opened RbContents
  import opened RbRotate
  import opened RbInsertSteps
  import opened RbInsert
  import RbErase
  import RbDelete
  import opened RbHeight

  const SIZE_MAX: nat := 0xFFFF_FFFF_FFFF_FFFF

  lemma InsertedAt<V>(before: seq<Entry<V>>, i: nat, after: seq<Entry<V>>)
    requires i <= |before| && i < |after| && after == before[..i] + [after[i]] + before[i..] && Sorted(after)
    ensures MapOf(after) == MapOf(before)[after[i].item.key := after[i].item.value]
  {
    MapOfWith(before[..i], after[i], before[i..]);
    assert before == before[..i] + before[i..];
  }

  lemma InsertedMap<V>(before: seq<Entry<V>>, after: seq<Entry<V>>, item: Item<V>)
    requires Inserted(before, after, item) && Sorted(before)
    ensures Sorted(after)
    ensures MapOf(after) == if item.key in MapOf(before) then MapOf(before) else MapOf(before)[item.key := item.value]
  {
    MapKeys(before, item.key);
    if !HasKey(before, item.key) {
      var i :| 0 <= i <= |before| && after[i].item == item && after == before[..i] + [after[i]] + before[i..];
      InsertedAt(before, i, after);
    }
  }

  lemma StillSorted<V>(before: seq<Entry<V>>, i: nat, after: seq<Entry<V>>)
    requires Sorted(before) && i < |before| && RbErase.SameItems(after, before[..i] + before[i + 1..])
    ensures Sorted(after)
  {
    assert forall j :: 0 <= j < |after| ==> after[j].item == before[if j < i then j else j + 1].item;
  }

  lemma ErasedAt<V>(before: seq<Entry<V>>, i: nat, after: seq<Entry<V>>)
    requires Sorted(before) && i < |before| && RbErase.SameItems(after, before[..i] + before[i + 1..])
    ensures MapOf(after) == MapOf(before) - {before[i].item.key}
  {
    assert before == before[..i] + [before[i]] + before[i + 1..];
    MapOfWith(before[..i], before[i], before[i + 1..]);
    MapIgnoresNodes(after, before[..i] + before[i + 1..]);
  }

  lemma ErasedMap<V>(before: seq<Entry<V>>, after: seq<Entry<V>>, key: Key)
    requires RbErase.Erased(before, after, key) && Sorted(before)
    ensures Sorted(after) && MapOf(after) == MapOf(before) - {key}
  {
    MapKeys(before, key);
    if HasKey(before, key) {
      var i :| 0 <= i < |before| && before[i].item.key == key
          && RbErase.SameItems(after, before[..i] + before[i + 1..]);
      ErasedAt(before, i, after);
      StillSorted(before, i, after);
    }
  }

  /** Every record of the map exactly once, in descending order of the keys. */
  ghost predicate Released<V>(m: map<Key, V>, released: seq<Item<V>>) {
    && |released| == |m|
    && (forall i, j :: 0 <= i < j < |released| ==> released[i].key > released[j].key)
    && (forall i :: 0 <= i < |released| ==> released[i].key in m && m[released[i].key] == released[i].value)
    && (forall key :: key in m ==> exists i :: 0 <= i < |released| && released[i].key == key)
  }

  lemma ReleasedAll<V>(walk: seq<Entry<V>>, released: seq<Item<V>>)
    requires Sorted(walk) && |released| == |walk|
    requires forall i :: 0 <= i < |walk| ==> released[i] == walk[i].item
    ensures Released(MapOf(walk), released)
  {
    MapSize(walk);
    forall i | 0 <= i < |released| ensures released[i].key in MapOf(walk)
        && MapOf(walk)[released[i].key] == released[i].value {
      MapValue(walk, i);
    }
    forall key | key in MapOf(walk) ensures exists i :: 0 <= i < |released| && released[i].key == key {
      MapKeys(walk, key);
      var i :| 0 <= i < |walk| && walk[i].item.key == key;
      assert released[i].key == key;
    }
  }

  class RbTree<V> {
    var root: RbNode?<V>
    var size: nat                 // a size_t: it wraps around
    ghost var shape: Tree<V>
    ghost var height: nat         // black height

    ghost predicate Valid()
      reads this, Refs(shape)
    {
      Sound() && size <= SIZE_MAX
    }

    /** A red-black search tree with a black root. */
    ghost predicate Sound()
      reads `root, `shape, `height, Refs(shape)
    {
      Tidy() && !IsRed(shape) && Sorted(Flat(shape))
    }

    ghost predicate Tidy()
      reads `root, `shape, `height, Refs(shape)
    {
      Shape(root, shape) && Sep(shape) && RB(shape, height)
    }

    ghost function Nodes(): set<RbNode<V>>
      reads `shape
    {
      Refs(shape)
    }

    ghost function Contents(): map<Key, V>
      reads `shape
    {
      MapOf(Flat(shape))
    }

    /** By how much the counter of jsw_rbsize overstates the number of records. */
    ghost function Excess(): int
      reads `shape, `size
    {
      size - |Contents()|
    }

    constructor ()
      ensures Valid() && Contents() == map[] && Nodes() == {} && Excess() == 0
    {
      root, size := null, 0;
      shape, height := Leaf, 0;
    }

    /** jsw_rbfind; `steps` counts the turns of its loop. */
    method Find(key: Key) returns (r: Option<V>, ghost steps: nat)
      requires Valid()
      ensures r == if key in Contents() then Some(Contents()[key]) else None
      ensures Pow2(steps) <= (|Contents()| + 1) * (|Contents()| + 1)
    {
      var it := root;
      ghost var u, a, b := shape, [], [];
      DepthOfContents();
      steps := 0;
      while it != null
        invariant Shape(it, u) && Searching(Flat(shape), a, u, b, key)
        invariant steps + Depth(u) <= Depth(shape)
        decreases u
      {
        steps := steps + 1;
        var cmp := Cmp(it.data.value.key, key);
        if cmp == 0 {
          break;
        }
        a, b := Narrow(Flat(shape), a, u, b, key);
        u := u.Child(cmp < 0);
        it := it.link.At(cmp < 0);
      }
      Pow2Mono(steps, Depth(shape));
      SearchEnds(Flat(shape), a, u, b, key);
      r := if it == null then None else Some(it.data.value.value);
    }

    lemma DepthOfContents()
      requires Valid()
      ensures Pow2(Depth(shape)) <= (|Contents()| + 1) * (|Contents()| + 1)
    {
      DepthBound(shape, height);
      SizeIsWalk(shape);
      MapSize(Flat(shape));
    }

    /** jsw_rbinsert */
    method Insert(item: Item<V>) returns (ok: int)
      requires Valid()
      modifies this, Nodes()
      ensures Valid() && (forall o :: o in Nodes() ==> o in old(Nodes()) || fresh(o)) && ok == 1
      ensures Contents() == if item.key in old(Contents()) then old(Contents())
          else old(Contents())[item.key := item.value]
      ensures old(size) < SIZE_MAX ==> Excess() == old(Excess()) + if item.key in old(Contents()) then 1 else 0
    {
      InsertRecord(item);
      size := if size == SIZE_MAX then 0 else size + 1;
      return 1;
    }

    method InsertRecord(item: Item<V>)
      requires Sound()
      modifies `root, `shape, `height, Nodes()
      ensures Sound() && (forall o :: o in Nodes() ==> o in old(Nodes()) || fresh(o))
      ensures Contents() == if item.key in old(Contents()) then old(Contents())
          else old(Contents())[item.key := item.value]
    {
      ghost var before := Flat(shape);
      if root == null {
        InsertFirst(item);
      } else {
        InsertDown(item);
      }
      InsertedMap(before, Flat(shape), item);
      Blacken();
    }

    /** The branch of jsw_rbinsert for an empty tree */
    method InsertFirst(item: Item<V>)
      requires Sound() && root == null
      modifies `root, `shape, `height
      ensures Tidy() && fresh(Nodes())
      ensures Inserted(old(Flat(shape)), Flat(shape), item)
    {
      ghost var before := Flat(shape);
      var n := new RbNode(true, Some(item));
      root, shape, height := n, Br(n, true, item, Leaf, Leaf), 0;
      assert Refs<V>(Leaf) == {} && Nodes() == {n};
      assert before == [] && Flat(shape) == [Entry(root, item)];
      assert Flat(shape)[0].item == item && Flat(shape) == before[..0] + [Flat(shape)[0]] + before[0..];
    }

    /** The branch of jsw_rbinsert for a tree that is not empty: false root, loop, new root. */
    method InsertDown(item: Item<V>)
      requires Sound() && root != null
      modifies `root, `shape, `height, Nodes()
      ensures Tidy() && (forall o :: o in Nodes() ==> o in old(Nodes()) || fresh(o))
      ensures Inserted(old(Flat(shape)), Flat(shape), item)
    {
      ghost var x := shape;
      assert allocated(Refs(x)) && Nodes() == Refs(x);
      var head := new RbNode(false, None);
      head.link := head.link.With(true, root);
      ghost var y, k := RbInsert.InsertBelow(head, root, item, x, height);
      root := head.link.At(true);
      shape, height := y, k;
    }

    /** tree->root->red = 0 */
    method Blacken()
      requires Tidy()
      modifies `shape, `height, Nodes()
      ensures Tidy() && !IsRed(shape)
      ensures Nodes() == old(Nodes()) && Flat(shape) == old(Flat(shape))
    {
      if IsRed(shape) {
        height := height + 1;
      }
      if root != null {
        root.red := false;
      }
      shape := Paint(shape, false);
    }

    /** jsw_rberase; its result does not say whether the key was there. */
    method Erase(key: Key) returns (ok: int)
      requires Valid()
      modifies this, Nodes()
      ensures Valid() && Nodes() <= old(Nodes()) && ok == 1
      ensures Contents() == old(Contents()) - {key}
      ensures old(size) > 0 ==>
                Excess() == old(Excess()) - if key in old(Contents()) || old(Contents()) == map[] then 0 else 1
    {
      if root != null {
        ghost var before := Contents();
        RootHolds();
        EraseRecord(key);
        SizeWithout(before, key);
        size := if size == 0 then SIZE_MAX else size - 1;
      }
      return 1;
    }

    /** jsw_rbsize: the number of records exactly when Excess is 0. */
    method Size() returns (n: nat)
      ensures n == |Contents()| + Excess()
    {
      n := size;
    }

    /** jsw_rbdelete: hands every record to the release function once, largest key first. */
    method Delete() returns (released: seq<Item<V>>)
      requires Sound()
      modifies Nodes()
      ensures Released(old(Contents()), released)
    {
      ghost var walk := Flat(shape);
      ghost var freed, trace;
      released, freed, trace := RbDelete.Release(root, shape);
      ReleasedAll(walk, released);
    }

    lemma RootHolds()
      requires Sound() && root != null
      ensures Contents() != map[]
    {
      MapSize(Flat(shape));
    }

    method EraseRecord(key: Key)
      requires Sound() && root != null
      modifies `root, `shape, `height, Nodes()
      ensures Sound() && Nodes() <= old(Nodes())
      ensures Contents() == old(Contents()) - {key}
    {
      ghost var before := Flat(shape);
      EraseDown(key);
      ErasedMap(before, Flat(shape), key);
      Blacken();
    }

    method EraseDown(key: Key)
      requires Sound() && root != null
      modifies `root, `shape, `height, Nodes()
      ensures Tidy() && Nodes() <= old(Nodes())
      ensures RbErase.Erased(old(Flat(shape)), Flat(shape), key)
    {
      assert allocated(Refs(shape));
      var head := new RbNode(false, None);
      head.link := head.link.With(true, root);
      ghost var y, k := RbErase.EraseBelow(head, key, shape, height);
      root := head.link.At(true);
      shape, height := y, k;
    }
  }

  lemma SizeWithout<V>(m: map<Key, V>, key: Key)
    ensures |m - {key}| == |m| - if key in m then 1 else 0
  {
    if key in m {
      assert m == (m - {key})[key := m[key]];
    } else {
      assert m - {key} == m;
    }
  }

  /** Everything outside the subtree u is known to be larger or smaller than the wanted key. */
  ghost predicate Searching<V>(s: seq<Entry<V>>, a: seq<Entry<V>>, u: Tree<V>, b: seq<Entry<V>>, key: Key) {
    s == a + Flat(u) + b && AllAbove(a, key) && AllBelow(b, key)
  }

  /** The search stops at an empty link or at the key. */
  lemma SearchEnds<V>(s: seq<Entry<V>>, a: seq<Entry<V>>, u: Tree<V>, b: seq<Entry<V>>, key: Key)
    requires Searching(s, a, u, b, key) && Sorted(s) && (u.Br? ==> u.item.key == key)
    ensures if u.Leaf? then key !in MapOf(s) else key in MapOf(s) && MapOf(s)[key] == u.item.value
  {
    MapKeys(s, key);
    if u.Leaf? {
      assert forall i :: 0 <= i < |s| ==> s[i] == if i < |a| then a[i] else b[i - |a|];
    } else {
      var m := |a| + |Flat(u.left)|;
      assert s[m] == Entry(u.n, u.item);
      MapValue(s, m);
    }
  }

  lemma NarrowRight<V>(s: seq<Entry<V>>, a: seq<Entry<V>>, l: seq<Entry<V>>, e: Entry<V>, key: Key)
    requires a + l + [e] <= s && Sorted(s) && e.item.key > key
    ensures AllAbove(a + l + [e], key)
  {
    var p := a + l + [e];
    assert p[|p| - 1] == e;
    assert forall i :: 0 <= i < |p| ==> p[i] == s[i];
  }

  lemma NarrowLeft<V>(s: seq<Entry<V>>, k: nat, p: seq<Entry<V>>, key: Key)
    requires k < |s| && p == s[k..] && Sorted(s) && p[0].item.key < key
    ensures AllBelow(p, key)
  {
    assert forall i :: 0 <= i < |p| ==> p[i] == s[k + i];
  }

  /** One turn of the search. */
  lemma Narrow<V>(s: seq<Entry<V>>, a: seq<Entry<V>>, u: Tree<V>, b: seq<Entry<V>>, key: Key)
    returns (a1: seq<Entry<V>>, b1: seq<Entry<V>>)
    requires Searching(s, a, u, b, key) && Sorted(s) && u.Br? && u.item.key != key
    ensures Searching(s, a1, u.Child(Towards(u.item.key, key)), b1, key)
  {
    a1, b1 := a, b;
    var e := Entry(u.n, u.item);
    assert s == (a + Flat(u.left) + [e]) + Flat(u.right) + b;
    if Towards(u.item.key, key) {
      a1 := a + Flat(u.left) + [e];
      NarrowRight(s, a, Flat(u.left), e, key);
    } else {
      b1 := [e] + Flat(u.right) + b;
      assert s == a + Flat(u.left) + b1;
      NarrowLeft(s, |a| + |Flat(u.left)|, b1, key);
    }
  }
}
