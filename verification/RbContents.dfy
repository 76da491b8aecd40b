/** The finite map a sorted walk stands for: what a caller of the tree sees. */
module RbContents {
  import opened RbShape

  ghost function MapOf<V>(s: seq<Entry<V>>): map<Key, V> {
    if s == [] then map[] else MapOf(s[1..])[s[0].item.key := s[0].item.value]
  }

  ghost predicate HasKey<V>(s: seq<Entry<V>>, key: Key) {
    exists i :: 0 <= i < |s| && s[i].item.key == key
  }

  lemma {:induction false} MapKeys<V>(s: seq<Entry<V>>, key: Key)
    ensures key in MapOf(s) <==> HasKey(s, key)
  {
    if s != [] {
      MapKeys(s[1..], key);
      if HasKey(s, key) && s[0].item.key != key {
        var i :| 0 <= i < |s| && s[i].item.key == key;
        assert s[1..][i - 1].item.key == key;
      }
      if HasKey(s[1..], key) {
        var i :| 0 <= i < |s| - 1 && s[1..][i].item.key == key;
        assert s[i + 1].item.key == key;
      }
    }
  }

  lemma {:induction false} MapOfConcat<V>(a: seq<Entry<V>>, b: seq<Entry<V>>)
    ensures MapOf(a + b) == MapOf(b) + MapOf(a)
  {
    if a == [] {
      assert a + b == b;
    } else {
      MapOfConcat(a[1..], b);
      assert (a + b)[1..] == a[1..] + b;
    }
  }

  lemma KeyOnce<V>(a: seq<Entry<V>>, e: Entry<V>, b: seq<Entry<V>>)
    requires Sorted(a + [e] + b)
    ensures !HasKey(a, e.item.key) && !HasKey(b, e.item.key)
  {
    var s := a + [e] + b;
    assert s[|a|] == e;
    assert forall i :: 0 <= i < |a| ==> a[i] == s[i];
    assert forall i :: 0 <= i < |b| ==> b[i] == s[|a| + 1 + i];
  }

  /** A walk with one more record stands for a map with one more key. */
  lemma MapOfWith<V>(a: seq<Entry<V>>, e: Entry<V>, b: seq<Entry<V>>)
    requires Sorted(a + [e] + b)
    ensures MapOf(a + [e] + b) == MapOf(a + b)[e.item.key := e.item.value]
    ensures e.item.key !in MapOf(a + b) && MapOf(a + b) == MapOf(a + [e] + b) - {e.item.key}
  {
    MapOfConcat(a, b);
    MapOfInsert(a, e, b);
    MapKeys(a, e.item.key);
    MapKeys(b, e.item.key);
    KeyOnce(a, e, b);
  }

  lemma MapOfInsert<V>(a: seq<Entry<V>>, e: Entry<V>, b: seq<Entry<V>>)
    ensures MapOf(a + [e] + b) == MapOf(b)[e.item.key := e.item.value] + MapOf(a)
  {
    assert a + [e] + b == a + ([e] + b);
    MapOfConcat(a, [e] + b);
    assert ([e] + b)[1..] == b;
  }

  lemma {:induction false} MapSize<V>(s: seq<Entry<V>>)
    requires Sorted(s)
    ensures |MapOf(s)| == |s|
  {
    if s != [] {
      MapSize(s[1..]);
      MapOfWith([], s[0], s[1..]);
      assert s == [] + [s[0]] + s[1..] && s[1..] == [] + s[1..];
    }
  }

  /** Where the map has a key, exactly that record sits in the walk. */
  lemma {:induction false} MapValue<V>(s: seq<Entry<V>>, i: nat)
    requires Sorted(s) && i < |s|
    ensures s[i].item.key in MapOf(s) && MapOf(s)[s[i].item.key] == s[i].item.value
  {
    assert s == s[..i] + [s[i]] + s[i + 1..];
    MapOfWith(s[..i], s[i], s[i + 1..]);
  }

  /** Only keys and values matter, not the nodes that carry them. */
  lemma {:induction false} MapIgnoresNodes<V>(s: seq<Entry<V>>, t: seq<Entry<V>>)
    requires |s| == |t| && forall i :: 0 <= i < |s| ==> s[i].item == t[i].item
    ensures MapOf(s) == MapOf(t)
  {
    if s != [] {
      MapIgnoresNodes(s[1..], t[1..]);
    }
  }
}
