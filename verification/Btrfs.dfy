/** btrfs_tree_search in sageos_build/kernel/fs/btrfs.c, over a store of nodes by logical address. */
module Btrfs {

  datatype Key = Key(objectid: nat, kind: nat, offset: nat)

  /** btrfs_compare_keys */
  function Compare(a: Key, b: Key): (r: int)
  {
    if a.objectid < b.objectid then -1
    else if a.objectid > b.objectid then 1
    else if a.kind < b.kind then -1
    else if a.kind > b.kind then 1
    else if a.offset < b.offset then -1
    else if a.offset > b.offset then 1
    else 0
  }

  predicate Le(a: Key, b: Key) { Compare(a, b) <= 0 }

  /** The comparison is a total order on keys. */
  lemma CompareIsOrder(a: Key, b: Key, c: Key)
    ensures Compare(a, b) == 0 <==> a == b
    ensures Compare(a, b) == -Compare(b, a)
    ensures Le(a, b) && Le(b, c) ==> Le(a, c)
  {
  }

  /** A key as one number, the object identifier before the eight bits of the type before the 64 of the offset. */
  function Number(k: Key): (n: nat)
  {
    k.objectid * 0x100_0000_0000_0000_0000 + k.kind * 0x1_0000_0000_0000_0000 + k.offset
  }

  /** The comparison is that of the numbers. */
  lemma CompareIsNumeric(a: Key, b: Key)
    requires a.kind < 0x100 && b.kind < 0x100
    requires a.offset < 0x1_0000_0000_0000_0000 && b.offset < 0x1_0000_0000_0000_0000
    ensures Compare(a, b) < 0 <==> Number(a) < Number(b)
    ensures Compare(a, b) == 0 <==> Number(a) == Number(b)
    ensures Compare(a, b) > 0 <==> Number(a) > Number(b)
  {
  }

  datatype Ptr = Ptr(key: Key, block: nat)

  datatype Node = Leaf(keys: seq<Key>) | Inner(level: nat, ptrs: seq<Ptr>)

  type Store = map<nat, Node>

  /** The nodes under address a form a tree of the given height: every read succeeds and the level drops
      by one at each step down. */
  ghost predicate Tree(st: Store, a: nat, level: nat)
    decreases level
  {
    && a in st
    && (level == 0 ==> st[a].Leaf?)
    && (level > 0 ==> st[a].Inner? && st[a].level == level && |st[a].ptrs| > 0)
    && (level > 0 ==> forall s :: 0 <= s < |st[a].ptrs| ==> Tree(st, st[a].ptrs[s].block, level - 1))
  }

  ghost predicate Trees(st: Store, ps: seq<Ptr>, level: nat)
  {
    forall s :: 0 <= s < |ps| ==> Tree(st, ps[s].block, level)
  }

  /** Node b is the tree's own: following child pointers leads from a, at level la, to b, at level lb. */
  ghost predicate Reaches(st: Store, a: nat, la: nat, b: nat, lb: nat)
    requires Tree(st, a, la)
    decreases la
  {
    if la == 0 then a == b && lb == 0
    else
      || (a == b && la == lb)
      || exists s :: 0 <= s < |st[a].ptrs| && Reaches(st, st[a].ptrs[s].block, la - 1, b, lb)
  }

  lemma {:induction false} ReachesChild(st: Store, a: nat, la: nat, b: nat, lb: nat, slot: nat)
    requires Tree(st, a, la) && Reaches(st, a, la, b, lb) && lb > 0 && Tree(st, b, lb) && slot < |st[b].ptrs|
    ensures Reaches(st, a, la, st[b].ptrs[slot].block, lb - 1)
    decreases la
  {
    var c := st[b].ptrs[slot].block;
    if a == b && la == lb {
      assert Reaches(st, c, la - 1, c, lb - 1);
    } else {
      var s :| 0 <= s < |st[a].ptrs| && Reaches(st, st[a].ptrs[s].block, la - 1, b, lb);
      ReachesChild(st, st[a].ptrs[s].block, la - 1, b, lb, slot);
    }
  }

  /** The keys of the leaves from left to right. */
  ghost function Flatten(st: Store, a: nat, level: nat): seq<Key>
    requires Tree(st, a, level)
    decreases level, 0
  {
    if level == 0 then st[a].keys else Concat(st, st[a].ptrs, level - 1)
  }

  ghost function Concat(st: Store, ps: seq<Ptr>, level: nat): seq<Key>
    requires Trees(st, ps, level)
    decreases level, |ps| + 1
  {
    if ps == [] then []
    else Concat(st, ps[..|ps| - 1], level) + Flatten(st, ps[|ps| - 1].block, level)
  }

  ghost predicate Sorted(ks: seq<Key>)
  {
    forall i, j :: 0 <= i < j < |ks| ==> Le(ks[i], ks[j])
  }

  /** Each separator is the least key of its child. */
  ghost predicate Separated(st: Store, a: nat, level: nat)
    requires Tree(st, a, level)
    decreases level
  {
    level > 0 ==>
      forall s :: 0 <= s < |st[a].ptrs| ==>
        Bounds(st, st[a].ptrs[s], level - 1) && Separated(st, st[a].ptrs[s].block, level - 1)
  }

  ghost predicate Bounds(st: Store, p: Ptr, level: nat)
    requires Tree(st, p.block, level)
  {
    |Flatten(st, p.block, level)| > 0 && Flatten(st, p.block, level)[0] == p.key
  }

  /** Where child s starts in the concatenation. */
  lemma {:induction false} ChildAt(st: Store, ps: seq<Ptr>, level: nat, s: nat) returns (pos: nat)
    requires Trees(st, ps, level) && s < |ps|
    ensures pos + |Flatten(st, ps[s].block, level)| <= |Concat(st, ps, level)|
    ensures Concat(st, ps, level)[pos..pos + |Flatten(st, ps[s].block, level)|] == Flatten(st, ps[s].block, level)
    decreases |ps|
  {
    var n := |ps| - 1;
    var head, last := Concat(st, ps[..n], level), Flatten(st, ps[n].block, level);
    assert Concat(st, ps, level) == head + last;
    if s == n {
      pos := |head|;
    } else {
      pos := ChildAt(st, ps[..n], level, s);
      var n := |Flatten(st, ps[s].block, level)|;
      assert (head + last)[pos..pos + n] == head[pos..pos + n];
    }
  }

  /** A key of the concatenation is a key of some child. */
  lemma {:induction false} InSomeChild(st: Store, ps: seq<Ptr>, level: nat, k: Key) returns (s: nat)
    requires Trees(st, ps, level) && k in Concat(st, ps, level)
    ensures s < |ps| && k in Flatten(st, ps[s].block, level)
    decreases |ps|
  {
    var n := |ps| - 1;
    if k in Flatten(st, ps[n].block, level) {
      s := n;
    } else {
      s := InSomeChild(st, ps[..n], level, k);
    }
  }

  /** In a sorted concatenation the keys of an earlier child come before those of a later one. */
  lemma {:induction false} ChildrenOrdered(st: Store, ps: seq<Ptr>, level: nat, s: nat, u: nat, x: Key, y: Key)
    requires Trees(st, ps, level) && Sorted(Concat(st, ps, level)) && s < u < |ps|
    requires x in Flatten(st, ps[s].block, level) && y in Flatten(st, ps[u].block, level)
    ensures Le(x, y)
    decreases |ps|
  {
    var n := |ps| - 1;
    var head, last := Concat(st, ps[..n], level), Flatten(st, ps[n].block, level);
    var all := head + last;
    assert Concat(st, ps, level) == all;
    if u == n {
      var pos := ChildAt(st, ps[..n], level, s);
      var mine := Flatten(st, ps[s].block, level);
      var i :| 0 <= i < |mine| && mine[i] == x;
      var j :| 0 <= j < |last| && last[j] == y;
      assert head[pos..pos + |mine|][i] == x;
      assert all[pos + i] == x && all[|head| + j] == y;
    } else {
      SortedPrefix(head, last);
      ChildrenOrdered(st, ps[..n], level, s, u, x, y);
    }
  }

  lemma SortedPrefix(a: seq<Key>, b: seq<Key>)
    requires Sorted(a + b)
    ensures Sorted(a)
  {
    forall i, j | 0 <= i < j < |a| ensures Le(a[i], a[j]) {
      assert (a + b)[i] == a[i] && (a + b)[j] == a[j];
    }
  }

  lemma SortedSlice(ks: seq<Key>, p: nat, q: nat)
    requires Sorted(ks) && p <= q <= |ks|
    ensures Sorted(ks[p..q])
  {
    forall i, j | 0 <= i < j < q - p ensures Le(ks[p..q][i], ks[p..q][j]) {
      assert ks[p..q][i] == ks[p + i] && ks[p..q][j] == ks[p + j];
    }
  }

  lemma InChildInConcat(st: Store, ps: seq<Ptr>, level: nat, s: nat, key: Key)
    requires Trees(st, ps, level) && s < |ps| && key in Flatten(st, ps[s].block, level)
    ensures key in Concat(st, ps, level)
  {
    var mine := Flatten(st, ps[s].block, level);
    var pos := ChildAt(st, ps, level, s);
    var i :| 0 <= i < |mine| && mine[i] == key;
    assert Concat(st, ps, level)[pos..pos + |mine|][i] == key;
  }

  ghost predicate AllBounds(st: Store, ps: seq<Ptr>, level: nat)
    requires Trees(st, ps, level)
  {
    forall s :: 0 <= s < |ps| ==> Bounds(st, ps[s], level)
  }

  /** A key of an earlier child that is not below the separator of slot is that separator, so slot has it. */
  lemma EarlierChild(st: Store, ps: seq<Ptr>, level: nat, s: nat, slot: nat, key: Key)
    requires Trees(st, ps, level) && Sorted(Concat(st, ps, level)) && AllBounds(st, ps, level)
    requires s < slot < |ps| && key in Flatten(st, ps[s].block, level) && Le(ps[slot].key, key)
    ensures key in Flatten(st, ps[slot].block, level)
  {
    assert Bounds(st, ps[slot], level);
    ChildrenOrdered(st, ps, level, s, slot, key, ps[slot].key);
    CompareIsOrder(key, ps[slot].key, key);
  }

  /** The keys of later children are not below the next separator. */
  lemma LaterChild(st: Store, ps: seq<Ptr>, level: nat, s: nat, next: nat, key: Key)
    requires Trees(st, ps, level) && Sorted(Concat(st, ps, level)) && AllBounds(st, ps, level)
    requires next <= s < |ps| && key in Flatten(st, ps[s].block, level)
    ensures Le(ps[next].key, key)
  {
    assert Bounds(st, ps[next], level);
    if s > next {
      ChildrenOrdered(st, ps, level, next, s, ps[next].key, key);
    } else {
      FirstIsLeast(st, ps, level, s, key);
    }
  }

  lemma PickedChildHasIt(st: Store, ps: seq<Ptr>, level: nat, s: nat, slot: nat, key: Key)
    requires Trees(st, ps, level) && Sorted(Concat(st, ps, level)) && AllBounds(st, ps, level)
    requires s < |ps| && slot < |ps| && key in Flatten(st, ps[s].block, level)
    requires slot > 0 ==> Le(ps[slot].key, key)
    requires slot + 1 < |ps| ==> Compare(key, ps[slot + 1].key) < 0
    ensures key in Flatten(st, ps[slot].block, level)
  {
    if s < slot {
      EarlierChild(st, ps, level, s, slot, key);
    } else if s > slot {
      LaterChild(st, ps, level, s, slot + 1, key);
      CompareIsOrder(key, ps[slot + 1].key, key);
    }
  }

  /** The child that the slot loop picks is the one to look in. */
  lemma DescendFinds(st: Store, ps: seq<Ptr>, level: nat, slot: nat, key: Key)
    requires Trees(st, ps, level) && Sorted(Concat(st, ps, level)) && AllBounds(st, ps, level)
    requires slot < |ps|
    requires slot > 0 ==> Le(ps[slot].key, key)
    requires slot + 1 < |ps| ==> Compare(key, ps[slot + 1].key) < 0
    ensures key in Concat(st, ps, level) <==> key in Flatten(st, ps[slot].block, level)
  {
    if key in Flatten(st, ps[slot].block, level) {
      InChildInConcat(st, ps, level, slot, key);
    } else if key in Concat(st, ps, level) {
      var s := InSomeChild(st, ps, level, key);
      PickedChildHasIt(st, ps, level, s, slot, key);
    }
  }

  lemma FirstIsLeast(st: Store, ps: seq<Ptr>, level: nat, s: nat, key: Key)
    requires Trees(st, ps, level) && Sorted(Concat(st, ps, level)) && s < |ps| && Bounds(st, ps[s], level)
    requires key in Flatten(st, ps[s].block, level)
    ensures Le(ps[s].key, key)
  {
    var pos := ChildAt(st, ps, level, s);
    var mine := Flatten(st, ps[s].block, level);
    SortedSlice(Concat(st, ps, level), pos, pos + |mine|);
    var i :| 0 <= i < |mine| && mine[i] == key;
    if i == 0 {
      CompareIsOrder(key, key, key);
    }
  }

  datatype Result = NotFound | Found(leaf: nat, index: nat)

  /** The slot loop of an internal node. */
  method PickSlot(ps: seq<Ptr>, key: Key) returns (slot: nat)
    requires |ps| > 0
    ensures slot < |ps|
    ensures slot > 0 ==> Le(ps[slot].key, key)
    ensures slot + 1 < |ps| ==> Compare(key, ps[slot + 1].key) < 0
  {
    slot := 0;
    while slot < |ps| - 1
      invariant slot < |ps|
      invariant slot > 0 ==> Le(ps[slot].key, key)
    {
      if Compare(key, ps[slot + 1].key) < 0 {
        break;
      }
      CompareIsOrder(key, ps[slot + 1].key, key);
      slot := slot + 1;
    }
  }

  /** The item loop of a leaf: the first equal key, found before any greater one. */
  method ScanLeaf(keys: seq<Key>, key: Key) returns (found: bool, index: nat)
    requires Sorted(keys)
    ensures found <==> key in keys
    ensures found ==> index < |keys| && keys[index] == key && key !in keys[..index]
  {
    var i := 0;
    while i < |keys|
      invariant i <= |keys| && key !in keys[..i]
    {
      var cmp := Compare(key, keys[i]);
      CompareIsOrder(key, keys[i], key);
      if cmp == 0 {
        return true, i;
      }
      if cmp < 0 {
        forall j | i < j < |keys| ensures keys[j] != key {
          CompareIsOrder(key, keys[i], key);
        }
        break;
      }
      i := i + 1;
    }
    return false, 0;
  }

  lemma SliceOfSlice(all: seq<Key>, pos: nat, mid: seq<Key>, p: nat, inner: seq<Key>)
    requires pos + |mid| <= |all| && all[pos..pos + |mid|] == mid
    requires p + |inner| <= |mid| && mid[p..p + |inner|] == inner
    ensures pos + p + |inner| <= |all| && all[pos + p..pos + p + |inner|] == inner
  {
    forall i | 0 <= i < |inner| ensures all[pos + p + i] == inner[i] {
      assert mid[p..p + |inner|][i] == mid[p + i] && all[pos..pos + |mid|][p + i] == all[pos + p + i];
    }
  }

  /** The search is at node cur: the keys under cur stand at pos in `all`, and key is in one exactly when
      it is in the other. */
  ghost predicate At(st: Store, all: seq<Key>, cur: nat, level: nat, pos: nat, key: Key)
  {
    && Tree(st, cur, level) && Separated(st, cur, level) && Sorted(Flatten(st, cur, level))
    && (key in all <==> key in Flatten(st, cur, level))
    && pos + |Flatten(st, cur, level)| <= |all|
    && all[pos..pos + |Flatten(st, cur, level)|] == Flatten(st, cur, level)
  }

  lemma Descend(st: Store, all: seq<Key>, cur: nat, level: nat, pos: nat, key: Key, slot: nat) returns (pos': nat)
    requires level > 0 && At(st, all, cur, level, pos, key) && slot < |st[cur].ptrs|
    requires slot > 0 ==> Le(st[cur].ptrs[slot].key, key)
    requires slot + 1 < |st[cur].ptrs| ==> Compare(key, st[cur].ptrs[slot + 1].key) < 0
    ensures At(st, all, st[cur].ptrs[slot].block, level - 1, pos', key)
  {
    var ps := st[cur].ptrs;
    assert Trees(st, ps, level - 1) && AllBounds(st, ps, level - 1);
    DescendFinds(st, ps, level - 1, slot, key);
    pos' := DescendPlace(st, all, ps, level - 1, pos, slot);
  }

  lemma DescendPlace(st: Store, all: seq<Key>, ps: seq<Ptr>, level: nat, pos: nat, slot: nat) returns (pos': nat)
    requires Trees(st, ps, level) && Sorted(Concat(st, ps, level)) && slot < |ps|
    requires pos + |Concat(st, ps, level)| <= |all| && all[pos..pos + |Concat(st, ps, level)|] == Concat(st, ps, level)
    ensures var mine := Flatten(st, ps[slot].block, level);
      Sorted(mine) && pos' + |mine| <= |all| && all[pos'..pos' + |mine|] == mine
  {
    var p := ChildAt(st, ps, level, slot);
    var mine := Flatten(st, ps[slot].block, level);
    SortedSlice(Concat(st, ps, level), p, p + |mine|);
    SliceOfSlice(all, pos, Concat(st, ps, level), p, mine);
    pos' := pos + p;
  }

  /** btrfs_tree_search finds a key exactly when it is in the tree, and then names a leaf that child pointers
      lead to from the root, and the first index of the key there; the keys of that leaf are a run of the
      flattened tree. */
  method TreeSearch(st: Store, root: nat, key: Key, ghost height: nat) returns (r: Result, ghost pos: nat)
    requires Tree(st, root, height) && Separated(st, root, height) && Sorted(Flatten(st, root, height))
    ensures r.Found? <==> key in Flatten(st, root, height)
    ensures r.Found? ==>
      && r.leaf in st && st[r.leaf].Leaf? && Reaches(st, root, height, r.leaf, 0)
      && r.index < |st[r.leaf].keys| && st[r.leaf].keys[r.index] == key && key !in st[r.leaf].keys[..r.index]
      && pos + |st[r.leaf].keys| <= |Flatten(st, root, height)|
      && Flatten(st, root, height)[pos..pos + |st[r.leaf].keys|] == st[r.leaf].keys
  {
    var cur := root;
    ghost var level, all := height, Flatten(st, root, height);
    pos := 0;
    assert all[0..|all|] == all;
    while cur in st
      invariant At(st, all, cur, level, pos, key) && Reaches(st, root, height, cur, level)
      decreases level
    {
      match st[cur]
      case Inner(_, ps) =>
        var slot := PickSlot(ps, key);
        ReachesChild(st, root, height, cur, level, slot);
        pos := Descend(st, all, cur, level, pos, key, slot);
        cur, level := ps[slot].block, level - 1;
      case Leaf(keys) =>
        var found, index := ScanLeaf(keys, key);
        r := if found then Found(cur, index) else NotFound;
        return;
    }
    r := NotFound;
  }
}
