/** Map::InnerMap of map.h: a chaining hash table whose overfull buckets turn into trees. */
module HashTable {
  import opened HashLayout
  import opened LoadFactor
  import opened Powers
  import opened IterationOrder

  ghost predicate Shaped(L: Layout)
    requires L.Ok()
    reads L.Nodes()`next, L.Trees()`items
  {
    forall b :: 0 <= b < |L.slots| ==> (L.Covers(b); Shape(L.slots[b], L.chain[b]))
  }

  /** The buckets from i on still hang as L says. */
  ghost predicate ShapedFrom(L: Layout, i: nat)
    requires L.Ok()
    reads L.Nodes()`next, L.Trees()`items
  {
    forall b :: i <= b < |L.slots| ==> (L.Covers(b); Shape(L.slots[b], L.chain[b]))
  }

  lemma ShapedButOne(L: Layout, b: nat, M: Layout)
    requires L.Ok() && M.Ok() && |L.slots| == |M.slots| && b < |L.slots|
    requires forall c :: 0 <= c < |L.slots| && c != b ==> L.slots[c] == M.slots[c] && L.chain[c] == M.chain[c]
    requires forall c :: 0 <= c < |L.slots| && c != b ==> Shape(L.slots[c], L.chain[c])
    requires Shape(M.slots[b], M.chain[b])
    ensures Shaped(M)
  {
  }

  lemma ConvertShaped(L: Layout, b: nat, tree: Tree)
    requires L.CanConvert(b, tree.items) && L.Convert(b, tree, tree.items).Ok()
    requires Unlinked(L.chain[b]) && Unlinked(L.chain[Twin(b)])
    requires forall e :: 0 <= e < |L.slots| && e != b && e != Twin(b) ==> Shape(L.slots[e], L.chain[e])
    ensures Shaped(L.Convert(b, tree, tree.items))
  {
    L.ConvertItems(b, tree.items);
    assert Unlinked(tree.items) by {
      forall i | 0 <= i < |tree.items| ensures tree.items[i].next == null {
        var n := tree.items[i];
        var c := if n in L.chain[b] then L.chain[b] else L.chain[Twin(b)];
        var j :| 0 <= j < |c| && c[j] == n;
        assert c[j].next == null;
      }
    }
    var M := L.Convert(b, tree, tree.items);
    forall e | 0 <= e < |L.slots| ensures Shape(M.slots[e], M.chain[e]) {
      if e != b && e != Twin(b) {
        assert Shape(L.slots[e], L.chain[e]);
      }
    }
  }

  lemma ListLinks(p: Ptr, c: seq<Node>)
    requires p.ToNode? && Shape(p, c)
    ensures Linked(c)
  {
  }

  lemma OneMore(c: seq<Node>, n: nat)
    requires n < |c|
    ensures multiset(c[..n + 1]) == multiset(c[..n]) + multiset{c[n]}
  {
    assert c[..n + 1] == c[..n] + [c[n]];
  }

  lemma LinkedTail(c: seq<Node>)
    requires Linked(c) && c != []
    ensures Linked(c[1..]) && c[0].next == if c[1..] == [] then null else c[1]
  {
    forall i | 0 <= i < |c[1..]|
      ensures c[1..][i].next == if i + 1 < |c[1..]| then c[1..][i + 1] else null
    {
      assert c[1..][i] == c[i + 1];
    }
  }

  lemma LinkedCons(head: Node, rest: seq<Node>)
    requires Linked(rest) && head.next == if rest == [] then null else rest[0]
    ensures Linked([head] + rest)
  {
    var c := [head] + rest;
    forall i | 0 <= i < |c|
      ensures c[i].next == if i + 1 < |c| then c[i + 1] else null
    {
      if 0 < i {
        assert c[i] == rest[i - 1];
      }
    }
  }

  /** Leaving out a later element keeps the first. */
  lemma DropLater(c: seq<Node>, i: nat)
    requires 0 < i < |c| && NoDup(c)
    ensures Drop(c, i) == [c[0]] + Drop(c[1..], i - 1)
    ensures c[1..][i - 1] == c[i] && c[1..][0] == c[1] && NoDup(c[1..]) && c[0] !in Drop(c[1..], i - 1)
  {
    var t := c[1..];
    forall j | 0 <= j < |t|
      ensures t[j] == c[j + 1] && t[j] != c[0]
    {
    }
  }

  /** f is the least non-empty bucket, or the number of buckets if all are empty. */
  ghost predicate IsFirst(slots: seq<Ptr>, f: nat) {
    && f <= |slots|
    && (forall b :: 0 <= b < f ==> slots[b] == Null)
    && (f < |slots| ==> slots[f] != Null)
  }

  /** Filling bucket r, and nothing else below it, leaves the lesser of f and r as the first. */
  lemma FirstAfterFill(before: seq<Ptr>, after: seq<Ptr>, f: nat, r: nat)
    requires IsFirst(before, f) && r < |before| == |after| && after[r] != Null
    requires forall b :: 0 <= b < r ==> before[b] == after[b]
    requires forall b :: r <= b < |before| && before[b] != Null ==> after[b] != Null
    ensures IsFirst(after, if r < f then r else f)
  {
  }

  lemma FirstIsNotAbove(table: seq<Ptr>, f: nat, r: nat)
    requires IsFirst(table, f) && r < |table| && table[r] != Null
    ensures f <= r
  {
  }

  /** Emptying at most bucket r and the one after it keeps the first bucket, unless that was r. */
  lemma FirstAfterDrain(before: seq<Ptr>, after: seq<Ptr>, f: nat, r: nat)
    requires IsFirst(before, f) && r < |before| == |after| && before[r] != Null
    requires forall b :: 0 <= b < |before| && b != r && b != r + 1 ==> before[b] == after[b]
    requires r + 1 < |before| && before[r + 1] != after[r + 1] ==> after[r + 1] == Null && before[r] == before[r + 1]
    ensures r != f ==> IsFirst(after, f)
    ensures forall b :: 0 <= b < f ==> after[b] == Null
  {
  }

  /** i is not the second half of a tree. */
  ghost predicate StartsBucket(L: Layout, i: nat) {
    i % 2 == 1 && i < |L.slots| ==> !L.slots[i].ToTree?
  }

  lemma TreesStartEven(L: Layout, i: nat)
    requires L.Ok() && i <= |L.slots| && (0 < i ==> !L.slots[i - 1].ToTree?)
    ensures StartsBucket(L, i)
  {
    if i < |L.slots| {
      L.Kind(i);
    }
  }

  ghost function Values(index: map<Key, Node>): map<Key, Value>
    reads index.Values`value
  {
    map k | k in index :: index[k].value
  }

  lemma ValuesWithout(index: map<Key, Node>, k: Key)
    ensures Values(index - {k}) == Values(index) - {k}
  {
  }

  lemma ValuesWith(index: map<Key, Node>, k: Key, n: Node)
    ensures Values(index[k := n]) == Values(index)[k := n.value]
  {
  }

  lemma SamePosition(c: seq<Node>, i: nat, j: nat)
    requires NoDup(c) && i < |c| && j < |c| && c[i] == c[j]
    ensures i == j
  {
  }

  /** iterator_base: `node` is always right, `bucketIndex` may be stale. */
  class Iterator {
    const m: InnerMap
    var node: Node?
    var bucketIndex: nat

    constructor At(m: InnerMap, node: Node?, bucketIndex: nat)
      ensures this.m == m && this.node == node && this.bucketIndex == bucketIndex
    {
      this.m, this.node, this.bucketIndex := m, node, bucketIndex;
    }

    /** Assumes only that the node is alive. Puts the bucket right and tells list from tree. */
    method RevalidateIfNecessary() returns (isList: bool, pos: nat)
      requires m.Core() && node != null && node in m.lay.Nodes()
      modifies `bucketIndex
      ensures bucketIndex == m.lay.Home(node.key)
      ensures isList <==> !m.table[bucketIndex].ToTree?
      ensures !isList ==> pos < |m.table[bucketIndex].tree.items| && m.table[bucketIndex].tree.items[pos] == node
    {
      hide Layout.Ok, NoDup, Fold, Layout.Home, Linked, Unlinked;
      m.Opened();
      m.Alive(node);
      pos := 0;
      bucketIndex := Fold(bucketIndex, m.table.Length);
      var b := bucketIndex;
      m.KindIsTold(b);
      m.lay.Kind(b);
      if m.table[b] == ToNode(node) {
        m.lay.Present(b, 0);
        return true, 0;
      }
      if m.TableEntryIsNonEmptyList(b) {
        var found := m.InTail(b, node);
        if found {
          return true, 0;
        }
      }
      var n, h, p := m.FindHelper(node.key);
      bucketIndex, pos := h, p;
      m.KindIsTold(h);
      isList := m.TableEntryIsList(h);
    }

    /** Stops at the first element of the first bucket in use from `start` on. */
    method SearchFrom(start: nat)
      requires m.Core() && start <= m.table.Length && StartsBucket(m.lay, start)
      modifies `node, `bucketIndex
      ensures node == ElementAt(m.lay, Before(m.lay.chain, start))
      ensures bucketIndex == if node == null then m.table.Length else m.lay.Home(node.key)
    {
      hide Layout.Ok, NoDup, Fold, Layout.Home, Linked, Unlinked, ElementAt, Before, Order;
      m.Opened();
      ghost var L := m.lay;
      node := null;
      bucketIndex := start;
      while bucketIndex < m.table.Length
        invariant m.Core() && m.lay == L && node == null
        invariant start <= bucketIndex <= m.table.Length
        invariant forall d :: start <= d < bucketIndex ==> L.chain[d] == []
        invariant StartsBucket(L, bucketIndex)
      {
        var b := bucketIndex;
        m.KindIsTold(b);
        L.Kind(b);
        if m.TableEntryIsNonEmptyList(b) {
          node := m.table[b].node;
          L.Present(b, 0);
          break;
        } else if m.TableEntryIsTree(b) {
          assert Shape(m.table[b], L.chain[b]);
          node := m.table[b].tree.items[0];
          L.Present(b, 0);
          break;
        }
        TreesStartEven(L, b + 1);
        bucketIndex := bucketIndex + 1;
      }
      FirstFrom(L, start, bucketIndex);
    }

    /** iterator_base(const InnerMap*): begin(). */
    method Begin()
      requires m.TableOk()
      modifies `node, `bucketIndex
      ensures node == ElementAt(m.lay, 0)
    {
      m.Opened();
      ghost var L, f := m.lay, m.firstNonNull;
      if f < |L.slots| {
        L.Kind(f);
      }
      forall d | 0 <= d < f ensures L.chain[d] == [] {
        L.Kind(d);
      }
      SkipEmpty(L.chain, 0, f);
      SearchFrom(m.firstNonNull);
    }

    /** operator++ from the element at place p of the order; any bucketIndex will do. */
    method Advance(ghost p: nat)
      requires m.Core() && p < |Order(m.lay)| && node == Order(m.lay)[p]
      modifies `node, `bucketIndex
      ensures node == ElementAt(m.lay, p + 1)
    {
      hide Layout.Ok, NoDup, Fold, Layout.Home, Before, Order, ElementAt, Layout.ChainOk;
      m.Opened();
      ghost var L := m.lay;
      OrderAll(L);
      m.Alive(node);
      ghost var b := L.Home(node.key);
      ghost var c := L.chain[b];
      ghost var i: nat :| i < |c| && c[i] == node;
      NextPlace(L, p, i);
      L.Kind(b);
      assert Shape(L.slots[b], c);
      if node.next == null {
        var isList, pos := RevalidateIfNecessary();
        if isList {
          TreesStartEven(L, b + 1);
          SearchFrom(bucketIndex + 1);
        } else {
          m.HomeOfTreeIsEven(node.key);
          L.Chain(b);
          SamePosition(c, i, pos);
          var tree := m.table[bucketIndex].tree;
          if pos + 1 == |tree.items| {
            L.Kind(b + 1);
            BeforeStep(L.chain, b + 1);
            SearchFrom(bucketIndex + 2);
          } else {
            node := tree.items[pos + 1];
          }
        }
      } else {
        node := node.next;
      }
    }
  }

  class InnerMap {
    const mix: (Key, nat) -> nat
    var numElements: nat
    var seed: nat
    var firstNonNull: nat
    var table: array<Ptr>

    ghost var lay: Layout
    ghost var freed: set<Node>   // nodes given back by DestroyNode

    function BucketNumber(k: Key): (b: nat)
      requires 0 < table.Length
      reads `table, `seed
      ensures b < table.Length
    {
      Fold(mix(k, seed), table.Length)
    }

    /** The table is what `lay` says: every bucket, list, tree and key is in order. */
    ghost predicate Core()
      reads `lay, `table, `seed, table, lay.Nodes()`next, lay.Trees()`items
    {
      && lay.Ok()
      && lay.slots == table[..] && lay.mix == mix && lay.seed == seed
      && Shaped(lay)
    }

    ghost predicate TableOk()
      reads `lay, `table, `seed, `firstNonNull, table, lay.Nodes()`next, lay.Trees()`items
    {
      Core() && IsFirst(table[..], firstNonNull)
    }

    // internal::TableEntryIs*: the kind of a bucket is told by pointer equality alone.

    predicate TableEntryIsEmpty(b: nat)
      requires b < table.Length
      reads `table, table
    {
      table[b] == Null
    }

    predicate TableEntryIsNonEmptyList(b: nat)
      requires b < table.Length
      requires table[b] != Null ==> Twin(b) < table.Length
      reads `table, table
    {
      table[b] != Null && table[b] != table[Twin(b)]
    }

    predicate TableEntryIsTree(b: nat)
      requires b < table.Length
      requires table[b] != Null ==> Twin(b) < table.Length
      reads `table, table
    {
      !TableEntryIsEmpty(b) && !TableEntryIsNonEmptyList(b)
    }

    predicate TableEntryIsList(b: nat)
      requires b < table.Length
      requires table[b] != Null ==> Twin(b) < table.Length
      reads `table, table
    {
      !TableEntryIsTree(b)
    }

    lemma Alive(n: Node)
      requires Core() && n in lay.Nodes()
      ensures n.key in lay.index && lay.index[n.key] == n && n in lay.chain[lay.Home(n.key)]
    {
      var k :| k in lay.index && lay.index[k] == n;
      lay.Key(k);
    }

    /** Whether the list of bucket b holds `node` somewhere behind its head. */
    method InTail(b: nat, node: Node) returns (found: bool)
      requires Core() && b < table.Length && table[b].ToNode?
      ensures found ==> lay.Home(node.key) == b
    {
      lay.Kind(b);
      ghost var c, i := lay.chain[b], 0;
      assert Shape(table[b], c);
      var l := table[b].node.next;
      while l != null
        invariant i < |c| && l == if i + 1 < |c| then c[i + 1] else null
        decreases |c| - i
      {
        i := i + 1;
        if l == node {
          lay.Present(b, i);
          return true;
        }
        l := l.next;
      }
      found := false;
    }

    /** The invariant of a table between operations. */
    ghost predicate Valid()
      reads `lay, `table, `seed, `firstNonNull, `numElements, `freed, table, lay.Nodes()`next, lay.Trees()`items
    {
      && TableOk()
      && numElements == |lay.index|
      && Legal(table.Length) && LoadOk(numElements, table.Length)
      && freed !! lay.Nodes()
    }

    lemma Opened()
      requires Core()
      ensures lay.Ok() && lay.Sized() && lay.slots == table[..]
    {
    }

    /** What a valid table looks like in memory, bucket by bucket. */
    lemma Structure(b: nat)
      requires Valid() && b < table.Length
      ensures IsPow2(table.Length)
      ensures var c := if b % 2 == 0 then b + 1 else b - 1;
              table[b].ToTree? <==> c < table.Length && table[b] != Null && table[b] == table[c]
      ensures table[b].ToNode? ==>
                Linked(lay.chain[b]) && 0 < |lay.chain[b]| <= 8 && lay.chain[b][0] == table[b].node
      ensures var e := b - b % 2;
              table[b].ToTree? ==> table[b].tree.items == lay.chain[e] != [] && Unlinked(lay.chain[e])
    {
      hide Layout.Ok, NoDup, Linked, Unlinked, Fold;
      Opened();
      lay.Kind(b);
      KindIsTold(b);
      lay.Covers(b);
      assert Shape(table[b], lay.chain[b]);
      if table[b].ToTree? {
        lay.Kind(Even(b));
        lay.Covers(Even(b));
        assert Shape(table[Even(b)], lay.chain[Even(b)]);
      }
    }

    /** The cached first bucket is the least one in use, or the number of buckets if none is. */
    lemma FirstInUse(b: nat)
      requires Valid() && b < table.Length
      ensures firstNonNull <= table.Length && (firstNonNull < table.Length ==> table[firstNonNull] != Null)
      ensures table[b] != Null ==> firstNonNull <= b
    {
      hide Core;
    }

    /** Every element hangs where its key hashes to, and nowhere else. */
    lemma NodesInPlace(b: nat, i: nat, c: nat, j: nat)
      requires Valid() && b < table.Length && c < table.Length && i < |lay.chain[b]| && j < |lay.chain[c]|
      ensures var n := lay.chain[b][i];
              b == if table[BucketNumber(n.key)].ToTree? then Even(BucketNumber(n.key)) else BucketNumber(n.key)
      ensures lay.chain[b][i] == lay.chain[c][j] ==> b == c && i == j
    {
      hide Layout.Ok, Fold, NoDup;
      Opened();
      lay.Present(b, i);
      lay.Present(c, j);
      lay.Chain(b);
      BucketIsHome(lay.chain[b][i].key);
      if lay.chain[b][i] == lay.chain[c][j] {
        SamePosition(lay.chain[b], i, j);
      }
    }

    lemma BucketIsHome(k: Key)
      requires Core()
      ensures var b := BucketNumber(k); lay.Home(k) == if table[b].ToTree? then Even(b) else b
    {
    }

    lemma KindIsTold(b: nat)
      requires Core() && b < table.Length
      ensures table[b] != Null ==> Twin(b) < table.Length
      ensures TableEntryIsNonEmptyList(b) <==> table[b].ToNode?
      ensures TableEntryIsTree(b) <==> table[b].ToTree?
    {
      if table[b] != Null {
        lay.KindIsTold(b);
      }
    }

    method FindHelper(k: Key) returns (node: Node?, b: nat, pos: nat)
      requires Core()
      ensures Core()
      ensures node == if k in lay.index then lay.index[k] else null
      ensures b == lay.Home(k)
      ensures node != null && table[b].ToTree? ==> pos < |table[b].tree.items| && table[b].tree.items[pos] == node
    {
      pos := 0;
      b := BucketNumber(k);
      KindIsTold(b);
      lay.Kind(b);
      if TableEntryIsNonEmptyList(b) {
        node := FindInList(b, k);
      } else if TableEntryIsTree(b) {
        b := Even(b);
        lay.Kind(b);
        pos := table[b].tree.Find(k);
        if pos < |table[b].tree.items| {
          node := table[b].tree.items[pos];
          lay.Present(b, pos);
        } else {
          lay.Missing(k);
          node := null;
        }
      } else {
        lay.Missing(k);
        node := null;
      }
    }

    method FindInList(b: nat, k: Key) returns (node: Node?)
      requires Core() && b < table.Length && table[b].ToNode? && lay.Home(k) == b
      ensures Core()
      ensures node == if k in lay.index then lay.index[k] else null
    {
      ghost var c := lay.chain[b];
      lay.Kind(b);
      assert Linked(c);
      node := table[b].node;
      ghost var i := 0;
      while node != null
        invariant 0 <= i <= |c|
        invariant node == if i < |c| then c[i] else null
        invariant forall j :: 0 <= j < i ==> c[j].key != k
        decreases |c| - i
      {
        if node.key == k {
          lay.Present(b, i);
          return node;
        }
        node := node.next;
        i := i + 1;
      }
      lay.Missing(k);
    }

    method InsertUniqueInList(b: nat, node: Node) returns (ghost i: nat, ghost slot: Ptr)
      requires Core() && table.Length != 1
      requires b == lay.Home(node.key) && node.key !in lay.index
      requires !table[b].ToTree? && |lay.chain[b]| < K_MAX_LENGTH
      modifies this`lay, table, lay.Nodes()`next, node`next
      ensures old(lay).CanInsert(b, i, node, slot) && lay == old(lay).Insert(b, i, node, slot)
      ensures Core()
      ensures lay.index == old(lay.index)[node.key := node]
      ensures lay.Home(node.key) == b && lay.Trees() <= old(lay.Trees())
      ensures table[..] == old(table[..])[b := slot] && slot.ToNode?
    {
      hide Layout.Ok, Shape, NoDup, Fold, Layout.Home;
      lay.Kind(b);
      lay.Covers(b);
      lay.Chain(b);
      ghost var c := lay.chain[b];
      assert Shape(lay.slots[b], c);
      i := Link(b, node, c);
      slot := ToNode(if i == 0 then node else c[0]);
      assert forall d :: 0 <= d < |lay.slots| && d != b ==> Shape(lay.slots[d], lay.chain[d]) by {
        forall d | 0 <= d < |lay.slots| && d != b ensures Shape(lay.slots[d], lay.chain[d]) {
          lay.Covers(d);
          assert old(Shape(lay.slots[d], lay.chain[d]));
          assert forall n :: n in lay.chain[d] ==> n !in c && n != node;
        }
      }
      lay.InsertOk(b, i, node, slot);
      lay.InsertEffect(b, i, node, slot);
      ShapedButOne(lay, b, lay.Insert(b, i, node, slot));
      lay := lay.Insert(b, i, node, slot);
    }

    method Link(b: nat, node: Node, ghost c: seq<Node>) returns (ghost i: nat)
      requires b < table.Length && |c| <= K_MAX_LENGTH && node !in c
      requires table[b] == if c == [] then Null else ToNode(c[0])
      requires NoDup(c) && Shape(table[b], c)
      modifies table, c`next, node`next
      ensures i <= |c| && Shape(ToNode(if i == 0 then node else c[0]), Splice(c, i, node))
      ensures table[..] == old(table[..])[b := ToNode(if i == 0 then node else c[0])]
    {
      i := 0;
      var after: bool := *;   // ShouldInsertAfterHead
      if table[b] != Null && after {
        i := 1;
        var first := table[b].node;
        node.next := first.next;
        first.next := node;
      } else {
        node.next := if table[b] == Null then null else table[b].node;
        table[b] := ToNode(node);
      }
    }

    /** Tells how many nodes hang in the list of bucket b. */
    method TableEntryIsTooLong(b: nat) returns (tooLong: bool)
      requires Core() && b < table.Length && table[b].ToNode?
      ensures tooLong <==> |lay.chain[b]| == 8
    {
      lay.Kind(b);
      ghost var c := lay.chain[b];
      assert Shape(table[b], c);
      var count := 0;
      var node: Node? := table[b].node;
      while node != null
        invariant count <= |c|
        invariant node == if count < |c| then c[count] else null
        decreases |c| - count
      {
        count := count + 1;
        node := node.next;
      }
      tooLong := count >= K_MAX_LENGTH;
    }

    method InsertUniqueInTree(b: nat, node: Node) returns (i: nat)
      requires Core() && b < table.Length && table[b].ToTree?
      requires Even(b) == lay.Home(node.key) && node.key !in lay.index
      modifies this`lay, table[b].tree`items, node`next
      ensures var slot := old(lay.slots[b]);
              old(lay).CanInsert(Even(b), i, node, slot) && lay == old(lay).Insert(Even(b), i, node, slot)
      ensures Core()
      ensures lay.index == old(lay.index)[node.key := node]
      ensures lay.Home(node.key) == Even(b) && lay.Trees() <= old(lay.Trees())
      ensures table[..] == old(table[..])
    {
      hide Layout.Ok, Shape, NoDup, Fold, Layout.Home;
      lay.Kind(b);
      lay.Kind(Even(b));
      lay.Chain(Even(b));
      ghost var e, slot, c := Even(b), lay.slots[b], lay.chain[Even(b)];
      assert Shape(lay.slots[e], c);
      forall d | 0 <= d < |lay.slots| && d != e && lay.slots[d] == slot ensures lay.chain[d] == [] {
        TreesApart(e, d);
      }
      i := Hang(table[b].tree, node, c);
      assert forall d :: 0 <= d < |lay.slots| && d != e ==> Shape(lay.slots[d], lay.chain[d]) by {
        forall d | 0 <= d < |lay.slots| && d != e ensures Shape(lay.slots[d], lay.chain[d]) {
          lay.Covers(d);
          lay.Kind(d);
          assert old(Shape(lay.slots[d], lay.chain[d]));
          if lay.slots[d] == slot {
            EmptyTree(slot.tree);
          }
        }
      }
      lay.InsertOk(e, i, node, slot);
      lay.InsertEffect(e, i, node, slot);
      ShapedButOne(lay, e, lay.Insert(e, i, node, slot));
      lay := lay.Insert(e, i, node, slot);
    }

    /** Another bucket with the tree of the even bucket e can only be its empty twin. */
    lemma TreesApart(e: nat, d: nat)
      requires lay.Ok() && Shaped(lay) && e < |lay.slots| && d < |lay.slots| && d != e
      requires e % 2 == 0 && lay.slots[e].ToTree? && lay.slots[d] == lay.slots[e]
      ensures lay.chain[d] == []
    {
      lay.Kind(e);
      lay.Kind(d);
      if lay.chain[d] != [] {
        assert Shape(lay.slots[e], lay.chain[e]) && Shape(lay.slots[d], lay.chain[d]);
        lay.Present(e, 0);
        lay.Present(d, 0);
      }
    }

    lemma EmptyTree(tree: Tree)
      ensures Shape(ToTree(tree), [])
    {
    }

    method Hang(tree: Tree, node: Node, ghost c: seq<Node>) returns (i: nat)
      requires c != [] && Shape(ToTree(tree), c) && node !in c
      modifies tree`items, node`next
      ensures i <= |c| && Shape(ToTree(tree), Splice(c, i, node))
    {
      node.next := null;
      i := tree.Insert(node);
    }

    method CopyListToTree(b: nat, tree: Tree, ghost c: seq<Node>) returns (count: nat)
      requires b < table.Length && !table[b].ToTree? && NoDup(c) && Shape(table[b], c)
      requires table[b] == if c == [] then Null else ToNode(c[0])
      modifies tree`items, c`next
      ensures count == |c|
      ensures multiset(tree.items) == old(multiset(tree.items)) + multiset(c)
      ensures Unlinked(c)
    {
      hide Shape;
      if table[b] != Null {
        ListLinks(table[b], c);
      }
      count := 0;
      var node := if table[b] == Null then null else table[b].node;
      while node != null
        invariant count <= |c|
        invariant node == if count < |c| then c[count] else null
        invariant forall j {:trigger c[j].next} :: count <= j < |c| ==>
                    c[j].next == if j + 1 < |c| then c[j + 1] else null
        invariant forall j {:trigger c[j].next} :: 0 <= j < count ==> c[j].next == null
        invariant multiset(tree.items) == old(multiset(tree.items)) + multiset(c[..count])
        decreases |c| - count
      {
        var _ := tree.Insert(node);
        OneMore(c, count);
        count := count + 1;
        var next := node.next;
        node.next := null;
        node := next;
      }
      assert c[..count] == c;
    }

    method ShareTree(b: nat, t: nat, ghost c: seq<Node>, ghost d: seq<Node>) returns (tree: Tree)
      requires b < table.Length && t < table.Length && b != t
      requires !table[b].ToTree? && NoDup(c) && Shape(table[b], c)
      requires !table[t].ToTree? && NoDup(d) && Shape(table[t], d)
      requires table[b] == if c == [] then Null else ToNode(c[0])
      requires table[t] == if d == [] then Null else ToNode(d[0])
      requires forall n :: n in c ==> n !in d
      modifies table, c`next, d`next
      ensures fresh(tree) && multiset(tree.items) == multiset(c) + multiset(d)
      ensures Unlinked(c) && Unlinked(d)
      ensures table[..] == old(table[..])[b := ToTree(tree)][t := ToTree(tree)]
    {
      hide NoDup, Shape, Linked, Unlinked;
      tree := new Tree();
      forall i, j | 0 <= i < |c| && 0 <= j < |d|
        ensures c[i] != d[j]
      {
        assert c[i] in c && d[j] in d;
      }
      var count := CopyListToTree(b, tree, c);
      var count' := CopyListToTree(t, tree, d);
      table[b] := ToTree(tree);
      table[t] := ToTree(tree);
    }

    /** Both lists of a bucket pair go into one new tree; the other buckets do not notice. */
    method JoinLists(b: nat) returns (tree: Tree)
      requires Core() && b < table.Length && table[b].ToNode?
      modifies table, lay.Nodes()`next
      ensures fresh(tree) && lay.CanConvert(b, tree.items)
      ensures table[..] == old(table[..])[b := ToTree(tree)][Twin(b) := ToTree(tree)]
      ensures Unlinked(lay.chain[b]) && Unlinked(lay.chain[Twin(b)])
      ensures forall e :: 0 <= e < |lay.slots| && e != b && e != Twin(b) ==> Shape(lay.slots[e], lay.chain[e])
    {
      hide Layout.Ok, Shape, Unlinked, NoDup, Fold, Layout.Home;
      lay.Kind(b);
      var t := Twin(b);
      lay.Kind(t);
      lay.Chain(b);
      lay.Chain(t);
      lay.Covers(b);
      lay.Covers(t);
      ghost var c, d := lay.chain[b], lay.chain[t];
      assert Shape(lay.slots[b], c) && Shape(lay.slots[t], d);
      assert forall n :: n in c ==> n !in d;
      tree := ShareTree(b, t, c, d);
      NoDupUnion(c, d, tree.items);
      forall e | 0 <= e < |lay.slots| && e != b && e != t ensures Shape(lay.slots[e], lay.chain[e]) {
        lay.Covers(e);
        assert old(Shape(lay.slots[e], lay.chain[e]));
      }
    }

    method TreeConvert(b: nat) returns (tree: Tree)
      requires Core() && b < table.Length && table[b].ToNode?
      modifies this`lay, table, lay.Nodes()`next
      ensures fresh(tree) && Twin(b) < table.Length
      ensures old(lay).CanConvert(b, tree.items) && lay == old(lay).Convert(b, tree, tree.items)
      ensures Core()
      ensures lay.index == old(lay.index) && lay.Trees() <= old(lay.Trees()) + {tree}
      ensures table[..] == old(table[..])[b := ToTree(tree)][Twin(b) := ToTree(tree)]
      ensures forall k :: lay.Home(k) == if Even(old(lay).Home(k)) == Even(b) then Even(b) else old(lay).Home(k)
    {
      hide Layout.Ok, Shape, Unlinked, NoDup, Fold, Layout.Home;
      ghost var L := lay;
      L.IsSized();
      tree := JoinLists(b);
      L.ConvertOk(b, tree, tree.items);
      ConvertShaped(L, b, tree);
      L.ConvertTrees(b, tree, tree.items);
      lay := L.Convert(b, tree, tree.items);
      forall k ensures lay.Home(k) == if Even(L.Home(k)) == Even(b) then Even(b) else L.Home(k) {
        L.ConvertHome(b, tree, tree.items, k);
      }
    }

    /** A list that is too long becomes a tree first. */
    method InsertConverted(b: nat, node: Node) returns (r: nat)
      requires Core() && b < table.Length && table[b].ToNode?
      requires lay.Home(node.key) == b && node.key !in lay.index
      modifies this`lay, table, lay.Nodes()`next, node`next
      ensures Core() && lay.index == old(lay.index)[node.key := node]
      ensures r == lay.Home(node.key) == Even(b) && Twin(b) < table.Length
      ensures forall t :: t in lay.Trees() ==> t in old(lay.Trees()) || fresh(t)
      ensures table[b].ToTree? && table[Twin(b)] == table[b]
      ensures forall c :: 0 <= c < table.Length && c != b && c != Twin(b) ==> table[c] == old(table[c])
    {
      hide Layout.Ok, Shaped, Core, Layout.CanInsert, Layout.CanConvert, Layout.Insert, Layout.Convert, NoDup;
      hide Fold, Layout.Home;
      Opened();
      var tree := TreeConvert(b);
      Opened();
      var i := InsertUniqueInTree(b, node);
      r := Even(b);
    }

    /** The three cases. `stays` tells that the bucket was in use and did not become a tree. */
    method Place(b: nat, node: Node) returns (r: nat, stays: bool)
      requires Core() && table.Length != 1 && b < table.Length && node.key !in lay.index
      requires lay.Home(node.key) == if table[b].ToTree? then Even(b) else b
      modifies this`lay, table, lay.Nodes()`next, node`next, lay.Trees()`items
      ensures Core() && lay.index == old(lay.index)[node.key := node]
      ensures r == lay.Home(node.key) < table.Length && table[r] != Null && (stays ==> old(table[r]) != Null)
      ensures forall t :: t in lay.Trees() ==> t in old(lay.Trees()) || fresh(t)
      ensures table[b].ToTree? <==> old(table[b].ToTree?) || (old(table[b].ToNode?) && |old(lay.chain[b])| == 8)
      ensures forall c :: 0 <= c < table.Length && c - c % 2 != b - b % 2 ==> table[c] == old(table[c])
      ensures forall c :: 0 <= c < r ==> table[c] == old(table[c])
      ensures forall c :: r <= c < table.Length && old(table[c]) != Null ==> table[c] != Null
    {
      hide Layout.Ok, Shaped, Core, Layout.CanInsert, Layout.CanConvert, Layout.Insert, Layout.Convert, NoDup;
      hide Fold, Layout.Home;
      Opened();
      KindIsTold(b);
      lay.Kind(b);
      r, stays := b, false;
      if TableEntryIsEmpty(b) {
        ghost var i, slot := InsertUniqueInList(b, node);
      } else if TableEntryIsNonEmptyList(b) {
        var tooLong := TableEntryIsTooLong(b);
        if tooLong {
          r := InsertConverted(b, node);
        } else {
          ghost var i, slot := InsertUniqueInList(b, node);
          stays := true;
        }
      } else {
        lay.Kind(Even(b));
        var i := InsertUniqueInTree(b, node);
        r, stays := Even(b), true;
      }
    }

    method InsertUnique(b: nat, node: Node) returns (r: nat)
      requires TableOk() && table.Length != 1 && b < table.Length
      requires node.key !in lay.index
      requires lay.Home(node.key) == if table[b].ToTree? then Even(b) else b
      modifies this`lay, this`firstNonNull, table, lay.Nodes()`next, node`next, lay.Trees()`items
      ensures TableOk()
      ensures lay.index == old(lay.index)[node.key := node]
      ensures r == lay.Home(node.key)
      ensures (forall t :: t in lay.Trees() ==> t in old(lay.Trees()) || fresh(t))
      ensures table[b].ToTree? <==> old(table[b].ToTree?) || (old(table[b].ToNode?) && |old(lay.chain[b])| == 8)
      ensures forall c :: 0 <= c < table.Length && c - c % 2 != b - b % 2 ==> table[c] == old(table[c])
    {
      hide Layout.Ok, Core, Layout.Home;
      ghost var T := table[..];
      var stays;
      r, stays := Place(b, node);
      FirstAfterFill(T, table[..], firstNonNull, r);
      if stays {
        FirstIsNotAbove(T, firstNonNull, r);
      } else {
        firstNonNull := if r < firstNonNull then r else firstNonNull;
      }
    }

    /** What a transfer from an old table, described by L, relies on. */
    ghost predicate Moving(L: Layout, oldTable: array<Ptr>, i: nat, j: nat)
      reads `lay, `table, `seed, `firstNonNull, table, lay.Nodes()`next, lay.Trees()`items, oldTable
    {
      && TableOk() && table.Length != 1
      && L.Ok() && L.slots == oldTable[..] && table != oldTable
      && lay.index == L.Part(i, j)
      && lay.Trees() !! L.Trees()
    }

    /** InsertUnique for the j-th node of old bucket i. */
    method TransferNode(node: Node, ghost L: Layout, oldTable: array<Ptr>, ghost i: nat, ghost j: nat)
      requires Moving(L, oldTable, i, j)
      requires i < |L.slots| && j < |L.chain[i]| && node == L.chain[i][j]
      modifies `lay, `firstNonNull, table, lay.Nodes()`next, node`next, lay.Trees()`items
      ensures Moving(L, oldTable, i, j + 1)
      ensures lay.Nodes() <= old(lay.Nodes()) + {node}
      ensures (forall t :: t in lay.Trees() ==> t in old(lay.Trees()) || fresh(t))
    {
      hide Layout.Ok, Core, Layout.Home, Fold, Layout.Part;
      Opened();
      L.PartFresh(lay, i, j, i, j);
      L.PartStep(i, j);
      BucketIsHome(node.key);
      var r := InsertUnique(BucketNumber(node.key), node);
    }

    method TransferList(oldTable: array<Ptr>, i: nat, ghost L: Layout)
      requires Moving(L, oldTable, i, 0)
      requires i < oldTable.Length && oldTable[i].ToNode? && Shape(L.slots[i], L.chain[i])
      modifies `lay, `firstNonNull, table, lay.Nodes()`next, L.chain[i]`next, lay.Trees()`items
      ensures Moving(L, oldTable, i + 1, 0)
      ensures (forall t :: t in lay.Trees() ==> t in old(lay.Trees()) || fresh(t))
    {
      hide Layout.Ok, Core, NoDup, Layout.Home, Fold, Layout.Part, Layout.ChainOk;
      L.Kind(i);
      ghost var c := L.chain[i];
      Apart(L, oldTable, i, 0, c);
      var node: Node? := oldTable[i].node;
      ghost var j := 0;
      while node != null
        invariant j <= |c|
        invariant node == if j < |c| then c[j] else null
        invariant Moving(L, oldTable, i, j)
        invariant forall m {:trigger c[m].next} :: j <= m < |c| ==> c[m].next == if m + 1 < |c| then c[m + 1] else null
        invariant forall n :: n in lay.Nodes() ==> n in old(lay.Nodes()) || n in c[..j]
        invariant (forall t :: t in lay.Trees() ==> t in old(lay.Trees()) || fresh(t))
        decreases |c| - j
      {
        var next := node.next;
        TransferNode(node, L, oldTable, i, j);
        node := next;
        j := j + 1;
      }
      L.PartEnd(i);
    }

    /** The nodes still to come in a bucket are different from each other and not yet in the table. */
    lemma Apart(L: Layout, oldTable: array<Ptr>, i: nat, j: nat, c: seq<Node>)
      requires Moving(L, oldTable, i, j) && i < |L.slots| && c == L.chain[i] && j <= |c|
      ensures NoDup(c) && forall m :: j <= m < |c| ==> c[m] !in lay.Nodes()
    {
      L.Chain(i);
      forall m | j <= m < |c| ensures c[m] !in lay.Nodes() {
        L.PartFresh(lay, i, j, i, m);
      }
    }

    method TransferTree(oldTable: array<Ptr>, i: nat, ghost L: Layout)
      requires Moving(L, oldTable, i, 0)
      requires i < oldTable.Length && oldTable[i].ToTree? && i % 2 == 0 && Shape(L.slots[i], L.chain[i])
      modifies `lay, `firstNonNull, table, lay.Nodes()`next, L.chain[i]`next, lay.Trees()`items
      ensures i + 1 < |L.slots| && Moving(L, oldTable, i + 2, 0)
      ensures (forall t :: t in lay.Trees() ==> t in old(lay.Trees()) || fresh(t))
    {
      hide Layout.Ok, Core, NoDup, Layout.Home, Fold, Layout.Part, Layout.ChainOk;
      L.Kind(i);
      L.Kind(i + 1);
      ghost var c := L.chain[i];
      var tree := oldTable[i].tree;
      assert tree in L.Trees();
      var j := 0;
      Apart(L, oldTable, i, 0, c);
      while j < |tree.items|
        invariant j <= |c| && tree.items == c
        invariant Moving(L, oldTable, i, j)
        invariant forall n :: n in lay.Nodes() ==> n in old(lay.Nodes()) || n in c[..j]
        invariant (forall t :: t in lay.Trees() ==> t in old(lay.Trees()) || fresh(t))
      {
        TransferNode(tree.items[j], L, oldTable, i, j);
        j := j + 1;
      }
      L.PartEnd(i);
      L.PartEmptyBucket(i + 1);
    }

    /** One turn of the loop in Resize; a tree is passed with both its buckets. */
    method TransferBucket(oldTable: array<Ptr>, i: nat, ghost L: Layout) returns (next: nat)
      requires Moving(L, oldTable, i, 0) && i < oldTable.Length
      requires StartsBucket(L, i) && ShapedFrom(L, i) && lay.Nodes() <= L.Nodes()
      modifies `lay, `firstNonNull, table, L.Nodes()`next, lay.Trees()`items
      ensures i < next <= oldTable.Length && Moving(L, oldTable, next, 0)
      ensures StartsBucket(L, next) && ShapedFrom(L, next) && lay.Nodes() <= L.Nodes()
      ensures (forall t :: t in lay.Trees() ==> t in old(lay.Trees()) || fresh(t))
    {
      hide Layout.Ok, Shape, Layout.Part, Layout.Home, Fold, NoDup, Core, TableOk;
      L.Kind(i);
      L.Covers(i);
      if oldTable[i] != Null {
        L.KindIsTold(i);
      }
      forall b | i < b < |L.slots| ensures forall n :: n in L.chain[b] ==> n !in lay.Nodes() && n !in L.chain[i] {
        L.Covers(b);
        Ahead(L, oldTable, i, b);
      }
      if oldTable[i] != Null && oldTable[i] != oldTable[Twin(i)] {
        TransferList(oldTable, i, L);
        TreesStartEven(L, i + 1);
        next := i + 1;
      } else if oldTable[i] != Null {
        TransferTree(oldTable, i, L);
        next := i + 2;
      } else {
        L.PartEmptyBucket(i);
        TreesStartEven(L, i + 1);
        next := i + 1;
      }
      L.PartNodes(lay, next, 0);
      hide Moving, Layout.KindOk, Layout.Sized;
      forall b | next <= b < |L.slots| ensures (L.Covers(b); Shape(L.slots[b], L.chain[b])) {
        L.Covers(b);
        assert old(Shape(L.slots[b], L.chain[b]));
        ghost var c := L.chain[b];
        assert forall m :: 0 <= m < |c| ==> c[m] !in old(lay.Nodes()) && c[m] !in L.chain[i];
        if L.slots[b].ToTree? {
          assert L.slots[b].tree in L.Trees();
        }
      }
    }

    lemma Ahead(L: Layout, oldTable: array<Ptr>, i: nat, b: nat)
      requires Moving(L, oldTable, i, 0) && i < b < |L.slots|
      ensures forall n :: n in L.chain[b] ==> n !in lay.Nodes()
    {
      forall m | 0 <= m < |L.chain[b]| ensures L.chain[b][m] !in lay.Nodes() {
        L.PartFresh(lay, i, 0, b, m);
      }
    }

    method Resize(newNumBuckets: nat)
      requires TableOk() && 0 < newNumBuckets && newNumBuckets % 2 == 0
      modifies `table, `lay, `firstNonNull, `seed, lay.Nodes()`next
      ensures TableOk() && fresh(table) && fresh(lay.Trees())
      ensures table.Length == if old(table.Length) == 1 then K_MIN_TABLE_SIZE else newNumBuckets
      ensures lay.index == old(lay.index)
    {
      Opened();
      ghost var L := lay;
      var oldTable, start := table, firstNonNull;
      if table.Length == 1 {
        L.Kind(0);
        L.PartEmptyBucket(0);
        L.PartNone(0);
        L.PartAll();
        seed := *;   // Seed()
        StartTable(K_MIN_TABLE_SIZE);
        return;
      }
      StartTable(newNumBuckets);
      L.PartNone(start);
      TreesStartEven(L, start);
      var i := start;
      while i < oldTable.Length
        invariant i <= oldTable.Length && StartsBucket(L, i)
        invariant Moving(L, oldTable, i, 0)
        invariant fresh(table) && fresh(lay.Trees()) && lay.Nodes() <= L.Nodes()
        invariant table.Length == newNumBuckets && ShapedFrom(L, i)
      {
        i := TransferBucket(oldTable, i, L);
      }
      L.PartAll();
    }

    /** A new empty table, CreateEmptyTable and the fields that go with it. */
    method StartTable(n: nat)
      requires n == 1 || (0 < n && n % 2 == 0)
      modifies `table, `lay, `firstNonNull
      ensures TableOk() && fresh(table) && table.Length == n && lay == EmptyLayout(n, mix, seed)
      ensures firstNonNull == n && lay.Trees() == {}
    {
      table := new Ptr[n](_ => Null);
      lay := EmptyLayout(n, mix, seed);
      firstNonNull := n;
      EmptyLayoutOk(n, mix, seed);
      assert table[..] == EmptySlots(n);
    }

    lemma FirstOnce(c: seq<Node>, i: nat)
      requires i < |c| && NoDup(c) && c[0] == c[i]
      ensures i == 0 && Drop(c, i) == c[1..]
    {
    }

    method EraseFromLinkedList(item: Node, head: Node, ghost c: seq<Node>, ghost i: nat) returns (h: Node?)
      requires i < |c| && c[0] == head && c[i] == item && NoDup(c) && Linked(c)
      modifies c`next
      ensures Linked(Drop(c, i))
      ensures h == if Drop(c, i) == [] then null else Drop(c, i)[0]
      decreases |c|
    {
      hide Linked, NoDup, Drop;
      LinkedTail(c);
      if head == item {
        FirstOnce(c, i);
        h := head.next;
      } else {
        DropLater(c, i);
        var rest := EraseFromLinkedList(item, head.next, c[1..], i - 1);
        head.next := rest;
        LinkedCons(head, Drop(c[1..], i - 1));
        h := head;
      }
    }

    method EraseInList(b: nat, item: Node)
      requires Core() && b < table.Length && table[b].ToNode? && item in lay.chain[b]
      modifies `lay, table, lay.Nodes()`next
      ensures Core() && lay.index == old(lay.index) - {item.key} && lay.Trees() <= old(lay.Trees())
      ensures table[b] == Null || table[b].ToNode?
      ensures forall d :: 0 <= d < table.Length && d != b ==> table[d] == old(table[d])
    {
      hide Layout.Ok, Shape, NoDup, Fold, Layout.Home, Linked, Drop;
      lay.Kind(b);
      lay.Chain(b);
      lay.Covers(b);
      ghost var L, c := lay, lay.chain[b];
      assert Shape(lay.slots[b], c);
      ghost var i: nat :| i < |c| && c[i] == item;
      ghost var rest := Drop(c, i);
      ListShape(table[b].node, c);
      var head := EraseFromLinkedList(item, table[b].node, c, i);
      table[b] := if head == null then Null else ToNode(head);
      lay := L.Remove(b, i, table[b]);
      assert L.CanRemove(b, i, table[b]);
      L.RemoveOk(b, i, table[b]);
      L.RemoveTrees(b, i, table[b]);
      forall d | 0 <= d < |L.slots| ensures Shape(lay.slots[d], lay.chain[d]) {
        if d == b {
          RestShape(table[b], rest);
        } else {
          L.Covers(d);
          assert old(Shape(L.slots[d], L.chain[d]));
        }
      }
    }

    lemma ListShape(n: Node, c: seq<Node>)
      ensures Shape(ToNode(n), c) <==> Linked(c)
    {
    }

    lemma RestShape(p: Ptr, c: seq<Node>)
      requires !p.ToTree? && Linked(c)
      ensures Shape(p, c)
    {
    }

    method EraseInTree(b: nat, pos: nat)
      requires Core() && b < table.Length && b % 2 == 0 && table[b].ToTree? && pos < |table[b].tree.items|
      modifies `lay, table, table[b].tree`items
      ensures Core() && lay.index == old(lay.index) - {old(table[b].tree.items[pos].key)}
      ensures lay.Trees() <= old(lay.Trees())
      ensures b + 1 < table.Length && table[b + 1] == table[b] && (table[b] == Null || table[b] == old(table[b]))
      ensures forall d :: 0 <= d < table.Length && d != b && d != b + 1 ==> table[d] == old(table[d])
    {
      hide Layout.Ok, Shape, NoDup, Fold, Layout.Home, Drop;
      lay.Kind(b);
      lay.Kind(b + 1);
      lay.Chain(b);
      lay.Covers(b);
      ghost var L, c := lay, lay.chain[b];
      assert Shape(lay.slots[b], c);
      TreeShape(table[b].tree, c);
      forall d | 0 <= d < |lay.slots| && d != b && lay.slots[d] == lay.slots[b] ensures lay.chain[d] == [] {
        TreesApart(b, d);
      }
      var tree := table[b].tree;
      ghost var rest := Drop(c, pos);
      PruneTree(tree, pos, c);
      if tree.items == [] {
        table[b] := Null;
        table[b + 1] := Null;
      }
      lay := L.Remove(b, pos, table[b]);
      assert L.CanRemove(b, pos, table[b]);
      L.RemoveOk(b, pos, table[b]);
      L.RemoveTrees(b, pos, table[b]);
      assert lay.slots == table[..];
      forall d | 0 <= d < |L.slots| ensures Shape(lay.slots[d], lay.chain[d]) {
        if d == b {
          if table[b] == Null {
            EmptyShape(table[b]);
          }
        } else {
          L.Covers(d);
          assert old(Shape(L.slots[d], L.chain[d]));
          if L.slots[d] == L.slots[b] {
            EmptyTree(tree);
            EmptyShape(lay.slots[d]);
          }
        }
      }
    }

    lemma TreeShape(tree: Tree, c: seq<Node>)
      ensures c != [] ==> (Shape(ToTree(tree), c) <==> tree.items == c && Unlinked(c))
    {
    }

    lemma EmptyShape(p: Ptr)
      ensures Shape(p, [])
    {
    }

    method PruneTree(tree: Tree, pos: nat, ghost c: seq<Node>)
      requires pos < |c| && tree.items == c && Shape(ToTree(tree), c)
      modifies tree`items
      ensures tree.items == Drop(c, pos) && Shape(ToTree(tree), Drop(c, pos))
    {
      tree.Erase(pos);
    }

    /** Takes the iterator's node out of its list or tree; returns the bucket it was in. */
    method Unhook(it: Iterator) returns (b: nat)
      requires TableOk() && it.m == this && it.node != null && it.node in lay.Nodes()
      modifies it`bucketIndex, `lay, table, lay.Nodes()`next, lay.Trees()`items
      ensures Core() && lay.index == old(lay.index) - {it.node.key} && lay.Trees() <= old(lay.Trees())
      ensures firstNonNull <= table.Length && forall c :: 0 <= c < firstNonNull ==> table[c] == Null
      ensures b != firstNonNull ==> IsFirst(table[..], firstNonNull)
    {
      hide Layout.Ok, Core, NoDup, Fold, Layout.Home, Shaped;
      Opened();
      var isList, pos := it.RevalidateIfNecessary();
      b := it.bucketIndex;
      Alive(it.node);
      ghost var T := table[..];
      KindIsTold(b);
      lay.Kind(b);
      if isList {
        EraseInList(b, it.node);
      } else {
        HomeOfTreeIsEven(it.node.key);
        EraseInTree(b, pos);
      }
      FirstAfterDrain(T, table[..], firstNonNull, b);
    }

    lemma WithoutKey(L: Layout, n: Node)
      requires L.Ok() && n in L.Nodes()
      ensures |L.index - {n.key}| == |L.index| - 1
      ensures n !in (L.index - {n.key}).Values && (L.index - {n.key}).Values <= L.Nodes()
    {
      var r := L.index - {n.key};
      var k :| k in L.index && L.index[k] == n;
      L.Key(k);
      assert r.Keys == L.index.Keys - {n.key};
      forall j | j in r ensures r[j] != n && r[j] in L.Nodes() {
        L.Key(j);
        assert L.index[j] == r[j];
      }
    }

    method Erase(it: Iterator)
      requires Valid() && it.m == this && it.node != null && it.node in lay.Nodes()
      modifies it`bucketIndex, `lay, `firstNonNull, `numElements, `freed, table, lay.Nodes()`next, lay.Trees()`items
      ensures Valid() && lay.index == old(lay.index) - {it.node.key}
      ensures freed == old(freed) + {it.node}
      ensures lay.Trees() <= old(lay.Trees())
    {
      hide Core, Legal, Layout.Ok, Layout.KeyOk, IsFirst;
      var item := it.node;
      Opened();
      WithoutKey(lay, item);
      var b := Unhook(it);
      assert item !in freed;   // DestroyNode, once
      freed := freed + {item};
      numElements := numElements - 1;
      if b == firstNonNull {
        AdvanceFirst();
      }
    }

    /** Moves the cached bucket up to the first one in use. */
    method AdvanceFirst()
      requires Core() && firstNonNull <= table.Length
      requires forall b :: 0 <= b < firstNonNull ==> table[b] == Null
      modifies `firstNonNull
      ensures TableOk()
    {
      hide Core;
      while firstNonNull < table.Length && table[firstNonNull] == Null
        invariant Core() && firstNonNull <= table.Length
        invariant forall b :: 0 <= b < firstNonNull ==> table[b] == Null
      {
        firstNonNull := firstNonNull + 1;
      }
    }

    lemma HomeOfTreeIsEven(k: Key)
      requires Core()
      ensures table[lay.Home(k)].ToTree? ==> lay.Home(k) % 2 == 0
    {
    }

    /** How far to shift a sparse table down. Neither the cutoffs nor the shifted value leave 64 bits. */
    method ReductionFactor(newSize: nat, hiCutoff: nat) returns (j: nat)
      requires Core() && table.Length <= MAX_SIZE && hiCutoff == HiCutoff(table.Length) && newSize <= hiCutoff / 4
      ensures Core() && ShrinkStops(newSize, table.Length, j)
    {
      hide Core;
      var hypothetical := newSize * 5 / 4 + 1;
      j := 1;
      while hypothetical * Pow2(j) < hiCutoff
        invariant Core() && 1 <= j
        invariant 1 < j ==> hypothetical * Pow2(j - 1) < hiCutoff
        invariant hypothetical * Pow2(j) < TWO64
        decreases hiCutoff - j
      {
        ShiftOneMore(hypothetical, hiCutoff, j);
        j := j + 1;
      }
    }

    method ResizeIfLoadIsOutOfRange(newSize: nat) returns (resized: bool)
      requires TableOk() && Legal(table.Length) && 0 < newSize && LoadOk(newSize - 1, table.Length)
      modifies `table, `lay, `firstNonNull, `seed, lay.Nodes()`next
      ensures TableOk() && lay.index == old(lay.index)
      ensures forall t :: t in lay.Trees() ==> t in old(lay.Trees()) || fresh(t)
      ensures Target(newSize, old(table.Length), table.Length)
      ensures 1 < table.Length && Legal(table.Length) && LoadOk(newSize, table.Length)
      ensures table.Length <= 8 || 3 * table.Length < 16 * newSize
      ensures if resized then fresh(table) else table == old(table) && lay == old(lay)
    {
      hide Core, Legal, LoadOk, Layout.Ok, ShrinkStops, ShiftRight, IsFirst;
      var n := table.Length;
      LegalSize(n);
      assert n * 12 < TWO64;
      var hiCutoff := n * 12 / 16;
      var loCutoff := hiCutoff / 4;
      resized := false;
      if newSize >= hiCutoff {
        if n <= MAX_SIZE / 2 {
          Resize(n * 2);
          resized := true;
        }
      } else if newSize <= loCutoff && n > K_MIN_TABLE_SIZE {
        var j := ReductionFactor(newSize, hiCutoff);
        var newNumBuckets := Max(K_MIN_TABLE_SIZE, ShiftRight(n, j));
        ShrinkOk(newSize, n, j);
        LegalSize(newNumBuckets);
        if newNumBuckets != n {
          Resize(newNumBuckets);
          resized := true;
        }
      }
      TargetOk(newSize, n, table.Length);
      NotTooSparse(newSize, n, table.Length);
    }

    /** The map from keys to values that the table stands for. */
    ghost function Contents(): map<Key, Value>
      reads `lay, lay.Nodes()`value
    {
      Values(lay.index)
    }

    /** The global empty table. */
    constructor (mix: (Key, nat) -> nat)
      ensures Valid() && lay.index == map[] && freed == {} && fresh(table) && lay.Trees() == {}
    {
      this.mix := mix;
      numElements, seed, firstNonNull := 0, 0, 1;
      table := new Ptr[1](_ => Null);
      lay := EmptyLayout(1, mix, 0);
      freed := {};
      new;
      EmptyLayoutOk(1, mix, 0);
      assert table[..] == EmptySlots(1);
      assert Pow2(0) == 1;
    }

    method CreateNode(k: Key, v: Value) returns (node: Node)
      requires TableOk()
      ensures TableOk() && fresh(node) && node.key == k && node.value == v
    {
      node := new Node(k, v);
      assert forall b :: 0 <= b < |lay.slots| ==> Shape(lay.slots[b], lay.chain[b]) by {
        forall b | 0 <= b < |lay.slots| ensures Shape(lay.slots[b], lay.chain[b]) {
          assert old(Shape(lay.slots[b], lay.chain[b]));
        }
      }
    }

    method IteratorAt(node: Node?, b: nat) returns (it: Iterator)
      requires Valid()
      ensures Valid() && fresh(it) && it.m == this && it.node == node && it.bucketIndex == b
    {
      it := new Iterator.At(this, node, b);
      assert forall b :: 0 <= b < |lay.slots| ==> Shape(lay.slots[b], lay.chain[b]) by {
        forall b | 0 <= b < |lay.slots| ensures Shape(lay.slots[b], lay.chain[b]) {
          assert old(Shape(lay.slots[b], lay.chain[b]));
        }
      }
    }

    /** Puts a new node for an absent key into its bucket. */
    method EmplaceNew(k: Key, v: Value, b: nat) returns (node: Node, r: nat)
      requires TableOk() && table.Length != 1 && k !in lay.index && b == lay.Home(k)
      modifies `lay, `firstNonNull, table, lay.Nodes()`next, lay.Trees()`items
      ensures TableOk() && lay.index == old(lay.index)[k := node] && r == lay.Home(k)
      ensures fresh(node) && node.key == k && node.value == v
      ensures (forall t :: t in lay.Trees() ==> t in old(lay.Trees()) || fresh(t))
    {
      hide Core, Layout.Ok, IsFirst, Layout.Home, Fold;
      Opened();
      HomeOfTreeIsEven(k);
      node := CreateNode(k, v);
      r := InsertUnique(b, node);
    }

    /** Case 2 of TryEmplaceInternal: make room, look the bucket up again if it moved, insert. */
    method InsertAbsent(k: Key, v: Value, found: nat) returns (node: Node, b: nat)
      requires Valid() && k !in lay.index && found == lay.Home(k)
      modifies `table, `lay, `firstNonNull, `seed, `numElements, table, lay.Nodes()`next, lay.Trees()`items
      ensures Valid() && lay.index == old(lay.index)[k := node] && b == lay.Home(k)
      ensures fresh(node) && node.key == k && node.value == v
      ensures forall t :: t in lay.Trees() ==> t in old(lay.Trees()) || fresh(t)
      ensures table == old(table) || fresh(table)
      ensures Target(numElements, old(table.Length), table.Length)
      ensures table.Length <= 8 || 3 * table.Length < 16 * numElements
    {
      hide Core, Legal, LoadOk, Layout.Ok, IsFirst, Layout.Home, Fold, Target, Layout.Trees;
      b := found;
      var resized := ResizeIfLoadIsOutOfRange(numElements + 1);
      if resized {
        var n, pos;
        n, b, pos := FindHelper(k);
      }
      node, b := EmplaceNew(k, v, b);
      numElements := numElements + 1;
    }

    method TryEmplaceInternal(k: Key, v: Value) returns (node: Node, b: nat, inserted: bool)
      requires Valid()
      modifies `table, `lay, `firstNonNull, `seed, `numElements, table, lay.Nodes()`next, lay.Trees()`items
      ensures Valid() && inserted == (k !in old(lay.index))
      ensures lay.index == if inserted then old(lay.index)[k := node] else old(lay.index)
      ensures node == lay.index[k] && (inserted ==> fresh(node) && node.key == k && node.value == v)
      ensures b == lay.Home(k)
      ensures forall t :: t in lay.Trees() ==> t in old(lay.Trees()) || fresh(t)
      ensures table == old(table) || fresh(table)
      ensures if inserted then
                && Target(|lay.index|, old(table.Length), table.Length)
                && (table.Length <= 8 || 3 * table.Length < 16 * |lay.index|)
              else table == old(table) && lay == old(lay)
    {
      hide Core, Legal, LoadOk, Layout.Ok, IsFirst, Layout.Home, Fold, Target;
      var found, b', pos := FindHelper(k);
      b := b';
      inserted := found == null;
      if inserted {
        node, b := InsertAbsent(k, v, b);
      } else {
        node := found;
      }
    }

    /** A state in the middle of clear(): the buckets below b are empty and their nodes given back. */
    ghost predicate Clearing(L: Layout, before: set<Node>, b: nat)
      reads `table, `freed, table, L.Nodes()`next, L.Trees()`items
    {
      && L.Ok() && b <= table.Length == |L.slots|
      && (forall d :: 0 <= d < b ==> table[d] == Null)
      && (forall d :: b <= d < |L.slots| ==> table[d] == L.slots[d])
      && StartsBucket(L, b) && ShapedFrom(L, b)
      && before !! L.Nodes() && freed == before + L.Part(b, 0).Values
    }

    /** Destroys a list, reading each link before its node goes. */
    method ClearList(b: nat, ghost L: Layout, ghost before: set<Node>)
      requires Clearing(L, before, b) && b < table.Length && table[b].ToNode?
      modifies `freed, table
      ensures Clearing(L, before, b + 1)
    {
      hide Layout.Ok, NoDup, Layout.Home, Fold, Layout.Part;
      L.Kind(b);
      L.Covers(b);
      ghost var c := L.chain[b];
      assert Shape(L.slots[b], c);
      var node: Node? := table[b].node;
      table[b] := Null;
      ghost var j := 0;
      while node != null
        invariant j <= |c| && node == if j < |c| then c[j] else null
        invariant freed == before + L.Part(b, j).Values
        invariant table[b] == Null && (forall d :: 0 <= d < table.Length && d != b ==> table[d] == old(table[d]))
        decreases |c| - j
      {
        var next := node.next;
        L.PartAdds(b, j);
        assert node !in freed;   // DestroyNode, once
        freed := freed + {node};
        node := next;
        j := j + 1;
      }
      L.PartEnd(b);
      TreesStartEven(L, b + 1);
    }

    /** Takes a tree apart node by node. */
    method DestroyTree(tree: Tree, ghost L: Layout, ghost before: set<Node>, ghost b: nat)
      requires L.Ok() && b < |L.slots| && tree.items == L.chain[b]
      requires before !! L.Nodes() && freed == before + L.Part(b, 0).Values
      modifies `freed, tree`items
      ensures tree.items == [] && freed == before + L.Part(b, |L.chain[b]|).Values
    {
      hide Layout.Ok, Layout.Part;
      L.IsSized();
      ghost var c, j := L.chain[b], 0;
      while tree.items != []
        invariant j <= |c| && tree.items == c[j..]
        invariant freed == before + L.Part(b, j).Values
        decreases |c| - j
      {
        var node := tree.items[0];
        tree.Erase(0);
        L.PartAdds(b, j);
        assert node !in freed;   // DestroyNode, once
        freed := freed + {node};
        j := j + 1;
      }
    }

    method ClearTree(b: nat, ghost L: Layout, ghost before: set<Node>)
      requires Clearing(L, before, b) && b < table.Length && table[b].ToTree?
      modifies `freed, table, table[b].tree`items
      ensures b + 2 <= table.Length && Clearing(L, before, b + 2)
    {
      hide Layout.Ok, NoDup, Layout.Home, Fold, Layout.Part, Shape;
      L.Kind(b);
      L.Kind(b + 1);
      ghost var c := L.chain[b];
      var tree := table[b].tree;
      assert Shape(L.slots[b], c);
      TreeShape(tree, c);
      forall d | b + 2 <= d < |L.slots| && L.slots[d] == L.slots[b] ensures L.chain[d] == [] {
        AheadTreesApart(L, b, d);
      }
      table[b] := Null;
      table[b + 1] := Null;
      DestroyTree(tree, L, before, b);
      L.PartEnd(b);
      L.PartEmptyBucket(b + 1);
      forall d | b + 2 <= d < |L.slots| ensures (L.Covers(d); Shape(L.slots[d], L.chain[d])) {
        L.Covers(d);
        assert old(Shape(L.slots[d], L.chain[d]));
        if L.slots[d] == L.slots[b] {
          EmptyTree(tree);
        }
      }
    }

    lemma AheadTreesApart(L: Layout, e: nat, d: nat)
      requires L.Ok() && ShapedFrom(L, e) && e < d < |L.slots|
      requires L.slots[e].ToTree? && L.chain[e] != [] && L.slots[d] == L.slots[e]
      ensures L.chain[d] == []
    {
      if L.chain[d] != [] {
        assert Shape(L.slots[e], L.chain[e]) && Shape(L.slots[d], L.chain[d]);
        L.Present(e, 0);
        L.Present(d, 0);
      }
    }

    /** One turn of the loop in clear(); a tree is passed with both its buckets. */
    method ClearBucket(b: nat, ghost L: Layout, ghost before: set<Node>) returns (next: nat)
      requires Clearing(L, before, b) && b < table.Length
      modifies `freed, table, L.Trees()`items
      ensures b < next <= table.Length && Clearing(L, before, next)
    {
      hide Layout.Ok, Layout.Home, Fold, Layout.Part, NoDup, Shape;
      L.Kind(b);
      if table[b] != Null {
        L.KindIsTold(b);
      }
      if table[b] != Null && TableEntryIsNonEmptyList(b) {
        ClearList(b, L, before);
        next := b + 1;
      } else if table[b] != Null {
        ClearTree(b, L, before);
        next := b + 2;
      } else {
        L.PartEmptyBucket(b);
        TreesStartEven(L, b + 1);
        next := b + 1;
      }
    }

    /** The end of clear(): no elements, and no bucket in use. */
    method BecomeEmpty()
      requires table.Length == 1 || (0 < table.Length && table.Length % 2 == 0)
      requires forall d :: 0 <= d < table.Length ==> table[d] == Null
      modifies `lay, `firstNonNull, `numElements
      ensures TableOk() && lay.index == map[] && lay.Trees() == {} && numElements == 0
    {
      numElements := 0;
      firstNonNull := table.Length;
      EmptyLayoutOk(table.Length, mix, seed);
      lay := EmptyLayout(table.Length, mix, seed);
      assert table[..] == EmptySlots(table.Length);
    }

    method Clear()
      requires Valid()
      modifies `lay, `firstNonNull, `numElements, `freed, table, lay.Trees()`items
      ensures Valid() && lay.index == map[] && lay.Trees() == {} && freed == old(freed + lay.Nodes())
    {
      hide Layout.Ok, Core, Layout.Home, Fold, Layout.Part, Legal, NoDup, Shape;
      Opened();
      ghost var L, F := lay, freed;
      StartClearing();
      var b := 0;
      while b < table.Length
        invariant b <= table.Length && Clearing(L, F, b)
      {
        b := ClearBucket(b, L, F);
      }
      L.PartAll();
      LegalSize(table.Length);
      BecomeEmpty();
    }

    lemma StartClearing()
      requires Valid()
      ensures Clearing(lay, freed, 0)
    {
      lay.PartNone(0);
    }
  }
}
