/** google::protobuf::Map (map.h): the operations that combine a table with its iterators. */
module ProtoMap {
  import opened HashLayout
  import opened IterationOrder
  import opened HashTable
  import opened LoadFactor

  /** Map::find. */
  method Find(m: InnerMap, k: Key) returns (it: Iterator)
    requires m.Valid()
    ensures m.Valid() && fresh(it) && it.m == m
    ensures it.node == if k in m.lay.index then m.lay.index[k] else null
    ensures it.node != null ==> it.node.key == k && it.node.value == m.Contents()[k]
  {
    hide InnerMap.Core;
    m.Opened();
    var node, b, pos := m.FindHelper(k);
    if node != null {
      m.lay.Key(k);
    }
    it := m.IteratorAt(node, b);
  }

  /** begin(), which leaves the table alone. */
  method BeginOf(m: InnerMap) returns (it: Iterator)
    requires m.Valid()
    ensures m.Valid() && fresh(it) && it.m == m && it.node == ElementAt(m.lay, 0)
  {
    hide InnerMap.Valid, Layout.Ok, ElementAt;
    it := new Iterator.At(m, null, 0);
    Untouched(m);
    label Ready:
    ValidOpens(m);
    it.Begin();
    Untouched@Ready(m);
  }

  /** operator++, which leaves the table alone. */
  method Next(m: InnerMap, it: Iterator, ghost p: nat)
    requires m.Valid() && it.m == m && p < |Order(m.lay)| && it.node == Order(m.lay)[p]
    modifies it`node, it`bucketIndex
    ensures m.Valid() && it.node == ElementAt(m.lay, p + 1)
  {
    hide InnerMap.Valid, Layout.Ok, Order, ElementAt;
    label Before:
    ValidOpens(m);
    it.Advance(p);
    Untouched@Before(m);
  }

  /** Iterating from begin() to end(): it terminates and meets every element once. */
  method Elements(m: InnerMap) returns (seen: seq<Node>)
    requires m.Valid()
    ensures m.Valid() && m.Contents() == old(m.Contents())
    ensures |seen| == |m.Contents()| && NoDup(seen) && forall n :: n in seen <==> n in m.lay.Nodes()
  {
    hide InnerMap.Valid, Layout.Ok, Order, ElementAt, Values;
    var it := BeginOf(m);
    ValidOpens(m);
    ghost var L := m.lay;
    seen := [];
    EndIsNull(L, 0);
    while it.node != null
      invariant m.Valid() && m.lay == L && fresh(it) && it.m == m
      invariant |seen| <= |Order(L)| && seen == Order(L)[..|seen|]
      invariant it.node == ElementAt(L, |seen|) && (it.node == null <==> |seen| == |Order(L)|)
      decreases |Order(L)| - |seen|
    {
      EndIsNull(L, |seen|);
      seen := seen + [it.node];
      Next(m, it, |seen| - 1);
      EndIsNull(L, |seen|);
    }
    assert Order(L)[..|Order(L)|] == Order(L);
    AllInOrder(L);
    ValuesKeys(L.index);
  }

  lemma AllInOrder(L: Layout)
    requires L.Ok()
    ensures |Order(L)| == |L.index| && NoDup(Order(L)) && forall n :: n in Order(L) <==> n in L.Nodes()
  {
    hide Layout.Ok, Order;
    OrderAll(L);
    OrderCount(L);
    forall i, j | 0 <= i < j < |Order(L)|
      ensures Order(L)[i] != Order(L)[j]
    {
      OrderOnce(L, i, j);
    }
  }

  lemma EndIsNull(L: Layout, p: nat)
    requires L.Ok() && p <= |Order(L)|
    ensures ElementAt(L, p) == null <==> p == |Order(L)|
    ensures p < |Order(L)| ==> ElementAt(L, p) == Order(L)[p]
  {
  }

  lemma ValidOpens(m: InnerMap)
    requires m.Valid()
    ensures m.TableOk() && m.Core() && m.lay.Ok()
  {
  }

  /** Map::erase(iterator): the iterator moves on before its element goes. */
  method EraseAt(m: InnerMap, pos: Iterator, ghost p: nat)
    requires m.Valid() && pos.m == m
    requires p < |Order(m.lay)| && pos.node == Order(m.lay)[p]
    modifies pos`node, pos`bucketIndex, m`lay, m`firstNonNull, m`numElements, m`freed
    modifies m.table, m.lay.Nodes()`next, m.lay.Trees()`items
    ensures m.Valid() && m.Contents() == old(m.Contents()) - {old(pos.node).key}
    ensures pos.node == old(ElementAt(m.lay, p + 1)) && (pos.node != null ==> pos.node in m.lay.Nodes())
    ensures m.freed == old(m.freed) + {old(pos.node)}
    ensures m.lay.index == old(m.lay.index) - {old(pos.node).key} && m.lay.Trees() <= old(m.lay.Trees())
  {
    hide InnerMap.Valid, Layout.Ok, Order, ElementAt, Values;
    ValidOpens(m);
    ghost var L := m.lay;
    Survives(L, p);
    var i := m.IteratorAt(pos.node, pos.bucketIndex);
    label Moving:
    ValidOpens(m);
    pos.Advance(p);
    Untouched@Moving(m);
    m.Erase(i);
    ValuesWithout(L.index, i.node.key);
  }

  /** Map::erase(key): the number of elements erased. */
  method EraseKey(m: InnerMap, k: Key) returns (count: nat)
    requires m.Valid()
    modifies m`lay, m`firstNonNull, m`numElements, m`freed
    modifies m.table, m.lay.Nodes()`next, m.lay.Trees()`items
    ensures m.Valid() && m.Contents() == old(m.Contents()) - {k}
    ensures count == if k in old(m.Contents()) then 1 else 0
    ensures m.lay.index == old(m.lay.index) - {k}
    ensures m.lay.Nodes() <= old(m.lay.Nodes()) && m.lay.Trees() <= old(m.lay.Trees())
  {
    hide InnerMap.Core, Layout.Ok, Order, ElementAt, Legal, LoadOk, Values;
    var it := Find(m, k);
    ValuesKeys(m.lay.index);
    if it.node == null {
      WithoutAbsent(m.Contents(), k);
      assert m.lay.index - {k} == m.lay.index;
      return 0;
    }
    m.Opened();
    ghost var p := PlaceOf(m.lay, k);
    EraseAt(m, it, p);
    count := 1;
  }

  lemma ValuesKeys(index: map<Key, Node>)
    ensures Values(index).Keys == index.Keys
  {
  }

  lemma WithoutAbsent(c: map<Key, Value>, k: Key)
    requires k !in c
    ensures c - {k} == c
  {
  }

  lemma PlaceOf(L: Layout, k: Key) returns (p: nat)
    requires L.Ok() && k in L.index
    ensures p < |Order(L)| && Order(L)[p] == L.index[k]
  {
    OrderAll(L);
    p :| p < |Order(L)| && Order(L)[p] == L.index[k];
  }

  /** `index` holds what `was` holds, then copies of those of the first p elements of `source` whose keys were
      not there, and nothing else. */
  ghost predicate Copied(index: map<Key, Node>, was: map<Key, Node>, source: Layout, p: nat)
    reads index.Values`value, source.Nodes()`value
    requires source.Ok() && p <= |Order(source)|
  {
    && (forall k :: k in was ==> k in index && index[k] == was[k])
    && (forall k :: k in index ==> k in was || exists j :: 0 <= j < p && Order(source)[j].key == k)
    && (OrderAll(source); forall j :: 0 <= j < p ==>
          && Order(source)[j].key in index
          && (Order(source)[j].key in was || index[Order(source)[j].key].value == Order(source)[j].value))
  }

  lemma NotYetCopied(index: map<Key, Node>, was: map<Key, Node>, source: Layout, p: nat)
    requires source.Ok() && p < |Order(source)| && Copied(index, was, source, p)
    ensures Order(source)[p].key in index ==> Order(source)[p].key in was
  {
    forall j | 0 <= j < p ensures Order(source)[j].key != Order(source)[p].key {
      KeysDiffer(source, j, p);
    }
  }

  lemma CopiedStep(index: map<Key, Node>, was: map<Key, Node>, source: Layout, p: nat, n: Node)
    requires source.Ok() && p < |Order(source)| && Copied(index, was, source, p)
    requires n.key == Order(source)[p].key
    requires if n.key in index then index[n.key] == n else n.value == Order(source)[p].value
    ensures Copied(index[n.key := n], was, source, p + 1)
  {
    NotYetCopied(index, was, source, p);
  }

  lemma KeysDiffer(L: Layout, j: nat, p: nat)
    requires L.Ok() && j < p < |Order(L)|
    ensures Order(L)[j].key != Order(L)[p].key
  {
    Listed(L, j);
    Listed(L, p);
    OrderOnce(L, j, p);
  }

  lemma CopiedAll(index: map<Key, Node>, was: map<Key, Node>, source: Layout)
    requires source.Ok() && Copied(index, was, source, |Order(source)|)
    ensures Values(index) == Values(source.index) + Values(was)
    ensures forall k :: k in was ==> k in index && index[k] == was[k]
  {
    hide Layout.Ok, Order;
    forall k | k in index && k !in was ensures k in source.index && index[k].value == source.index[k].value {
      var j :| 0 <= j < |Order(source)| && Order(source)[j].key == k;
      Listed(source, j);
      assert index[Order(source)[j].key].value == Order(source)[j].value;
    }
    forall k | k in source.index ensures k in index {
      source.Key(k);
      var j := PlaceOf(source, k);
      assert Order(source)[j].key in index;
    }
  }

  /** Two tables that share nothing. */
  ghost predicate Separate(m: InnerMap, other: InnerMap)
    reads m`lay, m`table, other`lay, other`table
  {
    && m != other && m.table != other.table
    && m.lay.Nodes() !! other.lay.Nodes() && m.lay.Trees() !! other.lay.Trees()
  }

  /** A table nobody wrote to stays valid. */
  twostate lemma Untouched(m: InnerMap)
    requires old(m.Valid())
    requires unchanged(m) && unchanged(old(m.table), old(m.lay.Nodes())`next, old(m.lay.Trees())`items)
    ensures m.Valid()
  {
    hide Layout.Ok, Legal, LoadOk, Fold;
    ghost var L := m.lay;
    L.IsSized();
    forall b | 0 <= b < |L.slots| ensures Shape(L.slots[b], L.chain[b]) {
      assert old(Shape(L.slots[b], L.chain[b]));
      L.Covers(b);
      if L.slots[b].ToTree? {
        assert L.slots[b].tree in L.Trees();
      }
    }
  }

  method IteratorBeside(m: InnerMap, other: InnerMap) returns (it: Iterator)
    requires m.Valid() && other.Valid()
    ensures m.Valid() && other.Valid() && fresh(it) && it.m == m
  {
    hide InnerMap.Valid;
    it := new Iterator.At(m, null, 0);
    Untouched(m);
    Untouched(other);
  }

  lemma CopiedNothing(index: map<Key, Node>, source: Layout)
    requires source.Ok()
    ensures Copied(index, index, source, 0)
  {
  }

  /** try_emplace into one table leaves a separate one as it is. */
  method PutBeside(m: InnerMap, other: InnerMap, k: Key, v: Value) returns (node: Node)
    requires m.Valid() && other.Valid() && Separate(m, other)
    modifies m`table, m`lay, m`firstNonNull, m`seed, m`numElements, m.table, m.lay.Nodes()`next, m.lay.Trees()`items
    ensures m.Valid() && m.lay.index == old(m.lay.index)[k := node] && node.key == k
    ensures if k in old(m.lay.index) then node == old(m.lay.index)[k] else fresh(node) && node.value == v
    ensures forall t :: t in m.lay.Trees() ==> t in old(m.lay.Trees()) || fresh(t)
    ensures m.table == old(m.table) || fresh(m.table)
    ensures other.Valid() && Separate(m, other)
  {
    hide Layout.Ok, Legal, LoadOk, Values, Fold, InnerMap.Core;
    if k in m.lay.index {
      m.Opened();
      m.lay.Key(k);
    }
    var b, inserted;
    node, b, inserted := m.TryEmplaceInternal(k, v);
    Untouched(other);
  }

  /** What holds while m, where `was` was before, receives the elements of `source`, the other map's layout. */
  ghost predicate Copying(m: InnerMap, was: map<Key, Node>, it: Iterator, source: Layout, p: nat)
    reads m`lay, m.lay.Nodes()`value, source.Nodes()`value, it`node
    reads it.m`lay
  {
    && source.Ok() && it.m.lay == source && p <= |Order(source)| && it.node == ElementAt(source, p)
    && Copied(m.lay.index, was, source, p)
  }

  /** operator++, which leaves the iterator's table and a separate one alone. */
  method NextBeside(m: InnerMap, it: Iterator, ghost p: nat)
    requires m.Valid() && it.m.Valid() && p < |Order(it.m.lay)| && it.node == Order(it.m.lay)[p]
    modifies it`node, it`bucketIndex
    ensures m.Valid() && it.m.Valid() && it.node == ElementAt(it.m.lay, p + 1)
  {
    hide InnerMap.Valid, Layout.Ok, Order, ElementAt;
    label Before:
    ValidOpens(it.m);
    it.Advance(p);
    Untouched@Before(m);
    Untouched@Before(it.m);
  }

  /** One turn of the loop: the element under the iterator, then operator++. */
  method CopyNext(m: InnerMap, ghost was: map<Key, Node>, it: Iterator, ghost source: Layout, ghost p: nat)
    requires m.Valid() && it.m.Valid() && Separate(m, it.m) && Copying(m, was, it, source, p) && it.node != null
    modifies m`table, m`lay, m`firstNonNull, m`seed, m`numElements, m.table, m.lay.Nodes()`next, m.lay.Trees()`items
    modifies it`node, it`bucketIndex
    ensures m.Valid() && it.m.Valid() && Separate(m, it.m) && Copying(m, was, it, source, p + 1)
    ensures m.freed == old(m.freed) && forall n :: n in m.lay.Nodes() ==> n in old(m.lay.Nodes()) || fresh(n)
    ensures forall t :: t in m.lay.Trees() ==> t in old(m.lay.Trees()) || fresh(t)
    ensures m.table == old(m.table) || fresh(m.table)
    ensures p < |Order(source)|
  {
    hide InnerMap.Core, Layout.Ok, Legal, LoadOk, Fold, Order, Copied, Values, ElementAt;
    EndIsNull(source, p);
    OrderAll(source);
    var node := PutBeside(m, it.m, it.node.key, it.node.value);
    CopiedStep(old(m.lay.index), was, source, p, node);
    NextBeside(m, it, p);
  }

  /** The loop of insert(begin, end), from its first element on. */
  method CopyRest(m: InnerMap, ghost was: map<Key, Node>, it: Iterator, ghost L: Layout)
    requires m.Valid() && it.m.Valid() && Separate(m, it.m) && Copying(m, was, it, L, 0)
    modifies m`table, m`lay, m`firstNonNull, m`seed, m`numElements, m.table, m.lay.Nodes()`next, m.lay.Trees()`items
    modifies it`node, it`bucketIndex
    ensures m.Valid() && it.m.Valid() && Separate(m, it.m) && m.freed == old(m.freed)
    ensures it.m.lay == L && m.Contents() == Values(L.index) + Values(was)
    ensures forall k :: k in was ==> k in m.lay.index && m.lay.index[k] == was[k]
  {
    hide InnerMap.Core, Layout.Ok, Legal, LoadOk, Values, Fold, Order, Copied;
    ghost var p := 0;
    while it.node != null
      invariant m.Valid() && it.m.Valid() && Separate(m, it.m) && Copying(m, was, it, L, p) && m.freed == old(m.freed)
      invariant forall n :: n in m.lay.Nodes() ==> n in old(m.lay.Nodes()) || fresh(n)
      invariant forall t :: t in m.lay.Trees() ==> t in old(m.lay.Trees()) || fresh(t)
      invariant m.table == old(m.table) || fresh(m.table)
      decreases |Order(L)| - p
    {
      CopyNext(m, was, it, L, p);
      p := p + 1;
    }
    CopiedAll(m.lay.index, was, L);
  }

  /** Inserting a map into itself: every key is there. */
  method InsertSelf(m: InnerMap)
    requires m.Valid()
    modifies m`table, m`lay, m`firstNonNull, m`seed, m`numElements, m.table, m.lay.Nodes()`next, m.lay.Trees()`items
    ensures m.Valid() && m.lay == old(m.lay) && m.table == old(m.table)
  {
    hide InnerMap.Core, Layout.Ok, Legal, LoadOk, Fold, Order, ElementAt, Values;
    var it := BeginOf(m);
    ghost var L, p := m.lay, 0;
    ValidOpens(m);
    while it.node != null
      invariant m.Valid() && m.lay == L && m.table == old(m.table) && fresh(it) && it.m == m
      invariant L.Ok() && p <= |Order(L)| && it.node == ElementAt(L, p)
      decreases |Order(L)| - p
    {
      EndIsNull(L, p);
      OrderAll(L);
      Listed(L, p);
      var node, b, inserted := m.TryEmplaceInternal(it.node.key, it.node.value);
      Next(m, it, p);
      p := p + 1;
    }
  }

  method InsertOther(m: InnerMap, other: InnerMap)
    requires m.Valid() && other.Valid() && Separate(m, other)
    modifies m`table, m`lay, m`firstNonNull, m`seed, m`numElements, m.table, m.lay.Nodes()`next, m.lay.Trees()`items
    ensures m.Valid() && other.Valid() && Separate(m, other) && m.freed == old(m.freed)
    ensures m.Contents() == other.Contents() + old(m.Contents()) && other.lay == old(other.lay)
    ensures forall k :: k in old(m.lay.index) ==> k in m.lay.index && m.lay.index[k] == old(m.lay.index)[k]
  {
    hide InnerMap.Valid, Layout.Ok, Order, Copied, Values, ElementAt;
    ghost var was := m.lay.index;
    var it := IteratorBeside(other, m);
    label Ready:
    ValidOpens(other);
    it.Begin();
    Untouched@Ready(m);
    Untouched@Ready(other);
    CopiedNothing(was, other.lay);
    CopyRest(m, was, it, other.lay);
  }

  /** insert(begin, end) of all of a map: keys that are there already keep their nodes and values. */
  method InsertFrom(m: InnerMap, other: InnerMap)
    requires m.Valid() && other.Valid() && (m == other || Separate(m, other))
    modifies m`table, m`lay, m`firstNonNull, m`seed, m`numElements, m.table, m.lay.Nodes()`next, m.lay.Trees()`items
    ensures m.Valid() && other.Valid() && (m == other || Separate(m, other)) && m.freed == old(m.freed)
    ensures m.Contents() == other.Contents() + old(m.Contents()) && other.Contents() == old(other.Contents())
    ensures forall k :: k in old(m.lay.index) ==> k in m.lay.index && m.lay.index[k] == old(m.lay.index)[k]
  {
    hide InnerMap.Valid, Values;
    if m == other {
      InsertSelf(m);
      assert m.Contents() + m.Contents() == m.Contents();
    } else {
      InsertOther(m, other);
    }
  }

  /** Map::operator=: clear, then insert everything the other map iterates over; nothing for the map itself. */
  method Assign(m: InnerMap, other: InnerMap)
    requires m.Valid() && other.Valid() && (m == other || Separate(m, other))
    modifies m`table, m`lay, m`firstNonNull, m`seed, m`numElements, m`freed, m.table, m.lay.Trees()`items
    ensures m.Valid() && other.Valid() && (m == other || Separate(m, other))
    ensures m.Contents() == other.Contents() == old(other.Contents())
    ensures m.freed == if m == other then old(m.freed) else old(m.freed + m.lay.Nodes())
    ensures m == other ==> m.lay == old(m.lay) && m.table == old(m.table)
  {
    hide InnerMap.Valid, Values;
    if m == other {
      return;
    }
    m.Clear();
    assert forall t :: t in old(other.lay.Trees()) ==> t !in old(m.lay.Trees());
    Untouched(other);
    ValuesKeys(m.lay.index);
    assert m.lay.Nodes() == {} && m.Contents() == map[];
    InsertFrom(m, other);
  }

  datatype Op = TryEmplace(key: Key, value: Value) | EraseOp(key: Key) | ClearOp

  /** What a mathematical map does for an operation. */
  ghost function Apply(c: map<Key, Value>, op: Op): map<Key, Value> {
    match op
    case TryEmplace(k, v) => if k in c then c else c[k := v]
    case EraseOp(k) => c - {k}
    case ClearOp => map[]
  }

  ghost function ApplyAll(c: map<Key, Value>, ops: seq<Op>): map<Key, Value> {
    if ops == [] then c else Apply(ApplyAll(c, ops[..|ops| - 1]), ops[|ops| - 1])
  }

  predicate Removes(op: Op, k: Key) {
    op.ClearOp? || op == EraseOp(k)
  }

  /** The table after one operation is the mathematical map after that operation. */
  method Step(m: InnerMap, op: Op)
    requires m.Valid()
    modifies m`table, m`lay, m`firstNonNull, m`seed, m`numElements, m`freed
    modifies m.table, m.lay.Nodes()`next, m.lay.Trees()`items
    ensures m.Valid() && m.Contents() == Apply(old(m.Contents()), op)
    ensures forall k :: k in old(m.lay.index) && !Removes(op, k) ==>
              k in m.lay.index && m.lay.index[k] == old(m.lay.index)[k]
    ensures m.table == old(m.table) || fresh(m.table)
    ensures forall n :: n in m.lay.Nodes() ==> n in old(m.lay.Nodes()) || fresh(n)
    ensures forall t :: t in m.lay.Trees() ==> t in old(m.lay.Trees()) || fresh(t)
  {
    hide InnerMap.Valid, Values, Layout.Trees;
    ghost var index := m.lay.index;
    ValuesKeys(index);
    match op
    case TryEmplace(k, v) =>
      var node, b, inserted := m.TryEmplaceInternal(k, v);
      if inserted {
        ValuesWith(index, k, node);
      }
    case EraseOp(k) =>
      var count := EraseKey(m, k);
    case ClearOp =>
      m.Clear();
      ValuesKeys(m.lay.index);
  }

  /** Any run of insertions, erasures and clears, with all the resizing they cause. A node that none of them removes
      stays the node of its key. */
  method Run(m: InnerMap, ops: seq<Op>)
    requires m.Valid()
    modifies m`table, m`lay, m`firstNonNull, m`seed, m`numElements, m`freed
    modifies m.table, m.lay.Nodes()`next, m.lay.Trees()`items
    ensures m.Valid() && m.Contents() == ApplyAll(old(m.Contents()), ops) && m.numElements == |m.Contents()|
    ensures forall k :: k in old(m.lay.index) && (forall j :: 0 <= j < |ops| ==> !Removes(ops[j], k)) ==>
              k in m.lay.index && m.lay.index[k] == old(m.lay.index)[k]
  {
    hide Values, Layout.Trees, InnerMap.Core, Legal, LoadOk;
    var i := 0;
    while i < |ops|
      invariant i <= |ops| && m.Valid() && m.Contents() == ApplyAll(old(m.Contents()), ops[..i])
      invariant forall k :: k in old(m.lay.index) && (forall j :: 0 <= j < i ==> !Removes(ops[j], k)) ==>
                  k in m.lay.index && m.lay.index[k] == old(m.lay.index)[k]
      invariant m.table == old(m.table) || fresh(m.table)
      invariant forall n :: n in m.lay.Nodes() ==> n in old(m.lay.Nodes()) || fresh(n)
      invariant forall t :: t in m.lay.Trees() ==> t in old(m.lay.Trees()) || fresh(t)
    {
      Step(m, ops[i]);
      assert ops[..i + 1][..i] == ops[..i];
      i := i + 1;
    }
    assert ops[..i] == ops;
    ValuesKeys(m.lay.index);
  }
}
