/** Nodes, trees and the pure picture of a bucket table, for Map::InnerMap in map.h. */
module HashLayout {
  import opened Bits
  import opened Powers

  type Key(==, !new)
  type Value(!new)

  /** One element. Links are only meaningful while the node hangs in a list. */
  class Node {
    const key: Key
    var value: Value
    var next: Node?

    constructor (key: Key, value: Value)
      ensures this.key == key && this.value == value && next == null
    {
      this.key, this.value, next := key, value, null;
    }
  }

  /** std::map from keys to nodes: `items` in iteration order. The key comparison is left open,
      so a new node may take any position. */
  class Tree {
    var items: seq<Node>

    constructor ()
      ensures items == []
    {
      items := [];
    }

    method Insert(node: Node) returns (pos: nat)
      modifies `items
      ensures pos <= |old(items)|
      ensures items == Splice(old(items), pos, node)
      ensures multiset(items) == multiset(old(items)) + multiset{node}
    {
      pos :| 0 <= pos <= |items|;
      assert items == items[..pos] + items[pos..];
      items := Splice(items, pos, node);
    }

    method Erase(pos: nat)
      requires pos < |items|
      modifies `items
      ensures items == Drop(old(items), pos)
    {
      items := Drop(items, pos);
    }

    method Find(k: Key) returns (pos: nat)
      ensures pos <= |items|
      ensures pos < |items| ==> items[pos].key == k
      ensures pos == |items| ==> forall i :: 0 <= i < |items| ==> items[i].key != k
    {
      pos := 0;
      while pos < |items| && items[pos].key != k
        invariant pos <= |items|
        invariant forall i :: 0 <= i < pos ==> items[i].key != k
      {
        pos := pos + 1;
      }
    }
  }

  /** A void* of the table. */
  datatype Ptr = Null | ToNode(node: Node) | ToTree(tree: Tree)

  const K_MAX_LENGTH := 8

  function Twin(b: nat): nat {
    if b % 2 == 0 then b + 1 else b - 1
  }

  function Even(b: nat): nat {
    b - b % 2
  }

  function Splice<T>(s: seq<T>, i: nat, x: T): (r: seq<T>)
    requires i <= |s|
  {
    s[..i] + [x] + s[i..]
  }

  function Drop<T>(s: seq<T>, i: nat): (r: seq<T>)
    requires i < |s|
  {
    s[..i] + s[i + 1..]
  }

  /** The remainder of h by n. */
  function Fold(h: nat, n: nat): (b: nat)
    requires 0 < n
    ensures b < n
  {
    if h < n then h else Fold(h - n, n)
  }

  /** For a table whose size is a power of two, the remainder is a mask. */
  lemma FoldIsMask(h: nat, k: nat)
    ensures Fold(h, Pow2(k)) == And(h, Pow2(k) - 1)
  {
    hide Fold, And, High, Pow2;
    MaskKeeps(h, k);
    HighBounds(h, k);
    FoldOf(High(h, k), Pow2(k), h - High(h, k) * Pow2(k));
  }

  lemma {:induction false} FoldOf(q: nat, n: nat, r: nat)
    requires r < n
    ensures Fold(q * n + r, n) == r
  {
    if q != 0 {
      assert q * n + r == (q - 1) * n + r + n;
      FoldOf(q - 1, n, r);
    }
  }

  ghost predicate NoDup(c: seq<Node>) {
    forall i, j :: 0 <= i < j < |c| ==> c[i] != c[j]
  }

  /** No node twice, said of the multiset. */
  lemma {:induction false} NoDupCounts(c: seq<Node>)
    ensures NoDup(c) <==> forall n :: n in c ==> multiset(c)[n] == 1
  {
    if c != [] {
      var r, last := c[..|c| - 1], c[|c| - 1];
      assert c == r + [last];
      NoDupCounts(r);
      assert multiset(c) == multiset(r) + multiset{last};
      if forall n :: n in c ==> multiset(c)[n] == 1 {
        assert last in c && multiset(c)[last] == multiset(r)[last] + 1;
        assert last !in r;
        forall n | n in r ensures multiset(r)[n] == 1 {
          assert n in c && n != last;
        }
      }
    }
  }

  lemma NoDupUnion(c: seq<Node>, d: seq<Node>, items: seq<Node>)
    requires NoDup(c) && NoDup(d) && forall n :: n in c ==> n !in d
    requires multiset(items) == multiset(c) + multiset(d)
    ensures NoDup(items)
  {
    NoDupCounts(c);
    NoDupCounts(d);
    NoDupCounts(items);
    forall n | n in items ensures multiset(items)[n] == 1 {
      assert n in multiset(items);
      assert n in c || n in d;
    }
  }

  ghost predicate Linked(c: seq<Node>)
    reads c`next
  {
    forall i {:trigger c[i].next} :: 0 <= i < |c| ==> c[i].next == if i + 1 < |c| then c[i + 1] else null
  }

  ghost predicate Unlinked(c: seq<Node>)
    reads c`next
  {
    forall i {:trigger c[i].next} :: 0 <= i < |c| ==> c[i].next == null
  }

  /** What the heap must hold for a bucket with table entry p and elements c. */
  ghost predicate Shape(p: Ptr, c: seq<Node>)
    reads c`next, (if p.ToTree? then {p.tree} else {})`items
  {
    match p
    case Null => true
    case ToNode(_) => Linked(c)
    case ToTree(t) => c != [] ==> t.items == c && Unlinked(c)
  }

  datatype Layout = Layout(slots: seq<Ptr>, chain: seq<seq<Node>>, index: map<Key, Node>,
                           mix: (Key, nat) -> nat, seed: nat)
  {
    ghost function Bucket(k: Key): (b: nat)
      requires slots != []
      ensures b < |slots|
    {
      Fold(mix(k, seed), |slots|)
    }

    ghost function Home(k: Key): (b: nat)
      requires slots != []
      ensures b < |slots|
    {
      var b := Bucket(k);
      if slots[b].ToTree? then Even(b) else b
    }

    ghost function Nodes(): set<Node> {
      index.Values
    }

    ghost function Trees(): set<Tree> {
      set b | 0 <= b < |slots| && slots[b].ToTree? :: slots[b].tree
    }

    ghost predicate Sized() {
      0 < |slots| == |chain| && (|slots| == 1 || |slots| % 2 == 0)
    }

    ghost predicate KindOk(b: nat)
      requires Sized() && b < |slots|
    {
      match slots[b]
      case Null => chain[b] == []
      case ToNode(n) => |slots| != 1 && 0 < |chain[b]| <= K_MAX_LENGTH && chain[b][0] == n
      case ToTree(t) => |slots| != 1 && slots[Twin(b)] == slots[b] && (b % 2 == 0 <==> chain[b] != [])
    }

    ghost predicate ChainOk(b: nat)
      requires Sized() && b < |slots|
    {
      && NoDup(chain[b])
      && forall i :: 0 <= i < |chain[b]| ==>
           && Home(chain[b][i].key) == b
           && chain[b][i].key in index && index[chain[b][i].key] == chain[b][i]
    }

    ghost predicate KeyOk(k: Key)
      requires Sized() && k in index
    {
      index[k].key == k && index[k] in chain[Home(k)]
    }

    ghost predicate Ok() {
      && Sized()
      && (forall b :: 0 <= b < |slots| ==> KindOk(b))
      && (forall b :: 0 <= b < |slots| ==> ChainOk(b))
      && (forall k :: k in index ==> KeyOk(k))
    }

    lemma IsSized()
      requires Ok()
      ensures Sized()
    {
    }

    lemma Kind(b: nat)
      requires Ok() && b < |slots|
      ensures Sized() && KindOk(b)
    {
    }

    lemma Chain(b: nat)
      requires Ok() && b < |slots|
      ensures ChainOk(b)
    {
    }

    lemma Key(k: Key)
      requires Ok() && k in index
      ensures KeyOk(k)
    {
    }

    lemma KindIsTold(b: nat)
      requires Ok() && b < |slots| && slots[b] != Null
      ensures Twin(b) < |slots|
      ensures slots[b] != slots[Twin(b)] <==> slots[b].ToNode?
    {
      Kind(b);
      Kind(Twin(b));
      if slots[b].ToNode? && slots[Twin(b)] == slots[b] {
        Present(b, 0);
        Present(Twin(b), 0);
      }
    }

    lemma Missing(k: Key)
      requires Ok()
      requires forall i :: 0 <= i < |chain[Home(k)]| ==> chain[Home(k)][i].key != k
      ensures k !in index
    {
      if k in index {
        Key(k);
      }
    }

    lemma Present(b: nat, i: nat)
      requires Ok() && b < |slots| && i < |chain[b]|
      ensures var k := chain[b][i].key; k in index && index[k] == chain[b][i] && Home(k) == b
      ensures chain[b][i] in Nodes()
    {
      assert ChainOk(b);
    }

    lemma Covers(b: nat)
      requires Ok() && b < |slots|
      ensures forall n :: n in chain[b] ==> n in Nodes() && Home(n.key) == b
    {
      assert ChainOk(b);
    }

    /** A new node in bucket b at position i; `slot` is the bucket's new table entry. */
    ghost function Insert(b: nat, i: nat, node: Node, slot: Ptr): Layout
      requires b < |slots| == |chain| && i <= |chain[b]|
    {
      this.(slots := slots[b := slot], chain := chain[b := Splice(chain[b], i, node)],
            index := index[node.key := node])
    }

    lemma SpliceNoDup(c: seq<Node>, i: nat, node: Node)
      requires NoDup(c) && i <= |c| && node !in c
      ensures NoDup(Splice(c, i, node))
      ensures forall n :: n in Splice(c, i, node) <==> n == node || n in c
    {
      var r := Splice(c, i, node);
      assert forall j :: 0 <= j < |r| ==> r[j] == if j < i then c[j] else if j == i then node else c[j - 1];
      forall n | n in c ensures n in r {
        var j :| 0 <= j < |c| && c[j] == n;
        assert r[if j < i then j else j + 1] == n;
      }
      assert r[i] == node;
    }

    ghost predicate CanInsert(b: nat, i: nat, node: Node, slot: Ptr) {
      && Ok() && |slots| != 1
      && b == Home(node.key) && node.key !in index && i <= |chain[b]|
      && if slots[b].ToTree? then slot == slots[b]
         else |chain[b]| < K_MAX_LENGTH && slot == ToNode(if i == 0 then node else chain[b][0])
    }

    lemma InsertKind(b: nat, i: nat, node: Node, slot: Ptr, c: nat)
      requires CanInsert(b, i, node, slot) && c < |slots|
      ensures Insert(b, i, node, slot).KindOk(c)
    {
      assert KindOk(b);
      assert KindOk(c);
      assert c != b ==> KindOk(c);
    }

    lemma InsertHome(b: nat, i: nat, node: Node, slot: Ptr, k: Key)
      requires CanInsert(b, i, node, slot)
      ensures Insert(b, i, node, slot).Home(k) == Home(k)
    {
    }

    lemma InsertMember(b: nat, i: nat, node: Node, slot: Ptr, c: nat, n: Node)
      requires CanInsert(b, i, node, slot) && c < |slots|
      requires n in chain[c] || (c == b && n == node)
      ensures var r := Insert(b, i, node, slot);
              r.Home(n.key) == c && n.key in r.index && r.index[n.key] == n
    {
      assert ChainOk(c);
      InsertHome(b, i, node, slot, n.key);
    }

    lemma InsertChain(b: nat, i: nat, node: Node, slot: Ptr, c: nat)
      requires CanInsert(b, i, node, slot) && c < |slots|
      ensures Insert(b, i, node, slot).ChainOk(c)
    {
      var r := Insert(b, i, node, slot);
      assert NoDup(r.chain[c]) && forall n :: n in r.chain[c] ==> n in chain[c] || (c == b && n == node) by {
        assert ChainOk(c);
        if c == b {
          assert node !in chain[b];
          SpliceNoDup(chain[b], i, node);
        }
      }
      forall j | 0 <= j < |r.chain[c]|
        ensures r.Home(r.chain[c][j].key) == c
        ensures r.chain[c][j].key in r.index && r.index[r.chain[c][j].key] == r.chain[c][j]
      {
        InsertMember(b, i, node, slot, c, r.chain[c][j]);
      }
    }

    lemma InsertEffect(b: nat, i: nat, node: Node, slot: Ptr)
      requires CanInsert(b, i, node, slot)
      ensures var r := Insert(b, i, node, slot);
              r.Home(node.key) == b && r.Trees() <= Trees() && r.slots == slots[b := slot]
    {
      var r := Insert(b, i, node, slot);
      InsertHome(b, i, node, slot, node.key);
      forall t | t in r.Trees() ensures t in Trees() {
        var d :| 0 <= d < |slots| && r.slots[d].ToTree? && r.slots[d].tree == t;
        assert slots[d].ToTree? && slots[d].tree == t;
      }
    }

    lemma InsertKey(b: nat, i: nat, node: Node, slot: Ptr, k: Key)
      requires CanInsert(b, i, node, slot) && (k == node.key || k in index)
      ensures Insert(b, i, node, slot).KeyOk(k)
    {
      assert ChainOk(b);
      assert node !in chain[b];
      SpliceNoDup(chain[b], i, node);
      InsertHome(b, i, node, slot, k);
      if k != node.key {
        assert KeyOk(k);
      }
    }

    lemma InsertOk(b: nat, i: nat, node: Node, slot: Ptr)
      requires CanInsert(b, i, node, slot)
      ensures Insert(b, i, node, slot).Ok()
    {
      var r := Insert(b, i, node, slot);
      forall c | 0 <= c < |slots| ensures r.KindOk(c) && r.ChainOk(c) {
        InsertKind(b, i, node, slot, c);
        InsertChain(b, i, node, slot, c);
      }
      forall k | k in r.index ensures r.KeyOk(k) {
        InsertKey(b, i, node, slot, k);
      }
    }

    /** Bucket b without its i-th node; `slot` is what its table entry becomes, and, for an emptied
        tree, that of its twin. */
    ghost function Remove(b: nat, i: nat, slot: Ptr): Layout
      requires b < |slots| == |chain| && i < |chain[b]|
    {
      this.(slots := if slots[b].ToTree? && slot == Null && Twin(b) < |slots|
                     then slots[b := Null][Twin(b) := Null] else slots[b := slot],
            chain := chain[b := Drop(chain[b], i)],
            index := index - {chain[b][i].key})
    }

    ghost predicate CanRemove(b: nat, i: nat, slot: Ptr) {
      && Ok() && b < |slots| && i < |chain[b]|
      && var c := Drop(chain[b], i);
         slot == if c == [] then Null else if slots[b].ToTree? then slots[b] else ToNode(c[0])
    }

    lemma DropNoDup(c: seq<Node>, i: nat)
      requires NoDup(c) && i < |c|
      ensures NoDup(Drop(c, i))
      ensures forall n :: n in Drop(c, i) <==> n != c[i] && n in c
    {
      var r := Drop(c, i);
      assert forall j :: 0 <= j < |r| ==> r[j] == if j < i then c[j] else c[j + 1];
      forall n | n != c[i] && n in c ensures n in r {
        var j :| 0 <= j < |c| && c[j] == n;
        assert r[if j < i then j else j - 1] == n;
      }
    }

    lemma RemoveKind(b: nat, i: nat, slot: Ptr, c: nat)
      requires CanRemove(b, i, slot) && c < |slots|
      ensures Remove(b, i, slot).KindOk(c)
    {
      Kind(b);
      Kind(c);
    }

    /** Only keys of an emptied tree may move, and there are none. */
    lemma RemoveHome(b: nat, i: nat, slot: Ptr, k: Key)
      requires CanRemove(b, i, slot)
      requires k in index && k != chain[b][i].key
      ensures Remove(b, i, slot).Home(k) == Home(k)
    {
      Kind(b);
      Key(k);
      Present(b, i);
    }

    lemma RemoveChain(b: nat, i: nat, slot: Ptr, c: nat)
      requires CanRemove(b, i, slot) && c < |slots|
      ensures Remove(b, i, slot).ChainOk(c)
    {
      var r := Remove(b, i, slot);
      Present(b, i);
      assert NoDup(r.chain[c]) && forall n :: n in r.chain[c] ==> n in chain[c] && n != chain[b][i] by {
        assert ChainOk(c);
        if c == b {
          DropNoDup(chain[b], i);
        }
      }
      forall j | 0 <= j < |r.chain[c]|
        ensures r.Home(r.chain[c][j].key) == c
        ensures r.chain[c][j].key in r.index && r.index[r.chain[c][j].key] == r.chain[c][j]
      {
        var n := r.chain[c][j];
        Covers(c);
        assert n in r.chain[c];
        assert ChainOk(c);
        RemoveHome(b, i, slot, n.key);
      }
    }

    lemma RemoveTrees(b: nat, i: nat, slot: Ptr)
      requires CanRemove(b, i, slot)
      ensures Remove(b, i, slot).Trees() <= Trees()
    {
      var r := Remove(b, i, slot);
      forall t | t in r.Trees() ensures t in Trees() {
        var d :| 0 <= d < |slots| && r.slots[d].ToTree? && r.slots[d].tree == t;
        assert slots[d].ToTree? && slots[d].tree == t;
      }
    }

    lemma RemoveKey(b: nat, i: nat, slot: Ptr, k: Key)
      requires CanRemove(b, i, slot) && k in index && k != chain[b][i].key
      ensures Remove(b, i, slot).KeyOk(k)
    {
      Key(k);
      RemoveHome(b, i, slot, k);
      assert ChainOk(b);
      DropNoDup(chain[b], i);
    }

    lemma RemoveOk(b: nat, i: nat, slot: Ptr)
      requires CanRemove(b, i, slot)
      ensures Remove(b, i, slot).Ok()
    {
      var r := Remove(b, i, slot);
      forall c | 0 <= c < |slots| ensures r.KindOk(c) && r.ChainOk(c) {
        RemoveKind(b, i, slot, c);
        RemoveChain(b, i, slot, c);
      }
      forall k | k in r.index ensures r.KeyOk(k) {
        RemoveKey(b, i, slot, k);
      }
    }

    /** The lists of bucket b and its twin become one tree with the elements `items`. */
    ghost function Convert(b: nat, tree: Tree, items: seq<Node>): Layout
      requires b < |slots| == |chain| && Twin(b) < |slots|
    {
      this.(slots := slots[b := ToTree(tree)][Twin(b) := ToTree(tree)],
            chain := chain[b := []][Twin(b) := []][Even(b) := items])
    }

    ghost predicate CanConvert(b: nat, items: seq<Node>) {
      && Ok() && b < |slots| && Twin(b) < |slots|
      && slots[b].ToNode? && !slots[Twin(b)].ToTree?
      && NoDup(items)
      && multiset(items) == multiset(chain[b]) + multiset(chain[Twin(b)])
    }

    lemma ConvertItems(b: nat, items: seq<Node>)
      requires CanConvert(b, items)
      ensures forall n :: n in items <==> n in chain[b] || n in chain[Twin(b)]
    {
      forall n: Node ensures n in items <==> n in chain[b] || n in chain[Twin(b)] {
        assert n in items <==> n in multiset(items);
      }
    }

    lemma ConvertHome(b: nat, tree: Tree, items: seq<Node>, k: Key)
      requires CanConvert(b, items)
      ensures Convert(b, tree, items).Home(k) == if Even(Home(k)) == Even(b) then Even(b) else Home(k)
    {
    }

    lemma ConvertTrees(b: nat, tree: Tree, items: seq<Node>)
      requires CanConvert(b, items)
      ensures Convert(b, tree, items).Trees() <= Trees() + {tree}
    {
      var r := Convert(b, tree, items);
      forall t | t in r.Trees() ensures t in Trees() + {tree} {
        var d :| 0 <= d < |slots| && r.slots[d].ToTree? && r.slots[d].tree == t;
        if t != tree {
          assert slots[d].ToTree? && slots[d].tree == t;
        }
      }
    }

    lemma ConvertChain(b: nat, tree: Tree, items: seq<Node>, c: nat)
      requires CanConvert(b, items) && c < |slots|
      ensures Convert(b, tree, items).ChainOk(c)
    {
      ConvertItems(b, items);
      var r := Convert(b, tree, items);
      assert ChainOk(c);
      forall j | 0 <= j < |r.chain[c]|
        ensures r.Home(r.chain[c][j].key) == c
        ensures r.chain[c][j].key in r.index && r.index[r.chain[c][j].key] == r.chain[c][j]
      {
        var n := r.chain[c][j];
        assert n in r.chain[c];
        ConvertHome(b, tree, items, n.key);
        assert ChainOk(b) && ChainOk(Twin(b));
      }
    }

    lemma ConvertKey(b: nat, tree: Tree, items: seq<Node>, k: Key)
      requires CanConvert(b, items) && k in index
      ensures Convert(b, tree, items).KeyOk(k)
    {
      ConvertItems(b, items);
      Key(k);
      ConvertHome(b, tree, items, k);
    }

    lemma ConvertKind(b: nat, tree: Tree, items: seq<Node>, c: nat)
      requires CanConvert(b, items) && c < |slots|
      ensures Convert(b, tree, items).KindOk(c)
    {
      ConvertItems(b, items);
      Kind(c);
      Kind(b);
      assert chain[b][0] in items;
    }

    lemma ConvertOk(b: nat, tree: Tree, items: seq<Node>)
      requires CanConvert(b, items)
      ensures Convert(b, tree, items).Ok()
    {
      var r := Convert(b, tree, items);
      forall c | 0 <= c < |slots| ensures r.KindOk(c) && r.ChainOk(c) {
        ConvertKind(b, tree, items, c);
        ConvertChain(b, tree, items, c);
      }
      forall k | k in r.index ensures r.KeyOk(k) {
        ConvertKey(b, tree, items, k);
      }
    }

    /** The elements of the buckets below i, and the first j of bucket i. */
    ghost function Part(i: nat, j: nat): map<Key, Node>
      requires slots != []
    {
      map k | k in index
              && (Home(k) < i || (Home(k) == i && i < |chain| && j <= |chain[i]| && index[k] in chain[i][..j]))
            :: index[k]
    }

    lemma PartStep(i: nat, j: nat)
      requires Ok() && i < |slots| && j < |chain[i]|
      ensures chain[i][j].key !in Part(i, j)
      ensures Part(i, j + 1) == Part(i, j)[chain[i][j].key := chain[i][j]]
    {
      Chain(i);
      Present(i, j);
      assert chain[i][..j + 1] == chain[i][..j] + [chain[i][j]];
      forall k | k in Part(i, j + 1) && k !in Part(i, j) ensures k == chain[i][j].key {
        Key(k);
      }
    }

    lemma PartAdds(i: nat, j: nat)
      requires Ok() && i < |slots| && j < |chain[i]|
      ensures chain[i][j] !in Part(i, j).Values && chain[i][j] in Nodes()
      ensures Part(i, j + 1).Values == Part(i, j).Values + {chain[i][j]}
    {
      PartStep(i, j);
      Present(i, j);
      var n, p, q := chain[i][j], Part(i, j), Part(i, j + 1);
      if n in p.Values {
        var k :| k in p && p[k] == n;
        Key(k);
      }
      forall m | m in q.Values ensures m in p.Values + {n} {
        var k :| k in q && q[k] == m;
        if k != n.key {
          assert k in p && p[k] == m;
        }
      }
      forall m | m in p.Values ensures m in q.Values {
        var k :| k in p && p[k] == m;
        assert k in q && q[k] == m;
      }
      assert n.key in q && q[n.key] == n;
    }

    lemma PartEnd(i: nat)
      requires Ok() && i < |slots|
      ensures Part(i, |chain[i]|) == Part(i + 1, 0)
    {
      assert chain[i][..|chain[i]|] == chain[i];
      forall k | k in index && Home(k) == i ensures index[k] in chain[i] {
        Key(k);
      }
    }

    lemma PartNodes(M: Layout, i: nat, j: nat)
      requires Ok() && M.index == Part(i, j)
      ensures M.Nodes() <= Nodes()
    {
      forall n | n in M.Nodes() ensures n in Nodes() {
        var k :| k in M.index && M.index[k] == n;
        assert k in index && index[k] == n;
      }
    }

    lemma PartEmptyBucket(i: nat)
      requires Ok() && i < |slots| && chain[i] == []
      ensures Part(i, 0) == Part(i + 1, 0)
    {
      PartEnd(i);
    }

    lemma PartAll()
      requires Ok()
      ensures Part(|slots|, 0) == index
    {
    }

    lemma PartNone(i: nat)
      requires Ok() && forall b :: 0 <= b < i <= |slots| ==> slots[b] == Null
      requires i <= |slots|
      ensures Part(i, 0) == map[]
    {
      forall k | k in Part(i, 0) ensures false {
        Key(k);
        Kind(Home(k));
      }
    }

    /** Nodes still to come are none of those already passed. */
    lemma PartFresh(M: Layout, i: nat, j: nat, b: nat, m: nat)
      requires Ok() && M.Ok() && M.index == Part(i, j)
      requires b < |slots| && m < |chain[b]| && (i < b || (i == b && j <= m && j <= |chain[b]|))
      ensures chain[b][m] !in M.Nodes() && chain[b][m].key !in M.index
    {
      Present(b, m);
      Chain(b);
      if chain[b][m] in M.Nodes() {
        var k :| k in M.index && M.index[k] == chain[b][m];
        M.Key(k);
      }
    }
  }

  function EmptySlots(n: nat): seq<Ptr> {
    seq(n, _ => Null)
  }

  ghost function EmptyLayout(n: nat, mix: (Key, nat) -> nat, seed: nat): Layout {
    Layout(EmptySlots(n), seq(n, _ => []), map[], mix, seed)
  }

  lemma EmptyLayoutOk(n: nat, mix: (Key, nat) -> nat, seed: nat)
    requires n == 1 || (0 < n && n % 2 == 0)
    ensures EmptyLayout(n, mix, seed).Ok()
  {
  }
}
