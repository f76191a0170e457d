/** The order in which an iterator of Map::InnerMap walks a table (map.h). */
module IterationOrder {
  import opened HashLayout

  ghost function Flat(cs: seq<seq<Node>>): seq<Node> {
    if cs == [] then [] else Flat(cs[..|cs| - 1]) + cs[|cs| - 1]
  }

  /** Bucket after bucket, each list from its head and each tree from its least key. */
  ghost function Order(L: Layout): seq<Node> {
    Flat(L.chain)
  }

  /** How many elements the first b buckets hold. */
  ghost function Before(cs: seq<seq<Node>>, b: nat): nat
    requires b <= |cs|
  {
    |Flat(cs[..b])|
  }

  lemma BeforeStep(cs: seq<seq<Node>>, b: nat)
    requires b < |cs|
    ensures Before(cs, b + 1) == Before(cs, b) + |cs[b]|
  {
    assert cs[..b + 1][..b] == cs[..b];
  }

  lemma {:induction false} FlatAt(cs: seq<seq<Node>>, b: nat, i: nat)
    requires b < |cs| && i < |cs[b]|
    ensures Before(cs, b) + i < |Flat(cs)| && Flat(cs)[Before(cs, b) + i] == cs[b][i]
  {
    var r := cs[..|cs| - 1];
    if b < |r| {
      FlatAt(r, b, i);
      assert r[..b] == cs[..b];
    } else {
      assert cs[..b] == r;
    }
  }

  /** Every place in the order is a place in a bucket. */
  lemma {:induction false} FlatFrom(cs: seq<seq<Node>>, p: nat) returns (b: nat, i: nat)
    requires p < |Flat(cs)|
    ensures b < |cs| && i < |cs[b]| && p == Before(cs, b) + i && Flat(cs)[p] == cs[b][i]
  {
    var r := cs[..|cs| - 1];
    if p < |Flat(r)| {
      b, i := FlatFrom(r, p);
      assert r[..b] == cs[..b];
    } else {
      b, i := |cs| - 1, p - |Flat(r)|;
      assert cs[..b] == r;
    }
  }

  /** Empty buckets take no place in the order. */
  lemma {:induction false} SkipEmpty(cs: seq<seq<Node>>, b: nat, c: nat)
    requires b <= c <= |cs| && forall d :: b <= d < c ==> cs[d] == []
    ensures Before(cs, c) == Before(cs, b)
  {
    if b < c {
      SkipEmpty(cs, b, c - 1);
      BeforeStep(cs, c - 1);
    }
  }

  /** No element comes twice. */
  lemma OrderOnce(L: Layout, p: nat, q: nat)
    requires L.Ok() && p < q < |Order(L)|
    ensures Order(L)[p] != Order(L)[q]
  {
    var b, i := FlatFrom(L.chain, p);
    var c, j := FlatFrom(L.chain, q);
    L.Present(b, i);
    L.Present(c, j);
    L.Chain(b);
  }

  lemma {:induction false} BeforeMonotone(cs: seq<seq<Node>>, b: nat, c: nat)
    requires b <= c <= |cs|
    ensures Before(cs, b) <= Before(cs, c)
  {
    if b < c {
      BeforeMonotone(cs, b, c - 1);
      BeforeStep(cs, c - 1);
    }
  }

  /** The walk goes up the buckets, and down each of them from its head. */
  lemma OrderAscends(L: Layout, b: nat, i: nat, c: nat, j: nat) returns (p: nat, q: nat)
    requires L.Ok() && b < |L.chain| && i < |L.chain[b]| && c < |L.chain| && j < |L.chain[c]|
    requires b < c || (b == c && i < j)
    ensures p < q < |Order(L)| && Order(L)[p] == L.chain[b][i] && Order(L)[q] == L.chain[c][j]
  {
    p, q := Before(L.chain, b) + i, Before(L.chain, c) + j;
    FlatAt(L.chain, b, i);
    FlatAt(L.chain, c, j);
    if b < c {
      BeforeStep(L.chain, b);
      BeforeMonotone(L.chain, b + 1, c);
    }
  }

  /** What comes is in the index under its own key. */
  lemma Listed(L: Layout, p: nat)
    requires L.Ok() && p < |Order(L)|
    ensures var n := Order(L)[p]; n.key in L.index && L.index[n.key] == n
  {
    var b, i := FlatFrom(L.chain, p);
    L.Present(b, i);
  }

  /** The elements that come are those of the table. */
  lemma OrderAll(L: Layout)
    requires L.Ok()
    ensures forall p :: 0 <= p < |Order(L)| ==> Order(L)[p] in L.Nodes()
    ensures forall k :: k in L.index ==> L.index[k] in Order(L)
  {
    forall p | 0 <= p < |Order(L)| ensures Order(L)[p] in L.Nodes() {
      Listed(L, p);
    }
    forall k | k in L.index ensures L.index[k] in Order(L) {
      L.Key(k);
      var b := L.Home(k);
      var i :| 0 <= i < |L.chain[b]| && L.chain[b][i] == L.index[k];
      FlatAt(L.chain, b, i);
    }
  }

  ghost function Keys(s: seq<Node>): set<Key> {
    set n | n in s :: n.key
  }

  lemma {:induction false} KeysCount(s: seq<Node>)
    requires forall i, j :: 0 <= i < j < |s| ==> s[i].key != s[j].key
    ensures |Keys(s)| == |s|
  {
    if s != [] {
      var r, last := s[..|s| - 1], s[|s| - 1];
      KeysCount(r);
      assert s == r + [last];
      assert Keys(s) == Keys(r) + {last.key};
      assert last.key !in Keys(r);
    }
  }

  /** A walk has exactly as many steps as there are keys. */
  lemma OrderCount(L: Layout)
    requires L.Ok()
    ensures |Order(L)| == |L.index|
  {
    var s := Order(L);
    OrderAll(L);
    forall i | 0 <= i < |s| ensures s[i].key in L.index && L.index[s[i].key] == s[i] {
      Listed(L, i);
    }
    forall i, j | 0 <= i < j < |s| ensures s[i].key != s[j].key {
      OrderOnce(L, i, j);
    }
    KeysCount(s);
    forall k | k in L.index ensures k in Keys(s) {
      L.Key(k);
      assert L.index[k] in s;
    }
    assert Keys(s) == L.index.Keys;
  }

  /** The element that comes at place p, or none at the end. */
  ghost function ElementAt(L: Layout, p: nat): Node? {
    if p < |Order(L)| then Order(L)[p] else null
  }

  /** Where bucket b starts is the first element of the first bucket in use from b on. */
  lemma FirstFrom(L: Layout, b: nat, c: nat)
    requires L.Ok() && b <= c <= |L.slots|
    requires forall d :: b <= d < c ==> L.chain[d] == []
    ensures c < |L.slots| && L.chain[c] != [] ==> ElementAt(L, Before(L.chain, b)) == L.chain[c][0]
    ensures c == |L.slots| ==> ElementAt(L, Before(L.chain, b)) == null
  {
    SkipEmpty(L.chain, b, c);
    if c < |L.slots| {
      if L.chain[c] != [] {
        FlatAt(L.chain, c, 0);
      }
    } else {
      assert L.chain[..c] == L.chain;
    }
  }

  /** Place p is at position i of the bucket its element lives in. */
  lemma PlaceIs(L: Layout, p: nat, i: nat)
    requires L.Ok() && p < |Order(L)|
    requires var c := L.chain[L.Home(Order(L)[p].key)]; i < |c| && c[i] == Order(L)[p]
    ensures p == Before(L.chain, L.Home(Order(L)[p].key)) + i
  {
    var b := L.Home(Order(L)[p].key);
    FlatAt(L.chain, b, i);
    var q := Before(L.chain, b) + i;
    if p < q {
      OrderOnce(L, p, q);
    } else if q < p {
      OrderOnce(L, q, p);
    }
  }

  /** What comes after the i-th element of a bucket. */
  lemma NextPlace(L: Layout, p: nat, i: nat)
    requires L.Ok() && p < |Order(L)|
    requires var c := L.chain[L.Home(Order(L)[p].key)]; i < |c| && c[i] == Order(L)[p]
    ensures var b := L.Home(Order(L)[p].key);
            && (i + 1 < |L.chain[b]| ==> ElementAt(L, p + 1) == L.chain[b][i + 1])
            && (i + 1 == |L.chain[b]| ==> p + 1 == Before(L.chain, b + 1))
  {
    PlaceIs(L, p, i);
    var b := L.Home(Order(L)[p].key);
    BeforeStep(L.chain, b);
    if i + 1 < |L.chain[b]| {
      FlatAt(L.chain, b, i + 1);
    }
  }

  /** The element at place p is alive, and so is the next one once it is gone. */
  lemma Survives(L: Layout, p: nat)
    requires L.Ok() && p < |Order(L)|
    ensures Order(L)[p] in L.Nodes()
    ensures var next := ElementAt(L, p + 1); next != null ==> next in (L.index - {Order(L)[p].key}).Values
  {
    OrderAll(L);
    if p + 1 < |Order(L)| {
      var b, i := FlatFrom(L.chain, p);
      L.Present(b, i);
      var c, j := FlatFrom(L.chain, p + 1);
      L.Present(c, j);
      OrderOnce(L, p, p + 1);
      var r := L.index - {Order(L)[p].key};
      var k := Order(L)[p + 1].key;
      assert k in r && r[k] == Order(L)[p + 1];
    }
  }
}
