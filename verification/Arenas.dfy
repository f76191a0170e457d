/** SerialArena (arena_impl.h): objects grow up from ptr, cleanup records grow down from limit, and
    returned arrays are kept in free lists whose heads live inside one of the returned arrays. */
module Arenas {
  import opened Alignment
  import opened Bits
  import opened Powers

  const CLEANUP_SIZE := 16
  const BLOCK_HEADER_SIZE := 24
  const POINTER_SIZE := 8
  const MAX_LISTS := 64

  datatype Region = Region(start: nat, size: nat)

  datatype CleanupRecord = CleanupRecord(node: nat, elem: nat, cleanup: nat)

  /** What a byte of the arena's memory is used for; no byte has two uses. A cached block is named by its
      list and its distance from the bottom of that list. */
  datatype Use = Object(start: nat) | Cached(list: nat, place: nat) | Heads | Cleanup(k: nat) | Spent

  predicate Inside(a: nat, start: nat, size: nat) {
    start <= a < start + size
  }

  function Bytes(start: nat, size: nat): (s: set<nat>)
    ensures forall a :: a in s <==> Inside(a, start, size)
  {
    if size == 0 then {} else Bytes(start, size - 1) + {start + size - 1}
  }

  function Retag(owner: map<nat, Use>, from: Use, to: Use): (r: map<nat, Use>)
    ensures r.Keys == owner.Keys
    ensures forall a :: a in owner ==> r[a] == if owner[a] == from then to else owner[a]
  {
    map a | a in owner :: if owner[a] == from then to else owner[a]
  }

  function Claim(owner: map<nat, Use>, start: nat, size: nat, use: Use): (r: map<nat, Use>)
    ensures forall a :: a in r <==> a in owner || Inside(a, start, size)
    ensures forall a :: a in r ==> r[a] == if Inside(a, start, size) then use else owner[a]
  {
    map a | a in owner.Keys + Bytes(start, size) :: if Inside(a, start, size) then use else owner[a]
  }

  ghost predicate Holds(owner: map<nat, Use>, start: nat, size: nat, use: Use) {
    forall a :: Inside(a, start, size) ==> a in owner && owner[a] == use
  }

  /** The block a list offers next; the bottom is first. */
  function Top(list: seq<Region>): nat {
    if list == [] then 0 else list[|list| - 1].start
  }

  /** Whether the list for `size` bytes has a block. */
  predicate Offers(lists: seq<seq<Region>>, size: nat) {
    16 <= size && SearchIndex(size) < |lists| && lists[SearchIndex(size)] != []
  }

  // List indices

  /** The list that is searched for a block of `size` bytes. */
  function SearchIndex(size: nat): nat
    requires 16 <= size
  {
    LogAtLeast(size - 1, 3);
    Log2Floor(size - 1) - 3
  }

  /** The list that takes a block of `size` bytes. */
  function ReturnIndex(size: nat): nat
    requires 16 <= size
  {
    LogAtLeast(size, 4);
    Log2Floor(size) - 4
  }

  /** Any block a list may hold is large enough for any size that searches it. */
  lemma SearchFits(size: nat)
    requires 16 <= size
    ensures size <= Pow2(SearchIndex(size) + 4)
  {
    LogAtLeast(size - 1, 3);
    Log2Bounds(size - 1);
  }

  /** No list below it would do. */
  lemma SearchIsLeast(size: nat)
    requires 16 <= size
    ensures SearchIndex(size) == 0 || Pow2(SearchIndex(size) + 3) < size
  {
    LogAtLeast(size - 1, 3);
    Log2Bounds(size - 1);
  }

  /** The block is too small for the list above. */
  lemma ReturnIsGreatest(size: nat)
    requires 16 <= size
    ensures Pow2(ReturnIndex(size) + 4) <= size < Pow2(ReturnIndex(size) + 5)
  {
    LogAtLeast(size, 4);
    Log2Bounds(size);
  }

  /** A request of more than half the size of the blocks in a list, and at most their size, is looked for there. */
  lemma SearchesWhereReturned(size: nat, n: nat, i: nat)
    requires Pow2(i + 4) <= size < Pow2(i + 5)
    requires 16 <= n && (i == 0 || Pow2(i + 3) < n) && n <= Pow2(i + 4)
    ensures 16 <= size && ReturnIndex(size) == i && SearchIndex(n) == i
  {
    hide Pow2;
    Pow2Four();
    Pow2Monotone(4, i + 4);
    ReturnIsGreatest(size);
    SearchIsLeast(n);
    SearchFits(n);
    SamePower(ReturnIndex(size) + 4, i + 4, size);
    if SearchIndex(n) < i {
      Pow2Monotone(SearchIndex(n) + 4, i + 3);
    } else if i < SearchIndex(n) {
      Pow2Monotone(i + 4, SearchIndex(n) + 3);
    }
  }

  lemma Pow2Four()
    ensures Pow2(4) == 16
  {
  }

  lemma SamePower(a: nat, b: nat, v: nat)
    requires Pow2(a) <= v < Pow2(a + 1) && Pow2(b) <= v < Pow2(b + 1)
    ensures a == b
  {
    hide Pow2;
    if a < b {
      Pow2Monotone(a + 1, b);
    } else if b < a {
      Pow2Monotone(b + 1, a);
    }
  }

  lemma ReturnFits(size: nat)
    requires 16 <= size
    ensures Pow2(ReturnIndex(size) + 4) <= size && (size < Pow2(64) ==> ReturnIndex(size) < 60)
  {
    LogAtLeast(size, 4);
    Log2Bounds(size);
    if size < Pow2(64) {
      LogBelow(size, 64);
    }
  }

  function TableLength(size: nat): nat {
    if size / POINTER_SIZE < MAX_LISTS then size / POINTER_SIZE else MAX_LISTS
  }

  /** A block too large for the table holds a longer table, which has a list for the block's own size. */
  lemma TableGrows(size: nat, length: nat)
    requires 16 <= size < Pow2(64) && length <= ReturnIndex(size)
    ensures length < TableLength(size) && ReturnIndex(size) < TableLength(size)
  {
    ReturnFits(size);
    var i := ReturnIndex(size);
    Pow2Exceeds(i);
    assert Pow2(i + 4) == 2 * Pow2(i + 3) == 4 * Pow2(i + 2) == 8 * Pow2(i + 1) == 16 * Pow2(i);
  }

  class SerialArena {
    var ptr: nat
    var limit: nat
    var cachedLength: nat
    var cachedBlocks: nat
    /** One pointer-sized value per aligned address. */
    var mem: map<nat, nat>

    ghost var owner: map<nat, Use>
    ghost var live: map<nat, nat>
    ghost var lists: seq<seq<Region>>
    ghost var records: seq<CleanupRecord>

    function Read(a: nat): nat
      reads `mem
    {
      if a in mem then mem[a] else 0
    }

    /** Nothing lies between the two ends. */
    ghost predicate GapOk()
      reads `ptr, `limit, `owner
    {
      && 0 < ptr <= limit && ptr % 8 == 0 && limit % 8 == 0
      && forall a :: a in owner ==> a < ptr || limit <= a
    }

    ghost predicate LiveOk()
      reads `live, `owner
    {
      forall s :: s in live ==> 0 < s && s % 8 == 0 && 0 < live[s] && Holds(owner, s, live[s], Object(s))
    }

    ghost predicate ListAt(i: nat)
      requires i < |lists|
      reads `lists, `owner, `mem, `cachedBlocks
    {
      && Read(cachedBlocks + POINTER_SIZE * i) == Top(lists[i])
      && forall k :: 0 <= k < |lists[i]| ==> BlockAt(i, k)
    }

    ghost predicate BlockAt(i: nat, k: nat)
      requires i < |lists| && k < |lists[i]|
      reads `lists, `owner, `mem
    {
      var b := lists[i][k];
      && 0 < b.start && b.start % 8 == 0 && Pow2(i + 4) <= b.size
      && Holds(owner, b.start, b.size, Cached(i, k)) && Read(b.start) == Top(lists[i][..k])
    }

    ghost predicate CacheOk()
      reads `cachedLength, `lists, `owner, `mem, `cachedBlocks
    {
      && |lists| == cachedLength <= MAX_LISTS
      && Holds(owner, cachedBlocks, POINTER_SIZE * cachedLength, Heads)
      && forall i :: 0 <= i < |lists| ==> ListAt(i)
    }

    ghost predicate RecordAt(k: nat)
      requires k < |records|
      reads `records, `owner, `mem
    {
      var r := records[k];
      && r.node % 8 == 0 && Holds(owner, r.node, CLEANUP_SIZE, Cleanup(k))
      && Read(r.node) == r.elem && Read(r.node + POINTER_SIZE) == r.cleanup
    }

    ghost predicate RecordsOk()
      reads `records, `owner, `mem
    {
      forall k :: 0 <= k < |records| ==> RecordAt(k)
    }

    ghost predicate Valid()
      reads this
    {
      GapOk() && LiveOk() && CacheOk() && RecordsOk()
    }

    function HasSpace(n: nat): bool
      requires ptr <= limit
      reads `ptr, `limit
    {
      n <= limit - ptr
    }

    /** Live objects never overlap. */
    lemma LiveDisjoint(s: nat, t: nat)
      requires Valid() && s in live && t in live && s != t
      ensures s + live[s] <= t || t + live[t] <= s
    {
      var a := if s < t then t else s;
      assert Inside(a, s, live[s]) ==> a in owner && owner[a] == Object(s);
      assert Inside(a, t, live[t]) ==> a in owner && owner[a] == Object(t);
    }

    lemma UnusedIsNotLive(a: nat)
      requires LiveOk() && (a !in owner || owner[a] != Object(a))
      ensures a !in live
    {
      assert a in live ==> Inside(a, a, live[a]);
    }

    /** Bytes with this use keep it, and the values stored in them. */
    twostate predicate Kept(new use: Use)
      reads `owner, `mem
    {
      forall a :: a in old(owner) && old(owner)[a] == use ==>
        a in owner && owner[a] == use && Read(a) == old(Read(a))
    }

    twostate lemma BlockKept(new i: nat, new k: nat)
      requires i < |old(lists)| && k < |old(lists[i])| && old(BlockAt(i, k)) && Kept(Cached(i, k))
      requires i < |lists| && k < |lists[i]| && lists[i][..k + 1] == old(lists[i][..k + 1])
      ensures BlockAt(i, k)
    {
      hide Pow2;
      var now, was := lists[i], old(lists)[i];
      assert now[..k] == now[..k + 1][..k] && was[..k] == was[..k + 1][..k];
      assert now[k] == now[..k + 1][k] && was[k] == was[..k + 1][k];
      Pow2Exceeds(i + 4);
      assert Inside(now[k].start, now[k].start, now[k].size);
    }

    twostate lemma ListKept(new i: nat)
      requires i < |old(lists)| && i < |lists| && lists[i] == old(lists[i]) && old(ListAt(i))
      requires forall k :: 0 <= k < |lists[i]| ==> Kept(Cached(i, k))
      requires Read(cachedBlocks + POINTER_SIZE * i) == old(Read(cachedBlocks + POINTER_SIZE * i))
      ensures ListAt(i)
    {
      hide BlockAt, Kept;
      forall k | 0 <= k < |lists[i]|
        ensures BlockAt(i, k)
      {
        BlockKept(i, k);
      }
    }

    twostate lemma RecordsKept()
      requires old(RecordsOk()) && records == old(records)
      requires forall k :: 0 <= k < |records| ==> Kept(Cleanup(k))
      ensures RecordsOk()
    {
      forall k | 0 <= k < |records|
        ensures RecordAt(k)
      {
        assert old(RecordAt(k)) && Kept(Cleanup(k));
        assert Inside(records[k].node, records[k].node, CLEANUP_SIZE);
        assert Inside(records[k].node + POINTER_SIZE, records[k].node, CLEANUP_SIZE);
      }
    }

    /** One use gave way to another, and only its bytes and the table of heads were written. */
    twostate lemma Retagged(new from: Use, new to: Use)
      requires old(RecordsOk()) && records == old(records) && !from.Cleanup?
      requires owner == Retag(old(owner), from, to)
      requires forall a :: Read(a) == old(Read(a)) || (a in old(owner) && old(owner)[a] in {from, Heads})
      ensures RecordsOk() && forall u :: u != from && u != Heads ==> Kept(u)
    {
      hide RecordAt;
      forall u | u != from && u != Heads
        ensures Kept(u)
      {
      }
      RecordsKept();
    }

    /** More bytes in use, the rest as it was. */
    twostate lemma UseGrew()
      requires old(CacheOk() && RecordsOk()) && unchanged(`cachedLength, `cachedBlocks, `mem, `lists, `records)
      requires forall a :: a in old(owner) ==> a in owner && owner[a] == old(owner)[a]
      ensures CacheOk() && RecordsOk()
    {
      hide BlockAt;
      RecordsKept();
      forall i | 0 <= i < |lists|
        ensures ListAt(i)
      {
        ListKept(i);
      }
    }

    twostate lemma LiveKept()
      requires old(LiveOk()) && live == old(live)
      requires forall a :: a in old(owner) ==> a in owner && owner[a] == old(owner)[a]
      ensures LiveOk()
    {
      forall s | s in live
        ensures Holds(owner, s, live[s], Object(s))
      {
        assert Holds(old(owner), s, live[s], Object(s));
      }
    }

    constructor (base: nat, size: nat)
      requires 0 < base && base % 8 == 0 && size % 8 == 0 && BLOCK_HEADER_SIZE <= size
      ensures Valid() && ptr == base + BLOCK_HEADER_SIZE && limit == base + size
      ensures live == map[] && lists == [] && records == [] && owner == map[]
    {
      ptr, limit := base + BLOCK_HEADER_SIZE, base + size;
      cachedLength, cachedBlocks, mem := 0, 0, map[];
      owner, live, lists, records := map[], map[], [], [];
    }

    static lemma ClaimedAbove(owner: map<nat, Use>, start: nat, size: nat, use: Use)
      requires forall a :: a in owner ==> a < start || start + size <= a
      ensures var r := Claim(owner, start, size, use);
              && (forall a :: a in owner ==> a in r && r[a] == owner[a])
              && forall a :: a in r ==> a in owner || start <= a < start + size
    {
    }

    twostate lemma LiveGrew(new s: nat, new n: nat)
      requires old(LiveOk()) && 0 < s && s % 8 == 0 && 0 < n && s !in old(live)
      requires live == old(live)[s := n] && owner == Claim(old(owner), s, n, Object(s))
      requires forall a :: a in old(owner) ==> a in owner && owner[a] == old(owner)[a]
      ensures LiveOk()
    {
      forall t | t in live
        ensures Holds(owner, t, live[t], Object(t))
      {
        assert t != s ==> Holds(old(owner), t, old(live)[t], Object(t));
      }
    }

    /** Nothing is used now but what was used before, the gap and the given block. */
    twostate predicate StaysIn(new block: Region)
      reads `owner, `ptr, `limit
    {
      && (forall a :: a in owner ==>
            a in old(owner) || Inside(a, block.start, block.size) || old(ptr) <= a < old(limit))
      && ((old(ptr) <= ptr && limit <= old(limit))
          || (block.start <= ptr && limit <= block.start + block.size))
    }

    method AllocateFromExisting(n: nat) returns (ret: nat)
      requires Valid() && n % 8 == 0 && HasSpace(n)
      modifies `ptr, `owner, `live
      ensures forall a :: a in owner ==> a in old(owner) || old(ptr) <= a < ptr
      ensures Valid() && ret == old(ptr) && ptr == ret + n
      ensures live == if n == 0 then old(live) else old(live)[ret := n]
      ensures 0 < n ==> ret !in old(live)
    {
      hide Pow2, LiveOk, CacheOk, RecordsOk, Claim, Inside;
      ret := ptr;
      ptr := ptr + n;
      if 0 < n {
        UnusedIsNotLive(ret);
        owner := Claim(owner, ret, n, Object(ret));
        live := live[ret := n];
        ClaimedAbove(old(owner), ret, n, Object(ret));
        LiveGrew(ret, n);
      }
      UseGrew();
    }

    /** Taking the top block off list i keeps everything else. */
    twostate lemma Popped(new i: nat)
      requires old(Valid()) && i < |old(lists)| && old(lists[i]) != []
      requires old(ListAt(i)) && old(BlockAt(i, |lists[i]| - 1))
      requires unchanged(`ptr, `limit, `cachedLength, `cachedBlocks, `records)
      requires var k := |old(lists)[i]| - 1;
               var b := old(lists)[i][k];
               var head := cachedBlocks + POINTER_SIZE * i;
               && mem == old(mem)[head := old(Read(b.start))]
               && owner == Retag(old(owner), Cached(i, k), Object(b.start))
               && live == old(live)[b.start := b.size] && b.start !in old(live)
               && lists == old(lists)[i := old(lists)[i][..k]]
      ensures Valid()
    {
      hide Pow2, ListAt, RecordAt, Kept;
      var k := |old(lists)[i]| - 1;
      Pow2Exceeds(i + 4);
      var head := cachedBlocks + POINTER_SIZE * i;
      assert Inside(head, cachedBlocks, POINTER_SIZE * cachedLength);
      Retagged(Cached(i, k), Object(old(lists)[i][k].start));
      forall j | 0 <= j < |lists| && j != i
        ensures ListAt(j)
      {
        assert old(ListAt(j));
        ListKept(j);
      }
      PoppedList(i);
    }

    twostate lemma PoppedList(new i: nat)
      requires i < |lists| == |old(lists)| && old(lists)[i] != [] && old(ListAt(i))
      requires var k := |old(lists)[i]| - 1;
               && lists[i] == old(lists)[i][..k]
               && Read(cachedBlocks + POINTER_SIZE * i) == old(Read(lists[i][k].start))
               && forall j :: 0 <= j < k ==> Kept(Cached(i, j))
      ensures ListAt(i)
    {
      hide Pow2, Kept;
      var was := old(lists)[i];
      var k := |was| - 1;
      assert old(BlockAt(i, k)) && old(Read(lists[i][k].start)) == Top(was[..k]) by {
        assert old(BlockAt(i, k));
      }
      forall j | 0 <= j < k
        ensures BlockAt(i, j)
      {
        assert old(BlockAt(i, j));
        assert was[..k][..j + 1] == was[..j + 1];
        BlockKept(i, j);
      }
    }

    /** The block a new allocation from the system gives: memory no part of the arena uses. */
    ghost predicate Unused(block: Region)
      reads `owner, `ptr, `limit
    {
      && 0 < block.start && block.start % 8 == 0 && block.size % 8 == 0
      && (forall a :: a in owner ==> a < block.start || block.start + block.size <= a)
      && (block.start + block.size <= ptr || limit <= block.start)
    }

    /** What is left of the current block is given up. */
    method AllocateNewBlock(n: nat, block: Region)
      requires Valid() && Unused(block) && BLOCK_HEADER_SIZE + n <= block.size
      modifies `ptr, `limit, `owner
      ensures Valid() && HasSpace(n) && ptr == block.start + 24 && limit == block.start + block.size
      ensures StaysIn(block)
    {
      hide LiveOk, CacheOk, RecordsOk, Claim;
      ptr, limit := block.start + BLOCK_HEADER_SIZE, block.start + block.size;
      owner := Claim(owner, block.start, BLOCK_HEADER_SIZE, Spent);
      ClaimedAbove(old(owner), block.start, BLOCK_HEADER_SIZE, Spent);
      UseGrew();
      LiveKept();
    }

    /** Free lists first for arrays, then the current block, then a new one. */
    method AllocateAligned(n: nat, forArray: bool, block: Region) returns (ret: nat)
      requires Valid() && n % 8 == 0 && Unused(block) && BLOCK_HEADER_SIZE + n <= block.size
      modifies this
      ensures Valid() && ret % 8 == 0 && records == old(records)
      ensures 0 < n ==> ret in live && n <= live[ret] && ret !in old(live)
      ensures forall s :: s in old(live) ==> s in live && live[s] == old(live)[s]
      ensures ret == if forArray && Offers(old(lists), n) then Top(old(lists)[SearchIndex(n)])
                     else if n <= old(limit) - old(ptr) then old(ptr) else block.start + 24
      ensures StaysIn(block)
      ensures !forArray ==> ret + n == ptr <= limit && (limit == old(limit) || limit == block.start + block.size)
    {
      ret := 0;
      if forArray {
        ret := TryAllocateFromCachedBlock(n);
      }
      if ret == 0 {
        if !HasSpace(n) {
          AllocateNewBlock(n, block);
        }
        ret := AllocateFromExisting(n);
      }
    }

    method MaybeAllocateAligned(n: nat) returns (ok: bool, out: nat)
      requires Valid() && n % 8 == 0
      modifies `ptr, `owner, `live
      ensures Valid() && ok == (n <= old(limit) - old(ptr))
      ensures ok ==> out == old(ptr) && ptr == out + n && live == if n == 0 then old(live) else old(live)[out := n]
      ensures !ok ==> unchanged(this)
    {
      ok, out := HasSpace(n), 0;
      if ok {
        out := AllocateFromExisting(n);
      }
    }

    method TryAllocateFromCachedBlock(size: nat) returns (ret: nat)
      requires Valid()
      modifies `mem, `owner, `live, `lists
      ensures Valid() && owner.Keys == old(owner.Keys)
      ensures ret != 0 <==> Offers(old(lists), size)
      ensures ret == 0 ==> unchanged(this)
      ensures ret != 0 ==>
                var i := SearchIndex(size);
                var k := |old(lists)[i]| - 1;
                var b := old(lists)[i][k];
                && ret == b.start && ret % 8 == 0 && size <= b.size && ret !in old(live)
                && live == old(live)[ret := b.size] && lists == old(lists)[i := old(lists)[i][..k]]
    {
      ret := 0;
      if size < 16 {
        return;
      }
      var index := SearchIndex(size);
      if index >= cachedLength {
        return;
      }
      var head := cachedBlocks + POINTER_SIZE * index;
      assert ListAt(index);
      if Read(head) == 0 {
        assert lists[index] != [] ==> BlockAt(index, |lists[index]| - 1);
        return;
      }
      ghost var k := |lists[index]| - 1;
      assert BlockAt(index, k);
      ret := Read(head);
      SearchFits(size);
      assert Inside(ret, ret, lists[index][k].size);
      UnusedIsNotLive(ret);
      mem := mem[head := Read(ret)];
      owner := Retag(owner, Cached(index, k), Object(ret));
      live := live[ret := lists[index][k].size];
      lists := lists[index := lists[index][..k]];
      Popped(index);
    }

    /** A returned array goes on the list for its size; if there is none, it becomes the table of lists. */
    method ReturnArrayMemory(p: nat, size: nat)
      requires Valid() && p in live && 16 <= size <= live[p] && size < Pow2(64)
      modifies `mem, `owner, `live, `lists, `cachedLength, `cachedBlocks
      ensures Valid() && live == old(live) - {p} && owner.Keys == old(owner.Keys)
      ensures var i := ReturnIndex(size);
              if i < |old(lists)| then
                lists == old(lists)[i := old(lists)[i] + [Region(p, size)]] && cachedBlocks == old(cachedBlocks)
              else
                && |old(lists)| < |lists| == (if size < 512 then size / 8 else 64) && i < |lists| && cachedBlocks == p
                && forall j :: 0 <= j < |lists| ==> lists[j] == if j < |old(lists)| then old(lists)[j] else []
    {
      hide Pow2;
      var index := ReturnIndex(size);
      ReturnFits(size);
      assert Inside(p, p, live[p]);
      if index >= cachedLength {
        TableGrows(size, cachedLength);
        TakeAsTable(p, size);
      } else {
        var head := cachedBlocks + POINTER_SIZE * index;
        assert ListAt(index);
        mem := mem[p := Read(head)];
        mem := mem[head := p];
        owner := Retag(owner, Object(p), Cached(index, |lists[index]|));
        lists := lists[index := lists[index] + [Region(p, size)]];
        live := live - {p};
        Pushed(index, p, size);
      }
    }

    /** Putting a live block on top of list i keeps everything else. */
    twostate lemma Pushed(new i: nat, new p: nat, new size: nat)
      requires old(Valid()) && i < |old(lists)| && old(ListAt(i)) && p in old(live)
      requires 16 <= size <= old(live)[p] && Pow2(i + 4) <= size
      requires unchanged(`ptr, `limit, `cachedLength, `cachedBlocks, `records)
      requires var head := cachedBlocks + POINTER_SIZE * i;
               && mem == old(mem)[p := old(Read(head))][head := p]
               && owner == Retag(old(owner), Object(p), Cached(i, |old(lists)[i]|))
               && live == old(live) - {p} && lists == old(lists)[i := old(lists)[i] + [Region(p, size)]]
      ensures Valid()
    {
      hide Pow2, ListAt, RecordAt, Kept;
      var head := cachedBlocks + POINTER_SIZE * i;
      assert Inside(head, cachedBlocks, POINTER_SIZE * cachedLength);
      assert Inside(p, p, old(live)[p]);
      Retagged(Object(p), Cached(i, |old(lists)[i]|));
      forall j | 0 <= j < |lists| && j != i
        ensures ListAt(j)
      {
        assert old(ListAt(j));
        assert Inside(cachedBlocks + POINTER_SIZE * j, cachedBlocks, POINTER_SIZE * cachedLength);
        ListKept(j);
      }
      PushedList(i, p, size);
    }

    twostate lemma PushedList(new i: nat, new p: nat, new size: nat)
      requires i < |lists| == |old(lists)| && old(ListAt(i)) && lists[i] == old(lists)[i] + [Region(p, size)]
      requires 0 < p && p % 8 == 0 && Pow2(i + 4) <= size && Holds(owner, p, size, Cached(i, |old(lists)[i]|))
      requires Read(cachedBlocks + POINTER_SIZE * i) == p
      requires Read(p) == old(Read(cachedBlocks + POINTER_SIZE * i))
      requires forall j :: 0 <= j < |old(lists)[i]| ==> Kept(Cached(i, j))
      ensures ListAt(i)
    {
      hide Pow2, Kept;
      var was := old(lists)[i];
      assert lists[i][..|was|] == was;
      forall j | 0 <= j < |was|
        ensures BlockAt(i, j)
      {
        assert old(BlockAt(i, j));
        assert (was + [Region(p, size)])[..j + 1] == was[..j + 1];
        BlockKept(i, j);
      }
    }

    method TakeAsTable(p: nat, size: nat)
      requires Valid() && p in live && 16 <= size <= live[p] && cachedLength < TableLength(size)
      modifies `mem, `owner, `live, `lists, `cachedLength, `cachedBlocks
      ensures Valid() && live == old(live) - {p} && |lists| == TableLength(size) && cachedBlocks == p
      ensures owner.Keys == old(owner.Keys)
      ensures forall j :: 0 <= j < |lists| ==> lists[j] == if j < |old(lists)| then old(lists)[j] else []
    {
      hide Pow2, GapOk, LiveOk, CacheOk, RecordsOk;
      var newSize := size / POINTER_SIZE;
      TableApart(p);
      CopyHeads(p, newSize);
      cachedBlocks := p;
      cachedLength := if newSize < MAX_LISTS then newSize else MAX_LISTS;
      owner := Retag(Retag(owner, Heads, Spent), Object(p), Heads);
      lists := lists + seq(cachedLength - |lists|, _ => []);
      live := live - {p};
      TableTaken(p, size);
    }

    lemma TableApart(p: nat)
      requires Valid() && p in live
      ensures cachedBlocks + POINTER_SIZE * cachedLength <= p || p + live[p] <= cachedBlocks || cachedLength == 0
      ensures |lists| == cachedLength
    {
      hide ListAt, RecordAt;
      var a := if p < cachedBlocks then cachedBlocks else p;
      assert Inside(a, p, live[p]) ==> a in owner && owner[a] == Object(p);
      assert Inside(a, cachedBlocks, POINTER_SIZE * cachedLength) ==> a in owner && owner[a] == Heads;
    }

    method CopyHeads(newList: nat, newSize: nat)
      requires cachedLength <= newSize
      requires cachedBlocks + POINTER_SIZE * cachedLength <= newList || newList + POINTER_SIZE * newSize <= cachedBlocks
        || cachedLength == 0
      modifies `mem
      ensures forall a :: !Inside(a, newList, POINTER_SIZE * newSize) ==> Read(a) == old(Read(a))
      ensures forall j :: 0 <= j < newSize ==>
        Read(newList + POINTER_SIZE * j) == if j < cachedLength then old(Read(cachedBlocks + POINTER_SIZE * j)) else 0
    {
      for i := 0 to cachedLength
        invariant forall a :: !Inside(a, newList, POINTER_SIZE * newSize) ==> Read(a) == old(Read(a))
        invariant forall j :: 0 <= j < i ==>
          Read(newList + POINTER_SIZE * j) == old(Read(cachedBlocks + POINTER_SIZE * j))
      {
        mem := mem[newList + POINTER_SIZE * i := Read(cachedBlocks + POINTER_SIZE * i)];
      }
      for i := cachedLength to newSize
        invariant forall a :: !Inside(a, newList, POINTER_SIZE * newSize) ==> Read(a) == old(Read(a))
        invariant forall j :: 0 <= j < i ==>
          Read(newList + POINTER_SIZE * j) == if j < cachedLength then old(Read(cachedBlocks + POINTER_SIZE * j)) else 0
      {
        mem := mem[newList + POINTER_SIZE * i := 0];
      }
    }

    /** The new table has the old heads, and no list is lost. */
    twostate lemma TableTaken(new p: nat, new size: nat)
      requires old(Valid()) && p in old(live) && 16 <= size <= old(live)[p]
      requires |old(lists)| < TableLength(size) == cachedLength == |lists| && cachedBlocks == p
      requires unchanged(`ptr, `limit, `records)
      requires forall a :: !Inside(a, p, size) ==> Read(a) == old(Read(a))
      requires forall j :: 0 <= j < |lists| ==>
        Read(p + POINTER_SIZE * j) == if j < |old(lists)| then old(Read(cachedBlocks + POINTER_SIZE * j)) else 0
      requires owner == Retag(Retag(old(owner), Heads, Spent), Object(p), Heads) && live == old(live) - {p}
      requires forall j :: 0 <= j < |lists| ==> lists[j] == if j < |old(lists)| then old(lists)[j] else []
      ensures Valid()
    {
      hide Pow2, ListAt, RecordAt, Kept;
      forall u | u != Object(p) && u != Heads
        ensures Kept(u)
      {
        KeptByTable(p, size, u);
      }
      RecordsKept();
      forall j | 0 <= j < |lists|
        ensures ListAt(j)
      {
        if j < |old(lists)| {
          assert old(ListAt(j));
          ListKept(j);
        } else {
          EmptyList(j);
        }
      }
    }

    twostate lemma KeptByTable(new p: nat, new size: nat, new u: Use)
      requires old(LiveOk()) && p in old(live) && size <= old(live)[p] && u != Object(p) && u != Heads
      requires forall a :: !Inside(a, p, size) ==> Read(a) == old(Read(a))
      requires owner == Retag(Retag(old(owner), Heads, Spent), Object(p), Heads)
      ensures Kept(u)
    {
    }

    lemma EmptyList(i: nat)
      requires i < |lists| && lists[i] == [] && Read(cachedBlocks + POINTER_SIZE * i) == 0
      ensures ListAt(i)
    {
    }

    // Cleanup records

    method AllocateAlignedWithCleanup(n: nat, block: Region) returns (ret: nat, node: nat)
      requires Valid() && n % 8 == 0 && Unused(block) && BLOCK_HEADER_SIZE + n + CLEANUP_SIZE <= block.size
      modifies `ptr, `limit, `owner, `live, `records
      ensures Valid() && ret % 8 == 0 && |records| == |old(records)| + 1 && records[..|old(records)|] == old(records)
      ensures records[|old(records)|].node == node && StaysIn(block)
      ensures var fits := n + 16 <= old(limit) - old(ptr);
              && ret == (if fits then old(ptr) else block.start + 24)
              && node == limit == (if fits then old(limit) else block.start + block.size) - 16
      ensures live == if n == 0 then old(live) else old(live)[ret := n]
      ensures 0 < n ==> ret !in old(live)
    {
      if !HasSpace(n + CLEANUP_SIZE) {
        AllocateNewBlock(n + CLEANUP_SIZE, block);
      }
      node := TakeFromLimit();
      ret := AllocateFromExisting(n);
    }

    /** The far end of the block moves down over a new record, whose contents are not set yet. */
    method TakeFromLimit() returns (node: nat)
      requires Valid() && HasSpace(CLEANUP_SIZE)
      modifies `limit, `owner, `records
      ensures Valid() && node == limit == old(limit) - CLEANUP_SIZE
      ensures forall a :: a in owner ==> a in old(owner) || limit <= a < old(limit)
      ensures records == old(records) + [CleanupRecord(node, Read(node), Read(node + POINTER_SIZE))]
    {
      hide Pow2, CacheOk, RecordAt;
      limit := limit - CLEANUP_SIZE;
      node := limit;
      owner := Claim(owner, node, CLEANUP_SIZE, Cleanup(|records|));
      UseGrew();
      label Claimed:
      records := records + [CleanupRecord(node, Read(node), Read(node + POINTER_SIZE))];
      RecordAdded@Claimed();
    }

    twostate lemma RecordAdded()
      requires old(RecordsOk()) && unchanged(`owner, `mem) && |records| == |old(records)| + 1
      requires records[..|old(records)|] == old(records) && RecordAt(|old(records)|)
      ensures RecordsOk()
    {
      forall k | 0 <= k < |old(records)|
        ensures RecordAt(k)
      {
        assert old(RecordAt(k));
        assert records[k] == records[..|old(records)|][k];
      }
    }

    /** One more record, with what was registered; the others are as they were. */
    method AddCleanup(elem: nat, cleanup: nat, block: Region)
      requires Valid() && Unused(block) && BLOCK_HEADER_SIZE + CLEANUP_SIZE <= block.size
      modifies `ptr, `limit, `mem, `owner, `live, `records
      ensures Valid() && live == old(live) && |records| == |old(records)| + 1 && StaysIn(block)
      ensures records[..|old(records)|] == old(records)
      ensures records[|old(records)|].elem == elem && records[|old(records)|].cleanup == cleanup
    {
      var ret, node := AllocateAlignedWithCleanup(0, block);
      SetRecord(node, elem, cleanup);
    }

    method SetRecord(node: nat, elem: nat, cleanup: nat)
      requires Valid() && records != [] && records[|records| - 1].node == node
      modifies `mem, `records
      ensures Valid() && records == old(records)[|old(records)| - 1 := CleanupRecord(node, elem, cleanup)]
    {
      hide Pow2, ListAt;
      ghost var k := |records| - 1;
      assert RecordAt(k);
      mem := mem[node := elem];
      mem := mem[node + POINTER_SIZE := cleanup];
      records := records[k := CleanupRecord(node, elem, cleanup)];
      RecordSet(node, elem, cleanup);
    }

    twostate lemma RecordSet(new node: nat, new elem: nat, new cleanup: nat)
      requires old(Valid()) && old(records) != []
      requires unchanged(`ptr, `limit, `owner, `live, `lists, `cachedLength, `cachedBlocks)
      requires var k := |old(records)| - 1;
               && old(RecordAt(k)) && old(records)[k].node == node
               && mem == old(mem)[node := elem][node + POINTER_SIZE := cleanup]
               && records == old(records)[k := CleanupRecord(node, elem, cleanup)]
      ensures Valid()
    {
      hide Pow2, ListAt;
      var k := |old(records)| - 1;
      assert Inside(node, node, CLEANUP_SIZE) && Inside(node + POINTER_SIZE, node, CLEANUP_SIZE);
      forall u: Use | u != Cleanup(k)
        ensures Kept(u)
      {
      }
      forall j | 0 <= j < |lists|
        ensures ListAt(j)
      {
        assert old(ListAt(j));
        assert Inside(cachedBlocks + POINTER_SIZE * j, cachedBlocks, POINTER_SIZE * cachedLength);
        ListKept(j);
      }
      forall j | 0 <= j < k
        ensures RecordAt(j)
      {
        assert old(RecordAt(j)) && Kept(Cleanup(j));
        assert Inside(records[j].node, records[j].node, CLEANUP_SIZE);
        assert Inside(records[j].node + POINTER_SIZE, records[j].node, CLEANUP_SIZE);
      }
    }

    /** Records do not overlap each other. */
    lemma RecordsDisjoint(j: nat, k: nat)
      requires Valid() && j < |records| && k < |records| && j != k
      ensures records[j].node + CLEANUP_SIZE <= records[k].node || records[k].node + CLEANUP_SIZE <= records[j].node
    {
      var m, n := records[j].node, records[k].node;
      assert RecordAt(j) && RecordAt(k);
      var a := if m < n then n else m;
      assert Inside(a, m, CLEANUP_SIZE) ==> a in owner && owner[a] == Cleanup(j);
      assert Inside(a, n, CLEANUP_SIZE) ==> a in owner && owner[a] == Cleanup(k);
    }

    /** No record overlaps a live object. */
    lemma RecordApartFromLive(k: nat, s: nat)
      requires Valid() && k < |records| && s in live
      ensures records[k].node + CLEANUP_SIZE <= s || s + live[s] <= records[k].node
    {
      var n := records[k].node;
      assert RecordAt(k);
      var b := if n < s then s else n;
      assert Inside(b, n, CLEANUP_SIZE) ==> b in owner && owner[b] == Cleanup(k);
      assert Inside(b, s, live[s]) ==> b in owner && owner[b] == Object(s);
    }

    /** A client writes into an object of its own: the word around that byte may hold anything then. */
    method WriteObject(s: nat, a: nat, value: nat)
      requires Valid() && s in live && Inside(a, s, live[s])
      modifies `mem
      ensures Valid() && forall b: nat :: b / 8 != a / 8 ==> Read(b) == old(Read(b))
    {
      hide Pow2, ListAt, RecordAt, Kept;
      assert Inside(a - a % 8, s, live[s]);
      mem := mem[a - a % 8 := value];
      assert owner == Retag(owner, Object(s), Object(s));
      Retagged(Object(s), Object(s));
      forall j | 0 <= j < |lists|
        ensures ListAt(j)
      {
        assert old(ListAt(j));
        assert Inside(cachedBlocks + POINTER_SIZE * j, cachedBlocks, POINTER_SIZE * cachedLength);
        ListKept(j);
      }
    }

    /** Over-aligned objects (Arena::AllocateAligned): the aligned address and `size` bytes behind it lie
        inside what was allocated. `k` is the logarithm of the alignment. */
    method AllocateOverAligned(size: nat, k: nat, block: Region) returns (p: nat, aligned: nat)
      requires Valid() && size % 8 == 0 && 3 < k < 64 && Unused(block)
      requires BLOCK_HEADER_SIZE + size + Pow2(k) - 8 <= block.size
      requires limit + Pow2(k) <= TWO64 && block.start + block.size + Pow2(k) <= TWO64
      modifies this
      ensures Valid() && p in live && p !in old(live) && Pow2(k) <= TWO64
      ensures aligned == High(p + Pow2(k) - 1, k) * Pow2(k)
      ensures p <= aligned && aligned + size <= p + live[p]
    {
      MultipleOf8(1, k);
      Eightfold(k);
      p := AllocateAligned(size + Pow2(k) - 8, false, block);
      OverAlignedFits(p, size, k);
      aligned := AlignTo(p, Pow2(k));
    }
  }
}
