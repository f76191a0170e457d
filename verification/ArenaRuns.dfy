/** Whole histories of an arena. */
module ArenaRuns {
  import opened Powers
  import opened Arenas

  /** What a program may do. Every allocation is told which block the system would give next. */
  datatype Op =
    | Allocate(n: nat, forArray: bool, block: Region)
    | Register(elem: nat, cleanup: nat, block: Region)
    | Return(i: nat)                                   // the i-th of the objects that are held
    | Write(i: nat, offset: nat, value: nat)

  function Blocks(op: Op): seq<Region> {
    match op
    case Allocate(_, _, block) => [block]
    case Register(_, _, block) => [block]
    case _ => []
  }

  predicate Large(op: Op) {
    match op
    case Allocate(n, _, block) => n % 8 == 0 && n < Pow2(64) && BLOCK_HEADER_SIZE + n <= block.size
    case Register(_, _, block) => BLOCK_HEADER_SIZE + CLEANUP_SIZE <= block.size
    case _ => true
  }

  predicate Apart(b: Region, c: Region) {
    b.start + b.size <= c.start || c.start + c.size <= b.start
  }

  /** The system gives no memory twice, and always enough. */
  predicate SystemOk(ops: seq<Op>) {
    && (forall k :: 0 <= k < |ops| ==> Large(ops[k]))
    && forall j, k, b, c :: 0 <= j < k < |ops| && b in Blocks(ops[j]) && c in Blocks(ops[k]) ==> Apart(b, c)
  }

  /** The blocks still to come are not used by the arena. */
  ghost predicate ToCome(a: SerialArena, ops: seq<Op>, i: nat)
    reads a
  {
    forall k, c :: i <= k < |ops| && c in Blocks(ops[k]) ==> a.Unused(c)
  }

  /** The registrations, in their order. */
  function Registered(ops: seq<Op>): seq<(nat, nat)> {
    if ops == [] then []
    else
      var last := ops[|ops| - 1];
      Registered(ops[..|ops| - 1]) + if last.Register? then [(last.elem, last.cleanup)] else []
  }

  /** What the program holds: different live objects, at least as long as it asked for. */
  ghost predicate Holding(a: SerialArena, held: seq<(nat, nat)>)
    reads a
  {
    && (forall i :: 0 <= i < |held| ==>
          held[i].0 in a.live && 0 < held[i].1 <= a.live[held[i].0] && held[i].1 < Pow2(64))
    && forall i, j :: 0 <= i < j < |held| ==> held[i].0 != held[j].0
  }

  /** The record is in memory, where the destructor of the arena finds it. */
  predicate HasRecord(a: SerialArena, r: CleanupRecord, what: (nat, nat))
    reads a`mem
  {
    r.elem == what.0 == a.Read(r.node) && r.cleanup == what.1 == a.Read(r.node + POINTER_SIZE)
  }

  /** What is unused and apart from the block of this operation stays unused. */
  twostate predicate LeavesAlone(a: SerialArena, new op: Op)
    reads a
  {
    forall c: Region :: old(a.Unused(c)) && (forall b :: b in Blocks(op) ==> Apart(b, c)) ==> a.Unused(c)
  }

  twostate lemma StillUnused(a: SerialArena, new op: Op)
    requires Blocks(op) != [] && a.StaysIn(Blocks(op)[0])
    ensures LeavesAlone(a, op)
  {
    assert Blocks(op)[0] in Blocks(op);
  }

  twostate lemma SameUse(a: SerialArena, new op: Op)
    requires unchanged(a`ptr, a`limit) && a.owner.Keys == old(a.owner.Keys)
    ensures LeavesAlone(a, op)
  {
  }

  method Acquire(a: SerialArena, held: seq<(nat, nat)>, op: Op) returns (now: seq<(nat, nat)>)
    requires a.Valid() && Holding(a, held) && op.Allocate? && Large(op) && a.Unused(op.block)
    modifies a
    ensures a.Valid() && Holding(a, now) && a.records == old(a.records) && LeavesAlone(a, op)
  {
    hide SerialArena.Valid, LeavesAlone, SerialArena.Unused, SerialArena.StaysIn;
    var p := a.AllocateAligned(op.n, op.forArray, op.block);
    now := if op.n == 0 then held else held + [(p, op.n)];
    StillUnused(a, op);
  }

  method GiveBack(a: SerialArena, held: seq<(nat, nat)>, i: nat) returns (now: seq<(nat, nat)>)
    requires a.Valid() && Holding(a, held) && i < |held| && 16 <= held[i].1
    modifies a
    ensures a.Valid() && Holding(a, now) && a.records == old(a.records) && LeavesAlone(a, Return(i))
  {
    hide SerialArena.Valid, LeavesAlone, SerialArena.Unused, SerialArena.StaysIn, Pow2, ReturnIndex;
    a.ReturnArrayMemory(held[i].0, held[i].1);
    now := held[..i] + held[i + 1..];
    SameUse(a, Return(i));
  }

  /** A returned array is given out again: to whoever asks for more than half of its list's block size next. */
  method ReturnAndAllocate(a: SerialArena, p: nat, size: nat, n: nat, ghost i: nat) returns (q: nat)
    requires a.Valid() && p in a.live && size <= a.live[p] && size < Pow2(64)
    requires Pow2(i + 4) <= size < Pow2(i + 5) && i < |a.lists|
    requires 16 <= n && (i == 0 || Pow2(i + 3) < n) && n <= Pow2(i + 4)
    modifies a
    ensures a.Valid() && q == p && a.live == old(a.live)[p := size]
    ensures a.lists == old(a.lists) && a.ptr == old(a.ptr) && a.limit == old(a.limit)
  {
    hide SerialArena.Valid, Pow2;
    SearchesWhereReturned(size, n, i);
    a.ReturnArrayMemory(p, size);
    ghost var list := a.lists[i];
    assert list[|list| - 1] == Region(p, size);
    q := a.TryAllocateFromCachedBlock(n);
  }

  method Step(a: SerialArena, held: seq<(nat, nat)>, op: Op) returns (now: seq<(nat, nat)>)
    requires a.Valid() && Holding(a, held) && Large(op) && forall b :: b in Blocks(op) ==> a.Unused(b)
    modifies a
    ensures a.Valid() && Holding(a, now) && LeavesAlone(a, op)
    ensures if op.Register? then
              && |a.records| == |old(a.records)| + 1 && a.records[..|old(a.records)|] == old(a.records)
              && a.records[|old(a.records)|].elem == op.elem && a.records[|old(a.records)|].cleanup == op.cleanup
            else a.records == old(a.records)
  {
    hide SerialArena.Valid, SerialArena.StaysIn, SerialArena.Unused;
    now := held;
    match op
    case Allocate(n, forArray, block) =>
      assert block in Blocks(op);
      now := Acquire(a, held, op);
    case Register(elem, cleanup, block) =>
      assert block in Blocks(op);
      a.AddCleanup(elem, cleanup, block);
      StillUnused(a, op);
    case Return(i) =>
      if i < |held| && 16 <= held[i].1 {
        now := GiveBack(a, held, i);
      }
    case Write(i, offset, value) =>
      if i < |held| && offset < held[i].1 {
        a.WriteObject(held[i].0, held[i].0 + offset, value);
        SameUse(a, op);
      }
  }

  twostate lemma NextToCome(a: SerialArena, new ops: seq<Op>, new i: nat)
    requires SystemOk(ops) && i < |ops| && old(ToCome(a, ops, i)) && LeavesAlone(a, ops[i])
    ensures ToCome(a, ops, i + 1)
  {
    hide SerialArena.Unused, Apart;
    forall k, c | i + 1 <= k < |ops| && c in Blocks(ops[k])
      ensures a.Unused(c)
    {
      assert old(a.Unused(c));
    }
  }

  lemma HeldApart(a: SerialArena, held: seq<(nat, nat)>, i: nat, j: nat)
    requires a.Valid() && Holding(a, held) && i < |held| && j < |held| && i != j
    ensures held[i].0 + held[i].1 <= held[j].0 || held[j].0 + held[j].1 <= held[i].0
  {
    hide SerialArena.Valid;
    a.LiveDisjoint(held[i].0, held[j].0);
  }

  lemma RecordInMemory(a: SerialArena, k: nat)
    requires a.Valid() && k < |a.records|
    ensures HasRecord(a, a.records[k], (a.records[k].elem, a.records[k].cleanup))
  {
    assert a.RecordAt(k);
  }

  /** After any history, the records hold what was registered, in that order, and no two objects that the program
      holds overlap, whatever it wrote into them and whichever arrays it gave back. */
  method Run(a: SerialArena, ops: seq<Op>) returns (held: seq<(nat, nat)>)
    requires a.Valid() && SystemOk(ops) && ToCome(a, ops, 0)
    modifies a
    ensures a.Valid() && Holding(a, held)
    ensures forall i, j :: 0 <= i < |held| && 0 <= j < |held| && i != j ==>
              held[i].0 + held[i].1 <= held[j].0 || held[j].0 + held[j].1 <= held[i].0
    ensures var n := |old(a.records)|;
            && |a.records| == n + |Registered(ops)| && a.records[..n] == old(a.records)
            && forall k :: 0 <= k < |Registered(ops)| ==> HasRecord(a, a.records[n + k], Registered(ops)[k])
  {
    hide SerialArena.Valid, SerialArena.Unused, LeavesAlone, Holding, HasRecord, Apart;
    held := [];
    ghost var n := |a.records|;
    NothingHeld(a);
    for i := 0 to |ops|
      invariant a.Valid() && Holding(a, held) && ToCome(a, ops, i)
      invariant |a.records| == n + |Registered(ops[..i])| && a.records[..n] == old(a.records)
      invariant forall k :: 0 <= k < |Registered(ops[..i])| ==>
                  var r := a.records[n + k]; (r.elem, r.cleanup) == Registered(ops[..i])[k]
    {
      assert ops[..i + 1][..i] == ops[..i];
      label Before:
      held := Step(a, held, ops[i]);
      NextToCome@Before(a, ops, i);
    }
    assert ops[..|ops|] == ops;
    forall i, j | 0 <= i < |held| && 0 <= j < |held| && i != j
      ensures held[i].0 + held[i].1 <= held[j].0 || held[j].0 + held[j].1 <= held[i].0
    {
      HeldApart(a, held, i, j);
    }
    forall k | 0 <= k < |Registered(ops)|
      ensures HasRecord(a, a.records[n + k], Registered(ops)[k])
    {
      RecordInMemory(a, n + k);
    }
  }

  lemma NothingHeld(a: SerialArena)
    ensures Holding(a, [])
  {
  }
}
