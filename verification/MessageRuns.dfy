/** Whole histories of a message object. */
module MessageRuns {
  import opened Wrappers
  import opened Wire
  import opened Messages
  import opened Codec
  import opened CodecLaws
  import opened MemberOrders
  import opened MessageObjects
  import opened Leftovers

  /** What a program may do to a message. Incoming bytes are read into the message itself, or into another
      message that is then merged, copied, swapped or made a sub-message. */
  datatype Op =
    | SetScalar(i: nat, bits: nat)
    | ClearField(i: nat)
    | SetInSub(i: nat, j: nat, bits: nat)
    | Clear
    | Parse(bytes: seq<byte>, depth: nat)
    | Merge(bytes: seq<byte>, depth: nat)
    | Copy(bytes: seq<byte>, depth: nat)
    | Swap(bytes: seq<byte>, depth: nat)
    | Release(i: nat)
    | SetAllocated(i: nat, bytes: seq<byte>, depth: nat)
    | Move(i: nat, j: nat)          // set_allocated_j(release_i())

  predicate IsScalar(t: MessageType, i: nat, bits: nat) {
    i < |Schema(t)| && !Schema(t)[i].kind.KMessage? && bits < ScalarBound(Schema(t)[i].kind)
  }

  predicate IsSub(t: MessageType, i: nat) {
    i < |Schema(t)| && Schema(t)[i].kind.KMessage?
  }

  /** The accessor exists and takes the value. */
  predicate Applies(t: MessageType, op: Op) {
    match op
    case SetScalar(i, b) => IsScalar(t, i, b)
    case ClearField(i) => i < |Schema(t)|
    case SetInSub(i, j, b) => IsSub(t, i) && IsScalar(Schema(t)[i].kind.of, j, b)
    case Release(i) => IsSub(t, i)
    case SetAllocated(i, _, _) => IsSub(t, i)
    case Move(i, j) => IsSub(t, i) && IsSub(t, j) && Schema(t)[i].kind == Schema(t)[j].kind
    case _ => true
  }

  /** The message other than m that an operation works with. */
  function Incoming(t: MessageType, op: Op): (r: Option<Msg>)
    requires MsgOk(t, Default(t)) && (op.Merge? || op.Copy? || op.Swap?)
    ensures r.Some? ==> MsgOk(t, r.value)
  {
    ParseInto(t, op.bytes, Default(t), op.depth)
  }

  /** What is given away by the release of a field: nothing at all, or an emptied message, if it is not set. */
  predicate Released(f: Field, v: Val, given: Val) {
    f.kind.KMessage? && (if v == Unset then given in {Unset, Sub(Default(f.kind.of))} else given == v)
  }

  /** How the value may change. Only a parse that fails leaves more than a choice of two. */
  ghost predicate Changes(t: MessageType, m: Msg, op: Op, n: Msg)
    requires MsgOk(t, m) && MsgOk(t, n) && MsgOk(t, Default(t)) && Applies(t, op)
  {
    match op
    case SetScalar(i, b) => n == WithField(t, m, i, ScalarVal(Schema(t)[i], b))
    case ClearField(i) => n == WithField(t, m, i, Unset)
    case SetInSub(i, j, b) =>
      var f := Schema(t)[i];
      var s := SubOrDefault(f, m.fields[i]);
      n == WithField(t, m, i, Sub(WithField(f.kind.of, s, j, ScalarVal(Schema(f.kind.of)[j], b))))
    case Clear => n == Default(t)
    case Parse(bs, d) =>
      (match ParseInto(t, bs, m, d)
       case Some(r) => n == r
       case None => LeftBy(t, bs, |bs|, m, d, n))
    case Merge(_, _) => var r := Incoming(t, op); n == if r.Some? then Messages.Merge(t, m, r.value) else m
    case Copy(_, _) => var r := Incoming(t, op); n == if r.Some? then r.value else m
    case Swap(_, _) => var r := Incoming(t, op); n == if r.Some? then r.value else m
    case Release(i) => n == WithField(t, m, i, Unset)
    case SetAllocated(i, bs, d) =>
      var of := Schema(t)[i].kind.of;
      DefaultOk(of);
      var r := ParseInto(of, bs, Default(of), d);
      n == WithField(t, m, i, if r.Some? then Sub(r.value) else Unset)
    case Move(i, j) =>
      && Released(Schema(t)[i], m.fields[i], n.fields[j])
      && n == WithField(t, WithField(t, m, i, Unset), j, n.fields[j])
  }

  /** Sub-messages are the message's own: they were there before or are new. */
  twostate predicate Owned(m: Message)
    reads m
  {
    forall j :: 0 <= j < |m.sub| ==> m.sub[j] == null || m.sub[j] in old(m.sub) || fresh(m.sub[j])
  }

  /** mutable_*()->set_*(): the caller writes through the pointer it was given. */
  method WriteThrough(m: Message, i: nat, j: nat, bits: nat)
    requires m.Valid() && Applies(m.t, SetInSub(i, j, bits))
    modifies m`has, m`sub, m.sub
    ensures m.Valid() && Owned(m) && MsgOk(m.t, Default(m.t))
    ensures Changes(m.t, old(m.Value()), SetInSub(i, j, bits), m.Value())
  {
    hide Schema, Message.Plain, MsgOk, Message.ValidWith, Message.ValueWith, Leaf;
    DefaultOk(m.t);
    m.SlotFacts(m.has, i);
    SubsAreLeaves(m.t, i);
    ghost var v := m.Value();
    FieldCount(m.t, v);
    var s := m.Mutable(i);
    label Given:
    ghost var was := s.Value();
    m.SlotFacts(m.has, i);
    m.NotOwn(m.has);
    s.LeafIsPlain();
    s.SetScalar(j, bits);
    s.LeafIsPlain();
    SlotUpdated@Given(m, m.has, m.has, i);
    SetTwice(m.t, v, i, Sub(was), Sub(s.Value()));
  }

  method ReadOther(t: MessageType, bytes: seq<byte>, depth: nat) returns (other: Message?)
    ensures MsgOk(t, Default(t)) && (other == null <==> ParseInto(t, bytes, Default(t), depth) == None)
    ensures other != null ==>
              && fresh(other) && other.t == t && other.Valid()
              && (forall j :: 0 <= j < |other.sub| ==> other.sub[j] == null || fresh(other.sub[j]))
              && ParseInto(t, bytes, Default(t), depth) == Some(other.Value())
  {
    hide Schema, MsgOk, ParseInto, Message.ValidWith, Message.ValueWith;
    DefaultOk(t);
    var message := new Message(t);
    var ok := message.ParseFromArray(bytes, |bytes|, depth);
    other := if ok then message else null;
  }

  /** set_allocated_*() with a message that was read from bytes, or none if it cannot be read. */
  method GiveNew(m: Message, i: nat, bytes: seq<byte>, depth: nat)
    requires m.Valid() && IsSub(m.t, i)
    modifies m`has, m`sub
    ensures m.Valid() && Owned(m) && MsgOk(m.t, Default(m.t))
    ensures Changes(m.t, old(m.Value()), SetAllocated(i, bytes, depth), m.Value())
  {
    hide Schema, MsgOk, ParseInto, Message.ValidWith, Message.ValueWith;
    DefaultOk(m.t);
    m.NotOwn(m.has);
    var s := ReadOther(Schema(m.t)[i].kind.of, bytes, depth);
    m.SetAllocated(i, s);
  }

  method MoveSub(m: Message, i: nat, j: nat)
    requires m.Valid() && Applies(m.t, Move(i, j))
    modifies m`has, m`sub
    ensures m.Valid() && Owned(m) && MsgOk(m.t, Default(m.t))
    ensures Changes(m.t, old(m.Value()), Move(i, j), m.Value())
  {
    hide Schema, MsgOk, Message.ValidWith, Message.ValueWith;
    DefaultOk(m.t);
    m.SlotFacts(m.has, i);
    m.NotOwn(m.has);
    FieldCount(m.t, m.Value());
    var s := m.Release(i);
    m.SetAllocated(j, s);
  }

  method Step(m: Message, op: Op)
    requires m.Valid() && Applies(m.t, op)
    modifies m, m.sub
    ensures m.Valid() && Owned(m) && MsgOk(m.t, Default(m.t)) && Changes(m.t, old(m.Value()), op, m.Value())
  {
    hide Schema, MsgOk, ParseInto, Messages.Merge, Message.ValidWith, Message.ValueWith;
    DefaultOk(m.t);
    m.NotOwn(m.has);
    match op
    case SetScalar(i, b) => m.SetScalar(i, b);
    case ClearField(i) =>
      m.ClearField(i);
      assert forall j :: 0 <= j < |m.sub| ==> m.sub[j] == null || m.sub[j] == old(m.sub[j]);
    case SetInSub(i, j, b) => WriteThrough(m, i, j, b);
    case Clear => m.Clear();
    case Parse(bs, d) =>
      assert bs[..|bs|] == bs;
      var ok := m.InternalParse(bs, |bs|, d);
    case Release(i) => var s := m.Release(i);
    case SetAllocated(i, bs, d) => GiveNew(m, i, bs, d);
    case Move(i, j) => MoveSub(m, i, j);
    case _ => WithOther(m, op);
  }

  method WithOther(m: Message, op: Op)
    requires m.Valid() && (op.Merge? || op.Copy? || op.Swap?)
    modifies m, m.sub
    ensures m.Valid() && Owned(m) && MsgOk(m.t, Default(m.t)) && Changes(m.t, old(m.Value()), op, m.Value())
  {
    hide Schema, MsgOk, ParseInto, Messages.Merge, Message.ValidWith, Message.ValueWith;
    var other := ReadOther(m.t, op.bytes, op.depth);
    m.NotOwn(m.has);
    if other != null {
      other.NotOwn(other.has);
      if op.Merge? {
        m.MergeFrom(other);
      } else if op.Copy? {
        m.CopyFrom(other);
      } else {
        m.InternalSwap(other);
      }
    }
  }

  /** Any history of operations, parses that fail included: the invariants always hold, so getters that never
      look at a presence bit stay right, and the values are those of the history. */
  method Run(m: Message, ops: seq<Op>) returns (ghost values: seq<Msg>)
    requires m.Valid() && forall k :: 0 <= k < |ops| ==> Applies(m.t, ops[k])
    modifies m, m.sub
    ensures m.Valid() && MsgOk(m.t, Default(m.t))
    ensures |values| == |ops| + 1 && values[0] == old(m.Value()) && values[|ops|] == m.Value()
    ensures forall k :: 0 <= k <= |ops| ==> MsgOk(m.t, values[k])
    ensures forall k :: 0 <= k < |ops| ==> Changes(m.t, values[k], ops[k], values[k + 1])
  {
    hide Schema, MsgOk, Applies, Changes, Message.ValidWith, Message.ValueWith;
    DefaultOk(m.t);
    values := [m.Value()];
    for i := 0 to |ops|
      invariant m.Valid() && Owned(m) && |values| == i + 1
      invariant values[0] == old(m.Value()) && values[i] == m.Value()
      invariant forall k :: 0 <= k <= i ==> MsgOk(m.t, values[k])
      invariant forall k :: 0 <= k < i ==> Changes(m.t, values[k], ops[k], values[k + 1])
    {
      Step(m, ops[i]);
      values := values + [m.Value()];
    }
  }
}
