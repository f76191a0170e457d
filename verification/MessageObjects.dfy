/** The generated message classes (ShooterProtocol.pb.h, ShooterProtocol.pb.cc): stored fields, presence
    bits and sub-messages, updated in place. One class, driven by the schema, stands for the seven
    generated ones; a sub-message is never itself a parent. */
module MessageObjects {
  import opened Powers
  import opened Wire
  import opened Wrappers
  import opened UnknownFields
  import opened Messages
  import opened Codec
  import opened CodecLaws
  import opened Lookahead
  import opened Leftovers
  import opened MemberOrders
  import opened Sizes

  function Height(t: MessageType): nat {
    if Leaf(t) then 0 else 1
  }

  function Or(a: seq<bool>, b: seq<bool>): (c: seq<bool>)
    requires |a| == |b|
    ensures |c| == |a| && forall i :: 0 <= i < |a| ==> c[i] == (a[i] || b[i])
  {
    seq(|a|, i requires 0 <= i < |a| => a[i] || b[i])
  }

  class Message {
    const t: MessageType
    var has: seq<bool>
    var raw: seq<nat>
    var sub: seq<Message?>
    var unknown: seq<Unknown>
    var cached: nat

    // What a slot may hold, and what it says to a reader

    static ghost predicate SlotOk(f: Field, h: bool, b: nat, s: Message?) {
      && (h ==> f.tracked)
      && if f.kind.KMessage? then
           b == 0 && (h ==> s != null) && (s != null ==> s.t == f.kind.of)
         else
           s == null && b < ScalarBound(f.kind) && (f.tracked && !h ==> b == 0)
    }

    ghost predicate Shape(h: seq<bool>)
      reads `raw, `sub, `unknown
    {
      && |h| == |raw| == |sub| == |Schema(t)|
      && (forall i :: 0 <= i < |sub| ==> SlotOk(Schema(t)[i], h[i], raw[i], sub[i]))
      && (forall i, j :: 0 <= i < j < |sub| && sub[i] == sub[j] ==> sub[i] == null)
      && (forall i :: 0 <= i < |unknown| ==>
            InRange(unknown[i]) && !Known(t, unknown[i].number, WireTypeOf(unknown[i])))
    }

    static function ScalarValue(f: Field, h: bool, b: nat): Val {
      if f.kind.KMessage? then Unset else if f.tracked then if h then Bits(b) else Unset else ScalarVal(f, b)
    }

    /** The value of a message that holds no sub-messages. */
    ghost function Plain(): (m: Msg)
      requires Leaf(t) && Shape(has)
      reads `has, `raw, `sub, `unknown
      ensures MsgOk(t, m)
    {
      var b, h := raw, has;
      Msg(seq(|Schema(t)|, i requires 0 <= i < |Schema(t)| == |b| == |h|
                           => ScalarValue(Schema(t)[i], h[i], b[i])), unknown)
    }

    static ghost function Itself(s: Message?): set<Message> {
      if s == null then {} else {s}
    }

    static ghost predicate SubOk(f: Field, h: bool, s: Message?)
      reads Itself(s)`has, Itself(s)`raw, Itself(s)`sub, Itself(s)`unknown
    {
      s != null ==> f.kind.KMessage? && s.t == f.kind.of && Leaf(s.t) && s.Shape(s.has)
                    && (f.tracked && !h ==> s.Plain() == Default(s.t))
    }

    /** The invariant with `h` for presence bits. */
    ghost predicate ValidWith(h: seq<bool>)
      reads `raw, `sub, `unknown, sub
    {
      Shape(h) && forall i :: 0 <= i < |sub| ==> SubOk(Schema(t)[i], h[i], sub[i])
    }

    ghost predicate Valid()
      reads `has, `raw, `sub, `unknown, sub
    {
      ValidWith(has)
    }

    static ghost function SlotValue(f: Field, h: bool, b: nat, s: Message?): (v: Val)
      requires SlotOk(f, h, b, s) && SubOk(f, h, s)
      reads Itself(s)`has, Itself(s)`raw, Itself(s)`sub, Itself(s)`unknown
      ensures ValOk(f, v)
    {
      if !f.kind.KMessage? then ScalarValue(f, h, b)
      else if if f.tracked then h else s != null then Sub(s.Plain())
      else Unset
    }

    ghost function ValueWith(h: seq<bool>): (m: Msg)
      requires ValidWith(h)
      reads `raw, `sub, `unknown, sub
      ensures MsgOk(t, m)
    {
      var fs, b, s := Schema(t), raw, sub;
      Msg(seq(|fs|, i requires 0 <= i < |fs| == |h| == |b| == |s| && SlotOk(fs[i], h[i], b[i], s[i])
                               && SubOk(fs[i], h[i], s[i])
                      reads s
                    => SlotValue(fs[i], h[i], b[i], s[i])),
          unknown)
    }

    ghost function Value(): (m: Msg)
      requires Valid()
      reads `has, `raw, `sub, `unknown, sub
      ensures MsgOk(t, m)
    {
      ValueWith(has)
    }

    /** A message is never one of its own sub-messages: those have no sub-messages. */
    lemma NotOwn(h: seq<bool>)
      requires ValidWith(h)
      ensures this !in sub && |h| == |raw| == |sub| == |Schema(t)| && ValueWith(h).unknown == unknown
      ensures forall j :: 0 <= j < |sub| && sub[j] != null ==> sub[j].t != t
      ensures forall j :: 0 <= j < |h| && h[j] ==> Schema(t)[j].tracked
    {
    }

    lemma SlotFacts(h: seq<bool>, i: nat)
      requires ValidWith(h) && i < |Schema(t)|
      ensures |h| == |raw| == |sub| == |ValueWith(h).fields| == |Schema(t)|
      ensures SlotOk(Schema(t)[i], h[i], raw[i], sub[i]) && SubOk(Schema(t)[i], h[i], sub[i])
      ensures ValueWith(h).fields[i] == SlotValue(Schema(t)[i], h[i], raw[i], sub[i])
      ensures forall j :: 0 <= j < |sub| && j != i && sub[j] != null ==> sub[j] != sub[i]
    {
    }

    lemma LeafIsPlain()
      requires Leaf(t)
      ensures Valid() <==> Shape(has)
      ensures Valid() ==> Value() == Plain() && Sized() && forall i :: 0 <= i < |sub| ==> sub[i] == null
    {
      if Shape(has) {
        assert Valid();
        assert Value().fields == Plain().fields;
      }
    }

    constructor (t: MessageType)
      ensures this.t == t && Valid() && Value() == Default(t)
      ensures forall i :: 0 <= i < |sub| ==> sub[i] == null
    {
      this.t := t;
      has, raw, sub := seq(|Schema(t)|, _ => false), seq(|Schema(t)|, _ => 0), seq(|Schema(t)|, _ => null);
      unknown, cached := [], 0;
      new;
      hide Schema, MsgOk, ValOk;
      assert Value().fields == Default(t).fields;
    }

    // Getters look at what is stored and never at a presence bit

    function GetScalar(i: nat): (b: nat)
      requires Valid() && i < |Schema(t)| && !Schema(t)[i].kind.KMessage?
      reads this, sub
      ensures Value().fields[i] == Unset ==> b == 0
      ensures Value().fields[i] != Unset ==> Value().fields[i] == Bits(b)
    {
      raw[i]
    }

    ghost function GetSub(i: nat): (m: Msg)
      requires Valid() && i < |Schema(t)| && Schema(t)[i].kind.KMessage?
      reads this, sub
      ensures m == SubOrDefault(Schema(t)[i], Value().fields[i])
    {
      if sub[i] != null then sub[i].Plain() else Default(Schema(t)[i].kind.of)
    }

    predicate HasField(i: nat)
      requires Valid() && i < |Schema(t)|
      reads this, sub
      ensures Schema(t)[i].tracked || Schema(t)[i].kind.KMessage? ==>
                (HasField(i) <==> Value().fields[i] != Unset)
    {
      if Schema(t)[i].tracked then has[i] else sub[i] != null
    }

    method SetScalar(i: nat, b: nat)
      requires Valid() && i < |Schema(t)| && !Schema(t)[i].kind.KMessage? && b < ScalarBound(Schema(t)[i].kind)
      modifies this`has, this`raw
      ensures Valid() && Value() == WithField(t, old(Value()), i, ScalarVal(Schema(t)[i], b))
    {
      hide Schema;
      if Schema(t)[i].tracked {
        has := has[i := true];
      }
      raw := raw[i := b];
      SlotUpdated(this, old(has), has, i);
    }

    /** clear_*: a tracked sub-message stays, emptied; an untracked one is deleted. */
    method ClearField(i: nat)
      requires Valid() && i < |Schema(t)|
      modifies this`has, this`raw, this`sub, sub
      ensures Valid() && Value() == WithField(t, old(Value()), i, Unset)
      ensures sub == if Schema(t)[i].tracked then old(sub) else old(sub)[i := null]
      decreases Height(t)
    {
      hide Schema, Plain, ValidWith, ValueWith, Leaf;
      var f := Schema(t)[i];
      SlotFacts(has, i);
      NotOwn(has);
      if f.kind.KMessage? {
        if !f.tracked {
          sub := sub[i := null];
        } else if sub[i] != null {
          sub[i].LeafIsPlain();
          SubsAreLeaves(t, i);
          sub[i].Clear();
          sub[i].LeafIsPlain();
        }
      } else {
        raw := raw[i := 0];
      }
      has := has[i := false];
      SlotUpdated(this, old(has), has, i);
    }

    /** Clear for one member; `h` are the presence bits not yet cleared. */
    method ClearSlot(i: nat, any: bool, ghost h: seq<bool>)
      requires ValidWith(h) && i < |Schema(t)| && |has| == |h| && has[i] == h[i] && (h[i] ==> any)
      modifies this`raw, this`sub, sub
      ensures ValidWith(h[i := false]) && ValueWith(h[i := false]) == WithField(t, old(ValueWith(h)), i, Unset)
      ensures sub == if !Schema(t)[i].tracked then old(sub)[i := null] else old(sub)
      decreases Height(t), 0
    {
      hide Schema, Message.Plain;
      var f := Schema(t)[i];
      if f.kind.KMessage? {
        if !f.tracked {
          sub := sub[i := null];
        } else if has[i] {
          SubsAreLeaves(t, i);
          sub[i].LeafIsPlain();
          sub[i].Clear();
          sub[i].LeafIsPlain();
        }
      } else if !f.tracked || any {
        raw := raw[i := 0];
      }
      SlotUpdated(this, h, h[i := false], i);
    }

    method Clear()
      requires Valid()
      modifies this`has, this`raw, this`sub, this`unknown, sub
      ensures Valid() && Value() == Default(t)
      ensures |sub| == |old(sub)|
      ensures forall i :: 0 <= i < |sub| ==> sub[i] == if Schema(t)[i].tracked then old(sub[i]) else null
      decreases Height(t), 1
    {
      hide Schema, Plain, SubOk, SlotOk, MsgOk;
      var any := exists i :: 0 <= i < |has| && has[i];
      ghost var h := has;
      NotOwn(h);
      for i := 0 to |sub|
        invariant ValidWith(h) && |h| == |has| == |sub| == |old(sub)| && has == old(has) && unknown == old(unknown)
        invariant forall j :: 0 <= j < |sub| ==> h[j] == (has[j] && i <= j)
        invariant forall j :: 0 <= j < i ==> ValueWith(h).fields[j] == Unset
        invariant forall j :: 0 <= j < |sub| ==>
                    sub[j] == if j < i && !Schema(t)[j].tracked then null else old(sub[j])
      {
        ClearSlot(i, any, h);
        h := h[i := false];
      }
      has := seq(|has|, _ => false);
      assert has == h;
      label Before:
      NotOwn(has);
      unknown := [];
      SlotsTaken@Before(this, this, has);
      ClearedIsDefault();
    }

    /** _internal_mutable_*: marks the field present and creates the sub-message if there is none.
        In a parse the presence bits are still to be merged, so they are the caller's. */
    method MutableWith(i: nat, ghost h: seq<bool>) returns (s: Message, ghost g: seq<bool>)
      requires ValidWith(h) && |has| == |h| && i < |Schema(t)| && Schema(t)[i].kind.KMessage?
      modifies this`has, this`sub
      ensures has == if Schema(t)[i].tracked then old(has)[i := true] else old(has)
      ensures g == if Schema(t)[i].tracked then h[i := true] else h
      ensures ValidWith(g) && sub == old(sub)[i := s] && s.t == Schema(t)[i].kind.of
      ensures if old(sub[i]) == null then fresh(s) else s == old(sub[i])
      ensures Leaf(s.t) && s.Valid() && s.Value() == SubOrDefault(Schema(t)[i], old(ValueWith(h)).fields[i])
      ensures ValueWith(g) == WithField(t, old(ValueWith(h)), i, Sub(s.Value()))
    {
      hide Schema, Plain, MsgOk, ValidWith, ValueWith, Leaf;
      var f := Schema(t)[i];
      SlotFacts(h, i);
      NotOwn(h);
      SubsAreLeaves(t, i);
      g := h;
      if f.tracked {
        has, g := has[i := true], h[i := true];
      }
      if sub[i] == null {
        var p := new Message(f.kind.of);
        sub := sub[i := p];
      }
      s := sub[i];
      s.LeafIsPlain();
      SlotUpdated(this, h, g, i);
    }

    method Mutable(i: nat) returns (s: Message)
      requires Valid() && i < |Schema(t)| && Schema(t)[i].kind.KMessage?
      modifies this`has, this`sub
      ensures Valid() && sub == old(sub)[i := s] && s.t == Schema(t)[i].kind.of
      ensures if old(sub[i]) == null then fresh(s) else s == old(sub[i])
      ensures s.Valid() && s.Value() == SubOrDefault(Schema(t)[i], old(Value()).fields[i])
      ensures Value() == WithField(t, old(Value()), i, Sub(s.Value()))
    {
      hide ValidWith;
      ghost var g;
      s, g := MutableWith(i, has);
    }

    /** release_*: the caller gets what was stored, which for a tracked field may be an emptied message. */
    method Release(i: nat) returns (s: Message?)
      requires Valid() && i < |Schema(t)| && Schema(t)[i].kind.KMessage?
      modifies this`has, this`sub
      ensures Valid() && s == old(sub[i]) && sub == old(sub)[i := null]
      ensures s != null ==> s.Valid() && s.Value() == SubOrDefault(Schema(t)[i], old(Value()).fields[i])
      ensures old(Value()).fields[i] != Unset ==> s != null
      ensures Value() == WithField(t, old(Value()), i, Unset)
    {
      hide Schema, Plain, MsgOk, ValidWith, ValueWith, Leaf;
      SlotFacts(has, i);
      NotOwn(has);
      SubsAreLeaves(t, i);
      has := has[i := false];
      s := sub[i];
      if s != null {
        s.LeafIsPlain();
      }
      sub := sub[i := null];
      SlotUpdated(this, old(has), has, i);
    }

    /** set_allocated_*: the message takes s over. */
    method SetAllocated(i: nat, s: Message?)
      requires Valid() && i < |Schema(t)| && Schema(t)[i].kind.KMessage?
      requires s != null ==> s.t == Schema(t)[i].kind.of && s.Valid() && s !in sub
      modifies this`has, this`sub
      ensures Valid() && sub == old(sub)[i := s]
      ensures s != null ==> s.Valid()
      ensures Value() == WithField(t, old(Value()), i, if s == null then Unset else Sub(s.Value()))
    {
      hide Schema, Plain, MsgOk, ValidWith, ValueWith, Leaf;
      SlotFacts(has, i);
      NotOwn(has);
      SubsAreLeaves(t, i);
      if s != null {
        s.LeafIsPlain();
      }
      if Schema(t)[i].tracked {
        has := has[i := s != null];
      }
      sub := sub[i := s];
      SlotUpdated(this, old(has), has, i);
    }

    // ByteSizeLong, _InternalSerialize

    /** Every sub-message that will be written has its own length cached. */
    ghost predicate Sized()
      requires Valid()
      reads `has, `raw, `sub, `unknown, sub
    {
      forall i :: 0 <= i < |sub| ==> SizedAt(i)
    }

    ghost predicate SizedAt(i: nat)
      requires Valid() && i < |sub|
      reads `has, `raw, `sub, `unknown, sub
    {
      var v := Value().fields[i];
      v.Sub? ==> sub[i].cached == |Encode(Schema(t)[i].kind.of, v.m)|
    }

    method FieldSize(i: nat) returns (n: nat)
      requires Valid() && i < |Schema(t)| && |EncodeVal(Schema(t)[i], Value().fields[i])| <= INT_MAX
      modifies sub`cached
      ensures Valid() && Value() == old(Value()) && n == |EncodeVal(Schema(t)[i], Value().fields[i])|
      ensures SizedAt(i) && forall j :: 0 <= j < |sub| && old(SizedAt(j)) ==> SizedAt(j)
      decreases Height(t), 0, 0
    {
      hide Schema, Plain, MsgOk, Encode, EncodeVal, EncodeVarint, VarintSize32, VarintSize32PlusOne, Leaf;
      hide InRange, Known;
      var f := Schema(t)[i];
      SizeOfField(t, i, Value().fields[i]);
      NotOwn(has);
      if !(if f.tracked || f.kind.KMessage? then HasField(i) else raw[i] != 0) {
        n := 0;
      } else if f.kind.KMessage? {
        SubsAreLeaves(t, i);
        sub[i].LeafIsPlain();
        n := sub[i].ByteSizeLong();
        sub[i].LeafIsPlain();
        VarintSizeIsExact(n);
        n := 1 + n + VarintSize32(n);
        SlotsTaken(this, this, has);
      } else if f.kind.KFloat? {
        n := 1 + 4;
      } else if f.kind.KBool? {
        n := 1 + 1;
      } else {
        VarintSizeIsExact(raw[i]);
        n := VarintSize32PlusOne(raw[i]);
      }
    }

    method ByteSizeLong() returns (total: nat)
      requires Valid() && |Encode(t, Value())| <= INT_MAX
      modifies this`cached, sub`cached
      ensures Valid() && Value() == old(Value()) && Sized()
      ensures total == |Encode(t, Value())| == cached
      decreases Height(t), 1
    {
      hide Schema, MsgOk, EncodeVal, EncodeFrom, ValidWith, ValueWith, SizedAt, MemberOrder, EncodeAll;
      NotOwn(has);
      total := AddSizes();
      SizeInMemberOrder(t, Value());
      total := total + |EncodeAll(unknown)|;
      cached := total;
    }

    method AddSizes() returns (total: nat)
      requires Valid() && |Encode(t, Value())| <= INT_MAX
      modifies sub`cached
      ensures Valid() && Value() == old(Value()) && Sized() && total == SizeOver(t, Value(), MemberOrder(t))
      decreases Height(t), 0, 1
    {
      hide Schema, MsgOk, EncodeVal, Encode, ValidWith, ValueWith, SizedAt, MemberOrder;
      NotOwn(has);
      var order := MemberOrder(t);
      MemberOrderCovers(t);
      total := 0;
      for k := 0 to |order|
        invariant Valid() && Value() == old(Value())
        invariant total == SizeOver(t, Value(), order[..k])
        invariant forall j :: 0 <= j < k ==> SizedAt(order[j])
      {
        PartSize(t, Value(), order[k]);
        var n := FieldSize(order[k]);
        assert order[..k + 1][..k] == order[..k];
        total := total + n;
      }
      assert order[..|order|] == order;
      forall i | 0 <= i < |sub|
        ensures SizedAt(i)
      {
        assert i in order;
      }
    }

    method SerializeField(i: nat, target: seq<byte>) returns (out: seq<byte>)
      requires Valid() && i < |Schema(t)| && SizedAt(i) && |EncodeVal(Schema(t)[i], Value().fields[i])| <= INT_MAX
      ensures out == target + EncodeVal(Schema(t)[i], Value().fields[i])
      decreases Height(t), 0
    {
      hide Schema, Plain, MsgOk, Encode, EncodeVarint, EncodeFixed, MakeTag;
      var f := Schema(t)[i];
      var tag := EncodeVarint(MakeTag(f.number, WireTypeFor(f.kind)));
      if !(if f.tracked || f.kind.KMessage? then HasField(i) else raw[i] != 0) {
        out := target;
      } else if f.kind.KMessage? {
        SubsAreLeaves(t, i);
        sub[i].LeafIsPlain();
        out := sub[i].InternalSerialize(target + tag + EncodeVarint(sub[i].cached));
      } else if f.kind.KFloat? {
        out := target + tag + EncodeFixed(raw[i], 4);
      } else {
        out := target + tag + EncodeVarint(raw[i]);
      }
    }

    /** Writes the length prefixes from the sizes ByteSizeLong left behind. */
    method InternalSerialize(target: seq<byte>) returns (out: seq<byte>)
      requires Valid() && Sized() && |Encode(t, Value())| <= INT_MAX
      ensures out == target + Encode(t, Value())
      decreases Height(t), 1
    {
      hide Schema, MsgOk, EncodeVal, ValidWith, ValueWith, SizedAt, EncodeAll;
      NotOwn(has);
      FieldCount(t, Value());
      NothingFrom(t, Value());
      out := target;
      for i := 0 to |sub|
        invariant out + EncodeFrom(t, Value(), i) == target + EncodeFrom(t, Value(), 0)
      {
        PartSize(t, Value(), i);
        out := SerializeField(i, out);
      }
      assert out + [] == out;
      out := out + EncodeAll(unknown);
      assert out == target + (EncodeFrom(t, Value(), 0) + EncodeAll(unknown));
    }

    // MergeFrom, CopyFrom, the copy constructor, InternalSwap

    ghost predicate Apart(from: Message)
      reads `sub, from`sub
    {
      && this != from && this !in from.sub && from !in sub
      && forall i, j :: 0 <= i < |sub| && 0 <= j < |from.sub| && sub[i] == from.sub[j] ==> sub[i] == null
    }

    method MergeSub(i: nat, from: Message, ghost m: Msg, ghost h: seq<bool>) returns (ghost g: seq<bool>)
      requires ValidWith(h) && |has| == |h| && i < |Schema(t)| && Schema(t)[i].kind.KMessage?
      requires from.t == Schema(t)[i].kind.of && from.Valid() && m == from.Value() && from !in sub
      modifies this`has, this`sub, sub
      ensures g == if Schema(t)[i].tracked then h[i := true] else h
      ensures has == if Schema(t)[i].tracked then old(has)[i := true] else old(has)
      ensures ValidWith(g) && (sub == old(sub) || (fresh(sub[i]) && sub == old(sub)[i := sub[i]]))
      ensures ValueWith(g) == WithField(t, old(ValueWith(h)), i,
                                Sub(Merge(from.t, SubOrDefault(Schema(t)[i], old(ValueWith(h)).fields[i]), m)))
      decreases Height(t), 0, 0
    {
      hide Schema, Plain, MsgOk, Merge, ValidWith, ValueWith, Leaf;
      SlotFacts(h, i);
      SubsAreLeaves(t, i);
      NotOwn(h);
      from.LeafIsPlain();
      var s;
      s, g := MutableWith(i, h);
      label Made:
      ghost var v := s.Value();
      SlotFacts(g, i);
      NotOwn(g);
      s.LeafIsPlain();
      s.MergeFrom(from);
      s.LeafIsPlain();
      SlotUpdated@Made(this, g, g, i);
      SetTwice(t, old(ValueWith(h)), i, Sub(v), Sub(s.Value()));
    }

    /** MergeImpl for one member. */
    method MergeField(i: nat, from: Message, ghost a: Msg, ghost h: seq<bool>) returns (ghost g: seq<bool>)
      requires ValidWith(h) && |has| == |h| && i < |Schema(t)|
      requires from.Valid() && from.t == t && a == from.Value() && Apart(from)
      modifies this`has, this`raw, this`sub, sub
      ensures g == if from.has[i] then h[i := true] else h
      ensures has == old(has) || (from.has[i] && has == old(has)[i := true])
      ensures ValidWith(g) && (sub == old(sub) || (fresh(sub[i]) && sub == old(sub)[i := sub[i]]))
      ensures ValueWith(g) == OneMerged(t, old(ValueWith(h)), a, i)
      decreases Height(t), 0, 1
    {
      hide Schema, Plain, MsgOk, Merge, ValidWith, ValueWith, Leaf;
      var f := Schema(t)[i];
      SlotFacts(h, i);
      NotOwn(h);
      from.SlotFacts(from.has, i);
      from.NotOwn(from.has);
      g := h;
      if !(if f.tracked || f.kind.KMessage? then from.HasField(i) else from.raw[i] != 0) {
        SetTwice(t, ValueWith(h), i, Unset, Unset);
      } else if f.kind.KMessage? {
        SubsAreLeaves(t, i);
        from.sub[i].LeafIsPlain();
        g := MergeSub(i, from.sub[i], a.fields[i].m, h);
      } else {
        if f.tracked {
          g := h[i := true];
        }
        raw := raw[i := from.raw[i]];
        SlotUpdated(this, h, g, i);
      }
    }

    method MergeFrom(from: Message)
      requires Valid() && from.Valid() && from.t == t && Apart(from)
      modifies this`has, this`raw, this`sub, this`unknown, sub
      ensures Valid() && Value() == Merge(t, old(Value()), old(from.Value()))
      ensures |sub| == |old(sub)| && forall j :: 0 <= j < |sub| ==> sub[j] == old(sub[j]) || fresh(sub[j])
      decreases Height(t), 1
    {
      hide Schema, MsgOk, Merge, ValidWith, ValueWith, MergeOver, OneMerged, MemberOrder;
      ghost var a := from.Value();
      MergeInMemberOrder(t, Value(), a);
      UnknownsOk(t, Merge(t, Value(), a));
      NotOwn(has);
      from.NotOwn(from.has);
      ghost var g := MergeMembers(from, a);
      NotOwn(g);
      has := Or(has, from.has);
      label Members:
      unknown := unknown + from.unknown;
      SlotsTaken@Members(this, this, g);
    }

    method MergeMembers(from: Message, ghost a: Msg) returns (ghost g: seq<bool>)
      requires Valid() && from.Valid() && from.t == t && a == from.Value() && Apart(from)
      modifies this`has, this`raw, this`sub, sub
      ensures |has| == |from.has| && g == Or(has, from.has)
      ensures ValidWith(g) && |sub| == |old(sub)|
      ensures forall j :: 0 <= j < |sub| ==> sub[j] == old(sub[j]) || fresh(sub[j])
      ensures ValueWith(g) == MergeOver(t, old(Value()), a, MemberOrder(t))
      decreases Height(t), 0, 2
    {
      hide Schema, MsgOk, Merge, ValidWith, ValueWith, OneMerged, MemberOrder;
      NotOwn(has);
      from.NotOwn(from.has);
      MemberOrderCovers(t);
      var order := MemberOrder(t);
      g := has;
      for k := 0 to |order|
        invariant ValidWith(g) && |has| == |g| == |sub| == |old(sub)|
        invariant from.Valid() && a == from.Value() && Apart(from)
        invariant ValueWith(g) == MergeOver(t, old(Value()), a, order[..k])
        invariant forall j :: 0 <= j < |sub| ==> sub[j] == old(sub[j]) || fresh(sub[j])
        invariant forall j :: 0 <= j < |g| ==> g[j] == (old(has)[j] || (from.has[j] && j in order[..k]))
        invariant forall j :: 0 <= j < |g| ==> has[j] == old(has)[j] || (has[j] && from.has[j])
      {
        g := MergeField(order[k], from, a, g);
        assert order[..k + 1][..k] == order[..k];
      }
      assert order[..|order|] == order;
      assert g == Or(has, from.has);
    }

    method CopyFrom(from: Message)
      requires Valid() && from.Valid() && from.t == t && (from == this || Apart(from))
      modifies this`has, this`raw, this`sub, this`unknown, sub
      ensures Valid() && Value() == old(from.Value())
      ensures |sub| == |old(sub)|
      ensures forall j :: 0 <= j < |sub| ==> sub[j] == null || sub[j] == old(sub[j]) || fresh(sub[j])
    {
      hide Schema, MsgOk, Merge, ValidWith, ValueWith;
      if from == this {
        return;
      }
      NotOwn(has);
      from.NotOwn(from.has);
      MergeIntoDefault(t, from.Value());
      Clear();
      MergeFrom(from);
    }

    constructor Copy(from: Message)
      requires from.Valid()
      ensures t == from.t && Valid() && Value() == from.Value()
      ensures forall i :: 0 <= i < |sub| ==> sub[i] == null || fresh(sub[i])
      decreases Height(from.t), 1
    {
      t := from.t;
      has, raw, unknown, cached := from.has, from.raw, from.unknown, 0;
      sub := seq(|from.sub|, _ => null);
      new;
      hide Schema, MsgOk, InRange, Known, ValidWith, ValueWith;
      ghost var h := CopiedScalars(from);
      CopySubs(from, from.Value(), h);
    }

    method CopySubs(from: Message, ghost a: Msg, ghost h: seq<bool>)
      requires ValidWith(h) && t == from.t && from != this && from.Valid() && a == from.Value()
      requires forall j :: 0 <= j < |sub| ==> sub[j] == null
      requires has == from.has && unknown == from.unknown
      requires |h| == |has| && forall j :: 0 <= j < |h| ==> h[j] == (has[j] && !Schema(t)[j].kind.KMessage?)
      requires forall j :: 0 <= j < |h| ==>
        ValueWith(h).fields[j] == if Schema(t)[j].kind.KMessage? then Unset else a.fields[j]
      modifies this`sub
      ensures Valid() && Value() == a && forall j :: 0 <= j < |sub| ==> sub[j] == null || fresh(sub[j])
      decreases Height(from.t), 0, 2
    {
      hide Schema, MsgOk, ValidWith, ValueWith;
      NotOwn(h);
      from.NotOwn(from.has);
      FieldCount(t, a);
      FieldCount(t, ValueWith(h));
      ghost var g := h;
      for i := 0 to |from.sub|
        invariant |g| == |sub| == |from.sub| && ValidWith(g) && ValueWith(g).unknown == a.unknown
        invariant from.Valid() && a == from.Value()
        invariant forall j :: 0 <= j < |sub| ==> (sub[j] == null || fresh(sub[j])) && (i <= j ==> sub[j] == null)
        invariant forall j :: 0 <= j < |g| ==> g[j] == (has[j] && (j < i || !Schema(t)[j].kind.KMessage?))
        invariant |ValueWith(g).fields| == |g|
        invariant forall j :: 0 <= j < |g| ==>
          ValueWith(g).fields[j] == if j < i || !Schema(t)[j].kind.KMessage? then a.fields[j] else Unset
      {
        if Schema(t)[i].kind.KMessage? && from.HasField(i) {
          g := CopySlot(from, i, a, g);
          FieldCount(t, ValueWith(g));
        }
      }
      assert g == has;
      FieldCount(t, Value());
      assert Value().fields == a.fields;
    }

    method CopySlot(from: Message, i: nat, ghost a: Msg, ghost h: seq<bool>) returns (ghost g: seq<bool>)
      requires ValidWith(h) && t == from.t && from != this && i < |Schema(t)| && sub[i] == null
      requires from.Valid() && a == from.Value() && Schema(t)[i].kind.KMessage? && from.HasField(i)
      modifies this`sub
      ensures g == h[i := from.has[i]] && ValidWith(g) && fresh(sub[i]) && sub == old(sub)[i := sub[i]]
      ensures ValueWith(g) == WithField(t, old(ValueWith(h)), i, a.fields[i])
      decreases Height(from.t), 0, 1
    {
      hide Schema, MsgOk, Plain, SlotValue;
      var s := CopySub(from, i);
      label Made:
      sub := sub[i := s];
      g := h[i := from.has[i]];
      SameSlot@Made(s, Schema(t)[i], from.has[i], 0);
      assert SlotOk(Schema(t)[i], h[i], raw[i], null);
      SlotUpdated@Made(this, h, g, i);
    }

    /** A copy of a present sub-message, fit for the slot it was copied from. */
    static method CopySub(from: Message, i: nat) returns (s: Message)
      requires from.Valid() && i < |Schema(from.t)| && Schema(from.t)[i].kind.KMessage? && from.HasField(i)
      ensures fresh(s) && SlotOk(Schema(from.t)[i], from.has[i], 0, s) && SubOk(Schema(from.t)[i], from.has[i], s)
      ensures SlotValue(Schema(from.t)[i], from.has[i], 0, s) == from.Value().fields[i]
      decreases Height(from.t), 0, 0
    {
      hide Schema, MsgOk, Message.Plain;
      SubsAreLeaves(from.t, i);
      from.sub[i].LeafIsPlain();
      s := new Message.Copy(from.sub[i]);
      s.LeafIsPlain();
    }

    /** The scalars are all there, the sub-messages not yet. */
    ghost method CopiedScalars(from: Message) returns (h: seq<bool>)
      requires from.Valid() && t == from.t && raw == from.raw && unknown == from.unknown
      requires |sub| == |from.sub| && forall i :: 0 <= i < |sub| ==> sub[i] == null
      ensures |h| == |sub| && ValidWith(h) && ValueWith(h).unknown == unknown
      ensures forall j :: 0 <= j < |h| ==> h[j] == (from.has[j] && !Schema(t)[j].kind.KMessage?)
      ensures forall j :: 0 <= j < |h| ==>
        ValueWith(h).fields[j] == if Schema(t)[j].kind.KMessage? then Unset else from.Value().fields[j]
    {
      hide Schema, MsgOk, Plain, InRange, Known;
      h := seq(|sub|, j requires 0 <= j < |sub| == |from.has| == |Schema(t)| reads this, from =>
                        from.has[j] && !Schema(t)[j].kind.KMessage?);
    }

    method InternalSwap(other: Message)
      requires Valid() && other.Valid() && other.t == t && other != this
      modifies this`has, this`raw, this`sub, this`unknown, other`has, other`raw, other`sub, other`unknown
      ensures Valid() && Value() == old(other.Value())
      ensures other.Valid() && other.Value() == old(Value())
      ensures sub == old(other.sub) && other.sub == old(sub)
    {
      hide Schema, MsgOk, ValidWith, ValueWith;
      UnknownsOk(t, Value());
      UnknownsOk(t, other.Value());
      NotOwn(has);
      other.NotOwn(other.has);
      has, other.has := other.has, has;
      raw, other.raw := other.raw, raw;
      sub, other.sub := other.sub, sub;
      unknown, other.unknown := other.unknown, unknown;
      SlotsTaken(this, other, has);
      SlotsTaken(other, this, other.has);
    }

    // _InternalParse: presence bits of scalars gather in a local and are merged in at the end, also after a failure

    /** ParseContext::ParseMessage: a length, which becomes the limit one level down. */
    method ParseDelimited(bs: seq<byte>, depth: nat) returns (ok: bool, used: nat)
      requires Valid()
      modifies this`has, this`raw, this`sub, this`unknown, sub
      ensures Valid() && |sub| == |old(sub)|
      ensures forall j :: 0 <= j < |sub| ==> sub[j] == old(sub[j]) || fresh(sub[j])
      ensures ParseSub(t, bs, old(Value()), depth) == if ok then Some((Value(), used)) else None
      ensures !ok ==> SubLeft(t, bs, old(Value()), depth, Value())
      decreases Height(t), 2
    {
      hide Schema, MsgOk, ReadSize, ParseInto, LeftBy, ValidWith, ValueWith;
      ok, used := false, 0;
      match ReadSize(bs)
      case None =>
      case Some(p) =>
        if depth != 0 {
          ok := InternalParse(bs[p.1..], p.0, depth - 1);
          used := p.1 + p.0;
          assert used <= |bs| ==> bs[p.1..][..p.0] == bs[p.1..used];
        }
    }

    method ParseMessage(i: nat, bs: seq<byte>, depth: nat, ghost h: seq<bool>)
      returns (ok: bool, used: nat, ghost g: seq<bool>)
      requires ValidWith(h) && |has| == |h| && i < |Schema(t)| && Schema(t)[i].kind.KMessage?
      modifies this`has, this`sub, sub
      ensures has == if Schema(t)[i].tracked then old(has)[i := true] else old(has)
      ensures g == if Schema(t)[i].tracked then h[i := true] else h
      ensures ValidWith(g) && (sub == old(sub) || (fresh(sub[i]) && sub == old(sub)[i := sub[i]]))
      ensures ParseKnown(t, i, bs, old(ValueWith(h)), depth) == if ok then Some((ValueWith(g), used)) else None
      ensures !ok ==> KnownLeft(t, i, bs, old(ValueWith(h)), depth, ValueWith(g))
      decreases Height(t), 0, 0
    {
      hide Schema, Plain, MsgOk, ParseSub, SubLeft, ValidWith, ValueWith, Leaf;
      ghost var m := ValueWith(h);
      FieldCount(t, m);
      SlotFacts(h, i);
      SubsAreLeaves(t, i);
      NotOwn(h);
      var s;
      s, g := MutableWith(i, h);
      label Made:
      ghost var v := s.Value();
      SlotFacts(g, i);
      NotOwn(g);
      s.LeafIsPlain();
      ok, used := s.ParseDelimited(bs, depth);
      s.LeafIsPlain();
      SlotUpdated@Made(this, g, g, i);
      SetTwice(t, m, i, Sub(v), Sub(s.Value()));
    }

    /** The case of the switch for known field i; `next` are the local presence bits afterwards. A scalar
        whose value cannot be read is left with whatever was there, which after a failure is any value. */
    method ParseScalarField(i: nat, bs: seq<byte>, local: seq<bool>) returns (ok: bool, used: nat, next: seq<bool>)
      requires |has| == |local| && ValidWith(Or(has, local)) && i < |Schema(t)| && !Schema(t)[i].kind.KMessage?
      modifies this`raw
      ensures next == if Schema(t)[i].tracked then local[i := true] else local
      ensures ValidWith(Or(has, next))
      ensures forall depth :: ParseKnown(t, i, bs, old(ValueWith(Or(has, local))), depth)
                           == if ok then Some((ValueWith(Or(has, next)), used)) else None
      ensures !ok ==> forall depth ::
                KnownLeft(t, i, bs, old(ValueWith(Or(has, local))), depth, ValueWith(Or(has, next)))
    {
      hide Schema, MsgOk, ParseScalar;
      var f := Schema(t)[i];
      next := if f.tracked then local[i := true] else local;
      match ParseScalar(f.kind, bs) {
        case None =>
          var b: nat :| b < ScalarBound(f.kind);
          ok, used := false, 0;
          raw := raw[i := b];
        case Some(p) =>
          ok, used := true, p.1;
          raw := raw[i := p.0];
      }
      assert Or(has, next) == if f.tracked then Or(has, local)[i := true] else Or(has, local);
      SlotUpdated(this, Or(has, local), Or(has, next), i);
    }

    /** handle_unusual */
    method ParseUnusualField(tag: nat, bs: seq<byte>, depth: nat, ghost h: seq<bool>) returns (ok: bool, used: nat)
      requires ValidWith(h) && tag < TWO32 && !Known(t, tag / 8, tag % 8)
      modifies this`unknown
      ensures ValidWith(h)
      ensures ParseUnusual(t, tag, bs, old(ValueWith(h)), depth) == if ok then Some((ValueWith(h), used)) else None
      ensures !ok ==> UnusualLeft(t, tag, bs, old(ValueWith(h)), depth, ValueWith(h))
    {
      hide Schema, MsgOk, ParseBody, ValidWith, ValueWith, Known, FieldKept;
      NotOwn(h);
      ok, used := false, 0;
      if tag == 0 || tag % 8 == END_GROUP {
        return;
      }
      match ParseBody(tag, bs, depth)
      case None =>
        var u: Unknown := *;   // as much of the field as was read
        if FieldKept(tag, bs, depth, u) {
          KeptInRange(tag, bs, depth, u);
          UnknownsOk(t, WithUnknown(t, ValueWith(h), u));
          unknown := unknown + [u];
          SlotsTaken(this, this, h);
        }
      case Some(u) =>
        ParsedBodyInRange(tag, bs, depth);
        UnknownsOk(t, WithUnknown(t, ValueWith(h), u.0));
        unknown := unknown + [u.0];
        SlotsTaken(this, this, h);
        ok, used := true, u.1;
    }

    /** The switch over tags. */
    method ParseRecord(tag: nat, bs: seq<byte>, depth: nat, local: seq<bool>)
      returns (ok: bool, used: nat, next: seq<bool>)
      requires |has| == |local| && ValidWith(Or(has, local)) && tag < TWO32
      modifies this`has, this`raw, this`sub, this`unknown, sub
      ensures |has| == |next| && ValidWith(Or(has, next)) && |sub| == |old(sub)|
      ensures forall j :: 0 <= j < |sub| ==> sub[j] == old(sub[j]) || fresh(sub[j])
      ensures ParseTagged(t, tag, bs, old(ValueWith(Or(has, local))), depth)
           == if ok then Some((ValueWith(Or(has, next)), used)) else None
      ensures !ok ==> RecordLeft(t, tag, bs, old(ValueWith(Or(has, local))), depth, ValueWith(Or(has, next)))
      decreases Height(t), 0, 1
    {
      hide Schema, MsgOk, ValidWith, ValueWith, ParseKnown, ParseUnusual, KnownLeft, UnusualLeft;
      ghost var h := Or(has, local);
      NotOwn(h);
      next := local;
      var i := FieldIndex(Schema(t), tag / 8);
      if i < |Schema(t)| && WireTypeFor(Schema(t)[i].kind) == tag % 8 {
        if Schema(t)[i].kind.KMessage? {
          ghost var g;
          ok, used, g := ParseMessage(i, bs, depth, h);
          assert g == Or(has, local);
        } else {
          ok, used, next := ParseScalarField(i, bs, local);
        }
      } else {
        ok, used := ParseUnusualField(tag, bs, depth, h);
      }
    }

    /** One turn of the parse loop. A tag that runs past the bytes at hand is completed by what lies behind, and
        looked up, before anybody notices. */
    method ParseTurn(bs: seq<byte>, depth: nat, local: seq<bool>) returns (ok: bool, used: nat, next: seq<bool>)
      requires |has| == |local| && ValidWith(Or(has, local))
      modifies this`has, this`raw, this`sub, this`unknown, sub
      ensures |has| == |next| && ValidWith(Or(has, next)) && |sub| == |old(sub)|
      ensures forall j :: 0 <= j < |sub| ==> sub[j] == old(sub[j]) || fresh(sub[j])
      ensures ParseField(t, bs, old(ValueWith(Or(has, local))), depth)
           == if ok then Some((ValueWith(Or(has, next)), used)) else None
      ensures !ok ==> FieldLeft(t, bs, old(ValueWith(Or(has, local))), depth, ValueWith(Or(has, next)))
      decreases Height(t), 0, 2
    {
      hide Schema, MsgOk, ReadTag, ScanTag, ValidWith, ValueWith, ParseTagged, RecordLeft;
      ok, used, next := false, 0, local;
      match ReadTag(bs)
      case None =>
        var tag: nat := *;
        if bs != [] && ScanTag(bs) == RanOut && tag < TWO32 {
          ghost var m := ValueWith(Or(has, local));
          ok, used, next := ParseRecord(tag, [], depth, local);
          NothingTagged(t, tag, m, depth);
          CutTagLeft(t, tag, bs, m, depth, ValueWith(Or(has, next)));
        }
      case Some(p) =>
        ok, used, next := ParseRecord(p.0, bs[p.1..], depth, local);
        used := used + p.1;
    }

    /** Parses a message of `limit` bytes, of which bs are at hand: fewer, or more, if another message lies around
        it. Between two records Done compares how far the parse came with the limit. */
    method InternalParse(bs: seq<byte>, limit: nat, depth: nat) returns (ok: bool)
      requires Valid()
      modifies this`has, this`raw, this`sub, this`unknown, sub
      ensures Valid() && |sub| == |old(sub)|
      ensures forall j :: 0 <= j < |sub| ==> sub[j] == old(sub[j]) || fresh(sub[j])
      ensures if limit <= |bs| then ParseInto(t, bs[..limit], old(Value()), depth) == if ok then Some(Value()) else None
              else !ok
      ensures !ok ==> LeftBy(t, bs, limit, old(Value()), depth, Value())
      decreases Height(t), 1
    {
      hide Schema, MsgOk, ParseField, ParseInto, FieldLeft, ValidWith, ValueWith;
      NotOwn(has);
      ghost var was := Value();
      var local, p := seq(|has|, _ => false), 0;
      ok := true;
      assert Or(has, local) == has;
      assert bs[0..] == bs;
      while ok && p < limit
        invariant p <= |bs| && |has| == |local| && ValidWith(Or(has, local)) && |sub| == |old(sub)|
        invariant forall j :: 0 <= j < |sub| ==> sub[j] == old(sub[j]) || fresh(sub[j])
        invariant ok ==> p <= limit
        invariant ok && limit <= |bs| ==>
                    ParseInto(t, bs[..limit], was, depth)
                    == ParseInto(t, bs[p..limit], ValueWith(Or(has, local)), depth)
        invariant ok ==> forall n ::
                    MsgOk(t, n) && LeftBy(t, bs[p..], limit - p, ValueWith(Or(has, local)), depth, n)
                    ==> LeftBy(t, bs, limit, was, depth, n)
        invariant !ok ==> LeftBy(t, bs, limit, was, depth, ValueWith(Or(has, local)))
        decreases ok, |bs| - p
      {
        ghost var rest, left, m := bs[p..], limit - p, ValueWith(Or(has, local));
        var used;
        ok, used, local := ParseTurn(bs[p..], depth, local);
        if ok {
          p := p + used;
          assert rest[used..] == bs[p..];
          if limit <= |bs| && p <= limit {
            TurnTaken(t, rest, left, m, depth);
            assert rest[..left] == bs[p - used..limit] && rest[used..left] == bs[p..limit];
          }
          ok := p <= limit;
        }
        if !ok {
          assert LeftBy(t, rest, left, m, depth, ValueWith(Or(has, local)));
        }
      }
      has := Or(has, local);
      if ok && limit <= |bs| {
        NothingToParse(t, bs[p..limit], Value(), depth);
      } else if limit <= |bs| {
        LeftMeansFailed(t, bs, limit, was, depth, Value());
      }
    }

    /** ParseFromArray, where bs are the bytes at hand of the `size` bytes there should be. They decide, not what
        was there before. */
    method ParseFromArray(bs: seq<byte>, size: nat, depth: nat) returns (ok: bool)
      requires Valid() && |bs| <= size
      modifies this`has, this`raw, this`sub, this`unknown, sub
      ensures Valid() && MsgOk(t, Default(t))
      ensures forall j :: 0 <= j < |sub| ==> sub[j] == null || sub[j] in old(sub) || fresh(sub[j])
      ensures if size == |bs| then ParseInto(t, bs, Default(t), depth) == if ok then Some(Value()) else None
              else !ok
      ensures !ok ==> LeftBy(t, bs, size, Default(t), depth, Value())
    {
      hide Schema, MsgOk, ValidWith, ValueWith, ParseInto, LeftBy;
      NotOwn(has);
      Clear();
      assert bs[..|bs|] == bs;
      ok := InternalParse(bs, size, depth);
    }

    /** SerializeToArray: sizes first, then the bytes, if they fit. */
    method SerializeToArray(size: nat) returns (ok: bool, out: seq<byte>)
      requires Valid() && |Encode(t, Value())| <= INT_MAX
      modifies this`cached, sub`cached
      ensures Valid() && Value() == old(Value())
      ensures ok == (|Encode(t, Value())| <= size) && out == if ok then Encode(t, Value()) else []
    {
      hide Schema, MsgOk, ValidWith, ValueWith, Encode;
      var n := ByteSizeLong();
      ok, out := n <= size, [];
      if ok {
        out := InternalSerialize([]);
        assert out == Encode(t, Value());
      }
    }

    lemma ClearedIsDefault()
      requires Valid() && unknown == [] && forall j :: 0 <= j < |Schema(t)| ==> Value().fields[j] == Unset
      ensures Value() == Default(t)
    {
      hide Schema;
      assert Value().fields == Default(t).fields;
    }
  }

  /** Nothing but the cached size may have changed. */
  twostate predicate Same(s: Message)
    reads s
  {
    unchanged(s`has, s`raw, s`sub, s`unknown)
  }

  twostate lemma SamePlain(s: Message)
    requires Same(s) && Leaf(s.t) && old(s.Shape(s.has))
    ensures s.Shape(s.has) && s.Plain() == old(s.Plain())
  {
    hide Schema, MsgOk;
  }

  twostate lemma SameSlot(s: Message?, new f: Field, new h: bool, new b: nat)
    requires (s != null ==> Same(s)) && Message.SlotOk(f, h, b, s) && old(Message.SubOk(f, h, s))
    ensures Message.SubOk(f, h, s) && Message.SlotValue(f, h, b, s) == old(Message.SlotValue(f, h, b, s))
  {
    hide Schema, MsgOk, Message.Plain;
    if s != null && f.kind.KMessage? {
      SamePlain(s);
    }
  }

  /** One slot changed and nothing else: so did one field of the value. */
  twostate lemma SlotUpdated(m: Message, new h0: seq<bool>, new h1: seq<bool>, new i: nat)
    requires old(m.ValidWith(h0)) && i < |Schema(m.t)|
    requires |h1| == |m.raw| == |m.sub| == |Schema(m.t)| && m.unknown == old(m.unknown)
    requires forall j :: 0 <= j < |m.sub| && j != i ==>
               h1[j] == h0[j] && m.raw[j] == old(m.raw[j]) && m.sub[j] == old(m.sub[j])
               && (m.sub[j] != null ==> Same(m.sub[j]) && m.sub[j] != m.sub[i])
    requires Message.SlotOk(Schema(m.t)[i], h1[i], m.raw[i], m.sub[i]) && Message.SubOk(Schema(m.t)[i], h1[i], m.sub[i])
    ensures m.ValidWith(h1)
    ensures m.ValueWith(h1)
         == WithField(m.t, old(m.ValueWith(h0)), i, Message.SlotValue(Schema(m.t)[i], h1[i], m.raw[i], m.sub[i]))
  {
    hide Schema, MsgOk, Message.Plain, InRange, Known, Message.SlotOk, Message.SlotValue, Message.SubOk, Same;
    assert m.Shape(h1);
    forall j | 0 <= j < |m.sub| && j != i
      ensures Message.SubOk(Schema(m.t)[j], h1[j], m.sub[j])
      ensures Message.SlotValue(Schema(m.t)[j], h1[j], m.raw[j], m.sub[j]) == old(m.ValueWith(h0)).fields[j]
    {
      SameSlot(m.sub[j], Schema(m.t)[j], h0[j], m.raw[j]);
    }
    assert m.ValueWith(h1).fields
        == old(m.ValueWith(h0)).fields[i := Message.SlotValue(Schema(m.t)[i], h1[i], m.raw[i], m.sub[i])];
  }

  lemma UnknownsOk(t: MessageType, m: Msg)
    requires MsgOk(t, m)
    ensures forall i :: 0 <= i < |m.unknown| ==>
              InRange(m.unknown[i]) && !Known(t, m.unknown[i].number, WireTypeOf(m.unknown[i]))
  {
  }

  /** m has what o held, with unknown fields of its own. */
  twostate lemma SlotsTaken(new m: Message, o: Message, new h: seq<bool>)
    requires old(o.ValidWith(h)) && m.t == o.t && m.raw == old(o.raw) && m.sub == old(o.sub)
    requires forall j :: 0 <= j < |m.sub| && m.sub[j] != null ==> Same(m.sub[j])
    requires forall i :: 0 <= i < |m.unknown| ==>
               InRange(m.unknown[i]) && !Known(m.t, m.unknown[i].number, WireTypeOf(m.unknown[i]))
    ensures m.ValidWith(h) && m.ValueWith(h) == old(o.ValueWith(h)).(unknown := m.unknown)
  {
    hide Schema, MsgOk, Message.Plain, InRange, Known, Message.SlotOk, Message.SlotValue, Message.SubOk, Same;
    assert m.Shape(h);
    forall j | 0 <= j < |m.sub|
      ensures Message.SubOk(Schema(m.t)[j], h[j], m.sub[j])
      ensures Message.SlotValue(Schema(m.t)[j], h[j], m.raw[j], m.sub[j]) == old(o.ValueWith(h)).fields[j]
    {
      SameSlot(m.sub[j], Schema(m.t)[j], h[j], m.raw[j]);
    }
    assert m.ValueWith(h).fields == old(o.ValueWith(h)).fields;
  }
}
