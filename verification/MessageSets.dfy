/** Items of a MessageSet (ExtensionSet::ParseMessageSetItemTmpl in extension_set_inl.h): a type id and a
    payload in either order, any of them repeated. */
module MessageSets {
  import opened Powers
  import opened Wire
  import opened Wrappers

  const TYPE_ID_TAG: byte := 16
  const MESSAGE_TAG: byte := 26

  /** The extensions a message set knows, and what storing does to its contents S. A parser asks for a
      recursion budget of `need` and is otherwise indifferent to it. */
  datatype Registry<!S> = Registry(
    known: nat -> bool,
    need: (nat, seq<byte>) -> nat,
    merge: (nat, seq<byte>, S) -> Option<S>,
    keepUnknown: (nat, seq<byte>, S) -> S,
    parseField: (nat, seq<byte>, S) -> Option<(S, nat)>)
  {
    function Parse(id: nat, payload: seq<byte>, budget: nat, s: S): Option<S> {
      if budget < need(id, payload) then None else merge(id, payload, s)
    }

    /** The payload arrives when the type id is known: it is parsed as a field, one level down, and field
        number zero is refused. */
    function StoreField(id: nat, payload: seq<byte>, budget: nat, s: S): Option<S> {
      if known(id) then if budget == 0 then None else Parse(id, payload, budget - 1, s)
      else if id == 0 then None
      else Some(keepUnknown(id, payload, s))
    }

    /** The type id arrives when the payload has been put aside: it is parsed on this level. */
    function StoreLate(id: nat, payload: seq<byte>, budget: nat, s: S): Option<S> {
      if known(id) then Parse(id, payload, budget, s) else Some(keepUnknown(id, payload, s))
    }
  }

  datatype State = NoTag | HasType(id: nat) | HasPayload(payload: seq<byte>) | Done

  datatype Record = TypeId(id: nat) | Payload(payload: seq<byte>)

  /** One record of the item: the new state and contents. */
  function Step<S>(r: Registry<S>, state: State, s: S, record: Record, budget: nat): Option<(State, S)> {
    match (state, record)
    case (NoTag, TypeId(id)) => Some((HasType(id), s))
    case (NoTag, Payload(p)) => Some((HasPayload(p), s))
    case (HasType(id), Payload(p)) =>
      (match r.StoreField(id, p, budget, s)
       case None => None
       case Some(s') => Some((Done, s')))
    case (HasPayload(p), TypeId(id)) =>
      (match r.StoreLate(id, p, budget, s)
       case None => None
       case Some(s') => Some((Done, s')))
    case _ => Some((state, s))
  }

  function Run<S>(r: Registry<S>, state: State, s: S, records: seq<Record>, budget: nat): Option<(State, S)>
    decreases |records|
  {
    if records == [] then Some((state, s))
    else
      match Step(r, state, s, records[0], budget)
      case None => None
      case Some(n) => Run(r, n.0, n.1, records[1..], budget)
  }

  // What a sequence of records says, whatever the order

  function FirstId(records: seq<Record>): Option<nat> {
    if records == [] then None else if records[0].TypeId? then Some(records[0].id) else FirstId(records[1..])
  }

  function FirstPayload(records: seq<Record>): Option<seq<byte>> {
    if records == [] then None
    else if records[0].Payload? then Some(records[0].payload)
    else FirstPayload(records[1..])
  }

  /** What becomes of the contents: nothing if the id or the payload is missing, else one store of the first
      id with the first payload. Which kind of store depends on what came first. */
  function Meaning<S>(r: Registry<S>, s: S, records: seq<Record>, budget: nat): Option<S> {
    match (FirstId(records), FirstPayload(records))
    case (Some(id), Some(p)) =>
      if records[0].TypeId? then r.StoreField(id, p, budget, s) else r.StoreLate(id, p, budget, s)
    case _ => Some(s)
  }

  lemma {:induction false} DoneIsDone<S>(r: Registry<S>, s: S, records: seq<Record>, budget: nat)
    ensures Run(r, Done, s, records, budget) == Some((Done, s))
  {
    if records != [] {
      DoneIsDone(r, s, records[1..], budget);
    }
  }

  lemma {:induction false} TypeThenPayload<S>(r: Registry<S>, id: nat, s: S, records: seq<Record>, budget: nat)
    ensures var p, n := FirstPayload(records), Run(r, HasType(id), s, records, budget);
            if p == None then n == Some((HasType(id), s))
            else match r.StoreField(id, p.value, budget, s)
                 case None => n == None
                 case Some(s') => n == Some((Done, s'))
  {
    if records != [] {
      if records[0].Payload? {
        match r.StoreField(id, records[0].payload, budget, s)
        case None =>
        case Some(s') => DoneIsDone(r, s', records[1..], budget);
      } else {
        TypeThenPayload(r, id, s, records[1..], budget);
      }
    }
  }

  lemma {:induction false} PayloadThenType<S>(r: Registry<S>, p: seq<byte>, s: S, records: seq<Record>, budget: nat)
    ensures var id, n := FirstId(records), Run(r, HasPayload(p), s, records, budget);
            if id == None then n == Some((HasPayload(p), s))
            else match r.StoreLate(id.value, p, budget, s)
                 case None => n == None
                 case Some(s') => n == Some((Done, s'))
  {
    if records != [] {
      if records[0].TypeId? {
        match r.StoreLate(records[0].id, p, budget, s)
        case None =>
        case Some(s') => DoneIsDone(r, s', records[1..], budget);
      } else {
        PayloadThenType(r, p, s, records[1..], budget);
      }
    }
  }

  /** The state machine stores the first id with the first payload, once, and nothing if either is missing. */
  lemma RunIsMeaning<S>(r: Registry<S>, s: S, records: seq<Record>, budget: nat)
    ensures var n := Run(r, NoTag, s, records, budget);
            Meaning(r, s, records, budget) == if n.Some? then Some(n.value.1) else None
  {
    if records != [] {
      match records[0]
      case TypeId(id) => TypeThenPayload(r, id, s, records[1..], budget);
      case Payload(p) => PayloadThenType(r, p, s, records[1..], budget);
    }
  }

  /** In terms of the registry alone: a known type is merged, with one level of the budget less if its id came first;
      an unknown one is kept, unless its id is zero and came first. */
  lemma RunExactly<S>(r: Registry<S>, s: S, records: seq<Record>, budget: nat, id: nat, p: seq<byte>)
    requires FirstId(records) == Some(id) && FirstPayload(records) == Some(p)
    ensures var left := Contents(Run(r, NoTag, s, records, budget));
            var idFirst := records[0].TypeId?;
            left == if r.known(id) then
                      if budget < r.need(id, p) + (if idFirst then 1 else 0) then None else r.merge(id, p, s)
                    else if idFirst && id == 0 then None
                    else Some(r.keepUnknown(id, p, s))
  {
    RunIsMeaning(r, s, records, budget);
  }

  /** Two items with the same first id and the same first payload have the same effect, if the same kind of
      record comes first. If not, the order makes no difference exactly when the type is known and its parse
      does not need the very last level of the recursion budget, or is unknown and not number zero. */
  lemma SameFirstsSameEffect<S>(r: Registry<S>, s: S, x: seq<Record>, y: seq<Record>, budget: nat)
    requires FirstId(x) == FirstId(y) && FirstPayload(x) == FirstPayload(y) && x != [] && y != []
    ensures Contents(Run(r, NoTag, s, x, budget)) == Contents(Run(r, NoTag, s, y, budget))
       <==> x[0].TypeId? == y[0].TypeId?
            || match (FirstId(x), FirstPayload(x))
               case (Some(id), Some(p)) =>
                 if r.known(id) then budget != r.need(id, p) || r.merge(id, p, s) == None else id != 0
               case _ => true
  {
    RunIsMeaning(r, s, x, budget);
    RunIsMeaning(r, s, y, budget);
  }

  /** Type number zero, when nobody knows it, is refused in front of its payload and kept behind it. */
  lemma OrderMattersForZero<S>(r: Registry<S>, s: S, budget: nat)
    requires !r.known(0)
    ensures Run(r, NoTag, s, [TypeId(0), Payload([])], budget) == None
    ensures Run(r, NoTag, s, [Payload([]), TypeId(0)], budget) == Some((Done, r.keepUnknown(0, [], s)))
  {
    RunIsMeaning(r, s, [TypeId(0), Payload([])], budget);
    PayloadThenType(r, [], s, [TypeId(0)], budget);
  }

  /** A known payload that takes the whole budget is refused behind its type id and merged in front of it. */
  lemma OrderMattersAtTheLimit<S>(r: Registry<S>, s: S, id: nat, p: seq<byte>, merged: S)
    requires r.known(id) && r.merge(id, p, s) == Some(merged)
    ensures Run(r, NoTag, s, [TypeId(id), Payload(p)], r.need(id, p)) == None
    ensures Run(r, NoTag, s, [Payload(p), TypeId(id)], r.need(id, p)) == Some((Done, merged))
  {
    RunIsMeaning(r, s, [TypeId(id), Payload(p)], r.need(id, p));
    PayloadThenType(r, p, s, [TypeId(id)], r.need(id, p));
  }

  function Contents<S>(n: Option<(State, S)>): Option<S> {
    if n.Some? then Some(n.value.1) else None
  }

  // The bytes of an item

  datatype Outcome<S> = Ended(contents: S) | Stopped(tag: nat, contents: S) | Failed

  /** The next record of an item: a type id kept in 32 bits, or a payload; and how long it is. */
  function NextRecord(bs: seq<byte>): (r: Option<(Record, nat)>)
    requires bs != [] && bs[0] in {TYPE_ID_TAG, MESSAGE_TAG}
    ensures r.Some? ==> 0 < r.value.1 <= |bs|
  {
    if bs[0] == TYPE_ID_TAG then
      match ReadVarint64(bs[1..])
      case None => None
      case Some(v) => Some((TypeId(v.0 % 0x1_0000_0000), 1 + v.1))
    else
      match ReadSize(bs[1..])
      case None => None
      case Some(n) =>
        if |bs| < 1 + n.1 + n.0 then None else Some((Payload(bs[1 + n.1..1 + n.1 + n.0]), 1 + n.1 + n.0))
  }

  function ParseItem<S>(r: Registry<S>, state: State, s: S, bs: seq<byte>, budget: nat): Outcome<S>
    decreases |bs|
  {
    if bs == [] then Ended(s)
    else if bs[0] in {TYPE_ID_TAG, MESSAGE_TAG} then
      match NextRecord(bs)
      case None => Failed
      case Some(p) =>
        match Step(r, state, s, p.0, budget)
        case None => Failed
        case Some(n) => ParseItem(r, n.0, n.1, bs[p.1..], budget)
    else
      match ReadTag(bs)
      case None => Failed
      case Some(t) =>
        if t.0 == 0 || t.0 % 8 == END_GROUP then Stopped(t.0, s)
        else
          match r.parseField(t.0, bs[t.1..], s)
          case None => Failed
          case Some(f) => if |bs| < t.1 + f.1 then Failed else ParseItem(r, state, f.0, bs[t.1 + f.1..], budget)
  }

  /** What an item is written from: type ids and payloads, and any other fields with what they do to the contents. */
  datatype Piece<!S> = Part(record: Record) | Other(tag: nat, body: seq<byte>, effect: S -> S)

  /** Type ids are written in 64 bits. Other fields are those whose bodies the message set reads back, whatever
      follows. */
  ghost predicate Writable<S(!new)>(r: Registry<S>, piece: Piece<S>) {
    match piece
    case Part(TypeId(id)) => id < TWO64
    case Part(Payload(p)) => |p| <= MAX_READ
    case Other(tag, body, effect) =>
      && 0 < tag < TWO32 && tag % 8 != 4 && tag != 16 && tag != 26
      && forall rest: seq<byte>, s :: r.parseField(tag, body + rest, s) == Some((effect(s), |body|))
  }

  function PieceBytes<S>(piece: Piece<S>): (bs: seq<byte>)
    ensures bs != []
  {
    match piece
    case Part(TypeId(id)) => [16] + EncodeVarint(id)
    case Part(Payload(p)) => [26] + EncodeVarint(|p|) + p
    case Other(tag, body, _) => EncodeVarint(tag) + body
  }

  function ItemBytes<S>(pieces: seq<Piece<S>>): seq<byte> {
    if pieces == [] then [] else PieceBytes(pieces[0]) + ItemBytes(pieces[1..])
  }

  /** A type id counts by its low 32 bits. */
  function Kept(record: Record): Record {
    if record.TypeId? then TypeId(record.id % 0x1_0000_0000) else record
  }

  /** The parts run the state machine; other fields leave it where it is and only have their own effect. */
  function RunPieces<S>(r: Registry<S>, state: State, s: S, pieces: seq<Piece<S>>, budget: nat): Option<(State, S)>
    decreases |pieces|
  {
    if pieces == [] then Some((state, s))
    else
      match pieces[0]
      case Other(_, _, effect) => RunPieces(r, state, effect(s), pieces[1..], budget)
      case Part(record) =>
        match Step(r, state, s, Kept(record), budget)
        case None => None
        case Some(n) => RunPieces(r, n.0, n.1, pieces[1..], budget)
  }

  function PartsOf<S>(pieces: seq<Piece<S>>): seq<Record> {
    if pieces == [] then []
    else (if pieces[0].Part? then [Kept(pieces[0].record)] else []) + PartsOf(pieces[1..])
  }

  /** Without other fields, that is the state machine over the records. */
  lemma {:induction false} PartsRun<S>(r: Registry<S>, state: State, s: S, pieces: seq<Piece<S>>, budget: nat)
    requires forall i :: 0 <= i < |pieces| ==> pieces[i].Part?
    ensures RunPieces(r, state, s, pieces, budget) == Run(r, state, s, PartsOf(pieces), budget)
    decreases |pieces|
  {
    hide Step, Kept;
    if pieces != [] {
      var rest := PartsOf(pieces[1..]);
      assert PartsOf(pieces)[1..] == rest;
      match Step(r, state, s, Kept(pieces[0].record), budget)
      case None =>
      case Some(n) => PartsRun(r, n.0, n.1, pieces[1..], budget);
    }
  }

  /** Taking apart a tag byte, a varint and a body. */
  lemma Tagged(tag: byte, size: seq<byte>, body: seq<byte>, rest: seq<byte>)
    ensures var bs := [tag] + size + body + rest;
            && bs[0] == tag && bs[1..] == size + (body + rest)
            && bs[1 + |size|..1 + |size| + |body|] == body
    ensures [tag] + size + [] == [tag] + size && [] + rest == rest
  {
  }

  lemma RecordBack<S(!new)>(r: Registry<S>, piece: Piece<S>, rest: seq<byte>)
    requires Writable(r, piece) && piece.Part?
    ensures var bs := PieceBytes(piece) + rest;
            && bs[0] in {TYPE_ID_TAG, MESSAGE_TAG}
            && NextRecord(bs) == Some((Kept(piece.record), |PieceBytes(piece)|))
  {
    hide EncodeVarint, ReadVarint64, ReadSize;
    match piece.record
    case TypeId(id) =>
      ReadBack(id, rest);
      Tagged(TYPE_ID_TAG, EncodeVarint(id), [], rest);
    case Payload(p) =>
      ReadBack(|p|, p + rest);
      Tagged(MESSAGE_TAG, EncodeVarint(|p|), p, rest);
  }

  /** A tag is taken for a type id or a payload only if it is one. */
  lemma OtherTag(tag: nat, rest: seq<byte>)
    requires tag < TWO32 && tag != 16 && tag != 26
    ensures var bs := EncodeVarint(tag) + rest;
            bs != [] && bs[0] !in {TYPE_ID_TAG, MESSAGE_TAG} && ReadTag(bs) == Some((tag, |EncodeVarint(tag)|))
            && bs[|EncodeVarint(tag)|..] == rest
  {
    hide ReadTag;
    ReadBack(tag, rest);
  }

  lemma PieceRead<S(!new)>(r: Registry<S>, state: State, s: S, piece: Piece<S>, tail: seq<byte>, budget: nat)
    requires Writable(r, piece)
    ensures var parsed := ParseItem(r, state, s, PieceBytes(piece) + tail, budget);
            if piece.Other? then parsed == ParseItem(r, state, piece.effect(s), tail, budget)
            else
              var n := Step(r, state, s, Kept(piece.record), budget);
              parsed == if n == None then Failed else ParseItem(r, n.value.0, n.value.1, tail, budget)
  {
    hide NextRecord, Step, ReadTag, EncodeVarint, Kept;
    var x := PieceBytes(piece);
    assert (x + tail)[|x|..] == tail;
    match piece
    case Part(record) => RecordBack(r, piece, tail);
    case Other(tag, body, effect) =>
      OtherTag(tag, body + tail);
      assert x + tail == EncodeVarint(tag) + (body + tail);
  }

  lemma {:induction false} ItemRead<S(!new)>(r: Registry<S>, state: State, s: S, pieces: seq<Piece<S>>,
                                             tail: seq<byte>, budget: nat)
    requires forall i :: 0 <= i < |pieces| ==> Writable(r, pieces[i])
    ensures ParseItem(r, state, s, ItemBytes(pieces) + tail, budget)
         == match RunPieces(r, state, s, pieces, budget)
            case None => Failed
            case Some(n) => ParseItem(r, n.0, n.1, tail, budget)
    decreases |pieces|
  {
    hide PieceBytes, ParseItem, Step, Writable, Kept;
    if pieces == [] {
      assert ItemBytes(pieces) + tail == tail;
    } else {
      var x, rest := PieceBytes(pieces[0]), ItemBytes(pieces[1..]);
      assert ItemBytes(pieces) + tail == x + (rest + tail);
      PieceRead(r, state, s, pieces[0], rest + tail, budget);
      match pieces[0]
      case Other(_, _, effect) => ItemRead(r, state, effect(s), pieces[1..], tail, budget);
      case Part(record) =>
        match Step(r, state, s, Kept(record), budget)
        case None =>
        case Some(n) => ItemRead(r, n.0, n.1, pieces[1..], tail, budget);
    }
  }

  /** Reading the bytes of some pieces runs the state machine over its parts, and every other field has its effect. */
  lemma ItemBack<S(!new)>(r: Registry<S>, state: State, s: S, pieces: seq<Piece<S>>, budget: nat)
    requires forall i :: 0 <= i < |pieces| ==> Writable(r, pieces[i])
    ensures ParseItem(r, state, s, ItemBytes(pieces), budget)
         == match RunPieces(r, state, s, pieces, budget)
            case None => Failed
            case Some(n) => Ended(n.1)
  {
    hide RunPieces, Writable;
    ItemRead(r, state, s, pieces, [], budget);
    assert ItemBytes(pieces) + [] == ItemBytes(pieces);
  }

  /** A zero or an end tag ends the item there; what was read stays. */
  lemma ItemStops<S(!new)>(r: Registry<S>, state: State, s: S, pieces: seq<Piece<S>>, stop: nat, tail: seq<byte>,
                           budget: nat)
    requires forall i :: 0 <= i < |pieces| ==> Writable(r, pieces[i])
    requires stop < TWO32 && (stop == 0 || stop % 8 == 4)
    ensures ParseItem(r, state, s, ItemBytes(pieces) + (EncodeVarint(stop) + tail), budget)
         == match RunPieces(r, state, s, pieces, budget)
            case None => Failed
            case Some(n) => Stopped(stop, n.1)
  {
    hide RunPieces, Writable, ReadTag, EncodeVarint, NextRecord;
    ItemRead(r, state, s, pieces, EncodeVarint(stop) + tail, budget);
    OtherTag(stop, tail);
  }

  class ExtensionSet<S> {
    const r: Registry<S>
    var contents: S

    constructor (r: Registry<S>, contents: S)
      ensures this.r == r && this.contents == contents
    {
      this.r, this.contents := r, contents;
    }

    method ParseMessageSetItem(bs: seq<byte>, budget: nat) returns (ok: bool, stopTag: Option<nat>)
      modifies this
      ensures match ParseItem(r, NoTag, old(contents), bs, budget)
              case Failed => !ok
              case Ended(s) => ok && stopTag == None && contents == s
              case Stopped(tag, s) => ok && stopTag == Some(tag) && contents == s
    {
      hide NextRecord, ReadTag;
      var state, p := NoTag, 0;
      ok, stopTag := true, None;
      assert bs[0..] == bs;
      while p < |bs|
        invariant p <= |bs| && ok && stopTag == None
        invariant ParseItem(r, NoTag, old(contents), bs, budget) == ParseItem(r, state, contents, bs[p..], budget)
      {
        var rest := bs[p..];
        var used;
        if rest[0] == TYPE_ID_TAG || rest[0] == MESSAGE_TAG {
          match NextRecord(rest) {
            case None => return false, None;
            case Some(n) =>
              ok, state := Take(state, n.0, budget);
              if !ok {
                return;
              }
              used := n.1;
          }
        } else {
          match ReadTag(rest) {
            case None => return false, None;
            case Some(t) =>
              if t.0 == 0 || t.0 % 8 == END_GROUP {
                return true, Some(t.0);
              }
              match r.parseField(t.0, rest[t.1..], contents) {
                case None => return false, None;
                case Some(f) =>
                  if |rest| < t.1 + f.1 {
                    return false, None;
                  }
                  contents, used := f.0, t.1 + f.1;
              }
          }
        }
        assert rest[used..] == bs[p + used..];
        p := p + used;
      }
    }

    /** A type id or a payload, in whatever state the item is. */
    method Take(state: State, record: Record, budget: nat) returns (ok: bool, next: State)
      modifies this
      ensures Step(r, state, old(contents), record, budget) == if ok then Some((next, contents)) else None
    {
      ok, next := true, state;
      if record.TypeId? {
        if state == NoTag {
          next := HasType(record.id);
        } else if state.HasPayload? {
          match r.StoreLate(record.id, state.payload, budget, contents) {
            case None => ok := false;
            case Some(s) => contents, next := s, Done;
          }
        }
      } else {
        if state.HasType? {
          match r.StoreField(state.id, record.payload, budget, contents) {
            case None => ok := false;
            case Some(s) => contents, next := s, Done;
          }
        } else if state == NoTag {
          next := HasPayload(record.payload);
        }
      }
    }
  }
}
