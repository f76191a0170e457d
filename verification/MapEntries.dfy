/** Reading one entry of a map field (map_entry_lite.h): the generic entry parser, and the parser that
    puts the value straight into the map when it can. */
module MapEntries {
  import opened Wire
  import opened Wrappers

  /** KeyTypeHandler, ValueTypeHandler and the validation of the derived class. A value is read on top of
      what is there already, as a message is; `skip` passes over a field that is neither key nor value. */
  datatype Handlers<!K, !V> = Handlers(
    keyWire: nat,
    valueWire: nat,
    readKey: seq<byte> -> Option<(K, nat)>,
    validKey: K -> bool,
    readValue: (seq<byte>, V) -> Option<(V, nat)>,
    validValue: V -> bool,
    skip: (nat, seq<byte>) -> Option<nat>,
    defaultKey: K,
    defaultValue: V)
  {
    predicate Ok() {
      keyWire < 8 && valueWire < 8
    }

    function KeyTag(): nat {
      MakeTag(1, keyWire)
    }

    function ValueTag(): nat {
      MakeTag(2, valueWire)
    }
  }

  /** How a parse comes to an end: at its limit, at a tag that belongs to someone else, or by failing. */
  datatype Outcome = Ended | Stopped(tag: nat, at: nat) | Failed

  datatype Entry<K, V> = Entry(key: K, value: V, hasKey: bool, hasValue: bool)

  /** The entry that bs[p..] gives, read on top of e. The bytes behind `limit` belong to others; a reader may
      run into them, and that is noticed only when it is done. */
  function ParseEntry<K, V>(h: Handlers<K, V>, bs: seq<byte>, p: nat, limit: nat, e: Entry<K, V>)
    : (r: (Outcome, Entry<K, V>))
    requires limit <= |bs|
    decreases limit - p
  {
    if p >= limit then (if p == limit then Ended else Failed, e)
    else
      match ReadTag(bs[p..])
      case None => (Failed, e)
      case Some(t) =>
        var q := p + t.1;
        if t.0 == h.KeyTag() then
          match h.readKey(bs[q..])
          case None => (Failed, e)
          case Some(k) =>
            if !h.validKey(k.0) then (Failed, e)
            else ParseEntry(h, bs, q + k.1, limit, e.(key := k.0, hasKey := true))
        else if t.0 == h.ValueTag() then
          match h.readValue(bs[q..], e.value)
          case None => (Failed, e)
          case Some(v) =>
            if !h.validValue(v.0) then (Failed, e)
            else ParseEntry(h, bs, q + v.1, limit, e.(value := v.0, hasValue := true))
        else if t.0 == 0 || t.0 % 8 == END_GROUP then (Stopped(t.0, q), e)
        else
          match h.skip(t.0, bs[q..])
          case None => (Failed, e)
          case Some(n) => ParseEntry(h, bs, q + n, limit, e)
  }

  /** Both tags are single bytes, so a look at the next byte tells what ReadTag would. */
  lemma OneByteTag(bs: seq<byte>, p: nat)
    requires p < |bs| && bs[p] < 128
    ensures ReadTag(bs[p..]) == Some((bs[p], 1)) && bs[p..][1..] == bs[p + 1..]
  {
  }

  lemma KeyNext<K, V>(h: Handlers<K, V>, bs: seq<byte>, p: nat, limit: nat, e: Entry<K, V>)
    requires h.Ok() && p < limit <= |bs| && bs[p] == h.KeyTag()
    ensures ParseEntry(h, bs, p, limit, e)
         == match h.readKey(bs[p + 1..])
            case None => (Failed, e)
            case Some(k) =>
              if !h.validKey(k.0) then (Failed, e)
              else ParseEntry(h, bs, p + 1 + k.1, limit, e.(key := k.0, hasKey := true))
  {
    hide ReadTag;
    OneByteTag(bs, p);
  }

  lemma ValueNext<K, V>(h: Handlers<K, V>, bs: seq<byte>, p: nat, limit: nat, e: Entry<K, V>)
    requires h.Ok() && p < limit <= |bs| && bs[p] == h.ValueTag()
    ensures ParseEntry(h, bs, p, limit, e)
         == match h.readValue(bs[p + 1..], e.value)
            case None => (Failed, e)
            case Some(v) =>
              if !h.validValue(v.0) then (Failed, e)
              else ParseEntry(h, bs, p + 1 + v.1, limit, e.(value := v.0, hasValue := true))
  {
    hide ReadTag;
    OneByteTag(bs, p);
  }

  lemma AtTheEnd<K, V>(h: Handlers<K, V>, bs: seq<byte>, p: nat, limit: nat, e: Entry<K, V>)
    requires limit <= |bs| && limit <= p
    ensures ParseEntry(h, bs, p, limit, e) == (if p == limit then Ended else Failed, e)
  {
  }

  /** A record of an entry, with what its reader makes of it: a key, a value that is read on top of another, or a
      field that is neither. */
  datatype Record<K, V> =
    | KeyRecord(body: seq<byte>, key: K)
    | ValueRecord(body: seq<byte>, before: V, after: V)
    | OtherRecord(tag: nat, body: seq<byte>)

  function TagOf<K, V>(h: Handlers<K, V>, r: Record<K, V>): nat {
    match r
    case KeyRecord(_, _) => 8 + h.keyWire
    case ValueRecord(_, _, _) => 16 + h.valueWire
    case OtherRecord(tag, _) => tag
  }

  /** The handlers read the record back, whatever comes after it. */
  ghost predicate ReadsBack<K, V>(h: Handlers<K, V>, r: Record<K, V>) {
    match r
    case KeyRecord(x, k) =>
      h.validKey(k) && forall rest: seq<byte> :: h.readKey(x + rest) == Some((k, |x|))
    case ValueRecord(x, v, w) =>
      h.validValue(w) && forall rest: seq<byte> :: h.readValue(x + rest, v) == Some((w, |x|))
    case OtherRecord(tag, x) =>
      && 0 < tag < 0x1_0000_0000 && tag % 8 != 4 && tag != 8 + h.keyWire && tag != 16 + h.valueWire
      && forall rest: seq<byte> :: h.skip(tag, x + rest) == Some(|x|)
  }

  function BytesOf<K, V>(h: Handlers<K, V>, records: seq<Record<K, V>>): seq<byte> {
    if records == [] then []
    else EncodeVarint(TagOf(h, records[0])) + records[0].body + BytesOf(h, records[1..])
  }

  /** The key of the last key record, or k if there is none. */
  function LastKey<K, V>(records: seq<Record<K, V>>, k: K): K {
    if records == [] then k
    else LastKey(records[1..], if records[0].KeyRecord? then records[0].key else k)
  }

  /** Each value is read on top of the one before; the first, on top of v. */
  ghost predicate InTurn<K, V>(records: seq<Record<K, V>>, v: V) {
    records != [] ==>
      var r := records[0];
      (r.ValueRecord? ==> r.before == v) && InTurn(records[1..], if r.ValueRecord? then r.after else v)
  }

  function LastValue<K, V>(records: seq<Record<K, V>>, v: V): V {
    if records == [] then v
    else LastValue(records[1..], if records[0].ValueRecord? then records[0].after else v)
  }

  function AfterRecord<K, V>(e: Entry<K, V>, r: Record<K, V>): Entry<K, V> {
    match r
    case KeyRecord(_, k) => e.(key := k, hasKey := true)
    case ValueRecord(_, _, v) => e.(value := v, hasValue := true)
    case OtherRecord(_, _) => e
  }

  /** What any records make of an entry. */
  ghost function AfterAll<K, V>(e: Entry<K, V>, records: seq<Record<K, V>>): Entry<K, V> {
    Entry(LastKey(records, e.key), LastValue(records, e.value),
          e.hasKey || exists i :: 0 <= i < |records| && records[i].KeyRecord?,
          e.hasValue || exists i :: 0 <= i < |records| && records[i].ValueRecord?)
  }

  lemma AfterFirst<K, V>(e: Entry<K, V>, records: seq<Record<K, V>>)
    requires records != []
    ensures AfterAll(e, records) == AfterAll(AfterRecord(e, records[0]), records[1..])
  {
    var rest := records[1..];
    assert records == [records[0]] + rest;
    assert forall i :: 0 <= i < |rest| ==> rest[i] == records[i + 1];
    forall i | 0 < i < |records|
      ensures records[i] == rest[i - 1]
    {
    }
  }

  /** One record takes the parse on, past its tag and its body. */
  lemma RecordRead<K, V>(h: Handlers<K, V>, front: seq<byte>, r: Record<K, V>, tail: seq<byte>, limit: nat,
                         e: Entry<K, V>)
    requires h.Ok() && ReadsBack(h, r) && (r.ValueRecord? ==> r.before == e.value)
    requires |front| < limit <= |front| + |EncodeVarint(TagOf(h, r))| + |r.body| + |tail|
    ensures var bs := front + (EncodeVarint(TagOf(h, r)) + r.body + tail);
            var p := |front| + |EncodeVarint(TagOf(h, r))| + |r.body|;
            ParseEntry(h, bs, |front|, limit, e) == ParseEntry(h, bs, p, limit, AfterRecord(e, r))
  {
    hide EncodeVarint, ReadTag;
    var tag := EncodeVarint(TagOf(h, r));
    var bs := front + (tag + r.body + tail);
    ReadBack(TagOf(h, r), r.body + tail);
    assert bs[|front|..] == tag + (r.body + tail);
    assert bs[|front| + |tag|..] == r.body + tail;
  }

  lemma {:induction false} RecordsRead<K, V>(h: Handlers<K, V>, front: seq<byte>, records: seq<Record<K, V>>,
                                             tail: seq<byte>, limit: nat, e: Entry<K, V>)
    requires h.Ok() && (forall i :: 0 <= i < |records| ==> ReadsBack(h, records[i])) && InTurn(records, e.value)
    requires |front| + |BytesOf(h, records)| <= limit <= |front| + |BytesOf(h, records)| + |tail|
    ensures var bs := front + (BytesOf(h, records) + tail);
            ParseEntry(h, bs, |front|, limit, e)
            == ParseEntry(h, bs, |front| + |BytesOf(h, records)|, limit, AfterAll(e, records))
    decreases |records|
  {
    hide EncodeVarint, ParseEntry, ReadsBack;
    if records == [] {
      assert AfterAll(e, records) == e;
    } else {
      AfterFirst(e, records);
      var r := records[0];
      var x, y := EncodeVarint(TagOf(h, r)) + r.body, BytesOf(h, records[1..]);
      RecordRead(h, front, r, y + tail, limit, e);
      assert front + (x + y + tail) == front + (x + (y + tail)) == (front + x) + (y + tail);
      RecordsRead(h, front + x, records[1..], tail, limit, AfterRecord(e, r));
    }
  }

  /** The bytes of any records give the last key, and the value read through all value records in turn. Fields that
      are neither change nothing. */
  lemma EntryBack<K, V>(h: Handlers<K, V>, records: seq<Record<K, V>>, tail: seq<byte>, e: Entry<K, V>)
    requires h.Ok() && (forall i :: 0 <= i < |records| ==> ReadsBack(h, records[i])) && InTurn(records, e.value)
    ensures var bs := BytesOf(h, records);
            ParseEntry(h, bs + tail, 0, |bs|, e)
            == (Ended, AfterAll(e, records))
  {
    hide ParseEntry, ReadsBack;
    var bs := BytesOf(h, records);
    RecordsRead(h, [], records, tail, |bs|, e);
    assert [] + (bs + tail) == bs + tail;
    AtTheEnd(h, bs + tail, |bs|, |bs|, AfterAll(e, records));
  }

  lemma StopNext<K, V>(h: Handlers<K, V>, bs: seq<byte>, p: nat, limit: nat, e: Entry<K, V>)
    requires h.Ok() && h.keyWire != 4 && h.valueWire != 4 && p < limit <= |bs| && ReadTag(bs[p..]).Some?
    requires var tag := ReadTag(bs[p..]).value.0; tag == 0 || tag % 8 == 4
    ensures var t := ReadTag(bs[p..]).value; ParseEntry(h, bs, p, limit, e) == (Stopped(t.0, p + t.1), e)
  {
    hide ReadTag;
  }

  /** A zero or an end tag behind them stops the parse there, with that tag. */
  lemma EntryStops<K, V>(h: Handlers<K, V>, records: seq<Record<K, V>>, stop: nat, tail: seq<byte>, limit: nat,
                         e: Entry<K, V>)
    requires h.Ok() && (forall i :: 0 <= i < |records| ==> ReadsBack(h, records[i])) && InTurn(records, e.value)
    requires stop < 0x1_0000_0000 && (stop == 0 || stop % 8 == 4) && h.keyWire != 4 && h.valueWire != 4
    requires var n := |BytesOf(h, records)|; n < limit <= n + |EncodeVarint(stop)| + |tail|
    ensures var bs := BytesOf(h, records);
            ParseEntry(h, bs + (EncodeVarint(stop) + tail), 0, limit, e)
            == (Stopped(stop, |bs| + |EncodeVarint(stop)|), AfterAll(e, records))
  {
    hide ParseEntry, ReadsBack, EncodeVarint, ReadTag, BytesOf;
    var bs, rest := BytesOf(h, records), EncodeVarint(stop) + tail;
    RecordsRead(h, [], records, rest, limit, e);
    assert [] + (bs + rest) == bs + rest;
    assert (bs + rest)[|bs|..] == rest;
    ReadBack(stop, tail);
    StopNext(h, bs + rest, |bs|, limit, AfterAll(e, records));
  }

  class MapEntry<K, V> {
    const h: Handlers<K, V>
    var key: K
    var value: V
    var hasKey: bool
    var hasValue: bool

    constructor (h: Handlers<K, V>)
      ensures this.h == h && key == h.defaultKey && value == h.defaultValue && !hasKey && !hasValue
    {
      this.h := h;
      key, value, hasKey, hasValue := h.defaultKey, h.defaultValue, false, false;
    }

    method InternalParse(bs: seq<byte>, from: nat, limit: nat) returns (outcome: Outcome)
      requires limit <= |bs|
      modifies this
      ensures var r := ParseEntry(h, bs, from, limit, Entry(old(key), old(value), old(hasKey), old(hasValue)));
              outcome == r.0 && (outcome != Failed ==> Entry(key, value, hasKey, hasValue) == r.1)
    {
      hide ReadTag;
      var p := from;
      while p < limit
        invariant ParseEntry(h, bs, from, limit, Entry(old(key), old(value), old(hasKey), old(hasValue)))
               == ParseEntry(h, bs, p, limit, Entry(key, value, hasKey, hasValue))
        decreases limit - p
      {
        match ReadTag(bs[p..]) {
          case None => return Failed;
          case Some(t) =>
            p := p + t.1;
            if t.0 == h.KeyTag() {
              hasKey := true;
              match h.readKey(bs[p..]) {
                case None => return Failed;
                case Some(k) =>
                  if !h.validKey(k.0) {
                    return Failed;
                  }
                  key, p := k.0, p + k.1;
              }
            } else if t.0 == h.ValueTag() {
              hasValue := true;
              match h.readValue(bs[p..], value) {
                case None => return Failed;
                case Some(v) =>
                  if !h.validValue(v.0) {
                    return Failed;
                  }
                  value, p := v.0, p + v.1;
              }
            } else if t.0 == 0 || t.0 % 8 == END_GROUP {
              return Stopped(t.0, p);
            } else {
              match h.skip(t.0, bs[p..]) {
                case None => return Failed;
                case Some(n) => p := p + n;
              }
            }
        }
      }
      outcome := if p == limit then Ended else Failed;
    }
  }

  /** The key and value the fast path reads from the front of bs, if it gets that far: key tag and key, value
      tag and value, the key not in the map. The third component is where the value ends. */
  function FastPath<K(==), V>(h: Handlers<K, V>, bs: seq<byte>, limit: nat, m: map<K, V>): (r: Option<(K, V, nat)>)
    requires limit <= |bs|
  {
    if !(0 < limit && bs[0] == h.KeyTag()) then None
    else
      match h.readKey(bs[1..])
      case None => None
      case Some(k) =>
        var p := 1 + k.1;
        if !h.validKey(k.0) || p >= limit || bs[p] != h.ValueTag() || k.0 in m then None
        else
          match h.readValue(bs[p + 1..], h.defaultValue)
          case None => None
          case Some(v) => if h.validValue(v.0) then Some((k.0, v.0, p + 1 + v.1)) else None
  }

  /** The fast path takes an entry that begins with a key and a value, both good, whose key is new. */
  lemma FastPathExactly<K, V>(h: Handlers<K, V>, bs: seq<byte>, limit: nat, m: map<K, V>, k: K, v: V, end: nat)
    requires limit <= |bs|
    ensures FastPath(h, bs, limit, m) == Some((k, v, end)) <==>
              && 0 < limit && bs[0] == 8 + h.keyWire && h.readKey(bs[1..]).Some? && h.validKey(k) && k !in m
              && var a := 1 + h.readKey(bs[1..]).value.1;
                 && h.readKey(bs[1..]).value.0 == k && a < limit && bs[a] == 16 + h.valueWire
                 && h.readValue(bs[a + 1..], h.defaultValue).Some?
                 && var w := h.readValue(bs[a + 1..], h.defaultValue).value;
                    w.0 == v && end == a + 1 + w.1 && h.validValue(v)
  {
  }

  /** An int32-like key of one byte and a four-byte value. */
  function SmallHandlers(): Handlers<nat, nat> {
    Handlers(VARINT, FIXED32, bs => if bs == [] then None else Some((bs[0], 1)), k => true,
             (bs, v) => if |bs| < 4 then None else Some((DecodeFixed(bs[..4]), 4)), v => true,
             (tag, bs) => None, 0, 0)
  }

  const CUT_ENTRY: seq<byte> := [8, 1, 21, 0, 0, 0, 0]

  /** The failure that leaves an entry behind does occur: here the limit cuts the value in two. */
  lemma OverrunOccurs()
    ensures FastPath(SmallHandlers(), CUT_ENTRY, 5, map[]) == Some((1, 0, 7))
    ensures ParseEntry(SmallHandlers(), CUT_ENTRY, 0, 5, Entry(0, 0, false, false)).0 == Failed
  {
    hide ParseEntry, ReadTag, DecodeFixed;
    var h, bs := SmallHandlers(), CUT_ENTRY;
    assert DecodeFixed([0, 0, 0, 0]) == 0 by {
      FixedRoundTrip(0, 4);
      assert EncodeFixed(0, 4) == [0, 0, 0, 0];
    }
    assert bs[1..][0] == 1 && bs[3..][..4] == [0, 0, 0, 0];
    KeyNext(h, bs, 0, 5, Entry(0, 0, false, false));
    ValueNext(h, bs, 2, 5, Entry(1, 0, true, false));
    AtTheEnd(h, bs, 7, 5, Entry(1, 0, true, true));
  }

  /** Parser: `items` is the map it fills. */
  class Parser<K(==), V> {
    const h: Handlers<K, V>
    var items: map<K, V>
    var key: K

    constructor (h: Handlers<K, V>, items: map<K, V>)
      requires h.Ok()
      ensures this.h == h && this.items == items
    {
      this.h := h;
      this.items, key := items, h.defaultKey;
    }

    /** Whatever the bytes, the outcome is the generic parser's. If it is not a failure the map gains exactly
        the generic parser's key and value. A failure leaves the map alone, unless the fast path had read a
        good value for a new key and then found that it had run past the limit: that entry stays. */
    method InternalParse(bs: seq<byte>, limit: nat) returns (outcome: Outcome)
      requires h.Ok() && limit <= |bs|
      modifies this
      ensures var r := ParseEntry(h, bs, 0, limit, Entry(h.defaultKey, h.defaultValue, false, false));
              && outcome == r.0
              && (outcome != Failed ==> items == old(items)[r.1.key := r.1.value] && key == r.1.key)
      ensures var f := FastPath(h, bs, limit, old(items));
              outcome == Failed ==>
                items == if f.Some? && f.value.2 > limit then old(items)[f.value.0 := f.value.1] else old(items)
    {
      hide ParseEntry, Handlers.KeyTag, Handlers.ValueTag;
      var entry := new MapEntry(h);
      var p := 0;
      if 0 < limit && bs[0] == h.KeyTag() {
        KeyNext(h, bs, 0, limit, Entry(h.defaultKey, h.defaultValue, false, false));
        match h.readKey(bs[1..]) {
          case None => return Failed;
          case Some(k) =>
            if !h.validKey(k.0) {
              return Failed;
            }
            key, p := k.0, 1 + k.1;
        }
        if p < limit && bs[p] == h.ValueTag() && key !in items {
          outcome := ParseNewKey(bs, p, limit, entry);
          return;
        } else if p > limit {
          AtTheEnd(h, bs, p, limit, Entry(key, h.defaultValue, true, false));
          return Failed;
        }
        entry.key, entry.hasKey := key, true;
      }
      outcome := ParseTheRest(bs, p, limit, entry);
    }

    /** The key is new and its value follows. */
    method ParseNewKey(bs: seq<byte>, from: nat, limit: nat, entry: MapEntry<K, V>) returns (outcome: Outcome)
      requires h.Ok() && from < limit <= |bs| && bs[from] == h.ValueTag() && key !in items
      requires entry.h == h && entry.key == h.defaultKey && entry.value == h.defaultValue
      requires !entry.hasKey && !entry.hasValue
      modifies this, entry
      ensures var r := ParseEntry(h, bs, from, limit, Entry(old(key), h.defaultValue, true, false));
              && outcome == r.0
              && (outcome != Failed ==> items == old(items)[r.1.key := r.1.value] && key == r.1.key)
      ensures outcome == Failed ==>
                var v := h.readValue(bs[from + 1..], h.defaultValue);
                items == if v.Some? && h.validValue(v.value.0) && from + 1 + v.value.1 > limit
                         then old(items)[old(key) := v.value.0] else old(items)
    {
      hide ParseEntry, Handlers.KeyTag, Handlers.ValueTag;
      ValueNext(h, bs, from, limit, Entry(key, h.defaultValue, true, false));
      var ok, p := ReadInPlace(bs, from + 1);
      if !ok {
        return Failed;
      }
      if p >= limit {
        AtTheEnd(h, bs, p, limit, Entry(key, items[key], true, true));
        return if p == limit then Ended else Failed;
      }
      entry.value, entry.hasValue := items[key], true;
      items := items - {key};
      entry.key, entry.hasKey := key, true;
      assert items == old(items);
      outcome := ParseTheRest(bs, p, limit, entry);
    }

    /** The generic parser takes over. */
    method ParseTheRest(bs: seq<byte>, from: nat, limit: nat, entry: MapEntry<K, V>) returns (outcome: Outcome)
      requires limit <= |bs| && entry.h == h
      modifies this, entry
      ensures var r := ParseEntry(h, bs, from, limit,
                                  old(Entry(entry.key, entry.value, entry.hasKey, entry.hasValue)));
              && outcome == r.0
              && if outcome == Failed then items == old(items)
                 else items == old(items)[r.1.key := r.1.value] && key == r.1.key
    {
      hide ParseEntry;
      outcome := entry.InternalParse(bs, from, limit);
      if outcome != Failed {
        UseKeyAndValueFromEntry(entry);
      }
    }

    /** Inserts the key and reads its value where it is; a bad value undoes the insertion. */
    method ReadInPlace(bs: seq<byte>, from: nat) returns (ok: bool, p: nat)
      requires from <= |bs| && key !in items
      modifies `items
      ensures match h.readValue(bs[from..], h.defaultValue)
              case None => !ok && items == old(items)
              case Some(v) =>
                if h.validValue(v.0) then ok && p == from + v.1 && items == old(items)[key := v.0]
                else !ok && items == old(items)
    {
      ok, p := false, from;
      items := items[key := h.defaultValue];
      match h.readValue(bs[from..], items[key]) {
        case None =>
        case Some(v) =>
          items := items[key := v.0];
          ok, p := h.validValue(v.0), from + v.1;
      }
      if !ok {
        items := items - {key};
      }
    }

    method UseKeyAndValueFromEntry(entry: MapEntry<K, V>)
      modifies `key, `items
      ensures key == entry.key && items == old(items)[entry.key := entry.value]
    {
      key := entry.key;
      items := items[key := entry.value];
    }
  }
}
