/** Snapshots of the whole store (include/Database/Serializer/Strategies/BinarySerializer.h,
    include/Database/Serializer/SerializationHelper.h, src/ValueFactory.cpp and the
    serialize/deserialize pairs of the seven value types): the value-level specification.

    Hash maps and sets are written in whatever order they iterate in.  A `Wire` value is
    a value with that order chosen.
 */
module Snapshots {
  import opened Bytes
  import opened StreamIds
  import opened Streams
  import opened Codec
  import opened Values

  datatype WireMessage = WireMessage(id: StreamId, fields: seq<(Str, Str)>)

  datatype Wire =
    | WireString(text: Str)
    | WireHash(pairs: seq<(Str, Str)>)
    | WireList(items: seq<Str>)
    | WireSet(members: seq<Str>)
    | WireSortedSet(sorted: seq<Str>)
    | WireHyperLogLog(b: nat, m: nat, registers: seq<nat>)
    | WireStream(messages: seq<WireMessage>)

  // -------------------------------------------------------------- writing

  const STRING_TAG: Str := [115, 116, 114, 105, 110, 103]
  const HASH_TAG: Str := [104, 97, 115, 104]
  const LIST_TAG: Str := [108, 105, 115, 116]
  const SET_TAG: Str := [115, 101, 116]
  const SORTED_SET_TAG: Str := [115, 111, 114, 116, 101, 100, 95, 115, 101, 116]
  const HYPER_LOG_LOG_TAG: Str := [104, 121, 112, 101, 114, 108, 111, 103, 108, 111, 103]
  const STREAM_TAG: Str := [115, 116, 114, 101, 97, 109]

  function Tag(w: Wire): Str {
    match w
    case WireString(_) => STRING_TAG
    case WireHash(_) => HASH_TAG
    case WireList(_) => LIST_TAG
    case WireSet(_) => SET_TAG
    case WireSortedSet(_) => SORTED_SET_TAG
    case WireHyperLogLog(_, _, _) => HYPER_LOG_LOG_TAG
    case WireStream(_) => STREAM_TAG
  }

  function EncSizes(ns: seq<nat>): seq<byte> {
    if ns == [] then [] else EncSize(ns[0]) + EncSizes(ns[1..])
  }

  function EncMessage(m: WireMessage): seq<byte> {
    EncString(ToString(m.id)) + EncMap(m.fields)
  }

  function EncMessages(ms: seq<WireMessage>): seq<byte> {
    if ms == [] then [] else EncMessage(ms[0]) + EncMessages(ms[1..])
  }

  /** `value->serialize()`. */
  function Payload(w: Wire): seq<byte> {
    match w
    case WireString(s) => EncString(s)
    case WireHash(ps) => EncMap(ps)
    case WireList(ss) => EncVector(ss)
    case WireSet(ss) => EncVector(ss)
    case WireSortedSet(ss) => EncVector(ss)
    case WireHyperLogLog(b, m, regs) => EncSize(b) + (EncSize(m) + EncSizes(regs))
    case WireStream(ms) => EncSize(|ms|) + EncMessages(ms)
  }

  function EncTagged(w: Wire): seq<byte> {
    EncString(Tag(w)) + EncString(Payload(w))
  }

  function EncRecord(r: (Key, Wire)): seq<byte> {
    EncString(r.0) + EncTagged(r.1)
  }

  function EncRecords(rs: seq<(Key, Wire)>): seq<byte> {
    if rs == [] then [] else EncRecord(rs[0]) + EncRecords(rs[1..])
  }

  function EncStore(rs: seq<(Key, Wire)>): seq<byte> {
    EncSize(|rs|) + EncRecords(rs)
  }

  /** `w` is `v` with an order chosen for what has none. */
  ghost predicate Represents(w: Wire, v: Value) {
    match v
    case StringValue(s) => w == WireString(s)
    case HashValue(h) => w.WireHash? && EnumeratesMap(w.pairs, h)
    case ListValue(l) => w == WireList(l)
    case SetValue(s) => w.WireSet? && Enumerates(w.members, s)
    case SortedSetValue(s) => w.WireSortedSet? && Enumerates(w.sorted, s)
    case HyperLogLogValue(b, m, regs) => w == WireHyperLogLog(b, m, regs)
    case StreamValue(ms, _) => w.WireStream? && ListsMessages(w.messages, ms)
  }

  ghost predicate ListsMessages(ws: seq<WireMessage>, ms: seq<StreamMessage>) {
    |ws| == |ms| && forall i :: 0 <= i < |ms| ==> ws[i].id == ms[i].id && EnumeratesMap(ws[i].fields, ms[i].fields)
  }

  /** The tags are the names of the types: "string", "hash", "list", "set", "sorted_set",
      "hyperloglog" and "stream". */
  lemma TagsAreNames(w: Wire)
    ensures w.WireString? ==> Tag(w) == [115, 116, 114, 105, 110, 103]
    ensures w.WireHash? ==> Tag(w) == [104, 97, 115, 104]
    ensures w.WireList? ==> Tag(w) == [108, 105, 115, 116]
    ensures w.WireSet? ==> Tag(w) == [115, 101, 116]
    ensures w.WireSortedSet? ==> Tag(w) == [115, 111, 114, 116, 101, 100, 95, 115, 101, 116]
    ensures w.WireHyperLogLog? ==> Tag(w) == [104, 121, 112, 101, 114, 108, 111, 103, 108, 111, 103]
    ensures w.WireStream? ==> Tag(w) == [115, 116, 114, 101, 97, 109]
  {
  }

  /** What the bytes of a value are: a string; the entries, elements or members; b, m and the
      registers, each as a size; or the number of messages and for each the text of its id
      and its fields. */
  lemma PayloadBytes(w: Wire, n: nat, ns: seq<nat>, m: WireMessage, ms: seq<WireMessage>)
    ensures w.WireString? ==> Payload(w) == EncString(w.text)
    ensures w.WireHash? ==> Payload(w) == EncMap(w.pairs)
    ensures w.WireList? ==> Payload(w) == EncVector(w.items)
    ensures w.WireSet? ==> Payload(w) == EncVector(w.members)
    ensures w.WireSortedSet? ==> Payload(w) == EncVector(w.sorted)
    ensures w.WireHyperLogLog? ==> Payload(w) == EncSize(w.b) + EncSize(w.m) + EncSizes(w.registers)
    ensures w.WireStream? ==> Payload(w) == EncSize(|w.messages|) + EncMessages(w.messages)
    ensures EncSizes([]) == [] && EncSizes([n] + ns) == EncSize(n) + EncSizes(ns)
    ensures EncMessages([]) == []
    ensures EncMessages([m] + ms) == EncString(ToString(m.id)) + EncMap(m.fields) + EncMessages(ms)
  {
    hide EncSize, EncString, EncMap, EncVector;
    assert ([n] + ns)[1..] == ns && ([m] + ms)[1..] == ms;
  }

  /** A snapshot is the number of records and then, for each, its id, the tag of its value and
      the bytes of its value, as three strings. */
  lemma StoreBytes(id: Key, w: Wire, rs: seq<(Key, Wire)>)
    ensures EncStore(rs) == EncSize(|rs|) + EncRecords(rs)
    ensures EncRecords([]) == []
    ensures EncRecords([(id, w)] + rs)
         == EncString(id) + EncString(Tag(w)) + EncString(Payload(w)) + EncRecords(rs)
  {
    hide EncSize, EncString, Payload, Tag;
    assert ([(id, w)] + rs)[1..] == rs;
    assert EncString(id) + (EncString(Tag(w)) + EncString(Payload(w)))
        == EncString(id) + EncString(Tag(w)) + EncString(Payload(w));
  }

  // -------------------------------------------------------------- reading

  function ReadSizes(b: seq<byte>, o: nat, n: nat, acc: seq<nat>): Read<seq<nat>>
    decreases n
  {
    if n == 0 then Codec.Got(acc, o)
    else match ReadSize(b, o)
         case Fail => Fail
         case Got(r, p) => ReadSizes(b, p, n - 1, acc + [r % 256])
  }

  /** One message; a bad id throws, like a failed read. */
  function ReadMessage(b: seq<byte>, o: nat): Read<StreamMessage> {
    match ReadString(b, o)
    case Fail => Fail
    case Got(text, p) =>
      match Parse(text)
      case Malformed => Fail
      case OutOfRange => Fail
      case Good(id) =>
        match ReadMap(b, p, map[])
        case Fail => Fail
        case Got(fields, q) => Codec.Got(StreamMessage(id, fields), q)
  }

  function ReadMessages(b: seq<byte>, o: nat, n: nat, acc: seq<StreamMessage>): Read<seq<StreamMessage>>
    decreases n
  {
    if n == 0 then Codec.Got(acc, o)
    else match ReadMessage(b, o)
         case Fail => Fail
         case Got(m, p) => ReadMessages(b, p, n - 1, Put(acc, m))
  }

  function SetOf(ss: seq<Str>): set<Str> {
    set s | s in ss
  }

  function ReadRegisters(data: seq<byte>): Read<Value> {
    match ReadSize(data, 0)
    case Fail => Fail
    case Got(b, p) =>
      match ReadSize(data, p)
      case Fail => Fail
      case Got(m, q) =>
        match ReadSizes(data, q, m % 0x1_0000_0000, [])
        case Fail => Fail
        case Got(regs, r) => Codec.Got(HyperLogLogValue(b % 256, m % 0x1_0000_0000, regs), r)
  }

  function ReadStream(data: seq<byte>): Read<Value> {
    match ReadSize(data, 0)
    case Fail => Fail
    case Got(n, p) =>
      match ReadMessages(data, p, n, [])
      case Fail => Fail
      case Got(ms, q) => Codec.Got(StreamValue(ms, map[]), q)
  }

  /** `ValueFactory::createValue`; `Fail` where it throws.  What follows the value in
      `data` is ignored. */
  function CreateValue(tag: Str, data: seq<byte>): Read<Value> {
    if tag == STRING_TAG then
      match ReadString(data, 0) case Fail => Fail case Got(s, o) => Codec.Got(StringValue(s), o)
    else if tag == HASH_TAG then
      match ReadMap(data, 0, map[]) case Fail => Fail case Got(h, o) => Codec.Got(HashValue(h), o)
    else if tag == LIST_TAG then
      match ReadVector(data, 0, []) case Fail => Fail case Got(l, o) => Codec.Got(ListValue(l), o)
    else if tag == SET_TAG then
      match ReadVector(data, 0, []) case Fail => Fail case Got(l, o) => Codec.Got(SetValue(SetOf(l)), o)
    else if tag == SORTED_SET_TAG then
      match ReadVector(data, 0, []) case Fail => Fail case Got(l, o) => Codec.Got(SortedSetValue(SetOf(l)), o)
    else if tag == HYPER_LOG_LOG_TAG then ReadRegisters(data)
    else if tag == STREAM_TAG then ReadStream(data)
    else Fail
  }

  /** The tagged-value reader: it may refuse, read past the end of the buffer, since the
      length of the payload is not checked, or let an exception through. */
  datatype Tagged = Refused | PastTheEnd | Threw | Value(value: Values.Value, next: nat)

  function ReadTagged(b: seq<byte>, o: nat): Tagged {
    match ReadString(b, o)
    case Fail => Refused
    case Got(tag, p) =>
      match ReadSize(b, p)
      case Fail => Refused
      case Got(len, q) =>
        if q + len > |b| then PastTheEnd
        else match CreateValue(tag, b[q..q + len])
             case Fail => Threw
             case Got(v, _) => Value(v, q + len)
  }

  datatype Ending = Complete(next: nat) | Stopped | Undefined | Thrown

  /** What the decoding loop hands to the database, in order, and how it ends. */
  datatype Load = Load(records: seq<(Key, Values.Value)>, ending: Ending)

  function ReadRecords(b: seq<byte>, o: nat, n: nat, acc: seq<(Key, Values.Value)>): Load
    decreases n
  {
    if n == 0 then Load(acc, Complete(o))
    else match ReadString(b, o)
         case Fail => Load(acc, Stopped)
         case Got(id, p) =>
           match ReadTagged(b, p)
           case Refused => Load(acc, Stopped)
           case PastTheEnd => Load(acc, Undefined)
           case Threw => Load(acc, Thrown)
           case Value(v, q) => ReadRecords(b, q, n - 1, acc + [(id, v)])
  }

  function ReadStore(b: seq<byte>): Load {
    match ReadSize(b, 0)
    case Fail => Load([], Stopped)
    case Got(n, p) => ReadRecords(b, p, n, [])
  }

  // ----------------------------------------------------------- round trips

  /** What a snapshot keeps of a value: of a stream, the messages only. */
  function Persisted(v: Values.Value): Values.Value {
    if v.StreamValue? then v.(groups := map[]) else v
  }

  ghost predicate FitsMessages(ms: seq<WireMessage>) {
    |ms| < TWO64 && forall m :: m in ms ==> FitsPairs(m.fields)
  }

  /** All lengths are lengths the machine can have, and a payload is one string. */
  ghost predicate Fits(w: Wire) {
    && FitsString(Payload(w))
    && match w
       case WireString(s) => FitsString(s)
       case WireHash(ps) => FitsPairs(ps)
       case WireList(ss) => FitsStrings(ss)
       case WireSet(ss) => FitsStrings(ss)
       case WireSortedSet(ss) => FitsStrings(ss)
       case WireHyperLogLog(b, m, regs) => true
       case WireStream(ms) => FitsMessages(ms)
  }

  /** The fields of the value are in the ranges of their C++ types. */
  ghost predicate InRange(v: Values.Value) {
    match v
    case HyperLogLogValue(b, m, regs) =>
      b < 256 && m < 0x1_0000_0000 && |regs| == m && forall i :: 0 <= i < |regs| ==> regs[i] < 256
    case StreamValue(ms, _) => Sorted(ms)
    case _ => true
  }

  lemma EnumerationIsSet(ss: seq<Str>, s: set<Str>)
    requires Enumerates(ss, s)
    ensures SetOf(ss) == s
  {
  }

  lemma {:induction false} ReadSizesAt(b: seq<byte>, o: nat, ns: seq<nat>, acc: seq<nat>)
    requires At(b, o, EncSizes(ns)) && forall i :: 0 <= i < |ns| ==> ns[i] < TWO64
    ensures ReadSizes(b, o, |ns|, acc) == Codec.Got(acc + LowBytes(ns), o + |EncSizes(ns)|)
    decreases |ns|
  {
    hide EncSize, ReadSize;
    if ns == [] {
      assert acc + [] == acc;
    } else {
      AtSplit(b, o, EncSize(ns[0]), EncSizes(ns[1..]));
      ReadSizeAt(b, o, ns[0]);
      ReadSizesAt(b, o + 8, ns[1..], acc + [ns[0] % 256]);
      assert acc + [ns[0] % 256] + LowBytes(ns[1..]) == acc + LowBytes(ns);
    }
  }

  /** What a register keeps of each size it is restored from. */
  function LowBytes(ns: seq<nat>): seq<nat> {
    seq(|ns|, i requires 0 <= i < |ns| => ns[i] % 256)
  }

  lemma {:induction false} DecimalLength(n: nat, k: nat)
    requires n < Pow10(k) && k > 0
    ensures |ToDecimal(n)| <= k
    decreases k
  {
    if n >= 10 {
      DecimalLength(n / 10, k - 1);
    }
  }

  function Pow10(k: nat): nat {
    if k == 0 then 1 else 10 * Pow10(k - 1)
  }

  lemma IdTextFits(id: StreamId)
    ensures FitsString(ToString(id))
  {
    assert Pow10(10) == 10_000_000_000;
    assert Pow10(20) == 100_000_000_000_000_000_000;
    DecimalLength(id.milliseconds, 20);
    DecimalLength(id.sequenceNumber, 20);
  }

  lemma ReadMessageAt(b: seq<byte>, o: nat, w: WireMessage, m: StreamMessage)
    requires FitsPairs(w.fields) && w.id == m.id && EnumeratesMap(w.fields, m.fields) && At(b, o, EncMessage(w))
    ensures ReadMessage(b, o) == Codec.Got(m, o + |EncMessage(w)|)
  {
    hide EncString, EncMap, ReadString, ReadMap, EnumeratesMap, FitsPairs, Parse;
    var text := EncString(ToString(w.id));
    AtSplit(b, o, text, EncMap(w.fields));
    IdTextFits(w.id);
    ParseToString(w.id);
    ReadStringAt(b, o, ToString(w.id));
    ReadMapAt(b, o + |text|, w.fields, m.fields);
  }

  /** What adding messages one after the other leaves. */
  function PutAll(done: seq<StreamMessage>, ms: seq<StreamMessage>): seq<StreamMessage>
    decreases |ms|
  {
    if ms == [] then done else PutAll(Put(done, ms[0]), ms[1..])
  }

  lemma {:induction false} ReadMessagesAt(b: seq<byte>, o: nat, ws: seq<WireMessage>, ms: seq<StreamMessage>,
                                          done: seq<StreamMessage>)
    requires FitsMessages(ws) && ListsMessages(ws, ms) && At(b, o, EncMessages(ws))
    ensures ReadMessages(b, o, |ws|, done) == Codec.Got(PutAll(done, ms), o + |EncMessages(ws)|)
    decreases |ws|
  {
    hide EncMessage, ReadMessage, Put, At;
    if ws != [] {
      AtSplit(b, o, EncMessage(ws[0]), EncMessages(ws[1..]));
      ReadMessageAt(b, o, ws[0], ms[0]);
      ReadMessagesAt(b, o + |EncMessage(ws[0])|, ws[1..], ms[1..], Put(done, ms[0]));
    }
  }

  /** Messages that come in order are appended. */
  lemma {:induction false} InOrderAppends(done: seq<StreamMessage>, ms: seq<StreamMessage>)
    requires Sorted(done + ms)
    ensures PutAll(done, ms) == done + ms
    decreases |ms|
  {
    hide Put;
    if ms == [] {
      assert done + ms == done;
    } else {
      assert Sorted(done) && (done != [] ==> Less(done[|done| - 1].id, ms[0].id)) by {
        assert forall i :: 0 <= i < |done| ==> (done + ms)[i] == done[i];
        assert (done + ms)[|done|] == ms[0];
      }
      PutAppends(done, ms[0]);
      assert done + [ms[0]] + ms[1..] == done + ms;
      InOrderAppends(done + [ms[0]], ms[1..]);
    }
  }

  /** `m` is the last of `ms` with its id. */
  ghost predicate IsLast(ms: seq<StreamMessage>, m: StreamMessage) {
    exists i :: 0 <= i < |ms| && ms[i] == m && forall j :: i < j < |ms| ==> ms[j].id != m.id
  }

  lemma {:induction false} PutAllKeepsLast(done: seq<StreamMessage>, ms: seq<StreamMessage>)
    requires Sorted(done)
    ensures Sorted(PutAll(done, ms))
    ensures forall m :: m in PutAll(done, ms) <==> IsLast(ms, m) || (m in done && !HasId(ms, m.id))
    decreases |ms|
  {
    hide Put, Sorted, IsLast, HasId;
    if ms == [] {
      assert forall m :: !IsLast(ms, m) && !HasId(ms, m.id) by { NoneLast(ms); }
    } else {
      PutKeepsSorted(done, ms[0]);
      PutAllKeepsLast(Put(done, ms[0]), ms[1..]);
      forall m: StreamMessage
        ensures IsLast(ms, m) <==> IsLast(ms[1..], m) || (m == ms[0] && !HasId(ms[1..], m.id))
        ensures HasId(ms, m.id) <==> m.id == ms[0].id || HasId(ms[1..], m.id)
      {
        LastOfRest(ms, m);
      }
    }
  }

  lemma NoneLast(ms: seq<StreamMessage>)
    requires ms == []
    ensures forall m :: !IsLast(ms, m) && !HasId(ms, m.id)
  {
  }

  lemma LastOfRest(ms: seq<StreamMessage>, m: StreamMessage)
    requires ms != []
    ensures IsLast(ms, m) <==> IsLast(ms[1..], m) || (m == ms[0] && !HasId(ms[1..], m.id))
    ensures HasId(ms, m.id) <==> m.id == ms[0].id || HasId(ms[1..], m.id)
  {
    var rest := ms[1..];
    if i :| 0 <= i < |rest| && rest[i] == m && forall j :: i < j < |rest| ==> rest[j].id != m.id {
      assert ms[i + 1] == m;
      forall j | i + 1 < j < |ms| ensures ms[j].id != m.id { assert ms[j] == rest[j - 1]; }
    }
    if i :| 0 <= i < |ms| && ms[i] == m && forall j :: i < j < |ms| ==> ms[j].id != m.id {
      if i > 0 { assert rest[i - 1] == m; }
      assert forall j :: 0 <= j < |rest| ==> rest[j] == ms[j + 1];
    }
    if i :| 0 <= i < |rest| && rest[i].id == m.id { assert ms[i + 1].id == m.id; }
    if i :| 0 <= i < |ms| && ms[i].id == m.id { if i > 0 { assert rest[i - 1].id == m.id; } }
    if m == ms[0] && !HasId(rest, m.id) {
      forall j | 0 < j < |ms| ensures ms[j].id != m.id { assert ms[j] == rest[j - 1]; }
    }
  }

  /** Registers from any sizes: b and each register keep the low byte, m the low four, and
      any bytes behind are ignored. */
  lemma RegistersRead(b: nat, m: nat, ns: seq<nat>, rest: seq<byte>)
    requires b < TWO64 && m < TWO64 && |ns| == m % 0x1_0000_0000 && forall i :: 0 <= i < |ns| ==> ns[i] < TWO64
    ensures var bytes := Payload(WireHyperLogLog(b, m, ns));
            ReadRegisters(bytes + rest)
            == Codec.Got(HyperLogLogValue(b % 256, m % 0x1_0000_0000,
                                          seq(|ns|, i requires 0 <= i < |ns| => ns[i] % 256)),
                         |bytes|)
  {
    hide EncSize, ReadSize, ReadSizes, EncSizes, At;
    var data := Payload(WireHyperLogLog(b, m, ns)) + rest;
    Front(Payload(WireHyperLogLog(b, m, ns)), rest);
    AtSplit(data, 0, EncSize(b), EncSize(m) + EncSizes(ns));
    AtSplit(data, 8, EncSize(m), EncSizes(ns));
    ReadSizeAt(data, 0, b);
    ReadSizeAt(data, 8, m);
    ReadSizesAt(data, 16, ns, []);
    assert [] + LowBytes(ns) == LowBytes(ns);
  }

  lemma RegistersRoundTrip(b: nat, m: nat, regs: seq<nat>, rest: seq<byte>)
    requires InRange(HyperLogLogValue(b, m, regs))
    ensures ReadRegisters(Payload(WireHyperLogLog(b, m, regs)) + rest)
            == Codec.Got(HyperLogLogValue(b, m, regs), |Payload(WireHyperLogLog(b, m, regs))|)
  {
    hide Payload, ReadRegisters;
    CastsAreExact(b, m);
    RegistersRead(b, m, regs, rest);
    assert seq(|regs|, i requires 0 <= i < |regs| => regs[i] % 256) == regs;
  }

  lemma CastsAreExact(b: nat, m: nat)
    requires b < 256 && m < 0x1_0000_0000
    ensures b % 256 == b && m % 0x1_0000_0000 == m
  {
  }

  /** A stream whose messages were written in any order, ids repeated or not: it comes back
      in order, with the last message of each id and no other, and any bytes behind are
      ignored. */
  lemma StreamRead(ws: seq<WireMessage>, ms: seq<StreamMessage>, rest: seq<byte>)
    requires FitsMessages(ws) && ListsMessages(ws, ms)
    ensures ReadStream(Payload(WireStream(ws)) + rest)
            == Codec.Got(StreamValue(PutAll([], ms), map[]), |Payload(WireStream(ws))|)
    ensures Sorted(PutAll([], ms)) && forall m :: m in PutAll([], ms) <==> IsLast(ms, m)
  {
    hide EncSize, ReadSize, ReadMessages, EncMessages, PutAll, IsLast, HasId;
    var data := Payload(WireStream(ws)) + rest;
    Front(Payload(WireStream(ws)), rest);
    AtSplit(data, 0, EncSize(|ws|), EncMessages(ws));
    ReadSizeAt(data, 0, |ws|);
    ReadMessagesAt(data, 8, ws, ms, []);
    PutAllKeepsLast([], ms);
  }

  lemma StreamRoundTrip(ws: seq<WireMessage>, ms: seq<StreamMessage>, rest: seq<byte>)
    requires FitsMessages(ws) && ListsMessages(ws, ms) && Sorted(ms)
    ensures ReadStream(Payload(WireStream(ws)) + rest)
            == Codec.Got(StreamValue(ms, map[]), |Payload(WireStream(ws))|)
  {
    hide Payload, ReadStream, PutAll;
    StreamRead(ws, ms, rest);
    assert [] + ms == ms;
    InOrderAppends([], ms);
  }

  lemma Whole(data: seq<byte>)
    ensures At(data, 0, data)
  {
  }

  lemma Front(data: seq<byte>, rest: seq<byte>)
    ensures At(data + rest, 0, data)
  {
    assert (data + rest)[0..|data|] == data;
  }

  lemma TagsDiffer()
    ensures |STRING_TAG| == 6 && |HASH_TAG| == 4 && |LIST_TAG| == 4 && |SET_TAG| == 3
    ensures |SORTED_SET_TAG| == 10 && |HYPER_LOG_LOG_TAG| == 11 && |STREAM_TAG| == 6
    ensures STRING_TAG[3] != STREAM_TAG[3] && HASH_TAG[0] != LIST_TAG[0]
  {
  }

  /** Every type: creating a value from its tag and its bytes, written in any order,
      gives back what a snapshot keeps of it, and uses up exactly those bytes; any bytes
      behind are ignored. */
  lemma ValueRoundTrip(w: Wire, v: Values.Value, rest: seq<byte>)
    requires Represents(w, v) && Fits(w) && InRange(v)
    ensures CreateValue(Tag(w), Payload(w) + rest) == Codec.Got(Persisted(v), |Payload(w)|)
  {
    hide EncString, EncMap, EncVector, ReadString, ReadMap, ReadVector, ReadRegisters, ReadStream;
    TagsDiffer();
    var data := Payload(w) + rest;
    Front(Payload(w), rest);
    match v {
      case StringValue(s) => ReadStringAt(data, 0, s);
      case HashValue(h) => ReadMapAt(data, 0, w.pairs, h);
      case ListValue(l) => ReadVectorAt(data, 0, l);
      case SetValue(s) => ReadVectorAt(data, 0, w.members); EnumerationIsSet(w.members, s);
      case SortedSetValue(s) => ReadVectorAt(data, 0, w.sorted); EnumerationIsSet(w.sorted, s);
      case HyperLogLogValue(b, m, regs) => RegistersRoundTrip(b, m, regs, rest);
      case StreamValue(ms, _) => StreamRoundTrip(w.messages, ms, rest);
    }
  }

  /** A tagged read takes as many bytes as its length says, whatever the value makes of them,
      and throws exactly if they make none. */
  lemma ReadTaggedTakes(b: seq<byte>, o: nat, tag: Str, bytes: seq<byte>)
    requires FitsString(tag) && FitsString(bytes) && At(b, o, EncString(tag) + EncString(bytes))
    ensures CreateValue(tag, bytes).Fail? ==> ReadTagged(b, o) == Threw
    ensures CreateValue(tag, bytes).Got? ==>
              ReadTagged(b, o) == Value(CreateValue(tag, bytes).value, o + 8 + |tag| + 8 + |bytes|)
  {
    hide CreateValue, ReadString, ReadSize, EncSize;
    var p := o + |EncString(tag)|;
    AtSplit(b, o, EncString(tag), EncString(bytes));
    AtSplit(b, p, EncSize(|bytes|), bytes);
    ReadStringAt(b, o, tag);
    ReadSizeAt(b, p, |bytes|);
  }

  /** A tagged value read wherever it stands gives what a snapshot keeps of it, and the
      read ends exactly behind it; in particular it never leaves the buffer. */
  lemma ReadTaggedAt(b: seq<byte>, o: nat, w: Wire, v: Values.Value)
    requires Represents(w, v) && Fits(w) && InRange(v) && At(b, o, EncTagged(w))
    ensures ReadTagged(b, o) == Value(Persisted(v), o + |EncTagged(w)|)
  {
    hide Represents, CreateValue, Payload, ReadTagged, EncSize;
    TagsDiffer();
    ReadTaggedTakes(b, o, Tag(w), Payload(w));
    ValueRoundTrip(w, v, []);
    assert Payload(w) + [] == Payload(w);
  }

  // ------------------------------------------------------------- the store

  /** `rs` lists the records of `m`, each once, each represented in some order. */
  ghost predicate ListsStore(rs: seq<(Key, Wire)>, m: map<Key, Values.Value>) {
    && (forall k :: k in m ==> exists i :: 0 <= i < |rs| && rs[i].0 == k)
    && (forall i :: 0 <= i < |rs| ==> rs[i].0 in m && Represents(rs[i].1, m[rs[i].0]))
    && (forall i, j :: 0 <= i < j < |rs| ==> rs[i].0 != rs[j].0)
  }

  ghost predicate FitsStore(rs: seq<(Key, Wire)>) {
    |rs| < TWO64 && forall i :: 0 <= i < |rs| ==> FitsString(rs[i].0) && Fits(rs[i].1)
  }

  ghost predicate StoreInRange(m: map<Key, Values.Value>) {
    forall k :: k in m ==> InRange(m[k])
  }

  /** The records a snapshot keeps, in the order it lists them. */
  ghost function Kept(rs: seq<(Key, Wire)>, m: map<Key, Values.Value>): (kept: seq<(Key, Values.Value)>)
    requires forall i :: 0 <= i < |rs| ==> rs[i].0 in m
    ensures |kept| == |rs|
  {
    seq(|rs|, i requires 0 <= i < |rs| => (rs[i].0, Persisted(m[rs[i].0])))
  }

  lemma ReadRecordAt(b: seq<byte>, o: nat, r: (Key, Wire), v: Values.Value, n: nat, acc: seq<(Key, Values.Value)>)
    requires FitsString(r.0) && Represents(r.1, v) && Fits(r.1) && InRange(v) && At(b, o, EncRecord(r))
    ensures ReadRecords(b, o, n + 1, acc) == ReadRecords(b, o + |EncRecord(r)|, n, acc + [(r.0, Persisted(v))])
  {
    hide Represents, Fits, InRange, EncTagged, ReadTagged, EncString, ReadString;
    AtSplit(b, o, EncString(r.0), EncTagged(r.1));
    ReadStringAt(b, o, r.0);
    ReadTaggedAt(b, o + |EncString(r.0)|, r.1, v);
  }

  lemma {:induction false} ReadRecordsAt(b: seq<byte>, o: nat, rs: seq<(Key, Wire)>, m: map<Key, Values.Value>,
                                         acc: seq<(Key, Values.Value)>)
    requires FitsStore(rs) && StoreInRange(m) && At(b, o, EncRecords(rs))
    requires forall i :: 0 <= i < |rs| ==> rs[i].0 in m && Represents(rs[i].1, m[rs[i].0])
    ensures ReadRecords(b, o, |rs|, acc) == Load(acc + Kept(rs, m), Complete(o + |EncRecords(rs)|))
    decreases |rs|
  {
    hide Represents, Fits, InRange, EncRecord, Persisted, ReadRecords, At, Kept, FitsString;
    if rs == [] {
      NoRecords(b, o, acc, m);
    } else {
      AtSplit(b, o, EncRecord(rs[0]), EncRecords(rs[1..]));
      ReadRecordAt(b, o, rs[0], m[rs[0].0], |rs| - 1, acc);
      ReadRecordsAt(b, o + |EncRecord(rs[0])|, rs[1..], m, acc + [(rs[0].0, Persisted(m[rs[0].0]))]);
      KeptCons(acc, rs, m);
    }
  }

  lemma NoRecords(b: seq<byte>, o: nat, acc: seq<(Key, Values.Value)>, m: map<Key, Values.Value>)
    ensures ReadRecords(b, o, 0, acc) == Load(acc, Complete(o)) && acc + Kept([], m) == acc
  {
  }

  lemma KeptCons(acc: seq<(Key, Values.Value)>, rs: seq<(Key, Wire)>, m: map<Key, Values.Value>)
    requires rs != [] && forall i :: 0 <= i < |rs| ==> rs[i].0 in m
    ensures acc + [(rs[0].0, Persisted(m[rs[0].0]))] + Kept(rs[1..], m) == acc + Kept(rs, m)
  {
  }

  /** Reading back a snapshot of any store, written in any order of records, fields and
      members, hands the database every record once, with what a snapshot keeps of its
      value, and ends exactly at the end of the data. */
  lemma SnapshotRoundTrip(rs: seq<(Key, Wire)>, m: map<Key, Values.Value>)
    requires ListsStore(rs, m) && FitsStore(rs) && StoreInRange(m)
    ensures ReadStore(EncStore(rs)) == Load(Kept(rs, m), Complete(|EncStore(rs)|))
  {
    hide EncSize, ReadSize, EncRecords, ReadRecords, At, Represents, Fits, FitsString, StoreInRange, Kept;
    var data := EncStore(rs);
    Whole(data);
    AtSplit(data, 0, EncSize(|rs|), EncRecords(rs));
    ReadSizeAt(data, 0, |rs|);
    ReadRecordsAt(data, 8, rs, m, []);
    assert [] + Kept(rs, m) == Kept(rs, m);
  }

  // ------------------------------------------------- snapshots that are not whole

  lemma {:induction false} ReadSizesCut(b: seq<byte>, o: nat, ns: seq<nat>, acc: seq<nat>)
    requires Cut(b, o, EncSizes(ns)) && forall i :: 0 <= i < |ns| ==> ns[i] < 256
    ensures ReadSizes(b, o, |ns|, acc) == Codec.Fail
    decreases |ns|
  {
    hide EncSize;
    CutSplit(b, o, EncSize(ns[0]), EncSizes(ns[1..]));
    if At(b, o, EncSize(ns[0])) {
      ReadSizeAt(b, o, ns[0]);
      ReadSizesCut(b, o + 8, ns[1..], acc + [ns[0]]);
    }
  }

  lemma ReadMessageCut(b: seq<byte>, o: nat, w: WireMessage)
    requires FitsPairs(w.fields) && Cut(b, o, EncMessage(w))
    ensures ReadMessage(b, o) == Codec.Fail
  {
    hide EncString, EncMap, ReadString, ReadMap, FitsPairs, Parse;
    CutSplit(b, o, EncString(ToString(w.id)), EncMap(w.fields));
    IdTextFits(w.id);
    if Cut(b, o, EncString(ToString(w.id))) {
      ReadStringCut(b, o, ToString(w.id));
    } else {
      ReadStringAt(b, o, ToString(w.id));
      ReadMapCut(b, o + |EncString(ToString(w.id))|, w.fields);
    }
  }

  lemma {:induction false} ReadMessagesCut(b: seq<byte>, o: nat, ws: seq<WireMessage>, ms: seq<StreamMessage>,
                                           acc: seq<StreamMessage>)
    requires FitsMessages(ws) && ListsMessages(ws, ms) && Cut(b, o, EncMessages(ws))
    ensures ReadMessages(b, o, |ws|, acc) == Codec.Fail
    decreases |ws|
  {
    hide EncMessage, ReadMessage, Put;
    var x := EncMessage(ws[0]);
    CutSplit(b, o, x, EncMessages(ws[1..]));
    if Cut(b, o, x) {
      ReadMessageCut(b, o, ws[0]);
    } else {
      ReadMessageAt(b, o, ws[0], ms[0]);
      ReadMessagesCut(b, o + |x|, ws[1..], ms[1..], Put(acc, ms[0]));
    }
  }

  lemma RegistersCut(data: seq<byte>, b: nat, m: nat, regs: seq<nat>)
    requires InRange(HyperLogLogValue(b, m, regs)) && Cut(data, 0, Payload(WireHyperLogLog(b, m, regs)))
    ensures ReadRegisters(data) == Codec.Fail
  {
    hide EncSize, ReadSize, ReadSizes, EncSizes, At, Cut;
    CutSplit(data, 0, EncSize(b), EncSize(m) + EncSizes(regs));
    SizeCutOrRead(data, 0, b);
    if At(data, 0, EncSize(b)) && Cut(data, 8, EncSize(m) + EncSizes(regs)) {
      CutSplit(data, 8, EncSize(m), EncSizes(regs));
      SizeCutOrRead(data, 8, m);
      CastsAreExact(b, m);
      if At(data, 8, EncSize(m)) && Cut(data, 16, EncSizes(regs)) { ReadSizesCut(data, 16, regs, []); }
    }
  }

  lemma SizeCutOrRead(b: seq<byte>, o: nat, n: nat)
    requires n < TWO64
    ensures Cut(b, o, EncSize(n)) ==> ReadSize(b, o) == Codec.Fail
    ensures At(b, o, EncSize(n)) ==> ReadSize(b, o) == Codec.Got(n, o + 8)
  {
    hide EncSize;
    if At(b, o, EncSize(n)) { ReadSizeAt(b, o, n); }
  }

  lemma StreamCut(data: seq<byte>, ws: seq<WireMessage>, ms: seq<StreamMessage>)
    requires FitsMessages(ws) && ListsMessages(ws, ms) && Cut(data, 0, Payload(WireStream(ws)))
    ensures ReadStream(data) == Codec.Fail
  {
    hide EncSize, ReadSize, ReadMessages, EncMessages;
    CutSplit(data, 0, EncSize(|ws|), EncMessages(ws));
    SizeCutOrRead(data, 0, |ws|);
    if At(data, 0, EncSize(|ws|)) { ReadMessagesCut(data, 8, ws, ms, []); }
  }

  /** Every type: the bytes of a value cut anywhere short of their end create none. */
  lemma ValueCut(w: Wire, v: Values.Value, data: seq<byte>)
    requires Represents(w, v) && Fits(w) && InRange(v) && data < Payload(w)
    ensures CreateValue(Tag(w), data) == Codec.Fail
  {
    hide EncString, EncMap, EncVector, ReadString, ReadMap, ReadVector, ReadRegisters, ReadStream;
    TagsDiffer();
    assert Cut(data, 0, Payload(w)) by { assert data[0..] == data; }
    match v {
      case StringValue(s) => ReadStringCut(data, 0, s);
      case HashValue(_) => ReadMapCut(data, 0, w.pairs);
      case ListValue(l) => ReadVectorCut(data, 0, l);
      case SetValue(_) => ReadVectorCut(data, 0, w.members);
      case SortedSetValue(_) => ReadVectorCut(data, 0, w.sorted);
      case HyperLogLogValue(b, m, regs) => RegistersCut(data, b, m, regs);
      case StreamValue(ms, _) => StreamCut(data, w.messages, ms);
    }
  }

  /** A tagged value cut short: refused inside its tag or length, past the end of the buffer
      inside its bytes. */
  lemma ReadTaggedCut(b: seq<byte>, o: nat, w: Wire)
    requires Fits(w) && Cut(b, o, EncTagged(w))
    ensures ReadTagged(b, o) == if o + 8 + |Tag(w)| + 8 <= |b| then PastTheEnd else Refused
  {
    hide CreateValue, Payload, ReadString, ReadSize, EncSize;
    var tag := EncString(Tag(w));
    TagsDiffer();
    CutSplit(b, o, tag, EncString(Payload(w)));
    if Cut(b, o, tag) {
      ReadStringCut(b, o, Tag(w));
    } else {
      ReadStringAt(b, o, Tag(w));
      CutSplit(b, o + |tag|, EncSize(|Payload(w)|), Payload(w));
      SizeCutOrRead(b, o + |tag|, |Payload(w)|);
    }
  }

  lemma ReadRecordCut(b: seq<byte>, o: nat, r: (Key, Wire), n: nat, acc: seq<(Key, Values.Value)>)
    requires FitsString(r.0) && Fits(r.1) && Cut(b, o, EncRecord(r))
    ensures ReadRecords(b, o, n + 1, acc)
            == Load(acc, if o + 24 + |r.0| + |Tag(r.1)| <= |b| then Undefined else Stopped)
  {
    hide Fits, EncTagged, ReadTagged, ReadString, EncSize;
    CutSplit(b, o, EncString(r.0), EncTagged(r.1));
    if Cut(b, o, EncString(r.0)) {
      ReadStringCut(b, o, r.0);
    } else {
      ReadStringAt(b, o, r.0);
      ReadTaggedCut(b, o + |EncString(r.0)|, r.1);
    }
  }

  lemma {:induction false} ReadRecordsCut(b: seq<byte>, o: nat, rs: seq<(Key, Wire)>, m: map<Key, Values.Value>,
                                          acc: seq<(Key, Values.Value)>) returns (i: nat)
    requires FitsStore(rs) && StoreInRange(m) && Cut(b, o, EncRecords(rs))
    requires forall j :: 0 <= j < |rs| ==> rs[j].0 in m && Represents(rs[j].1, m[rs[j].0])
    ensures i < |rs| && |EncRecords(rs[..i])| <= |b| - o < |EncRecords(rs[..i + 1])|
    ensures ReadRecords(b, o, |rs|, acc)
            == Load(acc + Kept(rs, m)[..i],
                    if o + |EncRecords(rs[..i])| + 24 + |rs[i].0| + |Tag(rs[i].1)| <= |b| then Undefined else Stopped)
    decreases |rs|
  {
    hide Represents, Fits, InRange, EncRecord, Persisted, ReadRecords, FitsString, Tag;
    var x := EncRecord(rs[0]);
    CutSplit(b, o, x, EncRecords(rs[1..]));
    if Cut(b, o, x) {
      i := 0;
      ReadRecordCut(b, o, rs[0], |rs| - 1, acc);
      assert EncRecords(rs[..0]) == [];
      assert EncRecords(rs[..1]) == x + EncRecords([]) by { assert rs[..1] == [rs[0]]; }
      assert acc + Kept(rs, m)[..0] == acc;
    } else {
      var v := m[rs[0].0];
      var k := ReadRecordsCut(b, o + |x|, rs[1..], m, acc + [(rs[0].0, Persisted(v))]);
      i := k + 1;
      ReadRecordAt(b, o, rs[0], v, |rs| - 1, acc);
      assert rs[..i][0] == rs[0] && rs[..i][1..] == rs[1..][..k];
      assert rs[..i + 1][0] == rs[0] && rs[..i + 1][1..] == rs[1..][..i];
      assert acc + [(rs[0].0, Persisted(v))] + Kept(rs[1..], m)[..k] == acc + Kept(rs, m)[..i];
    }
  }

  /** A snapshot of any store cut short after `n` bytes hands the database exactly the
      records that are whole in those bytes, in order, and never reads as complete: the load
      stops at the next record, reading past the end of the data exactly if that record was
      cut inside the bytes of its value. */
  lemma SnapshotCut(rs: seq<(Key, Wire)>, m: map<Key, Values.Value>, n: nat)
    requires ListsStore(rs, m) && FitsStore(rs) && StoreInRange(m) && n < |EncStore(rs)|
    ensures n < 8 ==> ReadStore(EncStore(rs)[..n]) == Load([], Stopped)
    ensures n >= 8 ==> exists i ::
              && 0 <= i < |rs| && 8 + |EncRecords(rs[..i])| <= n < 8 + |EncRecords(rs[..i + 1])|
              && ReadStore(EncStore(rs)[..n])
                 == Load(Kept(rs, m)[..i],
                         if 8 + |EncRecords(rs[..i])| + 24 + |rs[i].0| + |Tag(rs[i].1)| <= n then Undefined
                         else Stopped)
  {
    hide EncSize, ReadSize, EncRecords, ReadRecords, Represents, Fits, FitsString, StoreInRange, Kept, Tag;
    var data := EncStore(rs)[..n];
    assert Cut(data, 0, EncStore(rs)) by { assert data[0..] == data; }
    CutSplit(data, 0, EncSize(|rs|), EncRecords(rs));
    SizeCutOrRead(data, 0, |rs|);
    if n >= 8 {
      var i := ReadRecordsCut(data, 8, rs, m, []);
      assert [] + Kept(rs, m)[..i] == Kept(rs, m)[..i];
    }
  }

  /** A record whose value cannot be created, for an unknown tag or for bytes that do not
      hold such a value, throws wherever it stands: what came before it stays loaded. */
  lemma SpoiltSnapshot(rs: seq<(Key, Wire)>, m: map<Key, Values.Value>, id: Key, tag: Str, bytes: seq<byte>,
                       rest: seq<byte>, n: nat)
    requires ListsStore(rs, m) && FitsStore(rs) && StoreInRange(m) && |rs| < n < TWO64
    requires FitsString(id) && FitsString(tag) && FitsString(bytes)
    requires CreateValue(tag, bytes) == Codec.Fail
    ensures var spoilt := EncString(id) + (EncString(tag) + EncString(bytes));
            ReadStore(EncSize(n) + (EncRecords(rs) + (spoilt + rest))) == Load(Kept(rs, m), Thrown)
  {
    hide EncSize, EncString, EncRecords, ReadRecords, ReadStore, At, Represents, FitsStore, StoreInRange, Kept;
    hide CreateValue;
    var spoilt := EncString(id) + (EncString(tag) + EncString(bytes));
    var data, end := EncSize(n) + (EncRecords(rs) + (spoilt + rest)), 8 + |EncRecords(rs)|;
    RecordsThenMore(rs, m, spoilt + rest, n);
    AtSplit(data, end, spoilt, rest);
    SpoiltRecord(data, end, id, tag, bytes, n - |rs| - 1, Kept(rs, m));
  }

  lemma RecordsThenMore(rs: seq<(Key, Wire)>, m: map<Key, Values.Value>, rest: seq<byte>, n: nat)
    requires ListsStore(rs, m) && FitsStore(rs) && StoreInRange(m) && |rs| <= n < TWO64
    ensures var data, end := EncSize(n) + (EncRecords(rs) + rest), 8 + |EncRecords(rs)|;
            At(data, end, rest) && ReadStore(data) == ReadRecords(data, end, n - |rs|, Kept(rs, m))
  {
    hide EncSize, ReadSize, EncRecords, ReadRecords, At, Represents, Fits, FitsString, StoreInRange, Kept;
    var data := EncSize(n) + (EncRecords(rs) + rest);
    Whole(data);
    AtSplit(data, 0, EncSize(n), EncRecords(rs) + rest);
    AtSplit(data, 8, EncRecords(rs), rest);
    ReadSizeAt(data, 0, n);
    ReadRecordsPast(data, 8, rs, m, [], n - |rs|);
    assert [] + Kept(rs, m) == Kept(rs, m);
  }

  lemma {:induction false} ReadRecordsPast(b: seq<byte>, o: nat, rs: seq<(Key, Wire)>, m: map<Key, Values.Value>,
                                           acc: seq<(Key, Values.Value)>, more: nat)
    requires FitsStore(rs) && StoreInRange(m) && At(b, o, EncRecords(rs))
    requires forall i :: 0 <= i < |rs| ==> rs[i].0 in m && Represents(rs[i].1, m[rs[i].0])
    ensures ReadRecords(b, o, |rs| + more, acc)
            == ReadRecords(b, o + |EncRecords(rs)|, more, acc + Kept(rs, m))
    decreases |rs|
  {
    hide Represents, Fits, InRange, EncRecord, Persisted, ReadRecords, At, Kept, FitsString;
    if rs == [] {
      NoRecords(b, o, acc, m);
    } else {
      AtSplit(b, o, EncRecord(rs[0]), EncRecords(rs[1..]));
      ReadRecordAt(b, o, rs[0], m[rs[0].0], |rs| - 1 + more, acc);
      ReadRecordsPast(b, o + |EncRecord(rs[0])|, rs[1..], m, acc + [(rs[0].0, Persisted(m[rs[0].0]))], more);
      KeptCons(acc, rs, m);
    }
  }

  lemma SpoiltRecord(b: seq<byte>, o: nat, id: Key, tag: Str, bytes: seq<byte>, n: nat,
                     acc: seq<(Key, Values.Value)>)
    requires FitsString(id) && FitsString(tag) && FitsString(bytes) && CreateValue(tag, bytes) == Codec.Fail
    requires At(b, o, EncString(id) + (EncString(tag) + EncString(bytes)))
    ensures ReadRecords(b, o, n + 1, acc) == Load(acc, Thrown)
  {
    hide CreateValue, ReadString, ReadTagged, EncSize;
    AtSplit(b, o, EncString(id), EncString(tag) + EncString(bytes));
    ReadStringAt(b, o, id);
    ReadTaggedTakes(b, o + |EncString(id)|, tag, bytes);
  }

  /** Bytes behind a snapshot are ignored. */
  lemma TrailingBytesIgnored(rs: seq<(Key, Wire)>, m: map<Key, Values.Value>, rest: seq<byte>)
    requires ListsStore(rs, m) && FitsStore(rs) && StoreInRange(m)
    ensures ReadStore(EncStore(rs) + rest) == Load(Kept(rs, m), Complete(|EncStore(rs)|))
  {
    hide EncSize, ReadStore, EncRecords, Represents, Fits, FitsString, StoreInRange, Kept;
    RecordsThenMore(rs, m, rest, |rs|);
    assert EncStore(rs) + rest == EncSize(|rs|) + (EncRecords(rs) + rest);
  }

  /** A tag is known exactly if it is one of the seven names. */
  lemma UnknownTag(tag: Str, bytes: seq<byte>)
    requires tag !in [STRING_TAG, HASH_TAG, LIST_TAG, SET_TAG, SORTED_SET_TAG, HYPER_LOG_LOG_TAG, STREAM_TAG]
    ensures CreateValue(tag, bytes) == Codec.Fail
  {
  }
}
