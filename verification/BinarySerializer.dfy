/** The serializer as it runs: values and whole stores written to a buffer and read
    back through an offset, each method proved against module Snapshots
    (include/Database/Serializer/Strategies/BinarySerializer.h,
    include/Database/Serializer/SerializationHelper.h, src/ValueFactory.cpp:19-69 and the
    serialize/deserialize methods of the value types).
 */
module BinarySerializer {
  import opened Bytes
  import opened StreamIds
  import opened Streams
  import opened Codec
  import opened Values
  import opened Snapshots
  import opened Lfu
  import opened Keyspace
  import opened Server

  // ----------------------------------------------------------- restoring

  /** The keys and values of a list of records as a map; later ones win. */
  function AsMap(list: seq<(Key, Values.Value)>): map<Key, Values.Value> {
    if list == [] then map[]
    else AsMap(list[..|list| - 1])[list[|list| - 1].0 := list[|list| - 1].1]
  }

  /** What the environment decides for one insertion: the approximate size, and what
      `freqList.begin()` named after each eviction. */
  datatype Choice = Choice(size: nat, begins: seq<nat>)

  function InsertCall(r: (Key, Values.Value), c: Choice): Call {
    Insert(r.0, r.1, c.size, c.begins)
  }

  /** The database after inserting the records one after the other; an insertion that
      throws is reported and skipped. */
  function InsertAll(d: Db, list: seq<(Key, Values.Value)>, choices: seq<Choice>): Db
    requires |list| == |choices|
  {
    if list == [] then d
    else
      var n := |list| - 1;
      Apply(InsertAll(d, list[..n], choices[..n]), InsertCall(list[n], choices[n])).db
  }

  ghost predicate PossibleInserts(d: Db, list: seq<(Key, Values.Value)>, choices: seq<Choice>)
    requires |list| == |choices|
  {
    list == [] ||
    (var n := |list| - 1;
     && PossibleInserts(d, list[..n], choices[..n])
     && Possible(InsertAll(d, list[..n], choices[..n]), InsertCall(list[n], choices[n])))
  }

  /** Loading a list of records with distinct keys into an empty database gives a part
      of them, and all of them if nothing was evicted. */
  lemma {:induction false} LoadedIsSubMap(list: seq<(Key, Values.Value)>, choices: seq<Choice>)
    requires |list| == |choices|
    requires forall i, j :: 0 <= i < j < |list| ==> list[i].0 != list[j].0
    ensures SubMap(InsertAll(EMPTY_DB, list, choices).records, AsMap(list))
    ensures (forall i :: 0 <= i < |choices| ==> choices[i].begins == []) ==>
              InsertAll(EMPTY_DB, list, choices).records == AsMap(list)
    ensures forall k :: k in AsMap(list) <==> exists i :: 0 <= i < |list| && list[i].0 == k
  {
    hide InsertKey, EvictAll;
    if list != [] {
      var n := |list| - 1;
      LoadedIsSubMap(list[..n], choices[..n]);
      var before := InsertAll(EMPTY_DB, list[..n], choices[..n]);
      assert list[n].0 !in AsMap(list[..n]);
      assert KeySet([]) == {};
      assert before.records[list[n].0 := list[n].1] - {} == before.records[list[n].0 := list[n].1];
    }
  }

  lemma {:induction false} AsMapLooksUp(list: seq<(Key, Values.Value)>, i: nat)
    requires i < |list| && forall i, j :: 0 <= i < j < |list| ==> list[i].0 != list[j].0
    ensures list[i].0 in AsMap(list) && AsMap(list)[list[i].0] == list[i].1
  {
    if i < |list| - 1 {
      AsMapLooksUp(list[..|list| - 1], i);
    }
  }

  /** What a snapshot keeps of a store. */
  function PersistedStore(m: map<Key, Values.Value>): map<Key, Values.Value> {
    map k | k in m :: Persisted(m[k])
  }

  lemma KeptIsPersisted(rs: seq<(Key, Wire)>, m: map<Key, Values.Value>)
    requires ListsStore(rs, m)
    ensures AsMap(Kept(rs, m)) == PersistedStore(m)
    ensures forall i, j :: 0 <= i < j < |rs| ==> Kept(rs, m)[i].0 != Kept(rs, m)[j].0
  {
    hide Represents, Persisted, AsMap, ListsStore, Kept, InsertAll;
    KeptKeys(rs, m);
    var list := Kept(rs, m);
    LoadedIsSubMap(list, seq(|list|, _ => Choice(0, [])));
    forall k | k in m
      ensures k in AsMap(list) && AsMap(list)[k] == Persisted(m[k])
    {
      var i :| 0 <= i < |rs| && rs[i].0 == k;
      AsMapLooksUp(list, i);
    }
    forall k | k in AsMap(list) ensures k in m {
      var i :| 0 <= i < |list| && list[i].0 == k;
      assert rs[i].0 == k;
    }
  }

  lemma KeptKeys(rs: seq<(Key, Wire)>, m: map<Key, Values.Value>)
    requires ListsStore(rs, m)
    ensures |Kept(rs, m)| == |rs|
    ensures forall i :: 0 <= i < |rs| ==> rs[i].0 in m && Kept(rs, m)[i] == (rs[i].0, Persisted(m[rs[i].0]))
    ensures forall i, j :: 0 <= i < j < |rs| ==> rs[i].0 != rs[j].0
    ensures forall k :: k in m ==> exists i :: 0 <= i < |rs| && rs[i].0 == k
  {
    hide Represents, Persisted;
  }

  /** The snapshot round trip: serializing any store, in any order, and deserializing
      into an empty database gives back exactly what a snapshot keeps of it if nothing
      is evicted on the way, and a part of that otherwise. */
  lemma RestoreRoundTrip(rs: seq<(Key, Wire)>, m: map<Key, Values.Value>, choices: seq<Choice>)
    requires ListsStore(rs, m) && FitsStore(rs) && StoreInRange(m) && |choices| == |rs|
    ensures var load := ReadStore(EncStore(rs));
            && load.ending == Complete(|EncStore(rs)|)
            && |load.records| == |choices|
            && SubMap(InsertAll(EMPTY_DB, load.records, choices).records, PersistedStore(m))
            && ((forall i :: 0 <= i < |choices| ==> choices[i].begins == []) ==>
                  InsertAll(EMPTY_DB, load.records, choices).records == PersistedStore(m))
  {
    hide ReadStore, EncStore, Represents, FitsStore, StoreInRange, InsertAll;
    SnapshotRoundTrip(rs, m);
    KeptIsPersisted(rs, m);
    LoadedIsSubMap(Kept(rs, m), choices);
  }

  /** Record by record: a value other than a stream comes back as it was, and a stream with
      its messages and without its consumer groups. */
  lemma RestoredAsItWas(rs: seq<(Key, Wire)>, m: map<Key, Values.Value>, choices: seq<Choice>, k: Key)
    requires ListsStore(rs, m) && FitsStore(rs) && StoreInRange(m) && |choices| == |rs|
    requires |ReadStore(EncStore(rs)).records| == |choices|
    ensures var restored := InsertAll(EMPTY_DB, ReadStore(EncStore(rs)).records, choices).records;
            && (k in restored ==>
                  && k in m
                  && (!m[k].StreamValue? ==> restored[k] == m[k])
                  && (m[k].StreamValue? ==> restored[k] == Values.StreamValue(m[k].messages, map[])))
            && ((forall i :: 0 <= i < |choices| ==> choices[i].begins == []) && k in m ==> k in restored)
  {
    hide ReadStore, EncStore, ListsStore, FitsStore, StoreInRange, InsertAll;
    RestoreRoundTrip(rs, m, choices);
  }

  // --------------------------------------------------------------- writing

  lemma {:induction false} EncSizesSnoc(ns: seq<nat>, n: nat)
    ensures EncSizes(ns + [n]) == EncSizes(ns) + EncSize(n)
  {
    hide EncSize;
    if ns == [] {
      assert [n][1..] == [];
    } else {
      EncSizesSnoc(ns[1..], n);
      assert (ns + [n])[1..] == ns[1..] + [n];
    }
  }

  lemma {:induction false} EncMessagesSnoc(ws: seq<WireMessage>, w: WireMessage)
    ensures EncMessages(ws + [w]) == EncMessages(ws) + EncMessage(w)
  {
    hide EncMessage;
    if ws == [] {
      assert [w][1..] == [];
    } else {
      EncMessagesSnoc(ws[1..], w);
      assert (ws + [w])[1..] == ws[1..] + [w];
    }
  }

  lemma {:induction false} EncRecordsSnoc(rs: seq<(Key, Wire)>, r: (Key, Wire))
    ensures EncRecords(rs + [r]) == EncRecords(rs) + EncRecord(r)
  {
    hide EncRecord;
    if rs == [] {
      assert [r][1..] == [];
    } else {
      EncRecordsSnoc(rs[1..], r);
      assert (rs + [r])[1..] == rs[1..] + [r];
    }
  }

  /** `smembers()`: the members in iteration order. */
  method Members(s: set<Str>) returns (ss: seq<Str>)
    ensures Enumerates(ss, s)
  {
    ss := [];
    var rest := s;
    while rest != {}
      invariant rest <= s
      invariant Enumerates(ss, s - rest)
    {
      var m :| m in rest;
      assert m !in ss;
      ss := ss + [m];
      rest := rest - {m};
    }
    assert s - {} == s;
  }

  method SerializeRegisters(b: nat, m: nat, registers: seq<nat>) returns (bytes: seq<byte>)
    ensures bytes == Payload(WireHyperLogLog(b, m, registers))
  {
    hide EncSize;
    var buffer := new ByteBuffer();
    buffer.AppendSize(b);
    buffer.AppendSize(m);
    ghost var start := buffer.bytes;
    for i := 0 to |registers|
      invariant buffer.bytes == start + EncSizes(registers[..i])
    {
      EncSizesSnoc(registers[..i], registers[i]);
      assert registers[..i] + [registers[i]] == registers[..i + 1];
      Assoc(start, EncSizes(registers[..i]), EncSize(registers[i]));
      buffer.AppendSize(registers[i]);
    }
    assert registers[..|registers|] == registers;
    Assoc(EncSize(b), EncSize(m), EncSizes(registers));
    return buffer.bytes;
  }

  method SerializeStream(messages: seq<StreamMessage>) returns (bytes: seq<byte>, ghost ws: seq<WireMessage>)
    ensures ListsMessages(ws, messages) && bytes == Payload(WireStream(ws))
    ensures exists us :: ListsMessages(us, messages) && bytes == Payload(WireStream(us))
  {
    hide EncSize, EncString, EncMap, EnumeratesMap;
    var buffer := new ByteBuffer();
    buffer.AppendSize(|messages|);
    ghost var start := buffer.bytes;
    ws := [];
    for i := 0 to |messages|
      invariant ListsMessages(ws, messages[..i])
      invariant buffer.bytes == start + EncMessages(ws)
    {
      ghost var before := buffer.bytes;
      buffer.AppendString(ToString(messages[i].id));
      ghost var ps;
      ps := buffer.AppendMap(messages[i].fields);
      ghost var w := WireMessage(messages[i].id, ps);
      Assoc(before, EncString(ToString(w.id)), EncMap(ps));
      Assoc(start, EncMessages(ws), EncMessage(w));
      EncMessagesSnoc(ws, w);
      ws := ws + [w];
    }
    assert messages[..|messages|] == messages;
    return buffer.bytes, ws;
  }

  /** `value->serialize()`; `w` reports the order the value iterated in. */
  method SerializeValue(v: Values.Value) returns (bytes: seq<byte>, ghost w: Wire)
    ensures Represents(w, v) && bytes == Payload(w)
    ensures exists u :: Represents(u, v) && bytes == Payload(u)
  {
    hide EncString, EncVector, EncMap, EnumeratesMap, Enumerates, ListsMessages;
    var buffer := new ByteBuffer();
    match v {
      case StringValue(s) =>
        buffer.AppendString(s);
        return buffer.bytes, WireString(s);
      case HashValue(h) =>
        ghost var ps;
        ps := buffer.AppendMap(h);
        return buffer.bytes, WireHash(ps);
      case ListValue(l) =>
        buffer.AppendVector(l);
        return buffer.bytes, WireList(l);
      case SetValue(s) =>
        var ss := Members(s);
        buffer.AppendVector(ss);
        return buffer.bytes, WireSet(ss);
      case SortedSetValue(s) =>
        var ss := Members(s);
        buffer.AppendVector(ss);
        return buffer.bytes, WireSortedSet(ss);
      case HyperLogLogValue(b, m, regs) =>
        bytes := SerializeRegisters(b, m, regs);
        return bytes, WireHyperLogLog(b, m, regs);
      case StreamValue(ms, _) =>
        ghost var ws;
        bytes, ws := SerializeStream(ms);
        return bytes, WireStream(ws);
    }
  }

  function TypeOf(v: Values.Value): Str {
    match v
    case StringValue(_) => STRING_TAG
    case HashValue(_) => HASH_TAG
    case ListValue(_) => LIST_TAG
    case SetValue(_) => SET_TAG
    case SortedSetValue(_) => SORTED_SET_TAG
    case HyperLogLogValue(_, _, _) => HYPER_LOG_LOG_TAG
    case StreamValue(_, _) => STREAM_TAG
  }

  /** One record: its id, then its tagged value. */
  method AppendRecord(buffer: ByteBuffer, id: Key, v: Values.Value) returns (ghost w: Wire)
    modifies buffer
    ensures Represents(w, v) && buffer.bytes == old(buffer.bytes) + EncRecord((id, w))
  {
    hide EncString, Payload;
    var serializedValue;
    serializedValue, w := SerializeValue(v);
    assert TypeOf(v) == Tag(w);
    ghost var start := buffer.bytes;
    buffer.AppendString(id);
    buffer.AppendString(TypeOf(v));
    buffer.AppendString(serializedValue);
    Assoc(start + EncString(id), EncString(Tag(w)), EncString(Payload(w)));
    Assoc(start, EncString(id), EncTagged(w));
  }

  /** The records are enumerated in the order of the hash map, reported as `rs`. */
  method Serialize(records: map<Key, Values.Value>) returns (bytes: seq<byte>, ghost rs: seq<(Key, Wire)>)
    ensures ListsStore(rs, records) && bytes == EncStore(rs)
    ensures exists us :: ListsStore(us, records) && bytes == EncStore(us)
  {
    hide EncSize, EncRecord, Represents, ListsStore;
    var buffer := new ByteBuffer();
    buffer.AppendSize(|records|);
    ghost var start := buffer.bytes;
    rs := [];
    var rest := records.Keys;
    NothingListed(records);
    while rest != {}
      invariant rest <= records.Keys && |rs| + |rest| == |records|
      invariant ListsStore(rs, records - rest)
      invariant buffer.bytes == start + EncRecords(rs)
    {
      var id :| id in rest;
      ghost var w;
      w := AppendRecord(buffer, id, records[id]);
      Assoc(start, EncRecords(rs), EncRecord((id, w)));
      EncRecordsSnoc(rs, (id, w));
      ListOneMore(rs, records, rest, id, w);
      rs := rs + [(id, w)];
      rest := rest - {id};
    }
    assert records - {} == records;
    return buffer.bytes, rs;
  }

  lemma NothingListed(m: map<Key, Values.Value>)
    ensures ListsStore([], m - m.Keys) && EncRecords([]) == []
  {
  }

  lemma ListOneMore(rs: seq<(Key, Wire)>, m: map<Key, Values.Value>, rest: set<Key>, k: Key, w: Wire)
    requires ListsStore(rs, m - rest) && k in rest && k in m && Represents(w, m[k])
    ensures ListsStore(rs + [(k, w)], m - (rest - {k}))
  {
    hide Represents;
    var qs, n := rs + [(k, w)], m - (rest - {k});
    assert qs[|rs|] == (k, w);
    forall j | j in n ensures exists i :: 0 <= i < |qs| && qs[i].0 == j {
      if j != k {
        assert j in m - rest;
        var i :| 0 <= i < |rs| && rs[i].0 == j;
        assert qs[i].0 == j;
      }
    }
  }

  // --------------------------------------------------------------- reading

  datatype Created = NotCreated | Created(value: Values.Value)

  method DeserializeRegisters(data: seq<byte>) returns (r: Created)
    ensures match ReadRegisters(data)
            case Fail => r == NotCreated
            case Got(v, _) => r == Created(v)
  {
    hide ReadSize;
    var cursor := new Cursor(data);
    var ok, bVal := cursor.ReadSizeT();
    if !ok {
      return NotCreated;
    }
    var mVal;
    ok, mVal := cursor.ReadSizeT();
    if !ok {
      return NotCreated;
    }
    var m := mVal % 0x1_0000_0000;
    var registers: seq<nat> := [];
    ghost var start := cursor.offset;
    for i := 0 to m
      invariant ReadSizes(data, cursor.offset, m - i, registers) == ReadSizes(data, start, m, [])
    {
      var regVal;
      ok, regVal := cursor.ReadSizeT();
      if !ok {
        return NotCreated;
      }
      registers := registers + [regVal % 256];
    }
    return Created(HyperLogLogValue(bVal % 256, m, registers));
  }

  method DeserializeStream(data: seq<byte>) returns (r: Created)
    ensures match ReadStream(data)
            case Fail => r == NotCreated
            case Got(v, _) => r == Created(v)
  {
    hide ReadSize, ReadString, ReadMap, Parse;
    var cursor := new Cursor(data);
    var ok, count := cursor.ReadSizeT();
    if !ok {
      return NotCreated;
    }
    var messages: seq<StreamMessage> := [];
    ghost var start := cursor.offset;
    for i := 0 to count
      invariant ReadMessages(data, cursor.offset, count - i, messages) == ReadMessages(data, start, count, [])
    {
      var text;
      ok, text := cursor.ReadText();
      if !ok {
        return NotCreated;
      }
      var id := Parse(text);
      if !id.Good? {
        return NotCreated;
      }
      var fields;
      ok, fields := cursor.ReadHash(map[]);
      if !ok {
        return NotCreated;
      }
      messages := Streams.Put(messages, StreamMessage(id.value, fields));
    }
    return Created(StreamValue(messages, map[]));
  }

  /** `ValueFactory::createValue` from bytes. */
  method DeserializeValue(tag: Str, data: seq<byte>) returns (r: Created)
    ensures match CreateValue(tag, data)
            case Fail => r == NotCreated
            case Got(v, _) => r == Created(v)
  {
    hide ReadString, ReadMap, ReadVector, ReadRegisters, ReadStream;
    var cursor := new Cursor(data);
    if tag == STRING_TAG {
      var ok, s := cursor.ReadText();
      return if ok then Created(StringValue(s)) else NotCreated;
    } else if tag == HASH_TAG {
      var ok, h := cursor.ReadHash(map[]);
      return if ok then Created(HashValue(h)) else NotCreated;
    } else if tag == LIST_TAG {
      var ok, l := cursor.ReadList([]);
      return if ok then Created(ListValue(l)) else NotCreated;
    } else if tag == SET_TAG {
      var ok, l := cursor.ReadList([]);
      return if ok then Created(SetValue(SetOf(l))) else NotCreated;
    } else if tag == SORTED_SET_TAG {
      var ok, l := cursor.ReadList([]);
      return if ok then Created(SortedSetValue(SetOf(l))) else NotCreated;
    } else if tag == HYPER_LOG_LOG_TAG {
      r := DeserializeRegisters(data);
    } else if tag == STREAM_TAG {
      r := DeserializeStream(data);
    } else {
      r := NotCreated;
    }
  }

  /** The tagged-value reader.  Where the program would read past the end of the
      buffer the model stops and says so. */
  method ReadTaggedValue(cursor: Cursor) returns (r: Tagged)
    modifies cursor
    ensures r == ReadTagged(cursor.bytes, old(cursor.offset))
    ensures r.Value? ==> cursor.offset == r.next
  {
    hide ReadString, ReadSize, CreateValue;
    var ok, tag := cursor.ReadText();
    if !ok {
      return Refused;
    }
    var len;
    ok, len := cursor.ReadSizeT();
    if !ok {
      return Refused;
    }
    if cursor.offset + len > |cursor.bytes| {
      return PastTheEnd;
    }
    var v := DeserializeValue(tag, cursor.bytes[cursor.offset..cursor.offset + len]);
    if v.NotCreated? {
      return Threw;
    }
    cursor.offset := cursor.offset + len;
    return Value(v.value, cursor.offset);
  }

  /** How a round of the decoding loop goes: a record is handed to the database, or the
      loop is left, by a return, by an exception, or into what is undefined. */
  datatype Round = GoesOn | Leaves(ending: Snapshots.Ending)

  /** One round of the decoding loop: read a record and insert it. */
  method LoadRecord(cursor: Cursor, db: Database, size: nat, readings: nat -> nat)
    returns (r: Round, ghost id: Key, ghost value: Values.Value, ghost begins: seq<nat>)
    requires db.Valid()
    modifies cursor, db`records, db`log, db.memoryManager, db.Contexts()
    ensures db.Valid()
    ensures r.Leaves? ==> db.State() == old(db.State())
    ensures r.Leaves? ==> forall n: nat, acc ::
              n > 0 ==> ReadRecords(cursor.bytes, old(cursor.offset), n, acc) == Load(acc, r.ending)
    ensures r.GoesOn? ==> forall n: nat, acc ::
              n > 0 ==> ReadRecords(cursor.bytes, old(cursor.offset), n, acc)
                        == ReadRecords(cursor.bytes, cursor.offset, n - 1, acc + [(id, value)])
    ensures r.GoesOn? ==>
                   && Possible(old(db.State()), Insert(id, value, size, begins))
                   && db.State() == Apply(old(db.State()), Insert(id, value, size, begins)).db
                   && EvictedAsRead(old(db.State()), id, readings, begins, db.memoryManager.capacityBytes, db.State())
  {
    hide ReadSize, ReadString, ReadTagged, Consistent, Apply, Possible, EvictedAsRead;
    id, value, begins := [], StringValue([]), [];
    r := Leaves(Stopped);
    var ok, text := cursor.ReadText();
    if !ok {
      return;
    }
    id := text;
    var read := ReadTaggedValue(cursor);
    if !read.Value? {
      r := Leaves(if read.Threw? then Thrown else if read.PastTheEnd? then Undefined else Stopped);
      return;
    }
    value := read.value;
    r := GoesOn;
    var outcome;
    outcome, begins := db.InsertRecord(text, read.value, size, readings);
  }

  /** Inserting each record evicted as the usage counter read during that insertion. */
  ghost predicate LoadsAsRead(d: Db, list: seq<(Key, Values.Value)>, choices: seq<Choice>,
                              usage: nat -> (nat -> nat), capacity: nat)
    requires |list| == |choices|
  {
    list == [] ||
    (var n := |list| - 1;
     && LoadsAsRead(d, list[..n], choices[..n], usage, capacity)
     && EvictedAsRead(InsertAll(d, list[..n], choices[..n]), list[n].0, usage(n), choices[n].begins, capacity,
                      InsertAll(d, list, choices)))
  }

  /** An insertion that starts within capacity evicts nothing. */
  lemma {:induction false} LoadWithinCapacity(d: Db, list: seq<(Key, Values.Value)>, choices: seq<Choice>,
                                              usage: nat -> (nat -> nat), capacity: nat, i: nat)
    requires |list| == |choices| && LoadsAsRead(d, list, choices, usage, capacity)
    requires i < |choices| && usage(i)(0) <= capacity
    ensures choices[i].begins == []
  {
    hide InsertAll;
    if i < |list| - 1 {
      LoadWithinCapacity(d, list[..|list| - 1], choices[..|list| - 1], usage, capacity, i);
    }
  }

  /** Reads records and inserts them one after the other, until all are read or one
      cannot be.  `usage(i)` are the readings of the usage counter during the i-th
      insertion, which decide what it evicts.
      `ending` tells whether the call read everything, returned early, or threw. */
  method Deserialize(data: seq<byte>, db: Database, sizes: nat -> nat, usage: nat -> (nat -> nat))
    returns (ending: Snapshots.Ending, ghost choices: seq<Choice>)
    requires db.Valid()
    modifies db`records, db`log, db.memoryManager, db.Contexts()
    ensures db.Valid()
    ensures var load := ReadStore(data);
            && ending == load.ending && |choices| == |load.records|
            && PossibleInserts(old(db.State()), load.records, choices)
            && db.State() == InsertAll(old(db.State()), load.records, choices)
    ensures |choices| == |ReadStore(data).records|
            && LoadsAsRead(old(db.State()), ReadStore(data).records, choices, usage, db.memoryManager.capacityBytes)
  {
    hide ReadSize, ReadRecords, InsertAll, PossibleInserts, LoadsAsRead, EvictedAsRead;
    hide Consistent, Apply, Possible, FromLittleEndian;
    ending, choices := Stopped, [];
    NothingInserted(db.State());
    var cursor := new Cursor(data);
    var ok, count := cursor.ReadSizeT();
    if !ok {
      return;
    }
    ghost var d := db.State();
    ghost var done: seq<(Key, Values.Value)> := [];
    for i := 0 to count
      invariant db.Valid() && fresh(cursor) && cursor.bytes == data
      invariant ReadRecords(data, cursor.offset, count - i, done) == ReadStore(data)
      invariant |choices| == |done| == i && PossibleInserts(d, done, choices)
      invariant db.State() == InsertAll(d, done, choices)
      invariant LoadsAsRead(d, done, choices, usage, db.memoryManager.capacityBytes)
    {
      ghost var id, value, begins;
      var r;
      r, id, value, begins := LoadRecord(cursor, db, sizes(i), usage(i));
      if r.Leaves? {
        return r.ending, choices;
      }
      InsertOneMore(d, done, choices, (id, value), Choice(sizes(i), begins), usage, db.memoryManager.capacityBytes);
      choices := choices + [Choice(sizes(i), begins)];
      done := done + [(id, value)];
    }
    NoRecordsLeft(data, cursor.offset, done);
    ending := Complete(cursor.offset);
  }

  lemma NoRecordsLeft(b: seq<byte>, o: nat, acc: seq<(Key, Values.Value)>)
    ensures ReadRecords(b, o, 0, acc) == Load(acc, Complete(o))
  {
  }

  lemma NothingInserted(d: Db)
    ensures PossibleInserts(d, [], []) && InsertAll(d, [], []) == d
    ensures forall usage, capacity :: LoadsAsRead(d, [], [], usage, capacity)
  {
  }

  lemma InsertOneMore(d: Db, list: seq<(Key, Values.Value)>, choices: seq<Choice>, r: (Key, Values.Value), c: Choice,
                      usage: nat -> (nat -> nat), capacity: nat)
    requires |list| == |choices|
    ensures InsertAll(d, list + [r], choices + [c]) == Apply(InsertAll(d, list, choices), InsertCall(r, c)).db
    ensures PossibleInserts(d, list, choices) && Possible(InsertAll(d, list, choices), InsertCall(r, c)) ==>
              PossibleInserts(d, list + [r], choices + [c])
    ensures LoadsAsRead(d, list, choices, usage, capacity)
            && EvictedAsRead(InsertAll(d, list, choices), r.0, usage(|list|), c.begins, capacity,
                             InsertAll(d, list + [r], choices + [c]))
            ==> LoadsAsRead(d, list + [r], choices + [c], usage, capacity)
  {
    assert (list + [r])[..|list|] == list && (choices + [c])[..|choices|] == choices;
  }
}
