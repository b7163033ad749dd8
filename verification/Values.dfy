/** The seven value types a record can hold (src/ValueFactory.cpp:11-17). */
module Values {
  import opened Bytes
  import opened Streams

  datatype Value =
    | StringValue(text: Str)
    | HashValue(hash: map<Str, Str>)
    | ListValue(list: seq<Str>)
    | SetValue(members: set<Str>)
    | SortedSetValue(sorted: set<Str>)
    | HyperLogLogValue(b: nat, m: nat, registers: seq<nat>)
    | StreamValue(messages: seq<StreamMessage>, groups: map<Str, Group>)
}
