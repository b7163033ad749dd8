/** Streams and consumer groups as they run: objects updated in place, each method
    proved against module Streams
    (include/Database/ConcreteValues/StreamValue.h, Stream/StreamConsumerGroup.h and
    include/Database/Commands/ConcreteCommands/StreamCommands/XACKCommand.h). */
module StreamEngine {
  import opened Bytes
  import opened StreamIds
  import opened Streams
  import opened Wrappers

  class ConsumerGroup {
    const groupName: Str
    ghost const startId: StreamId
    var lastDeliveredId: StreamId
    var consumers: set<Str>
    var pending: map<StreamId, PendingEntry>
    ghost var history: seq<GroupEvent>

    ghost function State(): Group
      reads this
    {
      Group(lastDeliveredId, consumers, pending)
    }

    ghost predicate Valid()
      reads this
    {
      Conserves(State(), history)
    }

    constructor (groupName: Str, startId: StreamId)
      ensures Valid() && this.groupName == groupName && this.startId == startId
      ensures State() == Group(startId, {}, map[]) && history == []
    {
      this.groupName := groupName;
      this.startId := startId;
      lastDeliveredId := startId;
      consumers, pending, history := {}, map[], [];
    }

    method AddConsumer(consumerName: Str)
      requires Valid()
      modifies this
      ensures Valid() && history == old(history)
      ensures State() == Streams.AddConsumer(old(State()), consumerName)
      ensures consumers == old(consumers) + {consumerName} && pending == old(pending)
      ensures Registered(old(State())) ==> Registered(State())
    {
      if consumerName !in consumers {
        consumers := consumers + {consumerName};
      }
    }

    method AddPending(messageId: StreamId, consumerName: Str, now: int)
      requires Valid()
      modifies this
      ensures Valid() && history == old(history) + [Delivered(messageId, consumerName, now)]
      ensures State() == Streams.AddPending(old(State()), messageId, consumerName, now)
      ensures pending == old(pending)[messageId := PendingEntry(messageId, consumerName, now, 1)]
      ensures Registered(old(State())) ==> (Registered(State()) <==> consumerName in consumers)
    {
      AddPendingConserves(State(), history, messageId, consumerName, now);
      pending := pending[messageId := PendingEntry(messageId, consumerName, now, 1)];
      history := history + [Delivered(messageId, consumerName, now)];
    }

    /** The delivery loop of xreadGroup. */
    method AddAllPending(msgs: seq<StreamMessage>, consumerName: Str, now: int)
      requires Valid()
      modifies this
      ensures Valid() && history == old(history) + DeliveryEvents(msgs, consumerName, now)
      ensures State() == DeliverAll(old(State()), msgs, consumerName, now)
    {
      hide Conserves, DeliveryEvents, DeliverAll;
      ghost var g, h := State(), history;
      NothingDelivered(g, h, consumerName, now);
      for i := 0 to |msgs|
        invariant Valid()
        invariant State() == DeliverAll(g, msgs[..i], consumerName, now)
        invariant history == h + DeliveryEvents(msgs[..i], consumerName, now)
      {
        DeliverOneMore(g, h, msgs, i, consumerName, now);
        AddPending(msgs[i].id, consumerName, now);
      }
      assert msgs[..|msgs|] == msgs;
    }

    /** True exactly when the message was pending; it is not any more. */
    method Ack(messageId: StreamId) returns (was: bool)
      requires Valid()
      modifies this
      ensures Valid() && history == old(history) + [Acked(messageId)]
      ensures State() == Streams.Ack(old(State()), messageId)
      ensures pending == old(pending) - {messageId} && consumers == old(consumers)
      ensures was <==> messageId in old(pending)
    {
      AckConserves(State(), history, messageId);
      was := messageId in pending;
      pending := pending - {messageId};
      history := history + [Acked(messageId)];
    }

    /** The entries of one consumer, or all of them for the empty name, each once. */
    method GetPending(consumerName: Str) returns (result: seq<PendingEntry>)
      requires Valid()
      ensures forall id :: id in pending && (consumerName == [] || pending[id].consumer == consumerName)
                ==> pending[id] in result
      ensures forall e :: e in result ==>
                && e.messageId in pending && pending[e.messageId] == e
                && (consumerName == [] || e.consumer == consumerName)
      ensures forall i, j :: 0 <= i < j < |result| ==> result[i].messageId != result[j].messageId
    {
      result := [];
      var rest := pending.Keys;
      while rest != {}
        invariant rest <= pending.Keys
        invariant forall id ::
                    id in pending && id !in rest && (consumerName == [] || pending[id].consumer == consumerName)
                    ==> pending[id] in result
        invariant forall e :: e in result ==>
                    && e.messageId in pending && e.messageId !in rest && pending[e.messageId] == e
                    && (consumerName == [] || e.consumer == consumerName)
        invariant forall i, j :: 0 <= i < j < |result| ==> result[i].messageId != result[j].messageId
      {
        var id :| id in rest;
        rest := rest - {id};
        if consumerName == [] || pending[id].consumer == consumerName {
          assert forall i :: 0 <= i < |result| ==> result[i] in result;
          result := result + [pending[id]];
        }
      }
    }

    method UpdateLastDeliveredId(id: StreamId)
      requires Valid()
      modifies `lastDeliveredId
      ensures Valid() && lastDeliveredId == id
    {
      lastDeliveredId := id;
    }
  }

  /** The process-wide counter of generateMessageId, an unsigned 64-bit atomic. */
  class Sequence {
    var next: uint64

    constructor ()
      ensures next == 0
    {
      next := 0;
    }

    method FetchAdd() returns (value: uint64)
      modifies this
      ensures value == old(next) && next == (old(next) + 1) % TWO64
    {
      value := next;
      next := (next + 1) % TWO64;
    }
  }

  class StreamValue {
    var messages: seq<StreamMessage>
    var consumerGroups: map<Str, ConsumerGroup>

    ghost predicate Valid()
      reads this, consumerGroups.Values
    {
      && Sorted(messages)
      && (forall n :: n in consumerGroups ==>
            && consumerGroups[n].groupName == n
            && consumerGroups[n].Valid() && Registered(consumerGroups[n].State())
            && RefersTo(consumerGroups[n].State(), messages, consumerGroups[n].startId))
    }

    constructor ()
      ensures Valid() && messages == [] && consumerGroups == map[]
    {
      messages := [];
      consumerGroups := map[];
    }

    /** `clock` is the millisecond clock at the call. */
    method XAdd(fields: map<Str, Str>, clock: uint64, sequence: Sequence) returns (id: StreamId)
      requires Valid()
      modifies `messages, sequence
      ensures Valid()
      ensures id == StreamId(clock, old(sequence.next))
      ensures sequence.next == (old(sequence.next) + 1) % TWO64
      ensures messages == Put(old(messages), StreamMessage(id, fields))
    {
      var n := sequence.FetchAdd();
      id := StreamId(clock, n);
      var msg := StreamMessage(id, fields);
      PutKeepsSorted(messages, msg);
      forall g | g in consumerGroups
        ensures RefersTo(consumerGroups[g].State(), Put(messages, msg), consumerGroups[g].startId)
      {
        PutKeepsReferences(consumerGroups[g].State(), messages, msg, consumerGroups[g].startId);
      }
      messages := Put(messages, msg);
    }

    method XRange(start: StreamId, end: StreamId) returns (result: seq<StreamMessage>)
      requires Valid()
      ensures result == Between(messages, start, end)
    {
      BetweenFromLowerBound(messages, start, end);
      LowerBoundIsBound(messages, start);
      result := [];
      var it := LowerBound(messages, start);
      while it < |messages| && AtMost(messages[it].id, end)
        invariant LowerBound(messages, start) <= it <= |messages|
        invariant result + Between(messages[it..], start, end) == Between(messages, start, end)
      {
        assert messages[it..][1..] == messages[it + 1..];
        assert AtLeast(messages[it].id, start);
        result := result + [messages[it]];
        it := it + 1;
      }
      BetweenPastEnd(messages[it..], start, end);
    }

    method XRead(lastId: StreamId, count: int) returns (result: seq<StreamMessage>)
      requires Valid()
      ensures result == Page(messages, lastId, count)
    {
      hide Conserves, Registered, RefersTo;
      AfterIsSuffix(messages, lastId);
      result := [];
      var first := UpperBound(messages, lastId);
      var it, left := first, count;
      while it < |messages| && left > 0
        invariant first <= it <= |messages|
        invariant result == messages[first..it] && left == count - |result|
        invariant if count <= 0 then it == first else left >= 0
      {
        OneMore(messages, first, it);
        result := result + [messages[it]];
        it, left := it + 1, left - 1;
      }
      assert messages[first..][..it - first] == messages[first..it];
      assert messages[first..|messages|] == messages[first..];
    }

    method CreateConsumerGroup(groupName: Str, startId: StreamId) returns (ok: bool)
      requires Valid()
      modifies `consumerGroups
      ensures Valid() && messages == old(messages)
      ensures ok <==> groupName !in old(consumerGroups)
      ensures !ok ==> consumerGroups == old(consumerGroups)
      ensures ok ==> && groupName in consumerGroups && fresh(consumerGroups[groupName])
                     && consumerGroups == old(consumerGroups)[groupName := consumerGroups[groupName]]
                     && consumerGroups[groupName].State() == Group(startId, {}, map[])
    {
      if groupName in consumerGroups {
        return false;
      }
      var g := new ConsumerGroup(groupName, startId);
      consumerGroups := consumerGroups[groupName := g];
      return true;
    }

    method XReadGroup(groupName: Str, consumerName: Str, lastId: StreamId, count: int, now: int)
      returns (r: Option<seq<StreamMessage>>)
      requires Valid()
      modifies consumerGroups.Values
      ensures Valid() && messages == old(messages) && consumerGroups == old(consumerGroups)
      ensures r.Some? <==> groupName in consumerGroups
      ensures r.Some? ==>
                && r.value == Page(messages, lastId, count)
                && consumerGroups[groupName].State()
                   == ReadGroup(old(consumerGroups[groupName].State()), r.value, consumerName, now)
                && consumerGroups[groupName].history
                   == old(consumerGroups[groupName].history) + DeliveryEvents(r.value, consumerName, now)
      ensures forall n :: n in consumerGroups && n != groupName ==> unchanged(consumerGroups[n])
    {
      hide Conserves, Registered, HasId, Page, DeliverAll, DeliveryEvents, Sorted;
      if groupName !in consumerGroups {
        return None;
      }
      var group := consumerGroups[groupName];
      ghost var g, h := group.State(), group.history;
      ReadGroupConserves(g, h, messages, group.startId, lastId, count, consumerName, now);
      group.AddConsumer(consumerName);
      var msgs := XRead(lastId, count);
      group.AddAllPending(msgs, consumerName, now);
      if msgs != [] {
        group.UpdateLastDeliveredId(msgs[|msgs| - 1].id);
      }
      return Some(msgs);
    }
  }

  lemma OneMore<T>(s: seq<T>, i: nat, j: nat)
    requires i <= j < |s|
    ensures s[i..j + 1] == s[i..j] + [s[j]]
  {
  }

  lemma {:induction false} LowerBoundIsBound(ms: seq<StreamMessage>, id: StreamId)
    requires Sorted(ms)
    ensures forall i :: LowerBound(ms, id) <= i < |ms| ==> !Less(ms[i].id, id)
  {
    if ms != [] && Less(ms[0].id, id) {
      LowerBoundIsBound(ms[1..], id);
    }
  }

  /** XACK on a group that was found.  A reply counts the ids that were pending, so it
      is the drop in the number of pending entries even when ids repeat; and there is
      a reply exactly when every id parses.  Otherwise the answer is an error, but the
      ids before the first bad one are acknowledged all the same. */
  method Xack(group: ConsumerGroup, ids: seq<Str>) returns (reply: Option<nat>)
    requires group.Valid()
    modifies group
    ensures group.Valid()
    ensures group.State() == AckAll(old(group.State()), ParsedPrefix(ids))
    ensures reply.Some? <==> forall i :: 0 <= i < |ids| ==> Parse(ids[i]).Good?
    ensures reply.Some? ==> reply.value == |old(group.pending)| - |group.pending|
  {
    hide Conserves, AckAll, ParsedPrefix, Parse;
    var ackCount := 0;
    assert ids[0..] == ids;
    for i := 0 to |ids|
      invariant group.Valid()
      invariant AckAll(group.State(), ParsedPrefix(ids[i..])) == AckAll(old(group.State()), ParsedPrefix(ids))
      invariant forall j :: 0 <= j < i ==> Parse(ids[j]).Good?
      invariant ackCount + |group.pending| == |old(group.pending)|
    {
      AckNext(group.State(), ids, i);
      match Parse(ids[i])
      case Good(id) =>
        RemoveOne(group.pending, id);
        var was := group.Ack(id);
        if was {
          ackCount := ackCount + 1;
        }
      case _ =>
        return None;
    }
    AckNext(group.State(), ids, |ids|);
    return Some(ackCount);
  }

  lemma RemoveOne(m: map<StreamId, PendingEntry>, id: StreamId)
    ensures |m - {id}| == if id in m then |m| - 1 else |m|
  {
    if id in m {
      assert m.Keys == (m - {id}).Keys + {id};
    } else {
      assert m - {id} == m;
    }
  }

  lemma AckNext(g: Group, ids: seq<Str>, i: nat)
    requires i <= |ids|
    ensures AckAll(g, ParsedPrefix(ids[i..])) ==
            if i < |ids| && Parse(ids[i]).Good?
            then AckAll(Streams.Ack(g, Parse(ids[i]).value), ParsedPrefix(ids[i + 1..]))
            else g
  {
    if i < |ids| {
      assert ids[i..][1..] == ids[i + 1..];
      if Parse(ids[i]).Good? {
        var rest := ParsedPrefix(ids[i + 1..]);
        assert ([Parse(ids[i]).value] + rest)[1..] == rest;
      }
    }
  }

  lemma NothingDelivered(g: Group, h: seq<GroupEvent>, consumer: Str, now: int)
    ensures DeliverAll(g, [], consumer, now) == g && h + DeliveryEvents([], consumer, now) == h
  {
  }

  lemma DeliverOneMore(g: Group, h: seq<GroupEvent>, msgs: seq<StreamMessage>, i: nat, consumer: Str, now: int)
    requires i < |msgs|
    ensures DeliverAll(g, msgs[..i + 1], consumer, now)
         == Streams.AddPending(DeliverAll(g, msgs[..i], consumer, now), msgs[i].id, consumer, now)
    ensures h + DeliveryEvents(msgs[..i + 1], consumer, now)
         == h + DeliveryEvents(msgs[..i], consumer, now) + [Delivered(msgs[i].id, consumer, now)]
  {
    assert msgs[..i + 1][..i] == msgs[..i];
  }
}
