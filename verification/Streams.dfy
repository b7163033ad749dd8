/** Ordered messages, range and page reads, and consumer groups
    (include/Database/ConcreteValues/StreamValue.h and Stream/StreamConsumerGroup.h):
    the value-level specification.

    A `std::map<StreamId, StreamMessage>` is the sequence of its messages in
    iteration order; every writer stores a message under its own id.
 */
module Streams {
  import opened Bytes
  import opened StreamIds
  import opened Wrappers

  datatype StreamMessage = StreamMessage(id: StreamId, fields: map<Str, Str>)

  ghost predicate Sorted(ms: seq<StreamMessage>) {
    forall i, j :: 0 <= i < j < |ms| ==> Less(ms[i].id, ms[j].id)
  }

  /** `messages[m.id] = m`. */
  function Put(ms: seq<StreamMessage>, m: StreamMessage): seq<StreamMessage> {
    if ms == [] || Less(m.id, ms[0].id) then [m] + ms
    else if m.id == ms[0].id then [m] + ms[1..]
    else [ms[0]] + Put(ms[1..], m)
  }

  /** `lower_bound(id)` as an index. */
  function LowerBound(ms: seq<StreamMessage>, id: StreamId): (p: nat)
    ensures p <= |ms|
  {
    if ms == [] || !Less(ms[0].id, id) then 0 else 1 + LowerBound(ms[1..], id)
  }

  /** `upper_bound(id)` as an index. */
  function UpperBound(ms: seq<StreamMessage>, id: StreamId): (p: nat)
    ensures p <= |ms|
  {
    if ms == [] || Less(id, ms[0].id) then 0 else 1 + UpperBound(ms[1..], id)
  }

  /** The messages whose id lies in [start, end], in order. */
  function Between(ms: seq<StreamMessage>, start: StreamId, end: StreamId): seq<StreamMessage> {
    if ms == [] then []
    else (if AtLeast(ms[0].id, start) && AtMost(ms[0].id, end) then [ms[0]] else []) + Between(ms[1..], start, end)
  }

  /** The messages whose id is above `last`, in order. */
  function After(ms: seq<StreamMessage>, last: StreamId): seq<StreamMessage> {
    if ms == [] then []
    else (if Less(last, ms[0].id) then [ms[0]] else []) + After(ms[1..], last)
  }

  /** One page: at most `count` of the messages above `last`. */
  function Page(ms: seq<StreamMessage>, last: StreamId, count: int): seq<StreamMessage> {
    var rest := After(ms, last);
    if count <= 0 then [] else if count < |rest| then rest[..count] else rest
  }

  // ----------------------------------------------------------- ordered map

  lemma {:induction false} PutKeepsSorted(ms: seq<StreamMessage>, m: StreamMessage)
    requires Sorted(ms)
    ensures Sorted(Put(ms, m))
    ensures forall x :: x in Put(ms, m) <==> x == m || (x in ms && x.id != m.id)
  {
    if ms != [] {
      var rest := ms[1..];
      assert forall x :: x in ms <==> x == ms[0] || x in rest;
      assert forall x :: x in rest ==> Less(ms[0].id, x.id);
      if Less(m.id, ms[0].id) {
        assert forall x :: x in ms ==> x.id != m.id;
      } else if m.id != ms[0].id {
        PutKeepsSorted(rest, m);
        var tail := Put(rest, m);
        assert forall x :: x in tail ==> Less(ms[0].id, x.id);
      }
    }
  }

  /** A message is appended, and overwrites nothing, exactly when its id is above the
      last one. */
  lemma {:induction false} PutAppends(ms: seq<StreamMessage>, m: StreamMessage)
    requires Sorted(ms)
    ensures Put(ms, m) == ms + [m] <==> ms == [] || Less(ms[|ms| - 1].id, m.id)
  {
    if ms != [] {
      var rest := ms[1..];
      PutAppends(rest, m);
      if rest != [] { assert Less(ms[0].id, ms[|ms| - 1].id); }
      assert ms + [m] == [ms[0]] + (rest + [m]);
      if !Less(m.id, ms[0].id) && m.id != ms[0].id {
        assert Put(ms, m)[1..] == Put(rest, m);
        assert (ms + [m])[1..] == rest + [m];
      } else {
        assert Put(ms, m)[0] == m && (ms + [m])[0] == ms[0];
        if m == ms[0] { assert |Put(ms, m)| < |ms + [m]|; }
      }
    }
  }

  /** One xadd of a process: the stream, the fields, and the clock it reads. */
  datatype Addition = Addition(stream: Str, fields: map<Str, Str>, clock: uint64)

  /** The streams of a process and its counter, shared by all of them. */
  datatype Adder = Adder(streams: map<Str, seq<StreamMessage>>, next: uint64)

  function Messages(streams: map<Str, seq<StreamMessage>>, name: Str): seq<StreamMessage> {
    if name in streams then streams[name] else []
  }

  function Add(p: Adder, a: Addition): Adder {
    var m := StreamMessage(StreamId(a.clock, p.next), a.fields);
    Adder(p.streams[a.stream := Put(Messages(p.streams, a.stream), m)], (p.next + 1) % TWO64)
  }

  function AddEach(p: Adder, adds: seq<Addition>): Adder {
    if adds == [] then p else Add(AddEach(p, adds[..|adds| - 1]), adds[|adds| - 1])
  }

  /** A process that has just started, with the streams it was given. */
  function Started(streams: map<Str, seq<StreamMessage>>): Adder {
    Adder(streams, 0)
  }

  /** The messages the additions to one stream make, in the order of the additions; the
      i-th addition of the process takes the number i. */
  function Sent(adds: seq<Addition>, name: Str): seq<StreamMessage>
    requires |adds| <= TWO64
  {
    if adds == [] then []
    else
      var n := |adds| - 1;
      Sent(adds[..n], name) +
      if adds[n].stream == name then [StreamMessage(StreamId(adds[n].clock, n), adds[n].fields)] else []
  }

  ghost predicate ClockNeverBack(adds: seq<Addition>) {
    forall i, j :: 0 <= i < j < |adds| ==> adds[i].clock <= adds[j].clock
  }

  /** Every id sent so far is below any id that is still to come. */
  lemma {:induction false} SentIsBelow(adds: seq<Addition>, name: Str, clock: uint64)
    requires |adds| < TWO64 && forall i :: 0 <= i < |adds| ==> adds[i].clock <= clock
    ensures forall m :: m in Sent(adds, name) ==> Less(m.id, StreamId(clock, |adds|))
  {
    if adds != [] { SentIsBelow(adds[..|adds| - 1], name, clock); }
  }

  /** A process that starts with empty streams, whose clock does not run back and which
      adds at most 2^64 messages, to whatever streams: each stream holds every message
      added to it, in the order added, and nothing is overwritten. */
  lemma {:induction false} StreamOnlyGrows(adds: seq<Addition>, name: Str)
    requires ClockNeverBack(adds) && |adds| <= TWO64
    ensures var p := AddEach(Started(map[]), adds);
            && p.next == |adds| % TWO64
            && Messages(p.streams, name) == Sent(adds, name)
            && Sorted(Messages(p.streams, name))
  {
    hide Put, Sorted, Add, Messages;
    if adds == [] {
      NothingSent(name);
    } else {
      var rest, a := adds[..|adds| - 1], adds[|adds| - 1];
      StreamOnlyGrows(rest, name);
      OneAdded(AddEach(Started(map[]), rest), a, name);
      if a.stream == name {
        SentIsBelow(rest, name, a.clock);
        AddedLast(Sent(rest, name), StreamMessage(StreamId(a.clock, |rest|), a.fields));
      }
    }
  }

  lemma NothingSent(name: Str)
    ensures Messages(Started(map[]).streams, name) == Sent([], name) && Sorted(Sent([], name))
  {
  }

  lemma OneAdded(p: Adder, a: Addition, name: Str)
    ensures var ms := Messages(p.streams, name);
            Messages(Add(p, a).streams, name)
            == if a.stream == name then Put(ms, StreamMessage(StreamId(a.clock, p.next), a.fields)) else ms
    ensures Add(p, a).next == if p.next == TWO64 - 1 then 0 else p.next + 1
  {
    hide Put;
  }

  lemma AddedLast(ms: seq<StreamMessage>, m: StreamMessage)
    requires Sorted(ms) && forall x :: x in ms ==> Less(x.id, m.id)
    ensures Put(ms, m) == ms + [m] && Sorted(Put(ms, m))
  {
    PutAppends(ms, m);
    PutKeepsSorted(ms, m);
  }

  // --------------------------------------------------------------- reading

  lemma {:induction false} BetweenIsExact(ms: seq<StreamMessage>, start: StreamId, end: StreamId)
    ensures forall m :: m in Between(ms, start, end) <==> m in ms && AtMost(start, m.id) && AtMost(m.id, end)
    ensures Sorted(ms) ==> Sorted(Between(ms, start, end))
  {
    if ms != [] {
      BetweenIsExact(ms[1..], start, end);
      var rest, sub := ms[1..], Between(ms[1..], start, end);
      assert forall x :: x in ms <==> x == ms[0] || x in rest;
      if Sorted(ms) {
        assert forall x :: x in rest ==> Less(ms[0].id, x.id);
        assert forall i :: 0 <= i < |sub| ==> sub[i] in rest;
      }
    }
  }

  lemma {:induction false} AfterIsSuffix(ms: seq<StreamMessage>, last: StreamId)
    requires Sorted(ms)
    ensures After(ms, last) == ms[UpperBound(ms, last)..]
  {
    if ms != [] {
      AfterIsSuffix(ms[1..], last);
      if Less(last, ms[0].id) {
        AfterAll(ms[1..], last);
      }
    }
  }

  lemma {:induction false} AfterAll(ms: seq<StreamMessage>, last: StreamId)
    requires forall i :: 0 <= i < |ms| ==> Less(last, ms[i].id)
    ensures After(ms, last) == ms
  {
    if ms != [] { AfterAll(ms[1..], last); }
  }

  lemma {:induction false} BetweenFromLowerBound(ms: seq<StreamMessage>, start: StreamId, end: StreamId)
    ensures Between(ms, start, end) == Between(ms[LowerBound(ms, start)..], start, end)
  {
    if ms != [] && Less(ms[0].id, start) {
      BetweenFromLowerBound(ms[1..], start, end);
      assert ms[LowerBound(ms, start)..] == ms[1..][LowerBound(ms[1..], start)..];
    }
  }

  lemma {:induction false} BetweenPastEnd(ms: seq<StreamMessage>, start: StreamId, end: StreamId)
    requires forall i :: 0 <= i < |ms| ==> Less(end, ms[i].id)
    ensures Between(ms, start, end) == []
  {
    if ms != [] { BetweenPastEnd(ms[1..], start, end); }
  }

  /** The messages above an id are exactly those, in the order of the stream. */
  lemma {:induction false} AfterIsExact(ms: seq<StreamMessage>, last: StreamId)
    ensures forall m :: m in After(ms, last) <==> m in ms && Less(last, m.id)
    ensures Sorted(ms) ==> Sorted(After(ms, last))
  {
    if ms != [] {
      AfterIsExact(ms[1..], last);
      var rest, sub := ms[1..], After(ms[1..], last);
      assert forall x :: x in ms <==> x == ms[0] || x in rest;
      if Sorted(ms) {
        assert forall x :: x in rest ==> Less(ms[0].id, x.id);
        assert forall i :: 0 <= i < |sub| ==> sub[i] in rest;
      }
    }
  }

  /** A page is the first `count` of the messages above the id, or all if there are fewer, and
      empty for a count that is not positive. */
  lemma PageIsExact(ms: seq<StreamMessage>, last: StreamId, count: int)
    ensures var page := Page(ms, last, count);
            && page <= After(ms, last)
            && |page| == if count <= 0 then 0 else if count < |After(ms, last)| then count else |After(ms, last)|
  {
    hide After;
  }

  /** Reading on from the k-th message above `last` gives the messages behind it. */
  lemma AfterAfter(ms: seq<StreamMessage>, last: StreamId, k: nat)
    requires Sorted(ms) && k < |After(ms, last)|
    ensures After(ms, After(ms, last)[k].id) == After(ms, last)[k + 1..]
  {
    var p := UpperBound(ms, last);
    AfterIsSuffix(ms, last);
    SuffixAfter(ms, p + k);
    assert ms[p..][k + 1..] == ms[p + k + 1..];
  }

  lemma {:induction false} SuffixAfter(ms: seq<StreamMessage>, i: nat)
    requires Sorted(ms) && i < |ms|
    ensures After(ms, ms[i].id) == ms[i + 1..]
  {
    if i == 0 {
      AfterAll(ms[1..], ms[0].id);
    } else {
      SuffixAfter(ms[1..], i - 1);
      assert ms[1..][i - 1] == ms[i];
    }
  }

  /** Calling xread again and again from the last id it returned, until it returns
      nothing, and joining the pages. */
  function AllPages(ms: seq<StreamMessage>, last: StreamId, count: int, calls: nat): seq<StreamMessage>
    decreases calls
  {
    var page := Page(ms, last, count);
    if page == [] || calls == 0 then []
    else page + AllPages(ms, page[|page| - 1].id, count, calls - 1)
  }

  lemma PageIsPrefix(ms: seq<StreamMessage>, last: StreamId, count: int)
    requires count > 0
    ensures var rest, page := After(ms, last), Page(ms, last, count);
            |page| <= |rest| && page == rest[..|page|] && (page == [] <==> rest == [])
  {
    hide After;
  }

  /** Paging is complete: after at most one call a message the pages joined are
      exactly the messages above the start id, each once, in ascending order. */
  lemma {:induction false} PagingIsComplete(ms: seq<StreamMessage>, last: StreamId, count: int, calls: nat)
    requires Sorted(ms) && count > 0 && calls >= |After(ms, last)|
    ensures AllPages(ms, last, count, calls) == After(ms, last)
    decreases calls
  {
    hide After, Sorted, Page;
    var rest, page := After(ms, last), Page(ms, last, count);
    PageIsPrefix(ms, last, count);
    if rest != [] {
      AfterAfter(ms, last, |page| - 1);
      PagingIsComplete(ms, page[|page| - 1].id, count, calls - 1);
      assert page + rest[|page|..] == rest;
    }
  }

  /** A reader that has read to the end sees a new message exactly when its id is
      above the last one. */
  lemma NewMessageVisible(ms: seq<StreamMessage>, m: StreamMessage)
    requires Sorted(ms) && ms != []
    ensures After(Put(ms, m), ms[|ms| - 1].id) == if Less(ms[|ms| - 1].id, m.id) then [m] else []
  {
    hide Put, After, Less;
    PutKeepsSorted(ms, m);
    if Less(ms[|ms| - 1].id, m.id) {
      PutAppends(ms, m);
      SuffixAfter(ms + [m], |ms| - 1);
    } else {
      NoneAboveLast(ms, m);
      AfterNone(Put(ms, m), ms[|ms| - 1].id);
    }
  }

  lemma NoneAboveLast(ms: seq<StreamMessage>, m: StreamMessage)
    requires Sorted(ms) && ms != [] && !Less(ms[|ms| - 1].id, m.id)
    ensures forall i :: 0 <= i < |Put(ms, m)| ==> !Less(ms[|ms| - 1].id, Put(ms, m)[i].id)
  {
    hide Put;
    PutKeepsSorted(ms, m);
    forall x | x in Put(ms, m) ensures !Less(ms[|ms| - 1].id, x.id) {
      if x != m {
        var j :| 0 <= j < |ms| && ms[j] == x;
      }
    }
  }

  /** The stream one process leaves that adds two messages in one millisecond. */
  function TwoInOne(fields: map<Str, Str>, clock: uint64): seq<StreamMessage> {
    [StreamMessage(StreamId(clock, 0), fields), StreamMessage(StreamId(clock, 1), fields)]
  }

  function Twice(name: Str, fields: map<Str, Str>, clock: uint64): seq<Addition> {
    [Addition(name, fields, clock), Addition(name, fields, clock)]
  }

  lemma TwoSent(name: Str, fields: map<Str, Str>, clock: uint64)
    ensures Messages(AddEach(Started(map[]), Twice(name, fields, clock)).streams, name) == TwoInOne(fields, clock)
  {
    var a := Addition(name, fields, clock);
    StreamOnlyGrows([a, a], name);
    assert [a, a][..1] == [a] && [a][..0] == [];
    assert Sent([a], name) == [StreamMessage(StreamId(clock, 0), fields)];
  }

  /** A stream and a restart after which a reader at its end misses a message.  A process
      leaves the stream of TwoInOne, which is restored; the new process, whose counter starts again and
      whose steady clock may stand anywhere up to where it stood, adds to it.  In the same
      millisecond its message even takes the place of the first one. */
  lemma RestartHidesMessage(name: Str, fields: map<Str, Str>, clock: uint64, a: Addition)
    requires a.stream == name && a.clock <= clock
    ensures var before := TwoInOne(fields, clock);
            var after := Messages(Add(Started(map[name := before]), a).streams, name);
            var m := StreamMessage(StreamId(a.clock, 0), a.fields);
            && Messages(AddEach(Started(map[]), Twice(name, fields, clock)).streams, name) == before
            && m in after && Less(before[0].id, before[1].id) && After(after, before[1].id) == []
            && after == if a.clock == clock then [m, before[1]] else [m] + before
  {
    var before := TwoInOne(fields, clock);
    TwoSent(name, fields, clock);
    NewMessageVisible(before, StreamMessage(StreamId(a.clock, 0), a.fields));
  }

  lemma {:induction false} AfterNone(ms: seq<StreamMessage>, last: StreamId)
    requires forall i :: 0 <= i < |ms| ==> !Less(last, ms[i].id)
    ensures After(ms, last) == []
  {
    if ms != [] { AfterNone(ms[1..], last); }
  }

  // -------------------------------------------------------- consumer groups

  datatype PendingEntry = PendingEntry(messageId: StreamId, consumer: Str, deliveryTime: int, deliveryCount: nat)

  datatype Group = Group(lastDeliveredId: StreamId, consumers: set<Str>, pending: map<StreamId, PendingEntry>)

  datatype GroupEvent =
    | Delivered(id: StreamId, consumer: Str, time: int)
    | Acked(id: StreamId)

  /** The last delivery of `id`, unless it was acknowledged since. */
  function Outstanding(h: seq<GroupEvent>, id: StreamId): Option<GroupEvent> {
    if h == [] then None
    else
      var e := h[|h| - 1];
      if e.id != id then Outstanding(h[..|h| - 1], id)
      else if e.Acked? then None else Some(e)
  }

  /** How often `id` was delivered since it was last acknowledged. */
  function Deliveries(h: seq<GroupEvent>, id: StreamId): nat {
    if h == [] then 0
    else
      var e := h[|h| - 1];
      if e.id != id then Deliveries(h[..|h| - 1], id)
      else if e.Acked? then 0 else Deliveries(h[..|h| - 1], id) + 1
  }

  function AddConsumer(g: Group, consumer: Str): Group {
    g.(consumers := g.consumers + {consumer})
  }

  function AddPending(g: Group, id: StreamId, consumer: Str, now: int): Group {
    g.(pending := g.pending[id := PendingEntry(id, consumer, now, 1)])
  }

  function Ack(g: Group, id: StreamId): Group {
    g.(pending := g.pending - {id})
  }

  /** Deliver the messages of a page, one after the other. */
  function DeliverAll(g: Group, page: seq<StreamMessage>, consumer: Str, now: int): Group {
    if page == [] then g
    else AddPending(DeliverAll(g, page[..|page| - 1], consumer, now), page[|page| - 1].id, consumer, now)
  }

  function DeliveryEvents(page: seq<StreamMessage>, consumer: Str, now: int): seq<GroupEvent> {
    seq(|page|, i requires 0 <= i < |page| => Delivered(page[i].id, consumer, now))
  }

  /** What xreadGroup does to its group when it returns `page`. */
  function ReadGroup(g: Group, page: seq<StreamMessage>, consumer: Str, now: int): Group {
    var d := DeliverAll(AddConsumer(g, consumer), page, consumer, now);
    if page == [] then d else d.(lastDeliveredId := page[|page| - 1].id)
  }

  /** What reading a page through a group changes: the reader is registered, the messages of
      the page are pending for it, delivered now and once, and the last of them is the last
      delivered; the other entries, and all of them for an empty page, stay as they are. */
  lemma ReadGroupActs(g: Group, page: seq<StreamMessage>, consumer: Str, now: int)
    ensures var r := ReadGroup(g, page, consumer, now);
            && r.consumers == g.consumers + {consumer}
            && r.lastDeliveredId == (if page == [] then g.lastDeliveredId else page[|page| - 1].id)
            && (forall i :: 0 <= i < |page| ==>
                  page[i].id in r.pending
                  && r.pending[page[i].id] == PendingEntry(page[i].id, consumer, now, 1))
            && (forall id :: id in r.pending && (forall i :: 0 <= i < |page| ==> page[i].id != id) ==>
                  id in g.pending && r.pending[id] == g.pending[id])
            && (forall id :: id in g.pending ==> id in r.pending)
  {
    DeliverAllActs(AddConsumer(g, consumer), page, consumer, now);
  }

  lemma {:induction false} DeliverAllActs(g: Group, page: seq<StreamMessage>, consumer: Str, now: int)
    ensures var r := DeliverAll(g, page, consumer, now);
            && r.consumers == g.consumers && r.lastDeliveredId == g.lastDeliveredId
            && (forall i :: 0 <= i < |page| ==>
                  page[i].id in r.pending
                  && r.pending[page[i].id] == PendingEntry(page[i].id, consumer, now, 1))
            && (forall id :: id in r.pending && (forall i :: 0 <= i < |page| ==> page[i].id != id) ==>
                  id in g.pending && r.pending[id] == g.pending[id])
            && (forall id :: id in g.pending ==> id in r.pending)
  {
    if page != [] {
      var before := page[..|page| - 1];
      DeliverAllActs(g, before, consumer, now);
      assert forall i :: 0 <= i < |before| ==> page[i] == before[i];
    }
  }

  /** Every delivered id is pending or was acknowledged since its last delivery, and
      a pending entry names the consumer and time of that delivery. */
  ghost predicate Conserves(g: Group, h: seq<GroupEvent>) {
    && (forall id :: id in g.pending <==> Outstanding(h, id).Some?)
    && (forall id :: id in g.pending ==>
          && Outstanding(h, id).value == Delivered(id, g.pending[id].consumer, g.pending[id].deliveryTime)
          && g.pending[id].messageId == id
          && g.pending[id].deliveryCount == 1)
  }

  /** Pending entries are of registered consumers. */
  ghost predicate Registered(g: Group) {
    forall id :: id in g.pending ==> g.pending[id].consumer in g.consumers
  }

  /** A delivery keeps the books whoever the consumer is, and keeps every entry with a
      registered consumer exactly when this one is registered. */
  lemma AddPendingConserves(g: Group, h: seq<GroupEvent>, id: StreamId, consumer: Str, now: int)
    requires Conserves(g, h)
    ensures Conserves(AddPending(g, id, consumer, now), h + [Delivered(id, consumer, now)])
    ensures Registered(g) ==> (Registered(AddPending(g, id, consumer, now)) <==> consumer in g.consumers)
  {
    GroupHistoryGrows(h, Delivered(id, consumer, now));
    var t := AddPending(g, id, consumer, now);
    assert id in t.pending && t.pending[id].consumer == consumer;
  }

  ghost predicate HasId(ms: seq<StreamMessage>, id: StreamId) {
    exists i :: 0 <= i < |ms| && ms[i].id == id
  }

  /** Pending ids are ids of messages, and the last delivered id is one or still the
      start id. */
  ghost predicate RefersTo(g: Group, ms: seq<StreamMessage>, startId: StreamId) {
    && (forall id :: id in g.pending ==> HasId(ms, id))
    && (g.lastDeliveredId == startId || HasId(ms, g.lastDeliveredId))
  }

  lemma GroupHistoryGrows(h: seq<GroupEvent>, e: GroupEvent)
    ensures forall id :: id != e.id ==> Outstanding(h + [e], id) == Outstanding(h, id)
    ensures Outstanding(h + [e], e.id) == if e.Acked? then None else Some(e)
  {
    assert (h + [e])[..|h|] == h;
  }

  /** Acknowledging removes the id if it is pending and nothing else. */
  lemma AckConserves(g: Group, h: seq<GroupEvent>, id: StreamId)
    requires Conserves(g, h)
    ensures Conserves(Ack(g, id), h + [Acked(id)])
    ensures Registered(g) ==> Registered(Ack(g, id))
  {
    GroupHistoryGrows(h, Acked(id));
  }

  lemma {:induction false} DeliverAllConserves(g: Group, h: seq<GroupEvent>, page: seq<StreamMessage>, consumer: Str,
                                               now: int)
    requires Conserves(g, h) && Registered(g) && consumer in g.consumers
    ensures Conserves(DeliverAll(g, page, consumer, now), h + DeliveryEvents(page, consumer, now))
    ensures Registered(DeliverAll(g, page, consumer, now))
    ensures DeliverAll(g, page, consumer, now).consumers == g.consumers
    ensures DeliverAll(g, page, consumer, now).lastDeliveredId == g.lastDeliveredId
    ensures forall id :: id in DeliverAll(g, page, consumer, now).pending <==> id in g.pending || HasId(page, id)
  {
    if page == [] {
      assert h + DeliveryEvents(page, consumer, now) == h;
    } else {
      var rest, m := page[..|page| - 1], page[|page| - 1];
      DeliverAllConserves(g, h, rest, consumer, now);
      var e := Delivered(m.id, consumer, now);
      var g', h' := DeliverAll(g, rest, consumer, now), h + DeliveryEvents(rest, consumer, now);
      AddPendingConserves(g', h', m.id, consumer, now);
      assert h + DeliveryEvents(rest, consumer, now) + [e] == h + DeliveryEvents(page, consumer, now);
      forall id ensures HasId(page, id) <==> HasId(rest, id) || id == m.id {
        if HasId(rest, id) {
          var i :| 0 <= i < |rest| && rest[i].id == id;
          assert page[i].id == id;
        }
      }
    }
  }

  /** Reading through a group keeps the books: what it delivers becomes pending for
      the reading consumer, and refers to messages of the stream. */
  lemma ReadGroupConserves(g: Group, h: seq<GroupEvent>, ms: seq<StreamMessage>, startId: StreamId,
                           last: StreamId, count: int, consumer: Str, now: int)
    requires Conserves(g, h) && Registered(g) && RefersTo(g, ms, startId) && Sorted(ms)
    ensures var page := Page(ms, last, count);
            var r := ReadGroup(g, page, consumer, now);
            && Conserves(r, h + DeliveryEvents(page, consumer, now)) && Registered(r)
            && RefersTo(r, ms, startId)
            && (forall m :: m in page ==> m.id in r.pending && r.pending[m.id].consumer == consumer)
  {
    var page := Page(ms, last, count);
    var c := AddConsumer(g, consumer);
    DeliverAllConserves(c, h, page, consumer, now);
    PageIsPart(ms, last, count);
    DeliveredLast(h, page, consumer, now);
  }

  lemma PageIsPart(ms: seq<StreamMessage>, last: StreamId, count: int)
    requires Sorted(ms)
    ensures forall id :: HasId(Page(ms, last, count), id) ==> HasId(ms, id)
  {
    AfterIsSuffix(ms, last);
    var page, p := Page(ms, last, count), UpperBound(ms, last);
    forall id | HasId(page, id) ensures HasId(ms, id) {
      var i :| 0 <= i < |page| && page[i].id == id;
      assert ms[p + i].id == id;
    }
  }

  lemma {:induction false} DeliveredLast(h: seq<GroupEvent>, page: seq<StreamMessage>, consumer: Str, now: int)
    ensures forall m :: m in page ==>
              Outstanding(h + DeliveryEvents(page, consumer, now), m.id) == Some(Delivered(m.id, consumer, now))
  {
    if page != [] {
      var rest, m := page[..|page| - 1], page[|page| - 1];
      DeliveredLast(h, rest, consumer, now);
      var e := Delivered(m.id, consumer, now);
      GroupHistoryGrows(h + DeliveryEvents(rest, consumer, now), e);
      assert h + DeliveryEvents(rest, consumer, now) + [e] == h + DeliveryEvents(page, consumer, now);
      assert page == rest + [m];
    }
  }

  lemma {:induction false} NothingOutstanding(h: seq<GroupEvent>, id: StreamId)
    ensures Deliveries(h, id) == 0 <==> Outstanding(h, id).None?
  {
    if h != [] { NothingOutstanding(h[..|h| - 1], id); }
  }

  /** The count a delivery writes is the number of deliveries since the last
      acknowledgement exactly when the id is not pending at the time: a redelivery
      starts the count again. */
  lemma DeliveryCountIsExact(g: Group, h: seq<GroupEvent>, id: StreamId, consumer: Str, now: int)
    requires Conserves(g, h)
    ensures AddPending(g, id, consumer, now).pending[id].deliveryCount
            == Deliveries(h + [Delivered(id, consumer, now)], id)
            <==> id !in g.pending
  {
    assert (h + [Delivered(id, consumer, now)])[..|h|] == h;
    NothingOutstanding(h, id);
  }

  /** Adding a message leaves every group's references good. */
  lemma PutKeepsReferences(g: Group, ms: seq<StreamMessage>, m: StreamMessage, startId: StreamId)
    requires Sorted(ms) && RefersTo(g, ms, startId)
    ensures RefersTo(g, Put(ms, m), startId)
  {
    PutKeepsSorted(ms, m);
    forall id | HasId(ms, id) ensures HasId(Put(ms, m), id) {
      var i :| 0 <= i < |ms| && ms[i].id == id;
      var x := if id == m.id then m else ms[i];
      assert x in Put(ms, m);
    }
  }

  /** What can happen to a stream and one of its groups. */
  datatype GroupStep =
    | AddMessage(message: StreamMessage)
    | ReadPage(last: StreamId, count: int, consumer: Str, now: int)
    | Acknowledge(id: StreamId)

  datatype GroupState = GroupState(messages: seq<StreamMessage>, group: Group, history: seq<GroupEvent>)

  function TakeStep(s: GroupState, step: GroupStep): GroupState {
    match step
    case AddMessage(m) => s.(messages := Put(s.messages, m))
    case ReadPage(last, count, consumer, now) =>
      var page := Page(s.messages, last, count);
      s.(group := ReadGroup(s.group, page, consumer, now), history := s.history + DeliveryEvents(page, consumer, now))
    case Acknowledge(id) => s.(group := Ack(s.group, id), history := s.history + [Acked(id)])
  }

  function TakeSteps(s: GroupState, steps: seq<GroupStep>): GroupState {
    if steps == [] then s else TakeStep(TakeSteps(s, steps[..|steps| - 1]), steps[|steps| - 1])
  }

  function NewGroup(ms: seq<StreamMessage>, startId: StreamId): GroupState {
    GroupState(ms, Group(startId, {}, map[]), [])
  }

  /** Over any run from the creation of a group, nothing delivered gets lost: every id
      is pending exactly if it was delivered and not acknowledged since, for the
      consumer that received it last, and is the id of a message. */
  lemma {:induction false} EveryGroupRunConserves(ms: seq<StreamMessage>, startId: StreamId, steps: seq<GroupStep>)
    requires Sorted(ms)
    ensures var s := TakeSteps(NewGroup(ms, startId), steps);
            && Sorted(s.messages) && Conserves(s.group, s.history) && Registered(s.group)
            && RefersTo(s.group, s.messages, startId)
  {
    if steps != [] {
      hide Conserves, Registered, RefersTo, Put, Page, ReadGroup;
      EveryGroupRunConserves(ms, startId, steps[..|steps| - 1]);
      var s := TakeSteps(NewGroup(ms, startId), steps[..|steps| - 1]);
      match steps[|steps| - 1] {
        case AddMessage(m) =>
          PutKeepsSorted(s.messages, m);
          PutKeepsReferences(s.group, s.messages, m, startId);
        case ReadPage(last, count, consumer, now) =>
          ReadGroupConserves(s.group, s.history, s.messages, startId, last, count, consumer, now);
        case Acknowledge(id) =>
          AckConserves(s.group, s.history, id);
          AckKeepsReferences(s.group, s.messages, id, startId);
      }
    }
  }

  /** A run that shows it: the page of a one-message stream read twice counts one
      delivery where there were two. */
  lemma RereadCountsOne(m: StreamMessage, last: StreamId, c: Str, d: Str, t: int, u: int)
    requires Less(last, m.id)
    ensures var s := TakeSteps(NewGroup([m], last), [ReadPage(last, 1, c, t), ReadPage(last, 1, d, u)]);
            && m.id in s.group.pending && s.group.pending[m.id].deliveryCount == 1
            && Deliveries(s.history, m.id) == 2
  {
    var steps := [ReadPage(last, 1, c, t), ReadPage(last, 1, d, u)];
    assert steps[..1] == [steps[0]] && [steps[0]][..0] == [];
    var s0 := NewGroup([m], last);
    var s1 := TakeStep(s0, steps[0]);
    assert TakeSteps(s0, [steps[0]]) == s1;
    assert Page([m], last, 1) == [m] by { assert After([m], last) == [m] + After([], last); }
    assert s1.history == [Delivered(m.id, c, t)];
    assert s1.history[..0] == [] && Deliveries(s1.history, m.id) == 1;
    var s2 := TakeStep(s1, steps[1]);
    assert s2.history == s1.history + [Delivered(m.id, d, u)];
    assert s2.history[..1] == s1.history;
  }

  lemma AckKeepsReferences(g: Group, ms: seq<StreamMessage>, id: StreamId, startId: StreamId)
    requires RefersTo(g, ms, startId)
    ensures RefersTo(Ack(g, id), ms, startId)
  {
  }

  // ----------------------------------------------------------- acknowledging

  /** The ids of the leading tokens that parse. */
  function ParsedPrefix(tokens: seq<Str>): seq<StreamId> {
    if tokens == [] then []
    else match Parse(tokens[0])
         case Good(id) => [id] + ParsedPrefix(tokens[1..])
         case _ => []
  }

  function AckAll(g: Group, ids: seq<StreamId>): Group
    decreases |ids|
  {
    if ids == [] then g else AckAll(Ack(g, ids[0]), ids[1..])
  }

  lemma {:induction false} AckAllRemoves(g: Group, ids: seq<StreamId>)
    ensures AckAll(g, ids) == g.(pending := g.pending - (set id | id in ids))
    decreases |ids|
  {
    if ids == [] {
      assert g.pending - (set id | id in ids) == g.pending;
    } else {
      AckAllRemoves(Ack(g, ids[0]), ids[1..]);
      assert (set id | id in ids) == {ids[0]} + (set id | id in ids[1..]);
      assert g.pending - {ids[0]} - (set id | id in ids[1..]) == g.pending - (set id | id in ids);
    }
  }

  /** The `j`-th token parses to `id`, and all before it parse. */
  ghost predicate Reaches(tokens: seq<Str>, j: nat, id: StreamId) {
    j < |tokens| && Parse(tokens[j]) == Good(id) && forall i :: 0 <= i < j ==> Parse(tokens[i]).Good?
  }

  /** XACK takes exactly the ids named before the first token that does not parse, and
      changes nothing else of the group. */
  lemma AckedUpToFirstBad(g: Group, tokens: seq<Str>)
    ensures var t := AckAll(g, ParsedPrefix(tokens));
            && t.lastDeliveredId == g.lastDeliveredId && t.consumers == g.consumers
            && (forall id :: id in t.pending <==> id in g.pending && !exists j: nat :: Reaches(tokens, j, id))
            && (forall id :: id in t.pending ==> t.pending[id] == g.pending[id])
  {
    hide Parse, Reaches;
    AckAllRemoves(g, ParsedPrefix(tokens));
    forall id ensures id in ParsedPrefix(tokens) <==> exists j: nat :: Reaches(tokens, j, id) {
      PrefixReaches(tokens, id);
    }
  }

  lemma {:induction false} PrefixReaches(tokens: seq<Str>, id: StreamId)
    ensures id in ParsedPrefix(tokens) <==> exists j: nat :: Reaches(tokens, j, id)
  {
    hide Parse;
    if tokens != [] {
      var rest := tokens[1..];
      PrefixReaches(rest, id);
      if j: nat :| Reaches(tokens, j, id) {
        if j > 0 { assert forall i :: 0 <= i < j - 1 ==> rest[i] == tokens[i + 1]; assert Reaches(rest, j - 1, id); }
      }
      if Parse(tokens[0]).Good? {
        if j: nat :| Reaches(rest, j, id) {
          assert forall i :: 0 < i <= j ==> rest[i - 1] == tokens[i];
          assert Reaches(tokens, j + 1, id);
        }
        if Parse(tokens[0]).value == id { assert Reaches(tokens, 0, id); }
      }
    }
  }
}
