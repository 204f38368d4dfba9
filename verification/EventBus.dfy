/** Process-local fan-out of runtime events: one bounded queue per subscriber, the oldest event of a full
    queue being dropped for the new one. */
module EventBus {
  import opened Wrappers

  datatype Event = Event(id: nat, kind: string, at: string, data: string)

  /** The contents of a queue of capacity `size` after one more event is offered to it. */
  function Offer(items: seq<Event>, event: Event, size: nat): seq<Event> {
    (if items != [] && |items| >= size then items[1..] else items) + [event]
  }

  // ----- runs of the bus -----

  /** A subscriber's queue with its history: the publications before it joined, those up to which it has
      been subscribed, what was taken from it and how many events it lost. */
  datatype Subscriber = Subscriber(live: bool, items: seq<Event>, joined: nat, seen: nat, delivered: seq<Event>,
      dropped: nat)

  /** The bus with everything it has published. */
  datatype Bus = Bus(size: nat, stream: seq<Event>, subscribers: seq<Subscriber>)

  datatype Step =
    | Subscribe
    | Unsubscribe(who: nat)
    | Publish(kind: string, at: string, data: string)
    | Consume(who: nat)

  function Receive(s: Subscriber, event: Event, size: nat): Subscriber {
    if !s.live then s
    else
      var items := Offer(s.items, event, size);
      s.(items := items, seen := s.seen + 1, dropped := s.dropped + |s.items| + 1 - |items|)
  }

  function Take(s: Subscriber): Subscriber {
    if s.items == [] then s else s.(items := s.items[1..], delivered := s.delivered + [s.items[0]])
  }

  function Next(bus: Bus, step: Step): Bus {
    match step
    case Subscribe =>
      bus.(subscribers := bus.subscribers + [Subscriber(true, [], |bus.stream|, |bus.stream|, [], 0)])
    case Unsubscribe(who) =>
      if who >= |bus.subscribers| then bus
      else bus.(subscribers := bus.subscribers[who := bus.subscribers[who].(live := false)])
    case Publish(kind, at, data) =>
      var event := Event(|bus.stream| + 1, kind, at, data);
      Bus(bus.size, bus.stream + [event],
          seq(|bus.subscribers|, i requires 0 <= i < |bus.subscribers| => Receive(bus.subscribers[i], event, bus.size)))
    case Consume(who) =>
      if who < |bus.subscribers| then bus.(subscribers := bus.subscribers[who := Take(bus.subscribers[who])]) else bus
  }

  predicate Numbered(stream: seq<Event>) {
    forall i :: 0 <= i < |stream| ==> stream[i].id == i + 1
  }

  predicate Rising(events: seq<Event>) {
    forall i, j :: 0 <= i < j < |events| ==> events[i].id < events[j].id
  }

  /** Every event was published while the subscriber was there, before `end` of the stream. */
  predicate TakenFrom(events: seq<Event>, stream: seq<Event>, start: nat, end: nat) {
    forall i :: 0 <= i < |events| ==> start < events[i].id <= end <= |stream| && stream[events[i].id - 1] == events[i]
  }

  /** What holds of a subscriber in every reachable state: its queue is the run of publications that ends
      at the latest one it was subscribed for, and everything published is delivered, dropped or queued. */
  predicate Faithful(s: Subscriber, stream: seq<Event>, size: nat) {
    && s.joined <= s.seen <= |stream| && (s.live ==> s.seen == |stream|)
    && |s.items| <= size && |s.items| <= s.seen - s.joined
    && s.items == stream[s.seen - |s.items|..s.seen]
    && |s.delivered| + s.dropped + |s.items| == s.seen - s.joined
    && Rising(s.delivered) && TakenFrom(s.delivered, stream, s.joined, s.seen - |s.items|)
    && (s.dropped == 0 ==> s.delivered + s.items == stream[s.joined..s.seen])
  }

  predicate Inv(bus: Bus) {
    bus.size > 0 && Numbered(bus.stream)
    && forall i :: 0 <= i < |bus.subscribers| ==> Faithful(bus.subscribers[i], bus.stream, bus.size)
  }

  lemma {:induction false} SlicesStay(stream: seq<Event>, event: Event, lo: nat, hi: nat)
    requires lo <= hi <= |stream|
    ensures (stream + [event])[lo..hi] == stream[lo..hi]
  {}

  lemma {:induction false} OfferedSlice(items: seq<Event>, stream: seq<Event>, event: Event, size: nat)
    requires size > 0 && |items| <= size && |items| <= |stream| && items == stream[|stream| - |items|..|stream|]
    ensures var offered := Offer(items, event, size);
            |offered| <= size && |offered| <= |stream| + 1
              && offered == (stream + [event])[|stream| + 1 - |offered|..|stream| + 1]
  {}

  lemma {:induction false} NothingDropped(delivered: seq<Event>, items: seq<Event>, stream: seq<Event>, event: Event,
      joined: nat)
    requires joined <= |stream| && delivered + items == stream[joined..|stream|]
    ensures delivered + (items + [event]) == (stream + [event])[joined..|stream| + 1]
  {
    assert delivered + (items + [event]) == delivered + items + [event];
  }

  lemma {:induction false} TakenFromGrown(events: seq<Event>, stream: seq<Event>, event: Event, start: nat, end: nat,
      later: nat)
    requires TakenFrom(events, stream, start, end) && end <= later <= |stream| + 1
    ensures TakenFrom(events, stream + [event], start, later)
  {}

  lemma {:induction false} ReceiveLive(s: Subscriber, stream: seq<Event>, event: Event, size: nat)
    requires size > 0 && Faithful(s, stream, size) && s.live
    ensures Faithful(Receive(s, event, size), stream + [event], size)
  {
    var items := Offer(s.items, event, size);
    OfferedSlice(s.items, stream, event, size);
    TakenFromGrown(s.delivered, stream, event, s.joined, s.seen - |s.items|, s.seen + 1 - |items|);
    if s.dropped == 0 && |items| == |s.items| + 1 {
      NothingDropped(s.delivered, s.items, stream, event, s.joined);
    }
  }

  /** One publication ends the run of a live queue at the new event. */
  lemma {:induction false} ReceiveIsFaithful(s: Subscriber, stream: seq<Event>, event: Event, size: nat)
    requires size > 0 && Faithful(s, stream, size)
    ensures Faithful(Receive(s, event, size), stream + [event], size)
  {
    if s.live {
      ReceiveLive(s, stream, event, size);
    } else {
      SlicesStay(stream, event, s.seen - |s.items|, s.seen);
      SlicesStay(stream, event, s.joined, s.seen);
      TakenFromGrown(s.delivered, stream, event, s.joined, s.seen - |s.items|, s.seen - |s.items|);
    }
  }

  lemma {:induction false} SliceHead(items: seq<Event>, stream: seq<Event>, lo: nat, hi: nat)
    requires lo < hi <= |stream| && items == stream[lo..hi]
    ensures items[0] == stream[lo] && items[1..] == stream[lo + 1..hi]
  {}

  lemma {:induction false} OneMoreTaken(events: seq<Event>, stream: seq<Event>, start: nat, end: nat)
    requires Numbered(stream) && Rising(events) && TakenFrom(events, stream, start, end) && start <= end < |stream|
    ensures Rising(events + [stream[end]]) && TakenFrom(events + [stream[end]], stream, start, end + 1)
  {}

  lemma {:induction false} HeadMoves(delivered: seq<Event>, items: seq<Event>)
    requires items != []
    ensures delivered + [items[0]] + items[1..] == delivered + items
  {}

  lemma {:induction false} TakeIsFaithful(s: Subscriber, stream: seq<Event>, size: nat)
    requires Numbered(stream) && Faithful(s, stream, size)
    ensures Faithful(Take(s), stream, size)
  {
    if s.items != [] {
      SliceHead(s.items, stream, s.seen - |s.items|, s.seen);
      OneMoreTaken(s.delivered, stream, s.joined, s.seen - |s.items|);
      HeadMoves(s.delivered, s.items);
    }
  }

  lemma {:induction false} NumberedOneMore(stream: seq<Event>, event: Event)
    requires Numbered(stream) && event.id == |stream| + 1
    ensures Numbered(stream + [event])
  {}

  lemma {:induction false} PublishKeepsInv(bus: Bus, kind: string, at: string, data: string)
    requires Inv(bus)
    ensures Inv(Next(bus, Publish(kind, at, data)))
  {
    var event, after := Event(|bus.stream| + 1, kind, at, data), Next(bus, Publish(kind, at, data));
    NumberedOneMore(bus.stream, event);
    forall i | 0 <= i < |after.subscribers| ensures Faithful(after.subscribers[i], after.stream, after.size) {
      ReceiveIsFaithful(bus.subscribers[i], bus.stream, event, bus.size);
    }
  }

  lemma {:induction false} SubscribeKeepsInv(bus: Bus)
    requires Inv(bus)
    ensures Inv(Next(bus, Subscribe))
  {
    assert bus.stream[|bus.stream|..|bus.stream|] == [];
  }

  /** A step that changes one subscriber and keeps it faithful. */
  lemma {:induction false} OneSubscriberKeepsInv(bus: Bus, who: nat, s: Subscriber)
    requires Inv(bus) && who < |bus.subscribers| && Faithful(s, bus.stream, bus.size)
    ensures Inv(bus.(subscribers := bus.subscribers[who := s]))
  {}

  lemma {:induction false} UnsubscribeKeepsInv(bus: Bus, who: nat)
    requires Inv(bus)
    ensures Inv(Next(bus, Unsubscribe(who)))
  {
    if who < |bus.subscribers| {
      OneSubscriberKeepsInv(bus, who, bus.subscribers[who].(live := false));
    }
  }

  lemma {:induction false} ConsumeKeepsInv(bus: Bus, who: nat)
    requires Inv(bus)
    ensures Inv(Next(bus, Consume(who)))
  {
    if who < |bus.subscribers| {
      TakeIsFaithful(bus.subscribers[who], bus.stream, bus.size);
      OneSubscriberKeepsInv(bus, who, Take(bus.subscribers[who]));
    }
  }

  lemma {:induction false} NextKeepsInv(bus: Bus, step: Step)
    requires Inv(bus)
    ensures Inv(Next(bus, step))
  {
    match step
    case Subscribe => SubscribeKeepsInv(bus);
    case Unsubscribe(who) => UnsubscribeKeepsInv(bus, who);
    case Publish(kind, at, data) => PublishKeepsInv(bus, kind, at, data);
    case Consume(who) => ConsumeKeepsInv(bus, who);
  }

  function Run(size: nat, steps: seq<Step>): Bus {
    if steps == [] then Bus(size, [], []) else Next(Run(size, steps[..|steps| - 1]), steps[|steps| - 1])
  }

  /** Every interleaving of subscribe, publish, consume and unsubscribe keeps every subscriber faithful. */
  lemma {:induction false} RunsAreFaithful(size: nat, steps: seq<Step>)
    requires size > 0
    ensures Inv(Run(size, steps)) && Run(size, steps).size == size
  {
    if steps != [] {
      RunsAreFaithful(size, steps[..|steps| - 1]);
      NextKeepsInv(Run(size, steps[..|steps| - 1]), steps[|steps| - 1]);
    }
  }

  /** How many of the steps publish. */
  function Publications(steps: seq<Step>): nat {
    if steps == [] then 0
    else Publications(steps[..|steps| - 1]) + if steps[|steps| - 1].Publish? then 1 else 0
  }

  lemma {:induction false} StreamIsCounted(size: nat, steps: seq<Step>)
    ensures |Run(size, steps).stream| == Publications(steps)
  {
    if steps != [] {
      StreamIsCounted(size, steps[..|steps| - 1]);
    }
  }

  lemma {:induction false} StreamOnlyGrows(bus: Bus, step: Step, n: nat)
    requires n < |bus.stream|
    ensures n < |Next(bus, step).stream| && Next(bus, step).stream[n] == bus.stream[n]
  {}

  /** The n-th publication of a run is the n-th event of its stream: it has the number n and the kind, time
      and data that were published, whatever came after it. */
  lemma {:induction false} EventIsWhatWasPublished(size: nat, steps: seq<Step>, i: nat)
    requires i < |steps| && steps[i].Publish?
    ensures var n, stream := Publications(steps[..i]), Run(size, steps).stream;
            && n < |stream| == Publications(steps) && stream[n].id == n + 1
            && stream[n].kind == steps[i].kind && stream[n].at == steps[i].at && stream[n].data == steps[i].data
  {
    var before := steps[..|steps| - 1];
    StreamIsCounted(size, steps);
    if i < |before| {
      EventIsWhatWasPublished(size, before, i);
      assert before[..i] == steps[..i];
      StreamOnlyGrows(Run(size, before), steps[|steps| - 1], Publications(steps[..i]));
    } else {
      StreamIsCounted(size, before);
    }
  }

  /** How many of the steps subscribe. */
  function Subscriptions(steps: seq<Step>): nat {
    if steps == [] then 0
    else Subscriptions(steps[..|steps| - 1]) + if steps[|steps| - 1].Subscribe? then 1 else 0
  }

  lemma {:induction false} SubscribersAreCounted(size: nat, steps: seq<Step>)
    ensures |Run(size, steps).subscribers| == Subscriptions(steps)
  {
    if steps != [] {
      SubscribersAreCounted(size, steps[..|steps| - 1]);
    }
  }

  lemma {:induction false} StepKeepsMembers(bus: Bus, step: Step, who: nat)
    requires who < |bus.subscribers|
    ensures who < |Next(bus, step).subscribers|
    ensures var before, after := bus.subscribers[who], Next(bus, step).subscribers[who];
            after.joined == before.joined && (after.live <==> before.live && step != Unsubscribe(who))
  {}

  /** The n-th subscription of a run is its n-th subscriber: it is there for what is published from then on,
      as long as it has not unsubscribed. */
  lemma {:induction false} MembershipIsExact(size: nat, steps: seq<Step>, i: nat)
    requires i < |steps| && steps[i].Subscribe?
    ensures var n, subscribers := Subscriptions(steps[..i]), Run(size, steps).subscribers;
            && n < |subscribers| == Subscriptions(steps)
            && subscribers[n].joined == Publications(steps[..i])
            && (subscribers[n].live <==> forall j :: i < j < |steps| ==> steps[j] != Unsubscribe(n))
  {
    var before, last := steps[..|steps| - 1], |steps| - 1;
    SubscribersAreCounted(size, steps);
    if i < last {
      MembershipIsExact(size, before, i);
      assert before[..i] == steps[..i];
      StepKeepsMembers(Run(size, before), steps[last], Subscriptions(steps[..i]));
      assert forall j :: i < j < |before| ==> before[j] == steps[j];
    } else {
      SubscribersAreCounted(size, before);
      StreamIsCounted(size, before);
    }
  }

  /** In the words of a subscriber: the ids in its queue are consecutive and, while it is subscribed, end at
      the latest publication; deliveries strictly increase and come before what is still queued. */
  lemma {:induction false} QueueIsSuffix(size: nat, steps: seq<Step>, who: nat)
    requires size > 0 && who < |Run(size, steps).subscribers|
    ensures var bus := Run(size, steps);
            var s := bus.subscribers[who];
            && |s.items| <= size
            && (forall i :: 0 <= i < |s.items| ==> s.items[i].id == s.seen - |s.items| + 1 + i)
            && (s.live && s.items != [] ==> s.items[|s.items| - 1].id == |bus.stream|)
            && Rising(s.delivered + s.items)
            && s.seen - s.joined == |s.delivered| + s.dropped + |s.items|
  {
    RunsAreFaithful(size, steps);
  }

  function Consumes(who: nat, n: nat): seq<Step> {
    if n == 0 then [] else Consumes(who, n - 1) + [Consume(who)]
  }

  lemma {:induction false} OneMoreStep(size: nat, steps: seq<Step>, step: Step)
    ensures Run(size, steps + [step]) == Next(Run(size, steps), step)
  {
    assert (steps + [step])[..|steps|] == steps;
  }

  /** The subscriber with its first `n` queued events taken. */
  function Taken(s: Subscriber, n: nat): Subscriber
    requires n <= |s.items|
  {
    s.(items := s.items[n..], delivered := s.delivered + s.items[..n])
  }

  lemma {:induction false} TakenOneMore(s: Subscriber, n: nat)
    requires n < |s.items|
    ensures Take(Taken(s, n)) == Taken(s, n + 1)
  {
    assert s.items[..n + 1] == s.items[..n] + [s.items[n]];
    assert s.delivered + s.items[..n] + [s.items[n]] == s.delivered + s.items[..n + 1];
  }

  function Consumed(bus: Bus, who: nat, n: nat): Bus {
    if n == 0 then bus else Next(Consumed(bus, who, n - 1), Consume(who))
  }

  lemma {:induction false} ConsumesRun(size: nat, steps: seq<Step>, who: nat, n: nat)
    ensures Run(size, steps + Consumes(who, n)) == Consumed(Run(size, steps), who, n)
  {
    if n == 0 {
      assert steps + Consumes(who, 0) == steps;
    } else {
      ConsumesRun(size, steps, who, n - 1);
      OneMoreStep(size, steps + Consumes(who, n - 1), Consume(who));
      assert steps + Consumes(who, n) == steps + Consumes(who, n - 1) + [Consume(who)];
    }
  }

  lemma {:induction false} ConsumingMoves(bus: Bus, who: nat, n: nat)
    requires who < |bus.subscribers| && n <= |bus.subscribers[who].items|
    ensures who < |Consumed(bus, who, n).subscribers|
    ensures Consumed(bus, who, n).subscribers[who] == Taken(bus.subscribers[who], n)
  {
    if n == 0 {
      assert Taken(bus.subscribers[who], 0) == bus.subscribers[who];
    } else {
      ConsumingMoves(bus, who, n - 1);
      TakenOneMore(bus.subscribers[who], n - 1);
    }
  }

  /** A subscriber that empties its queue has received the latest publications it was subscribed for,
      without a gap. */
  lemma {:induction false} DrainingCatchesUp(size: nat, steps: seq<Step>, who: nat)
    requires size > 0 && who < |Run(size, steps).subscribers|
    ensures var bus := Run(size, steps);
            var s := bus.subscribers[who];
            var after := Run(size, steps + Consumes(who, |s.items|));
            && |s.items| <= s.seen <= |bus.stream| && (s.live ==> s.seen == |bus.stream|)
            && who < |after.subscribers| && after.subscribers[who].items == []
            && after.subscribers[who].delivered == s.delivered + bus.stream[s.seen - |s.items|..s.seen]
  {
    var bus := Run(size, steps);
    RunsAreFaithful(size, steps);
    ConsumesRun(size, steps, who, |bus.subscribers[who].items|);
    ConsumingMoves(bus, who, |bus.subscribers[who].items|);
  }

  // ----- the bus as a program -----

  /** The ghost fields are the queue's history, as in Subscriber. */
  class BoundedQueue {
    const maxsize: nat
    var items: seq<Event>
    ghost var joined: nat
    ghost var seen: nat
    ghost var delivered: seq<Event>
    ghost var dropped: nat

    constructor (maxsize: nat, ghost published: nat)
      ensures this.maxsize == maxsize && View(true) == Subscriber(true, [], published, published, [], 0)
    {
      this.maxsize := maxsize;
      items := [];
      joined, seen, delivered, dropped := published, published, [], 0;
    }

    ghost function View(live: bool): Subscriber
      reads this
    {
      Subscriber(live, items, joined, seen, delivered, dropped)
    }

    predicate Full()
      reads this
    {
      maxsize > 0 && |items| >= maxsize
    }

    /** None is the empty queue's exception. */
    method GetNowait() returns (event: Option<Event>)
      modifies this`items
      ensures old(items) == [] ==> event == None && items == []
      ensures old(items) != [] ==> event == Some(old(items)[0]) && items == old(items)[1..]
    {
      if items == [] {
        return None;
      }
      event := Some(items[0]);
      items := items[1..];
    }

    /** False is the full queue's exception. */
    method PutNowait(event: Event) returns (ok: bool)
      modifies this`items
      ensures ok == !old(Full())
      ensures items == if ok then old(items) + [event] else old(items)
    {
      if Full() {
        return false;
      }
      items := items + [event];
      return true;
    }

    /** What a publication does to a subscribed queue. */
    method Accept(event: Event)
      requires maxsize > 0 && |items| <= maxsize
      modifies this
      ensures View(true) == Receive(old(View(true)), event, maxsize)
    {
      if Full() {
        var oldest := GetNowait();
        dropped := dropped + 1;
      }
      var ok := PutNowait(event);
      seen := seen + 1;
    }

    /** What its consumer does. */
    method TakeNext() returns (event: Option<Event>)
      modifies this
      ensures View(true) == Take(old(View(true)))
      ensures event == if old(items) == [] then None else Some(old(items)[0])
    {
      event := GetNowait();
      if event.Some? {
        delivered := delivered + [event.value];
      }
    }
  }

  ghost function Views(queues: seq<BoundedQueue>, live: set<BoundedQueue>): (views: seq<Subscriber>)
    reads queues
    ensures |views| == |queues|
    ensures forall i :: 0 <= i < |queues| ==> views[i] == queues[i].View(queues[i] in live)
  {
    seq(|queues|, i requires 0 <= i < |queues| reads queues => queues[i].View(queues[i] in live))
  }

  lemma {:induction false} LeavingOne(queues: seq<BoundedQueue>, live: set<BoundedQueue>, who: nat)
    requires who < |queues| && forall i, j :: 0 <= i < j < |queues| ==> queues[i] != queues[j]
    ensures Views(queues, live - {queues[who]}) == Views(queues, live)[who := Views(queues, live)[who].(live := false)]
  {}

  lemma {:induction false} LeavingNone(queues: seq<BoundedQueue>, live: set<BoundedQueue>, queue: BoundedQueue)
    requires queue !in queues
    ensures Views(queues, live - {queue}) == Views(queues, live)
  {}

  /** `queues` are all queues ever handed out, `stream` is everything published. */
  class RuntimeEventBus {
    const queueSize: nat
    var subscribers: set<BoundedQueue>
    var sequence: nat
    ghost var queues: seq<BoundedQueue>
    ghost var stream: seq<Event>

    constructor (size: nat)
      requires 4 <= size <= 1024
      ensures Valid() && View() == Bus(size, [], []) && fresh(subscribers)
    {
      queueSize := size;
      subscribers, sequence, queues, stream := {}, 0, [], [];
    }

    /** A queue size outside 4 to 1024 is refused. */
    static method Create(size: int) returns (bus: RuntimeEventBus?)
      ensures bus != null <==> 4 <= size <= 1024
      ensures bus != null ==> fresh(bus) && bus.Valid() && bus.View() == Bus(size, [], [])
    {
      if size < 4 || size > 1024 {
        return null;
      }
      bus := new RuntimeEventBus(size);
    }

    ghost function View(): Bus
      reads this, queues
    {
      Bus(queueSize, stream, Views(queues, subscribers))
    }

    ghost predicate Valid()
      reads this, queues
    {
      && 4 <= queueSize <= 1024 && sequence == |stream| && Inv(View())
      && (forall i, j :: 0 <= i < j < |queues| ==> queues[i] != queues[j])
      && (forall q :: q in subscribers ==> q in queues)
      && (forall q :: q in queues ==> q.maxsize == queueSize)
    }

    method Subscribe() returns (queue: BoundedQueue)
      requires Valid()
      modifies this`subscribers, this`queues
      ensures Valid() && View() == Next(old(View()), Step.Subscribe)
      ensures fresh(queue) && queues == old(queues) + [queue] && subscribers == old(subscribers) + {queue}
    {
      SubscribeKeepsInv(View());
      queue := new BoundedQueue(queueSize, |stream|);
      subscribers := subscribers + {queue};
      queues := queues + [queue];
      assert Views(queues, subscribers) == old(Views(queues, subscribers)) + [queue.View(true)];
    }

    /** The bus without the queue among its subscribers. */
    lemma LeavingIsAStep(queue: BoundedQueue)
      requires Valid()
      ensures var left := Bus(queueSize, stream, Views(queues, subscribers - {queue}));
              && Inv(left)
              && (forall who :: 0 <= who < |queues| && queues[who] == queue ==>
                 left == Next(View(), Step.Unsubscribe(who)))
              && (queue !in queues ==> left == View())
    {
      if queue in queues {
        var who :| 0 <= who < |queues| && queues[who] == queue;
        assert forall i :: 0 <= i < |queues| && queues[i] == queue ==> i == who;
        UnsubscribeKeepsInv(View(), who);
        LeavingOne(queues, subscribers, who);
      } else {
        LeavingNone(queues, subscribers, queue);
      }
    }

    /** A queue this bus has not handed out is ignored. */
    method Unsubscribe(queue: BoundedQueue)
      requires Valid()
      modifies this`subscribers
      ensures Valid() && subscribers == old(subscribers) - {queue}
      ensures forall who :: 0 <= who < |queues| && queues[who] == queue ==>
              View() == Next(old(View()), Step.Unsubscribe(who))
      ensures queue !in queues ==> View() == old(View())
    {
      LeavingIsAStep(queue);
      subscribers := subscribers - {queue};
    }

    method Consume(queue: BoundedQueue, ghost who: nat) returns (event: Option<Event>)
      requires Valid() && who < |queues| && queues[who] == queue
      modifies queue
      ensures Valid() && View() == Next(old(View()), Step.Consume(who))
      ensures event == if old(queue.items) == [] then None else Some(old(queue.items)[0])
    {
      ConsumeKeepsInv(View(), who);
      event := queue.TakeNext();
      assert View().subscribers == Next(old(View()), Step.Consume(who)).subscribers;
    }

    lemma SubscribedFit()
      requires Valid()
      ensures forall q :: q in subscribers ==> q.maxsize == queueSize && |q.items| <= queueSize
    {
      forall q | q in subscribers ensures q.maxsize == queueSize && |q.items| <= queueSize {
        var i :| 0 <= i < |queues| && queues[i] == q;
        assert Faithful(View().subscribers[i], stream, queueSize);
      }
    }

    /** Every subscribed queue accepts the event, in any order of the set. */
    method OfferToAll(event: Event)
      requires queueSize > 0 && forall q :: q in subscribers ==> q.maxsize == queueSize && |q.items| <= queueSize
      modifies subscribers
      ensures forall q :: q in subscribers ==> q.View(true) == Receive(old(q.View(true)), event, queueSize)
    {
      var remaining := subscribers;
      while remaining != {}
        invariant remaining <= subscribers
        invariant forall q :: q in remaining ==> q.View(true) == old(q.View(true))
        invariant forall q :: q in subscribers - remaining ==>
                  q.View(true) == Receive(old(q.View(true)), event, queueSize)
        decreases remaining
      {
        var queue :| queue in remaining;
        assert queue.View(true).items == old(queue.View(true)).items;
        queue.Accept(event);
        remaining := remaining - {queue};
      }
    }

    method Publish(kind: string, at: string, data: string)
      requires Valid()
      modifies this`sequence, this`stream, subscribers
      ensures Valid() && View() == Next(old(View()), Step.Publish(kind, at, data))
    {
      ghost var step := Step.Publish(kind, at, data);
      PublishKeepsInv(View(), kind, at, data);
      SubscribedFit();
      sequence := sequence + 1;
      var event := Event(sequence, kind, at, data);
      stream := stream + [event];
      OfferToAll(event);
      ghost var after := Next(old(View()), step);
      forall i | 0 <= i < |queues| ensures View().subscribers[i] == after.subscribers[i] {
        assert after.subscribers[i] == Receive(old(View()).subscribers[i], event, queueSize);
        if queues[i] !in subscribers {
          assert queues[i].View(false) == old(queues[i].View(false));
        }
      }
      assert View().subscribers == after.subscribers;
    }
  }
}
