/** What a run of events has made of the preview-wall client: whether it is closed, its layout, and which
    subscriptions are open. */
module PreviewHistory {
  import opened Wrappers
  import opened PreviewWall

  /** The event ends the open subscription `s`: its own close, the close of the client, or the next
      subscription of its slot. */
  predicate Ends(w: Wall, e: Event, s: nat)
    requires s < |w.entries|
  {
    e == CloseRegistration(s) || (e.CloseClient? && !w.closed)
    || (e.Subscribe? && e.input.slot == w.entries[s].input.slot)
  }

  lemma {:induction false} UpdatingKeepsHistory(w: Wall)
    requires InRange(w)
    ensures var after := UpdateConnection(w);
            after.entries == w.entries && after.closed == w.closed && after.layout == w.layout
  {}

  lemma {:induction false} MessageKeepsHistory(w: Wall, message: Message)
    requires InRange(w)
    ensures var after := HandleMessage(w, message);
            && |after.entries| == |w.entries| && after.closed == w.closed && after.layout == w.layout
            && forall s :: 0 <= s < |w.entries| ==>
                 after.entries[s].input == w.entries[s].input && after.entries[s].closed == w.entries[s].closed
  {}

  /** An open subscription is the one its slot's search finds. */
  lemma {:induction false} OpenIsFound(seed: nat, w: Wall, s: nat)
    requires Inv(seed, w) && s < |w.entries| && !w.entries[s].closed
    ensures var found := FindSlot(w.entries, w.subscriptions, w.entries[s].input.slot);
            found.Some? && w.subscriptions[found.value] == s
  {
    assert s in w.subscriptions;
    var i :| 0 <= i < |w.subscriptions| && w.subscriptions[i] == s;
  }

  lemma {:induction false} SubscribingIsHistory(seed: nat, w: Wall, input: Input, s: nat)
    requires Inv(seed, w) && s < |w.entries|
    ensures var after := DoSubscribe(w, input);
            && |after.entries| == |w.entries| + 1 && after.closed == w.closed && after.layout == w.layout
            && after.entries[|w.entries|].input == input && !after.entries[|w.entries|].closed
            && after.entries[s].input == w.entries[s].input
            && (after.entries[s].closed <==> w.entries[s].closed || w.entries[s].input.slot == input.slot)
  {
    var found := FindSlot(w.entries, w.subscriptions, input.slot);
    if found.None? {
      UpdatingKeepsHistory(AddedSlot(w, input));
      assert !w.entries[s].closed ==> s in w.subscriptions;
    } else {
      UpdatingKeepsHistory(ReplacedSlot(w, input, found.value));
      if !w.entries[s].closed && w.entries[s].input.slot == input.slot {
        OpenIsFound(seed, w, s);
      }
    }
  }

  lemma {:induction false} FirstSubscription(w: Wall, input: Input)
    requires InRange(w)
    ensures var after := DoSubscribe(w, input);
            && |after.entries| == |w.entries| + 1 && after.closed == w.closed && after.layout == w.layout
            && after.entries[|w.entries|].input == input && !after.entries[|w.entries|].closed
  {
    var found := FindSlot(w.entries, w.subscriptions, input.slot);
    if found.None? {
      UpdatingKeepsHistory(AddedSlot(w, input));
    } else {
      UpdatingKeepsHistory(ReplacedSlot(w, input, found.value));
    }
  }

  lemma {:induction false} RegistrationIsHistory(w: Wall, serial: nat)
    requires InRange(w) && serial < |w.entries|
    ensures var after := DoCloseRegistration(w, serial);
            && |after.entries| == |w.entries| && after.closed == w.closed && after.layout == w.layout
            && forall s :: 0 <= s < |w.entries| ==>
                 && after.entries[s].input == w.entries[s].input
                 && (after.entries[s].closed <==> w.entries[s].closed || s == serial)
  {
    if !w.entries[serial].closed {
      var found := FindSlot(w.entries, w.subscriptions, w.entries[serial].input.slot);
      var holds := found.Some? && w.subscriptions[found.value] == serial;
      UpdatingKeepsHistory(
        w.(entries := w.entries[serial := Retire(w.entries[serial])],
           subscriptions := if holds then RemoveAt(w.subscriptions, found.value) else w.subscriptions));
    }
  }

  lemma {:induction false} ClosingIsHistory(seed: nat, w: Wall)
    requires Inv(seed, w)
    ensures var after := DoCloseClient(w);
            && |after.entries| == |w.entries| && after.closed && after.layout == w.layout
            && forall s :: 0 <= s < |w.entries| ==>
                 && after.entries[s].input == w.entries[s].input
                 && (after.entries[s].closed <==> w.entries[s].closed || !w.closed)
  {
    if !w.closed {
      RetireAllFacts(w.entries, w.subscriptions);
      forall s | 0 <= s < |w.entries| ensures w.entries[s].closed || s in w.subscriptions {
      }
    }
  }

  /** One event: the flag, the layout and the number of subscriptions. */
  lemma {:induction false} StepIsHistory(seed: nat, w: Wall, e: Event)
    requires Inv(seed, w)
    ensures var after := Step(w, e);
            && (after.closed <==> w.closed || e.CloseClient?)
            && after.layout == (if e.SetLayout? then e.slots else w.layout)
            && |after.entries| == |w.entries| + (if e.Subscribe? then 1 else 0)
            && (e.Subscribe? ==>
                  after.entries[|w.entries|].input == e.input && !after.entries[|w.entries|].closed)
  {
    match e
    case SetLayout(slots) => UpdatingKeepsHistory(w.(layout := slots));
    case Subscribe(input) => FirstSubscription(w, input);
    case CloseRegistration(serial) => if serial < |w.entries| { RegistrationIsHistory(w, serial); }
    case CloseClient => ClosingIsHistory(seed, w);
    case Received(k, message) => MessageKeepsHistory(w, message);
    case _ =>
  }

  lemma {:induction false} LayoutKeepsEntries(w: Wall, slots: Option<nat>)
    requires InRange(w)
    ensures Step(w, SetLayout(slots)).entries == w.entries
  {
    UpdatingKeepsHistory(w.(layout := slots));
  }

  /** One event and one subscription. */
  lemma {:induction false} StepIsEntryHistory(seed: nat, w: Wall, e: Event, s: nat)
    requires Inv(seed, w) && s < |w.entries|
    ensures var after := Step(w, e);
            && s < |after.entries| && after.entries[s].input == w.entries[s].input
            && (after.entries[s].closed <==> w.entries[s].closed || Ends(w, e, s))
  {
    match e
    case SetLayout(slots) => LayoutKeepsEntries(w, slots);
    case Subscribe(input) => SubscribingIsHistory(seed, w, input, s);
    case CloseRegistration(serial) => if serial < |w.entries| { RegistrationIsHistory(w, serial); }
    case CloseClient => ClosingIsHistory(seed, w);
    case Received(k, message) => MessageKeepsHistory(w, message);
    case _ =>
  }

  // ----- over runs -----

  predicate NeverSet(events: seq<Event>) {
    forall j :: 0 <= j < |events| ==> !events[j].SetLayout?
  }

  predicate SetLastAt(events: seq<Event>, i: nat, layout: Option<nat>) {
    i < |events| && events[i] == SetLayout(layout) && forall j :: i < j < |events| ==> !events[j].SetLayout?
  }

  /** The layout was set last, or none ever was and it is none. */
  predicate IsLastSet(events: seq<Event>, layout: Option<nat>) {
    (layout == None && NeverSet(events)) || exists i :: 0 <= i < |events| && SetLastAt(events, i, layout)
  }

  lemma {:induction false} LastSet(events: seq<Event>, e: Event, layout: Option<nat>)
    ensures IsLastSet(events + [e], layout) <==>
            if e.SetLayout? then e == SetLayout(layout) else IsLastSet(events, layout)
  {
    var all := events + [e];
    assert forall j :: 0 <= j < |events| ==> all[j] == events[j];
    assert all[|events|] == e;
    assert NeverSet(all) <==> NeverSet(events) && !e.SetLayout?;
    assert SetLastAt(all, |events|, layout) <==> e == SetLayout(layout);
    forall i | 0 <= i < |events| ensures SetLastAt(all, i, layout) <==> SetLastAt(events, i, layout) && !e.SetLayout? {
    }
  }

  /** The client is closed exactly when it was told to close, and its layout is the one set last. */
  lemma {:induction false} FlagsAreExact(seed: nat, events: seq<Event>, layout: Option<nat>)
    ensures Play(seed, events).closed <==> CloseClient in events
    ensures Play(seed, events).layout == layout <==> IsLastSet(events, layout)
  {
    if events != [] {
      var before, e := events[..|events| - 1], events[|events| - 1];
      FlagsAreExact(seed, before, layout);
      StepIsHistory(seed, Play(seed, before), e);
      assert events == before + [e];
      LastSet(before, e, layout);
    }
  }

  /** How many of the events subscribe. */
  function Subscribed(events: seq<Event>): nat {
    if events == [] then 0
    else Subscribed(events[..|events| - 1]) + if events[|events| - 1].Subscribe? then 1 else 0
  }

  lemma {:induction false} SubscriptionsAreCounted(seed: nat, events: seq<Event>)
    ensures |Play(seed, events).entries| == Subscribed(events)
  {
    if events != [] {
      SubscriptionsAreCounted(seed, events[..|events| - 1]);
      StepIsHistory(seed, Play(seed, events[..|events| - 1]), events[|events| - 1]);
    }
  }

  /** The event at `j` ends the subscription `s` of the slot, if it is open: its own close, the first close of
      the client, or a new subscription of the slot. */
  predicate Closes(events: seq<Event>, j: nat, s: nat, slot: int)
    requires j < |events|
  {
    events[j] == CloseRegistration(s) || (events[j] == CloseClient && CloseClient !in events[..j])
    || (events[j].Subscribe? && events[j].input.slot == slot)
  }

  predicate ClosedAfter(events: seq<Event>, i: nat, s: nat, slot: int) {
    exists j :: i < j < |events| && Closes(events, j, s, slot)
  }

  lemma {:induction false} ClosedBefore(events: seq<Event>, i: nat, s: nat, slot: int)
    requires i < |events| - 1
    ensures ClosedAfter(events, i, s, slot) <==>
              Closes(events, |events| - 1, s, slot) || ClosedAfter(events[..|events| - 1], i, s, slot)
  {
    var n, before := |events| - 1, events[..|events| - 1];
    forall j | 0 <= j < n ensures Closes(before, j, s, slot) <==> Closes(events, j, s, slot) {
      assert before[..j] == events[..j];
    }
  }

  lemma {:induction false} LastEventCloses(seed: nat, events: seq<Event>, s: nat, slot: int)
    requires events != []
    requires var w := Play(seed, events[..|events| - 1]); s < |w.entries| && w.entries[s].input.slot == slot
    ensures var w, e := Play(seed, events[..|events| - 1]), events[|events| - 1];
            Ends(w, e, s) <==> Closes(events, |events| - 1, s, slot)
  {
    FlagsAreExact(seed, events[..|events| - 1], None);
  }

  predicate OpenExactly(w: Wall, events: seq<Event>, i: nat, s: nat, input: Input) {
    && s < |w.entries| && w.entries[s].input == input
    && (w.entries[s].closed <==> ClosedAfter(events, i, s, input.slot))
  }

  lemma {:induction false} OneMoreEvent(seed: nat, events: seq<Event>, i: nat, s: nat, input: Input)
    requires i < |events| - 1
    requires OpenExactly(Play(seed, events[..|events| - 1]), events[..|events| - 1], i, s, input)
    ensures OpenExactly(Play(seed, events), events, i, s, input)
  {
    StepIsEntryHistory(seed, Play(seed, events[..|events| - 1]), events[|events| - 1], s);
    LastEventCloses(seed, events, s, input.slot);
    ClosedBefore(events, i, s, input.slot);
  }

  lemma {:induction false} LastSubscription(seed: nat, events: seq<Event>)
    requires events != [] && events[|events| - 1].Subscribe?
    ensures OpenExactly(Play(seed, events), events, |events| - 1, Subscribed(events[..|events| - 1]),
              events[|events| - 1].input)
  {
    var before := events[..|events| - 1];
    SubscriptionsAreCounted(seed, before);
    StepIsHistory(seed, Play(seed, before), events[|events| - 1]);
  }

  /** The n-th call of subscribe makes the n-th subscription, which is open until its own close, the first
      close of the client, or the next subscription of its slot, and never opens again. */
  lemma {:induction false} SubscriptionIsOpenExactly(seed: nat, events: seq<Event>, i: nat)
    requires i < |events| && events[i].Subscribe?
    ensures var s, w := Subscribed(events[..i]), Play(seed, events);
            && s < |w.entries| && w.entries[s].input == events[i].input
            && (w.entries[s].closed <==> ClosedAfter(events, i, s, events[i].input.slot))
  {
    if i == |events| - 1 {
      LastSubscription(seed, events);
    } else {
      var before := events[..|events| - 1];
      assert before[..i] == events[..i];
      SubscriptionIsOpenExactly(seed, before, i);
      OneMoreEvent(seed, events, i, Subscribed(events[..i]), events[i].input);
    }
  }

  /** When its socket opens, the client sends a sync on it in the next microtask: what LastSyncIsCurrent says
      of the last sync sent then holds of one. */
  lemma {:induction false} OpenedSocketIsSynced(seed: nat, events: seq<Event>, k: nat)
    requires var w := Play(seed, events);
             w.socket == Some(k) && k < |w.sockets| && w.sockets[k].ready == Connecting
    ensures var w, after := Play(seed, events), Play(seed, events + [Opened(k)] + [MicrotaskRan]);
            && after.socket == Some(k) && k < |after.sockets| && after.sockets[k].ready == Open && !after.syncQueued
            && |after.sockets[k].sent| == |w.sockets[k].sent| + 1
  {
    var opening := events + [Opened(k)];
    assert opening[..|events|] == events && opening[|events|] == Opened(k);
    var all := opening + [MicrotaskRan];
    assert all[..|opening|] == opening && all[|opening|] == MicrotaskRan;
    assert Play(seed, opening).sockets[k].sent == Play(seed, events).sockets[k].sent;
  }

  /** When the reconnect is due, a new socket takes the place of the timer. */
  lemma {:induction false} TimerConnects(seed: nat, events: seq<Event>)
    requires Play(seed, events).timer.Some?
    ensures var w, after := Play(seed, events), Play(seed, events + [TimerFired]);
            && after.timer == None && after.socket == Some(|w.sockets|) && |after.sockets| == |w.sockets| + 1
            && after.sockets[|w.sockets|].ready == Connecting
  {
    assert (events + [TimerFired])[..|events|] == events;
  }

  lemma {:induction false} UpdatingSendsNothing(w: Wall, before: Wall, k: nat)
    requires InRange(w) && w.sockets == before.sockets && k < |w.sockets|
    ensures var after := UpdateConnection(w).sockets; k < |after| && after[k].sent == before.sockets[k].sent
  {}

  lemma {:induction false} RegistrationSendsNothing(w: Wall, serial: nat, k: nat)
    requires InRange(w) && serial < |w.entries| && k < |w.sockets|
    ensures var after := DoCloseRegistration(w, serial).sockets; k < |after| && after[k].sent == w.sockets[k].sent
  {
    if !w.entries[serial].closed {
      var found := FindSlot(w.entries, w.subscriptions, w.entries[serial].input.slot);
      var holds := found.Some? && w.subscriptions[found.value] == serial;
      UpdatingSendsNothing(
        w.(entries := w.entries[serial := Retire(w.entries[serial])],
           subscriptions := if holds then RemoveAt(w.subscriptions, found.value) else w.subscriptions), w, k);
    }
  }

  lemma {:induction false} SubscribingSendsNothing(w: Wall, input: Input, k: nat)
    requires InRange(w) && k < |w.sockets|
    ensures var after := DoSubscribe(w, input).sockets; k < |after| && after[k].sent == w.sockets[k].sent
  {
    var found := FindSlot(w.entries, w.subscriptions, input.slot);
    if found.None? {
      UpdatingSendsNothing(AddedSlot(w, input), w, k);
    } else {
      UpdatingSendsNothing(ReplacedSlot(w, input, found.value), w, k);
    }
  }

  lemma {:induction false} MessageSendsNothing(w: Wall, message: Message)
    requires InRange(w)
    ensures HandleMessage(w, message).sockets == w.sockets
  {}

  lemma {:induction false} CallSendsNothing(w: Wall, e: Event, k: nat)
    requires InRange(w) && k < |w.sockets| && !e.MicrotaskRan?
    ensures var after := Step(w, e).sockets; k < |after| && after[k].sent == w.sockets[k].sent
  {
    match e
    case SetLayout(slots) => UpdatingSendsNothing(w.(layout := slots), w, k);
    case Subscribe(input) => SubscribingSendsNothing(w, input, k);
    case CloseRegistration(serial) => if serial < |w.entries| { RegistrationSendsNothing(w, serial, k); }
    case Received(_, message) => MessageSendsNothing(w, message);
    case _ =>
  }

  /** Syncs are coalesced: one is sent by a microtask that was queued, on the open current socket, and by
      nothing else; however often the subscriptions change before, it is one. */
  lemma {:induction false} SendsExactly(seed: nat, w: Wall, e: Event, k: nat)
    requires Inv(seed, w) && k < |w.sockets|
    ensures var after := Step(w, e);
            && k < |after.sockets| && |after.sockets[k].sent| == |w.sockets[k].sent|
               + (if e.MicrotaskRan? && w.syncQueued && w.socket == Some(k) && w.sockets[k].ready == Open then 1 else 0)
            && w.sockets[k].sent <= after.sockets[k].sent && (e.MicrotaskRan? ==> !after.syncQueued)
  {
    if !e.MicrotaskRan? {
      CallSendsNothing(w, e, k);
    }
  }
}
