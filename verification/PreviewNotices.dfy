/** What the preview wall tells its listeners, from the bytes and texts it receives: over every run each
    notice has its message, and each message its notice. */
module PreviewNotices {
  import opened Wrappers
  import opened PreviewWall

  /** A binary message of version 1: slot, subscription id in network byte order, and a JPEG. */
  predicate IsFrame(data: seq<byte>, slot: int, id: nat) {
    && 10 <= |data| <= 2_097_158 && data[0] == 1 && data[1] as int == slot
    && data[2] as int * 16_777_216 + data[3] as int * 65_536 + data[4] as int * 256 + data[5] as int == id
    && data[6] == 0xff && data[7] == 0xd8 && data[|data| - 2] == 0xff && data[|data| - 1] == 0xd9
  }

  lemma {:induction false} FrameTagIsExact(data: seq<byte>, slot: int, id: nat)
    ensures FrameTag(data) == Some((slot, id)) <==> IsFrame(data, slot, id)
  {
    if |data| >= 6 {
      var a, b, c, d := data[2] as int, data[3] as int, data[4] as int, data[5] as int;
      assert Uint32(data[2], data[3], data[4], data[5]) == a * 16_777_216 + b * 65_536 + c * 256 + d;
    }
  }

  /** The message is about this open subscription: it carries its slot and its id. */
  predicate Addresses(w: Wall, message: Message, serial: nat, kind: Kind) {
    && serial < |w.entries| && !w.entries[serial].closed
    && var slot, id := w.entries[serial].input.slot, w.entries[serial].id;
       match kind
       case Ready => message == Text(ReadyFor(slot, id))
       case Failed => message == Text(ErrorFor(slot, id))
       case Frame(jpeg) => message.Binary? && IsFrame(message.data, slot, id) && jpeg == message.data[6..]
       case Reconnecting => false
  }

  ghost predicate Unaddressed(w: Wall, message: Message) {
    forall serial: nat, kind :: !Addresses(w, message, serial, kind)
  }

  /** The open subscriptions, each once. */
  ghost predicate AreTheOpen(w: Wall, serials: seq<nat>) {
    NoRepeats(serials) && forall s: nat :: s in serials <==> s < |w.entries| && !w.entries[s].closed
  }

  /** What the listeners are told in one event; only the client's current socket is listened to. */
  ghost predicate Tells(w: Wall, e: Event, told: seq<Notice>) {
    match e
    case Received(k, message) =>
      if w.socket != Some(k) then told == []
      else if message == Text(Fatal) then |told| == 1 && told[0].ToAll? && told[0].kind == Failed
                                          && AreTheOpen(w, told[0].serials)
      else if Unaddressed(w, message) then told == []
      else |told| == 1 && told[0].ToOne? && Addresses(w, message, told[0].serial, told[0].kind)
    case SocketClosed(k) =>
      if w.socket == Some(k) && k < |w.sockets| && w.sockets[k].ready != Closed
      then |told| == 1 && told[0].ToAll? && told[0].kind == Reconnecting && AreTheOpen(w, told[0].serials)
      else told == []
    case _ => told == []
  }

  /** Reconnects announced since a message last reached a subscription. */
  function Reconnects(notices: seq<Notice>): nat {
    if notices == [] then 0
    else
      var last := notices[|notices| - 1];
      if last.ToOne? then 0
      else Reconnects(notices[..|notices| - 1]) + if last.kind == Reconnecting then 1 else 0
  }

  // ----- one event -----

  lemma {:induction false} OnlyOneAddressed(seed: nat, w: Wall, message: Message, serial: nat, other: nat, kind: Kind,
      otherKind: Kind)
    requires Inv(seed, w) && Addresses(w, message, serial, kind) && Addresses(w, message, other, otherKind)
    ensures serial == other && kind == otherKind
  {
    var at := OpenSlotIsFound(w, serial);
    var also := OpenSlotIsFound(w, other);
  }

  lemma {:induction false} OpenIsAddressee(seed: nat, w: Wall, serial: nat)
    requires Inv(seed, w) && serial < |w.entries| && !w.entries[serial].closed
    ensures Addressee(w, w.entries[serial].input.slot, w.entries[serial].id) == Some(serial)
  {
    var at := OpenSlotIsFound(w, serial);
  }

  /** A message about a subscription tells its listener, and only it, and ends the run of reconnects. */
  lemma {:induction false} AddressedIsTold(seed: nat, w: Wall, k: nat, message: Message, serial: nat, kind: Kind)
    requires Inv(seed, w) && Heard(w, k) && Addresses(w, message, serial, kind)
    ensures var after := Step(w, Received(k, message));
            && after.notices == w.notices + [ToOne(serial, kind)] && after.attempt == 0 && after.timer == w.timer
  {
    OpenIsAddressee(seed, w, serial);
    if message.Binary? {
      FrameTagIsExact(message.data, w.entries[serial].input.slot, w.entries[serial].id);
    }
  }

  lemma {:induction false} AddresseeIsOpen(seed: nat, w: Wall, slot: int, id: int)
    requires Inv(seed, w) && Addressee(w, slot, id).Some?
    ensures var serial := Addressee(w, slot, id).value;
            && serial < |w.entries| && !w.entries[serial].closed
            && w.entries[serial].input.slot == slot && w.entries[serial].id == id
  {}

  /** Any other message, but for a fatal one, changes nothing. */
  lemma {:induction false} UnaddressedIsIgnored(seed: nat, w: Wall, k: nat, message: Message)
    requires Inv(seed, w) && Heard(w, k) && message != Text(Fatal) && Unaddressed(w, message)
    ensures Step(w, Received(k, message)) == w
  {
    match message
    case Text(ReadyFor(slot, id)) =>
      if Addressee(w, slot, id).Some? {
        AddresseeIsOpen(seed, w, slot, id);
        assert Addresses(w, message, Addressee(w, slot, id).value, Ready);
      }
    case Text(ErrorFor(slot, id)) =>
      if Addressee(w, slot, id).Some? {
        AddresseeIsOpen(seed, w, slot, id);
        assert Addresses(w, message, Addressee(w, slot, id).value, Failed);
      }
    case Binary(data) =>
      if FrameTag(data).Some? {
        var (slot, id) := FrameTag(data).value;
        FrameTagIsExact(data, slot, id);
        if Addressee(w, slot, id).Some? {
          AddresseeIsOpen(seed, w, slot, id);
          assert Addresses(w, message, Addressee(w, slot, id).value, Frame(data[6..]));
        }
      }
    case _ =>
  }

  lemma {:induction false} OpenSerialsAreAll(entries: seq<Entry>, subscriptions: seq<nat>)
    requires Known(entries, subscriptions)
    requires forall i :: 0 <= i < |subscriptions| ==> !entries[subscriptions[i]].closed
    ensures OpenSerials(entries, subscriptions) == subscriptions
  {
    if subscriptions != [] {
      OpenSerialsAreAll(entries, subscriptions[..|subscriptions| - 1]);
    }
  }

  lemma {:induction false} BroadcastReachesTheOpen(seed: nat, w: Wall)
    requires Inv(seed, w)
    ensures OpenSerials(w.entries, w.subscriptions) == w.subscriptions && AreTheOpen(w, w.subscriptions)
  {
    assert forall i :: 0 <= i < |w.subscriptions| ==> w.subscriptions[i] in w.subscriptions;
    OpenSerialsAreAll(w.entries, w.subscriptions);
  }

  /** The wait before the `n`th reconnect in a row. */
  function Backoff(n: nat): nat {
    [1000, 2000, 4000, 8000, 15000][if n < 4 then n else 4]
  }

  lemma {:induction false} SocketMeansActive(seed: nat, w: Wall)
    requires Inv(seed, w) && w.socket.Some?
    ensures Active(w) && w.timer == None
  {}

  lemma {:induction false} ClosingSchedules(w: Wall, k: nat)
    requires InRange(w) && Heard(w, k) && w.sockets[k].ready != Closed && Active(w) && w.timer == None
    ensures var after := Step(w, SocketClosed(k));
            && after.notices == w.notices + [ToAll(OpenSerials(w.entries, w.subscriptions), Reconnecting)]
            && after.attempt == w.attempt + 1 && after.timer == Some(Backoff(w.attempt)) && after.socket == None
  {}

  /** When its socket closes the client tells every open subscription, and waits longer each time in a row. */
  lemma {:induction false} ClosingIsTold(seed: nat, w: Wall, k: nat)
    requires Inv(seed, w) && Heard(w, k) && w.sockets[k].ready != Closed
    ensures var after := Step(w, SocketClosed(k));
            && after.notices == w.notices + [ToAll(w.subscriptions, Reconnecting)] && AreTheOpen(w, w.subscriptions)
            && after.attempt == w.attempt + 1 && after.timer == Some(Backoff(w.attempt)) && after.socket == None
  {
    BroadcastReachesTheOpen(seed, w);
    SocketMeansActive(seed, w);
    ClosingSchedules(w, k);
  }

  predicate Quiet(w: Wall, after: Wall) {
    after.notices == w.notices && after.attempt == w.attempt && (after.timer == w.timer || after.timer == None)
  }

  lemma {:induction false} ConnectingIsQuiet(w: Wall)
    requires InRange(w)
    ensures Quiet(w, UpdateConnection(w))
  {}

  lemma {:induction false} SubscribingIsQuiet(w: Wall, input: Input)
    requires InRange(w)
    ensures Quiet(w, DoSubscribe(w, input))
  {}

  lemma {:induction false} ClosingARegistrationIsQuiet(w: Wall, serial: nat)
    requires InRange(w) && serial < |w.entries|
    ensures Quiet(w, DoCloseRegistration(w, serial))
  {}

  lemma {:induction false} SocketEventsAreQuiet(w: Wall, e: Event)
    requires InRange(w) && (e.Opened? || e.PeerClosing? || e.TimerFired? || e.MicrotaskRan? || e.CloseClient?)
    ensures Quiet(w, Step(w, e))
  {}

  lemma {:induction false} QuietEvents(w: Wall, e: Event)
    requires InRange(w) && !e.Received?
    requires e.SocketClosed? ==> !(Heard(w, e.k) && w.sockets[e.k].ready != Closed)
    ensures Quiet(w, Step(w, e))
  {
    match e
    case SetLayout(slots) => ConnectingIsQuiet(w.(layout := slots));
    case Subscribe(input) => SubscribingIsQuiet(w, input);
    case CloseRegistration(serial) =>
      if serial < |w.entries| {
        ClosingARegistrationIsQuiet(w, serial);
      }
    case SocketClosed(k) =>
    case _ => SocketEventsAreQuiet(w, e);
  }

  /** What an event makes of the count of reconnects in a row. */
  function Counted(attempt: nat, told: seq<Notice>): nat {
    if told == [] then attempt
    else if told[0].ToOne? then 0
    else if told[0].kind == Reconnecting then attempt + 1
    else attempt
  }

  lemma {:induction false} MessageTells(seed: nat, w: Wall, k: nat, message: Message) returns (told: seq<Notice>)
    requires Inv(seed, w) && Heard(w, k)
    ensures Tells(w, Received(k, message), told) && |told| <= 1
    ensures var after := Step(w, Received(k, message));
            && after.notices == w.notices + told && after.attempt == Counted(w.attempt, told)
            && after.timer == w.timer
  {
    if message == Text(Fatal) {
      BroadcastReachesTheOpen(seed, w);
      told := [ToAll(w.subscriptions, Failed)];
    } else if Unaddressed(w, message) {
      UnaddressedIsIgnored(seed, w, k, message);
      told := [];
      assert w.notices + [] == w.notices;
    } else {
      var serial: nat, kind :| Addresses(w, message, serial, kind);
      AddressedIsTold(seed, w, k, message, serial, kind);
      told := [ToOne(serial, kind)];
    }
  }

  /** Every event tells the listeners exactly what it should, and keeps count of the reconnects in a row. */
  lemma {:induction false} StepTells(seed: nat, w: Wall, e: Event) returns (told: seq<Notice>)
    requires Inv(seed, w)
    ensures Tells(w, e, told) && |told| <= 1
    ensures var after := Step(w, e);
            && after.notices == w.notices + told && after.attempt == Counted(w.attempt, told)
            && (after.timer == w.timer || after.timer == None
                || (after.timer == Some(Backoff(w.attempt)) && after.attempt == w.attempt + 1))
  {
    if e.Received? && Heard(w, e.k) {
      told := MessageTells(seed, w, e.k, e.message);
    } else if e.SocketClosed? && Heard(w, e.k) && w.sockets[e.k].ready != Closed {
      ClosingIsTold(seed, w, e.k);
      told := [ToAll(w.subscriptions, Reconnecting)];
    } else {
      told := [];
      assert w.notices + [] == w.notices;
      if !e.Received? {
        QuietEvents(w, e);
      }
    }
  }

  // ----- whole runs -----

  function Flattened(told: seq<seq<Notice>>): seq<Notice> {
    if told == [] then [] else Flattened(told[..|told| - 1]) + told[|told| - 1]
  }

  /** Over every run the listeners have been told, in order, exactly what each event tells them. */
  lemma {:induction false} ListenersAreTold(seed: nat, events: seq<Event>) returns (told: seq<seq<Notice>>)
    ensures |told| == |events| && Play(seed, events).notices == Flattened(told)
    ensures forall i :: 0 <= i < |events| ==> Tells(Play(seed, events[..i]), events[i], told[i])
  {
    if events == [] {
      told := [];
    } else {
      var n := |events| - 1;
      var earlier := ListenersAreTold(seed, events[..n]);
      var last := StepTells(seed, Play(seed, events[..n]), events[n]);
      told := earlier + [last];
      assert told[..n] == earlier;
      forall i | 0 <= i <= n ensures Tells(Play(seed, events[..i]), events[i], told[i]) {
        if i < n {
          assert events[..n][..i] == events[..i];
        }
      }
    }
  }

  lemma {:induction false} CountGoesOn(notices: seq<Notice>, told: seq<Notice>)
    requires |told| <= 1
    ensures Reconnects(notices + told) == Counted(Reconnects(notices), told)
  {
    if told == [] {
      assert notices + told == notices;
    } else {
      assert (notices + told)[..|notices|] == notices;
    }
  }

  /** While a reconnect is pending no message is heard and no closing counts. */
  lemma {:induction false} PendingIsUnheard(seed: nat, w: Wall, e: Event)
    requires Inv(seed, w)
    ensures w.timer.Some? ==> Step(w, e).attempt == w.attempt
  {}

  /** The attempts are counted since a message last reached a subscription, and a pending reconnect waits as
      long as that count says. */
  lemma {:induction false} BackoffIsExact(seed: nat, events: seq<Event>)
    ensures var w := Play(seed, events);
            && w.attempt == Reconnects(w.notices)
            && (w.timer.Some? ==> w.attempt > 0 && w.timer == Some(Backoff(w.attempt - 1)))
  {
    if events != [] {
      var n := |events| - 1;
      var before := Play(seed, events[..n]);
      BackoffIsExact(seed, events[..n]);
      var told := StepTells(seed, before, events[n]);
      CountGoesOn(before.notices, told);
      PendingIsUnheard(seed, before, events[n]);
    }
  }
}
