/** The preview-wall client on values: subscriptions per slot, one socket, a reconnect timer and a
    coalesced sync, driven by API calls and browser events in any order. Listeners do not call back
    into the client. */
module PreviewWall {
  import opened Wrappers
  import opened Sorting

  const ID_SPACE := 0x1_0000_0000

  const MAX_FRAME := 6 + 2 * 1024 * 1024

  type byte = b: int | 0 <= b < 256

  datatype Input = Input(slot: int, cameraId: string, mediaSessionId: string)

  /** `resolutions` lists the calls of the subscription's firstFrame resolver. */
  datatype Entry = Entry(input: Input, id: nat, resolutions: seq<bool>, settled: bool, closed: bool)

  datatype ReadyState = Connecting | Open | Closing | Closed

  datatype Stream = Stream(slot: int, id: nat, cameraId: string, mediaSessionId: string)

  datatype Sync = Sync(layout: nat, streams: seq<Stream>)

  /** `attached` tells whether the client's handlers are still installed. */
  datatype Socket = Socket(ready: ReadyState, attached: bool, sent: seq<Sync>)

  /** What a listener is told; a frame comes with its JPEG. */
  datatype Kind = Frame(jpeg: seq<byte>) | Ready | Failed | Reconnecting

  datatype Notice = ToOne(serial: nat, kind: Kind) | ToAll(serials: seq<nat>, kind: Kind)

  /** `entries` are all subscriptions ever made, by serial number; `subscriptions` are the serials in the
      slot map, in its order; `timer` is the delay of the pending reconnect. */
  datatype Wall = Wall(
    entries: seq<Entry>, subscriptions: seq<nat>, layout: Option<nat>, socket: Option<nat>, sockets: seq<Socket>,
    closed: bool, syncQueued: bool, attempt: nat, timer: Option<nat>, nextId: nat, notices: seq<Notice>)

  datatype Payload = Irrelevant | Fatal | ReadyFor(slot: int, id: int) | ErrorFor(slot: int, id: int)

  datatype Message = Text(payload: Payload) | Binary(data: seq<byte>)

  datatype Event =
    | SetLayout(slots: Option<nat>)
    | Subscribe(input: Input)
    | CloseRegistration(serial: nat)
    | CloseClient
    | Opened(k: nat)
    | Received(k: nat, message: Message)
    | PeerClosing(k: nat)
    | SocketClosed(k: nat)
    | TimerFired
    | MicrotaskRan

  // ----- the slot map -----

  predicate Known(entries: seq<Entry>, serials: seq<nat>) {
    forall i :: 0 <= i < |serials| ==> serials[i] < |entries|
  }

  predicate InRange(w: Wall) {
    && Known(w.entries, w.subscriptions)
    && (w.socket.Some? ==> w.socket.value < |w.sockets|)
  }

  /** Position of the subscription holding `slot`. */
  function FindSlot(entries: seq<Entry>, subscriptions: seq<nat>, slot: int): (found: Option<nat>)
    requires Known(entries, subscriptions)
    ensures found.Some? ==> found.value < |subscriptions| && entries[subscriptions[found.value]].input.slot == slot
    ensures found.None? ==> forall i :: 0 <= i < |subscriptions| ==> entries[subscriptions[i]].input.slot != slot
  {
    if subscriptions == [] then None
    else
      var n := |subscriptions| - 1;
      if entries[subscriptions[n]].input.slot == slot then Some(n)
      else FindSlot(entries, subscriptions[..n], slot)
  }

  function LiveStreams(entries: seq<Entry>, subscriptions: seq<nat>): seq<Stream>
    requires Known(entries, subscriptions)
  {
    if subscriptions == [] then []
    else
      var n := |subscriptions| - 1;
      var e := entries[subscriptions[n]];
      LiveStreams(entries, subscriptions[..n])
      + if e.closed then [] else [Stream(e.input.slot, e.id, e.input.cameraId, e.input.mediaSessionId)]
  }

  predicate SlotLe(a: Stream, b: Stream) {
    a.slot <= b.slot
  }

  // ----- the client's internal functions -----

  predicate Active(w: Wall) {
    !w.closed && w.layout.Some? && w.subscriptions != []
  }

  predicate SocketOpen(w: Wall)
    requires InRange(w)
  {
    w.socket.Some? && w.sockets[w.socket.value].ready == Open
  }

  function CurrentSync(w: Wall): Sync
    requires InRange(w) && w.layout.Some?
  {
    Sync(w.layout.value, Sort(SlotLe, LiveStreams(w.entries, w.subscriptions)))
  }

  function SendSync(w: Wall): Wall
    requires InRange(w)
  {
    if !SocketOpen(w) || w.layout.None? then w
    else
      var k := w.socket.value;
      w.(sockets := w.sockets[k := w.sockets[k].(sent := w.sockets[k].sent + [CurrentSync(w)])])
  }

  function DetachAndCloseSocket(w: Wall): Wall
    requires InRange(w)
  {
    if w.socket.None? then w
    else
      var k := w.socket.value;
      var s := w.sockets[k];
      var ready := if s.ready == Connecting || s.ready == Open then Closing else s.ready;
      w.(socket := None, sockets := w.sockets[k := s.(attached := false, ready := ready)])
  }

  function Delay(attempt: nat): nat {
    if attempt == 0 then 1000 else if attempt == 1 then 2000 else if attempt == 2 then 4000
    else if attempt == 3 then 8000 else 15000
  }

  function OpenSerials(entries: seq<Entry>, subscriptions: seq<nat>): seq<nat>
    requires Known(entries, subscriptions)
  {
    if subscriptions == [] then []
    else
      var n := |subscriptions| - 1;
      OpenSerials(entries, subscriptions[..n]) + if entries[subscriptions[n]].closed then [] else [subscriptions[n]]
  }

  function Broadcast(w: Wall, kind: Kind): Wall
    requires InRange(w)
  {
    w.(notices := w.notices + [ToAll(OpenSerials(w.entries, w.subscriptions), kind)])
  }

  function ScheduleReconnect(w: Wall): Wall
    requires InRange(w)
  {
    if !Active(w) || w.timer.Some? then w
    else Broadcast(w, Reconnecting).(timer := Some(Delay(w.attempt)), attempt := w.attempt + 1)
  }

  function EnsureSocket(w: Wall): Wall {
    if !Active(w) || w.socket.Some? || w.timer.Some? then w
    else w.(socket := Some(|w.sockets|), sockets := w.sockets + [Socket(Connecting, true, [])])
  }

  function UpdateConnection(w: Wall): Wall
    requires InRange(w)
  {
    if !Active(w) then DetachAndCloseSocket(w.(timer := None))
    else EnsureSocket(w).(syncQueued := true)
  }

  function Settle(e: Entry, value: bool): Entry {
    if e.settled then e else e.(settled := true, resolutions := e.resolutions + [value])
  }

  function Retire(e: Entry): Entry {
    Settle(e.(closed := true), false)
  }

  function RetireAll(entries: seq<Entry>, serials: seq<nat>): (after: seq<Entry>)
    requires Known(entries, serials)
    ensures |after| == |entries|
  {
    if serials == [] then entries
    else
      var n := |serials| - 1;
      var before := RetireAll(entries, serials[..n]);
      before[serials[n] := Retire(before[serials[n]])]
  }

  // ----- messages -----

  function Uint32(a: byte, b: byte, c: byte, d: byte): nat {
    (((a as int) * 256 + b as int) * 256 + c as int) * 256 + d as int
  }

  /** Slot and subscription id of a well-formed binary frame. */
  function FrameTag(data: seq<byte>): Option<(int, nat)> {
    if |data| < 10 || |data| > MAX_FRAME || data[0] != 1 then None
    else if data[6] != 0xff || data[7] != 0xd8 || data[|data| - 2] != 0xff || data[|data| - 1] != 0xd9 then None
    else Some((data[1] as int, Uint32(data[2], data[3], data[4], data[5])))
  }

  /** The live subscription a tag names. */
  function Addressee(w: Wall, slot: int, id: int): (serial: Option<nat>)
    requires InRange(w)
    ensures serial.Some? ==> serial.value < |w.entries|
  {
    var found := FindSlot(w.entries, w.subscriptions, slot);
    if found.None? then None
    else
      var serial := w.subscriptions[found.value];
      if w.entries[serial].closed || w.entries[serial].id != id then None else Some(serial)
  }

  function Notify(w: Wall, serial: nat, kind: Kind): Wall {
    w.(attempt := 0, notices := w.notices + [ToOne(serial, kind)])
  }

  function SettleEntry(w: Wall, serial: nat, value: bool): Wall
    requires serial < |w.entries|
  {
    w.(entries := w.entries[serial := Settle(w.entries[serial], value)])
  }

  function HandleMessage(w: Wall, message: Message): Wall
    requires InRange(w)
  {
    match message
    case Text(Irrelevant) => w
    case Text(Fatal) => Broadcast(w, Failed)
    case Text(ReadyFor(slot, id)) =>
      var to := Addressee(w, slot, id);
      if to.None? then w else Notify(w, to.value, Ready)
    case Text(ErrorFor(slot, id)) =>
      var to := Addressee(w, slot, id);
      if to.None? then w else Notify(SettleEntry(w, to.value, false), to.value, Failed)
    case Binary(data) =>
      var tag := FrameTag(data);
      if tag.None? then w
      else
        var to := Addressee(w, tag.value.0, tag.value.1);
        if to.None? then w else SettleEntry(Notify(w, to.value, Frame(data[6..])), to.value, true)
  }

  // ----- one event -----

  function DoSubscribe(w: Wall, input: Input): Wall
    requires InRange(w)
  {
    var found := FindSlot(w.entries, w.subscriptions, input.slot);
    var serial := |w.entries|;
    var entry := Entry(input, w.nextId, [], false, false);
    var nextId := (w.nextId + 1) % ID_SPACE;
    if found.None? then
      UpdateConnection(w.(entries := w.entries + [entry], subscriptions := w.subscriptions + [serial],
        nextId := nextId))
    else
      var previous := w.subscriptions[found.value];
      UpdateConnection(w.(entries := w.entries[previous := Retire(w.entries[previous])] + [entry],
                          subscriptions := w.subscriptions[found.value := serial], nextId := nextId))
  }

  function RemoveAt(s: seq<nat>, i: nat): seq<nat>
    requires i < |s|
  {
    s[..i] + s[i + 1..]
  }

  /** The slot is freed only while it still holds this subscription. */
  function DoCloseRegistration(w: Wall, serial: nat): Wall
    requires InRange(w) && serial < |w.entries|
  {
    if w.entries[serial].closed then w
    else
      var found := FindSlot(w.entries, w.subscriptions, w.entries[serial].input.slot);
      var holds := found.Some? && w.subscriptions[found.value] == serial;
      UpdateConnection(w.(entries := w.entries[serial := Retire(w.entries[serial])],
                          subscriptions := if holds then RemoveAt(w.subscriptions, found.value) else w.subscriptions))
  }

  function DoCloseClient(w: Wall): Wall
    requires InRange(w)
  {
    if w.closed then w
    else
      DetachAndCloseSocket(
        w.(closed := true, entries := RetireAll(w.entries, w.subscriptions), subscriptions := [], timer := None))
  }

  /** The event reaches the client's handlers: its socket is the current one. */
  predicate Heard(w: Wall, k: nat) {
    k < |w.sockets| && w.sockets[k].attached && w.socket == Some(k)
  }

  function SetReady(w: Wall, k: nat, ready: ReadyState): Wall
    requires k < |w.sockets|
  {
    w.(sockets := w.sockets[k := w.sockets[k].(ready := ready)])
  }

  function Step(w: Wall, e: Event): Wall
    requires InRange(w)
  {
    match e
    case SetLayout(slots) => if w.layout == slots then w else UpdateConnection(w.(layout := slots))
    case Subscribe(input) => DoSubscribe(w, input)
    case CloseRegistration(serial) => if serial < |w.entries| then DoCloseRegistration(w, serial) else w
    case CloseClient => DoCloseClient(w)
    case Opened(k) =>
      if k >= |w.sockets| || w.sockets[k].ready != Connecting then w
      else if Heard(w, k) then SetReady(w, k, Open).(syncQueued := true)
      else SetReady(w, k, Open)
    case Received(k, message) => if Heard(w, k) then HandleMessage(w, message) else w
    case PeerClosing(k) =>
      if k >= |w.sockets| || w.sockets[k].ready == Closed then w else SetReady(w, k, Closing)
    case SocketClosed(k) =>
      if k >= |w.sockets| || w.sockets[k].ready == Closed then w
      else if Heard(w, k) then ScheduleReconnect(SetReady(w, k, Closed).(socket := None))
      else SetReady(w, k, Closed)
    case TimerFired => if w.timer.None? then w else EnsureSocket(w.(timer := None))
    case MicrotaskRan => if w.syncQueued then SendSync(w.(syncQueued := false)) else w
  }

  function Start(seed: nat): Wall {
    Wall([], [], None, None, [], false, false, 0, None, seed % ID_SPACE, [])
  }

  // ----- the invariant -----

  /** Exactly one of a socket and a reconnect timer while there is something to show; neither otherwise. */
  predicate Connected(w: Wall) {
    if Active(w) then w.socket.Some? <==> w.timer.None? else w.socket.None? && w.timer.None?
  }

  /** The slot map holds exactly the open subscriptions, one per slot. */
  predicate SlotsHoldTheOpen(w: Wall)
    requires InRange(w)
  {
    && (forall i, j :: 0 <= i < j < |w.subscriptions| ==>
          w.entries[w.subscriptions[i]].input.slot != w.entries[w.subscriptions[j]].input.slot)
    && (forall s :: 0 <= s < |w.entries| ==> (s in w.subscriptions <==> !w.entries[s].closed))
  }

  /** firstFrame is resolved at most once, and always by the time the subscription is closed. */
  predicate SettledProperly(e: Entry) {
    |e.resolutions| == (if e.settled then 1 else 0) && (e.closed ==> e.settled)
  }

  predicate Numbered(seed: nat, w: Wall) {
    && w.nextId == (seed + |w.entries|) % ID_SPACE
    && forall s :: 0 <= s < |w.entries| ==> w.entries[s].id == (seed + s) % ID_SPACE
  }

  /** On an open socket with no sync queued, the last sync sent is the current one. */
  predicate SyncFresh(w: Wall)
    requires InRange(w)
  {
    SocketOpen(w) && !w.syncQueued && w.layout.Some? ==>
      var sent := w.sockets[w.socket.value].sent;
      sent != [] && sent[|sent| - 1] == CurrentSync(w)
  }

  predicate Inv(seed: nat, w: Wall) {
    && InRange(w) && Connected(w) && SlotsHoldTheOpen(w) && Numbered(seed, w) && SyncFresh(w)
    && (forall e :: e in w.entries ==> SettledProperly(e))
    && (w.socket.Some? ==> w.sockets[w.socket.value].attached)
  }

  // ----- every event keeps the invariant -----

  lemma {:induction false} LiveStreamsDependOn(a: seq<Entry>, b: seq<Entry>, subscriptions: seq<nat>)
    requires Known(a, subscriptions) && Known(b, subscriptions)
    requires forall i :: 0 <= i < |subscriptions| ==>
               var x, y := a[subscriptions[i]], b[subscriptions[i]];
               x.input == y.input && x.id == y.id && x.closed == y.closed
    ensures LiveStreams(a, subscriptions) == LiveStreams(b, subscriptions)
  {
    if subscriptions != [] {
      LiveStreamsDependOn(a, b, subscriptions[..|subscriptions| - 1]);
    }
  }

  lemma {:induction false} SettlingKeepsInv(seed: nat, w: Wall, serial: nat, value: bool)
    requires Inv(seed, w) && serial < |w.entries|
    ensures Inv(seed, SettleEntry(w, serial, value))
  {
    var after := SettleEntry(w, serial, value);
    LiveStreamsDependOn(w.entries, after.entries, w.subscriptions);
    assert w.entries[serial] in w.entries;
  }

  lemma {:induction false} NoticesKeepInv(seed: nat, w: Wall, notices: seq<Notice>, attempt: nat)
    requires Inv(seed, w)
    ensures Inv(seed, w.(notices := notices, attempt := attempt))
  {}

  lemma {:induction false} ErrorKeepsInv(seed: nat, w: Wall, slot: int, id: int)
    requires Inv(seed, w)
    ensures Inv(seed, HandleMessage(w, Text(ErrorFor(slot, id))))
  {
    var to := Addressee(w, slot, id);
    if to.Some? {
      SettlingKeepsInv(seed, w, to.value, false);
      NoticesKeepInv(seed, SettleEntry(w, to.value, false), HandleMessage(w, Text(ErrorFor(slot, id))).notices, 0);
    }
  }

  lemma {:induction false} FrameKeepsInv(seed: nat, w: Wall, data: seq<byte>)
    requires Inv(seed, w)
    ensures Inv(seed, HandleMessage(w, Binary(data)))
  {
    if FrameTag(data).Some? {
      var to := Addressee(w, FrameTag(data).value.0, FrameTag(data).value.1);
      if to.Some? {
        NoticesKeepInv(seed, w, HandleMessage(w, Binary(data)).notices, 0);
        SettlingKeepsInv(seed, Notify(w, to.value, Frame(data[6..])), to.value, true);
      }
    }
  }

  lemma {:induction false} MessageKeepsInv(seed: nat, w: Wall, message: Message)
    requires Inv(seed, w)
    ensures Inv(seed, HandleMessage(w, message))
  {
    match message
    case Text(ErrorFor(slot, id)) => ErrorKeepsInv(seed, w, slot, id);
    case Binary(data) => FrameKeepsInv(seed, w, data);
    case Text(_) =>
      var after := HandleMessage(w, message);
      NoticesKeepInv(seed, w, after.notices, after.attempt);
  }

  /** What an update needs: everything but the connection and the freshness of the sync. */
  predicate Core(seed: nat, w: Wall) {
    && InRange(w) && SlotsHoldTheOpen(w) && Numbered(seed, w)
    && (forall e :: e in w.entries ==> SettledProperly(e))
    && (w.socket.Some? ==> w.sockets[w.socket.value].attached)
    && !(w.socket.Some? && w.timer.Some?)
  }

  lemma {:induction false} UpdateRestoresInv(seed: nat, w: Wall)
    requires Core(seed, w)
    ensures Inv(seed, UpdateConnection(w))
  {}

  /** The state between a slot change and the connection update that follows it. */
  function AddedSlot(w: Wall, input: Input): Wall {
    w.(entries := w.entries + [Entry(input, w.nextId, [], false, false)],
       subscriptions := w.subscriptions + [|w.entries|], nextId := (w.nextId + 1) % ID_SPACE)
  }

  function ReplacedSlot(w: Wall, input: Input, at: nat): Wall
    requires InRange(w) && at < |w.subscriptions|
  {
    var previous := w.subscriptions[at];
    w.(entries := w.entries[previous := Retire(w.entries[previous])] + [Entry(input, w.nextId, [], false, false)],
       subscriptions := w.subscriptions[at := |w.entries|], nextId := (w.nextId + 1) % ID_SPACE)
  }

  function FreedSlot(w: Wall, at: nat): Wall
    requires InRange(w) && at < |w.subscriptions|
  {
    var serial := w.subscriptions[at];
    w.(entries := w.entries[serial := Retire(w.entries[serial])], subscriptions := RemoveAt(w.subscriptions, at))
  }

  lemma {:induction false} NextNumber(seed: nat, n: nat)
    ensures ((seed + n) % ID_SPACE + 1) % ID_SPACE == (seed + (n + 1)) % ID_SPACE
  {}

  lemma {:induction false} AddedSlotIsHeld(w: Wall, input: Input)
    requires InRange(w) && SlotsHoldTheOpen(w) && FindSlot(w.entries, w.subscriptions, input.slot).None?
    ensures InRange(AddedSlot(w, input)) && SlotsHoldTheOpen(AddedSlot(w, input))
  {
    var mid := AddedSlot(w, input);
    assert forall s :: s in mid.subscriptions <==> s in w.subscriptions || s == |w.entries|;
  }

  lemma {:induction false} AddedSlotIsNumbered(seed: nat, w: Wall, input: Input)
    requires Numbered(seed, w)
    ensures Numbered(seed, AddedSlot(w, input))
  {
    NextNumber(seed, |w.entries|);
  }

  lemma {:induction false} AddedSlotIsCore(seed: nat, w: Wall, input: Input)
    requires Core(seed, w) && FindSlot(w.entries, w.subscriptions, input.slot).None?
    ensures Core(seed, AddedSlot(w, input))
  {
    AddedSlotIsHeld(w, input);
    AddedSlotIsNumbered(seed, w, input);
  }

  lemma {:induction false} DistinctSerials(w: Wall)
    requires InRange(w) && SlotsHoldTheOpen(w)
    ensures forall i, j :: 0 <= i < j < |w.subscriptions| ==> w.subscriptions[i] != w.subscriptions[j]
  {
    forall i, j | 0 <= i < j < |w.subscriptions| ensures w.subscriptions[i] != w.subscriptions[j] {
      assert w.entries[w.subscriptions[i]].input.slot != w.entries[w.subscriptions[j]].input.slot;
    }
  }

  lemma {:induction false} ReplacedSlots(w: Wall, mid: Wall, at: nat, serial: nat)
    requires InRange(w) && SlotsHoldTheOpen(w) && at < |w.subscriptions| && serial == |w.entries|
    requires |mid.entries| == serial + 1 && mid.subscriptions == w.subscriptions[at := serial]
    requires forall s :: 0 <= s < serial && s != w.subscriptions[at] ==> mid.entries[s] == w.entries[s]
    requires mid.entries[w.subscriptions[at]].closed && !mid.entries[serial].closed
    requires mid.entries[serial].input.slot == w.entries[w.subscriptions[at]].input.slot
    ensures Known(mid.entries, mid.subscriptions)
    ensures forall i, j :: 0 <= i < j < |mid.subscriptions| ==>
              mid.entries[mid.subscriptions[i]].input.slot != mid.entries[mid.subscriptions[j]].input.slot
    ensures forall s :: 0 <= s < |mid.entries| ==> (s in mid.subscriptions <==> !mid.entries[s].closed)
  {
    var previous := w.subscriptions[at];
    DistinctSerials(w);
    forall s | 0 <= s < |mid.entries| ensures s in mid.subscriptions <==> !mid.entries[s].closed {
      if s == serial {
        assert mid.subscriptions[at] == serial;
      } else if s == previous {
        assert s !in mid.subscriptions;
      } else if s in w.subscriptions {
        var i :| 0 <= i < |w.subscriptions| && w.subscriptions[i] == s;
        assert mid.subscriptions[i] == s;
      }
    }
  }

  lemma {:induction false} RetiredStaysProper(entries: seq<Entry>, serial: nat)
    requires serial < |entries| && forall e :: e in entries ==> SettledProperly(e)
    ensures forall e :: e in entries[serial := Retire(entries[serial])] ==> SettledProperly(e)
  {
    assert entries[serial] in entries;
  }

  lemma {:induction false} ReplacedSlotIsCore(seed: nat, w: Wall, input: Input, at: nat)
    requires Core(seed, w) && at < |w.subscriptions| && w.entries[w.subscriptions[at]].input.slot == input.slot
    ensures Core(seed, ReplacedSlot(w, input, at))
  {
    NextNumber(seed, |w.entries|);
    var mid := ReplacedSlot(w, input, at);
    ReplacedSlots(w, mid, at, |w.entries|);
    RetiredStaysProper(w.entries, w.subscriptions[at]);
  }

  lemma {:induction false} RemovedSlot(s: seq<nat>, at: nat)
    requires at < |s| && forall i, j :: 0 <= i < j < |s| ==> s[i] != s[j]
    ensures forall x :: x in RemoveAt(s, at) <==> x in s && x != s[at]
  {
    forall x | x in s && x != s[at] ensures x in RemoveAt(s, at) {
      var i :| 0 <= i < |s| && s[i] == x;
      assert RemoveAt(s, at)[if i < at then i else i - 1] == x;
    }
  }

  lemma {:induction false} FreedSlotIsCore(seed: nat, w: Wall, at: nat)
    requires Core(seed, w) && at < |w.subscriptions|
    ensures Core(seed, FreedSlot(w, at))
  {
    DistinctSerials(w);
    RemovedSlot(w.subscriptions, at);
    RetiredStaysProper(w.entries, w.subscriptions[at]);
  }

  lemma {:induction false} SubscribeKeepsInv(seed: nat, w: Wall, input: Input)
    requires Inv(seed, w)
    ensures Inv(seed, DoSubscribe(w, input))
  {
    var found := FindSlot(w.entries, w.subscriptions, input.slot);
    if found.None? {
      AddedSlotIsCore(seed, w, input);
      UpdateRestoresInv(seed, AddedSlot(w, input));
    } else {
      ReplacedSlotIsCore(seed, w, input, found.value);
      UpdateRestoresInv(seed, ReplacedSlot(w, input, found.value));
    }
  }

  lemma {:induction false} OpenSlotIsFound(w: Wall, serial: nat) returns (at: nat)
    requires InRange(w) && SlotsHoldTheOpen(w) && serial < |w.entries| && !w.entries[serial].closed
    ensures at < |w.subscriptions| && w.subscriptions[at] == serial
    ensures FindSlot(w.entries, w.subscriptions, w.entries[serial].input.slot) == Some(at)
  {
    assert serial in w.subscriptions;
    at :| 0 <= at < |w.subscriptions| && w.subscriptions[at] == serial;
  }

  lemma {:induction false} CloseRegistrationKeepsInv(seed: nat, w: Wall, serial: nat)
    requires Inv(seed, w) && serial < |w.entries|
    ensures Inv(seed, DoCloseRegistration(w, serial))
  {
    if !w.entries[serial].closed {
      var at := OpenSlotIsFound(w, serial);
      FreedSlotIsCore(seed, w, at);
      UpdateRestoresInv(seed, FreedSlot(w, at));
    }
  }

  lemma {:induction false} RetireAllFacts(entries: seq<Entry>, serials: seq<nat>)
    requires Known(entries, serials) && forall e :: e in entries ==> SettledProperly(e)
    ensures var after := RetireAll(entries, serials);
            && (forall e :: e in after ==> SettledProperly(e))
            && (forall s :: 0 <= s < |entries| ==>
                  && after[s].input == entries[s].input && after[s].id == entries[s].id
                  && (after[s].closed <==> entries[s].closed || s in serials))
  {
    if serials != [] {
      var n := |serials| - 1;
      RetireAllFacts(entries, serials[..n]);
      var before := RetireAll(entries, serials[..n]);
      assert before[serials[n]] in before;
      assert forall s :: s in serials <==> s in serials[..n] || s == serials[n];
    }
  }

  lemma {:induction false} CloseClientKeepsInv(seed: nat, w: Wall)
    requires Inv(seed, w)
    ensures Inv(seed, DoCloseClient(w))
  {
    if !w.closed {
      RetireAllFacts(w.entries, w.subscriptions);
    }
  }

  lemma {:induction false} OpeningKeepsInv(seed: nat, w: Wall, k: nat)
    requires Inv(seed, w)
    ensures Inv(seed, Step(w, Opened(k)))
  {}

  lemma {:induction false} ClosingKeepsInv(seed: nat, w: Wall, k: nat)
    requires Inv(seed, w)
    ensures Inv(seed, Step(w, PeerClosing(k)))
  {}

  lemma {:induction false} SocketClosedKeepsInv(seed: nat, w: Wall, k: nat)
    requires Inv(seed, w)
    ensures Inv(seed, Step(w, SocketClosed(k)))
  {}

  lemma {:induction false} TimedEventKeepsInv(seed: nat, w: Wall, e: Event)
    requires Inv(seed, w) && (e.TimerFired? || e.MicrotaskRan?)
    ensures Inv(seed, Step(w, e))
  {}

  lemma {:induction false} StepKeepsInv(seed: nat, w: Wall, e: Event)
    requires Inv(seed, w)
    ensures Inv(seed, Step(w, e))
  {
    match e
    case SetLayout(slots) => if w.layout != slots { UpdateRestoresInv(seed, w.(layout := slots)); }
    case Subscribe(input) => SubscribeKeepsInv(seed, w, input);
    case CloseRegistration(serial) => if serial < |w.entries| { CloseRegistrationKeepsInv(seed, w, serial); }
    case CloseClient => CloseClientKeepsInv(seed, w);
    case Received(k, message) => MessageKeepsInv(seed, w, message);
    case Opened(k) => OpeningKeepsInv(seed, w, k);
    case PeerClosing(k) => ClosingKeepsInv(seed, w, k);
    case SocketClosed(k) => SocketClosedKeepsInv(seed, w, k);
    case TimerFired | MicrotaskRan => TimedEventKeepsInv(seed, w, e);
  }

  // ----- whole runs -----

  /** In every run the client is connected exactly when it has something to show, the slot map holds the
      open subscriptions, and an idle open socket has been sent the current sync. */
  function Play(seed: nat, events: seq<Event>): (w: Wall)
    ensures Inv(seed, w)
  {
    if events == [] then Start(seed)
    else
      var before := Play(seed, events[..|events| - 1]);
      StepKeepsInv(seed, before, events[|events| - 1]);
      Step(before, events[|events| - 1])
  }

  predicate IsStreamOf(stream: Stream, e: Entry) {
    stream == Stream(e.input.slot, e.id, e.input.cameraId, e.input.mediaSessionId)
  }

  predicate ShownAt(x: Stream, entries: seq<Entry>, subscriptions: seq<nat>, i: nat)
    requires Known(entries, subscriptions) && i < |subscriptions|
  {
    !entries[subscriptions[i]].closed && IsStreamOf(x, entries[subscriptions[i]])
  }

  predicate Shown(x: Stream, entries: seq<Entry>, subscriptions: seq<nat>)
    requires Known(entries, subscriptions)
  {
    exists i :: 0 <= i < |subscriptions| && ShownAt(x, entries, subscriptions, i)
  }

  lemma {:induction false} LiveStreamsAreShown(entries: seq<Entry>, subscriptions: seq<nat>, x: Stream)
    requires Known(entries, subscriptions)
    ensures x in LiveStreams(entries, subscriptions) <==> Shown(x, entries, subscriptions)
  {
    if subscriptions != [] {
      var n := |subscriptions| - 1;
      var init := subscriptions[..n];
      LiveStreamsAreShown(entries, init, x);
      assert forall i :: 0 <= i < n ==> (ShownAt(x, entries, init, i) <==> ShownAt(x, entries, subscriptions, i));
      assert ShownAt(x, entries, subscriptions, n) ==> x in LiveStreams(entries, subscriptions);
    }
  }

  predicate DistinctSlots(streams: seq<Stream>) {
    forall i, j :: 0 <= i < j < |streams| ==> streams[i].slot != streams[j].slot
  }

  lemma {:induction false} LiveStreamsAreDistinct(entries: seq<Entry>, subscriptions: seq<nat>)
    requires Known(entries, subscriptions)
    requires forall i, j :: 0 <= i < j < |subscriptions| ==>
             entries[subscriptions[i]].input.slot != entries[subscriptions[j]].input.slot
    ensures DistinctSlots(LiveStreams(entries, subscriptions))
  {
    if subscriptions != [] {
      var n := |subscriptions| - 1;
      var init := subscriptions[..n];
      LiveStreamsAreDistinct(entries, init);
      var earlier := LiveStreams(entries, init);
      forall i | 0 <= i < |earlier| ensures earlier[i].slot != entries[subscriptions[n]].input.slot {
        LiveStreamsAreShown(entries, init, earlier[i]);
        var k :| 0 <= k < |init| && ShownAt(earlier[i], entries, init, k);
        assert init[k] == subscriptions[k];
      }
    }
  }

  lemma {:induction false} InsertedDistinct(t: seq<Stream>, k: nat, x: Stream)
    requires k <= |t| && DistinctSlots(t) && forall i :: 0 <= i < |t| ==> t[i].slot != x.slot
    ensures DistinctSlots(t[..k] + [x] + t[k..])
  {
    var u := t[..k] + [x] + t[k..];
    assert forall i :: 0 <= i < |u| ==> u[i] == if i < k then t[i] else if i == k then x else t[i - 1];
  }

  lemma {:induction false} SortKeepsDistinct(s: seq<Stream>)
    requires DistinctSlots(s)
    ensures DistinctSlots(Sort(SlotLe, s))
  {
    if s != [] {
      var n := |s| - 1;
      var init, x := s[..n], s[n];
      SortKeepsDistinct(init);
      var t := Sort(SlotLe, init);
      SortIsSorted(SlotLe, init);
      var k := InsertSplits(SlotLe, x, t);
      forall i | 0 <= i < |t| ensures t[i].slot != x.slot {
        SortMembers(SlotLe, init, t[i]);
        var j :| 0 <= j < n && s[j] == t[i];
      }
      InsertedDistinct(t, k, x);
    }
  }

  /** A stream of some open subscription. */
  ghost predicate Wanted(x: Stream, entries: seq<Entry>) {
    exists e :: e in entries && !e.closed && IsStreamOf(x, e)
  }

  lemma {:induction false} ShownIsWanted(w: Wall, x: Stream)
    requires InRange(w) && SlotsHoldTheOpen(w)
    ensures Shown(x, w.entries, w.subscriptions) <==> Wanted(x, w.entries)
  {
    if Wanted(x, w.entries) {
      var e :| e in w.entries && !e.closed && IsStreamOf(x, e);
      var s :| 0 <= s < |w.entries| && w.entries[s] == e;
      assert s in w.subscriptions;
      var i :| 0 <= i < |w.subscriptions| && w.subscriptions[i] == s;
      assert ShownAt(x, w.entries, w.subscriptions, i);
    }
  }

  predicate RisingSlots(streams: seq<Stream>) {
    forall i, j :: 0 <= i < j < |streams| ==> streams[i].slot < streams[j].slot
  }

  /** What the current sync says: the layout, and one stream for each open subscription, by rising slot. */
  lemma {:induction false} CurrentSyncIsExact(w: Wall)
    requires InRange(w) && SlotsHoldTheOpen(w) && w.layout.Some?
    ensures var sync := CurrentSync(w);
            && sync.layout == w.layout.value
            && RisingSlots(sync.streams)
            && (forall x :: x in sync.streams <==> Wanted(x, w.entries))
  {
    var live := LiveStreams(w.entries, w.subscriptions);
    LiveStreamsAreDistinct(w.entries, w.subscriptions);
    SortIsSorted(SlotLe, live);
    SortKeepsDistinct(live);
    var streams := CurrentSync(w).streams;
    assert forall i, j :: 0 <= i < j < |streams| ==> SlotLe(streams[i], streams[j]);
    forall x ensures x in streams <==> Wanted(x, w.entries) {
      SortMembers(SlotLe, live, x);
      LiveStreamsAreShown(w.entries, w.subscriptions, x);
      ShownIsWanted(w, x);
    }
  }

  /** Freshness for every run: whenever the socket is open with no sync queued and the client has a
      layout, the last sync sent names the layout and exactly the open subscriptions. */
  lemma {:induction false} LastSyncIsCurrent(seed: nat, events: seq<Event>)
    ensures var w := Play(seed, events);
            SocketOpen(w) && !w.syncQueued ==>
              var sent := w.sockets[w.socket.value].sent;
              && Active(w) && sent != []
              && sent[|sent| - 1].layout == w.layout.value
              && RisingSlots(sent[|sent| - 1].streams)
              && (forall x :: x in sent[|sent| - 1].streams <==> Wanted(x, w.entries))
  {
    var w := Play(seed, events);
    if SocketOpen(w) && !w.syncQueued {
      CurrentSyncIsExact(w);
    }
  }

  // ----- the first frame -----

  predicate IsFrameFor(e: Event, entry: Entry) {
    e.Received? && e.message.Binary? && FrameTag(e.message.data) == Some((entry.input.slot, entry.id))
  }

  /** How one event treats one existing subscription. */
  predicate EntryStep(before: Entry, after: Entry, e: Event) {
    && after.input == before.input && after.id == before.id
    && before.resolutions <= after.resolutions
    && (before.closed ==> after.closed)
    && (|before.resolutions| < |after.resolutions| && after.resolutions[|before.resolutions|] ==>
          !before.closed && !before.settled && IsFrameFor(e, before))
  }

  lemma {:induction false} RetireAllOne(entries: seq<Entry>, serials: seq<nat>, serial: nat)
    requires Known(entries, serials) && serial < |entries|
    ensures var after := RetireAll(entries, serials)[serial];
            after == entries[serial] || after == Retire(entries[serial]) || after == Retire(Retire(entries[serial]))
  {
    if serials != [] {
      RetireAllOne(entries, serials[..|serials| - 1], serial);
    }
  }

  lemma {:induction false} SettlingTreatsEntry(w: Wall, to: nat, value: bool, serial: nat, e: Event)
    requires to < |w.entries| && serial < |w.entries|
             && (value ==> !w.entries[to].closed && IsFrameFor(e, w.entries[to]))
    ensures var after := SettleEntry(w, to, value);
            |after.entries| == |w.entries| && EntryStep(w.entries[serial], after.entries[serial], e)
  {}

  lemma {:induction false} AddresseeMatches(w: Wall, slot: int, id: int)
    requires InRange(w) && Addressee(w, slot, id).Some?
    ensures var e := w.entries[Addressee(w, slot, id).value]; e.input.slot == slot && e.id == id && !e.closed
  {}

  lemma {:induction false} MessageTreatsEntry(w: Wall, e: Event, serial: nat)
    requires InRange(w) && serial < |w.entries| && e.Received?
    ensures var after := HandleMessage(w, e.message);
            |after.entries| == |w.entries| && EntryStep(w.entries[serial], after.entries[serial], e)
  {
    match e.message
    case Text(ErrorFor(slot, id)) =>
      var to := Addressee(w, slot, id);
      if to.Some? { SettlingTreatsEntry(w, to.value, false, serial, e); }
    case Text(_) =>
    case Binary(data) =>
      var tag := FrameTag(data);
      if tag.Some? {
        var to := Addressee(w, tag.value.0, tag.value.1);
        if to.Some? {
          AddresseeMatches(w, tag.value.0, tag.value.1);
          SettlingTreatsEntry(w, to.value, true, serial, e);
        }
      }
  }

  predicate RetiredAtMost(before: Entry, after: Entry) {
    after == before || after == Retire(before) || after == Retire(Retire(before))
  }

  lemma {:induction false} ConnectingLeavesEntries(w: Wall)
    requires InRange(w)
    ensures UpdateConnection(w).entries == w.entries
  {}

  lemma {:induction false} SubscribeTreatsEntry(w: Wall, input: Input, serial: nat)
    requires InRange(w) && serial < |w.entries|
    ensures var after := DoSubscribe(w, input);
            |w.entries| <= |after.entries| && RetiredAtMost(w.entries[serial], after.entries[serial])
  {}

  lemma {:induction false} CloseTreatsEntry(w: Wall, closed: nat, serial: nat)
    requires InRange(w) && serial < |w.entries| && closed < |w.entries|
    ensures var after := DoCloseRegistration(w, closed);
            |after.entries| == |w.entries| && RetiredAtMost(w.entries[serial], after.entries[serial])
  {}

  lemma {:induction false} ApiTreatsEntry(w: Wall, e: Event, serial: nat)
    requires InRange(w) && serial < |w.entries| && (e.Subscribe? || e.CloseRegistration? || e.CloseClient?)
    ensures var after := Step(w, e);
            |w.entries| <= |after.entries| && RetiredAtMost(w.entries[serial], after.entries[serial])
  {
    match e
    case Subscribe(input) => SubscribeTreatsEntry(w, input, serial);
    case CloseRegistration(closed) =>
      if closed < |w.entries| {
        CloseTreatsEntry(w, closed, serial);
      }
    case CloseClient => RetireAllOne(w.entries, w.subscriptions, serial);
  }

  lemma {:induction false} StepTreatsEntry(w: Wall, e: Event, serial: nat)
    requires InRange(w) && serial < |w.entries|
    ensures var after := Step(w, e);
            serial < |after.entries| && EntryStep(w.entries[serial], after.entries[serial], e)
    ensures e.Received? && !Heard(w, e.k) ==> Step(w, e) == w
  {
    if e.Received? {
      MessageTreatsEntry(w, e, serial);
    } else if e.Subscribe? || e.CloseRegistration? || e.CloseClient? {
      ApiTreatsEntry(w, e, serial);
    }
  }

  lemma {:induction false} MessageAddsNothing(w: Wall, message: Message)
    requires InRange(w)
    ensures |HandleMessage(w, message).entries| == |w.entries|
  {}

  lemma {:induction false} SubscribedWaits(w: Wall, input: Input, serial: nat)
    requires InRange(w) && |w.entries| <= serial < |DoSubscribe(w, input).entries|
    ensures DoSubscribe(w, input).entries[serial].resolutions == []
  {}

  lemma {:induction false} CloseAddsNothing(w: Wall)
    requires InRange(w)
    ensures |DoCloseClient(w).entries| == |w.entries|
  {}

  lemma {:induction false} RegistrationAddsNothing(w: Wall, serial: nat)
    requires InRange(w) && serial < |w.entries|
    ensures |DoCloseRegistration(w, serial).entries| == |w.entries|
  {}

  lemma {:induction false} OthersAddNothing(w: Wall, e: Event)
    requires InRange(w) && !e.Subscribe? && !e.Received?
    ensures |Step(w, e).entries| == |w.entries|
  {
    match e
    case CloseClient => CloseAddsNothing(w);
    case CloseRegistration(serial) =>
      if serial < |w.entries| {
        RegistrationAddsNothing(w, serial);
      }
    case SetLayout(slots) => ConnectingLeavesEntries(w.(layout := slots));
    case _ =>
  }

  lemma {:induction false} NewEntriesWait(w: Wall, e: Event, serial: nat)
    requires InRange(w) && |w.entries| <= serial < |Step(w, e).entries|
    ensures Step(w, e).entries[serial].resolutions == []
  {
    if e.Received? {
      MessageAddsNothing(w, e.message);
    } else if e.Subscribe? {
      SubscribedWaits(w, e.input, serial);
    } else {
      OthersAddNothing(w, e);
    }
  }

  /** A well-formed frame carrying its slot and id reaches an open subscription that is still waiting, on
      the socket the client listens to. */
  predicate FrameReaches(w: Wall, e: Event, serial: nat) {
    && serial < |w.entries| && !w.entries[serial].closed && !w.entries[serial].settled
    && IsFrameFor(e, w.entries[serial]) && Heard(w, e.k)
  }

  ghost predicate FrameArrived(seed: nat, events: seq<Event>, serial: nat) {
    exists i :: 0 <= i < |events| && FrameReaches(Play(seed, events[..i]), events[i], serial)
  }

  /** Its firstFrame has been settled, once, as true. */
  predicate CameTrue(w: Wall, serial: nat) {
    serial < |w.entries| && w.entries[serial].resolutions == [true]
  }

  /** A step that leaves a subscription settled as true found it so, or is the frame that settles it. */
  lemma {:induction false} TurnsTrue(seed: nat, w: Wall, e: Event, serial: nat)
    requires Inv(seed, w) && CameTrue(Step(w, e), serial)
    ensures FrameReaches(w, e, serial) || CameTrue(w, serial)
  {
    if serial >= |w.entries| {
      NewEntriesWait(w, e, serial);
    } else {
      StepTreatsEntry(w, e, serial);
      assert w.entries[serial].resolutions == [] || w.entries[serial].resolutions == [true];
    }
  }

  lemma {:induction false} StaysTrue(seed: nat, w: Wall, e: Event, serial: nat)
    requires Inv(seed, w) && Inv(seed, Step(w, e)) && CameTrue(w, serial)
    ensures CameTrue(Step(w, e), serial)
  {
    StepTreatsEntry(w, e, serial);
    assert SettledProperly(Step(w, e).entries[serial]);
  }

  /** The first well-formed frame for a waiting subscription settles it as true. */
  lemma {:induction false} FirstFrameArrives(w: Wall, e: Event, serial: nat)
    requires InRange(w) && SlotsHoldTheOpen(w) && FrameReaches(w, e, serial) && SettledProperly(w.entries[serial])
    ensures CameTrue(Step(w, e), serial)
  {
    var at := OpenSlotIsFound(w, serial);
  }

  lemma {:induction false} StepLatches(seed: nat, w: Wall, e: Event, after: Wall, serial: nat)
    requires Inv(seed, w) && Inv(seed, after) && after == Step(w, e)
    ensures CameTrue(after, serial) <==> FrameReaches(w, e, serial) || CameTrue(w, serial)
  {
    if CameTrue(after, serial) {
      TurnsTrue(seed, w, e, serial);
    }
    if CameTrue(w, serial) {
      StaysTrue(seed, w, e, serial);
    }
    if FrameReaches(w, e, serial) {
      FirstFrameArrives(w, e, serial);
    }
  }

  lemma {:induction false} PlayOneMore(seed: nat, events: seq<Event>, i: nat)
    requires i < |events|
    ensures Play(seed, events[..i + 1]) == Step(Play(seed, events[..i]), events[i])
  {
    assert events[..i + 1][..i] == events[..i];
  }

  lemma {:induction false} PlayLatches(seed: nat, events: seq<Event>, serial: nat, i: nat)
    requires i < |events|
    ensures CameTrue(Play(seed, events[..i + 1]), serial)
            <==> FrameReaches(Play(seed, events[..i]), events[i], serial) || CameTrue(Play(seed, events[..i]), serial)
  {
    PlayOneMore(seed, events, i);
    StepLatches(seed, Play(seed, events[..i]), events[i], Play(seed, events[..i + 1]), serial);
  }

  predicate Latches(sets: seq<bool>, holds: seq<bool>) {
    && |holds| == |sets| + 1 && !holds[0]
    && forall i {:trigger sets[i]} :: 0 <= i < |sets| ==> (holds[i + 1] <==> sets[i] || holds[i])
  }

  /** What only its own step sets, and none resets, holds in the end exactly if one of the steps set it. */
  lemma {:induction false} Latch(sets: seq<bool>, holds: seq<bool>, n: nat)
    requires Latches(sets, holds) && n <= |sets|
    ensures holds[n] <==> exists i :: 0 <= i < n && sets[i]
  {
    if n > 0 {
      Latch(sets, holds, n - 1);
      assert holds[n - 1 + 1] <==> sets[n - 1] || holds[n - 1];
    }
  }

  ghost function Reaching(seed: nat, events: seq<Event>, serial: nat): seq<bool> {
    seq(|events|, i requires 0 <= i < |events| => FrameReaches(Play(seed, events[..i]), events[i], serial))
  }

  ghost function Coming(seed: nat, events: seq<Event>, serial: nat): seq<bool> {
    seq(|events| + 1, i requires 0 <= i <= |events| => CameTrue(Play(seed, events[..i]), serial))
  }

  lemma {:induction false} ComingStarts(seed: nat, events: seq<Event>, serial: nat)
    ensures !Coming(seed, events, serial)[0]
  {
    assert Play(seed, events[..0]).entries == [];
  }

  lemma {:induction false} ComingLatches(seed: nat, events: seq<Event>, serial: nat, i: nat)
    requires i < |events|
    ensures Coming(seed, events, serial)[i + 1] <==>
            Reaching(seed, events, serial)[i] || Coming(seed, events, serial)[i]
  {
    PlayLatches(seed, events, serial, i);
  }

  lemma {:induction false} TrueMeansAFrame(seed: nat, events: seq<Event>, serial: nat)
    ensures CameTrue(Play(seed, events), serial) <==> exists i :: 0 <= i < |events| && Reaching(seed, events, serial)[i]
  {
    var sets, holds := Reaching(seed, events, serial), Coming(seed, events, serial);
    ComingStarts(seed, events, serial);
    forall i {:trigger sets[i]} | 0 <= i < |sets| ensures holds[i + 1] <==> sets[i] || holds[i] {
      ComingLatches(seed, events, serial, i);
    }
    Latch(sets, holds, |events|);
    assert events[..|events|] == events;
  }

  lemma {:induction false} ReachingIsArrival(seed: nat, events: seq<Event>, serial: nat)
    ensures FrameArrived(seed, events, serial) <==>
            exists i :: 0 <= i < |events| && Reaching(seed, events, serial)[i]
  {
    forall i | 0 <= i < |events|
      ensures Reaching(seed, events, serial)[i] <==> FrameReaches(Play(seed, events[..i]), events[i], serial)
    {
    }
  }

  /** firstFrame is settled at most once, has been settled once its subscription is closed or replaced, and
      is true exactly if a well-formed frame for it arrived while it was waiting. */
  lemma {:induction false} FirstFrameIsHonest(seed: nat, events: seq<Event>, serial: nat)
    requires serial < |Play(seed, events).entries|
    ensures var entry := Play(seed, events).entries[serial];
            && |entry.resolutions| <= 1
            && (entry.closed ==> |entry.resolutions| == 1)
            && (entry.resolutions == [true] <==> FrameArrived(seed, events, serial))
  {
    assert SettledProperly(Play(seed, events).entries[serial]);
    TrueMeansAFrame(seed, events, serial);
    ReachingIsArrival(seed, events, serial);
  }

  // ----- ids wrap around -----

  /** Two subscriptions share an id exactly when a multiple of 2^32 allocations lies between them. */
  lemma {:induction false} IdsCollideAtWrapAround(seed: nat, w: Wall, i: nat, j: nat)
    requires Inv(seed, w) && i <= j < |w.entries|
    ensures w.entries[i].id == w.entries[j].id <==> (j - i) % ID_SPACE == 0
  {}

  /** A message tagged for a superseded subscription does nothing while fewer than 2^32 ids were
      allocated since: it neither reaches its replacement nor anything else. */
  lemma {:induction false} SupersededTagIsIgnored(seed: nat, w: Wall, i: nat, j: nat, message: Message)
    requires Inv(seed, w) && i < j < |w.entries| && j - i < ID_SPACE
    requires !w.entries[j].closed && w.entries[i].input.slot == w.entries[j].input.slot
    requires var slot, id := w.entries[i].input.slot, w.entries[i].id;
             || message == Text(ReadyFor(slot, id)) || message == Text(ErrorFor(slot, id))
             || (message.Binary? && FrameTag(message.data) == Some((slot, id)))
    ensures HandleMessage(w, message) == w
  {
    IdsCollideAtWrapAround(seed, w, i, j);
    var at := OpenSlotIsFound(w, j);
  }
}
