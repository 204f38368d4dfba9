/** The preview-wall client as a stateful object, refining the events of `PreviewWall`. */
module PreviewWallClient {
  import opened Wrappers
  import opened Sorting
  import opened PreviewWall

  class Client {
    var entries: seq<Entry>
    var subscriptions: seq<nat>
    var layout: Option<nat>
    var socket: Option<nat>
    var sockets: seq<Socket>
    var closed: bool
    var syncScheduled: bool
    var reconnectAttempt: nat
    var reconnectTimer: Option<nat>
    var nextSubscriptionId: nat
    var notices: seq<Notice>

    constructor (seed: nat)
      ensures View() == Start(seed)
    {
      entries, subscriptions, layout, socket, sockets := [], [], None, None, [];
      closed, syncScheduled, reconnectAttempt, reconnectTimer := false, false, 0, None;
      nextSubscriptionId, notices := seed % ID_SPACE, [];
    }

    function View(): Wall
      reads this
    {
      Wall(entries, subscriptions, layout, socket, sockets, closed, syncScheduled, reconnectAttempt,
           reconnectTimer, nextSubscriptionId, notices)
    }

    method AllocateSubscriptionId() returns (id: nat)
      modifies this
      ensures id == old(nextSubscriptionId)
      ensures View() == old(View()).(nextId := (id + 1) % ID_SPACE)
    {
      id := nextSubscriptionId;
      nextSubscriptionId := (nextSubscriptionId + 1) % ID_SPACE;
    }

    method DetachSocket()
      requires InRange(View())
      modifies this
      ensures View() == DetachAndCloseSocket(old(View()))
    {
      if socket.None? {
        return;
      }
      var k := socket.value;
      socket := None;
      var ready := sockets[k].ready;
      sockets := sockets[k := sockets[k].(attached := false)];
      if ready == Connecting || ready == Open {
        sockets := sockets[k := sockets[k].(ready := Closing)];
      }
    }

    method NotifyAll(kind: Kind)
      requires InRange(View())
      modifies this
      ensures View() == Broadcast(old(View()), kind)
    {
      var told := [];
      for i := 0 to |subscriptions|
        invariant View() == old(View()) && told == OpenSerials(entries, subscriptions[..i])
      {
        assert subscriptions[..i + 1][..i] == subscriptions[..i];
        if !entries[subscriptions[i]].closed {
          told := told + [subscriptions[i]];
        }
      }
      assert subscriptions[..|subscriptions|] == subscriptions;
      notices := notices + [ToAll(told, kind)];
    }

    method ArmReconnect()
      requires InRange(View())
      modifies this
      ensures View() == ScheduleReconnect(old(View()))
    {
      if closed || layout.None? || subscriptions == [] || reconnectTimer.Some? {
        return;
      }
      NotifyAll(Reconnecting);
      reconnectTimer := Some(Delay(reconnectAttempt));
      reconnectAttempt := reconnectAttempt + 1;
    }

    method Transmit()
      requires InRange(View())
      modifies this
      ensures View() == SendSync(old(View()))
    {
      if !SocketOpen(View()) || layout.None? {
        return;
      }
      var streams := [];
      for i := 0 to |subscriptions|
        invariant View() == old(View()) && streams == LiveStreams(entries, subscriptions[..i])
      {
        assert subscriptions[..i + 1][..i] == subscriptions[..i];
        var e := entries[subscriptions[i]];
        if !e.closed {
          streams := streams + [Stream(e.input.slot, e.id, e.input.cameraId, e.input.mediaSessionId)];
        }
      }
      assert subscriptions[..|subscriptions|] == subscriptions;
      var k := socket.value;
      var message := Sync(layout.value, Sort(SlotLe, streams));
      sockets := sockets[k := sockets[k].(sent := sockets[k].sent + [message])];
    }

    method OpenSocket()
      modifies this
      ensures View() == EnsureSocket(old(View()))
    {
      if closed || layout.None? || subscriptions == [] || socket.Some? || reconnectTimer.Some? {
        return;
      }
      socket := Some(|sockets|);
      sockets := sockets + [Socket(Connecting, true, [])];
    }

    method Reconnect()
      requires InRange(View())
      modifies this
      ensures View() == UpdateConnection(old(View()))
    {
      if closed || layout.None? || subscriptions == [] {
        reconnectTimer := None;
        DetachSocket();
        return;
      }
      OpenSocket();
      syncScheduled := true;
    }

    method SubscribeSlot(input: Input)
      requires InRange(View())
      modifies this
      ensures View() == DoSubscribe(old(View()), input)
    {
      var found := FindSlot(entries, subscriptions, input.slot);
      if found.Some? {
        var previous := subscriptions[found.value];
        entries := entries[previous := Retire(entries[previous])];
      }
      var id := AllocateSubscriptionId();
      var serial := |entries|;
      entries := entries + [Entry(input, id, [], false, false)];
      if found.Some? {
        subscriptions := subscriptions[found.value := serial];
      } else {
        subscriptions := subscriptions + [serial];
      }
      Reconnect();
    }

    method CloseSlot(serial: nat)
      requires InRange(View()) && serial < |entries|
      modifies this
      ensures View() == DoCloseRegistration(old(View()), serial)
    {
      if entries[serial].closed {
        return;
      }
      var found := FindSlot(entries, subscriptions, entries[serial].input.slot);
      entries := entries[serial := Retire(entries[serial])];
      if found.Some? && subscriptions[found.value] == serial {
        subscriptions := RemoveAt(subscriptions, found.value);
      }
      Reconnect();
    }

    method Close()
      requires InRange(View())
      modifies this
      ensures View() == DoCloseClient(old(View()))
    {
      if closed {
        return;
      }
      closed := true;
      for i := 0 to |subscriptions|
        invariant subscriptions == old(subscriptions) && Known(old(entries), subscriptions[..i])
        invariant View() == old(View()).(closed := true, entries := RetireAll(old(entries), subscriptions[..i]))
      {
        assert subscriptions[..i + 1][..i] == subscriptions[..i];
        entries := entries[subscriptions[i] := Retire(entries[subscriptions[i]])];
      }
      assert subscriptions[..|subscriptions|] == subscriptions;
      subscriptions := [];
      reconnectTimer := None;
      DetachSocket();
    }

    method OnMessage(message: Message)
      requires InRange(View())
      modifies this
      ensures View() == HandleMessage(old(View()), message)
    {
      match message
      case Text(Irrelevant) =>
      case Text(Fatal) => NotifyAll(Failed);
      case Text(ReadyFor(slot, id)) =>
        var to := Addressee(View(), slot, id);
        if to.Some? {
          reconnectAttempt := 0;
          notices := notices + [ToOne(to.value, Ready)];
        }
      case Text(ErrorFor(slot, id)) =>
        var to := Addressee(View(), slot, id);
        if to.Some? {
          reconnectAttempt := 0;
          entries := entries[to.value := Settle(entries[to.value], false)];
          notices := notices + [ToOne(to.value, Failed)];
        }
      case Binary(data) =>
        var tag := FrameTag(data);
        if tag.None? {
          return;
        }
        var to := Addressee(View(), tag.value.0, tag.value.1);
        if to.Some? {
          reconnectAttempt := 0;
          notices := notices + [ToOne(to.value, Frame(data[6..]))];
          entries := entries[to.value := Settle(entries[to.value], true)];
        }
    }

    method SetSocketReady(k: nat, ready: ReadyState)
      requires k < |sockets|
      modifies this
      ensures View() == SetReady(old(View()), k, ready)
    {
      sockets := sockets[k := sockets[k].(ready := ready)];
    }

    method HandleSocketEvent(e: Event)
      requires InRange(View()) && (e.Opened? || e.Received? || e.PeerClosing? || e.SocketClosed?)
      modifies this
      ensures View() == Step(old(View()), e)
    {
      match e
      case Opened(k) =>
        if k < |sockets| && sockets[k].ready == Connecting {
          var heard := Heard(View(), k);
          SetSocketReady(k, Open);
          if heard {
            syncScheduled := true;
          }
        }
      case Received(k, message) =>
        if Heard(View(), k) {
          OnMessage(message);
        }
      case PeerClosing(k) =>
        if k < |sockets| && sockets[k].ready != Closed {
          SetSocketReady(k, Closing);
        }
      case SocketClosed(k) =>
        if k < |sockets| && sockets[k].ready != Closed {
          var heard := Heard(View(), k);
          SetSocketReady(k, Closed);
          if heard {
            socket := None;
            ArmReconnect();
          }
        }
    }

    method Handle(e: Event)
      requires InRange(View())
      modifies this
      ensures View() == Step(old(View()), e)
    {
      match e
      case SetLayout(slots) =>
        if layout != slots {
          layout := slots;
          Reconnect();
        }
      case Subscribe(input) => SubscribeSlot(input);
      case CloseRegistration(serial) =>
        if serial < |entries| {
          CloseSlot(serial);
        }
      case CloseClient => Close();
      case TimerFired =>
        if reconnectTimer.Some? {
          reconnectTimer := None;
          OpenSocket();
        }
      case MicrotaskRan =>
        if syncScheduled {
          syncScheduled := false;
          Transmit();
        }
      case Opened(_) | Received(_, _) | PeerClosing(_) | SocketClosed(_) => HandleSocketEvent(e);
    }

    /** Any sequence of calls and browser events leaves the client in its invariant. */
    method Drive(seed: nat, events: seq<Event>)
      requires View() == Start(seed)
      modifies this
      ensures View() == Play(seed, events) && Inv(seed, View())
    {
      for i := 0 to |events|
        invariant View() == Play(seed, events[..i])
      {
        assert events[..i + 1][..i] == events[..i];
        Handle(events[i]);
      }
      assert events[..|events|] == events;
    }
  }
}
