/** The preview-wall client's sockets: which there are, and when one is wanted. */
module PreviewSockets {
  import opened Wrappers
  import opened PreviewWall

  /** Every socket but the current one is on its way out and has been let go; the current one is not closed. */
  predicate Tidy(w: Wall) {
    && (forall k :: 0 <= k < |w.sockets| && w.socket != Some(k) ==>
          (w.sockets[k].ready == Closing || w.sockets[k].ready == Closed)
          && (w.sockets[k].attached ==> w.sockets[k].ready == Closed))
    && (w.socket.Some? ==>
          w.socket.value < |w.sockets| && w.sockets[w.socket.value].ready != Closed
          && w.sockets[w.socket.value].attached)
  }

  lemma {:induction false} DetachingTidies(w: Wall)
    requires InRange(w) && Tidy(w)
    ensures Tidy(DetachAndCloseSocket(w)) && DetachAndCloseSocket(w).socket == None
  {}

  lemma {:induction false} UpdatingTidies(w: Wall, before: Wall)
    requires InRange(w) && Tidy(before) && w.sockets == before.sockets && w.socket == before.socket
    ensures Tidy(UpdateConnection(w))
  {
    if !Active(w) {
      DetachingTidies(w.(timer := None));
    }
  }

  lemma {:induction false} MessageKeepsSockets(w: Wall, message: Message)
    requires InRange(w)
    ensures HandleMessage(w, message).sockets == w.sockets && HandleMessage(w, message).socket == w.socket
  {}

  lemma {:induction false} SubscribingTidies(w: Wall, input: Input)
    requires InRange(w) && Tidy(w)
    ensures Tidy(DoSubscribe(w, input))
  {
    var found := FindSlot(w.entries, w.subscriptions, input.slot);
    if found.None? {
      UpdatingTidies(AddedSlot(w, input), w);
    } else {
      UpdatingTidies(ReplacedSlot(w, input, found.value), w);
    }
  }

  lemma {:induction false} RegistrationTidies(w: Wall, serial: nat)
    requires InRange(w) && Tidy(w) && serial < |w.entries|
    ensures Tidy(DoCloseRegistration(w, serial))
  {
    if !w.entries[serial].closed {
      var found := FindSlot(w.entries, w.subscriptions, w.entries[serial].input.slot);
      var holds := found.Some? && w.subscriptions[found.value] == serial;
      var after := w.(entries := w.entries[serial := Retire(w.entries[serial])],
                      subscriptions := if holds then RemoveAt(w.subscriptions, found.value) else w.subscriptions);
      UpdatingTidies(after, w);
    }
  }

  lemma {:induction false} ClosingTidies(w: Wall)
    requires InRange(w) && Tidy(w)
    ensures Tidy(DoCloseClient(w))
  {
    if !w.closed {
      DetachingTidies(w.(closed := true, entries := RetireAll(w.entries, w.subscriptions), subscriptions := [],
                         timer := None));
    }
  }

  lemma {:induction false} SchedulingKeepsSockets(w: Wall)
    requires InRange(w)
    ensures ScheduleReconnect(w).sockets == w.sockets && ScheduleReconnect(w).socket == w.socket
  {}

  lemma {:induction false} SocketCloseTidies(w: Wall, k: nat)
    requires InRange(w) && Tidy(w)
    ensures Tidy(Step(w, SocketClosed(k)))
  {
    if Heard(w, k) {
      SchedulingKeepsSockets(SetReady(w, k, Closed).(socket := None));
    }
  }

  lemma {:induction false} StepTidies(w: Wall, e: Event)
    requires InRange(w) && Tidy(w)
    ensures Tidy(Step(w, e))
  {
    match e
    case SetLayout(slots) => UpdatingTidies(w.(layout := slots), w);
    case Subscribe(input) => SubscribingTidies(w, input);
    case CloseRegistration(serial) => if serial < |w.entries| { RegistrationTidies(w, serial); }
    case CloseClient => ClosingTidies(w);
    case Received(k, message) => MessageKeepsSockets(w, message);
    case SocketClosed(k) => SocketCloseTidies(w, k);
    case _ =>
  }

  lemma {:induction false} PlayIsTidy(seed: nat, events: seq<Event>)
    ensures Tidy(Play(seed, events))
  {
    if events != [] {
      PlayIsTidy(seed, events[..|events| - 1]);
      StepTidies(Play(seed, events[..|events| - 1]), events[|events| - 1]);
    }
  }

  /** Over every run no socket is left behind: all but the current one are closing or closed, and none of them
      still has handlers while it closes. */
  lemma {:induction false} NoSocketIsLeft(seed: nat, events: seq<Event>)
    ensures var w := Play(seed, events);
            && (forall k :: 0 <= k < |w.sockets| && w.socket != Some(k) ==>
                  w.sockets[k].ready == Closed || (w.sockets[k].ready == Closing && !w.sockets[k].attached))
            && (w.socket.Some? ==> w.socket.value < |w.sockets| && w.sockets[w.socket.value].ready != Closed)
  {
    PlayIsTidy(seed, events);
  }

  /** Over every run the client has a socket, or is waiting to make one, exactly while it is not closed, has a
      layout and some subscription is open; it never does both. */
  lemma {:induction false} ConnectsExactly(seed: nat, events: seq<Event>)
    ensures var w := Play(seed, events);
            && (w.socket.Some? || w.timer.Some? <==>
                  !w.closed && w.layout.Some? && exists s :: 0 <= s < |w.entries| && !w.entries[s].closed)
            && !(w.socket.Some? && w.timer.Some?)
  {
    var w := Play(seed, events);
    if w.subscriptions != [] {
      assert w.subscriptions[0] in w.subscriptions;
      assert !w.entries[w.subscriptions[0]].closed;
    }
  }
}
