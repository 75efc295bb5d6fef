/** Streaming notifications to a client that reconnects with the id of the last event it received, in
    the Last-Event-ID header of section 9.2.4 of the WHATWG HTML Standard. */
module EventStream {
  import opened Model
  import opened Text

  datatype Property = Text(value: string) | Other

  type Properties = map<string, Property>

  datatype Message = Message(properties: Properties, data: seq<string>)

  datatype Event = Event(id: string, kind: string, data: string)

  /** Who is connected: the user and the groups the user is in. */
  datatype Client = Client(userId: nat, groups: set<string>)

  // Which messages a client is sent.

  function IsUserMessageOwner(userId: nat, properties: Properties): Result<bool> {
    if "owner" !in properties then Ok(true)
    else
      match properties["owner"]
      case Other => Err
      case Text(owner) =>
        var id := ParseUint64(owner);
        if id.Err? then Err else Ok(id.value == userId)
  }

  function IsInMessageGroup(groups: set<string>, properties: Properties): Result<bool> {
    if "group" !in properties then Err
    else
      match properties["group"]
      case Other => Err
      case Text(group) => Ok(group in groups)
  }

  predicate PostFilter(client: Client, m: Message) {
    IsUserMessageOwner(client.userId, m.properties) == Ok(true) && IsInMessageGroup(client.groups, m.properties) == Ok(true)
  }

  function MapMessageToEvent(offset: nat, m: Message): Result<Event> {
    if m.data == [] || "kind" !in m.properties then Err
    else
      match m.properties["kind"]
      case Other => Err
      case Text(kind) => Ok(Event(FormatNat(offset), kind, m.data[0]))
  }

  /** The event that a client is sent for the message at an offset, if any. */
  function EventFor(client: Client, m: Message, offset: nat): Option<Event> {
    if !PostFilter(client, m) then None
    else
      match MapMessageToEvent(offset, m)
      case Ok(e) => Some(e)
      case Err => None
  }

  /** A client is sent exactly the messages for one of its groups that name no owner or the client's
      user, and that have a kind and content; the event carries these. */
  lemma SentExactly(client: Client, m: Message, offset: nat)
    ensures EventFor(client, m, offset) ==
            if && ("owner" in m.properties ==> m.properties["owner"].Text? && ParseUint64(m.properties["owner"].value) == Ok(client.userId))
               && "group" in m.properties && m.properties["group"].Text? && m.properties["group"].value in client.groups
               && "kind" in m.properties && m.properties["kind"].Text? && m.data != []
            then Some(Event(FormatNat(offset), m.properties["kind"].value, m.data[0]))
            else None
  {}

  const MAX_UINT64 := 2 * MAX_INT64 + 1

  /** The message that a notification is published as. */
  function NotificationMessage(userId: nat, group: string, kind: string, payload: string): Message {
    Message(map["group" := Text(group), "owner" := Text(FormatNat(userId)), "kind" := Text(kind)], [payload])
  }

  /** A notification is sent to its own user, while in its group, and to nobody else. */
  lemma NotificationsReachTheirOwner(client: Client, userId: nat, group: string, kind: string, payload: string, offset: nat)
    requires userId <= MAX_UINT64
    ensures var e := EventFor(client, NotificationMessage(userId, group, kind, payload), offset);
            && (e.Some? <==> client.userId == userId && group in client.groups)
            && (e.Some? ==> e.value.kind == kind && e.value.data == payload)
  {
    ParseFormatted(userId);
  }

  // Where a connection starts.

  datatype OffsetSpec = NextPublished | AtOffset(offset: int)

  /** The successor of a 64-bit number, which wraps around. */
  function Successor(v: int): int {
    if v == MAX_INT64 then -MAX_INT64 - 1 else v + 1
  }

  function ComputeOffsetSpec(lastEventId: string): Result<OffsetSpec> {
    if lastEventId == "" then Ok(NextPublished)
    else
      match ParseInt64(lastEventId)
      case Err => Err
      case Ok(v) => Ok(AtOffset(Successor(v)))
  }

  /** The id of an event sends the client to the offset after it. */
  lemma ResumesAfter(offset: nat)
    requires offset < MAX_INT64
    ensures ComputeOffsetSpec(FormatNat(offset)) == Ok(AtOffset(offset + 1))
  {
    ParseFormatted(offset);
  }

  /** Without the header a client starts with the next message; a header that is no 64-bit number is
      refused; any other leads to the number after it, which wraps around. */
  lemma HeaderDecides(lastEventId: string)
    ensures lastEventId == "" ==> ComputeOffsetSpec(lastEventId) == Ok(NextPublished)
    ensures lastEventId != "" ==> (ComputeOffsetSpec(lastEventId).Err? <==> ParseInt64(lastEventId).Err?)
    ensures ComputeOffsetSpec(lastEventId).Ok? && lastEventId != "" ==>
              var offset := ComputeOffsetSpec(lastEventId).value;
              && offset.AtOffset? && -0x8000_0000_0000_0000 <= offset.offset <= 0x7FFF_FFFF_FFFF_FFFF
              && (offset.offset - ParseInt64(lastEventId).value - 1) % 0x1_0000_0000_0000_0000 == 0
  {
    if lastEventId != "" && ParseInt64(lastEventId).Ok? {
      InRange(lastEventId);
    }
  }

  lemma InRange(s: string)
    requires ParseInt64(s).Ok?
    ensures -MAX_INT64 - 1 <= ParseInt64(s).value <= MAX_INT64
  {}

  // The events a client should see.

  /** The events for the messages from one offset up to another, in order. */
  function EventsBetween(client: Client, log: seq<Message>, from: nat, to: nat): seq<Event>
    requires from <= to <= |log|
    decreases |log| - from
  {
    if from == to then []
    else
      var e := EventFor(client, log[from], from);
      (if e.Some? then [e.value] else []) + EventsBetween(client, log, from + 1, to)
  }

  lemma {:induction false} EventsSplit(client: Client, log: seq<Message>, from: nat, mid: nat, to: nat)
    requires from <= mid <= to <= |log|
    ensures EventsBetween(client, log, from, to) == EventsBetween(client, log, from, mid) + EventsBetween(client, log, mid, to)
    decreases |log| - from
  {
    if from < mid {
      EventsSplit(client, log, from + 1, mid, to);
    }
  }

  lemma EventsExtend(client: Client, log: seq<Message>, from: nat, to: nat)
    requires from <= to < |log|
    ensures EventsBetween(client, log, from, to + 1) ==
            EventsBetween(client, log, from, to) + var e := EventFor(client, log[to], to); if e.Some? then [e.value] else []
  {
    EventsSplit(client, log, from, to, to + 1);
    assert EventsBetween(client, log, to + 1, to + 1) == [];
  }

  lemma {:induction false} EventsOfLongerLog(client: Client, log: seq<Message>, m: Message, from: nat, to: nat)
    requires from <= to <= |log|
    ensures EventsBetween(client, log + [m], from, to) == EventsBetween(client, log, from, to)
    decreases |log| - from
  {
    if from < to {
      EventsOfLongerLog(client, log, m, from + 1, to);
    }
  }

  /** The first of the events belongs to some message; those before it yield none. */
  lemma {:induction false} FirstEvent(client: Client, log: seq<Message>, from: nat, to: nat) returns (offset: nat)
    requires from <= to <= |log| && EventsBetween(client, log, from, to) != []
    ensures from <= offset < to
    ensures EventFor(client, log[offset], offset) == Some(EventsBetween(client, log, from, to)[0])
    ensures EventsBetween(client, log, from, to) == EventsBetween(client, log, offset, to)
    ensures EventsBetween(client, log, from, to)[1..] == EventsBetween(client, log, offset + 1, to)
    ensures EventsBetween(client, log, from, offset + 1) == [EventsBetween(client, log, from, to)[0]]
    decreases |log| - from
  {
    if EventFor(client, log[from], from).Some? {
      offset := from;
      assert EventsBetween(client, log, from + 1, from + 1) == [];
    } else {
      offset := FirstEvent(client, log, from + 1, to);
    }
  }

  /** The offset that an event's id stands for. */
  function OffsetOf(e: Event): nat {
    if AllDigits(e.id) then NatValue(e.id) else 0
  }

  lemma IdOfEvent(client: Client, m: Message, offset: nat)
    requires EventFor(client, m, offset).Some?
    ensures OffsetOf(EventFor(client, m, offset).value) == offset
    ensures EventFor(client, m, offset).value.id == FormatNat(offset)
  {
    ValueOfFormat(offset);
  }

  predicate IsEventOf(client: Client, log: seq<Message>, from: nat, to: nat, e: Event)
    requires to <= |log|
  {
    from <= OffsetOf(e) < to && EventFor(client, log[OffsetOf(e)], OffsetOf(e)) == Some(e)
  }

  predicate Ascending(events: seq<Event>) {
    forall i, j :: 0 <= i < j < |events| ==> OffsetOf(events[i]) < OffsetOf(events[j])
  }

  lemma LowerFirst(e: Event, events: seq<Event>)
    requires Ascending(events) && forall e' :: e' in events ==> OffsetOf(e) < OffsetOf(e')
    ensures Ascending([e] + events)
  {}

  /** Each event belongs to one message, and they come in the order of their offsets. */
  lemma {:induction false} EventsInOrder(client: Client, log: seq<Message>, from: nat, to: nat)
    requires from <= to <= |log|
    ensures forall e :: e in EventsBetween(client, log, from, to) ==> IsEventOf(client, log, from, to, e)
    ensures forall e :: e in EventsBetween(client, log, from, to) ==>
              from <= OffsetOf(e) < to && EventFor(client, log[OffsetOf(e)], OffsetOf(e)) == Some(e)
    ensures Ascending(EventsBetween(client, log, from, to))
    ensures var events := EventsBetween(client, log, from, to);
            forall i, j :: 0 <= i < j < |events| ==> OffsetOf(events[i]) < OffsetOf(events[j])
    decreases |log| - from
  {
    if from < to {
      hide EventFor, OffsetOf, Ascending;
      EventsInOrder(client, log, from + 1, to);
      var e, rest := EventFor(client, log[from], from), EventsBetween(client, log, from + 1, to);
      assert EventsBetween(client, log, from, to) == (if e.Some? then [e.value] else []) + rest;
      hide EventsBetween;
      forall e' | e' in rest
        ensures IsEventOf(client, log, from, to, e') && from < OffsetOf(e')
      {
        assert IsEventOf(client, log, from + 1, to, e');
      }
      if e.Some? {
        IdOfEvent(client, log[from], from);
        LowerFirst(e.value, rest);
      } else {
        assert [] + rest == rest;
      }
    }
  }

  /** And every message that has an event contributes it. */
  lemma {:induction false} EventsComplete(client: Client, log: seq<Message>, from: nat, to: nat, offset: nat)
    requires from <= offset < to <= |log| && EventFor(client, log[offset], offset).Some?
    ensures EventFor(client, log[offset], offset).value in EventsBetween(client, log, from, to)
    decreases |log| - from
  {
    if from < offset {
      EventsComplete(client, log, from + 1, to, offset);
    }
  }

  // The protocol.

  /** The stream, the consumer's position in it, what was sent but has not arrived, and what the
      client has received. */
  datatype State = State(
    log: seq<Message>,
    connected: bool,
    position: nat,
    wire: seq<Event>,
    received: seq<Event>,
    lastEventId: string)

  datatype Step = Publish(m: Message) | Connect | Consume | Receive | Drop

  const INIT := State([], false, 0, [], [], "")

  predicate Enabled(client: Client, s: State, step: Step) {
    match step
    case Publish(_) => |s.log| < MAX_INT64
    case Connect => !s.connected && client.groups != {} && ComputeOffsetSpec(s.lastEventId).Ok?
    case Consume => s.connected && s.position < |s.log|
    case Receive => s.connected && s.wire != []
    case Drop => s.connected
  }

  /** The position in the stream that a connection starts from. */
  function Start(spec: OffsetSpec, published: nat): nat {
    match spec
    case NextPublished => published
    case AtOffset(offset) => if offset < 0 then 0 else offset
  }

  function Apply(client: Client, s: State, step: Step): State
    requires Enabled(client, s, step)
  {
    match step
    case Publish(m) => s.(log := s.log + [m])
    case Connect => s.(connected := true, position := Start(ComputeOffsetSpec(s.lastEventId).value, |s.log|))
    case Consume =>
      var e := EventFor(client, s.log[s.position], s.position);
      s.(position := s.position + 1, wire := s.wire + if e.Some? then [e.value] else [])
    case Receive => s.(wire := s.wire[1..], received := s.received + [s.wire[0]], lastEventId := s.wire[0].id)
    case Drop => s.(connected := false, wire := [])
  }

  /** `states` are the states of a run. */
  ghost predicate IsRun(client: Client, states: seq<State>) {
    states != [] && states[0] == INIT && forall i :: 0 < i < |states| ==> Next(client, states[i - 1], states[i])
  }

  ghost predicate Next(client: Client, s: State, s': State) {
    exists step :: Enabled(client, s, step) && s' == Apply(client, s, step)
  }

  ghost predicate Reachable(client: Client, s: State) {
    exists states :: IsRun(client, states) && states[|states| - 1] == s
  }

  /** The client has received the events from one offset up to another; what is on the wire continues
      from there up to the consumer's position. */
  ghost predicate UpTo(client: Client, s: State, from: nat, to: nat) {
    && from <= to <= |s.log| <= MAX_INT64
    && s.received == EventsBetween(client, s.log, from, to)
    && (if s.received == [] then s.lastEventId == "" else to > 0 && s.received[|s.received| - 1].id == s.lastEventId == FormatNat(to - 1))
    && (if s.connected then to <= s.position <= |s.log| && s.wire == EventsBetween(client, s.log, to, s.position) else s.wire == [])
  }

  /** What a step does to the stream and to a new connection's position. */
  lemma StepIsAsSaid(client: Client, s: State, step: Step)
    requires Enabled(client, s, step)
    ensures Apply(client, s, step).log == if step.Publish? then s.log + [step.m] else s.log
    ensures step.Connect? ==>
              && client.groups != {}
              && Apply(client, s, step).position ==
                 match ComputeOffsetSpec(s.lastEventId).value
                 case NextPublished => |s.log|
                 case AtOffset(offset) => if offset >= 0 then offset else 0
  {}

  /** Everything received came from the given offset on, without a gap. */
  ghost predicate UpFrom(client: Client, s: State, from: nat) {
    exists to: nat :: UpTo(client, s, from, to)
  }

  ghost predicate InOrder(client: Client, s: State) {
    exists from: nat :: UpFrom(client, s, from)
  }

  /** Until a client has received something, each connection starts with the next message published. */
  lemma FirstConnectStartsNow(client: Client, s: State)
    requires InOrder(client, s) && s.received == [] && Enabled(client, s, Connect)
    ensures Apply(client, s, Connect).position == |s.log|
    ensures UpFrom(client, Apply(client, s, Connect), |s.log|)
  {
    var from: nat :| UpFrom(client, s, from);
    var to: nat :| UpTo(client, s, from, to);
    assert UpTo(client, Apply(client, s, Connect), |s.log|, |s.log|);
  }

  lemma ReconnectKeeps(client: Client, s: State, from: nat, to: nat)
    requires UpTo(client, s, from, to) && s.received != [] && Enabled(client, s, Connect)
    ensures UpFrom(client, Apply(client, s, Connect), from)
  {
    ResumesAfter(to - 1);
    assert Apply(client, s, Connect).position == to;
    assert UpTo(client, Apply(client, s, Connect), from, to);
  }

  lemma ReceiveKeeps(client: Client, s: State, from: nat, to: nat)
    requires UpTo(client, s, from, to) && Enabled(client, s, Receive)
    ensures UpFrom(client, Apply(client, s, Receive), from)
  {
    hide EventsBetween, EventFor;
    var offset := FirstEvent(client, s.log, to, s.position);
    IdOfEvent(client, s.log[offset], offset);
    EventsSplit(client, s.log, from, to, offset + 1);
    assert UpTo(client, Apply(client, s, Receive), from, offset + 1);
  }

  lemma PublishKeeps(client: Client, s: State, from: nat, to: nat, m: Message)
    requires UpTo(client, s, from, to) && Enabled(client, s, Publish(m))
    ensures UpFrom(client, Apply(client, s, Publish(m)), from)
  {
    EventsOfLongerLog(client, s.log, m, from, to);
    if s.connected {
      EventsOfLongerLog(client, s.log, m, to, s.position);
    }
    assert UpTo(client, Apply(client, s, Publish(m)), from, to);
  }

  lemma ConsumeKeeps(client: Client, s: State, from: nat, to: nat)
    requires UpTo(client, s, from, to) && Enabled(client, s, Consume)
    ensures UpFrom(client, Apply(client, s, Consume), from)
  {
    hide EventFor;
    EventsExtend(client, s.log, to, s.position);
    assert UpTo(client, Apply(client, s, Consume), from, to);
  }

  /** Only a connection before anything was received changes where the client's events start. */
  lemma StepKeepsStart(client: Client, s: State, step: Step, from: nat)
    requires UpFrom(client, s, from) && Enabled(client, s, step) && (step.Connect? ==> s.received != [])
    ensures UpFrom(client, Apply(client, s, step), from)
  {
    hide EventsBetween, EventFor, ComputeOffsetSpec;
    var to: nat :| UpTo(client, s, from, to);
    match step {
      case Publish(m) => PublishKeeps(client, s, from, to, m);
      case Connect => ReconnectKeeps(client, s, from, to);
      case Receive => ReceiveKeeps(client, s, from, to);
      case Consume => ConsumeKeeps(client, s, from, to);
      case Drop => assert UpTo(client, Apply(client, s, Drop), from, to);
    }
  }

  lemma StepKeepsOrder(client: Client, s: State, step: Step)
    requires InOrder(client, s) && Enabled(client, s, step)
    ensures InOrder(client, Apply(client, s, step))
  {
    hide UpFrom, Apply, Enabled;
    var from: nat :| UpFrom(client, s, from);
    if step.Connect? && s.received == [] {
      FirstConnectStartsNow(client, s);
    } else {
      StepKeepsStart(client, s, step, from);
    }
  }

  lemma {:induction false} RunsStayInOrder(client: Client, states: seq<State>)
    requires IsRun(client, states)
    ensures InOrder(client, states[|states| - 1])
    decreases |states|
  {
    hide InOrder, Apply, Enabled;
    if |states| == 1 {
      InitInOrder(client);
    } else {
      var init, s := states[..|states| - 1], states[|states| - 2];
      RunsStayInOrder(client, init);
      assert Next(client, states[|states| - 2], states[|states| - 1]);
      var step :| Enabled(client, s, step) && states[|states| - 1] == Apply(client, s, step);
      StepKeepsOrder(client, s, step);
    }
  }

  lemma InitInOrder(client: Client)
    ensures InOrder(client, INIT)
  {
    assert UpTo(client, INIT, 0, 0);
    assert UpFrom(client, INIT, 0);
  }

  lemma ReachableStep(client: Client, s: State, step: Step)
    requires Reachable(client, s) && Enabled(client, s, step)
    ensures Reachable(client, Apply(client, s, step))
  {
    var states :| IsRun(client, states) && states[|states| - 1] == s;
    var longer := states + [Apply(client, s, step)];
    forall i | 0 < i < |longer|
      ensures Next(client, longer[i - 1], longer[i])
    {
      if i < |states| {
        assert Next(client, states[i - 1], states[i]);
      }
    }
    assert IsRun(client, longer);
  }

  lemma ReachableInOrder(client: Client, s: State)
    requires Reachable(client, s)
    ensures InOrder(client, s)
  {
    var states :| IsRun(client, states) && states[|states| - 1] == s;
    RunsStayInOrder(client, states);
  }

  /** In every run of publishing, connecting, delivering and dropping connections, what a client has
      received is exactly the events from its first one up to its last one: each once, in order and
      with none left out. Once it has caught up it has every event since its first one. */
  lemma NothingLostOrRepeated(client: Client, s: State)
    requires Reachable(client, s) && s.received != []
    ensures var first, last := OffsetOf(s.received[0]), OffsetOf(s.received[|s.received| - 1]);
            && first <= last < |s.log|
            && s.received == EventsBetween(client, s.log, first, last + 1)
            && (s.connected && s.wire == [] && s.position == |s.log| ==>
                  s.received == EventsBetween(client, s.log, first, |s.log|))
  {
    hide Reachable, EventsBetween, EventFor;
    ReachableInOrder(client, s);
    var from: nat :| UpFrom(client, s, from);
    var to: nat :| UpTo(client, s, from, to);
    var offset := FirstEvent(client, s.log, from, to);
    IdOfEvent(client, s.log[offset], offset);
    ValueOfFormat(to - 1);
    if s.connected {
      EventsSplit(client, s.log, offset, to, s.position);
    }
  }

  // Where a client's events start.

  lemma StepOfRun(client: Client, states: seq<State>, i: nat) returns (step: Step)
    requires IsRun(client, states) && 0 < i < |states|
    ensures Enabled(client, states[i - 1], step) && states[i] == Apply(client, states[i - 1], step)
  {
    assert Next(client, states[i - 1], states[i]);
    step :| Enabled(client, states[i - 1], step) && states[i] == Apply(client, states[i - 1], step);
  }

  lemma InOrderAt(client: Client, states: seq<State>, i: nat)
    requires IsRun(client, states) && i < |states|
    ensures InOrder(client, states[i])
  {
    assert forall k :: 0 < k <= i ==> Next(client, states[k - 1], states[k]);
    RunsStayInOrder(client, states[..i + 1]);
  }

  lemma {:induction false} NothingBeforeConnecting(client: Client, states: seq<State>, i: nat)
    requires IsRun(client, states) && i < |states| && forall k :: 0 <= k <= i ==> !states[k].connected
    ensures states[i].received == []
  {
    if i > 0 {
      NothingBeforeConnecting(client, states, i - 1);
      var step := StepOfRun(client, states, i);
    }
  }

  /** A client that was not connected before has received nothing of what is in the stream. */
  lemma StartsWithNext(client: Client, states: seq<State>, i: nat)
    requires IsRun(client, states) && i < |states| && forall k :: 0 <= k < i ==> !states[k].connected
    ensures UpFrom(client, states[i], |states[i].log|)
  {
    hide EventFor;
    if i == 0 {
      assert UpTo(client, INIT, 0, 0);
    } else {
      NothingBeforeConnecting(client, states, i - 1);
      InOrderAt(client, states, i - 1);
      InOrderAt(client, states, i);
      var step := StepOfRun(client, states, i);
      if step.Connect? {
        FirstConnectStartsNow(client, states[i - 1]);
      } else {
        var from: nat :| UpFrom(client, states[i], from);
        var to: nat :| UpTo(client, states[i], from, to);
        assert UpTo(client, states[i], |states[i].log|, |states[i].log|);
      }
    }
  }

  lemma {:induction false} StartsNoEarlier(client: Client, states: seq<State>, i: nat, j: nat) returns (from: nat)
    requires IsRun(client, states) && i <= j < |states| && UpFrom(client, states[i], |states[i].log|)
    ensures from >= |states[i].log| && UpFrom(client, states[j], from)
    decreases j
  {
    if i == j {
      from := |states[i].log|;
    } else {
      from := StartsNoEarlier(client, states, i, j - 1);
      var step := StepOfRun(client, states, j);
      if step.Connect? && states[j - 1].received == [] {
        InOrderAt(client, states, j - 1);
        FirstConnectStartsNow(client, states[j - 1]);
        from := |states[j - 1].log|;
      } else {
        StepKeepsStart(client, states[j - 1], step, from);
      }
    }
  }

  lemma OnlyLaterEvents(client: Client, states: seq<State>, i: nat)
    requires IsRun(client, states) && i < |states| && UpFrom(client, states[i], |states[i].log|)
    ensures var received := states[|states| - 1].received;
            received != [] ==> OffsetOf(received[0]) >= |states[i].log|
  {
    hide EventsBetween, EventFor;
    var s := states[|states| - 1];
    var from := StartsNoEarlier(client, states, i, |states| - 1);
    var to: nat :| UpTo(client, s, from, to);
    if s.received != [] {
      var offset := FirstEvent(client, s.log, from, to);
      IdOfEvent(client, s.log[offset], offset);
    }
  }

  /** In no run does a client receive a message that was published before it first connected. */
  lemma NoOldEvents(client: Client, states: seq<State>, i: nat)
    requires IsRun(client, states) && i < |states| && forall k :: 0 <= k < i ==> !states[k].connected
    ensures var received := states[|states| - 1].received;
            received != [] ==> OffsetOf(received[0]) >= |states[i].log|
  {
    StartsWithNext(client, states, i);
    OnlyLaterEvents(client, states, i);
  }

  /** Nor what was published before a reconnection, if it had received nothing until then: what is
      published between the drop of a silent connection and the next one is lost. */
  lemma SilentDropLoses(client: Client, states: seq<State>, i: nat)
    requires IsRun(client, states) && i < |states| && !states[i].connected && states[i].received == []
    ensures var received := states[|states| - 1].received;
            received != [] ==> OffsetOf(received[0]) >= |states[i].log|
  {
    InOrderAt(client, states, i);
    var from: nat :| UpFrom(client, states[i], from);
    var to: nat :| UpTo(client, states[i], from, to);
    assert UpTo(client, states[i], |states[i].log|, |states[i].log|);
    OnlyLaterEvents(client, states, i);
  }

  lemma {:induction false} StartStays(client: Client, states: seq<State>, i: nat, j: nat)
    requires IsRun(client, states) && i <= j < |states| && forall k :: 0 <= k < i ==> !states[k].connected
    requires forall k :: i <= k < j && states[k].received == [] ==> states[k].connected
    ensures UpFrom(client, states[j], |states[i].log|)
    decreases j
  {
    if i == j {
      StartsWithNext(client, states, i);
    } else {
      StartStays(client, states, i, j - 1);
      var step := StepOfRun(client, states, j);
      StepKeepsStart(client, states[j - 1], step, |states[i].log|);
    }
  }

  /** And from its first connection on it misses nothing, unless the connection is dropped before it
      has received anything: once it has caught up it has every event since. */
  lemma NothingMissedSinceConnecting(client: Client, states: seq<State>, i: nat)
    requires IsRun(client, states) && i < |states| && forall k :: 0 <= k < i ==> !states[k].connected
    requires forall k :: i <= k < |states| && states[k].received == [] ==> states[k].connected
    ensures var s := states[|states| - 1];
            |states[i].log| <= |s.log| &&
            (s.connected && s.wire == [] && s.position == |s.log| ==>
               s.received == EventsBetween(client, s.log, |states[i].log|, |s.log|))
  {
    hide EventsBetween, EventFor;
    var s, from := states[|states| - 1], |states[i].log|;
    StartStays(client, states, i, |states| - 1);
    var to: nat :| UpTo(client, s, from, to);
    if s.connected {
      EventsSplit(client, s.log, from, to, s.position);
    }
  }

  /** A client that is not connected can connect, if it is in some group. */
  lemma CanConnect(client: Client, s: State)
    requires Reachable(client, s) && !s.connected
    ensures Enabled(client, s, Connect) <==> client.groups != {}
  {
    ReachableInOrder(client, s);
    var from: nat :| UpFrom(client, s, from);
    var to: nat :| UpTo(client, s, from, to);
    if s.received != [] {
      ResumesAfter(to - 1);
    }
  }

  /** A connected client can always catch up, without another message or connection. */
  lemma {:induction false} ConnectedCatchesUp(client: Client, s: State, from: nat) returns (s': State)
    requires Reachable(client, s) && s.connected && UpFrom(client, s, from)
    ensures Reachable(client, s') && s'.connected && s'.log == s.log && s.received <= s'.received
    ensures from <= |s.log| && s'.received == EventsBetween(client, s.log, from, |s.log|)
    decreases if s.position < |s.log| then |s.log| - s.position else 0, |s.wire|
  {
    hide Reachable, EventsBetween, EventFor;
    var to: nat :| UpTo(client, s, from, to);
    if s.wire == [] && s.position == |s.log| {
      EventsSplit(client, s.log, from, to, |s.log|);
      return s;
    }
    var step := if s.position < |s.log| then Consume else Receive;
    ReachableStep(client, s, step);
    StepKeepsStart(client, s, step, from);
    s' := ConnectedCatchesUp(client, Apply(client, s, step), from);
  }

  /** So can any client that has received something: it comes to have every event since its first one. */
  lemma CatchesUp(client: Client, s: State) returns (s': State)
    requires Reachable(client, s) && s.received != [] && client.groups != {}
    ensures Reachable(client, s') && s'.log == s.log && s.received <= s'.received
    ensures OffsetOf(s.received[0]) <= |s.log|
    ensures s'.received == EventsBetween(client, s.log, OffsetOf(s.received[0]), |s.log|)
  {
    hide Reachable, EventsBetween, EventFor;
    NothingLostOrRepeated(client, s);
    ReachableInOrder(client, s);
    var from: nat :| UpFrom(client, s, from);
    var first := s;
    if !s.connected {
      CanConnect(client, s);
      ReachableStep(client, s, Connect);
      StepKeepsStart(client, s, Connect, from);
      first := Apply(client, s, Connect);
    }
    s' := ConnectedCatchesUp(client, first, from);
    NothingLostOrRepeated(client, s');
    SameFirst(client, s', from);
  }

  lemma SameFirst(client: Client, s: State, from: nat)
    requires from <= |s.log| && s.received == EventsBetween(client, s.log, from, |s.log|) != []
    ensures OffsetOf(s.received[0]) <= |s.log| && s.received == EventsBetween(client, s.log, OffsetOf(s.received[0]), |s.log|)
  {
    var offset := FirstEvent(client, s.log, from, |s.log|);
    IdOfEvent(client, s.log[offset], offset);
  }

  /** A message published while a client is connected reaches it, if it is one for that client. */
  lemma PublishedArrives(client: Client, s: State, m: Message) returns (s': State)
    requires Reachable(client, s) && s.connected && Enabled(client, s, Publish(m)) && EventFor(client, m, |s.log|).Some?
    ensures Reachable(client, s') && s'.log == s.log + [m] && s.received <= s'.received
    ensures s'.received != [] && s'.received[|s'.received| - 1] == EventFor(client, m, |s.log|).value
  {
    var next, from := AfterPublish(client, s, m);
    hide *;
    s' := ConnectedCatchesUp(client, next, from);
    EventsExtend(client, next.log, from, |s.log|);
    LastOfSum(EventsBetween(client, next.log, from, |s.log|), EventFor(client, m, |s.log|).value);
  }

  lemma AfterPublish(client: Client, s: State, m: Message) returns (next: State, from: nat)
    requires Reachable(client, s) && s.connected && Enabled(client, s, Publish(m))
    ensures Reachable(client, next) && next.connected && next.log == s.log + [m] && next.log[|s.log|] == m && next.received == s.received
    ensures from <= |s.log| && UpFrom(client, next, from)
  {
    ReachableInOrder(client, s);
    ReachableStep(client, s, Publish(m));
    from :| UpFrom(client, s, from);
    var to: nat :| UpTo(client, s, from, to);
    hide Reachable, UpFrom, EventsBetween;
    next := Apply(client, s, Publish(m));
    StepKeepsStart(client, s, Publish(m), from);
  }

  lemma LastOfSum<T>(s: seq<T>, x: T)
    ensures s + [x] != [] && (s + [x])[|s + [x]| - 1] == x
  {}
}
