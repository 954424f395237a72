/** One task's WebSocket: what arrives and when, how long writes take, and what was handed over. */
module Sockets {
  import opened Bytes
  import opened SealedTypes
  import opened Wrappers
  import opened ResponseSlots

  // Messages

  datatype Refusal = NotReady | NotAttested | NotOpened | AboveLimits | ReleaseNotAccepted | Faulted

  datatype CallError = CallTimeout | TransportFailed | Refused(refusal: Refusal)

  /** A host failure; an error envelope names one. */
  datatype ApiError =
    | IdleTimeout | OversizedRequest | InvalidMessage | UnexpectedFrame | EmptyRequest | ClientDisconnected
    | InternalError
    | AssignmentFailed(cause: CallError)
    | MatchFailed(cause: CallError)

  datatype Assignment = Assignment(document: seq<byte>, publicKey: seq<byte>, releaseHashes: seq<seq<byte>>)

  /** A text frame, as what each parser makes of it. */
  datatype Text = Text(isRequest: bool, assignment: Option<Assignment>, envelope: Option<ApiError>)

  datatype Message = TextFrame(text: Text) | Binary(data: seq<byte>) | Ping | Pong | Close

  const REQUEST_TEXT: Text := Text(true, None, None)

  function AssignmentText(a: Assignment): Text { Text(false, Some(a), None) }

  function EnvelopeText(e: ApiError): Text { Text(false, None, Some(e)) }

  // The socket as a value

  /** `TooLong` is a frame the socket layer cuts off at its size limit, `Broken` any other read
      error, `Ended` the end of the stream. */
  datatype Event = Frame(message: Message) | TooLong | Broken | Ended

  datatype Arrival = Arrival(at: Instant, event: Event)

  datatype Write = Write(takes: nat, ok: bool)

  /** `Handed` is a frame given to the socket, `done` if its write completed in time. */
  datatype Entry = Handed(message: Message, done: bool) | Called(body: seq<byte>)

  /** Nothing arrives after the last arrival, and a write past the last one listed never completes. */
  datatype Wire = Wire(now: Instant, inbound: seq<Arrival>, writes: seq<Write>, log: seq<Entry>)

  /** `timeout_at(deadline, recv())`: a frame that is there when the timer fires still counts. */
  function Receive(w: Wire, deadline: Instant): (Wire, Option<Event>) {
    var until := Max(w.now, deadline);
    if w.inbound != [] && w.inbound[0].at <= until then
      (w.(now := Max(w.now, w.inbound[0].at), inbound := w.inbound[1..]), Some(w.inbound[0].event))
    else (w.(now := until), None)
  }

  /** A write that was given up is over; the peer may still take the next one. */
  function Later(writes: seq<Write>): seq<Write> { if writes == [] then [] else writes[1..] }

  datatype Sending = Sent | WriteFailed | WriteTimedOut

  /** `timeout_at(deadline, send(message))`. */
  function Send(w: Wire, message: Message, deadline: Instant): (Wire, Sending) {
    var until := Max(w.now, deadline);
    if w.writes != [] && w.now + w.writes[0].takes <= until then
      var ok := w.writes[0].ok;
      (w.(now := w.now + w.writes[0].takes, writes := w.writes[1..], log := w.log + [Handed(message, ok)]),
       if ok then Sent else WriteFailed)
    else (w.(now := until, writes := Later(w.writes), log := w.log + [Handed(message, false)]), WriteTimedOut)
  }

  /** Receives until `react` has an answer; None when the deadline passes first. */
  function Listen<R>(w: Wire, deadline: Instant, react: Event -> Option<R>): (Wire, Option<R>)
    decreases |w.inbound|
  {
    var (w', event) := Receive(w, deadline);
    if event.None? then (w', None)
    else
      var answer := react(event.value);
      if answer.Some? then (w', answer) else Listen(w', deadline, react)
  }

  class Socket {
    var now: Instant
    var inbound: seq<Arrival>
    var writes: seq<Write>
    ghost var log: seq<Entry>

    ghost function State(): Wire reads this { Wire(now, inbound, writes, log) }

    method ReceiveBy(deadline: Instant) returns (event: Option<Event>)
      modifies this
      ensures (State(), event) == Receive(old(State()), deadline)
      ensures event.Some? ==> |inbound| < old(|inbound|)
    {
      var until := Max(now, deadline);
      if inbound != [] && inbound[0].at <= until {
        event := Some(inbound[0].event);
        now, inbound := Max(now, inbound[0].at), inbound[1..];
      } else {
        now, event := until, None;
      }
    }

    method SendBy(message: Message, deadline: Instant) returns (r: Sending)
      modifies this
      ensures (State(), r) == Send(old(State()), message, deadline)
    {
      var until := Max(now, deadline);
      if writes != [] && now + writes[0].takes <= until {
        r := if writes[0].ok then Sent else WriteFailed;
        now, writes := now + writes[0].takes, writes[1..];
      } else {
        r, now, writes := WriteTimedOut, until, Later(writes);
      }
      log := log + [Handed(message, r == Sent)];
    }

    method RecordCall(body: seq<byte>)
      modifies this`log
      ensures State() == old(State()).(log := old(log) + [Called(body)])
    {
      log := log + [Called(body)];
    }

    /** Time the task spends on something other than this socket. */
    method Pass(time: nat)
      modifies this`now
      ensures State() == old(State()).(now := old(now) + time)
    {
      now := now + time;
    }
  }

  // Deadlines

  /** No ignored frame extends a wait: it ends by the deadline it started with, whatever arrives. */
  lemma {:induction false} ListenEndsByDeadline<R>(w: Wire, deadline: Instant, react: Event -> Option<R>)
    ensures var (w', _) := Listen(w, deadline, react);
            w.now <= w'.now <= Max(w.now, deadline) && w'.writes == w.writes && w'.log == w.log
    decreases |w.inbound|
  {
    var (w1, event) := Receive(w, deadline);
    if event.Some? && react(event.value).None? { ListenEndsByDeadline(w1, deadline, react); }
  }

  lemma SendEndsByDeadline(w: Wire, m: Message, deadline: Instant)
    ensures var (w', r) := Send(w, m, deadline);
            w.now <= w'.now <= Max(w.now, deadline) && w'.inbound == w.inbound && w'.log == w.log + [Handed(m, r == Sent)]
  {}

  predicate IsPing(e: Event) { e.Frame? && (e.message.Ping? || e.message.Pong?) }

  function WithoutPings(inbound: seq<Arrival>): seq<Arrival> {
    if inbound == [] then []
    else (if IsPing(inbound[0].event) then [] else [inbound[0]]) + WithoutPings(inbound[1..])
  }

  predicate InOrder(inbound: seq<Arrival>) {
    forall i, j :: 0 <= i < j < |inbound| ==> inbound[i].at <= inbound[j].at
  }

  /** Answers pings, and only pings, with nothing. */
  ghost predicate IgnoresPings<R>(react: Event -> Option<R>) {
    forall e :: react(e).None? <==> IsPing(e)
  }

  /** Pings are invisible: with all of them taken out, the same frame is heard at the same time. */
  lemma {:induction false} PingsAreInvisible<R>(w: Wire, deadline: Instant, react: Event -> Option<R>)
    requires IgnoresPings(react) && InOrder(w.inbound)
    ensures var (w1, heard1) := Listen(w, deadline, react);
            var (w2, heard2) := Listen(w.(inbound := WithoutPings(w.inbound)), deadline, react);
            heard1 == heard2 && w1.now == w2.now && w2.inbound == WithoutPings(w1.inbound)
    decreases |w.inbound|
  {
    if w.inbound != [] {
      var first, rest := w.inbound[0], w.inbound[1..];
      var quiet := w.(inbound := WithoutPings(rest));
      NothingSooner(rest, first.at);
      if first.at > Max(w.now, deadline) {
        assert WithoutPings(w.inbound) != [] ==> WithoutPings(w.inbound)[0].at >= first.at;
      } else if IsPing(first.event) {
        var moved := w.(now := Max(w.now, first.at), inbound := rest);
        PingsAreInvisible(moved, deadline, react);
        LateStartSameHearing(quiet, moved.now, deadline, react);
        assert react(first.event).None? && Listen(w, deadline, react) == Listen(moved, deadline, react);
        assert WithoutPings(w.inbound) == WithoutPings(rest);
      } else {
        assert WithoutPings(w.inbound)[1..] == WithoutPings(rest);
      }
    }
  }

  lemma {:induction false} NoPingsLeft(inbound: seq<Arrival>)
    ensures forall a :: a in WithoutPings(inbound) ==> !IsPing(a.event)
  {
    if inbound != [] { NoPingsLeft(inbound[1..]); }
  }

  function Quiet(w: Wire): Wire { w.(inbound := WithoutPings(w.inbound)) }

  lemma {:induction false} ListenKeepsOrder<R>(w: Wire, deadline: Instant, react: Event -> Option<R>)
    requires InOrder(w.inbound)
    ensures InOrder(Listen(w, deadline, react).0.inbound)
    decreases |w.inbound|
  {
    var (w1, event) := Receive(w, deadline);
    if event.Some? && react(event.value).None? { ListenKeepsOrder(w1, deadline, react); }
  }

  /** Hearing through the pings is hearing without them, and leaves everything else alike. */
  lemma ListenQuiet<R>(w: Wire, deadline: Instant, react: Event -> Option<R>)
    requires IgnoresPings(react) && InOrder(w.inbound)
    ensures Listen(Quiet(w), deadline, react) == (Quiet(Listen(w, deadline, react).0), Listen(w, deadline, react).1)
    ensures InOrder(Listen(w, deadline, react).0.inbound)
  {
    PingsAreInvisible(w, deadline, react);
    ListenEndsByDeadline(w, deadline, react);
    ListenEndsByDeadline(Quiet(w), deadline, react);
    ListenKeepsOrder(w, deadline, react);
  }

  lemma {:induction false} NothingSooner(inbound: seq<Arrival>, at: Instant)
    requires forall i :: 0 <= i < |inbound| ==> at <= inbound[i].at
    ensures WithoutPings(inbound) != [] ==> at <= WithoutPings(inbound)[0].at
  {
    if inbound != [] { NothingSooner(inbound[1..], at); }
  }

  /** Starting the wait later hears the same, as long as nothing arrived in between. */
  lemma LateStartSameHearing<R>(w: Wire, now: Instant, deadline: Instant, react: Event -> Option<R>)
    requires w.now <= now <= Max(w.now, deadline) && (w.inbound != [] ==> now <= Max(w.now, w.inbound[0].at))
    ensures Listen(w, deadline, react) == Listen(w.(now := now), deadline, react)
  {}
}
