/**
 Replies and asynchronous events on one connection. A command waits for its
 reply and sets aside, in `race_event`, every event that arrives before it.
 */
module Demultiplexer {
  import opened Bytes
  import opened Members

  datatype Message = Message(contentType: Option<cstr>, content: seq<byte>)

  /** What one attempt to receive yields: a message, nothing in time, or the end of the connection. */
  datatype Arrival = Arrived(message: Message) | TimedOut | Lost

  const API_RESPONSE: string := "api/response"
  const COMMAND_REPLY: string := "command/reply"

  /** A message without a content type, or with one of the two reply types. */
  predicate IsReply(m: Message) {
    m.contentType.None?
    || CiEqual(m.contentType.value, Text(API_RESPONSE)) || CiEqual(m.contentType.value, Text(COMMAND_REPLY))
  }

  // ----- what the calls do -----

  /** An arrival that was consumed, and whether it was handed over as a reply. */
  datatype Entry = Entry(message: Message, reply: bool)

  /**
   The handle and its history: the queue, the events handed out, all messages
   consumed so far, and the arrivals to come.
   */
  datatype State = State(race: seq<Message>, out: seq<Message>, log: seq<Entry>, source: seq<Arrival>)

  datatype Call = SendRecv | RecvEvent

  /** The receive loop of `esl_send_recv_timed`: events are queued until a reply comes or receiving fails. */
  function AwaitReply(s: State): State
    decreases |s.source|
  {
    if s.source == [] then s
    else
      var next := s.(source := s.source[1..]);
      if !s.source[0].Arrived? then next
      else
        var m := s.source[0].message;
        if IsReply(m) then next.(log := s.log + [Entry(m, true)])
        else AwaitReply(next.(race := s.race + [m], log := s.log + [Entry(m, false)]))
  }

  /** `esl_recv_event` with `check_q` set: the queue first, the connection when it is empty. */
  function TakeEvent(s: State): State {
    if s.race != [] then s.(race := s.race[1..], out := s.out + [s.race[0]])
    else if s.source == [] then s
    else
      var next := s.(source := s.source[1..]);
      if !s.source[0].Arrived? then next
      else
        var m := s.source[0].message;
        next.(out := s.out + [m], log := s.log + [Entry(m, false)])
  }

  function After(s: State, c: Call): State {
    match c
    case SendRecv => AwaitReply(s)
    case RecvEvent => TakeEvent(s)
  }

  function RunCalls(s: State, calls: seq<Call>): State
    decreases |calls|
  {
    if calls == [] then s else RunCalls(After(s, calls[0]), calls[1..])
  }

  // ----- which arrivals go where -----

  /** An arrived message whose content type is neither of the reply types. */
  predicate IsEvent(a: Arrival) {
    && a.Arrived? && a.message.contentType.Some?
    && !CiEqualText(a.message.contentType.value, "api/response")
    && !CiEqualText(a.message.contentType.value, "command/reply")
  }

  lemma TextEqual(a: cstr, literal: string)
    requires forall i :: 0 <= i < |literal| ==> 0 < literal[i] as int < 256
    ensures CiEqual(a, Text(literal)) <==> CiEqualText(a, literal)
  {
    var t := Text(literal);
    assert forall i :: 0 <= i < |literal| ==> Lower(t[i]) as int == LowerChar(literal[i]);
  }

  lemma EventIsNoReply(a: Arrival)
    requires a.Arrived?
    ensures IsEvent(a) <==> !IsReply(a.message)
  {
    hide CiEqual, CiEqualText;
    if a.message.contentType.Some? {
      TextEqual(a.message.contentType.value, API_RESPONSE);
      TextEqual(a.message.contentType.value, COMMAND_REPLY);
    }
  }

  ghost function Messages(source: seq<Arrival>): seq<Message> {
    if source == [] then []
    else (if source[0].Arrived? then [source[0].message] else []) + Messages(source[1..])
  }

  function Queued(ms: seq<Message>): (log: seq<Entry>)
    ensures |log| == |ms| && forall i :: 0 <= i < |ms| ==> log[i] == Entry(ms[i], false)
  {
    seq(|ms|, i requires 0 <= i < |ms| => Entry(ms[i], false))
  }

  /** An event that arrives first is queued, and the wait goes on. */
  lemma EventIsQueued(s: State)
    requires s.source != [] && IsEvent(s.source[0])
    ensures var m := s.source[0].message;
            AwaitReply(s) == AwaitReply(State(s.race + [m], s.out, s.log + [Entry(m, false)], s.source[1..]))
  {
    EventIsNoReply(s.source[0]);
  }

  /** The queue and the log with one more event, and then with the rest of them. */
  lemma OneMoreQueued(race: seq<Message>, log: seq<Entry>, source: seq<Arrival>, k: nat)
    requires 0 < k <= |source| && source[0].Arrived?
    ensures var m, all, rest := source[0].message, Messages(source[..k]), Messages(source[1..][..k - 1]);
            && race + [m] + rest == race + all
            && log + [Entry(m, false)] + Queued(rest) == log + Queued(all)
  {
    var m, rest := source[0].message, Messages(source[1..][..k - 1]);
    assert source[..k][1..] == source[1..][..k - 1];
    assert Messages(source[..k]) == [m] + rest;
    assert Queued([m] + rest) == [Entry(m, false)] + Queued(rest);
  }

  lemma WaitEnds(s: State)
    requires s.source != [] ==> !IsEvent(s.source[0])
    ensures var reply := if s.source != [] && s.source[0].Arrived? then [Entry(s.source[0].message, true)] else [];
            AwaitReply(s) == State(s.race, s.out, s.log + reply, if s.source != [] then s.source[1..] else [])
  {
    if s.source != [] && s.source[0].Arrived? { EventIsNoReply(s.source[0]); }
    assert s.log + [] == s.log;
  }

  lemma NothingQueued()
    ensures Messages([]) == [] && Queued([]) == []
  {
  }

  /**
   The first arrival that is no event, at `k`, ends the wait: a message is the
   reply. The events in front of it are queued, what comes behind it stays.
   */
  lemma {:induction false} TakesFirstReply(s: State, k: nat)
    requires k <= |s.source| && forall i :: 0 <= i < k ==> IsEvent(s.source[i])
    requires k < |s.source| ==> !IsEvent(s.source[k])
    ensures var queued := Messages(s.source[..k]);
            var reply := if k < |s.source| && s.source[k].Arrived? then [Entry(s.source[k].message, true)] else [];
            AwaitReply(s) == State(s.race + queued, s.out, s.log + Queued(queued) + reply,
                                   if k < |s.source| then s.source[k + 1..] else [])
    decreases k
  {
    hide AwaitReply, Messages, Queued;
    if k == 0 {
      assert s.source[..0] == [];
      NothingQueued();
      assert s.race + [] == s.race && s.log + [] == s.log;
      WaitEnds(s);
    } else {
      assert IsEvent(s.source[0]);
      EventIsQueued(s);
      var m, rest := s.source[0].message, s.source[1..];
      assert forall i :: 0 <= i < |rest| ==> rest[i] == s.source[i + 1];
      TakesFirstReply(State(s.race + [m], s.out, s.log + [Entry(m, false)], rest), k - 1);
      OneMoreQueued(s.race, s.log, s.source, k);
    }
  }

  /** As many receives as there are queued events hand them out in order and leave the connection alone. */
  lemma {:induction false} QueueIsServedFirst(s: State, n: nat)
    requires n <= |s.race|
    ensures RunCalls(s, seq(n, _ => RecvEvent)) == s.(race := s.race[n..], out := s.out + s.race[..n])
    decreases n
  {
    var calls := seq(n, _ => RecvEvent);
    if n == 0 {
      assert s.out + s.race[..0] == s.out;
    } else {
      var next := s.(race := s.race[1..], out := s.out + [s.race[0]]);
      assert calls[1..] == seq(n - 1, _ => RecvEvent);
      QueueIsServedFirst(next, n - 1);
      assert s.out + [s.race[0]] + s.race[1..][..n - 1] == s.out + s.race[..n];
    }
  }

  /** With an empty queue a receive hands out the message that arrives next, whatever its type. */
  lemma EmptyQueueReceives(s: State, a: Arrival, rest: seq<Arrival>)
    requires s.race == [] && s.source == [a] + rest
    ensures var r := After(s, RecvEvent);
            r.source == rest && r.race == [] && r.out == s.out + if a.Arrived? then [a.message] else []
  {
    assert s.source[1..] == rest && s.out + [] == s.out;
  }

  // ----- nothing is lost, doubled or reordered -----

  /** The consumed messages that were not replies, in the order they came. */
  ghost function Events(log: seq<Entry>): seq<Message> {
    if log == [] then []
    else Events(log[..|log| - 1]) + if log[|log| - 1].reply then [] else [log[|log| - 1].message]
  }

  ghost function Logged(log: seq<Entry>): seq<Message> {
    seq(|log|, i requires 0 <= i < |log| => log[i].message)
  }

  ghost predicate Faithful(s: State) {
    && s.out + s.race == Events(s.log)
    && forall i :: 0 <= i < |s.log| && s.log[i].reply ==> IsReply(s.log[i].message)
  }

  /** All messages, consumed or to come. */
  ghost function AllMessages(s: State): seq<Message> {
    Logged(s.log) + Messages(s.source)
  }

  lemma LogEntry(log: seq<Entry>, e: Entry)
    ensures Events(log + [e]) == Events(log) + if e.reply then [] else [e.message]
    ensures Logged(log + [e]) == Logged(log) + [e.message]
  {
    assert (log + [e])[..|log|] == log;
  }

  lemma {:induction false} AwaitReplyIsFaithful(s: State)
    requires Faithful(s)
    ensures Faithful(AwaitReply(s)) && AllMessages(AwaitReply(s)) == AllMessages(s)
    ensures s.race <= AwaitReply(s).race && AwaitReply(s).out == s.out
    decreases |s.source|
  {
    if s.source != [] {
      var next := s.(source := s.source[1..]);
      if s.source[0].Arrived? {
        var m := s.source[0].message;
        var e := Entry(m, IsReply(m));
        LogEntry(s.log, e);
        assert Logged(s.log) + Messages(s.source) == Logged(s.log) + [m] + Messages(next.source);
        if !IsReply(m) {
          assert s.out + s.race + [m] == s.out + (s.race + [m]);
          AwaitReplyIsFaithful(next.(race := s.race + [m], log := s.log + [e]));
        }
      } else {
        assert Messages(s.source) == Messages(next.source);
      }
    }
  }

  lemma TakeEventIsFaithful(s: State)
    requires Faithful(s)
    ensures Faithful(TakeEvent(s)) && AllMessages(TakeEvent(s)) == AllMessages(s)
  {
    if s.race != [] {
      assert s.out + s.race == s.out + [s.race[0]] + s.race[1..];
    } else if s.source != [] {
      if s.source[0].Arrived? {
        LogEntry(s.log, Entry(s.source[0].message, false));
        assert s.out + [] == s.out;
        assert Logged(s.log) + Messages(s.source) ==
               Logged(s.log) + [s.source[0].message] + Messages(s.source[1..]);
      } else {
        assert Messages(s.source) == Messages(s.source[1..]);
      }
    }
  }

  /**
   Over every run of calls, the events handed out followed by those still
   queued are exactly the arrivals not taken as replies, in order of arrival;
   only messages of a reply type are taken; and no arrival disappears.
   */
  lemma {:induction false} EventsAreConserved(s: State, calls: seq<Call>)
    requires Faithful(s)
    ensures Faithful(RunCalls(s, calls)) && AllMessages(RunCalls(s, calls)) == AllMessages(s)
    decreases |calls|
  {
    if calls != [] {
      match calls[0] {
        case SendRecv => AwaitReplyIsFaithful(s);
        case RecvEvent => TakeEventIsFaithful(s);
      }
      EventsAreConserved(After(s, calls[0]), calls[1..]);
    }
  }

  // ----- the handle -----

  class Handle {
    var raceEvent: seq<Message>       // the list that starts at race_event
    var socket: seq<Arrival>
    ghost var out: seq<Message>
    ghost var log: seq<Entry>

    ghost function Now(): State
      reads this
    {
      State(raceEvent, out, log, socket)
    }

    constructor (socket: seq<Arrival>)
      ensures Now() == State([], [], [], socket) && Faithful(Now())
    {
      this.socket, raceEvent, out, log := socket, [], [], [];
    }

    /** One receive attempt on the connection. */
    method Receive() returns (a: Arrival)
      modifies this`socket
      ensures a == if old(socket) == [] then Lost else old(socket)[0]
      ensures socket == if old(socket) == [] then [] else old(socket)[1..]
    {
      if socket == [] { return Lost; }
      a := socket[0];
      socket := socket[1..];
    }

    /** `esl_send_recv_timed`, after the command has been sent. */
    method SendRecvTimed() returns (reply: Option<Message>)
      modifies this
      ensures Now() == AwaitReply(old(Now()))
      ensures reply.Some? ==> |log| > 0 && log[|log| - 1] == Entry(reply.value, true)
      ensures reply.None? ==> forall i :: |old(log)| <= i < |log| ==> !log[i].reply
    {
      ghost var start := Now();
      while true
        invariant AwaitReply(Now()) == AwaitReply(start)
        invariant |start.log| <= |log| && forall i :: |start.log| <= i < |log| ==> !log[i].reply
        decreases |socket|
      {
        var a := Receive();
        if !a.Arrived? { return None; }
        var m := a.message;
        if m.contentType.Some? && !CiEqual(m.contentType.value, Text(API_RESPONSE))
           && !CiEqual(m.contentType.value, Text(COMMAND_REPLY)) {
          raceEvent := raceEvent + [m];
          log := log + [Entry(m, false)];
        } else {
          log := log + [Entry(m, true)];
          return Some(m);
        }
      }
    }

    /** `esl_recv_event` with `check_q` set. */
    method RecvEvent() returns (event: Option<Message>)
      modifies this
      ensures Now() == TakeEvent(old(Now()))
      ensures event.Some? <==> |out| == |old(out)| + 1
      ensures event.Some? ==> out == old(out) + [event.value]
    {
      if raceEvent != [] {
        event := Some(raceEvent[0]);
        raceEvent := raceEvent[1..];
        out := out + [event.value];
        return;
      }
      var a := Receive();
      if !a.Arrived? { return None; }
      log := log + [Entry(a.message, false)];
      out := out + [a.message];
      return Some(a.message);
    }
  }
}
