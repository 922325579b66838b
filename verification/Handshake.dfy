/**
  The client side of the handshake: INIT packets repeated on a timer until an ACK arrives from the
  server's address or the deadline passes.  Times are milliseconds.
 */
module Handshake {
  import opened Packets
  import opened Session
  import Codec

  /** The call of the completion handler. */
  datatype Completion = Completion(error: Option<Error>, adopted: Option<Endpoint>)

  /** `timer` is the expiry time of the retry timer while it is armed; `inits` counts the INITs sent. */
  datatype Client = Client(
    server: Endpoint, deadline: int, retry: nat, done: bool, timer: Option<int>, inits: nat, fired: seq<Completion>)

  function TimeoutOf(configured: nat): nat {
    if configured == 0 then 5000 else configured
  }

  /** A fifth of the timeout, between 100 and 1000. */
  function RetryOf(timeout: nat): nat {
    var fifth := timeout / 5;
    if fifth < 100 then 100 else if fifth > 1000 then 1000 else fifth
  }

  function Complete(c: Client, completion: Completion): Client {
    if c.done then c else c.(done := true, timer := None, fired := c.fired + [completion])
  }

  function SendInit(c: Client, encodes: bool): Client {
    if !encodes then Complete(c, Completion(Some(BadPacket), None)) else c.(inits := c.inits + 1)
  }

  function ScheduleRetry(c: Client, now: int): Client {
    c.(timer := Some(now + c.retry))
  }

  function Begin(server: Endpoint, configured: nat, now: int, encodes: bool): Client {
    var timeout := TimeoutOf(configured);
    var c := Client(server, now + timeout, RetryOf(timeout), false, None, 0, []);
    ScheduleRetry(SendInit(c, encodes), now)
  }

  /** A received datagram; anything but an ACK from the server's address is junk. */
  function OnDatagram(c: Client, sender: Endpoint, bytes: seq<Byte>): Client {
    if c.done then c
    else
      match Codec.Decode(bytes)
      case Err(_) => c
      case Ok(packet) =>
        if packet.kind == HANDSHAKE_ACK && sender.address == c.server.address
        then Complete(c, Completion(None, Some(sender)))
        else c
  }

  function OnReceiveFailed(c: Client, error: Error): Client {
    Complete(c, Completion(Some(error), None))
  }

  function OnTimer(c: Client, now: int, encodes: bool): Client {
    var t := c.(timer := None);
    if t.done then t
    else if now >= t.deadline then Complete(t, Completion(Some(Timeout), None))
    else ScheduleRetry(SendInit(t, encodes), now)
  }

  class ClientHandshake {
    const server: Endpoint
    const deadline: int
    const retryInterval: nat
    var done: bool
    var timer: Option<int>
    var inits: nat
    var fired: seq<Completion>

    ghost function View(): Client
      reads this
    {
      Client(server, deadline, retryInterval, done, timer, inits, fired)
    }

    constructor (server: Endpoint, configured: nat, now: int, encodes: bool)
      ensures View() == Begin(server, configured, now, encodes)
    {
      this.server := server;
      deadline := now + TimeoutOf(configured);
      retryInterval := RetryOf(TimeoutOf(configured));
      done, timer, inits, fired := false, None, 0, [];
      new;
      Init(encodes);
      timer := Some(now + retryInterval);
    }

    method Finish(completion: Completion)
      modifies this
      ensures View() == Complete(old(View()), completion)
    {
      if done {
        return;
      }
      done := true;
      timer := None;
      fired := fired + [completion];
    }

    method Init(encodes: bool)
      modifies this
      ensures View() == SendInit(old(View()), encodes)
    {
      if !encodes {
        Finish(Completion(Some(BadPacket), None));
        return;
      }
      inits := inits + 1;
    }

    method ReceiveDatagram(sender: Endpoint, bytes: seq<Byte>)
      modifies this
      ensures View() == OnDatagram(old(View()), sender, bytes)
    {
      if done {
        return;
      }
      var decoded := Codec.Decode(bytes);
      if decoded.Ok? && decoded.value.kind == HANDSHAKE_ACK && sender.address == server.address {
        Finish(Completion(None, Some(sender)));
      }
    }

    method ReceiveFailed(error: Error)
      modifies this
      ensures View() == OnReceiveFailed(old(View()), error)
    {
      Finish(Completion(Some(error), None));
    }

    method TimerExpired(now: int, encodes: bool)
      modifies this
      ensures View() == OnTimer(old(View()), now, encodes)
    {
      timer := None;
      if done {
        return;
      }
      if now >= deadline {
        Finish(Completion(Some(Timeout), None));
        return;
      }
      Init(encodes);
      timer := Some(now + retryInterval);
    }
  }

  // ----- Runs -----

  datatype Event =
    | TimePasses
    | DatagramArrives(sender: Endpoint, bytes: seq<Byte>)
    | ReceiveFails(error: Error)
    | TimerFires(encodes: bool)

  /** An event and when it happens. */
  datatype Timed = Timed(now: int, event: Event)

  datatype State = State(client: Client, clock: int)

  datatype Settings = Settings(server: Endpoint, configured: nat, start: int, encodes: bool)

  /**
    The clock does not go back and a timer does not fire early.  With ideal timers it does not fire
    late either: nothing happens after the expiry of an armed timer before the timer has fired.
   */
  predicate Enabled(s: State, e: Timed, ideal: bool) {
    && s.clock <= e.now
    && (e.event.TimerFires? ==> s.client.timer.Some? && s.client.timer.value <= e.now)
    && (ideal && s.client.timer.Some? ==> e.now <= s.client.timer.value)
  }

  function Apply(c: Client, e: Timed): Client {
    match e.event
    case TimePasses => c
    case DatagramArrives(sender, bytes) => OnDatagram(c, sender, bytes)
    case ReceiveFails(error) => OnReceiveFailed(c, error)
    case TimerFires(encodes) => OnTimer(c, e.now, encodes)
  }

  /** The state after any list of events; an event that cannot happen is skipped. */
  function Run(p: Settings, events: seq<Timed>, ideal: bool): State {
    if events == [] then State(Begin(p.server, p.configured, p.start, p.encodes), p.start)
    else
      var s := Run(p, events[..|events| - 1], ideal);
      var e := events[|events| - 1];
      if Enabled(s, e, ideal) then State(Apply(s.client, e), e.now) else s
  }

  /** The handler has been called once if done, and success names an endpoint at the server's address. */
  ghost predicate FiredInv(c: Client) {
    && |c.fired| == (if c.done then 1 else 0)
    && forall i :: 0 <= i < |c.fired| && c.fired[i].error.None? ==>
         c.fired[i].adopted.Some? && c.fired[i].adopted.value.address == c.server.address
  }

  /** While undecided: the timer is armed, INITs were at least one retry apart, the last before the deadline. */
  ghost predicate TimingInv(p: Settings, c: Client) {
    var timeout := TimeoutOf(p.configured);
    && c.server == p.server && c.retry == RetryOf(timeout) && c.deadline == p.start + timeout
    && (c.inits > 0 ==> (c.inits - 1) * c.retry < timeout)
    && (!c.done ==> c.inits > 0 && c.timer.Some? && p.start + c.inits * c.retry <= c.timer.value)
  }

  /** With ideal timers the armed timer expires before the deadline plus one interval. */
  ghost predicate IdealInv(s: State) {
    !s.client.done ==> s.client.timer.Some? && s.clock <= s.client.timer.value < s.client.deadline + s.client.retry
  }

  lemma TimerKeepsTiming(p: Settings, c: Client, now: int, encodes: bool)
    requires TimingInv(p, c) && c.timer.Some? && c.timer.value <= now
    ensures TimingInv(p, OnTimer(c, now, encodes))
  {
    assert (c.inits + 1) * c.retry == c.inits * c.retry + c.retry;
    assert c.inits > 0 ==> c.inits * c.retry == (c.inits - 1) * c.retry + c.retry;
  }

  lemma {:induction false} RunInv(p: Settings, events: seq<Timed>, ideal: bool)
    ensures var s := Run(p, events, ideal);
            FiredInv(s.client) && TimingInv(p, s.client) && (ideal ==> IdealInv(s))
  {
    if events != [] {
      var before, e := events[..|events| - 1], events[|events| - 1];
      RunInv(p, before, ideal);
      var s := Run(p, before, ideal);
      if Enabled(s, e, ideal) && e.event.TimerFires? {
        TimerKeepsTiming(p, s.client, e.now, e.event.encodes);
      }
    }
  }

  /**
    Over every interleaving of sends, datagrams, errors and timer expiries the handler is called at
    most once, exactly once when the handshake is done, and success carries only an endpoint whose
    address is the server's.
   */
  lemma CompletesOnce(p: Settings, events: seq<Timed>, ideal: bool)
    ensures var c := Run(p, events, ideal).client;
            && |c.fired| == (if c.done then 1 else 0)
            && forall i :: 0 <= i < |c.fired| && c.fired[i].error.None? ==>
                 c.fired[i].adopted.Some? && c.fired[i].adopted.value.address == p.server.address
  {
    RunInv(p, events, ideal);
  }

  /** At most ceil(timeout / retry) INITs are ever sent, however late the timers fire. */
  lemma InitsAreBounded(p: Settings, events: seq<Timed>, ideal: bool)
    ensures var timeout := TimeoutOf(p.configured);
            var retry := RetryOf(timeout);
            Run(p, events, ideal).client.inits <= (timeout + retry - 1) / retry
  {
    RunInv(p, events, ideal);
    TimingBoundsInits(p, Run(p, events, ideal).client);
  }

  lemma TimingBoundsInits(p: Settings, c: Client)
    requires TimingInv(p, c)
    ensures var timeout := TimeoutOf(p.configured);
            var retry := RetryOf(timeout);
            c.inits <= (timeout + retry - 1) / retry
  {
    if c.inits > 0 { CeilingBound(c.inits, TimeoutOf(p.configured), c.retry); }
  }

  lemma CeilingBound(n: nat, timeout: nat, retry: nat)
    requires n > 0 && retry > 0 && (n - 1) * retry < timeout
    ensures n <= (timeout + retry - 1) / retry
  {
    var q := (timeout + retry - 1) / retry;
    assert timeout + retry - 1 < retry * (q + 1);
    assert (n - 1) * retry == retry * n - retry;
    assert q < n ==> retry * (q + 1) <= retry * n;
  }

  /** With ideal timers the handshake is decided no later than one retry interval after the deadline. */
  lemma DecidedByDeadline(p: Settings, events: seq<Timed>)
    requires var s := Run(p, events, true); s.clock >= s.client.deadline + s.client.retry
    ensures var c := Run(p, events, true).client;
            && c.done && |c.fired| == 1
            && c.deadline == p.start + TimeoutOf(p.configured) && c.retry == RetryOf(TimeoutOf(p.configured))
  {
    RunInv(p, events, true);
  }

  /** A configured timeout counts as it is, and none as five seconds; INITs are a fifth of it apart, within bounds. */
  lemma TimeoutAndRetry(configured: nat)
    ensures var timeout, retry := TimeoutOf(configured), RetryOf(TimeoutOf(configured));
            && (configured == 0 ==> timeout == 5000) && (configured > 0 ==> timeout == configured)
            && 100 <= retry <= 1000
            && (timeout < 500 ==> retry == 100) && (timeout >= 5000 ==> retry == 1000)
            && (500 <= timeout <= 5000 ==> 5 * retry <= timeout < 5 * retry + 5)
  {
  }

  // ----- The outcome -----

  /** What an event says about the outcome, by itself. */
  function Verdict(p: Settings, e: Timed): Option<Completion> {
    match e.event
    case TimePasses => None
    case DatagramArrives(sender, bytes) =>
      (match Codec.Decode(bytes)
       case Err(_) => None
       case Ok(packet) =>
         if packet.kind == HANDSHAKE_ACK && sender.address == p.server.address
         then Some(Completion(None, Some(sender))) else None)
    case ReceiveFails(error) => Some(Completion(Some(error), None))
    case TimerFires(encodes) =>
      if e.now >= p.start + TimeoutOf(p.configured) then Some(Completion(Some(Timeout), None))
      else if !encodes then Some(Completion(Some(BadPacket), None))
      else None
  }

  /** The events that can happen, without the ones skipped. */
  function Happened(p: Settings, events: seq<Timed>, ideal: bool): seq<Timed> {
    if events == [] then []
    else
      var n := |events| - 1;
      Happened(p, events[..n], ideal) + if Enabled(Run(p, events[..n], ideal), events[n], ideal) then [events[n]] else []
  }

  /** The first verdict in a list of events. */
  ghost predicate IsFirstVerdict(p: Settings, events: seq<Timed>, v: Completion) {
    exists i :: 0 <= i < |events| && Verdict(p, events[i]) == Some(v) && NoVerdict(p, events[..i])
  }

  ghost predicate NoVerdict(p: Settings, events: seq<Timed>) {
    forall i :: 0 <= i < |events| ==> Verdict(p, events[i]).None?
  }

  lemma FirstVerdictStays(p: Settings, events: seq<Timed>, e: Timed, v: Completion)
    requires IsFirstVerdict(p, events, v)
    ensures IsFirstVerdict(p, events + [e], v)
  {
    var i :| 0 <= i < |events| && Verdict(p, events[i]) == Some(v) && NoVerdict(p, events[..i]);
    assert (events + [e])[i] == events[i] && (events + [e])[..i] == events[..i];
  }

  lemma NewVerdict(p: Settings, events: seq<Timed>, e: Timed)
    requires NoVerdict(p, events)
    ensures Verdict(p, e).Some? ==> IsFirstVerdict(p, events + [e], Verdict(p, e).value)
    ensures Verdict(p, e).None? ==> NoVerdict(p, events + [e])
  {
    assert (events + [e])[|events|] == e && (events + [e])[..|events|] == events;
  }

  /** One event on an undecided client decides exactly as its verdict says. */
  lemma UndecidedStep(p: Settings, c: Client, e: Timed)
    requires TimingInv(p, c) && !c.done && c.fired == []
    ensures Apply(c, e).done == Verdict(p, e).Some?
    ensures Apply(c, e).fired == if Verdict(p, e).Some? then [Verdict(p, e).value] else []
  {
  }

  /** The client is undecided and so is everything that happened, or it was decided by the first verdict. */
  ghost predicate DecidedByFirst(p: Settings, happened: seq<Timed>, c: Client) {
    if !p.encodes then c.done && c.fired == [Completion(Some(BadPacket), None)]
    else if c.done then |c.fired| == 1 && IsFirstVerdict(p, happened, c.fired[0])
    else c.fired == [] && NoVerdict(p, happened)
  }

  /**
    The outcome is the first verdict among the events that happened: an ACK from the server's address, a
    receive error, a retry that cannot be encoded, or the timer at or after the deadline.  Without one
    the handshake is undecided, and nothing that comes later changes it.  Only a first INIT that cannot
    be encoded decides earlier.
   */
  lemma {:induction false} OutcomeIsFirstVerdict(p: Settings, events: seq<Timed>, ideal: bool)
    ensures DecidedByFirst(p, Happened(p, events, ideal), Run(p, events, ideal).client)
  {
    if events != [] {
      var n := |events| - 1;
      var before, e := events[..n], events[n];
      OutcomeIsFirstVerdict(p, before, ideal);
      RunInv(p, before, ideal);
      var s := Run(p, before, ideal);
      if Enabled(s, e, ideal) {
        if s.client.done {
          OutcomeIsFinal(s.client, e);
          if p.encodes { FirstVerdictStays(p, Happened(p, before, ideal), e, s.client.fired[0]); }
        } else {
          UndecidedStep(p, s.client, e);
          NewVerdict(p, Happened(p, before, ideal), e);
        }
      } else {
        assert Happened(p, events, ideal) == Happened(p, before, ideal);
      }
    }
  }

  // ----- How many INITs -----

  /** The retry timer expiries that can encode an INIT, before anything decided the outcome. */
  ghost function Retries(p: Settings, happened: seq<Timed>): nat {
    if happened == [] then 0
    else
      var n := |happened| - 1;
      Retries(p, happened[..n]) + if happened[n].event.TimerFires? && NoVerdict(p, happened) then 1 else 0
  }

  lemma RetriesOfSnoc(p: Settings, happened: seq<Timed>, e: Timed)
    ensures Retries(p, happened + [e]) ==
            Retries(p, happened) + if e.event.TimerFires? && NoVerdict(p, happened) && Verdict(p, e).None? then 1 else 0
  {
    var all := happened + [e];
    assert all[..|happened|] == happened && all[|happened|] == e;
    assert NoVerdict(p, all) <==> NoVerdict(p, happened) && Verdict(p, e).None? by {
      if NoVerdict(p, all) {
        forall i | 0 <= i < |happened| ensures Verdict(p, happened[i]).None? { assert all[i] == happened[i]; }
      }
    }
  }

  /** One event sends an INIT exactly if it is a timer expiry that decides nothing. */
  lemma StepSends(p: Settings, c: Client, e: Timed)
    requires TimingInv(p, c)
    ensures Apply(c, e).inits == c.inits + if !c.done && e.event.TimerFires? && Verdict(p, e).None? then 1 else 0
  {
  }

  /**
    In every run whose first INIT encodes, exactly one INIT was sent at the beginning and one at each timer
    expiry that could encode it, before the deadline and while nothing had decided the outcome.
   */
  lemma {:induction false} InitsAreExact(p: Settings, events: seq<Timed>, ideal: bool)
    requires p.encodes
    ensures Run(p, events, ideal).client.inits == 1 + Retries(p, Happened(p, events, ideal))
  {
    if events != [] {
      var n := |events| - 1;
      var before, e := events[..n], events[n];
      InitsAreExact(p, before, ideal);
      RunInv(p, before, ideal);
      OutcomeIsFirstVerdict(p, before, ideal);
      var s := Run(p, before, ideal);
      if Enabled(s, e, ideal) {
        StepSends(p, s.client, e);
        RetriesOfSnoc(p, Happened(p, before, ideal), e);
        if s.client.done { SomeVerdict(p, Happened(p, before, ideal), s.client.fired[0]); }
      } else {
        assert Happened(p, events, ideal) == Happened(p, before, ideal);
      }
    }
  }

  lemma SomeVerdict(p: Settings, happened: seq<Timed>, v: Completion)
    requires IsFirstVerdict(p, happened, v)
    ensures !NoVerdict(p, happened)
  {
  }

  /** With ideal timers and every INIT encoding, the retry timer is armed for a whole number of intervals from the start. */
  lemma {:induction false} TimerIsOnTime(p: Settings, events: seq<Timed>)
    requires p.encodes
    ensures var s := Run(p, events, true);
            !s.client.done ==> s.client.timer == Some(p.start + s.client.inits * s.client.retry) && s.clock <= s.client.timer.value
  {
    if events != [] {
      var before, e := events[..|events| - 1], events[|events| - 1];
      TimerIsOnTime(p, before);
      RunInv(p, before, true);
      var s := Run(p, before, true);
      assert (s.client.inits + 1) * s.client.retry == s.client.inits * s.client.retry + s.client.retry;
    }
  }

  /**
    With ideal timers, an undecided handshake has sent an INIT at the start and after every full retry
    interval since.
   */
  lemma InitsAreTimely(p: Settings, events: seq<Timed>)
    requires p.encodes && !Run(p, events, true).client.done
    ensures var s := Run(p, events, true);
            var retry := RetryOf(TimeoutOf(p.configured));
            s.clock <= p.start + s.client.inits * retry
  {
    TimerIsOnTime(p, events);
    RunInv(p, events, true);
  }

  /** A later event never changes an outcome. */
  lemma OutcomeIsFinal(c: Client, e: Timed)
    requires c.done
    ensures Apply(c, e).fired == c.fired && Apply(c, e).done && Apply(c, e).inits == c.inits
  {
  }
}
