/**
 The passive listen loop against an arbitrary endpoint and an arbitrary monotone clock that does not
 stand still for ever. Times are nanoseconds. Everything the loop does to the outside is recorded in
 the world's log.
 */
module ListenLoop {
  import opened Octets
  import opened PassiveMonitor
  import opened Wrappers

  const NANOSECONDS_PER_MILLISECOND := 1_000_000
  const C_INT_MAX: nat := 0x7FFF_FFFF

  datatype ListenError =
    | MonitorTimeoutRejected
    | ScanTimingExceedsLimit
    | PollWaitFailed
    | RawPacketReceiveFailed
    | ReceiveLengthExceedsBuffer

  datatype Answer =
    | Readable
    | NotReadable
    | PollFailed
    | Frame(octets: Octets.Frame)
    | Oversized(length: nat)
    | Empty
    | ReceiveFailed

  /** One call on the endpoint, with the last clock reading before it, or an unreadable wait told to the clock. */
  datatype Interaction =
    | Poll(reading: nat, milliseconds: nat, answer: Answer)
    | Receive(reading: nat, answer: Answer)
    | Send(octets: Octets.Frame)
    | Advance(waited: nat)

  function FramesOf(log: seq<Interaction>): seq<Octets.Frame> {
    if log == [] then [] else
    var before := FramesOf(log[..|log| - 1]);
    var last := log[|log| - 1];
    if last.Receive? && last.answer.Frame? then before + [last.answer.octets] else before
  }

  /** The error an interaction makes the loop return, if any. */
  function ErrorOf(i: Interaction): Option<ListenError> {
    match i
    case Poll(_, _, PollFailed) => Some(PollWaitFailed)
    case Receive(_, ReceiveFailed) => Some(RawPacketReceiveFailed)
    case Receive(_, Oversized(_)) => Some(ReceiveLengthExceedsBuffer)
    case _ => None
  }

  /** Calls start before the deadline, and a poll asks for all of the time left, in whole milliseconds. */
  ghost predicate InTime(i: Interaction, deadline: nat) {
    match i
    case Poll(reading, milliseconds, _) =>
      reading < deadline && milliseconds == PollTimeoutMilliseconds(deadline - reading)
    case Receive(reading, _) => reading < deadline
    case Send(_) => false
    case Advance(_) => true
  }

  /** After these answers there may be a frame to receive. */
  predicate WantsReceive(i: Interaction) {
    match i
    case Poll(_, _, answer) => answer == Readable
    case Receive(_, answer) => answer.Frame?
    case Send(_) => false
    case Advance(_) => false
  }

  /** After this answer the clock is told how long the wait was. */
  predicate WantsAdvance(i: Interaction) {
    i.Poll? && i.answer == NotReadable
  }

  /**
   A readable poll or a frame is followed by a receive, an unreadable poll by telling the clock the
   time that was left, anything else by a poll, and a failure by nothing.
   */
  ghost predicate Follows(previous: Interaction, i: Interaction, deadline: nat) {
    && ErrorOf(previous).None?
    && (i.Receive? <==> WantsReceive(previous))
    && (i.Advance? <==> WantsAdvance(previous))
    && (i.Advance? ==> i.waited == deadline - previous.reading)
  }

  /** A received frame fits the buffer, and a length reported as oversized does not. */
  predicate FitsBuffer(i: Interaction, capacity: nat) {
    match i
    case Receive(_, Frame(octets)) => |octets| <= capacity
    case Receive(_, Oversized(length)) => length > capacity
    case _ => true
  }

  ghost predicate WellBehaved(session: seq<Interaction>, deadline: nat, capacity: nat) {
    && (session != [] ==> session[0].Poll?)
    && (forall i :: 0 <= i < |session| ==> InTime(session[i], deadline) && FitsBuffer(session[i], capacity))
    && (forall i :: 0 < i < |session| ==> Follows(session[i - 1], session[i], deadline))
  }

  /** What the loop must return after a session. */
  function SessionResult(locals: Locals, session: seq<Interaction>): Result<Outcome, ListenError> {
    if session != [] && ErrorOf(session[|session| - 1]).Some? then Failure(ErrorOf(session[|session| - 1]).value)
    else Success(Report(locals, DISTINCT_RECORD_LIMIT, FramesOf(session)))
  }

  lemma FramesOfAppend(log: seq<Interaction>, i: Interaction)
    ensures FramesOf(log + [i]) == FramesOf(log) + if i.Receive? && i.answer.Frame? then [i.answer.octets] else []
  {
    assert (log + [i])[..|log|] == log;
  }

  /**
   Endpoint and clock. Each method may answer anything its contract allows. The clock may stand still
   through any finite number of endpoint calls: `patience` bounds how many more, and is renewed with
   an arbitrary number whenever the clock moves.
   */
  class World {
    var clock: nat
    var patience: nat
    /** The largest representable timestamp. */
    const clockLimit: nat
    ghost var log: seq<Interaction>
    /** Every answer of `Now`. */
    ghost var readings: seq<nat>

    constructor (start: nat, limit: nat, patience: nat)
      ensures clock == start && clockLimit == limit && this.patience == patience && log == [] && readings == []
    {
      clock := start;
      this.patience := patience;
      clockLimit := limit;
      log := [];
      readings := [];
    }

    /** Any amount of time passes, possibly none. */
    method Elapse()
      modifies `clock, `patience
      ensures clock >= old(clock)
      ensures clock == old(clock) ==> patience == old(patience)
    {
      var elapsed :| 0 <= elapsed;
      if elapsed > 0 {
        clock := clock + elapsed;
        var renewed :| 0 <= renewed;
        patience := renewed;
      }
    }

    /** Time may stand still through a call on the endpoint, but not through endlessly many. */
    method ElapseInCall()
      modifies `clock, `patience
      ensures clock >= old(clock)
      ensures clock == old(clock) ==> patience < old(patience)
    {
      var elapsed :| 0 <= elapsed;
      if elapsed == 0 && patience > 0 {
        patience := patience - 1;
      } else {
        var renewed :| 0 <= renewed;
        clock, patience := clock + elapsed + 1, renewed;
      }
    }

    method Now() returns (reading: nat)
      modifies `clock, `patience, `readings
      ensures reading == clock >= old(clock)
      ensures clock == old(clock) ==> patience == old(patience)
      ensures readings == old(readings) + [reading]
    {
      Elapse();
      reading := clock;
      readings := readings + [reading];
    }

    function CheckedAdd(timestamp: nat, duration: nat): Option<nat> {
      if timestamp + duration <= clockLimit then Some(timestamp + duration) else None
    }

    function SaturatingDurationSince(later: nat, earlier: nat): nat {
      if earlier <= later then later - earlier else 0
    }

    method AdvanceAfterUnreadableWait(waited: nat)
      modifies `clock, `patience, `log
      ensures clock >= old(clock)
      ensures clock == old(clock) ==> patience == old(patience)
      ensures log == old(log) + [Advance(waited)]
    {
      log := log + [Advance(waited)];
      Elapse();
    }

    method WaitUntilReadable(milliseconds: nat) returns (r: Result<bool, ListenError>)
      modifies `clock, `patience, `log
      ensures clock >= old(clock)
      ensures clock == old(clock) ==> patience < old(patience)
      ensures r.Success? || r.error == PollWaitFailed
      ensures log == old(log) + [Poll(old(clock), milliseconds,
        if r.Failure? then PollFailed else if r.value then Readable else NotReadable)]
    {
      var failed, readable := *, *;
      r := if failed then Failure(PollWaitFailed) else Success(readable);
      log := log + [Poll(clock, milliseconds,
        if r.Failure? then PollFailed else if r.value then Readable else NotReadable)];
      ElapseInCall();
    }

    /** `Ok(Some(n))` is logged as the frame in `buffer[..n]`, or as oversized when `n` does not fit. */
    method TryReceiveEthernetFrame(buffer: array<u8>) returns (r: Result<Option<nat>, ListenError>)
      modifies `clock, `patience, `log, buffer
      ensures clock >= old(clock)
      ensures clock == old(clock) ==> patience < old(patience)
      ensures |log| == |old(log)| + 1 && log[..|old(log)|] == old(log)
      ensures log[|old(log)|].Receive? && log[|old(log)|].reading == old(clock)
      ensures match r
        case Failure(e) => e == RawPacketReceiveFailed && log[|old(log)|].answer == ReceiveFailed
        case Success(None) => log[|old(log)|].answer == Empty
        case Success(Some(n)) =>
          log[|old(log)|].answer == if n <= buffer.Length then Frame(buffer[..n]) else Oversized(n)
    {
      assert |buffer[..]| == buffer.Length;
      var octets: seq<u8> :| |octets| == buffer.Length;
      forall i | 0 <= i < buffer.Length {
        buffer[i] := octets[i];
      }
      var failed, empty := *, *;
      var length :| 0 <= length;
      r := if failed then Failure(RawPacketReceiveFailed) else if empty then Success(None) else Success(Some(length));
      ghost var answer := match r
        case Failure(_) => ReceiveFailed
        case Success(None) => Empty
        case Success(Some(n)) => if n <= buffer.Length then Frame(buffer[..n]) else Oversized(n);
      log := log + [Receive(clock, answer)];
      ElapseInCall();
    }

    method SendEthernetFrame(frame: Octets.Frame)
      modifies `log
      ensures log == old(log) + [Send(frame)]
    {
      log := log + [Send(frame)];
    }
  }

  /** Whole milliseconds, clamped to a C int. */
  function PollTimeoutMilliseconds(remaining: nat): (milliseconds: nat)
    ensures milliseconds <= 0x7FFF_FFFF
    ensures milliseconds * 1_000_000 <= remaining
    ensures milliseconds < 0x7FFF_FFFF ==> remaining < (milliseconds + 1) * 1_000_000
  {
    var milliseconds := remaining / NANOSECONDS_PER_MILLISECOND;
    if milliseconds <= C_INT_MAX then milliseconds else C_INT_MAX
  }

  method MonitorDeadline(world: World, timeout: nat) returns (r: Result<nat, ListenError>)
    modifies world`clock, world`patience, world`readings
    ensures timeout == 0 ==>
      r == Failure(MonitorTimeoutRejected) && world.clock == old(world.clock) && world.readings == old(world.readings)
    ensures timeout > 0 ==>
      && old(world.clock) <= world.clock
      && world.readings == old(world.readings) + [world.clock]
      && var deadline := world.clock + timeout;
      && r == if deadline <= world.clockLimit then Success(deadline) else Failure(ScanTimingExceedsLimit)
  {
    if timeout == 0 {
      return Failure(MonitorTimeoutRejected);
    }
    var now := world.Now();
    var sum := world.CheckedAdd(now, timeout);
    return if sum.Some? then Success(sum.value) else Failure(ScanTimingExceedsLimit);
  }

  /** A session so far, with no failure in it. */
  ghost predicate Going(session: seq<Interaction>, deadline: nat, capacity: nat) {
    WellBehaved(session, deadline, capacity) && (session != [] ==> ErrorOf(session[|session| - 1]).None?)
  }

  /** One more interaction keeps a session well behaved. */
  lemma SessionAppend(session: seq<Interaction>, i: Interaction, deadline: nat, capacity: nat)
    requires Going(session, deadline, capacity) && InTime(i, deadline) && FitsBuffer(i, capacity)
    requires if session == [] then i.Poll? else Follows(session[|session| - 1], i, deadline)
    ensures WellBehaved(session + [i], deadline, capacity)
    ensures ErrorOf(i).None? ==> Going(session + [i], deadline, capacity)
    ensures FramesOf(session + [i])
      == FramesOf(session) + if i.Receive? && i.answer.Frame? then [i.answer.octets] else []
  {
    hide FramesOf, InTime, Follows, ErrorOf, FitsBuffer;
    FramesOfAppend(session, i);
  }

  /** A poll with the loop's own timeout keeps the session in time. */
  lemma PollAppend(session: seq<Interaction>, reading: nat, answer: Answer, deadline: nat, capacity: nat)
    requires Going(session, deadline, capacity) && reading < deadline
    requires session != [] ==> !WantsReceive(session[|session| - 1]) && !WantsAdvance(session[|session| - 1])
    ensures var i := Poll(reading, PollTimeoutMilliseconds(deadline - reading), answer);
      && WellBehaved(session + [i], deadline, capacity)
      && FramesOf(session + [i]) == FramesOf(session)
      && (answer == PollFailed ==> ErrorOf(i) == Some(PollWaitFailed))
      && (answer != PollFailed ==> Going(session + [i], deadline, capacity))
      && (WantsReceive(i) <==> answer == Readable) && (WantsAdvance(i) <==> answer == NotReadable)
  {
    hide FramesOf, WellBehaved;
    var i := Poll(reading, PollTimeoutMilliseconds(deadline - reading), answer);
    GoingIsWellBehaved(session, deadline, capacity);
    SessionAppend(session, i, deadline, capacity);
    assert FramesOf(session) + [] == FramesOf(session);
  }

  /** Telling the clock about an unreadable wait keeps the session well behaved. */
  lemma AdvanceAppend(session: seq<Interaction>, deadline: nat, capacity: nat)
    requires session != [] && Going(session, deadline, capacity) && WantsAdvance(session[|session| - 1])
    requires session[|session| - 1].reading <= deadline
    ensures var i := Advance(deadline - session[|session| - 1].reading);
      && Going(session + [i], deadline, capacity)
      && FramesOf(session + [i]) == FramesOf(session)
      && !WantsReceive(i) && !WantsAdvance(i)
  {
    hide FramesOf, WellBehaved;
    GoingIsWellBehaved(session, deadline, capacity);
    SessionAppend(session, Advance(deadline - session[|session| - 1].reading), deadline, capacity);
    assert FramesOf(session) + [] == FramesOf(session);
  }

  lemma GoingSucceeds(session: seq<Interaction>, deadline: nat, capacity: nat, locals: Locals)
    requires Going(session, deadline, capacity)
    ensures SessionResult(locals, session) == Success(Report(locals, DISTINCT_RECORD_LIMIT, FramesOf(session)))
  {
  }

  lemma FailureIsReturned(session: seq<Interaction>, e: ListenError, locals: Locals)
    requires session != [] && ErrorOf(session[|session| - 1]) == Some(e)
    ensures SessionResult(locals, session) == Failure(e)
  {
  }

  lemma GoingIsWellBehaved(session: seq<Interaction>, deadline: nat, capacity: nat)
    requires Going(session, deadline, capacity)
    ensures WellBehaved(session, deadline, capacity)
    ensures session != [] ==> ErrorOf(session[|session| - 1]).None?
  {
  }

  lemma EmptySession(deadline: nat, capacity: nat)
    ensures Going([], deadline, capacity) && FramesOf([]) == []
  {
  }

  lemma LogGrows(
      log: seq<Interaction>, session: seq<Interaction>, between: seq<Interaction>, after: seq<Interaction>)
    requires session <= between <= after
    ensures log + between[|session|..] + after[|between|..] == log + after[|session|..]
  {
    assert after[|session|..] == between[|session|..] + after[|between|..];
  }

  method DrainUntilDeadline(
      world: World, deadline: nat, buffer: array<u8>, aggregator: Aggregator, ghost session: seq<Interaction>)
    returns (r: Result<(), ListenError>, ghost after: seq<Interaction>)
    requires session != [] && Going(session, deadline, buffer.Length)
    requires WantsReceive(session[|session| - 1])
    requires aggregator.Valid() && aggregator.trace == FramesOf(session)
    modifies world`clock, world`patience, world`readings, world`log, buffer, aggregator
    ensures session <= after && world.log == old(world.log) + after[|session|..]
    ensures WellBehaved(after, deadline, buffer.Length)
    ensures r.Success? ==>
      Going(after, deadline, buffer.Length) && aggregator.Valid() && aggregator.trace == FramesOf(after)
    ensures r.Success? ==> world.clock >= deadline || !WantsReceive(after[|after| - 1])
    ensures r.Failure? ==> ErrorOf(after[|after| - 1]) == Some(r.error)
    ensures forall i :: |session| <= i < |after| ==> after[i].Receive?
    ensures !WantsAdvance(after[|after| - 1])
    ensures world.clock >= old(world.clock)
    ensures world.clock == old(world.clock) ==> world.patience <= old(world.patience)
    ensures old(world.readings) <= world.readings
  {
    hide FramesOf, WellBehaved, Going, Report, Aggregator.Valid;
    after := session;
    while true
      invariant session <= after && world.log == old(world.log) + after[|session|..]
      invariant Going(after, deadline, buffer.Length) && WantsReceive(after[|after| - 1])
      invariant forall i :: |session| <= i < |after| ==> after[i].Receive?
      invariant aggregator.Valid() && aggregator.trace == FramesOf(after)
      invariant world.clock >= old(world.clock)
      invariant world.clock == old(world.clock) ==> world.patience <= old(world.patience)
      invariant old(world.readings) <= world.readings
      decreases if world.clock < deadline then deadline - world.clock else 0, world.patience
    {
      GoingIsWellBehaved(after, deadline, buffer.Length);
      var now := world.Now();
      if now >= deadline {
        return Success(()), after;
      }
      var received := world.TryReceiveEthernetFrame(buffer);
      ghost var i := world.log[|world.log| - 1];
      SessionAppend(after, i, deadline, buffer.Length);
      after := after + [i];
      match received
      case Failure(e) =>
        return Failure(e), after;
      case Success(None) =>
        return Success(()), after;
      case Success(Some(length)) =>
        if length > buffer.Length {
          return Failure(ReceiveLengthExceedsBuffer), after;
        }
        aggregator.Observe(buffer[..length]);
    }
  }

  /** One pass of the listen loop: polls for the time left, then drains the endpoint or tells the clock. */
  method PollOnce(
      world: World, deadline: nat, remaining: nat, buffer: array<u8>, aggregator: Aggregator,
      ghost session: seq<Interaction>)
    returns (r: Result<(), ListenError>, ghost after: seq<Interaction>)
    requires Going(session, deadline, buffer.Length)
    requires session != [] ==> !WantsReceive(session[|session| - 1]) && !WantsAdvance(session[|session| - 1])
    requires aggregator.Valid() && aggregator.trace == FramesOf(session)
    requires world.clock < deadline && remaining == deadline - world.clock
    modifies world`clock, world`patience, world`readings, world`log, buffer, aggregator
    ensures session < after && world.log == old(world.log) + after[|session|..]
    ensures old(world.readings) <= world.readings
    ensures WellBehaved(after, deadline, buffer.Length) && !WantsAdvance(after[|after| - 1])
    ensures r.Failure? ==> ErrorOf(after[|after| - 1]) == Some(r.error)
    ensures r.Success? ==>
      && Going(after, deadline, buffer.Length) && (world.clock >= deadline || !WantsReceive(after[|after| - 1]))
      && aggregator.Valid() && aggregator.trace == FramesOf(after)
    ensures world.clock >= old(world.clock)
    ensures world.clock == old(world.clock) ==> world.patience < old(world.patience)
  {
    hide FramesOf, WellBehaved, Going, Report, Aggregator.Valid, InTime, Follows, ErrorOf;
    hide PollTimeoutMilliseconds, WantsReceive, WantsAdvance;
    ghost var start, now := world.log, world.clock;
    var readable := world.WaitUntilReadable(PollTimeoutMilliseconds(remaining));
    ghost var poll := world.log[|world.log| - 1];
    PollAppend(session, now, poll.answer, deadline, buffer.Length);
    after := session + [poll];
    GoingIsWellBehaved(session, deadline, buffer.Length);
    if readable.Failure? {
      return Failure(readable.error), after;
    }
    if readable.value {
      var drained;
      ghost var polled := after;
      drained, after := DrainUntilDeadline(world, deadline, buffer, aggregator, after);
      LogGrows(start, session, polled, after);
      if drained.Failure? {
        return Failure(drained.error), after;
      }
    } else {
      AdvanceAppend(after, deadline, buffer.Length);
      world.AdvanceAfterUnreadableWait(remaining);
      after := after + [Advance(remaining)];
    }
    GoingIsWellBehaved(after, deadline, buffer.Length);
    return Success(()), after;
  }

  /** The loop of `ListenForPassiveArp`, between setting up the aggregator and finishing it. */
  method ListenUntil(world: World, deadline: nat, buffer: array<u8>, aggregator: Aggregator)
    returns (r: Result<(), ListenError>, ghost session: seq<Interaction>)
    requires aggregator.Valid() && aggregator.trace == []
    modifies world`clock, world`patience, world`readings, world`log, buffer, aggregator
    ensures world.log == old(world.log) + session && old(world.readings) <= world.readings
    ensures WellBehaved(session, deadline, buffer.Length)
    ensures r.Failure? ==> session != [] && ErrorOf(session[|session| - 1]) == Some(r.error)
    ensures session != [] ==> !WantsAdvance(session[|session| - 1])
    ensures r.Success? ==>
      && Going(session, deadline, buffer.Length) && world.clock >= deadline
      && aggregator.Valid() && aggregator.trace == FramesOf(session)
  {
    hide FramesOf, WellBehaved, Going, Report, Aggregator.Valid, SessionResult, InTime, Follows, ErrorOf;
    hide PollTimeoutMilliseconds, WantsReceive, WantsAdvance;
    ghost var start := world.log;
    session := [];
    EmptySession(deadline, buffer.Length);
    while true
      invariant world.log == start + session && old(world.readings) <= world.readings
      invariant Going(session, deadline, buffer.Length)
      invariant aggregator.Valid() && aggregator.trace == FramesOf(session)
      invariant session != [] ==> world.clock >= deadline || !WantsReceive(session[|session| - 1])
      invariant session != [] ==> !WantsAdvance(session[|session| - 1])
      decreases if world.clock < deadline then deadline - world.clock else 0, world.patience
    {
      var now := world.Now();
      if now >= deadline {
        break;
      }
      now := world.Now();
      var remaining := world.SaturatingDurationSince(deadline, now);
      if remaining == 0 {
        break;
      }
      var polled;
      ghost var before := session;
      polled, session := PollOnce(world, deadline, remaining, buffer, aggregator, session);
      LogGrows(start, [], before, session);
      if polled.Failure? {
        return Failure(polled.error), session;
      }
    }
    GoingIsWellBehaved(session, deadline, buffer.Length);
    return Success(()), session;
  }

  /**
   Listens until the deadline, the first clock reading plus the timeout. Whatever the endpoint and the
   clock do: polls and receives start before the deadline, every poll asks for exactly the time left,
   every readable poll and every frame is followed by a receive unless the deadline has passed, every
   unreadable poll by telling the clock the time that was left, nothing is sent, a failure ends the
   session at once, and the outcome is the report on exactly the frames received, in order.
   */
  method ListenForPassiveArp(world: World, locals: Locals, timeout: nat)
    returns (r: Result<Outcome, ListenError>, ghost session: seq<Interaction>, ghost deadline: nat)
    modifies world`clock, world`patience, world`readings, world`log
    ensures world.log == old(world.log) + session
    ensures timeout == 0 ==> r == Failure(MonitorTimeoutRejected) && session == [] && world.clock == old(world.clock)
    ensures timeout > 0 ==>
      && old(world.clock) + timeout <= deadline
      && old(world.readings) < world.readings && deadline == world.readings[|old(world.readings)|] + timeout
    ensures timeout > 0 && deadline > world.clockLimit ==> r == Failure(ScanTimingExceedsLimit) && session == []
    ensures timeout > 0 && deadline <= world.clockLimit ==>
      && WellBehaved(session, deadline, 4096)
      && (session != [] ==> !(session[|session| - 1].Poll? && session[|session| - 1].answer == NotReadable))
      && r == SessionResult(locals, session)
      && (r.Success? ==> world.clock >= deadline)
  {
    hide FramesOf, WellBehaved, Going, Report, Aggregator.Valid, SessionResult, InTime, Follows, ErrorOf;
    session, deadline := [], 0;
    var checkedDeadline := MonitorDeadline(world, timeout);
    deadline := world.clock + timeout;
    if checkedDeadline.Failure? {
      return Failure(checkedDeadline.error), session, deadline;
    }
    var aggregator := new Aggregator(locals, DISTINCT_RECORD_LIMIT);
    var buffer := new u8[RECEIVE_BUFFER_LENGTH](i => 0);
    var listened;
    listened, session := ListenUntil(world, checkedDeadline.value, buffer, aggregator);
    if listened.Failure? {
      FailureIsReturned(session, listened.error, locals);
      return Failure(listened.error), session, deadline;
    }
    GoingSucceeds(session, deadline, 4096, locals);
    var outcome := aggregator.Finish();
    return Success(outcome), session, deadline;
  }

  /**
   What a well-behaved session is, call by call, and what it returns: the error of its last call if
   that failed, and otherwise the report on the frames it received.
   */
  lemma SessionsAreExact(locals: Locals, session: seq<Interaction>, deadline: nat, capacity: nat)
    requires WellBehaved(session, deadline, capacity)
    ensures forall i :: 0 <= i < |session| ==>
      match session[i]
      case Poll(reading, milliseconds, _) =>
        && reading < deadline
        && milliseconds
           == (if deadline - reading < 0x8000_0000 * 1_000_000 then (deadline - reading) / 1_000_000 else 0x7FFF_FFFF)
      case Receive(reading, answer) =>
        && reading < deadline
        && (answer.Frame? ==> |answer.octets| <= capacity) && (answer.Oversized? ==> answer.length > capacity)
      case Send(_) => false
      case Advance(_) => true
    ensures session != [] ==> session[0].Poll?
    ensures forall i :: 0 < i < |session| ==>
      (session[i].Receive?
       <==> || (session[i - 1].Poll? && session[i - 1].answer == Readable)
            || (session[i - 1].Receive? && session[i - 1].answer.Frame?))
    ensures forall i :: 0 < i < |session| ==>
      && (session[i].Advance? <==> session[i - 1].Poll? && session[i - 1].answer == NotReadable)
      && (session[i].Advance? ==> session[i].waited == deadline - session[i - 1].reading)
    ensures forall i :: 0 <= i < |session| - 1 ==>
      && !(session[i].Poll? && session[i].answer == PollFailed)
      && !(session[i].Receive? && (session[i].answer == ReceiveFailed || session[i].answer.Oversized?))
    ensures SessionResult(locals, session) ==
      if session == [] then Success(Report(locals, 4096, []))
      else
        match session[|session| - 1]
        case Poll(_, _, PollFailed) => Failure(PollWaitFailed)
        case Receive(_, ReceiveFailed) => Failure(RawPacketReceiveFailed)
        case Receive(_, Oversized(_)) => Failure(ReceiveLengthExceedsBuffer)
        case _ => Success(Report(locals, 4096, FramesOf(session)))
  {
    hide Report, FramesOf;
    EmptySession(deadline, capacity);
    forall i | 0 < i < |session|
      ensures Follows(session[i - 1], session[i], deadline)
    {
    }
    forall i | 0 <= i < |session| - 1
      ensures ErrorOf(session[i]).None?
    {
      assert Follows(session[i + 1 - 1], session[i + 1], deadline);
    }
  }
}
