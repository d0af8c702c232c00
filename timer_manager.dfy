/** Periodic and one-shot timers on a discrete-event clock.

    Simulation time is fixed-point, so it is an `int` number of ticks here, and
    the current time `now` is a parameter. The scheduler calls a manager issues
    are appended to a ghost log, and each fired callback is recorded in a ghost
    log of the timer messages that fired. */
module Timers {

  const SIZE_MAX: int := 0xFFFF_FFFF_FFFF_FFFF

  /** Ticks per second of simulation time at OMNeT++'s default resolution
      (picoseconds); the integer literal `1` converted to a simulation time is
      one second. */
  const SECOND: int := 1_000_000_000_000

  /** The values of the unsigned 64-bit `size_t`. */
  type SizeT = n: int | 0 <= n <= SIZE_MAX

  datatype StartMode = Immediate | Relative | Absolute

  datatype EndMode = Open | Relative | Absolute | Repitition

  /** `n - 1` in `size_t` arithmetic: 0 - 1 wraps around to SIZE_MAX. */
  function SizeTDecrement(n: SizeT): (r: SizeT)
    ensures n > 0 ==> r + 1 == n
    ensures n == 0 ==> r == SIZE_MAX
  {
    (n - 1) % (SIZE_MAX + 1)
  }

  /** `fmod(x, y) == 0` on simulation times: y divides x. A zero divisor
      is treated as "no occurrence"; every specification that reaches this
      test has a positive period. */
  predicate FmodIsZero(x: int, y: int)
  {
    y != 0 && x % y == 0
  }

  /** The fields of a timer specification, as a value. */
  datatype TimerSpec = TimerSpec(startMode: StartMode, start: int,
                                 endMode: EndMode, endTime: int, endCount: SizeT,
                                 period: int)
  {
    /** An interval has been set: the period is no longer the initial -1,
        and setInterval only accepts positive intervals. */
    predicate Valid()
    {
      period > 0
    }

    /** The start is an absolute time and the end is absolute or open. */
    predicate IsFinal()
    {
      startMode != StartMode.Relative && (endMode == EndMode.Absolute || endMode == EndMode.Open)
    }

    /** The k-th multiple of the period after the start. */
    function Occurrence(k: nat): int
    {
      start + k * period
    }

    /** Whether the timer fires at `time`. */
    predicate ValidOccurence(time: int)
    {
      time >= start && (time <= endTime || endMode == EndMode.Open) && FmodIsZero(time - start, period)
    }

    /** Relative times made absolute against `now`; a repetition count turned
        into the absolute time of the last repetition. */
    function Finalized(now: int): (r: TimerSpec)
      ensures r.IsFinal()
      ensures startMode == StartMode.Relative ==> r.startMode == StartMode.Absolute
      ensures startMode != StartMode.Relative ==> r.startMode == startMode
      ensures endMode != EndMode.Open ==> r.endMode == EndMode.Absolute
      ensures endMode == EndMode.Open ==> r.endMode == EndMode.Open
      ensures r.period == period && r.endCount == endCount
    {
      var s := match startMode
        case Relative => this.(start := start + now, startMode := StartMode.Absolute)
        case Absolute => this
        case Immediate => this.(start := now + period);
      match s.endMode
      case Relative => s.(endTime := s.endTime + now, endMode := EndMode.Absolute)
      case Absolute => s
      case Repitition => s.(endTime := s.start + SizeTDecrement(s.endCount) * s.period, endMode := EndMode.Absolute)
      case Open => s
    }
  }

  /** With a positive period, the occurrences are exactly the multiples of
      the period after the start, up to the end time unless the end is open. */
  lemma ValidOccurenceIsPeriodic(spec: TimerSpec, time: int)
    requires spec.period > 0
    ensures spec.ValidOccurence(time) <==>
      (exists k: nat :: spec.Occurrence(k) == time) && (time <= spec.endTime || spec.endMode == EndMode.Open)
  {
    if time >= spec.start && (time - spec.start) % spec.period == 0 {
      var k: nat := (time - spec.start) / spec.period;
      assert spec.Occurrence(k) == time;
    }
    if exists k: nat :: spec.Occurrence(k) == time {
      var k: nat :| spec.Occurrence(k) == time;
      MultipleModulo(k, spec.period);
      assert time - spec.start == k * spec.period;
      assert k * spec.period >= 0;
    }
  }

  /** With n >= 1 repetitions and a positive period, the finalized timer
      fires at start + k * period exactly for 0 <= k < n. */
  lemma RepetitionsOccurrences(spec: TimerSpec, now: int, k: int)
    requires spec.endMode == EndMode.Repitition && spec.endCount >= 1 && spec.period > 0
    ensures var f := spec.Finalized(now);
      f.ValidOccurence(f.start + k * spec.period) <==> 0 <= k < spec.endCount
  {
    var f := spec.Finalized(now);
    var p, n := spec.period, spec.endCount;
    assert f.endTime == f.start + (n - 1) * p;
    assert f.endMode == EndMode.Absolute;
    MultipleModulo(k, p);
    ProductMonotone(k, n - 1, p);
    assert f.start + k * p - f.start == k * p;
  }

  /** Multiplying by a positive factor keeps the order. */
  lemma ProductMonotone(a: int, b: int, p: int)
    requires p > 0
    ensures a <= b <==> a * p <= b * p
  {
    Distribute(b, a, p);
    if a < b {
      ProductAtLeast(b - a, p);
    } else if a > b {
      Distribute(a, b, p);
      ProductAtLeast(a - b, p);
    }
  }

  lemma ProductAtLeast(a: int, p: int)
    requires a >= 1 && p > 0
    ensures a * p >= p
  {
  }

  lemma Distribute(q: int, q': int, p: int)
    ensures q * p - q' * p == (q - q') * p
  {
  }

  /** Quotient and remainder are unique. */
  lemma DivModUnique(x: int, p: int, q: int, r: int)
    requires p > 0 && 0 <= r < p && x == q * p + r
    ensures x % p == r && x / p == q
  {
    var q', r' := x / p, x % p;
    assert x == q' * p + r';
    Distribute(q, q', p);
    if q > q' {
      ProductAtLeast(q - q', p);
      assert false;
    } else if q < q' {
      ProductAtLeast(q' - q, p);
      Distribute(q', q, p);
      assert false;
    }
  }

  lemma MultipleModulo(k: int, p: int)
    requires p > 0
    ensures (k * p) % p == 0
    ensures k < 0 ==> k * p < 0
    ensures k >= 0 ==> k * p >= 0
  {
    DivModUnique(k * p, p, k, 0);
  }

  /** The first occurrence of a finalized timer: now + start for a relative
      start, start for an absolute one, and now + period (one period after
      now, not now) for an immediate one. No occurrence comes earlier; the
      first one is valid unless the end time is already past. */
  lemma FirstOccurrenceAfterFinalize(spec: TimerSpec, now: int, time: int)
    requires spec.period > 0
    ensures var f := spec.Finalized(now);
      var first := match spec.startMode
        case Relative => now + spec.start
        case Absolute => spec.start
        case Immediate => now + spec.period;
      && f.start == first
      && (f.ValidOccurence(time) ==> first <= time)
      && (f.ValidOccurence(first) <==> f.endMode == EndMode.Open || first <= f.endTime)
  {
    var f := spec.Finalized(now);
    assert (f.start - f.start) % f.period == 0;
  }

  /** A relative end becomes the absolute end time now + end time, an
      absolute end is kept. No occurrence lies after it, and with a positive
      period every multiple of the period from the start up to it is one. */
  lemma EndAfterFinalize(spec: TimerSpec, now: int, time: int, k: nat)
    requires spec.endMode == EndMode.Relative || spec.endMode == EndMode.Absolute
    ensures var f := spec.Finalized(now);
      var end := if spec.endMode == EndMode.Relative then now + spec.endTime else spec.endTime;
      && f.endTime == end
      && f.endMode == EndMode.Absolute
      && (f.ValidOccurence(time) ==> time <= end)
      && (spec.period > 0 && f.Occurrence(k) <= end ==> f.ValidOccurence(f.Occurrence(k)))
  {
    var f := spec.Finalized(now);
    if spec.period > 0 {
      ValidOccurenceIsPeriodic(f, f.Occurrence(k));
    }
  }

  /** A one-shot timer (any positive period, one repetition) fires exactly once: at
      now + start when the start is relative, at start when it is absolute. */
  lemma OneshotFiresOnce(spec: TimerSpec, now: int, time: int)
    requires spec.startMode == StartMode.Relative || spec.startMode == StartMode.Absolute
    requires spec.period > 0 && spec.endMode == EndMode.Repitition && spec.endCount == 1
    ensures spec.Finalized(now).ValidOccurence(time) <==>
      time == if spec.startMode == StartMode.Relative then now + spec.start else spec.start
  {
    var f := spec.Finalized(now);
    assert f.endTime == f.start;
  }

  /** After firing at a valid occurrence, the next period is an occurrence
      exactly when the end is open or not yet passed. */
  lemma NextOccurrence(spec: TimerSpec, time: int)
    requires spec.period > 0 && spec.ValidOccurence(time)
    ensures spec.ValidOccurence(time + spec.period) <==>
      spec.endMode == EndMode.Open || time + spec.period <= spec.endTime
  {
    var p := spec.period;
    assert time + p - spec.start == (time - spec.start) + p;
    ModuloShift(time - spec.start, p);
  }

  lemma ModuloShift(x: int, p: int)
    requires p > 0 && x % p == 0
    ensures (x + p) % p == 0
  {
    DivModUnique(x + p, p, x / p + 1, 0);
  }

  /** The times at which a timer with an end time fires when it is first
      delivered at `time`. This mirrors the ensures of
      TimerManager.HandleMessage: a delivery at a valid occurrence fires once
      and reschedules one period later while that is still an occurrence;
      otherwise the timer is erased and the sequence ends. */
  ghost function Firings(spec: TimerSpec, time: int): (r: seq<int>)
    requires spec.period > 0 && spec.endMode != EndMode.Open
    ensures forall i :: 0 <= i < |r| ==> spec.ValidOccurence(r[i])
    decreases if time <= spec.endTime then spec.endTime - time + 1 else 0
  {
    if spec.ValidOccurence(time) then [time] + Firings(spec, time + spec.period) else []
  }

  /** A timer finalized with n >= 1 repetitions, delivered at its start,
      fires exactly n times, one period apart. */
  lemma RepetitionsFireNTimes(spec: TimerSpec, now: int)
    requires spec.endMode == EndMode.Repitition && spec.endCount >= 1 && spec.period > 0
    ensures var f := spec.Finalized(now);
      Firings(f, f.start) == seq(spec.endCount, k requires 0 <= k => f.start + k * spec.period)
  {
    FiringsFrom(spec, now, 0);
    var f := spec.Finalized(now);
    assert forall k :: 0 <= k < spec.endCount ==> f.start + (0 + k) * spec.period == f.start + k * spec.period;
  }

  lemma {:induction false} FiringsFrom(spec: TimerSpec, now: int, j: nat)
    requires spec.endMode == EndMode.Repitition && spec.endCount >= 1 && spec.period > 0
    requires j <= spec.endCount
    ensures var f := spec.Finalized(now);
      Firings(f, f.start + j * spec.period) == seq(spec.endCount - j, k requires 0 <= k => f.start + (j + k) * spec.period)
    decreases spec.endCount - j
  {
    var f := spec.Finalized(now);
    var p := spec.period;
    var t := f.start + j * p;
    RepetitionsOccurrences(spec, now, j);
    if j < spec.endCount {
      assert t + p == f.start + (j + 1) * p;
      FiringsFrom(spec, now, j + 1);
      var rest := seq(spec.endCount - (j + 1), k requires 0 <= k => f.start + (j + 1 + k) * p);
      assert Firings(f, t) == [t] + rest;
      forall k | 0 <= k < spec.endCount - j
        ensures ([t] + rest)[k] == f.start + (j + k) * p
      {
        if k > 0 {
          assert rest[k - 1] == f.start + (j + 1 + (k - 1)) * p;
        }
      }
    }
  }

  /** A timer specification under construction: the setters change it in
      place and return it, so that calls can be chained. */
  class TimerSpecification {
    var startMode: StartMode
    var start: int
    var endMode: EndMode
    var endTime: int
    var endCount: SizeT
    var period: int

    function Value(): TimerSpec
      reads this
    {
      TimerSpec(startMode, start, endMode, endTime, endCount, period)
    }

    /** Immediate start, open end, and the unset period -1. */
    constructor ()
      ensures Value() == TimerSpec(StartMode.Immediate, 0, EndMode.Open, 0, 0, -1)
    {
      startMode := StartMode.Immediate;
      start := 0;
      endMode := EndMode.Open;
      endTime := 0;
      endCount := 0;
      period := -1;
    }

    /** A copy, as made when a specification is passed by value. */
    constructor Copy(other: TimerSpecification)
      ensures Value() == other.Value()
    {
      startMode := other.startMode;
      start := other.start;
      endMode := other.endMode;
      endTime := other.endTime;
      endCount := other.endCount;
      period := other.period;
    }

    method SetInterval(interval: int) returns (self: TimerSpecification)
      requires interval > 0
      modifies this
      ensures self == this
      ensures Value() == old(Value()).(period := interval)
    {
      period := interval;
      return this;
    }

    method SetRelativeStart(start: int) returns (self: TimerSpecification)
      modifies this
      ensures self == this
      ensures Value() == old(Value()).(startMode := StartMode.Relative, start := start)
    {
      startMode := StartMode.Relative;
      this.start := start;
      return this;
    }

    method SetAbsoluteStart(start: int) returns (self: TimerSpecification)
      modifies this
      ensures self == this
      ensures Value() == old(Value()).(startMode := StartMode.Absolute, start := start)
    {
      startMode := StartMode.Absolute;
      this.start := start;
      return this;
    }

    method SetImmediateStart() returns (self: TimerSpecification)
      modifies this
      ensures self == this
      ensures Value() == old(Value()).(startMode := StartMode.Immediate)
    {
      startMode := StartMode.Immediate;
      return this;
    }

    method SetRelativeEnd(end: int) returns (self: TimerSpecification)
      modifies this
      ensures self == this
      ensures Value() == old(Value()).(endMode := EndMode.Relative, endTime := end)
    {
      endMode := EndMode.Relative;
      endTime := end;
      return this;
    }

    method SetAbsoluteEnd(end: int) returns (self: TimerSpecification)
      modifies this
      ensures self == this
      ensures Value() == old(Value()).(endMode := EndMode.Absolute, endTime := end)
    {
      endMode := EndMode.Absolute;
      endTime := end;
      return this;
    }

    method SetRepititions(n: SizeT) returns (self: TimerSpecification)
      modifies this
      ensures self == this
      ensures Value() == old(Value()).(endMode := EndMode.Repitition, endCount := n)
    {
      endMode := EndMode.Repitition;
      endCount := n;
      return this;
    }

    method SetOpenEnd() returns (self: TimerSpecification)
      modifies this
      ensures self == this
      ensures Value() == old(Value()).(endMode := EndMode.Open)
    {
      endMode := EndMode.Open;
      return this;
    }

    /** Relative start `delay`, a period of one second, one repetition. */
    method SetOneshotIn(delay: int) returns (self: TimerSpecification)
      modifies this
      ensures self == this
      ensures Value() == old(Value()).(startMode := StartMode.Relative, start := delay, period := SECOND,
                                       endMode := EndMode.Repitition, endCount := 1)
    {
      self := SetRelativeStart(delay);
      self := self.SetInterval(SECOND);
      self := self.SetRepititions(1);
    }

    /** Absolute start `at`, a period of one second, one repetition. */
    method SetOneshotAt(at: int) returns (self: TimerSpecification)
      modifies this
      ensures self == this
      ensures Value() == old(Value()).(startMode := StartMode.Absolute, start := at, period := SECOND,
                                       endMode := EndMode.Repitition, endCount := 1)
    {
      self := SetAbsoluteStart(at);
      self := self.SetInterval(SECOND);
      self := self.SetRepititions(1);
    }

    method Finalize(now: int)
      modifies this
      ensures Value() == old(Value()).Finalized(now)
    {
      match startMode {
        case Relative =>
          start := start + now;
          startMode := StartMode.Absolute;
        case Absolute =>
        case Immediate =>
          start := now + period;
      }

      match endMode {
        case Relative =>
          endTime := endTime + now;
          endMode := EndMode.Absolute;
        case Absolute =>
        case Repitition =>
          endTime := start + SizeTDecrement(endCount) * period;
          endMode := EndMode.Absolute;
        case Open =>
      }
    }
  }

  /** A simulation message. `isTimerMessage` stands for the dynamic type
      test, `isSelfMessage` for a message the module scheduled to itself. */
  class Message {
    const name: string
    const isTimerMessage: bool
    const isSelfMessage: bool

    constructor (name: string, isTimerMessage: bool, isSelfMessage: bool)
      ensures this.name == name
      ensures this.isTimerMessage == isTimerMessage && this.isSelfMessage == isSelfMessage
    {
      this.name := name;
      this.isTimerMessage := isTimerMessage;
      this.isSelfMessage := isSelfMessage;
    }
  }

  /** A call into the owning module's scheduler. */
  datatype SchedulerCall = ScheduleAt(time: int, message: Message) | CancelEvent(message: Message)

  /** The live timers of one module, keyed by their timer message. */
  class TimerManager {
    var timers: map<Message, TimerSpec>
    ghost var scheduled: seq<SchedulerCall>
    ghost var fired: seq<Message>

    /** Every live timer was created here: a timer self-message whose
        finalized specification has a positive period. The period is what
        makes a rescheduled event lie strictly later, on the timer's grid. */
    ghost predicate Valid()
      reads this
    {
      forall m :: m in timers ==>
        m.isTimerMessage && m.isSelfMessage && timers[m].Valid() && timers[m].IsFinal()
    }

    constructor ()
      ensures Valid()
      ensures timers == map[] && scheduled == [] && fired == []
    {
      timers := map[];
      scheduled := [];
      fired := [];
    }

    /** Finalizes a copy of `spec` against `now`, stores it under a fresh
        timer message and schedules that message at the first occurrence. */
    method Create(spec: TimerSpecification, name: string, now: int) returns (message: Message)
      requires Valid()
      requires spec.Value().Valid()
      modifies this
      ensures Valid()
      ensures fresh(message) && message.name == name && message !in old(timers)
      ensures timers == old(timers)[message := spec.Value().Finalized(now)]
      ensures scheduled == old(scheduled) + [ScheduleAt(spec.Value().Finalized(now).start, message)]
      ensures fired == old(fired)
    {
      var copy := new TimerSpecification.Copy(spec);
      copy.Finalize(now);
      message := new Message(name, true, true);
      timers := timers[message := copy.Value()];
      scheduled := scheduled + [ScheduleAt(copy.start, message)];
    }

    /** Removes the timer of `message` and cancels its pending event; does
        nothing when there is no such timer, so a second call changes nothing. */
    method Cancel(message: Message)
      requires Valid()
      modifies this
      ensures Valid()
      ensures timers == old(timers) - {message}
      ensures scheduled == if message in old(timers) then old(scheduled) + [CancelEvent(message)] else old(scheduled)
      ensures fired == old(fired)
    {
      if message in timers {
        scheduled := scheduled + [CancelEvent(message)];
        timers := timers - {message};
      }
    }

    /** Delivers `message` at time `now`. A timer message of a live timer
        fires its callback once, then is rescheduled one period later if that
        is still an occurrence, or its timer is removed. */
    method HandleMessage(message: Message, now: int) returns (handled: bool)
      requires Valid()
      requires message.isTimerMessage ==> message.isSelfMessage
      requires message.isTimerMessage && message in timers ==> timers[message].ValidOccurence(now)
      modifies this
      ensures Valid()
      ensures handled == (message.isTimerMessage && message in old(timers))
      ensures !handled ==> timers == old(timers) && scheduled == old(scheduled) && fired == old(fired)
      ensures handled ==> fired == old(fired) + [message]
      ensures handled ==>
        var spec := old(timers)[message];
        var next := now + spec.period;
        if spec.ValidOccurence(next) then
          timers == old(timers) && scheduled == old(scheduled) + [ScheduleAt(next, message)]
        else
          timers == old(timers) - {message} && scheduled == old(scheduled)
      ensures handled ==>
        var spec := old(timers)[message];
        var next := now + spec.period;
        next > now && (spec.ValidOccurence(next) ==> exists k: nat :: spec.Occurrence(k) == next)
    {
      if !message.isTimerMessage {
        return false;
      }
      if message !in timers {
        return false;
      }
      var spec := timers[message];

      fired := fired + [message];

      var nextEvent := now + spec.period;
      ValidOccurenceIsPeriodic(spec, nextEvent);
      if spec.ValidOccurence(nextEvent) {
        scheduled := scheduled + [ScheduleAt(nextEvent, message)];
      } else {
        timers := timers - {message};
      }
      return true;
    }
  }
}
