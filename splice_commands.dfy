/**
 * SCTE 35 (2019a) splice commands: splice_null (section 9.7.1), splice_schedule
 * (9.7.2), splice_insert (9.7.3), time_signal (9.7.4) and private_command
 * (9.7.6); the splice_time() and break_duration() structures (sections 9.8.1
 * and 9.8.2); and the list of splice times each command announces.
 */
module SpliceCommands {
  import opened Bits
  import opened Wrappers
  import opened BitReader
  import opened Packing

  datatype SpliceComponent = SpliceComponent(componentTag: int, spliceTime: int)

  datatype BreakDuration = BreakDuration(autoReturn: bool, duration: int)

  /** A splice time of -1 means the time is not given; a cancelled event keeps only its id and the cancel flag. */
  datatype SpliceEvent = SpliceEvent(
    eventId: int, eventCancelIdr: bool, outOfNetworkIdr: bool, programSpliceFlag: bool,
    durationFlag: bool, spliceImmediateFlag: bool, spliceTime: int, components: seq<SpliceComponent>,
    breakDuration: BreakDuration, uniqueProgramId: int, availNum: int, availsExpected: int)

  /** The commands; a splice_insert is a single event. */
  datatype SpliceCommand =
    | SpliceNull
    | SpliceSchedule(spliceCnt: int, spliceEvents: seq<SpliceEvent>)
    | SpliceInsert(event: SpliceEvent)
    | TimeSignal(spliceTime: int)
    | PrivateCommand(identifier: seq<byte>, privateBytes: seq<byte>)

  /** Splice_event{EventId: id, EventCancelIdr: true}: every other field has its zero value. */
  function CancelledEvent(id: int): SpliceEvent
  {
    SpliceEvent(id, true, false, false, false, false, 0, [], BreakDuration(false, 0), 0, 0, 0)
  }

  // ----- the commands as functions of their bits -----

  /**
   * readSpliceTime: for a splice_time(), a time_specified_flag, then either 6
   * reserved bits and a 33-bit time or 7 reserved bits and -1; otherwise a
   * 32-bit UTC time.
   */
  function SpliceTimeAt(bits: seq<bool>, p: nat, isSpliceTime: bool): Result<Step<int>, ReadError>
  {
    if isSpliceTime then
      if p + 1 > |bits| then Err(Truncated)
      else if bits[p] then
        if p + 40 > |bits| then Err(Truncated) else Ok(Step(Field(bits, p + 7, 33), p + 40))
      else if p + 8 > |bits| then Err(Truncated)
      else Ok(Step(-1, p + 8))
    else if p + 32 > |bits| then Err(Truncated)
    else Ok(Step(Field(bits, p, 32), p + 32))
  }

  /** readBreakDuration: auto_return, 6 reserved bits, a 33-bit duration. */
  function BreakDurationAt(bits: seq<bool>, p: nat): Result<Step<BreakDuration>, ReadError>
  {
    if p + 40 > |bits| then Err(Truncated)
    else Ok(Step(BreakDuration(bits[p], Field(bits, p + 7, 33)), p + 40))
  }

  /** A component: its tag, then its splice time unless the event is an immediate splice_insert. */
  function ComponentAt(bits: seq<bool>, p: nat, isSpliceInsert: bool, immediate: bool): Result<Step<SpliceComponent>, ReadError>
  {
    if p + 8 > |bits| then Err(Truncated)
    else if !isSpliceInsert || !immediate then
      match SpliceTimeAt(bits, p + 8, isSpliceInsert)
      case Err(e) => Err(e)
      case Ok(t) => Ok(Step(SpliceComponent(Field(bits, p, 8), t.value), t.next))
    else Ok(Step(SpliceComponent(Field(bits, p, 8), -1), p + 8))
  }

  /** k more components after the ones in acc. */
  function ComponentsFrom(bits: seq<bool>, p: nat, k: nat, acc: seq<SpliceComponent>, isSpliceInsert: bool, immediate: bool)
    : Result<Step<seq<SpliceComponent>>, ReadError>
    decreases k, 2
  {
    if k == 0 then Ok(Step(acc, p)) else ComponentsAfter(bits, p, k, acc, isSpliceInsert, immediate)
  }

  /**
   * k is not 0, so the loop body runs. A call of its own, so that unfolding
   * ComponentsFrom once or twice stops short of parsing a component.
   */
  function ComponentsAfter(bits: seq<bool>, p: nat, k: nat, acc: seq<SpliceComponent>, isSpliceInsert: bool, immediate: bool)
    : Result<Step<seq<SpliceComponent>>, ReadError>
    requires k > 0
    decreases k, 1
  {
    ComponentsNext(bits, p, k, acc, isSpliceInsert, immediate)
  }

  /** The loop body: one component at p, then the remaining k - 1. */
  function ComponentsNext(bits: seq<bool>, p: nat, k: nat, acc: seq<SpliceComponent>, isSpliceInsert: bool, immediate: bool)
    : Result<Step<seq<SpliceComponent>>, ReadError>
    requires k > 0
    decreases k, 0
  {
    match ComponentAt(bits, p, isSpliceInsert, immediate)
    case Err(e) => Err(e)
    case Ok(c) => ComponentsFrom(bits, c.next, k - 1, acc + [c.value], isSpliceInsert, immediate)
  }

  /** The time of an event: the program's splice time alone, or a count and that many components. */
  datatype Timing = Timing(spliceTime: int, components: seq<SpliceComponent>)

  function EventTiming(bits: seq<bool>, p: nat, onlyTime: bool, isSpliceInsert: bool, immediate: bool): Result<Step<Timing>, ReadError>
  {
    if onlyTime then
      match SpliceTimeAt(bits, p, isSpliceInsert)
      case Err(e) => Err(e)
      case Ok(t) => Ok(Step(Timing(t.value, []), t.next))
    else if p + 8 > |bits| then Err(Truncated)
    else
      match ComponentsFrom(bits, p + 8, Field(bits, p, 8), [], isSpliceInsert, immediate)
      case Err(e) => Err(e)
      case Ok(cs) => Ok(Step(Timing(-1, cs.value), cs.next))
  }

  /** The break duration when its flag is set, Break_duration{} when not. */
  function OptBreak(bits: seq<bool>, p: nat, present: bool): Result<Step<BreakDuration>, ReadError>
  {
    if present then BreakDurationAt(bits, p) else Ok(Step(BreakDuration(false, 0), p))
  }

  /** The program id and the two avail counts that close an event. */
  function EventTail(bits: seq<bool>, p: nat, e: SpliceEvent): Result<Step<SpliceEvent>, ReadError>
  {
    if p + 32 > |bits| then Err(Truncated)
    else Ok(Step(e.(uniqueProgramId := Field(bits, p, 16), availNum := Field(bits, p + 16, 8), availsExpected := Field(bits, p + 24, 8)), p + 32))
  }

  /** The break duration when the event's flag says so, then the tail. */
  function EventEnd(bits: seq<bool>, p: nat, e: SpliceEvent): Result<Step<SpliceEvent>, ReadError>
  {
    match OptBreak(bits, p, e.durationFlag)
    case Err(e) => Err(e)
    case Ok(bd) => EventTail(bits, bd.next, e.(breakDuration := bd.value))
  }

  /** Whether the event carries the program's splice time alone rather than components. */
  function OnlyTime(isSpliceInsert: bool, program: bool, immediate: bool): bool
  {
    if isSpliceInsert then program && !immediate else program
  }

  /**
   * The event after its id and cancel flag: four flags and 4 reserved bits; the
   * program's splice time alone when program_splice_flag is set (and, for a
   * splice_insert, splice_immediate_flag is not), components otherwise; the
   * break duration when its flag is set; the program id and avail counts.
   */
  function EventBody(bits: seq<bool>, q: nat, id: int, isSpliceInsert: bool): Result<Step<SpliceEvent>, ReadError>
  {
    if q + 8 > |bits| then Err(Truncated)
    else
      var out, program, duration, immediate := bits[q], bits[q + 1], bits[q + 2], bits[q + 3];
      match EventTiming(bits, q + 8, OnlyTime(isSpliceInsert, program, immediate), isSpliceInsert, immediate)
      case Err(e) => Err(e)
      case Ok(tm) =>
        EventEnd(bits, tm.next, SpliceEvent(id, false, out, program, duration, immediate,
          tm.value.spliceTime, tm.value.components, BreakDuration(false, 0), 0, 0, 0))
  }

  /** readSpliceEvent: a 32-bit id, the cancel flag and 7 reserved bits, then the body unless cancelled. */
  function EventAt(bits: seq<bool>, p: nat, isSpliceInsert: bool): Result<Step<SpliceEvent>, ReadError>
  {
    if p + 40 > |bits| then Err(Truncated)
    else if bits[p + 32] then Ok(Step(CancelledEvent(Field(bits, p, 32)), p + 40))
    else EventBody(bits, p + 40, Field(bits, p, 32), isSpliceInsert)
  }

  /** k more events of a schedule after the ones in acc. */
  function EventsFrom(bits: seq<bool>, p: nat, k: nat, acc: seq<SpliceEvent>): Result<Step<seq<SpliceEvent>>, ReadError>
    decreases k, 2
  {
    if k == 0 then Ok(Step(acc, p)) else EventsAfter(bits, p, k, acc)
  }

  /** k is not 0, so the loop body runs (a call of its own, as ComponentsAfter is). */
  function EventsAfter(bits: seq<bool>, p: nat, k: nat, acc: seq<SpliceEvent>): Result<Step<seq<SpliceEvent>>, ReadError>
    requires k > 0
    decreases k, 1
  {
    EventsNext(bits, p, k, acc)
  }

  /** The loop body: one event at p, then the remaining k - 1. */
  function EventsNext(bits: seq<bool>, p: nat, k: nat, acc: seq<SpliceEvent>): Result<Step<seq<SpliceEvent>>, ReadError>
    requires k > 0
    decreases k, 0
  {
    match EventAt(bits, p, false)
    case Err(e) => Err(e)
    case Ok(ev) => EventsFrom(bits, ev.next, k - 1, acc + [ev.value])
  }

  /** readSpliceSchedule: a count byte and that many events, each with UTC times. */
  function ScheduleAt(bits: seq<bool>, p: nat): Result<Step<SpliceCommand>, ReadError>
  {
    if p + 8 > |bits| then Err(Truncated)
    else
      match EventsFrom(bits, p + 8, Field(bits, p, 8), [])
      case Err(e) => Err(e)
      case Ok(es) => Ok(Step(SpliceSchedule(Field(bits, p, 8), es.value), es.next))
  }

  // ----- the readers -----

  /** readSpliceTime */
  method ReadSpliceTime(rd: BsReader, isSpliceTime: bool) returns (r: Result<int, ReadError>)
    requires rd.Valid()
    modifies rd
    ensures rd.Valid()
    ensures ReadAs(r, rd.BitPos(), SpliceTimeAt(rd.Bits(), old(rd.BitPos()), isSpliceTime))
  {
    ghost var bits, p := rd.Bits(), rd.BitPos();
    if isSpliceTime {
      if rd.Remaining() < 1 {
        return Err(Truncated);
      }
      var timeSpecifiedFlag := ReadFlag(rd);
      if timeSpecifiedFlag {
        if rd.Remaining() < 39 {
          return Err(Truncated);
        }
        var _ := rd.ReadBits(6);
        var t := rd.ReadBits(33);
        return Ok(t);
      }
      if rd.Remaining() < 7 {
        return Err(Truncated);
      }
      var _ := rd.ReadBits(7);
    } else {
      if rd.Remaining() < 32 {
        return Err(Truncated);
      }
      var t := rd.ReadBits(32);
      return Ok(t);
    }
    return Ok(-1);
  }

  /** readBreakDuration */
  method ReadBreakDuration(rd: BsReader) returns (r: Result<BreakDuration, ReadError>)
    requires rd.Valid()
    modifies rd
    ensures rd.Valid()
    ensures ReadAs(r, rd.BitPos(), BreakDurationAt(rd.Bits(), old(rd.BitPos())))
  {
    ghost var bits, p := rd.Bits(), rd.BitPos();
    if rd.Remaining() < 40 {
      return Err(Truncated);
    }
    var autoReturn := ReadFlag(rd);
    var _ := rd.ReadBits(6);
    var duration := rd.ReadBits(33);
    r := Ok(BreakDuration(autoReturn, duration));
  }

  /** readSpliceEvent: the id, the cancel flag, and the body of an event that is not cancelled. */
  method ReadSpliceEvent(rd: BsReader, isSpliceInsert: bool) returns (r: Result<SpliceEvent, ReadError>)
    requires rd.Valid()
    modifies rd
    ensures rd.Valid()
    ensures ReadAs(r, rd.BitPos(), EventAt(rd.Bits(), old(rd.BitPos()), isSpliceInsert))
  {
    ghost var bits, p := rd.Bits(), rd.BitPos();
    if rd.Remaining() < 40 {
      r := Err(Truncated);
    } else {
      var spliceEventId, spliceEventCancelIdr := ReadEventId(rd);
      if !spliceEventCancelIdr {
        r := ReadEventBody(rd, spliceEventId, isSpliceInsert);
      } else {
        r := Ok(CancelledEvent(spliceEventId));
      }
    }
    EventRead(bits, p, isSpliceInsert, r, rd.BitPos());
  }

  /** splice_event_id, splice_event_cancel_indicator and 7 reserved bits. */
  method ReadEventId(rd: BsReader) returns (id: int, cancel: bool)
    requires rd.Valid() && 40 <= rd.Remaining()
    modifies rd
    ensures rd.Valid() && rd.BitPos() == old(rd.BitPos()) + 40
    ensures id == Field(rd.Bits(), old(rd.BitPos()), 32) && cancel == rd.Bits()[old(rd.BitPos()) + 32]
  {
    id := rd.ReadBits(32);
    cancel := ReadFlag(rd);
    var _ := rd.ReadBits(7);
  }

  lemma EventRead(bits: seq<bool>, p: nat, isSpliceInsert: bool, r: Result<SpliceEvent, ReadError>, pos: int)
    requires p + 40 > |bits| ==> r == Err(Truncated)
    requires p + 40 <= |bits| && bits[p + 32] ==> r == Ok(CancelledEvent(Field(bits, p, 32))) && pos == p + 40
    requires p + 40 <= |bits| && !bits[p + 32] ==> ReadAs(r, pos, EventBody(bits, p + 40, Field(bits, p, 32), isSpliceInsert))
    ensures ReadAs(r, pos, EventAt(bits, p, isSpliceInsert))
  {
  }

  lemma EventAtSplits(bits: seq<bool>, p: nat, isSpliceInsert: bool)
    requires p + 40 <= |bits|
    ensures bits[p + 32] ==> EventAt(bits, p, isSpliceInsert) == Ok(Step(CancelledEvent(Field(bits, p, 32)), p + 40))
    ensures !bits[p + 32] ==> EventAt(bits, p, isSpliceInsert) == EventBody(bits, p + 40, Field(bits, p, 32), isSpliceInsert)
  {
  }

  /** The rest of an event that is not cancelled. */
  method ReadEventBody(rd: BsReader, id: int, isSpliceInsert: bool) returns (r: Result<SpliceEvent, ReadError>)
    requires rd.Valid()
    modifies rd
    ensures rd.Valid()
    ensures ReadAs(r, rd.BitPos(), EventBody(rd.Bits(), old(rd.BitPos()), id, isSpliceInsert))
  {
    ghost var bits, q := rd.Bits(), rd.BitPos();
    if rd.Remaining() < 8 {
      r := Err(Truncated);
    } else {
      var outOfNetworkIdr, programSpliceFlag, durationFlag, spliceImmediateFlag := ReadEventFlags(rd);
      var bOnlyTime := false;
      if isSpliceInsert {
        bOnlyTime := programSpliceFlag && !spliceImmediateFlag;
      } else {
        bOnlyTime := programSpliceFlag;
      }
      var timing := ReadEventTiming(rd, bOnlyTime, isSpliceInsert, spliceImmediateFlag);
      if timing.Err? {
        EventBodyStops(bits, q, id, isSpliceInsert);
        r := Err(Truncated);
      } else {
        var e := SpliceEvent(id, false, outOfNetworkIdr, programSpliceFlag, durationFlag, spliceImmediateFlag,
          timing.value.spliceTime, timing.value.components, BreakDuration(false, 0), 0, 0, 0);
        EventBodyContinues(bits, q, id, isSpliceInsert, Step(timing.value, rd.BitPos()));
        r := ReadEventEnd(rd, e);
      }
    }
  }

  lemma EventBodyStops(bits: seq<bool>, q: nat, id: int, isSpliceInsert: bool)
    requires q + 8 <= |bits|
    requires EventTiming(bits, q + 8, OnlyTime(isSpliceInsert, bits[q + 1], bits[q + 3]), isSpliceInsert, bits[q + 3]).Err?
    ensures EventBody(bits, q, id, isSpliceInsert).Err?
  {
  }

  lemma EventBodyContinues(bits: seq<bool>, q: nat, id: int, isSpliceInsert: bool, tm: Step<Timing>)
    requires q + 8 <= |bits|
    requires EventTiming(bits, q + 8, OnlyTime(isSpliceInsert, bits[q + 1], bits[q + 3]), isSpliceInsert, bits[q + 3]) == Ok(tm)
    ensures EventBody(bits, q, id, isSpliceInsert) == EventEnd(bits, tm.next, SpliceEvent(id, false, bits[q], bits[q + 1],
      bits[q + 2], bits[q + 3], tm.value.spliceTime, tm.value.components, BreakDuration(false, 0), 0, 0, 0))
  {
  }

  /** The break duration when the duration flag is set, then the tail. */
  method ReadEventEnd(rd: BsReader, e: SpliceEvent) returns (r: Result<SpliceEvent, ReadError>)
    requires rd.Valid()
    modifies rd
    ensures rd.Valid()
    ensures ReadAs(r, rd.BitPos(), EventEnd(rd.Bits(), old(rd.BitPos()), e))
  {
    var breakDuration := BreakDuration(false, 0);
    if e.durationFlag {
      var b := ReadBreakDuration(rd);
      if b.Err? {
        return Err(Truncated);
      }
      breakDuration := b.value;
    }
    r := ReadEventTail(rd, e.(breakDuration := breakDuration));
  }

  /** out_of_network_indicator, program_splice_flag, duration_flag, splice_immediate_flag and 4 reserved bits. */
  method ReadEventFlags(rd: BsReader) returns (out: bool, program: bool, duration: bool, immediate: bool)
    requires rd.Valid() && 8 <= rd.Remaining()
    modifies rd
    ensures rd.Valid() && rd.BitPos() == old(rd.BitPos()) + 8
    ensures var bits, q := rd.Bits(), old(rd.BitPos());
      out == bits[q] && program == bits[q + 1] && duration == bits[q + 2] && immediate == bits[q + 3]
  {
    out := ReadFlag(rd);
    program := ReadFlag(rd);
    duration := ReadFlag(rd);
    immediate := ReadFlag(rd);
    var _ := rd.ReadBits(4);
  }

  /** The program's splice time alone, or the component count and the components. */
  method ReadEventTiming(rd: BsReader, onlyTime: bool, isSpliceInsert: bool, immediate: bool) returns (r: Result<Timing, ReadError>)
    requires rd.Valid()
    modifies rd
    ensures rd.Valid()
    ensures ReadAs(r, rd.BitPos(), EventTiming(rd.Bits(), old(rd.BitPos()), onlyTime, isSpliceInsert, immediate))
  {
    if onlyTime {
      var t := ReadSpliceTime(rd, isSpliceInsert);
      if t.Err? {
        return Err(Truncated);
      }
      return Ok(Timing(t.value, []));
    }
    if rd.Remaining() < 8 {
      return Err(Truncated);
    }
    var componentCnt := rd.ReadBits(8);
    var cs := ReadComponents(rd, componentCnt, isSpliceInsert, immediate);
    if cs.Err? {
      return Err(Truncated);
    }
    r := Ok(Timing(-1, cs.value));
  }

  /** The loop over the components: n of them, in order. */
  method ReadComponents(rd: BsReader, n: nat, isSpliceInsert: bool, immediate: bool) returns (r: Result<seq<SpliceComponent>, ReadError>)
    requires rd.Valid()
    modifies rd
    ensures rd.Valid()
    ensures ReadAs(r, rd.BitPos(), ComponentsFrom(rd.Bits(), old(rd.BitPos()), n, [], isSpliceInsert, immediate))
  {
    ghost var bits, goal := rd.Bits(), ComponentsFrom(rd.Bits(), rd.BitPos(), n, [], isSpliceInsert, immediate);
    var components: seq<SpliceComponent> := [];
    var i := 0;
    while i < n
      invariant 0 <= i <= n && rd.Valid() && rd.Bits() == bits
      invariant goal == ComponentsFrom(bits, rd.BitPos(), n - i, components, isSpliceInsert, immediate)
    {
      ghost var q := rd.BitPos();
      var c := ReadComponent(rd, isSpliceInsert, immediate);
      if c.Err? {
        ComponentsStops(bits, q, n - i, components, isSpliceInsert, immediate);
        return Err(Truncated);
      }
      ComponentsStep(bits, q, n - i, components, isSpliceInsert, immediate, c, rd.BitPos());
      components := components + [c.value];
      i := i + 1;
    }
    r := Ok(components);
  }

  lemma ComponentsStops(bits: seq<bool>, q: nat, k: nat, acc: seq<SpliceComponent>, isSpliceInsert: bool, immediate: bool)
    requires 0 < k && ComponentAt(bits, q, isSpliceInsert, immediate).Err?
    ensures ComponentsFrom(bits, q, k, acc, isSpliceInsert, immediate).Err?
  {
    assert ComponentsFrom(bits, q, k, acc, isSpliceInsert, immediate) == ComponentsNext(bits, q, k, acc, isSpliceInsert, immediate);
  }

  lemma ComponentsStep(bits: seq<bool>, q: nat, k: nat, acc: seq<SpliceComponent>, isSpliceInsert: bool, immediate: bool,
    c: Result<SpliceComponent, ReadError>, pos: nat)
    requires 0 < k && ReadAs(c, pos, ComponentAt(bits, q, isSpliceInsert, immediate)) && c.Ok?
    ensures ComponentsFrom(bits, q, k, acc, isSpliceInsert, immediate)
      == ComponentsFrom(bits, pos, k - 1, acc + [c.value], isSpliceInsert, immediate)
  {
    assert ComponentsFrom(bits, q, k, acc, isSpliceInsert, immediate) == ComponentsNext(bits, q, k, acc, isSpliceInsert, immediate);
  }

  /** One component: its tag and, unless the splice_insert is immediate, its splice time. */
  method ReadComponent(rd: BsReader, isSpliceInsert: bool, immediate: bool) returns (r: Result<SpliceComponent, ReadError>)
    requires rd.Valid()
    modifies rd
    ensures rd.Valid()
    ensures ReadAs(r, rd.BitPos(), ComponentAt(rd.Bits(), old(rd.BitPos()), isSpliceInsert, immediate))
  {
    if rd.Remaining() < 8 {
      return Err(Truncated);
    }
    var tag := rd.ReadBits(8);
    var sTime := -1;
    if !isSpliceInsert || (isSpliceInsert && !immediate) {
      var t := ReadSpliceTime(rd, isSpliceInsert);
      if t.Err? {
        return Err(Truncated);
      }
      sTime := t.value;
    }
    r := Ok(SpliceComponent(tag, sTime));
  }

  /** unique_program_id, avail_num and avails_expected. */
  method ReadEventTail(rd: BsReader, e: SpliceEvent) returns (r: Result<SpliceEvent, ReadError>)
    requires rd.Valid()
    modifies rd
    ensures rd.Valid()
    ensures ReadAs(r, rd.BitPos(), EventTail(rd.Bits(), old(rd.BitPos()), e))
  {
    if rd.Remaining() < 32 {
      return Err(Truncated);
    }
    var uniqueProgramId := rd.ReadBits(16);
    var availNum := rd.ReadBits(8);
    var availsExpected := rd.ReadBits(8);
    r := Ok(e.(uniqueProgramId := uniqueProgramId, availNum := availNum, availsExpected := availsExpected));
  }

  /** readSpliceSchedule: the count, then that many events read with UTC splice times. */
  method ReadSpliceSchedule(rd: BsReader) returns (r: Result<SpliceCommand, ReadError>)
    requires rd.Valid()
    modifies rd
    ensures rd.Valid()
    ensures ReadAs(r, rd.BitPos(), ScheduleAt(rd.Bits(), old(rd.BitPos())))
  {
    if rd.Remaining() < 8 {
      return Err(Truncated);
    }
    var spliceCnt := rd.ReadBits(8);
    var spliceEvents := ReadSpliceEvents(rd, spliceCnt);
    if spliceEvents.Err? {
      return Err(Truncated);
    }
    r := Ok(SpliceSchedule(spliceCnt, spliceEvents.value));
  }

  /** The loop over a schedule's events: n of them, in order. */
  method ReadSpliceEvents(rd: BsReader, n: nat) returns (r: Result<seq<SpliceEvent>, ReadError>)
    requires rd.Valid()
    modifies rd
    ensures rd.Valid()
    ensures ReadAs(r, rd.BitPos(), EventsFrom(rd.Bits(), old(rd.BitPos()), n, []))
  {
    ghost var bits, goal := rd.Bits(), EventsFrom(rd.Bits(), rd.BitPos(), n, []);
    var spliceEvents: seq<SpliceEvent> := [];
    var i := 0;
    while i < n
      invariant 0 <= i <= n && rd.Valid() && rd.Bits() == bits
      invariant goal == EventsFrom(bits, rd.BitPos(), n - i, spliceEvents)
    {
      var event := ReadNextEvent(rd, n - i, spliceEvents);
      if event.Err? {
        return Err(Truncated);
      }
      spliceEvents := spliceEvents + [event.value];
      i := i + 1;
    }
    r := Ok(spliceEvents);
  }

  /** One pass of the event loop, with k events still to read after the ones in acc. */
  method ReadNextEvent(rd: BsReader, ghost k: nat, ghost acc: seq<SpliceEvent>) returns (r: Result<SpliceEvent, ReadError>)
    requires rd.Valid() && 0 < k
    modifies rd
    ensures rd.Valid()
    ensures r.Err? ==> EventsFrom(rd.Bits(), old(rd.BitPos()), k, acc).Err?
    ensures r.Ok? ==> EventsFrom(rd.Bits(), old(rd.BitPos()), k, acc) == EventsFrom(rd.Bits(), rd.BitPos(), k - 1, acc + [r.value])
  {
    ghost var bits, q := rd.Bits(), rd.BitPos();
    r := ReadSpliceEvent(rd, false);
    if r.Err? {
      EventsFromStops(bits, q, k, acc);
      return;
    }
    EventsFromStep(bits, q, k, acc, Step(r.value, rd.BitPos()));
  }

  lemma EventsFromStep(bits: seq<bool>, p: nat, k: nat, acc: seq<SpliceEvent>, ev: Step<SpliceEvent>)
    requires 0 < k && EventAt(bits, p, false) == Ok(ev)
    ensures EventsFrom(bits, p, k, acc) == EventsFrom(bits, ev.next, k - 1, acc + [ev.value])
  {
    assert EventsFrom(bits, p, k, acc) == EventsNext(bits, p, k, acc);
  }

  lemma EventsFromStops(bits: seq<bool>, p: nat, k: nat, acc: seq<SpliceEvent>)
    requires 0 < k && EventAt(bits, p, false).Err?
    ensures EventsFrom(bits, p, k, acc).Err?
  {
    assert EventsFrom(bits, p, k, acc) == EventsNext(bits, p, k, acc);
  }

  /** readTimeSignal: one splice_time(). */
  method ReadTimeSignal(rd: BsReader) returns (r: Result<SpliceCommand, ReadError>)
    requires rd.Valid()
    modifies rd
    ensures rd.Valid()
    ensures var s := SpliceTimeAt(rd.Bits(), old(rd.BitPos()), true);
      (r.Ok? <==> s.Ok?) && (r.Ok? ==> r.value == TimeSignal(s.value.value) && rd.BitPos() == s.value.next)
  {
    var t := ReadSpliceTime(rd, true);
    if t.Err? {
      return Err(Truncated);
    }
    r := Ok(TimeSignal(t.value));
  }

  // ----- the splice times a command announces (GetSplicePTS) -----

  /** The splice times of the components, in order. */
  function ComponentTimes(cs: seq<SpliceComponent>): seq<int>
  {
    seq(|cs|, i requires 0 <= i < |cs| => cs[i].spliceTime)
  }

  /** An event's splice time when it has one, else its components' times. */
  function EventPts(e: SpliceEvent): seq<int>
  {
    if e.spliceTime != -1 then [e.spliceTime] else ComponentTimes(e.components)
  }

  /** The events' lists one after another. */
  function EventsPts(es: seq<SpliceEvent>): seq<int>
  {
    if es == [] then [] else EventsPts(es[..|es| - 1]) + EventPts(es[|es| - 1])
  }

  function CommandPts(cmd: SpliceCommand): seq<int>
  {
    match cmd
    case SpliceNull => []
    case SpliceSchedule(_, events) => EventsPts(events)
    case SpliceInsert(event) => EventPts(event)
    case TimeSignal(t) => [t]
    case PrivateCommand(_, _) => []
  }

  /** GetSplicePTS, dispatched on the command. */
  method GetSplicePts(cmd: SpliceCommand) returns (rv: seq<int>)
    ensures rv == CommandPts(cmd)
  {
    match cmd
    case SpliceNull =>
      rv := [];
    case SpliceSchedule(_, events) =>
      rv := ScheduleSplicePts(events);
    case SpliceInsert(event) =>
      rv := EventSplicePts(event);
    case TimeSignal(t) =>
      rv := [t];
    case PrivateCommand(_, _) =>
      rv := [];
  }

  /** Splice_schedule.GetSplicePTS: the events' lists appended in order. */
  method ScheduleSplicePts(events: seq<SpliceEvent>) returns (rv: seq<int>)
    ensures rv == EventsPts(events)
  {
    rv := [];
    var i := 0;
    while i < |events|
      invariant 0 <= i <= |events| && rv == EventsPts(events[..i])
    {
      var pts := EventSplicePts(events[i]);
      assert events[..i + 1][..i] == events[..i];
      rv := rv + pts;
      i := i + 1;
    }
    assert events[..i] == events;
  }

  /** Splice_event.GetSplicePTS: the splice time, or the loop over the components. */
  method EventSplicePts(event: SpliceEvent) returns (rv: seq<int>)
    ensures rv == EventPts(event)
  {
    if event.spliceTime != -1 {
      return [event.spliceTime];
    }
    rv := [];
    var i := 0;
    while i < |event.components|
      invariant 0 <= i <= |event.components| && rv == ComponentTimes(event.components[..i])
    {
      rv := rv + [event.components[i].spliceTime];
      i := i + 1;
    }
    assert event.components[..i] == event.components;
  }

  /** A schedule's list of two runs of events is the two lists one after the other. */
  lemma {:induction false} EventsPtsConcat(a: seq<SpliceEvent>, b: seq<SpliceEvent>)
    ensures EventsPts(a + b) == EventsPts(a) + EventsPts(b)
    decreases |b|
  {
    if b == [] {
      assert a + b == a;
    } else {
      var init, last := b[..|b| - 1], b[|b| - 1];
      assert (a + b)[..|a + b| - 1] == a + init;
      assert (a + b)[|a + b| - 1] == last;
      EventsPtsConcat(a, init);
      calc {
        EventsPts(a + b);
        EventsPts(a + init) + EventPts(last);
        EventsPts(a) + EventsPts(init) + EventPts(last);
        EventsPts(a) + (EventsPts(init) + EventPts(last));
        EventsPts(a) + EventsPts(b);
      }
    }
  }

  /** A time is in a schedule's list exactly when it is in some event's list. */
  lemma {:induction false} EventsPtsMembers(es: seq<SpliceEvent>, t: int)
    ensures t in EventsPts(es) <==> exists i :: 0 <= i < |es| && t in EventPts(es[i])
    decreases |es|
  {
    if es != [] {
      var n := |es|;
      var init := es[..n - 1];
      EventsPtsMembers(init, t);
      if t in EventsPts(init) {
        var i :| 0 <= i < |init| && t in EventPts(init[i]);
        assert es[i] == init[i];
      }
      if exists i :: 0 <= i < |es| && t in EventPts(es[i]) {
        var i :| 0 <= i < |es| && t in EventPts(es[i]);
        if i < n - 1 {
          assert init[i] == es[i];
        }
      }
    }
  }

  /** An event announces its own splice time alone, or one time per component in order. */
  lemma EventPtsShape(e: SpliceEvent)
    ensures e.spliceTime != -1 ==> EventPts(e) == [e.spliceTime]
    ensures e.spliceTime == -1 ==>
      |EventPts(e)| == |e.components| && forall i :: 0 <= i < |e.components| ==> EventPts(e)[i] == e.components[i].spliceTime
  {
  }

  // ----- what the readers promise -----

  /**
   * readSpliceTime: with time_specified_flag 1 a 33-bit time and 40 bits used;
   * with flag 0 the time -1 and 8 bits used; a UTC time is 32 bits.
   */
  lemma SpliceTimeRead(bits: seq<bool>, p: nat, isSpliceTime: bool)
    ensures isSpliceTime ==> (SpliceTimeAt(bits, p, true).Ok? <==> p < |bits| && p + (if bits[p] then 40 else 8) <= |bits|)
    ensures isSpliceTime && SpliceTimeAt(bits, p, true).Ok? ==>
      var s := SpliceTimeAt(bits, p, true).value;
      (s.value == -1 <==> !bits[p]) && (s.value == -1 ==> s.next == p + 8)
      && (s.value != -1 ==> 0 <= s.value < Pow2(33) && s.next == p + 40)
    ensures !isSpliceTime ==> (SpliceTimeAt(bits, p, false).Ok? <==> p + 32 <= |bits|)
    ensures !isSpliceTime && SpliceTimeAt(bits, p, false).Ok? ==>
      var s := SpliceTimeAt(bits, p, false).value;
      0 <= s.value < Pow2(32) && s.next == p + 32
  {
    if p + 40 <= |bits| {
      FieldBound(bits, p + 7, 33);
    }
    if p + 32 <= |bits| {
      FieldBound(bits, p, 32);
    }
  }

  /** readBreakDuration: 40 bits, the first the auto_return flag and the last 33 the duration. */
  lemma BreakDurationRead(bits: seq<bool>, p: nat)
    ensures BreakDurationAt(bits, p).Ok? <==> p + 40 <= |bits|
    ensures BreakDurationAt(bits, p).Ok? ==>
      var s := BreakDurationAt(bits, p).value;
      s.next == p + 40 && s.value.autoReturn == bits[p] && 0 <= s.value.duration < Pow2(33)
  {
    if p + 40 <= |bits| {
      FieldBound(bits, p + 7, 33);
    }
  }

  /** A cancelled event keeps its id and the cancel flag only, and ends 40 bits on. */
  lemma CancelledEventRead(bits: seq<bool>, p: nat, isSpliceInsert: bool)
    requires EventAt(bits, p, isSpliceInsert).Ok?
    ensures var s := EventAt(bits, p, isSpliceInsert).value;
      s.value.eventCancelIdr == bits[p + 32] && s.value.eventId == Field(bits, p, 32)
      && (s.value.eventCancelIdr ==> s.value == CancelledEvent(s.value.eventId) && s.next == p + 40)
  {
    EventAtSplits(bits, p, isSpliceInsert);
    if !bits[p + 32] {
      EventBodyShape(bits, p + 40, Field(bits, p, 32), isSpliceInsert);
    }
  }

  /** The flags and id of an event that is not cancelled are the ones given. */
  lemma EventBodyShape(bits: seq<bool>, q: nat, id: int, isSpliceInsert: bool)
    requires EventBody(bits, q, id, isSpliceInsert).Ok?
    ensures var e := EventBody(bits, q, id, isSpliceInsert).value.value;
      q + 8 <= |bits| && e.eventId == id && !e.eventCancelIdr
      && e.outOfNetworkIdr == bits[q] && e.programSpliceFlag == bits[q + 1]
      && e.durationFlag == bits[q + 2] && e.spliceImmediateFlag == bits[q + 3]
  {
    var tm := EventTiming(bits, q + 8, OnlyTime(isSpliceInsert, bits[q + 1], bits[q + 3]), isSpliceInsert, bits[q + 3]).value;
    EventBodyContinues(bits, q, id, isSpliceInsert, tm);
  }

  /**
   * The component loop keeps what it had, adds exactly k components, and under
   * an immediate splice_insert gives each of them the time -1.
   */
  lemma {:induction false} ComponentsFromShape(bits: seq<bool>, p: nat, k: nat, acc: seq<SpliceComponent>, isSpliceInsert: bool, immediate: bool)
    requires ComponentsFrom(bits, p, k, acc, isSpliceInsert, immediate).Ok?
    ensures var cs := ComponentsFrom(bits, p, k, acc, isSpliceInsert, immediate).value.value;
      |cs| == |acc| + k && cs[..|acc|] == acc
      && (isSpliceInsert && immediate ==> forall i :: |acc| <= i < |cs| ==> cs[i].spliceTime == -1)
    decreases k
  {
    if k > 0 {
      assert ComponentsFrom(bits, p, k, acc, isSpliceInsert, immediate) == ComponentsNext(bits, p, k, acc, isSpliceInsert, immediate);
      var c := ComponentAt(bits, p, isSpliceInsert, immediate).value;
      ComponentsFromShape(bits, c.next, k - 1, acc + [c.value], isSpliceInsert, immediate);
      var cs := ComponentsFrom(bits, p, k, acc, isSpliceInsert, immediate).value.value;
      assert cs[..|acc| + 1][..|acc|] == cs[..|acc|];
    } else {
      assert acc[..|acc|] == acc;
    }
  }

  /**
   * Which time an event that is not cancelled carries: with only_time (for a
   * splice_insert, program_splice_flag and not splice_immediate_flag; for a
   * schedule, program_splice_flag) its own time and no components; otherwise the
   * time -1 and component_count components, each of them timed -1 when the
   * splice_insert is immediate.
   */
  lemma EventTimingShape(bits: seq<bool>, p: nat, onlyTime: bool, isSpliceInsert: bool, immediate: bool)
    requires EventTiming(bits, p, onlyTime, isSpliceInsert, immediate).Ok?
    ensures var tm := EventTiming(bits, p, onlyTime, isSpliceInsert, immediate).value.value;
      (onlyTime ==> tm.components == [] && tm.spliceTime == SpliceTimeAt(bits, p, isSpliceInsert).value.value)
      && (!onlyTime ==> tm.spliceTime == -1 && p + 8 <= |bits| && |tm.components| == Field(bits, p, 8))
      && (isSpliceInsert && immediate ==> forall c :: c in tm.components ==> c.spliceTime == -1)
  {
    if !onlyTime {
      ComponentsFromShape(bits, p + 8, Field(bits, p, 8), [], isSpliceInsert, immediate);
    }
  }

  /** An immediate splice_insert announces no time but -1. */
  lemma ImmediateInsertPts(bits: seq<bool>, p: nat)
    requires EventAt(bits, p, true).Ok?
    requires var e := EventAt(bits, p, true).value.value; !e.eventCancelIdr && e.spliceImmediateFlag
    ensures forall t :: t in EventPts(EventAt(bits, p, true).value.value) ==> t == -1
  {
    EventAtSplits(bits, p, true);
    var q := p + 40;
    var id := Field(bits, p, 32);
    EventBodyShape(bits, q, id, true);
    var only := OnlyTime(true, bits[q + 1], bits[q + 3]);
    var tm := EventTiming(bits, q + 8, only, true, bits[q + 3]).value;
    EventBodyContinues(bits, q, id, true, tm);
    EventTimingShape(bits, q + 8, only, true, bits[q + 3]);
    EventEndKeeps(bits, tm.next, SpliceEvent(id, false, bits[q], bits[q + 1],
      bits[q + 2], bits[q + 3], tm.value.spliceTime, tm.value.components, BreakDuration(false, 0), 0, 0, 0));
  }

  /** The break duration and the tail change no flag, time or component of the event. */
  lemma EventEndKeeps(bits: seq<bool>, p: nat, e: SpliceEvent)
    requires EventEnd(bits, p, e).Ok?
    ensures var f := EventEnd(bits, p, e).value.value;
      f.eventId == e.eventId && f.eventCancelIdr == e.eventCancelIdr && f.outOfNetworkIdr == e.outOfNetworkIdr
      && f.programSpliceFlag == e.programSpliceFlag && f.durationFlag == e.durationFlag
      && f.spliceImmediateFlag == e.spliceImmediateFlag && f.spliceTime == e.spliceTime && f.components == e.components
      && (!e.durationFlag ==> f.breakDuration == BreakDuration(false, 0))
  {
  }

  // ----- writing the structures back -----

  /** The bits of a splice_time(): the flag, reserved ones, and the 33-bit time when there is one. */
  function SpliceTimeSlots(t: int): seq<Slot>
  {
    if t == -1 then [Slot(0, 1), Slot(0x7f, 7)] else [Slot(1, 1), Slot(0x3f, 6), Slot(t, 33)]
  }

  /** The bits of a break_duration(): auto_return, reserved ones, the 33-bit duration. */
  function BreakDurationSlots(b: BreakDuration): seq<Slot>
  {
    [Slot(BoolBit(b.autoReturn), 1), Slot(0x3f, 6), Slot(b.duration, 33)]
  }

  /** A splice_time() written anywhere reads back as the time it holds, -1 for none. */
  lemma SpliceTimeRoundTrip(pre: seq<bool>, t: int, rest: seq<bool>)
    requires t == -1 || 0 <= t < Pow2(33)
    ensures var g := PackAll(SpliceTimeSlots(t));
      SpliceTimeAt(pre + g + rest, |pre|, true) == Ok(Step(t, |pre| + |g|))
  {
    var s := SpliceTimeSlots(t);
    var bits := pre + PackAll(s) + rest;
    var p := |pre|;
    SlotPowers();
    FieldInGroup(bits, pre, s, 0, rest, p, 1);
    FieldOfOne(bits, p);
    if t != -1 {
      var q := p + 7;
      FieldInGroup(bits, pre, s, 2, rest, q, 33);
    }
  }

  /** A break_duration() written anywhere reads back as itself. */
  lemma BreakDurationRoundTrip(pre: seq<bool>, b: BreakDuration, rest: seq<bool>)
    requires 0 <= b.duration < Pow2(33)
    ensures var g := PackAll(BreakDurationSlots(b));
      BreakDurationAt(pre + g + rest, |pre|) == Ok(Step(b, |pre| + |g|))
  {
    var s := BreakDurationSlots(b);
    var bits := pre + PackAll(s) + rest;
    var p := |pre|;
    SlotPowers();
    FieldInGroup(bits, pre, s, 0, rest, p, 1);
    FieldOfOne(bits, p);
    var q := p + 7;
    FieldInGroup(bits, pre, s, 2, rest, q, 33);
  }

  lemma SlotPowers()
    ensures Pow2(1) == 2 && Pow2(6) == 64 && Pow2(7) == 128
  {
  }

  // ----- the splice_insert of the SCTE-35 tests -----

  /** The 20 command bytes of the test's splice_insert section. */
  const InsertCommand: seq<byte> := [0x00, 0x00, 0x00, 0x02, 0x7f, 0xef, 0xfe, 0x00, 0x2e, 0xb0,
    0x30, 0xfe, 0x00, 0x14, 0x99, 0x70, 0x00, 0x01, 0x00, 0x01]

  /** Event 2, out of network, program splice at 3059760 with an auto-return break of 1350000. */
  const InsertEvent := SpliceEvent(2, false, true, true, true, false, 3059760, [], BreakDuration(true, 1350000), 1, 0, 1)

  lemma InsertExample()
    ensures EventAt(BitsOf(InsertCommand), 0, true) == Ok(Step(InsertEvent, 160))
    ensures CommandPts(SpliceInsert(InsertEvent)) == [3059760]
  {
    var bits := BitsOf(InsertCommand);
    InsertFields(InsertCommand, bits);
    EventAtSplits(bits, 0, true);
    var tm := Step(Timing(3059760, []), 88);
    assert EventTiming(bits, 48, OnlyTime(true, bits[41], bits[43]), true, bits[43]) == Ok(tm);
    EventBodyContinues(bits, 40, 2, true, tm);
  }

  /** The fields of the example, each read from the bytes that hold it. */
  lemma InsertFields(bs: seq<byte>, bits: seq<bool>)
    requires bs == InsertCommand && bits == BitsOf(bs)
    ensures |bits| == 160
    ensures Field(bits, 0, 32) == 2 && !bits[32] && bits[40] && bits[41] && bits[42] && !bits[43]
    ensures bits[48] && Field(bits, 55, 33) == 3059760
    ensures bits[88] && Field(bits, 95, 33) == 1350000
    ensures Field(bits, 128, 16) == 1 && Field(bits, 144, 8) == 0 && Field(bits, 152, 8) == 1
  {
    ExampleId(bs);
    ExampleFlags(bs);
    ExampleSpliceTime(bs);
    ExampleBreakDuration(bs);
    ExampleTail(bs);
    FieldOfOne(bits, 32);
    FieldOfOne(bits, 40);
    FieldOfOne(bits, 41);
    FieldOfOne(bits, 42);
    FieldOfOne(bits, 43);
    FieldOfOne(bits, 48);
    FieldOfOne(bits, 88);
  }

  lemma ExampleId(bs: seq<byte>)
    requires bs == InsertCommand
    ensures Field(BitsOf(bs), 0, 32) == 2
  {
    var id := bs[0..4];
    Pow2Widths();
    FieldOfSub(bs, 0, 4, 0, 32);
    BigEndianOfFour(id);
    FieldOfValue(id, 0, 32, 2, 1, 0x1_0000_0000);
  }

  lemma ExampleFlags(bs: seq<byte>)
    requires bs == InsertCommand
    ensures Field(BitsOf(bs), 32, 1) == 0 && Field(BitsOf(bs), 40, 1) == 1 && Field(BitsOf(bs), 41, 1) == 1
    ensures Field(BitsOf(bs), 42, 1) == 1 && Field(BitsOf(bs), 43, 1) == 0
  {
    var flags := bs[4..6];
    FieldOfSub(bs, 4, 6, 32, 1);
    FieldOfSub(bs, 4, 6, 40, 1);
    FieldOfSub(bs, 4, 6, 41, 1);
    FieldOfSub(bs, 4, 6, 42, 1);
    FieldOfSub(bs, 4, 6, 43, 1);
    BigEndianOfTwo(flags);
    FlagsOfExample(flags);
  }

  /** The example's splice_time(): flag set, time 3059760. */
  lemma ExampleSpliceTime(bs: seq<byte>)
    requires bs == InsertCommand
    ensures Field(BitsOf(bs), 48, 1) == 1 && Field(BitsOf(bs), 55, 33) == 3059760
  {
    var part := bs[6..11];
    FieldOfSub(bs, 6, 11, 48, 1);
    FieldOfSub(bs, 6, 11, 55, 33);
    BigEndianOfFive(part);
    TimeOfBytes(part, 0xfe002eb030, 3059760);
  }

  /** The example's break_duration(): auto_return set, duration 1350000. */
  lemma ExampleBreakDuration(bs: seq<byte>)
    requires bs == InsertCommand
    ensures Field(BitsOf(bs), 88, 1) == 1 && Field(BitsOf(bs), 95, 33) == 1350000
  {
    var part := bs[11..16];
    FieldOfSub(bs, 11, 16, 88, 1);
    FieldOfSub(bs, 11, 16, 95, 33);
    BigEndianOfFive(part);
    TimeOfBytes(part, 0xfe00149970, 1350000);
  }

  /** Five bytes holding a set flag bit, six more bits, and the 33-bit value t. */
  lemma TimeOfBytes(part: seq<byte>, v: nat, t: nat)
    requires |part| == 5 && BigEndian(part) == v && v / 0x80_0000_0000 % 2 == 1 && v % 0x2_0000_0000 == t
    ensures Field(BitsOf(part), 0, 1) == 1 && Field(BitsOf(part), 7, 33) == t
  {
    Pow2Widths();
    Pow2Add(32, 1);
    Pow2Add(32, 7);
    FieldOfValue(part, 0, 1, v, 0x80_0000_0000, 2);
    FieldOfValue(part, 7, 33, v, 1, 0x2_0000_0000);
  }

  lemma ExampleTail(bs: seq<byte>)
    requires bs == InsertCommand
    ensures Field(BitsOf(bs), 128, 16) == 1 && Field(BitsOf(bs), 144, 8) == 0 && Field(BitsOf(bs), 152, 8) == 1
  {
    var upid := bs[16..18];
    Pow2Widths();
    FieldOfSub(bs, 16, 18, 128, 16);
    BigEndianOfTwo(upid);
    assert |upid| == 2;
    assert BigEndian(upid) == 1;
    assert Pow2(0) == 1;
    FieldOfValue(upid, 0, 16, 1, 1, 0x1_0000);
    FieldByte(bs, 18);
    FieldByte(bs, 19);
  }

  /** The flag bits of bytes 7f ef. */
  lemma FlagsOfExample(flags: seq<byte>)
    requires flags == [0x7f, 0xef] && BigEndian(flags) == 0x7fef
    ensures Field(BitsOf(flags), 0, 1) == 0 && Field(BitsOf(flags), 8, 1) == 1 && Field(BitsOf(flags), 9, 1) == 1
    ensures Field(BitsOf(flags), 10, 1) == 1 && Field(BitsOf(flags), 11, 1) == 0
  {
    Pow2Widths();
    Pow2Add(8, 7);
    Pow2Add(4, 3);
    Pow2Add(4, 1);
    Pow2Add(4, 2);
    FieldOfValue(flags, 0, 1, 0x7fef, 0x8000, 2);
    FieldOfValue(flags, 8, 1, 0x7fef, 0x80, 2);
    FieldOfValue(flags, 9, 1, 0x7fef, 0x40, 2);
    FieldOfValue(flags, 10, 1, 0x7fef, 0x20, 2);
    FieldOfValue(flags, 11, 1, 0x7fef, 0x10, 2);
  }
}
