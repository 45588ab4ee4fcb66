// kernel/src/irq/dispatch.rs: nested interrupt dispatch as a step system.  Each
// interrupt taken adds a frame; only the newest frame runs.
module IrqDispatch {
  import opened Wrappers

  /** Where in `dispatch` a frame is. */
  datatype Pc =
    | Entered    // about to mask the line
    | Masked     // about to enable CPU interrupts
    | Handling   // in the handler
    | Cleanup    // CPU interrupts off again, about to unmask the line
    | Unmasked   // its line not masked (any more): about to poll for a pending line, or to return

  datatype Frame = Frame(irq: nat, pc: Pc, resume: bool)

  /** `lines`: unmasked lines of the controller; `cpu`: whether the CPU takes interrupts. */
  datatype State = State(lines: set<nat>, cpu: bool, frames: seq<Frame>)

  datatype Event =
    | Arrive(irq: nat)         // hardware: an unmasked line fires while the CPU takes interrupts
    | Poll(irq: nat)           // the same, into a vector that polls the controller before it dispatches
    | Advance                  // the newest frame makes its next step
    | Again(irq: nat)          // `dispatch_all` finds another pending line
    | Return                   // the newest frame returns to what it interrupted
    | SetCpu(on: bool)         // a handler, or the interrupted code, switches CPU interrupts

  function Top(s: State): Frame
    requires s.frames != []
  {
    s.frames[|s.frames| - 1]
  }

  function WithTop(s: State, f: Frame): seq<Frame>
    requires s.frames != []
  {
    s.frames[|s.frames| - 1 := f]
  }

  ghost predicate Step(s: State, e: Event, s': State) {
    match e
    case Arrive(irq) =>
      s.cpu && irq in s.lines && s' == State(s.lines, false, s.frames + [Frame(irq, Entered, s.cpu)])
    case Poll(irq) =>
      s.cpu && irq in s.lines && s' == State(s.lines, false, s.frames + [Frame(irq, Unmasked, s.cpu)])
    case Advance =>
      s.frames != [] &&
      var f := Top(s);
      (match f.pc
       case Entered => s' == State(s.lines - {f.irq}, s.cpu, WithTop(s, f.(pc := Masked)))
       case Masked => s' == State(s.lines, true, WithTop(s, f.(pc := Handling)))
       case Handling => s' == State(s.lines, false, WithTop(s, f.(pc := Cleanup)))
       case Cleanup => s' == State(s.lines + {f.irq}, s.cpu, WithTop(s, f.(pc := Unmasked)))
       case Unmasked => false)
    case Again(irq) =>
      s.frames != [] && Top(s).pc == Unmasked && irq in s.lines &&
      s' == State(s.lines, s.cpu, WithTop(s, Frame(irq, Entered, Top(s).resume)))
    case Return =>
      s.frames != [] && Top(s).pc == Unmasked &&
      s' == State(s.lines, Top(s).resume, s.frames[..|s.frames| - 1])
    case SetCpu(on) =>
      (s.frames == [] || Top(s).pc == Handling) && s' == s.(cpu := on)
  }

  // ---- The invariant ----

  /** A frame that has masked its line and not yet unmasked it. */
  predicate Busy(f: Frame) {
    f.pc == Masked || f.pc == Handling || f.pc == Cleanup
  }

  function BusyLines(frames: seq<Frame>): set<nat> {
    set f | f in frames && Busy(f) :: f.irq
  }

  ghost predicate Distinct(frames: seq<Frame>) {
    forall i, j :: 0 <= i < j < |frames| ==> frames[i].irq != frames[j].irq
  }

  ghost predicate Inv(lines0: set<nat>, s: State) {
    // exactly the lines of busy frames are masked
    && s.lines == lines0 - BusyLines(s.frames)
    && (forall f :: f in s.frames ==> f.irq in lines0 && f.resume)
    // frames below the newest were interrupted in their handlers
    && (forall i :: 0 <= i < |s.frames| - 1 ==> s.frames[i].pc == Handling)
    // the CPU takes interrupts only outside the critical parts
    && (s.cpu ==> s.frames == [] || Top(s).pc == Handling)
    && Distinct(s.frames)
  }

  lemma BusyIn(frames: seq<Frame>, i: nat)
    requires i < |frames| && Busy(frames[i])
    ensures frames[i].irq in BusyLines(frames)
  {
    assert frames[i] in frames;
  }

  /** Replacing the newest frame changes the set of masked lines by that frame's line at most. */
  lemma BusyTop(s: State, f: Frame)
    requires s.frames != []
    ensures var lower := BusyLines(s.frames[..|s.frames| - 1]);
            && BusyLines(s.frames) == lower + (if Busy(Top(s)) then {Top(s).irq} else {})
            && BusyLines(WithTop(s, f)) == lower + (if Busy(f) then {f.irq} else {})
  {
    BusyAppend(s.frames[..|s.frames| - 1], Top(s));
    BusyAppend(s.frames[..|s.frames| - 1], f);
    assert s.frames == s.frames[..|s.frames| - 1] + [Top(s)];
    assert WithTop(s, f) == s.frames[..|s.frames| - 1] + [f];
  }

  lemma BusyAppend(frames: seq<Frame>, f: Frame)
    ensures BusyLines(frames + [f]) == BusyLines(frames) + if Busy(f) then {f.irq} else {}
  {
    assert forall g :: g in frames + [f] <==> g in frames || g == f;
    forall n | n in BusyLines(frames) + (if Busy(f) then {f.irq} else {})
      ensures n in BusyLines(frames + [f])
    {
      if n in BusyLines(frames) {
        var g :| g in frames && Busy(g) && g.irq == n;
        assert g in frames + [f];
      } else {
        assert f in frames + [f];
      }
    }
  }

  /** The lines of all frames below the newest are masked, so the newest one's line differs from them. */
  lemma LowerMasked(lines0: set<nat>, s: State, i: nat)
    requires Inv(lines0, s) && i + 1 < |s.frames|
    ensures s.frames[i].irq in BusyLines(s.frames[..|s.frames| - 1]) && s.frames[i].irq !in s.lines
  {
    BusyIn(s.frames[..|s.frames| - 1], i);
    BusyIn(s.frames, i);
  }

  lemma StepKeepsInv(lines0: set<nat>, s: State, e: Event, s': State)
    requires Inv(lines0, s) && Step(s, e, s')
    ensures Inv(lines0, s')
  {
    match e
    case Arrive(irq) => EnterOk(lines0, s, irq, Entered, s');
    case Poll(irq) => EnterOk(lines0, s, irq, Unmasked, s');
    case Advance => AdvanceOk(lines0, s, s');
    case Again(irq) => AgainOk(lines0, s, irq, s');
    case Return => ReturnOk(lines0, s, s');
    case SetCpu(_) =>
  }

  lemma EnterOk(lines0: set<nat>, s: State, irq: nat, pc: Pc, s': State)
    requires Inv(lines0, s) && s.cpu && irq in s.lines && (pc == Entered || pc == Unmasked)
    requires s' == State(s.lines, false, s.frames + [Frame(irq, pc, s.cpu)])
    ensures Inv(lines0, s')
  {
    BusyAppend(s.frames, Frame(irq, pc, s.cpu));
    forall i | 0 <= i < |s.frames|
      ensures s.frames[i].irq != irq
    {
      BusyIn(s.frames, i);
    }
  }

  lemma AdvanceOk(lines0: set<nat>, s: State, s': State)
    requires Inv(lines0, s) && Step(s, Advance, s')
    ensures Inv(lines0, s')
  {
    var f := Top(s);
    BusyTop(s, Top(s'));
    assert f in s.frames;
    forall i | 0 <= i < |s.frames| - 1
      ensures s.frames[i].irq in BusyLines(s.frames[..|s.frames| - 1]) && s.frames[i].irq != f.irq
    {
      LowerMasked(lines0, s, i);
    }
    LowerOnly(s.frames[..|s.frames| - 1], f.irq);
    FramesOk(lines0, s, s');
  }

  lemma LowerOnly(frames: seq<Frame>, irq: nat)
    requires forall i :: 0 <= i < |frames| ==> frames[i].irq != irq
    ensures irq !in BusyLines(frames)
  {
  }

  lemma FramesOk(lines0: set<nat>, s: State, s': State)
    requires s.frames != [] && |s'.frames| == |s.frames| && s'.frames == WithTop(s, Top(s'))
    requires forall f :: f in s.frames ==> f.irq in lines0 && f.resume
    requires Top(s').irq in lines0 && Top(s').resume
    ensures forall f :: f in s'.frames ==> f.irq in lines0 && f.resume
  {
  }

  lemma AgainOk(lines0: set<nat>, s: State, irq: nat, s': State)
    requires Inv(lines0, s) && Step(s, Again(irq), s')
    ensures Inv(lines0, s')
  {
    BusyTop(s, Top(s'));
    assert Top(s) in s.frames;
    forall i | 0 <= i < |s.frames| - 1
      ensures s.frames[i].irq != irq
    {
      LowerMasked(lines0, s, i);
    }
    FramesOk(lines0, s, s');
  }

  lemma ReturnOk(lines0: set<nat>, s: State, s': State)
    requires Inv(lines0, s) && Step(s, Return, s')
    ensures Inv(lines0, s')
  {
    BusyTop(s, Top(s));
    assert Top(s) in s.frames;
    assert forall f :: f in s'.frames ==> f in s.frames;
  }

  // ---- Runs ----

  ghost predicate Run(states: seq<State>, events: seq<Event>) {
    && |states| == |events| + 1
    && forall i :: 0 <= i < |events| ==> Step(states[i], events[i], states[i + 1])
  }

  lemma {:induction false} RunKeepsInv(states: seq<State>, events: seq<Event>, k: nat)
    requires Run(states, events) && states[0].frames == [] && k < |states|
    ensures Inv(states[0].lines, states[k])
  {
    if k > 0 {
      RunKeepsInv(states, events, k - 1);
      StepKeepsInv(states[0].lines, states[k - 1], events[k - 1], states[k]);
    }
  }

  /** No line is ever dispatched while it is still being dispatched, and nesting is bounded by the lines there are. */
  lemma NoReentry(states: seq<State>, events: seq<Event>, k: nat)
    requires Run(states, events) && states[0].frames == [] && k < |states|
    ensures Distinct(states[k].frames) && |states[k].frames| <= |states[0].lines|
  {
    RunKeepsInv(states, events, k);
    var s := states[k];
    DistinctFit(s.frames, states[0].lines);
  }

  lemma {:induction false} DistinctFit(frames: seq<Frame>, lines: set<nat>)
    requires Distinct(frames) && forall f :: f in frames ==> f.irq in lines
    ensures |frames| <= |lines|
    decreases |frames|
  {
    if frames != [] {
      var last := frames[|frames| - 1];
      assert last in frames;
      forall f | f in frames[..|frames| - 1]
        ensures f.irq in lines - {last.irq}
      {
        assert f in frames;
      }
      DistinctFit(frames[..|frames| - 1], lines - {last.irq});
    }
  }

  /** Once every dispatch has returned, the line masks are what they were before the first interrupt. */
  lemma MasksRestored(states: seq<State>, events: seq<Event>, k: nat)
    requires Run(states, events) && states[0].frames == [] && k < |states| && states[k].frames == []
    ensures states[k].lines == states[0].lines
  {
    RunKeepsInv(states, events, k);
  }

  /** While frames are active exactly the lines of those past masking and before unmasking are masked. */
  lemma MaskedAreActive(states: seq<State>, events: seq<Event>, k: nat, irq: nat)
    requires Run(states, events) && states[0].frames == [] && k < |states| && irq in states[0].lines
    ensures irq !in states[k].lines <==> exists i :: 0 <= i < |states[k].frames| && states[k].frames[i].irq == irq && Busy(states[k].frames[i])
  {
    RunKeepsInv(states, events, k);
    var frames := states[k].frames;
    if irq in BusyLines(frames) {
      var f :| f in frames && Busy(f) && f.irq == irq;
    }
    if i :| 0 <= i < |frames| && frames[i].irq == irq && Busy(frames[i]) {
      BusyIn(frames, i);
    }
  }

  /** The interrupted code resumes with CPU interrupts on, as it had them when it was interrupted. */
  lemma ResumesAsInterrupted(states: seq<State>, events: seq<Event>, k: nat)
    requires Run(states, events) && states[0].frames == [] && k < |events| && events[k] == Return
    ensures states[k + 1].cpu && !states[k].cpu
  {
    RunKeepsInv(states, events, k);
    assert Step(states[k], events[k], states[k + 1]);
    assert Top(states[k]) in states[k].frames;
  }

  // ---- Without new interrupts, everything unwinds ----

  function StepsLeft(f: Frame): nat {
    match f.pc
    case Entered => 5
    case Masked => 4
    case Handling => 3
    case Cleanup => 2
    case Unmasked => 1
  }

  function Work(frames: seq<Frame>): nat {
    if frames == [] then 0 else Work(frames[..|frames| - 1]) + StepsLeft(frames[|frames| - 1])
  }

  /** From every reachable state the newest frame can go on, and doing so until none is left takes `Work` steps. */
  lemma {:induction false} Unwinds(lines0: set<nat>, s: State) returns (states: seq<State>, events: seq<Event>)
    requires Inv(lines0, s)
    ensures Run(states, events) && |events| == Work(s.frames) && states[0] == s
    ensures states[|states| - 1].frames == [] && states[|states| - 1].lines == lines0
    ensures forall e :: e in events ==> e == Advance || e == Return
    decreases Work(s.frames)
  {
    if s.frames == [] {
      states, events := [s], [];
    } else {
      var f, lower := Top(s), s.frames[..|s.frames| - 1];
      var s', e := NextOf(s);
      StepKeepsInv(lines0, s, e, s');
      var rest, more := Unwinds(lines0, s');
      states, events := [s] + rest, [e] + more;
      forall i | 0 <= i < |events|
        ensures Step(states[i], events[i], states[i + 1])
      {
        if i > 0 {
          assert Step(rest[i - 1], more[i - 1], rest[i]);
        }
      }
    }
  }

  lemma NextOf(s: State) returns (s': State, e: Event)
    requires s.frames != []
    ensures Step(s, e, s') && (e == Advance || e == Return) && Work(s'.frames) == Work(s.frames) - 1
  {
    var f := Top(s);
    var n := |s.frames| - 1;
    match f.pc
    case Entered =>
      s', e := State(s.lines - {f.irq}, s.cpu, WithTop(s, f.(pc := Masked))), Advance;
      assert s'.frames[..n] == s.frames[..n];
    case Masked =>
      s', e := State(s.lines, true, WithTop(s, f.(pc := Handling))), Advance;
      assert s'.frames[..n] == s.frames[..n];
    case Handling =>
      s', e := State(s.lines, false, WithTop(s, f.(pc := Cleanup))), Advance;
      assert s'.frames[..n] == s.frames[..n];
    case Cleanup =>
      s', e := State(s.lines + {f.irq}, s.cpu, WithTop(s, f.(pc := Unmasked))), Advance;
      assert s'.frames[..n] == s.frames[..n];
    case Unmasked =>
      s', e := State(s.lines, f.resume, s.frames[..n]), Return;
  }

  // ---- The code, run on a processor ----

  /** An interrupt and, in the order they try to arrive, the interrupts that come while its handler runs. */
  datatype Arrival = Arrival(irq: nat, nested: seq<Arrival>)

  /** The lines dispatched in a run, in the order they are taken. */
  function Log(events: seq<Event>): seq<nat> {
    if events == [] then [] else Log(events[..|events| - 1]) + LogOf(events[|events| - 1])
  }

  function LogOf(e: Event): seq<nat> {
    match e
    case Arrive(irq) => [irq]
    case Again(irq) => [irq]
    case _ => []
  }

  /** A line is in the log exactly when it has arrived or has been found pending. */
  lemma {:induction false} LoggedIff(events: seq<Event>, irq: nat)
    ensures irq in Log(events) <==> Arrive(irq) in events || Again(irq) in events
    decreases |events|
  {
    if events != [] {
      var most, last := events[..|events| - 1], events[|events| - 1];
      LoggedIff(most, irq);
      assert events == most + [last];
    }
  }

  /** Those that the masks let through, each followed by those that nest in it while its own line is masked. */
  function Taken(arrivals: seq<Arrival>, lines: set<nat>): seq<nat> {
    if arrivals == [] then []
    else Taken(arrivals[..|arrivals| - 1], lines) + TakenOf(arrivals[|arrivals| - 1], lines)
  }

  function TakenOf(a: Arrival, lines: set<nat>): seq<nat> {
    if a.irq in lines then [a.irq] + Taken(a.nested, lines - {a.irq}) else []
  }

  lemma TakenNext(arrivals: seq<Arrival>, i: nat, lines: set<nat>)
    requires i < |arrivals|
    ensures Taken(arrivals[..i + 1], lines) == Taken(arrivals[..i], lines) + TakenOf(arrivals[i], lines)
  {
    assert arrivals[..i + 1][..i] == arrivals[..i];
  }

  /** Where the controller's `next_pending` finds a line that is not masked. */
  function NextPending(pending: seq<Arrival>, lines: set<nat>): (i: nat)
    ensures i <= |pending| && (i < |pending| ==> pending[i].irq in lines)
    ensures forall j :: 0 <= j < i ==> pending[j].irq !in lines
  {
    if pending == [] then 0
    else if pending[0].irq in lines then 0
    else 1 + NextPending(pending[1..], lines)
  }

  lemma TakenSnoc(arrivals: seq<Arrival>, last: Arrival, lines: set<nat>)
    ensures Taken(arrivals + [last], lines) == Taken(arrivals, lines) + TakenOf(last, lines)
  {
    assert (arrivals + [last])[..|arrivals|] == arrivals;
  }

  lemma {:induction false} TakenJoin(a: seq<Arrival>, b: seq<Arrival>, lines: set<nat>)
    ensures Taken(a + b, lines) == Taken(a, lines) + Taken(b, lines)
    decreases |b|
  {
    if b == [] {
      assert a + b == a;
    } else {
      hide Taken, TakenOf;
      var most, last := b[..|b| - 1], b[|b| - 1];
      TakenJoin(a, most, lines);
      assert most + [last] == b;
      Regroup(a, most, [last]);
      TakenSnoc(a + most, last, lines);
      TakenSnoc(most, last, lines);
      Regroup(Taken(a, lines), Taken(most, lines), TakenOf(last, lines));
    }
  }

  lemma TakenNothing(lines: set<nat>)
    ensures Taken([], lines) == []
  {
  }

  /** An arrival on a line that is not masked is taken first, then what nests in it with its line masked, then the rest. */
  lemma TakenFirst(pending: seq<Arrival>, lines: set<nat>)
    requires pending != []
    ensures Taken(pending, lines) ==
            (if pending[0].irq in lines then [pending[0].irq] + Taken(pending[0].nested, lines - {pending[0].irq}) else [])
            + Taken(pending[1..], lines)
    ensures Taken(pending, lines) == TakenOf(pending[0], lines) + Taken(pending[1..], lines)
  {
    TakenNothing(lines);
    hide Taken;
    assert TakenOf(pending[0], lines) ==
           if pending[0].irq in lines then [pending[0].irq] + Taken(pending[0].nested, lines - {pending[0].irq}) else [];
    hide TakenOf;
    TakenSnoc([], pending[0], lines);
    assert [] + [pending[0]] == [pending[0]] && [pending[0]] + pending[1..] == pending;
    TakenJoin([pending[0]], pending[1..], lines);
  }

  /** What is taken is what the first line that is not masked takes, and then the rest. */
  lemma {:induction false} TakenFrom(pending: seq<Arrival>, lines: set<nat>)
    ensures var i := NextPending(pending, lines);
            Taken(pending, lines) ==
            if i < |pending| then TakenOf(pending[i], lines) + Taken(pending[i + 1..], lines) else []
    decreases |pending|
  {
    if pending == [] {
      TakenNothing(lines);
    } else {
      TakenFirst(pending, lines);
      hide Taken;
      if pending[0].irq !in lines {
        var i := NextPending(pending[1..], lines);
        TakenFrom(pending[1..], lines);
        assert i < |pending[1..]| ==> pending[1..][i + 1..] == pending[i + 2..];
      }
    }
  }

  lemma RunExtended(states: seq<State>, events: seq<Event>, e: Event, s: State)
    requires Run(states, events) && Step(states[|states| - 1], e, s)
    ensures Run(states + [s], events + [e])
  {
    var after, more := states + [s], events + [e];
    forall i | 0 <= i < |more|
      ensures Step(after[i], more[i], after[i + 1])
    {
      if i < |events| {
        assert Step(states[i], events[i], states[i + 1]);
      }
    }
  }

  /** Replacing the newest frame twice is replacing it once. */
  lemma TopReplaced(was: State, f: Frame)
    requires was.frames != []
    ensures WithTop(was, Top(was)) == was.frames && |WithTop(was, f)| == |was.frames|
    ensures forall lines, cpu {:trigger State(lines, cpu, WithTop(was, f))} :: Top(State(lines, cpu, WithTop(was, f))) == f
  {
  }

  /** The next step of the newest frame `f` of `was`, as the code makes it. */
  lemma AdvanceStep(was: State, lines: set<nat>, cpu: bool, f: Frame, lines': set<nat>, cpu': bool, pc': Pc)
    requires was.frames != []
    requires match f.pc
             case Entered => lines' == lines - {f.irq} && cpu' == cpu && pc' == Masked
             case Masked => lines' == lines && cpu' && pc' == Handling
             case Handling => lines' == lines && !cpu' && pc' == Cleanup
             case Cleanup => lines' == lines + {f.irq} && cpu' == cpu && pc' == Unmasked
             case Unmasked => false
    ensures Step(State(lines, cpu, WithTop(was, f)), Advance, State(lines', cpu', WithTop(was, f.(pc := pc'))))
  {
    var s := State(lines, cpu, WithTop(was, f));
    assert Top(s) == f && WithTop(s, f.(pc := pc')) == WithTop(was, f.(pc := pc'));
  }

  lemma EnterStep(s: State, irq: nat)
    requires s.cpu && irq in s.lines
    ensures Step(s, Arrive(irq), State(s.lines, false, s.frames + [Frame(irq, Entered, true)]))
    ensures Step(s, Poll(irq), State(s.lines, false, s.frames + [Frame(irq, Unmasked, true)]))
  {
  }

  /** A frame that is through returns to the state it interrupted. */
  lemma ReturnStep(s: State, before: State)
    requires s.frames != [] && Top(s).pc == Unmasked && Top(s).resume
    requires s.lines == before.lines && before.cpu && s.frames[..|s.frames| - 1] == before.frames
    ensures Step(s, Return, before)
  {
  }

  class Processor {
    var lines: set<nat>
    var cpu: bool

    ghost var frames: seq<Frame>
    ghost var states: seq<State>
    ghost var events: seq<Event>

    ghost function Now(): State
      reads this
    {
      State(lines, cpu, frames)
    }

    /** The processor's history is a run of the step system from before the first interrupt to now. */
    ghost predicate Valid()
      reads this
    {
      Run(states, events) && states[0].frames == [] && states[|states| - 1] == Now()
    }

    ghost predicate Dispatching(irq: nat, pc: Pc)
      reads this
    {
      frames != [] && Top(Now()) == Frame(irq, pc, true)
    }

    constructor (lines: set<nat>)
      ensures Valid() && Now() == State(lines, true, []) && states[0] == Now()
    {
      this.lines, cpu, frames := lines, true, [];
      states, events := [State(lines, true, [])], [];
    }

    ghost method Record(e: Event)
      requires Run(states, events) && states[0].frames == [] && Step(states[|states| - 1], e, Now())
      modifies `states, `events
      ensures Valid() && states == old(states) + [Now()]
      ensures Log(events) == Log(old(events)) + LogOf(e)
    {
      RunExtended(states, events, e, Now());
      assert (events + [e])[..|events|] == events;
      states, events := states + [Now()], events + [e];
    }

    /** `dispatch`: the line ends as it began, whatever nests inside the handler. */
    method Dispatch(irq: nat, nested: seq<Arrival>)
      requires Valid() && Dispatching(irq, Entered)
      modifies this
      ensures Valid() && old(states) <= states
      ensures Now() == State(old(lines), false, WithTop(old(Now()), Frame(irq, Unmasked, true)))
      ensures Log(events) == Log(old(events)) + Taken(nested, old(lines) - {irq})
      decreases nested, 1
    {
      hide Run, Step, Log, Taken;
      Begin(irq);
      Handle(nested);
      End(irq);
    }

    /** The part of `dispatch` before the handler: mask the line, then let the CPU take interrupts. */
    method Begin(irq: nat)
      requires Valid() && Dispatching(irq, Entered)
      modifies this
      ensures Valid() && old(states) <= states && Log(events) == Log(old(events)) && irq in old(lines)
      ensures Now() == State(old(lines) - {irq}, true, WithTop(old(Now()), Frame(irq, Handling, true)))
    {
      hide Run, Step, Top, WithTop, Log;
      EnteredUnmasked();
      ghost var was := Now();
      TopReplaced(was, Frame(irq, Handling, true));
      AdvanceStep(was, lines, cpu, Frame(irq, Entered, true), lines - {irq}, cpu, Masked);
      lines := lines - {irq};
      frames := WithTop(was, Frame(irq, Masked, true));
      Record(Advance);
      AdvanceStep(was, lines, cpu, Frame(irq, Masked, true), lines, true, Handling);
      cpu := true;
      frames := WithTop(was, Frame(irq, Handling, true));
      Record(Advance);
    }

    /** The part after the handler: interrupts off, then unmask the line. */
    method End(irq: nat)
      requires Valid() && Dispatching(irq, Handling)
      modifies this
      ensures Valid() && old(states) <= states && Log(events) == Log(old(events))
      ensures Now() == State(old(lines) + {irq}, false, WithTop(old(Now()), Frame(irq, Unmasked, true)))
    {
      hide Run, Step, Top, WithTop, Log;
      ghost var was := Now();
      TopReplaced(was, Frame(irq, Handling, true));
      AdvanceStep(was, lines, cpu, Frame(irq, Handling, true), lines, false, Cleanup);
      cpu := false;
      frames := WithTop(was, Frame(irq, Cleanup, true));
      Record(Advance);
      AdvanceStep(was, lines, cpu, Frame(irq, Cleanup, true), lines + {irq}, cpu, Unmasked);
      lines := lines + {irq};
      frames := WithTop(was, Frame(irq, Unmasked, true));
      Record(Advance);
    }

    /** A line being entered is not masked. */
    lemma EnteredUnmasked()
      requires Valid() && frames != [] && Top(Now()).pc == Entered
      ensures Top(Now()).irq in lines && !cpu
    {
      RunKeepsInv(states, events, |states| - 1);
      var f := Top(Now());
      assert f in frames;
      forall i | 0 <= i < |frames|
        ensures !Busy(frames[i]) || frames[i].irq != f.irq
      {
      }
    }

    /** Every active frame was entered with CPU interrupts on. */
    lemma ResumesOn()
      requires Valid() && frames != []
      ensures Top(Now()).resume
    {
      RunKeepsInv(states, events, |states| - 1);
      assert Top(Now()) in frames;
    }

    /** A handler, as far as dispatch sees it: interrupts arrive when the CPU and the controller permit. */
    method Handle(nested: seq<Arrival>)
      requires Valid() && cpu && frames != [] && Top(Now()).pc == Handling
      modifies this
      ensures Valid() && old(states) <= states && Now() == old(Now())
      ensures Log(events) == Log(old(events)) + Taken(nested, old(lines))
      decreases nested, 0
    {
      hide Run, Log;
      for i := 0 to |nested|
        invariant Valid() && old(states) <= states && Now() == old(Now())
        invariant Log(events) == Log(old(events)) + Taken(nested[..i], lines)
      {
        TakenNext(nested, i, lines);
        if nested[i].irq in lines {
          Interrupt(nested[i]);
        }
      }
      assert nested[..|nested|] == nested;
    }

    /** The exception vector: after the interrupt returns, everything is as it was. */
    method Interrupt(a: Arrival)
      requires Valid() && cpu && a.irq in lines && (frames == [] || Top(Now()).pc == Handling)
      modifies this
      ensures Valid() && old(states) <= states && Now() == old(Now())
      ensures Log(events) == Log(old(events)) + TakenOf(a, lines)
      decreases a, 0
    {
      hide Run, Inv, Log, Taken, Step;
      ghost var was, before := frames, Now();
      EnterStep(before, a.irq);
      frames := frames + [Frame(a.irq, Entered, cpu)];
      cpu := false;
      Record(Arrive(a.irq));
      Dispatch(a.irq, a.nested);
      ReturnStep(Now(), before);
      frames := was;
      cpu := true;
      Record(Return);
    }

    /** `dispatch_next`: the first pending line that is not masked is dispatched, and whether there was one. */
    method DispatchNext(pending: seq<Arrival>) returns (found: bool, rest: seq<Arrival>)
      requires Valid() && !cpu && frames != [] && Top(Now()).pc == Unmasked
      modifies this
      ensures Valid() && old(states) <= states
      ensures lines == old(lines) && !cpu && |frames| == |old(frames)| && Top(Now()).pc == Unmasked
      ensures frames[..|frames| - 1] == old(frames[..|frames| - 1])
      ensures var i := NextPending(pending, old(lines));
              && (found <==> i < |pending|)
              && (found ==> rest == pending[i + 1..] && Log(events) == Log(old(events)) + TakenOf(pending[i], old(lines)))
              && (!found ==> rest == [] && Now() == old(Now()) && events == old(events))
    {
      hide Run, Log, Taken, StepsLeft, Busy, BusyLines, Inv;
      var i := NextPending(pending, lines);
      if i == |pending| {
        return false, [];
      }
      ghost var was := Now();
      ResumesOn();
      frames := WithTop(was, Frame(pending[i].irq, Entered, Top(was).resume));
      Record(Again(pending[i].irq));
      Dispatch(pending[i].irq, pending[i].nested);
      return true, pending[i + 1..];
    }

    /** `dispatch_all`: every pending line that is not masked is dispatched, in turn. */
    method DispatchAll(pending: seq<Arrival>)
      requires Valid() && !cpu && frames != [] && Top(Now()).pc == Unmasked
      modifies this
      ensures Valid() && old(states) <= states
      ensures lines == old(lines) && !cpu && |frames| == |old(frames)| && Top(Now()).pc == Unmasked
      ensures frames[..|frames| - 1] == old(frames[..|frames| - 1])
      ensures Log(events) == Log(old(events)) + Taken(pending, old(lines))
    {
      hide Run, Log, Taken, TakenOf, NextPending;
      var more, rest := true, pending;
      while more
        invariant Valid() && old(states) <= states
        invariant lines == old(lines) && !cpu && |frames| == |old(frames)| && Top(Now()).pc == Unmasked
        invariant frames[..|frames| - 1] == old(frames[..|frames| - 1])
        invariant Log(events) + Taken(rest, lines) == Log(old(events)) + Taken(pending, lines)
        invariant !more ==> rest == []
        decreases more, |rest|
      {
        TakenFrom(rest, lines);
        TakenNothing(lines);
        ghost var logged, i := Log(events), NextPending(rest, lines);
        if i < |rest| {
          Regroup(logged, TakenOf(rest[i], lines), Taken(rest[i + 1..], lines));
        }
        more, rest := DispatchNext(rest);
      }
      TakenNothing(lines);
    }

    /** A vector that polls from the start: whatever it dispatches, everything is as it was when it returns. */
    method Vector(irq: nat, pending: seq<Arrival>)
      requires Valid() && cpu && irq in lines && (frames == [] || Top(Now()).pc == Handling)
      modifies this
      ensures Valid() && old(states) <= states && Now() == old(Now())
      ensures Log(events) == Log(old(events)) + Taken(pending, lines)
    {
      hide Run, Inv, Log, Taken, Step;
      ghost var was, before := frames, Now();
      EnterStep(before, irq);
      frames := frames + [Frame(irq, Unmasked, cpu)];
      cpu := false;
      Record(Poll(irq));
      DispatchAll(pending);
      assert frames[..|frames| - 1] == was;
      ResumesOn();
      ReturnStep(Now(), before);
      frames := was;
      cpu := true;
      Record(Return);
    }
  }
}
