/**
 The handover of frame buffers between the display driver and the LCD interrupt, as a state
 machine over the stores and loads of both. The driver sets the next buffer address, then
 the pending index, then spins on it. At the end of a frame the controller latches the
 address and raises its status; the interrupt handler confirms the pending index.
 */
module FrameHandover {
  import opened Words

  /** A call of GUI_MULTIBUF_Confirm, with the address on the screen at that moment. The last
      three fields say how its show call went: whether a frame ended after the new address was
      set, whether a frame interrupt was outstanding when the call began, and what was on the
      screen then. */
  datatype Confirm = Confirm(index: int, latched: U32, frameSince: bool, outstanding: bool, before: U32)

  /** Where the driver is: outside a show call, between its two stores, or in the spin loop. */
  datatype Phase = Idle | AddressSet | Spinning

  datatype State = State(
    phase: Phase,
    started: nat,            // show calls begun
    returned: nat,           // show calls returned
    pending: int,            // s_LCDpendingBuffer
    next: U32,               // NEXT_BUF
    latched: U32,            // the address the controller shows
    status: bool,            // kELCDIF_CurFrameDone
    frameSince: bool,        // a frame ended since the last show call began
    outstanding: bool,       // status when the last show call began
    before: U32,             // latched when the last show call began
    confirms: seq<Confirm>)

  /** The show calls the application makes, and where its buffers are. */
  datatype Program = Program(base: U32, size: U32, shows: seq<int>)

  function Addr(p: Program, index: int): U32
  {
    ToU32(p.base + p.size * index)
  }

  function Init(p: Program): State
  {
    State(Idle, 0, 0, -1, p.base, p.base, false, false, false, p.base, [])
  }

  /** One step of the driver, of the controller or of the interrupt handler. FrameAndInterrupt
      is the end of a frame with the interrupt taken before the driver goes on. */
  datatype Step = Begin | SetPending | Spin | FrameEnd | Interrupt | FrameAndInterrupt

  function TakeFrameEnd(s: State): State
  {
    s.(latched := s.next, status := true, frameSince := true)
  }

  function TakeInterrupt(s: State): State
  {
    if !s.status then s
    else if s.pending >= 0 then
      s.(status := false, pending := -1,
         confirms := s.confirms + [Confirm(s.pending, s.latched, s.frameSince, s.outstanding, s.before)])
    else s.(status := false)
  }

  /** A step that is not enabled leaves the state alone. */
  function Next(p: Program, s: State, step: Step): State
  {
    match step
    case Begin =>
      if s.phase.Idle? && s.started < |p.shows| then
        s.(phase := AddressSet, started := s.started + 1, next := Addr(p, p.shows[s.started]),
           frameSince := false, outstanding := s.status, before := s.latched)
      else s
    case SetPending =>
      if s.phase.AddressSet? && 0 < s.started <= |p.shows| then
        s.(phase := Spinning, pending := p.shows[s.started - 1])
      else s
    case Spin =>
      if s.phase.Spinning? && s.pending < 0 then s.(phase := Idle, returned := s.returned + 1) else s
    case FrameEnd => TakeFrameEnd(s)
    case Interrupt => TakeInterrupt(s)
    case FrameAndInterrupt => TakeInterrupt(TakeFrameEnd(s))
  }

  /** The state that an interleaving of steps leads to. */
  function Continue(p: Program, s: State, steps: seq<Step>): State
  {
    if steps == [] then s else Next(p, Continue(p, s, steps[..|steps| - 1]), steps[|steps| - 1])
  }

  function Run(p: Program, steps: seq<Step>): State
  {
    Continue(p, Init(p), steps)
  }

  lemma ContinueSnoc(p: Program, s: State, steps: seq<Step>, step: Step)
    ensures Continue(p, s, steps + [step]) == Next(p, Continue(p, s, steps), step)
  {
    assert (steps + [step])[..|steps|] == steps;
  }

  lemma {:induction false} ContinueTwice(p: Program, s: State, a: seq<Step>, b: seq<Step>)
    ensures Continue(p, Continue(p, s, a), b) == Continue(p, s, a + b)
  {
    if b == [] {
      assert a + b == a;
    } else {
      var n := |b| - 1;
      assert b == b[..n] + [b[n]] && a + b == (a + b[..n]) + [b[n]];
      ContinueSnoc(p, Continue(p, s, a), b[..n], b[n]);
      ContinueSnoc(p, s, a + b[..n], b[n]);
      ContinueTwice(p, s, a, b[..n]);
    }
  }

  // ---------------------------------------------------------------- order of confirmations

  /** The indices that the spin loop waits for: a negative one ends the loop at once. */
  function Waited(shows: seq<int>): seq<int>
  {
    if shows == [] then []
    else
      var n := |shows| - 1;
      Waited(shows[..n]) + (if shows[n] >= 0 then [shows[n]] else [])
  }

  function Indices(confirms: seq<Confirm>): (r: seq<int>)
    ensures |r| == |confirms|
  {
    seq(|confirms|, i requires 0 <= i < |confirms| => confirms[i].index)
  }

  /** The variables that the driver and the interrupt handler share. */
  class Lcdif {
    var pendingBuffer: int
    var curFrameDone: bool
    ghost var confirmed: seq<int>

    ghost predicate Agrees(s: State)
      reads this
    {
      pendingBuffer == s.pending && curFrameDone == s.status && confirmed == Indices(s.confirms)
    }

    /** APP_LCDIF_IRQHandler is the interrupt step. */
    method IrqHandler(ghost s: State)
      requires Agrees(s)
      modifies this
      ensures Agrees(TakeInterrupt(s))
    {
      var intStatus := curFrameDone;
      curFrameDone := false;
      if intStatus {
        if pendingBuffer >= 0 {
          confirmed := confirmed + [pendingBuffer];
          pendingBuffer := -1;
        }
      }
    }
  }

  /** The number of show calls that are over as far as confirmation goes. */
  function Settled(s: State): nat
  {
    if s.phase.Spinning? && s.pending < 0 then s.returned + 1 else s.returned
  }

  /** A confirmation shows its buffer unless no frame ended and the screen showed another one
      before; and that takes an interrupt left over from before the show call. */
  ghost predicate Explained(p: Program, c: Confirm)
  {
    && (c.latched == Addr(p, c.index) <==> c.frameSince || c.before == Addr(p, c.index))
    && (c.frameSince || c.outstanding)
  }

  ghost predicate Inv(p: Program, s: State)
  {
    && s.returned <= s.started <= |p.shows|
    && s.started == (if s.phase.Idle? then s.returned else s.returned + 1)
    && (s.phase.Spinning? && s.pending >= 0 ==> s.pending == p.shows[s.returned])
    && (!s.phase.Spinning? ==> s.pending < 0)
    && (!s.phase.Idle? ==> s.next == Addr(p, p.shows[s.returned]))
    && (!s.phase.Idle? ==> s.latched == if s.frameSince then s.next else s.before)
    && (!s.phase.Idle? && s.status ==> s.frameSince || s.outstanding)
    && Indices(s.confirms) == Waited(p.shows[..Settled(s)])
    && (forall i :: 0 <= i < |s.confirms| ==> Explained(p, s.confirms[i]))
  }

  lemma WaitedNext(shows: seq<int>, n: nat)
    requires n < |shows|
    ensures Waited(shows[..n + 1]) == Waited(shows[..n]) + (if shows[n] >= 0 then [shows[n]] else [])
  {
    assert shows[..n + 1][..n] == shows[..n];
  }

  lemma InvNext(p: Program, s: State, step: Step)
    requires Inv(p, s)
    ensures Inv(p, Next(p, s, step))
  {
    if s.returned < |p.shows| {
      WaitedNext(p.shows, s.returned);
    }
    var s' := Next(p, s, step);
    if |s'.confirms| > |s.confirms| {
      assert Indices(s'.confirms) == Indices(s.confirms) + [s.pending];
    }
  }

  lemma {:induction false} InvAlways(p: Program, steps: seq<Step>)
    ensures Inv(p, Run(p, steps))
  {
    if steps == [] {
    } else {
      InvAlways(p, steps[..|steps| - 1]);
      InvNext(p, Run(p, steps[..|steps| - 1]), steps[|steps| - 1]);
    }
  }

  /** In every interleaving the confirmations are the shown indices, once each and in order,
      and every call that returned was confirmed before. Negative indices, which the handler
      ignores, are the only exception. */
  lemma ConfirmsInOrder(p: Program, steps: seq<Step>)
    ensures var s := Run(p, steps);
            && s.returned <= Settled(s) <= s.started <= |p.shows|
            && Indices(s.confirms) == Waited(p.shows[..Settled(s)])
    ensures (forall i :: 0 <= i < |p.shows| ==> p.shows[i] >= 0) ==>
              var s := Run(p, steps); Indices(s.confirms) == p.shows[..Settled(s)]
  {
    InvAlways(p, steps);
    var s := Run(p, steps);
    if forall i :: 0 <= i < |p.shows| ==> p.shows[i] >= 0 {
      AllWaited(p.shows[..Settled(s)]);
    }
  }

  lemma {:induction false} AllWaited(shows: seq<int>)
    requires forall i :: 0 <= i < |shows| ==> shows[i] >= 0
    ensures Waited(shows) == shows
  {
    if shows == [] {
    } else {
      var n := |shows| - 1;
      AllWaited(shows[..n]);
      assert shows == shows[..n] + [shows[n]];
    }
  }

  // ---------------------------------------------------------------- what is on the screen

  /** In every interleaving, a confirmed buffer is on the screen exactly when a frame ended
      after its address was set, or the screen showed that address before; and whenever no
      frame interrupt was outstanding at the start of its show call. */
  lemma ConfirmedBuffers(p: Program, steps: seq<Step>, i: nat)
    requires i < |Run(p, steps).confirms|
    ensures var c := Run(p, steps).confirms[i];
            && (c.latched == Addr(p, c.index) <==> c.frameSince || c.before == Addr(p, c.index))
            && (!c.outstanding ==> c.latched == Addr(p, c.index))
  {
    InvAlways(p, steps);
    assert Explained(p, Run(p, steps).confirms[i]);
  }

  lemma {:induction false} PromptInv(p: Program, steps: seq<Step>)
    requires FrameEnd !in steps
    ensures !Run(p, steps).status && !Run(p, steps).outstanding
    ensures forall i :: 0 <= i < |Run(p, steps).confirms| ==> !Run(p, steps).confirms[i].outstanding
  {
    if steps == [] {
    } else {
      PromptInv(p, steps[..|steps| - 1]);
    }
  }

  /** If every frame interrupt is taken before the driver goes on, every buffer is on the screen
      when it is confirmed, even if a frame ends between the two stores of the driver. */
  lemma ConfirmedIsVisible(p: Program, steps: seq<Step>)
    requires FrameEnd !in steps
    ensures var s := Run(p, steps);
            forall i :: 0 <= i < |s.confirms| ==>
              s.confirms[i].latched == (p.base + p.size * s.confirms[i].index) % 0x1_0000_0000
  {
    PromptInv(p, steps);
    forall i: nat | i < |Run(p, steps).confirms|
      ensures Run(p, steps).confirms[i].latched == Addr(p, Run(p, steps).confirms[i].index)
    {
      ConfirmedBuffers(p, steps, i);
    }
  }

  /** Until the first show call, the screen shows the base of the buffers. */
  lemma {:induction false} BaseShownFirst(p: Program, steps: seq<Step>)
    ensures var s := Run(p, steps); s.started == 0 ==> s.next == p.base && s.latched == p.base
  {
    if steps == [] {
    } else {
      BaseShownFirst(p, steps[..|steps| - 1]);
    }
  }

  // ---------------------------------------------------------------- when the promise holds

  /** The next show call starts with the driver idle, and waits for its confirmation. */
  ghost predicate AboutToShow(p: Program, s: State)
  {
    s.phase.Idle? && s.started < |p.shows| && p.shows[s.started] >= 0
  }

  /** Where a continuation of a show call stands that began in s: no confirmation yet and
      still in the call, or its confirmation recorded first. */
  ghost predicate CallSoFar(p: Program, s: State, t: State)
    requires AboutToShow(p, s)
  {
    var n, index := |s.confirms|, p.shows[s.started];
    && (|t.confirms| == n ==>
          && !t.phase.Idle? && t.started == s.started + 1
          && (t.phase.Spinning? ==> t.pending == index)
          && t.outstanding == s.status && t.before == s.latched)
    && (|t.confirms| != n ==>
          && |t.confirms| > n && t.confirms[n].index == index
          && t.confirms[n].outstanding == s.status && t.confirms[n].before == s.latched)
  }

  lemma CallSoFarNext(p: Program, s: State, t: State, step: Step)
    requires AboutToShow(p, s) && Inv(p, t) && CallSoFar(p, s, t)
    ensures CallSoFar(p, s, Next(p, t, step))
  {
  }

  lemma {:induction false} CallSoFarAlways(p: Program, s: State, steps: seq<Step>)
    requires AboutToShow(p, s) && Inv(p, s)
    ensures var t := Continue(p, Next(p, s, Begin), steps); Inv(p, t) && CallSoFar(p, s, t)
  {
    if steps == [] {
      InvNext(p, s, Begin);
    } else {
      var n := |steps| - 1;
      var t := Continue(p, Next(p, s, Begin), steps[..n]);
      CallSoFarAlways(p, s, steps[..n]);
      InvNext(p, t, steps[n]);
      CallSoFarNext(p, s, t, steps[n]);
    }
  }

  /** If the show call that begins in s is confirmed within the given steps, then with its own
      index, and the screen shows the given address at that moment. */
  ghost predicate ConfirmedVisibly(p: Program, s: State, addr: int, steps: seq<Step>)
    requires AboutToShow(p, s)
  {
    var n, t := |s.confirms|, Continue(p, Next(p, s, Begin), steps);
    |t.confirms| > n ==>
      t.confirms[n].index == p.shows[s.started] && t.confirms[n].latched == addr
  }

  /** Buffer and screen differ, and an interrupt is outstanding: it is taken right after the
      driver's stores, and confirms what is not on the screen. */
  lemma LeftOverInterrupt(p: Program, s: State)
    requires AboutToShow(p, s) && s.status && s.latched != Addr(p, p.shows[s.started])
    ensures !ConfirmedVisibly(p, s, Addr(p, p.shows[s.started]), [SetPending, Interrupt])
  {
    var b := Next(p, s, Begin);
    assert [SetPending, Interrupt][..1] == [SetPending];
    assert Continue(p, b, [SetPending]) == Next(p, b, SetPending);
    assert Continue(p, b, [SetPending, Interrupt]) == Next(p, Next(p, b, SetPending), Interrupt);
  }

  /** Before any show call of any run: its confirmation will show its buffer, however the steps
      interleave, exactly if no frame interrupt is outstanding or the screen already shows it. */
  lemma ConfirmationIsSafe(p: Program, before: seq<Step>)
    requires AboutToShow(p, Run(p, before))
    ensures var s := Run(p, before);
            var addr := (p.base + p.size * p.shows[s.started]) % 0x1_0000_0000;
            (forall steps :: ConfirmedVisibly(p, s, addr, steps)) <==> !s.status || s.latched == addr
  {
    var s := Run(p, before);
    var addr := Addr(p, p.shows[s.started]);
    InvAlways(p, before);
    if !s.status || s.latched == addr {
      forall steps
        ensures ConfirmedVisibly(p, s, addr, steps)
      {
        CallSoFarAlways(p, s, steps);
        var n, t := |s.confirms|, Continue(p, Next(p, s, Begin), steps);
        if |t.confirms| > n {
          assert Explained(p, t.confirms[n]);
        }
      }
    } else {
      LeftOverInterrupt(p, s);
    }
  }

  /** A run that gets there: a frame ends before the driver sets the address of buffer 1. */
  lemma LateInterruptConfirmsInvisible(p: Program)
    requires p.shows == [1] && 0 < p.size && p.base + p.size < 0x1_0000_0000
    ensures AboutToShow(p, Run(p, [FrameEnd]))
    ensures !ConfirmedVisibly(p, Run(p, [FrameEnd]), p.base + p.size, [SetPending, Interrupt])
  {
    var before: seq<Step> := [FrameEnd];
    assert Continue(p, Init(p), before[..0]) == Init(p);
    assert Run(p, before) == Next(p, Init(p), FrameEnd);
    LeftOverInterrupt(p, Run(p, [FrameEnd]));
    assert Addr(p, 1) == p.base + p.size;
  }

  // ---------------------------------------------------------------- progress

  /** How far the end of a spin loop has come that started after k returned calls: nothing yet,
      a frame has ended, its interrupt was taken, and the loop was left. */
  ghost predicate Progress(s: State, k: nat, stage: nat)
  {
    || s.returned > k
    || (&& stage < 3 && s.returned == k && s.phase.Spinning?
        && (stage >= 1 ==> s.status || s.pending < 0)
        && (stage >= 2 ==> s.pending < 0))
  }

  lemma {:induction false} ProgressKept(p: Program, s: State, k: nat, stage: nat, steps: seq<Step>)
    requires Progress(s, k, stage)
    ensures Progress(Continue(p, s, steps), k, stage)
  {
    if steps == [] {
    } else {
      ProgressKept(p, s, k, stage, steps[..|steps| - 1]);
    }
  }

  /** What the three steps that end the loop each add. */
  function Advance(stage: nat): Step
    requires stage < 3
  {
    if stage == 0 then FrameEnd else if stage == 1 then Interrupt else Spin
  }

  lemma ProgressMade(p: Program, s: State, k: nat, stage: nat, between: seq<Step>)
    requires stage < 3 && Progress(s, k, stage)
    ensures Progress(Continue(p, s, between + [Advance(stage)]), k, stage + 1)
  {
    ProgressKept(p, s, k, stage, between);
    ContinueSnoc(p, s, between, Advance(stage));
  }

  /** Wherever the driver spins, it has returned once a frame has ended, then an interrupt was
      taken, and then the driver polled, whatever else happens before, between and after. */
  lemma SpinEnds(p: Program, steps: seq<Step>, a: seq<Step>, b: seq<Step>, c: seq<Step>, d: seq<Step>)
    requires Run(p, steps).phase.Spinning?
    ensures Run(p, steps + (a + [FrameEnd]) + (b + [Interrupt]) + (c + [Spin]) + d).returned > Run(p, steps).returned
  {
    var k := Run(p, steps).returned;
    var s1, s2 := steps + (a + [FrameEnd]), steps + (a + [FrameEnd]) + (b + [Interrupt]);
    ProgressMade(p, Run(p, steps), k, 0, a);
    ContinueTwice(p, Init(p), steps, a + [FrameEnd]);
    ProgressMade(p, Run(p, s1), k, 1, b);
    ContinueTwice(p, Init(p), s1, b + [Interrupt]);
    ProgressMade(p, Run(p, s2), k, 2, c);
    ContinueTwice(p, Init(p), s2, c + [Spin]);
    ProgressKept(p, Run(p, s2 + (c + [Spin])), k, 3, d);
    ContinueTwice(p, Init(p), s2 + (c + [Spin]), d);
  }
}
