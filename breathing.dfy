/** The breathing pacer: a one-second tick drives a timer, a phase cycling
    inhale, hold, exhale every four ticks, and a progress counter modulo 100. */
module Breathing {

  datatype Phase = Inhale | Hold | Exhale

  /** The phase that follows `p`. */
  function Next(p: Phase): (q: Phase)
    ensures q != p
  {
    match p
    case Inhale => Hold
    case Hold => Exhale
    case Exhale => Inhale
  }

  /** Three steps come back to the start. */
  lemma NextCycles(p: Phase)
    ensures Next(Next(Next(p))) == p
    ensures Next(p) != Next(Next(p))
  {
  }

  /** The phase shown after `t` ticks from the reset state. */
  function PhaseAt(t: nat): (p: Phase)
    ensures t < 4 ==> p == Inhale
  {
    var k := (t / 4) % 3;
    if k == 0 then Inhale else if k == 1 then Hold else Exhale
  }

  /** One tick moves `PhaseAt` to the next phase exactly when the new count is a
      multiple of four. */
  lemma PhaseAtStep(t: nat)
    ensures (t + 1) % 4 == 0 ==> PhaseAt(t + 1) == Next(PhaseAt(t))
    ensures (t + 1) % 4 != 0 ==> PhaseAt(t + 1) == PhaseAt(t)
  {
    if (t + 1) % 4 == 0 {
      assert (t + 1) / 4 == t / 4 + 1;
    } else {
      assert (t + 1) / 4 == t / 4;
    }
  }

  /** The phase repeats every twelve ticks. */
  lemma {:induction false} PhaseAtPeriod(t: nat)
    ensures PhaseAt(t + 12) == PhaseAt(t)
  {
    assert (t + 12) / 4 == t / 4 + 3;
  }

  /** Counting the progress modulo 100 one tick at a time keeps it equal to the
      tick count modulo 100. */
  lemma ProgressStep(t: nat)
    ensures (t % 100 + 1) % 100 == (t + 1) % 100
  {
    var q := t / 100;
    assert t == 100 * q + t % 100;
    if t % 100 == 99 {
      assert t + 1 == 100 * (q + 1);
    } else {
      assert t + 1 == 100 * q + (t % 100 + 1);
    }
  }

  class Pacer {
    var timer: nat
    var isActive: bool
    var phase: Phase
    var progress: nat

    /** The fields agree with the number of ticks since the last reset. */
    ghost predicate Valid()
      reads this
    {
      progress == timer % 100 && phase == PhaseAt(timer)
    }

    constructor ()
      ensures Valid()
      ensures timer == 0 && !isActive && phase == Inhale && progress == 0
    {
      timer := 0;
      isActive := false;
      phase := Inhale;
      progress := 0;
    }

    /** One firing of the one-second interval, which runs only while the pacer is
        active: the timer goes up by one, the phase advances when the new timer is
        a multiple of four, and the progress goes up by one modulo 100. */
    method Tick()
      modifies this`timer, this`phase, this`progress
      ensures !old(isActive) ==> timer == old(timer) && phase == old(phase) && progress == old(progress)
      ensures old(isActive) ==> timer == old(timer) + 1
      ensures old(isActive) && timer % 4 == 0 ==> phase == Next(old(phase))
      ensures old(isActive) && timer % 4 != 0 ==> phase == old(phase)
      ensures old(isActive) ==> progress == (old(progress) + 1) % 100
      ensures old(Valid()) ==> Valid()
    {
      if !isActive {
        return;
      }
      PhaseAtStep(timer);
      ProgressStep(timer);
      var newTimer := timer + 1;
      if newTimer % 4 == 0 {
        phase := Next(phase);
      }
      timer := newTimer;
      progress := (progress + 1) % 100;
    }

    /** The reset button: back to the start, active or not. */
    method Reset()
      modifies this`timer, this`phase, this`progress
      ensures Valid()
      ensures timer == 0 && progress == 0 && phase == Inhale
    {
      timer := 0;
      progress := 0;
      phase := Inhale;
    }

    /** The start/stop button. */
    method Toggle()
      modifies this`isActive
      ensures isActive == !old(isActive)
    {
      isActive := !isActive;
    }
  }
}
