/** The countdown of one blinking character, in 16-bit arithmetic. */
module BlinkTimers {
  import opened Arithmetic

  type Word16 = w: int | 0 <= w < 0x1_0000

  datatype Timer = Timer(onLength: Word16, offLength: Word16, countdown: Word16, status: Word16) {
    predicate On() {
      status % 2 == 1
    }
  }

  /** A 16-bit word taken as signed is greater than zero. */
  predicate Positive(w: Word16) {
    0 < w < 0x8000
  }

  /** What one tasklet call does to a timer: decrement, and at zero or below switch over. */
  function Tick(t: Timer): Timer {
    var c: Word16 := if t.countdown == 0 then 0xFFFF else t.countdown - 1;
    if Positive(c) then t.(countdown := c)
    else if t.On() then t.(countdown := t.offLength, status := t.status - 1)
    else t.(countdown := t.onLength, status := t.status + 1)
  }

  function Ticks(t: Timer, k: nat): Timer {
    if k == 0 then t else Tick(Ticks(t, k - 1))
  }

  /** The timer mp1_ioctl_add starts. */
  function Started(on: Word16, off: Word16): Timer {
    Timer(on, off, on, 1)
  }

  /** How many ticks a length really lasts: 0 and lengths above 0x8000 run out at once. */
  function Lasts(length: Word16): (n: nat)
    ensures 1 <= n <= 0x8000
  {
    if 1 <= length <= 0x8000 then length else 1
  }

  function Phase(on: Word16, off: Word16, k: nat): (p: nat)
    ensures p < Lasts(on) + Lasts(off)
  {
    k % (Lasts(on) + Lasts(off))
  }

  /** The timer at a phase of its period. */
  function AtPhase(on: Word16, off: Word16, p: nat): Timer
    requires p < Lasts(on) + Lasts(off)
  {
    if p < Lasts(on) then Timer(on, off, on - p, 1) else Timer(on, off, off - (p - Lasts(on)), 0)
  }

  lemma NextPhase(k: nat, period: nat)
    requires period > 1
    ensures (k + 1) % period == if k % period + 1 == period then 0 else k % period + 1
  {
    var q, r := k / period, k % period;
    DivModIdentity(k, period);
    Distribute(q, 1, period);
    if r + 1 == period {
      DivModUnique(k + 1, period, q + 1, 0);
    } else {
      DivModUnique(k + 1, period, q, r + 1);
    }
  }

  lemma TickAtPhase(on: Word16, off: Word16, p: nat)
    requires p < Lasts(on) + Lasts(off)
    ensures Tick(AtPhase(on, off, p)) == AtPhase(on, off, if p + 1 == Lasts(on) + Lasts(off) then 0 else p + 1)
  {
  }

  /** k ticks after its add, for every pair of lengths: status and countdown in closed form. */
  lemma {:induction false} TicksClosedForm(on: Word16, off: Word16, k: nat)
    ensures Ticks(Started(on, off), k) == AtPhase(on, off, Phase(on, off, k))
  {
    if k > 0 {
      TicksClosedForm(on, off, k - 1);
      TickAtPhase(on, off, Phase(on, off, k - 1));
      NextPhase(k - 1, Lasts(on) + Lasts(off));
    } else {
      DivModUnique(0, Lasts(on) + Lasts(off), 0, 0);
    }
  }

  /** The nominal behaviour: on for the first onLength ticks of each onLength + offLength. */
  ghost predicate Nominal(on: Word16, off: Word16) {
    on + off > 0 && forall k: nat :: Ticks(Started(on, off), k).On() <==> k % (on + off) < on
  }

  lemma OnAtPhase(on: Word16, off: Word16, k: nat)
    ensures Ticks(Started(on, off), k).On() <==> Phase(on, off, k) < Lasts(on)
  {
    TicksClosedForm(on, off, k);
  }

  /** The first tick at which lengths out of range are noticed. */
  function Witness(on: Word16, off: Word16): nat {
    if on == 0 then 0 else if on > 0x8000 then 1 else if off == 0 then on else on + 1
  }

  lemma OutOfRange(on: Word16, off: Word16)
    requires on + off > 0 && !(1 <= on <= 0x8000 && 1 <= off <= 0x8000)
    ensures var k := Witness(on, off); Ticks(Started(on, off), k).On() != (k % (on + off) < on)
  {
    var k, period := Witness(on, off), Lasts(on) + Lasts(off);
    OnAtPhase(on, off, k);
    if on == 0 {
      DivModUnique(k, period, 0, 0);
    } else if on > 0x8000 {
      DivModUnique(k, on + off, 0, 1);
      DivModUnique(k, period, 0, 1);
    } else if off == 0 {
      DivModUnique(k, on + off, 1, 0);
      DivModUnique(k, period, 0, on);
    } else {
      DivModUnique(k, on + off, 0, on + 1);
      DivModUnique(k, period, 1, 0);
    }
  }

  /** It holds exactly for lengths from 1 to 0x8000. */
  lemma NominalExactly(on: Word16, off: Word16)
    ensures Nominal(on, off) <==> 1 <= on <= 0x8000 && 1 <= off <= 0x8000
  {
    if 1 <= on <= 0x8000 && 1 <= off <= 0x8000 {
      forall k: nat
        ensures Ticks(Started(on, off), k).On() <==> k % (on + off) < on
      {
        OnAtPhase(on, off, k);
      }
    } else if on + off > 0 {
      OutOfRange(on, off);
    }
  }
}
