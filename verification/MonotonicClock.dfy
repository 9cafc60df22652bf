/** time.monotonic() and time.sleep(). */
module MonotonicClock {

  /** Any time may pass before a call returns, and a sleep lasts at least as long as asked.  `step` is
      arbitrary; it settles in advance how long the k-th call takes. */
  class Clock {
    const step: nat -> real
    var now: real
    var ticks: nat

    constructor (step: nat -> real)
      ensures this.step == step && ticks == 0
    {
      this.step, now, ticks := step, 0.0, 0;
    }

    /** Time passed before the k-th call, never less than none. */
    function Gap(k: nat): real { if step(k) >= 0.0 then step(k) else 0.0 }

    /** Time passed before the calls from `a` up to `b`, sleeping aside. */
    ghost function Passed(a: nat, b: nat): (t: real)
      ensures t >= 0.0
    {
      if a < b then Passed(a, b - 1) + Gap(b - 1) else 0.0
    }

    lemma {:induction false} PassedAdds(a: nat, b: nat, c: nat)
      requires a <= b <= c
      ensures Passed(a, b) + Passed(b, c) == Passed(a, c)
    {
      if b < c { PassedAdds(a, b, c - 1); }
    }

    method Monotonic() returns (t: real)
      modifies this
      ensures t == now == old(now) + Gap(old(ticks)) && ticks == old(ticks) + 1
      ensures now >= old(now)
    {
      now := now + Gap(ticks);
      ticks := ticks + 1;
      t := now;
    }

    method Sleep(seconds: real)
      requires seconds > 0.0
      modifies this
      ensures now == old(now) + seconds + Gap(old(ticks)) && ticks == old(ticks) + 1
      ensures now >= old(now) + seconds
    {
      now := now + seconds + Gap(ticks);
      ticks := ticks + 1;
    }
  }
}
