/**
 * The 100 us scheduler step timer0 (module3/timer0.cpp) as a transition
 * function on the values of the globals it updates.  The imperative step
 * on the shared board record is Board.Board.Timer0, proved equal to Tick.
 */
module Timer0 {
  import opened Bytes

  /** The globals timer0 reads and writes. */
  datatype TimerState = TimerState(
    timerState: byte,        // timer_state, 8-bit, advanced every tick
    longTimeState: byte,     // long_time_state, advanced when timer_state wraps
    swtimer: seq<byte>,      // swtimer0 .. swtimer7
    displayTimer: byte,      // display_timer
    displayFlag: byte,       // display_flag, shared with monitor()
    ledTimer: uint16,        // led_timer
    ledFlag: byte,           // led_flag
    systemTimerCount: uint32,  // System_Timer_count
    timer0Count: uint16,       // timer0_count
    swTimerIsrCounter: uint16) // SwTimerIsrCounter

  predicate Wf(s: TimerState)
  {
    |s.swtimer| == 8
  }

  /** The groups of timer tasks in the if / else-if chain on bits 0..5 of timer_state. */
  datatype Group = Group200us | Group400us | Group800us | Group1600us | Group3200us | Group6400usA | Group6400usB

  /** The group the chain selects: the first set bit among bits 0..5, or the final else. */
  function GroupOf(ts: byte): Group
  {
    if ts % 2 == 1 then Group200us               // timer_state & 0x01
    else if ts / 2 % 2 == 1 then Group400us      // timer_state & 0x02
    else if ts / 4 % 2 == 1 then Group800us      // timer_state & 0x04
    else if ts / 8 % 2 == 1 then Group1600us     // timer_state & 0x08
    else if ts / 16 % 2 == 1 then Group3200us    // timer_state & 0x10
    else if ts / 32 % 2 == 1 then Group6400usA   // timer_state & 0x20
    else Group6400usB
  }

  /** A software timer's saturating decrement. */
  function Dec(v: byte): byte
  {
    if v > 0 then v - 1 else v
  }

  function DecPair(sw: seq<byte>, i: nat): seq<byte>
    requires i + 1 < |sw|
  {
    sw[i := Dec(sw[i])][i + 1 := Dec(sw[i + 1])]
  }

  /** Section I: timer_state advances every tick, long_time_state when timer_state wraps to 0. */
  function Clock(s: TimerState): TimerState
  {
    var ts := (s.timerState + 1) % 0x100;
    s.(timerState := ts, longTimeState := if ts == 0 then (s.longTimeState + 1) % 0x100 else s.longTimeState)
  }

  /** The 100 us group: the fast timers swtimer0 and swtimer1 count down every tick. */
  function Fast(s: TimerState): TimerState
    requires Wf(s)
  {
    s.(swtimer := DecPair(s.swtimer, 0))
  }

  /**
   * The chain on the (new) timer_state: the group selected steps its pair
   * of software timers, or, in the final else, decrements display_timer and
   * raises display_flag when it lands on 1.
   */
  function Groups(s: TimerState): TimerState
    requires Wf(s)
  {
    match GroupOf(s.timerState)
    case Group400us => s.(swtimer := DecPair(s.swtimer, 2))
    case Group3200us => s.(swtimer := DecPair(s.swtimer, 4))
    case Group6400usA => s.(swtimer := DecPair(s.swtimer, 6))
    case Group6400usB =>
      var dt := (s.displayTimer + 0xFF) % 0x100;
      s.(displayTimer := dt, displayFlag := if dt == 1 then 1 else s.displayFlag)
    case _ => s
  }

  /** The heartbeat: reset led_timer and raise led_flag past LED_TOGGLE_TICKS, else count up. */
  function Heartbeat(s: TimerState, ledToggleTicks: nat): TimerState
  {
    if s.ledTimer > ledToggleTicks then s.(ledTimer := 0, ledFlag := 1)
    else s.(ledTimer := (s.ledTimer + 1) % 0x1_0000)
  }

  /** The three free-running counters at the end of timer0. */
  function Count(s: TimerState): TimerState
  {
    s.(systemTimerCount := (s.systemTimerCount + 1) % TWO32,
       timer0Count := (s.timer0Count + 1) % 0x1_0000,
       swTimerIsrCounter := (s.swTimerIsrCounter + 1) % 0x1_0000)
  }

  /** One timer0 call, its sections in order; ledToggleTicks is LED_TOGGLE_TICKS. */
  function Tick(s: TimerState, ledToggleTicks: nat): TimerState
    requires Wf(s)
  {
    Count(Heartbeat(Groups(Fast(Clock(s))), ledToggleTicks))
  }

  /** n consecutive ticks. */
  function Ticks(s: TimerState, n: nat, ledToggleTicks: nat): (r: TimerState)
    requires Wf(s)
    ensures Wf(r)
    decreases n
  {
    if n == 0 then s else Ticks(Tick(s, ledToggleTicks), n - 1, ledToggleTicks)
  }

  // ---------------------------------------------------------------------
  // The chain as residue classes
  // ---------------------------------------------------------------------

  /** Each group is one residue class of timer_state; the groups partition 0..255. */
  lemma GroupResidues(ts: byte)
    ensures GroupOf(ts) == Group200us <==> ts % 2 == 1
    ensures GroupOf(ts) == Group400us <==> ts % 4 == 2
    ensures GroupOf(ts) == Group800us <==> ts % 8 == 4
    ensures GroupOf(ts) == Group1600us <==> ts % 16 == 8
    ensures GroupOf(ts) == Group3200us <==> ts % 32 == 16
    ensures GroupOf(ts) == Group6400usA <==> ts % 64 == 32
    ensures GroupOf(ts) == Group6400usB <==> ts % 64 == 0
  {
    LowBits(ts);
  }

  /** timer_state modulo 2^(k+1) from its bits 0..k. */
  lemma LowBits(x: nat)
    ensures x % 4 == x % 2 + 2 * (x / 2 % 2)
    ensures x % 8 == x % 4 + 4 * (x / 4 % 2)
    ensures x % 16 == x % 8 + 8 * (x / 8 % 2)
    ensures x % 32 == x % 16 + 16 * (x / 16 % 2)
    ensures x % 64 == x % 32 + 32 * (x / 32 % 2)
  {
    NextBit(x, 2);
    NextBit(x, 4);
    NextBit(x, 8);
    NextBit(x, 16);
    NextBit(x, 32);
  }

  lemma NextBit(x: nat, m: nat)
    requires m > 0
    ensures x % (2 * m) == x % m + m * (x / m % 2)
  {
    var q, r := x / (2 * m), x % (2 * m);
    assert x == (2 * m) * q + r;
    var hi, lo := r / m, r % m;
    assert r == m * hi + lo && 0 <= hi < 2;
    assert x == m * (2 * q + hi) + lo;
    DivUnique(x, m, 2 * q + hi, lo);
  }


  /**
   * The ticks on which swtimer i may be decremented, stated on the new
   * timer_state: every tick for the fast timers 0 and 1, states 2, 6, 10, ...
   * for 2 and 3, states 16, 48, ... for 4 and 5, states 32, 96, 160, 224 for 6 and 7.
   */
  predicate Eligible(i: nat, ts: byte)
  {
    if i < 2 then true
    else if i < 4 then ts % 4 == 2
    else if i < 6 then ts % 32 == 16
    else ts % 64 == 32
  }

  /** Each software timer takes a saturating decrement on its eligible ticks and is untouched otherwise. */
  lemma TickSwTimer(s: TimerState, t: nat, i: nat)
    requires Wf(s) && i < 8
    ensures Tick(s, t).swtimer[i] == if Eligible(i, Tick(s, t).timerState) then Dec(s.swtimer[i]) else s.swtimer[i]
  {
    GroupResidues(Tick(s, t).timerState);
  }

  /** No software timer increases, none goes below zero, and none moves by more than one per tick. */
  lemma TickSwTimerBounded(s: TimerState, t: nat, i: nat)
    requires Wf(s) && i < 8
    ensures Tick(s, t).swtimer[i] <= s.swtimer[i] <= Tick(s, t).swtimer[i] as int + 1
    ensures s.swtimer[i] == 0 ==> Tick(s, t).swtimer[i] == 0
  {
    TickSwTimer(s, t, i);
  }

  /** The number of eligible ticks for swtimer i among the n ticks after timer_state ts. */
  function Opportunities(i: nat, ts: byte, n: nat): nat
    decreases n
  {
    if n == 0 then 0
    else (if Eligible(i, (ts + 1) % 0x100) then 1 else 0) + Opportunities(i, (ts + 1) % 0x100, n - 1)
  }

  /** After n ticks, swtimer i has counted down once per eligible tick, stopping at zero. */
  lemma {:induction false} TicksSwTimer(s: TimerState, n: nat, t: nat, i: nat)
    requires Wf(s) && i < 8
    ensures Ticks(s, n, t).swtimer[i] == Max0(s.swtimer[i] - Opportunities(i, s.timerState, n))
    decreases n
  {
    if n > 0 {
      var s1 := Tick(s, t);
      TickSwTimer(s, t, i);
      TicksSwTimer(s1, n - 1, t, i);
    }
  }

  function Max0(x: int): nat { if x < 0 then 0 else x }

  /** The fast timers are eligible on every tick: after n ticks they have counted down by n, stopping at zero. */
  lemma {:induction false} FastTimers(s: TimerState, n: nat, t: nat)
    requires Wf(s)
    ensures Ticks(s, n, t).swtimer[0] == Max0(s.swtimer[0] - n)
    ensures Ticks(s, n, t).swtimer[1] == Max0(s.swtimer[1] - n)
  {
    AllEligible(0, s.timerState, n);
    AllEligible(1, s.timerState, n);
    TicksSwTimer(s, n, t, 0);
    TicksSwTimer(s, n, t, 1);
  }

  lemma {:induction false} AllEligible(i: nat, ts: byte, n: nat)
    requires i < 2
    ensures Opportunities(i, ts, n) == n
    decreases n
  {
    if n > 0 {
      AllEligible(i, (ts + 1) % 0x100, n - 1);
    }
  }

  // ---------------------------------------------------------------------
  // timer_state and long_time_state
  // ---------------------------------------------------------------------

  /**
   * After n ticks timer_state has advanced by n modulo 256 and
   * long_time_state by the number of wraps, modulo 256.
   */
  lemma {:induction false} TicksSchedule(s: TimerState, n: nat, t: nat)
    requires Wf(s)
    ensures Ticks(s, n, t).timerState == (s.timerState + n) % 0x100
    ensures Ticks(s, n, t).longTimeState == (s.longTimeState + (s.timerState + n) / 0x100) % 0x100
    decreases n
  {
    if n > 0 {
      var s1 := Tick(s, t);
      TickSchedule(s, t);
      TicksSchedule(s1, n - 1, t);
      var ts := s.timerState;
      if ts == 0xFF {
        DivShift(n - 1);
        ModShift(s.longTimeState + 1, (n - 1) / 0x100, 0x100);
      } else {
        assert s1.timerState == ts + 1;
      }
    }
  }

  lemma TickSchedule(s: TimerState, t: nat)
    requires Wf(s)
    ensures Tick(s, t).timerState == if s.timerState == 0xFF then 0 else s.timerState + 1
    ensures Tick(s, t).longTimeState == if s.timerState == 0xFF then (s.longTimeState + 1) % 0x100 else s.longTimeState
  {
  }

  lemma DivShift(k: nat)
    ensures (0x100 + k) / 0x100 == 1 + k / 0x100 && (0x100 + k) % 0x100 == k % 0x100
  {
    DivUnique(0x100 + k, 0x100, 1 + k / 0x100, k % 0x100);
  }

  /** One tick adds one to each free-running counter, at its own width. */
  lemma TickCounters(s: TimerState, t: nat)
    requires Wf(s)
    ensures Tick(s, t).systemTimerCount == (s.systemTimerCount + 1) % TWO32
    ensures Tick(s, t).timer0Count == (s.timer0Count + 1) % 0x1_0000
    ensures Tick(s, t).swTimerIsrCounter == (s.swTimerIsrCounter + 1) % 0x1_0000
  {
  }

  /** n ticks add n to system_timer_count, modulo 2^32. */
  lemma {:induction false} TicksSystemTimer(s: TimerState, n: nat, t: nat)
    requires Wf(s)
    ensures Ticks(s, n, t).systemTimerCount == (s.systemTimerCount + n) % TWO32
    decreases n
  {
    if n > 0 {
      TickCounters(s, t);
      TicksSystemTimer(Tick(s, t), n - 1, t);
      ModShift(s.systemTimerCount + 1, n - 1, TWO32);
    }
  }

  /** n ticks add n to timer0_count, modulo 2^16. */
  lemma {:induction false} TicksTimer0Count(s: TimerState, n: nat, t: nat)
    requires Wf(s)
    ensures Ticks(s, n, t).timer0Count == (s.timer0Count + n) % 0x1_0000
    decreases n
  {
    if n > 0 {
      TickCounters(s, t);
      TicksTimer0Count(Tick(s, t), n - 1, t);
      ModShift(s.timer0Count + 1, n - 1, 0x1_0000);
    }
  }

  /** n ticks add n to swTimerIsrCounter, modulo 2^16. */
  lemma {:induction false} TicksIsrCounter(s: TimerState, n: nat, t: nat)
    requires Wf(s)
    ensures Ticks(s, n, t).swTimerIsrCounter == (s.swTimerIsrCounter + n) % 0x1_0000
    decreases n
  {
    if n > 0 {
      TickCounters(s, t);
      TicksIsrCounter(Tick(s, t), n - 1, t);
      ModShift(s.swTimerIsrCounter + 1, n - 1, 0x1_0000);
    }
  }

  lemma ModShift(a: int, d: int, m: int)
    requires m > 0
    ensures (a % m + d) % m == (a + d) % m
  {
    var q, r := a / m, a % m;
    var y := r + d;
    DivUnique(a + d, m, q + y / m, y % m);
  }

  /**
   * Every 256 ticks bring timer_state back to where it was and add exactly
   * one to long_time_state: k periods add k, modulo 256.
   */
  lemma SchedulerPeriod(s: TimerState, k: nat, t: nat)
    requires Wf(s)
    ensures Ticks(s, 0x100 * k, t).timerState == s.timerState
    ensures Ticks(s, 0x100 * k, t).longTimeState == (s.longTimeState + k) % 0x100
  {
    TicksSchedule(s, 0x100 * k, t);
    DivUnique(s.timerState + 0x100 * k, 0x100, k, s.timerState);
  }

  // ---------------------------------------------------------------------
  // Display timer, display flag and the LED heartbeat
  // ---------------------------------------------------------------------

  /**
   * display_timer takes an unchecked 8-bit decrement on states 0, 64, 128,
   * 192 and is untouched otherwise; display_flag is raised exactly when
   * such a decrement lands on 1, and timer0 never lowers it.
   */
  lemma TickDisplay(s: TimerState, t: nat)
    requires Wf(s)
    ensures var r := Tick(s, t);
      && r.displayTimer == (if r.timerState % 64 == 0 then (s.displayTimer + 0xFF) % 0x100 else s.displayTimer)
      && (r.displayFlag == 1 <==> s.displayFlag == 1 || (r.timerState % 64 == 0 && r.displayTimer == 1))
      && (r.displayFlag != s.displayFlag ==> r.displayFlag == 1)
  {
    GroupResidues(Tick(s, t).timerState);
  }

  /** The decrement wraps: a display_timer of 0 becomes 255 rather than stopping. */
  lemma DisplayTimerWraps(s: TimerState, t: nat)
    requires Wf(s) && s.displayTimer == 0 && s.timerState == 0xFF
    ensures Tick(s, t).displayTimer == 0xFF
  {
  }

  /**
   * LED heartbeat: once led_timer exceeds LED_TOGGLE_TICKS it is reset and
   * led_flag raised; otherwise led_timer counts up and led_flag is kept.
   * led_timer never exceeds LED_TOGGLE_TICKS + 1 if it starts within it.
   */
  lemma TickLed(s: TimerState, t: nat)
    requires Wf(s) && t < 0xFFFF
    ensures var r := Tick(s, t);
      && (s.ledTimer > t ==> r.ledTimer == 0 && r.ledFlag == 1)
      && (s.ledTimer <= t ==> r.ledTimer == s.ledTimer + 1 && r.ledFlag == s.ledFlag)
      && (s.ledTimer <= t + 1 ==> r.ledTimer <= t + 1)
  {
  }
}
