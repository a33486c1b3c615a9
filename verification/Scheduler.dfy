/** The firmware's 32-bit tick schedule against the schedule over true, unbounded time. */
module Scheduler {
  import opened ByteStrings

  const TICK_INTERVAL_MS: int := 10_000

  /** The static variables of loop and read_meter_wh_stub. */
  datatype Board = Board(nextTick: int, totalWh: int)

  const POWER_ON := Board(0, 1_000_000)

  /** The signed 32-bit difference of the two counters is not negative. */
  predicate Due(nextTick: int, now: int) {
    Signed32((now - nextTick) % TWO_32) >= 0
  }

  function Poll(b: Board, now: int): Board {
    if Due(b.nextTick, now)
    then Board((b.nextTick + TICK_INTERVAL_MS) % TWO_32, (b.totalWh + 250) % TWO_64)
    else b
  }

  class Firmware {
    var nextTick: int
    var fakeTotalWh: int

    constructor ()
      ensures nextTick == 0 && fakeTotalWh == 1_000_000 && Board(nextTick, fakeTotalWh) == POWER_ON
    {
      nextTick, fakeTotalWh := 0, 1_000_000;
    }

    method ReadMeterWhStub() returns (wh: int)
      modifies this`fakeTotalWh
      ensures wh == fakeTotalWh == (old(fakeTotalWh) + 250) % TWO_64
    {
      fakeTotalWh := (fakeTotalWh + 250) % TWO_64;
      wh := fakeTotalWh;
    }

    /**
     * loop: the emitted meter value, if this poll is due. At true time t, behind k ticks and
     * where the counter tells the truth, it emits exactly if tick k is due at t.
     */
    method Loop(now: int, ghost t: nat, ghost k: nat) returns (emitted: Option<int>)
      modifies this
      ensures Board(nextTick, fakeTotalWh) == Poll(old(Board(nextTick, fakeTotalWh)), now)
      ensures emitted == if (now - old(nextTick)) % 0x1_0000_0000 < 0x8000_0000 then Some(fakeTotalWh) else None
      ensures emitted.Some? ==>
        nextTick == (old(nextTick) + 10_000) % 0x1_0000_0000 && fakeTotalWh == (old(fakeTotalWh) + 250) % TWO_64
      ensures emitted.None? ==> nextTick == old(nextTick) && fakeTotalWh == old(fakeTotalWh)
      ensures old(Board(nextTick, fakeTotalWh)) == Ideal(k) && now == t % TWO_32 && TellsTruth(k, t) ==>
        (emitted.Some? <==> t >= 10_000 * k)
        && Board(nextTick, fakeTotalWh) == Ideal(if emitted.Some? then k + 1 else k)
    {
      PollIsIdealExactly(k, t);
      DueSeesLagModulo(t, TICK_INTERVAL_MS * k);
      assert Ideal(k).nextTick == TICK_INTERVAL_MS * k % TWO_32;
      hide Ideal;
      emitted := None;
      if Signed32((now - nextTick) % TWO_32) >= 0 {
        nextTick := (nextTick + TICK_INTERVAL_MS) % TWO_32;
        var wh := ReadMeterWhStub();
        emitted := Some(wh);
      }
    }
  }

  // ---------- runs over true time ----------

  /** The board after polls at the given true times; millis() shows them modulo 2^32. */
  function After(polls: seq<nat>): Board {
    if polls == [] then POWER_ON
    else Poll(After(polls[..|polls| - 1]), polls[|polls| - 1] % TWO_32)
  }

  /** Ticks of the ideal schedule: tick k is emitted by the first free poll at 10000 * k or later. */
  function TrueTicks(polls: seq<nat>): nat {
    if polls == [] then 0
    else
      var k := TrueTicks(polls[..|polls| - 1]);
      if polls[|polls| - 1] >= TICK_INTERVAL_MS * k then k + 1 else k
  }

  /** The first poll before 2^31 ms, then no gap longer than one interval. */
  ghost predicate Paced(polls: seq<nat>) {
    (polls != [] ==> polls[0] < 0x8000_0000)
    && forall i :: 0 < i < |polls| ==> polls[i - 1] <= polls[i] <= polls[i - 1] + TICK_INTERVAL_MS
  }

  lemma SumModulo(x: int, y: int, m: nat)
    requires m > 0
    ensures (x % m + y) % m == (x + y) % m
    ensures (x - y % m) % m == (x - y) % m
  {
    var q, r := (x + y) / m, (x + y) % m;
    assert m * (q - x / m) == m * q - m * (x / m);
    ModUnique(x % m + y, m, q - x / m, r);
    var q', r' := (x - y) / m, (x - y) % m;
    assert m * (q' + y / m) == m * q' + m * (y / m);
    ModUnique(x - y % m, m, q' + y / m, r');
  }

  /** On true times the 32-bit test sees only the lag modulo 2^32. */
  lemma DueSeesLagModulo(t: int, target: int)
    ensures Due(target % TWO_32, t % TWO_32) <==> (t - target) % TWO_32 < 0x8000_0000
  {
  }

  /** The lag after every poll: at most one tick ahead, never further behind than at the start. */
  lemma {:induction false} LagInvariant(polls: seq<nat>)
    requires polls != [] && Paced(polls)
    ensures var lag := polls[|polls| - 1] - 10_000 * TrueTicks(polls);
            -10_000 <= lag <= if polls[0] < 10_000 then -1 else polls[0] - 10_000
  {
    var n := |polls| - 1;
    if n > 0 {
      LagInvariant(polls[..n]);
      assert polls[..n][n - 1] == polls[n - 1] && polls[..n][0] == polls[0];
    } else {
      assert TrueTicks(polls[..0]) == 0;
    }
  }

  /** The board after k ticks. */
  function Ideal(k: nat): Board {
    Board(TICK_INTERVAL_MS * k % TWO_32, (1_000_000 + 250 * k) % TWO_64)
  }

  /** At time t, with k ticks behind it, the counter's half range tells the truth. */
  predicate TellsTruth(k: nat, t: nat) {
    t >= TICK_INTERVAL_MS * k <==> (t - TICK_INTERVAL_MS * k) % TWO_32 < 0x8000_0000
  }

  predicate AlwaysTellsTruth(polls: seq<nat>) {
    polls == []
    || (AlwaysTellsTruth(polls[..|polls| - 1]) && TellsTruth(TrueTicks(polls[..|polls| - 1]), polls[|polls| - 1]))
  }

  /** After every poll of the run the 32-bit board is that of the true schedule. */
  predicate AlwaysIdeal(polls: seq<nat>) {
    After(polls) == Ideal(TrueTicks(polls)) && (polls == [] || AlwaysIdeal(polls[..|polls| - 1]))
  }

  /** At every poll the lag is within half the counter's range. */
  predicate LagInRange(polls: seq<nat>) {
    polls == []
    || (LagInRange(polls[..|polls| - 1])
        && -0x8000_0000 <= polls[|polls| - 1] - TICK_INTERVAL_MS * TrueTicks(polls[..|polls| - 1]) < 0x8000_0000)
  }

  lemma {:induction false} NextIdealDiffers(k: nat)
    ensures Ideal(k) != Ideal(k + 1)
  {
    SumModulo(TICK_INTERVAL_MS * k, TICK_INTERVAL_MS, TWO_32);
  }

  lemma {:induction false} PollIsIdealExactly(k: nat, t: nat)
    ensures Poll(Ideal(k), t % TWO_32) == Ideal(if t >= TICK_INTERVAL_MS * k then k + 1 else k)
            <==> TellsTruth(k, t)
  {
    DueSeesLagModulo(t, TICK_INTERVAL_MS * k);
    SumModulo(TICK_INTERVAL_MS * k, TICK_INTERVAL_MS, TWO_32);
    SumModulo(1_000_000 + 250 * k, 250, TWO_64);
    NextIdealDiffers(k);
    hide Due;
  }

  /**
   * Across every wrap of millis() the 32-bit schedule stays the schedule over true time, in
   * ticks, due time and meter, exactly as long as each poll's lag modulo 2^32 tells the truth.
   */
  lemma {:induction false} ScheduleIsExact(polls: seq<nat>)
    ensures AlwaysIdeal(polls) <==> AlwaysTellsTruth(polls)
  {
    if polls != [] {
      var n := |polls| - 1;
      ScheduleIsExact(polls[..n]);
      PollIsIdealExactly(TrueTicks(polls[..n]), polls[n]);
      hide Poll, Ideal, TellsTruth;
    }
  }

  /** A lag within half the range, ahead or behind, always tells the truth. */
  lemma {:induction false} LagInRangeTellsTruth(polls: seq<nat>)
    requires LagInRange(polls)
    ensures AlwaysTellsTruth(polls)
  {
    if polls != [] {
      var n := |polls| - 1;
      LagInRangeTellsTruth(polls[..n]);
      var d := polls[n] - TICK_INTERVAL_MS * TrueTicks(polls[..n]);
      if d >= 0 { ModUnique(d, TWO_32, 0, d); } else { ModUnique(d, TWO_32, -1, d + TWO_32); }
    }
  }

  /** A first poll before 2^31 ms and gaps of at most one interval keep the lag in range. */
  lemma {:induction false} PacedLagInRange(polls: seq<nat>)
    requires Paced(polls)
    ensures LagInRange(polls)
  {
    if polls != [] {
      var n := |polls| - 1;
      PacedLagInRange(polls[..n]);
      if n > 0 {
        LagInvariant(polls[..n]);
        assert polls[..n][n - 1] == polls[n - 1] && polls[..n][0] == polls[0];
      }
    }
  }

  /** So a paced firmware is on the true schedule after every poll, forever. */
  lemma {:induction false} PacedScheduleIsIdeal(polls: seq<nat>)
    requires polls != [] ==> polls[0] < 0x8000_0000
    requires forall i :: 0 < i < |polls| ==> polls[i - 1] <= polls[i] <= polls[i - 1] + 10_000
    ensures AlwaysIdeal(polls)
    ensures var ticks := TrueTicks(polls);
            After(polls) == Board(10_000 * ticks % 0x1_0000_0000, (1_000_000 + 250 * ticks) % TWO_64)
  {
    PacedLagInRange(polls);
    LagInRangeTellsTruth(polls);
    ScheduleIsExact(polls);
  }

  /** Started within the first interval, the schedule is on time after every poll. */
  lemma {:induction false} PromptScheduleIsOnTime(polls: seq<nat>)
    requires polls != [] && Paced(polls) && polls[0] < 10_000
    ensures TrueTicks(polls) == polls[|polls| - 1] / 10_000 + 1
  {
    LagInvariant(polls);
    var t, k := polls[|polls| - 1], TrueTicks(polls);
    ModUnique(t, TICK_INTERVAL_MS, k - 1, t - TICK_INTERVAL_MS * (k - 1));
  }

  /** The pace cannot be dropped: a first poll in the upper half of the counter is missed. */
  lemma LateFirstPoll(t: nat)
    ensures Due(POWER_ON.nextTick, t % TWO_32) <==> t % TWO_32 < 0x8000_0000
  {
  }

  /**
   * In plain numbers: polled within the first 10 s and at least every 10 s from then on, at
   * time t the firmware has emitted tick 0 and one for every 10 s passed, each with 250 Wh.
   */
  lemma {:induction false} TenSecondTicks(polls: seq<nat>)
    requires polls != [] && polls[0] < 10_000
    requires forall i :: 0 < i < |polls| ==> polls[i - 1] <= polls[i] <= polls[i - 1] + 10_000
    ensures var ticks := polls[|polls| - 1] / 10_000 + 1;
            TrueTicks(polls) == ticks
            && After(polls) == Board(10_000 * ticks % 0x1_0000_0000, (1_000_000 + 250 * ticks) % TWO_64)
  {
    PromptScheduleIsOnTime(polls);
    PacedScheduleIsIdeal(polls);
    hide TrueTicks, After, Paced;
  }

  /** However it is paced, a poll adds a tick exactly where 10 s have passed for each tick before it. */
  lemma {:induction false} NextTick(polls: seq<nat>, t: nat)
    ensures TrueTicks([]) == 0
    ensures TrueTicks(polls + [t]) == TrueTicks(polls) + if t >= 10_000 * TrueTicks(polls) then 1 else 0
  {
    assert (polls + [t])[..|polls|] == polls;
  }
}
