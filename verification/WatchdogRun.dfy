/**
 * The watchdog's loop over epochs: run of the Python node and main of the Go node. A tick is
 * one pass of the loop; what the world shows at a tick is a function of the epoch asked for.
 */
module WatchdogRun {
  import opened ByteStrings
  import opened ChainCodec
  import opened Published
  import opened Agreement
  import opened VerifierNodes

  /** Unreachable: the call fails or its answer does not decode. */
  datatype Sight = Sight(chain: ChainRecord, dir: DataDir) | Unreachable

  type Tick = Epoch -> Sight

  datatype Watch = Watch(epoch: nat, lastVerified: Option<nat>, alarms: nat)

  datatype Result = Running(watch: Watch) | Exited(code: int)

  // ---------- the loop as a fold over verdicts ----------

  function Next(once: bool, s: Watch, v: Verdict): Result {
    match v
    case Ok => Running(Watch(s.epoch + 1, Some(s.epoch), s.alarms))
    case Alarm => if once then Exited(1) else Running(s.(alarms := s.alarms + 1))
    case Error => if once then Exited(if s.alarms > 0 then 1 else 2) else Running(s)
    case Skip => if once then Exited(if s.alarms > 0 then 1 else 0) else Running(s)
  }

  function Fold(once: bool, start: nat, trace: seq<Verdict>): Result {
    if trace == [] then Running(Watch(start, None, 0))
    else
      match Fold(once, start, trace[..|trace| - 1])
      case Exited(code) => Exited(code)
      case Running(s) => Next(once, s, trace[|trace| - 1])
  }

  function Count(v: Verdict, trace: seq<Verdict>): (n: nat)
    ensures n <= |trace|
  {
    if trace == [] then 0
    else Count(v, trace[..|trace| - 1]) + if trace[|trace| - 1] == v then 1 else 0
  }

  ghost function VerdictAt(node: Node, w: World, tick: Tick, epoch: Epoch): Verdict {
    match tick(epoch)
    case Unreachable => Error
    case Sight(chain, dir) => VerdictOf(node, w, chain, epoch, dir)
  }

  /** The verdicts of successive ticks; the epoch asked for moves on with every OK. */
  ghost function TraceOf(node: Node, w: World, start: nat, ticks: seq<Tick>): (trace: seq<Verdict>)
    requires start + |ticks| < TWO_64
    ensures |trace| == |ticks|
  {
    if ticks == [] then []
    else
      var before := TraceOf(node, w, start, ticks[..|ticks| - 1]);
      before + [VerdictAt(node, w, ticks[|ticks| - 1], start + Count(Ok, before))]
  }

  lemma {:induction false} TracePrefix(node: Node, w: World, start: nat, ticks: seq<Tick>, k: nat)
    requires start + |ticks| < TWO_64 && k <= |ticks|
    ensures TraceOf(node, w, start, ticks)[..k] == TraceOf(node, w, start, ticks[..k])
  {
    hide VerdictAt, Count;
    var n := |ticks| - 1;
    if k == |ticks| {
      assert ticks[..k] == ticks;
    } else {
      TracePrefix(node, w, start, ticks[..n], k);
      assert ticks[..n][..k] == ticks[..k];
    }
  }

  lemma TraceStep(node: Node, w: World, start: nat, ticks: seq<Tick>, i: nat)
    requires start + |ticks| < TWO_64 && i < |ticks|
    ensures var before := TraceOf(node, w, start, ticks[..i]);
            TraceOf(node, w, start, ticks[..i + 1])
              == before + [VerdictAt(node, w, ticks[i], start + Count(Ok, before))]
  {
    hide VerdictAt, Count;
    assert ticks[..i + 1][..i] == ticks[..i];
  }

  lemma FoldStep(once: bool, start: nat, trace: seq<Verdict>, v: Verdict)
    ensures Fold(once, start, trace + [v]) ==
            match Fold(once, start, trace) { case Exited(c) => Exited(c) case Running(s) => Next(once, s, v) }
  {
  }

  /** Nothing after the first non-OK verdict matters in --once mode. */
  lemma {:induction false} ExitIsFinal(once: bool, start: nat, trace: seq<Verdict>, k: nat)
    requires k <= |trace| && Fold(once, start, trace[..k]).Exited?
    ensures Fold(once, start, trace) == Fold(once, start, trace[..k])
  {
    if k < |trace| {
      assert trace[..|trace| - 1][..k] == trace[..k];
      ExitIsFinal(once, start, trace[..|trace| - 1], k);
    } else {
      assert trace[..k] == trace;
    }
  }

  /** What the loop variables hold while the loop runs. */
  lemma {:induction false} RunningState(once: bool, start: nat, trace: seq<Verdict>)
    ensures var r := Fold(once, start, trace);
            r.Running? ==>
              r.watch == Watch(start + Count(Ok, trace),
                               if Count(Ok, trace) == 0 then None else Some(start + Count(Ok, trace) - 1),
                               Count(Alarm, trace))
    ensures !once ==> Fold(once, start, trace).Running?
  {
    if trace != [] { RunningState(once, start, trace[..|trace| - 1]); }
  }

  /** One tick of a run that has not exited: the verdict it shows, and where that leads. */
  lemma TickAdvances(node: Node, w: World, once: bool, start: nat, ticks: seq<Tick>, i: nat, s: Watch)
    requires start + |ticks| < TWO_64 && i < |ticks|
    requires Fold(once, start, TraceOf(node, w, start, ticks[..i])) == Running(s)
    ensures start <= s.epoch <= start + i
    ensures var next := Next(once, s, VerdictAt(node, w, ticks[i], s.epoch));
            Fold(once, start, TraceOf(node, w, start, ticks[..i + 1])) == next
            && (next.Exited? ==> Fold(once, start, TraceOf(node, w, start, ticks)) == next)
  {
    hide TraceOf, VerdictAt, Next, Fold, Count;
    var before, whole := TraceOf(node, w, start, ticks[..i]), TraceOf(node, w, start, ticks);
    RunningState(once, start, before);
    TraceStep(node, w, start, ticks, i);
    TracePrefix(node, w, start, ticks, i + 1);
    FoldStep(once, start, before, VerdictAt(node, w, ticks[i], s.epoch));
    if Fold(once, start, whole[..i + 1]).Exited? { ExitIsFinal(once, start, whole, i + 1); }
  }

  // ---------- the two loops ----------

  /** run of verifier_node.py, for as many ticks as are given. */
  method PythonRun(w: World, once: bool, start: nat, ticks: seq<Tick>) returns (r: Result)
    requires start + |ticks| < TWO_64
    ensures r == Fold(once, start, TraceOf(Python, w, start, ticks))
  {
    hide TraceOf, VerdictOf, Fold;
    var epoch: nat, lastVerified: Option<nat>, alarms: nat := start, None, 0;
    FoldOfNothing(Python, w, once, start, ticks[..0]);
    for i := 0 to |ticks|
      invariant Fold(once, start, TraceOf(Python, w, start, ticks[..i])) == Running(Watch(epoch, lastVerified, alarms))
    {
      TickAdvances(Python, w, once, start, ticks, i, Watch(epoch, lastVerified, alarms));
      var sight, status := ticks[i](epoch), Error;
      if sight.Sight? { status := PythonVerifyEpoch(w, sight.chain, epoch, sight.dir); }
      if status == Error {
        if once { return Exited(if alarms > 0 then 1 else 2); }
        continue;
      }
      if status == Ok {
        lastVerified := Some(epoch);
        epoch := epoch + 1;
        continue;
      }
      if status == Alarm {
        alarms := alarms + 1;
        if once { return Exited(1); }
      }
      if once { return Exited(if alarms > 0 then 1 else 0); }
    }
    assert ticks[..|ticks|] == ticks;
    r := Running(Watch(epoch, lastVerified, alarms));
  }

  /** The loop of main in the native Go node; the last verified epoch is kept as ghost only. */
  method GoRun(w: World, once: bool, start: nat, ticks: seq<Tick>) returns (exit: Option<int>, epoch: nat, alarms: nat)
    requires start + |ticks| < TWO_64
    ensures match Fold(once, start, TraceOf(Go, w, start, ticks))
            case Exited(code) => exit == Some(code)
            case Running(s) => exit == None && epoch == s.epoch && alarms == s.alarms
  {
    hide TraceOf, VerdictOf, Fold;
    epoch, alarms := start, 0;
    ghost var last: Option<nat> := None;
    FoldOfNothing(Go, w, once, start, ticks[..0]);
    for i := 0 to |ticks|
      invariant Fold(once, start, TraceOf(Go, w, start, ticks[..i])) == Running(Watch(epoch, last, alarms))
    {
      TickAdvances(Go, w, once, start, ticks, i, Watch(epoch, last, alarms));
      var sight, status := ticks[i](epoch), Error;
      if sight.Sight? { status := GoVerifyEpoch(w, sight.chain, epoch, sight.dir); }
      match status {
        case Ok =>
          last := Some(epoch);
          epoch := epoch + 1;
          continue;
        case Alarm =>
          alarms := alarms + 1;
          if once { return Some(1), epoch, alarms; }
        case Error =>
          if once { return Some(if alarms > 0 then 1 else 2), epoch, alarms; }
        case Skip =>
      }
      if once { return Some(if alarms > 0 then 1 else 0), epoch, alarms; }
    }
    assert ticks[..|ticks|] == ticks;
    exit := None;
  }

  lemma FoldOfNothing(node: Node, w: World, once: bool, start: nat, ticks: seq<Tick>)
    requires start < TWO_64 && ticks == []
    ensures Fold(once, start, TraceOf(node, w, start, ticks)) == Running(Watch(start, None, 0))
  {
  }

  // ---------- what a run means ----------

  /** The trace is OK up to position k, where it shows v. */
  ghost predicate OksThen(trace: seq<Verdict>, k: nat, v: Verdict) {
    k < |trace| && trace[k] == v && v != Ok && forall j :: 0 <= j < k ==> trace[j] == Ok
  }

  lemma {:induction false} AllOkRuns(start: nat, trace: seq<Verdict>)
    requires forall j :: 0 <= j < |trace| ==> trace[j] == Ok
    ensures Fold(true, start, trace).Running? && Fold(true, start, trace).watch.alarms == 0
  {
    if trace != [] { AllOkRuns(start, trace[..|trace| - 1]); }
  }

  lemma OksThenExits(start: nat, trace: seq<Verdict>, k: nat, v: Verdict)
    requires OksThen(trace, k, v)
    ensures Fold(true, start, trace) == Exited(if v == Alarm then 1 else if v == Error then 2 else 0)
  {
    AllOkRuns(start, trace[..k]);
    assert trace[..k + 1][..k] == trace[..k];
    ExitIsFinal(true, start, trace, k + 1);
  }

  lemma {:induction false} ExitHasCause(start: nat, trace: seq<Verdict>) returns (k: nat)
    requires Fold(true, start, trace).Exited?
    ensures k < |trace| && OksThen(trace, k, trace[k])
  {
    var n := |trace| - 1;
    if forall j :: 0 <= j < n ==> trace[j] == Ok {
      AllOkRuns(start, trace[..n]);
      k := n;
    } else {
      if Fold(true, start, trace[..n]).Running? { RunningHasNoCause(start, trace[..n]); }
      k := ExitHasCause(start, trace[..n]);
    }
  }

  lemma {:induction false} RunningHasNoCause(start: nat, trace: seq<Verdict>)
    requires Fold(true, start, trace).Running?
    ensures forall j :: 0 <= j < |trace| ==> trace[j] == Ok
  {
    if trace != [] { RunningHasNoCause(start, trace[..|trace| - 1]); }
  }

  lemma OneCause(trace: seq<Verdict>, j: nat, u: Verdict, k: nat, v: Verdict)
    requires OksThen(trace, j, u) && OksThen(trace, k, v)
    ensures j == k && u == v
  {
  }

  /**
   * In --once mode the run ends exactly when some verdict is not OK, with code 0, 1 or 2
   * exactly when the first such verdict is SKIP, ALARM or an error.
   */
  lemma OnceExitCode(start: nat, trace: seq<Verdict>)
    ensures var r := Fold(true, start, trace);
            (r.Running? <==> forall j :: 0 <= j < |trace| ==> trace[j] == Ok)
            && (r == Exited(0) <==> exists k: nat :: OksThen(trace, k, Skip))
            && (r == Exited(1) <==> exists k: nat :: OksThen(trace, k, Alarm))
            && (r == Exited(2) <==> exists k: nat :: OksThen(trace, k, Error))
  {
    var r := Fold(true, start, trace);
    if r.Running? {
      RunningHasNoCause(start, trace);
    } else {
      var k := ExitHasCause(start, trace);
      OksThenExits(start, trace, k, trace[k]);
      forall j: nat, v | OksThen(trace, j, v) ensures v == trace[k] {
        OneCause(trace, j, v, k, trace[k]);
      }
    }
  }

  lemma {:induction false} CountMonotone(v: Verdict, trace: seq<Verdict>, k: nat)
    requires k <= |trace|
    ensures Count(v, trace[..k]) <= Count(v, trace)
  {
    if k < |trace| {
      CountMonotone(v, trace[..|trace| - 1], k);
      assert trace[..|trace| - 1][..k] == trace[..k];
    } else {
      assert trace[..k] == trace;
    }
  }

  /** Counting a verdict is counting it in the multiset of the trace. */
  lemma {:induction false} CountIsMultiplicity(v: Verdict, trace: seq<Verdict>)
    ensures Count(v, trace) == multiset(trace)[v]
  {
    if trace != [] {
      var n := |trace| - 1;
      CountIsMultiplicity(v, trace[..n]);
      assert trace == trace[..n] + [trace[n]];
    }
  }

  /** The epoch polled at tick k. */
  ghost function EpochAt(start: nat, trace: seq<Verdict>, k: nat): nat
    requires k <= |trace|
  {
    start + Count(Ok, trace[..k])
  }

  /** The epoch moves by one on OK and stays on anything else, an ALARM in particular. */
  lemma EpochMovesOnOkOnly(start: nat, trace: seq<Verdict>, k: nat)
    requires k < |trace|
    ensures EpochAt(start, trace, k + 1) == EpochAt(start, trace, k) + if trace[k] == Ok then 1 else 0
  {
    assert trace[..k + 1][..k] == trace[..k];
  }

  /** Every epoch the run has passed got OK at one tick, and was not polled after it. */
  lemma {:induction false} PassedEpochGotOk(start: nat, trace: seq<Verdict>, e: nat) returns (k: nat)
    requires start <= e < start + Count(Ok, trace)
    ensures k < |trace| && trace[k] == Ok && EpochAt(start, trace, k) == e
    ensures forall j :: k < j < |trace| ==> EpochAt(start, trace, j) > e
  {
    var n := |trace| - 1;
    if e < start + Count(Ok, trace[..n]) {
      k := PassedEpochGotOk(start, trace[..n], e);
      assert trace[..n][..k] == trace[..k];
    } else {
      k := n;
    }
    EpochMovesOnOkOnly(start, trace, k);
    forall j | k < j < |trace| ensures EpochAt(start, trace, j) > e {
      CountMonotone(Ok, trace[..j], k + 1);
      assert trace[..j][..k + 1] == trace[..k + 1];
    }
  }

  lemma OkMeansAccepted(node: Node, w: World, tick: Tick, e: Epoch)
    requires VerdictAt(node, w, tick, e) == Ok
    ensures AcceptedAt(node, w, tick, e)
  {
    hide Accepts, ReachesRangeError;
  }

  /**
   * Whatever the world shows over time, each epoch that a watchdog has passed was, at the
   * tick it was passed, finalized on chain and accepted against the data published then.
   */
  lemma PassedEpochWasAccepted(node: Node, w: World, once: bool, start: nat, ticks: seq<Tick>, e: nat) returns (k: nat)
    requires start + |ticks| < TWO_64
    requires var r := Fold(once, start, TraceOf(node, w, start, ticks)); r.Running? && start <= e < r.watch.epoch
    ensures k < |ticks| && AcceptedAt(node, w, ticks[k], e)
  {
    hide TraceOf, VerdictAt, Accepts, Fold, Count;
    var trace := TraceOf(node, w, start, ticks);
    RunningState(once, start, trace);
    k := PassedEpochGotOk(start, trace, e);
    TracePrefix(node, w, start, ticks, k);
    TracePrefix(node, w, start, ticks, k + 1);
    TraceStep(node, w, start, ticks, k);
    assert trace[k] == trace[..k + 1][k];
    OkMeansAccepted(node, w, ticks[k], e);
  }

  // ---------- what an exit code means for the chain ----------

  /** Epoch e is finalized and accepted at this tick. */
  ghost predicate AcceptedAt(node: Node, w: World, tick: Tick, e: nat) {
    e < TWO_64 && tick(e).Sight? && tick(e).chain.timestamp != 0 && tick(e).chain.finalized
    && Accepts(node, w, tick(e).chain, e, tick(e).dir)
  }

  /** What the run meets at its last tick, for epoch e, if it exits with the given code. */
  ghost predicate StoppedBy(node: Node, w: World, code: int, tick: Tick, e: nat) {
    e < TWO_64
    && match tick(e)
       case Unreachable => code == 2
       case Sight(chain, dir) =>
         if chain.timestamp == 0 || !chain.finalized then code == 0
         else !Accepts(node, w, chain, e, dir)
              && code == if node.Python? && !w.rangeErrorCaught && ReachesRangeError(w, chain, e, dir) then 2 else 1
  }

  lemma {:induction false} CountOfOks(trace: seq<Verdict>)
    requires forall j :: 0 <= j < |trace| ==> trace[j] == Ok
    ensures Count(Ok, trace) == |trace|
  {
    if trace != [] { CountOfOks(trace[..|trace| - 1]); }
  }

  lemma {:induction false} VerdictStops(node: Node, w: World, tick: Tick, e: Epoch, v: Verdict)
    requires VerdictAt(node, w, tick, e) == v && v != Ok
    ensures StoppedBy(node, w, if v == Alarm then 1 else if v == Error then 2 else 0, tick, e)
  {
    hide Accepts, ReachesRangeError;
  }

  /** The verdict at a tick that only OKs came before is the one for its own epoch. */
  lemma {:induction false} TickAfterOks(node: Node, w: World, start: nat, ticks: seq<Tick>, k: nat)
    requires start + |ticks| < TWO_64 && k < |ticks|
    requires forall j :: 0 <= j < k ==> TraceOf(node, w, start, ticks)[j] == Ok
    ensures TraceOf(node, w, start, ticks)[k] == VerdictAt(node, w, ticks[k], start + k)
  {
    hide TraceOf, VerdictAt;
    var trace := TraceOf(node, w, start, ticks);
    TracePrefix(node, w, start, ticks, k);
    TracePrefix(node, w, start, ticks, k + 1);
    TraceStep(node, w, start, ticks, k);
    CountOfOks(trace[..k]);
    assert trace[k] == trace[..k + 1][k];
  }

  /**
   * A --once run that exits met n + 1 epochs, one a tick: the first n were finalized and
   * accepted, and the last was not finalized (code 0), finalized and not accepted (code 1),
   * or out of reach of a verdict (code 2).
   */
  lemma {:induction false} ExitMeans(node: Node, w: World, start: nat, ticks: seq<Tick>, code: int) returns (n: nat)
    requires start + |ticks| < TWO_64
    requires Fold(true, start, TraceOf(node, w, start, ticks)) == Exited(code)
    ensures n < |ticks| && StoppedBy(node, w, code, ticks[n], start + n)
    ensures forall k :: 0 <= k < n ==> AcceptedAt(node, w, ticks[k], start + k)
  {
    hide TraceOf, VerdictAt, Fold, StoppedBy, AcceptedAt, Accepts;
    var trace := TraceOf(node, w, start, ticks);
    n := ExitHasCause(start, trace);
    OksThenExits(start, trace, n, trace[n]);
    TickAfterOks(node, w, start, ticks, n);
    VerdictStops(node, w, ticks[n], start + n, trace[n]);
    forall k | 0 <= k < n ensures AcceptedAt(node, w, ticks[k], start + k) {
      TickAfterOks(node, w, start, ticks, k);
      OkMeansAccepted(node, w, ticks[k], start + k);
    }
  }

  // ---------- when the two loops meet the same trace ----------

  /** Whatever epoch is asked for, the chain's total is a uint128. */
  ghost predicate UnsignedTotal(tick: Tick) {
    forall e: Epoch :: tick(e).Sight? ==> tick(e).chain.totalKwh < TWO_128
  }

  ghost predicate SplitAt(w: World, tick: Tick, e: Epoch) {
    tick(e).Sight? && Split(Python, Go, w, tick(e).chain, e, tick(e).dir)
  }

  lemma {:induction false} TickAgreesExactly(w: World, tick: Tick, e: Epoch)
    requires UnsignedTotal(tick) && TakesChainId(Go, w)
    ensures VerdictAt(Python, w, tick, e) == VerdictAt(Go, w, tick, e) <==> !SplitAt(w, tick, e)
  {
    hide VerdictOf, Split;
    if tick(e).Sight? { PythonAndGoAgreeExactly(w, tick(e).chain, e, tick(e).dir); }
  }

  /** At tick k the verdicts split for the epoch that the Go loop asks for. */
  ghost predicate RunSplitsAt(w: World, start: nat, ticks: seq<Tick>, k: nat)
    requires start + |ticks| < TWO_64 && k < |ticks|
  {
    SplitAt(w, ticks[k], start + Count(Ok, TraceOf(Go, w, start, ticks[..k])))
  }

  lemma {:induction false} LastTickAgreesExactly(w: World, start: nat, ticks: seq<Tick>)
    requires start + |ticks| < TWO_64 && TakesChainId(Go, w) && ticks != []
    requires UnsignedTotal(ticks[|ticks| - 1])
    ensures var n := |ticks| - 1;
            TraceOf(Python, w, start, ticks) == TraceOf(Go, w, start, ticks) <==>
              TraceOf(Python, w, start, ticks[..n]) == TraceOf(Go, w, start, ticks[..n])
              && !RunSplitsAt(w, start, ticks, n)
  {
    hide TraceOf, VerdictAt, SplitAt, UnsignedTotal, Count;
    var n := |ticks| - 1;
    assert ticks[..n + 1] == ticks;
    TraceStep(Python, w, start, ticks, n);
    TraceStep(Go, w, start, ticks, n);
    var p, g := TraceOf(Python, w, start, ticks), TraceOf(Go, w, start, ticks);
    assert p[..n] == TraceOf(Python, w, start, ticks[..n]) && g[..n] == TraceOf(Go, w, start, ticks[..n]);
    TickAgreesExactly(w, ticks[n], start + Count(Ok, TraceOf(Go, w, start, ticks[..n])));
    if TraceOf(Python, w, start, ticks[..n]) == TraceOf(Go, w, start, ticks[..n]) {
      assert p == g <==> p[n] == g[n];
    }
  }

  /** The verdicts that the loop meets: none once it has exited. */
  function Met(once: bool, start: nat, trace: seq<Verdict>): (met: seq<Verdict>)
    ensures met <= trace
  {
    if trace == [] then []
    else
      var before := trace[..|trace| - 1];
      if Fold(once, start, before).Exited? then Met(once, start, before) else trace
  }

  /** They decide the result; a loop that goes on, a daemon always, has met the whole trace. */
  lemma {:induction false} MetDecides(once: bool, start: nat, trace: seq<Verdict>)
    ensures Fold(once, start, Met(once, start, trace)) == Fold(once, start, trace)
    ensures !once || Fold(once, start, trace).Running? ==> Met(once, start, trace) == trace
  {
    RunningState(once, start, trace);
    if trace != [] { MetDecides(once, start, trace[..|trace| - 1]); }
  }

  /** One more tick each: the loops still agree, and have stopped or show the same. */
  lemma MetStep(once: bool, start: nat, p: seq<Verdict>, g: seq<Verdict>)
    requires |p| == |g| > 0
    ensures var n := |g| - 1;
            var ended := Fold(once, start, g[..n]).Exited?;
            |Met(once, start, g)| == (if ended then |Met(once, start, g[..n])| else n + 1)
            && |Met(once, start, g[..n])| <= n && (!ended ==> Met(once, start, g[..n]) == g[..n])
            && (Met(once, start, p) == Met(once, start, g) <==>
                  Met(once, start, p[..n]) == Met(once, start, g[..n]) && (ended || p == g))
  {
    var n := |g| - 1;
    MetDecides(once, start, p[..n]);
    MetDecides(once, start, g[..n]);
    hide Fold;
  }

  /**
   * Over any world the Python and Go loops meet the same verdicts, and so end alike, exactly
   * when their verdicts split at no tick that the Go loop reaches.
   */
  lemma {:induction false} RunsAgreeExactly(w: World, once: bool, start: nat, ticks: seq<Tick>)
    requires start + |ticks| < TWO_64 && TakesChainId(Go, w)
    requires forall i :: 0 <= i < |ticks| ==> UnsignedTotal(ticks[i])
    ensures var p, g := TraceOf(Python, w, start, ticks), TraceOf(Go, w, start, ticks);
            Met(once, start, p) == Met(once, start, g) <==>
              forall k :: 0 <= k < |Met(once, start, g)| ==> !RunSplitsAt(w, start, ticks, k)
  {
    hide UnsignedTotal, SplitAt, Count, Fold, VerdictAt;
    if ticks != [] {
      var n := |ticks| - 1;
      var init: seq<Tick> := ticks[..n];
      var p, g := TraceOf(Python, w, start, ticks), TraceOf(Go, w, start, ticks);
      assert p[..n] == TraceOf(Python, w, start, init) && g[..n] == TraceOf(Go, w, start, init);
      hide TraceOf, Met;
      RunsAgreeExactly(w, once, start, init);
      MetStep(once, start, p, g);
      LastTickAgreesExactly(w, start, ticks);
      forall k | 0 <= k < n ensures RunSplitsAt(w, start, init, k) == RunSplitsAt(w, start, ticks, k) {
        assert init[k] == ticks[k] && init[..k] == ticks[..k];
      }
      hide RunSplitsAt;
      if !Fold(once, start, g[..n]).Exited? {
        assert p == g ==> p[..n] == g[..n];
      }
    }
  }
}
