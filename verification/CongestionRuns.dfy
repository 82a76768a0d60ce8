/** Bitrate control over whole runs. A run leaves a log of its evaluations; the controller's
    fields are exactly what that log says (`ControllerFollowsLog`), and the promises of the
    policy are properties of every such log. */
module CongestionRuns {
  import opened Prelude
  import opened Congestion

  datatype Op =
    | InputArrives(encoderQueueSize: nat, now: real)
    | WriteStarts
    | WriteEnds(now: real, senderQueueMs: real, writeBlockedMs: real)

  function Apply(s: State, op: Op): State
  {
    match op
    case InputArrives(size, now) => AfterInput(s, size, now)
    case WriteStarts => AfterWriteStarted(s)
    case WriteEnds(now, q, b) => AfterWriteFinished(s, now, q, b)
  }

  function Run(s: State, ops: seq<Op>): State
  {
    if ops == [] then s else Apply(Run(s, ops[..|ops| - 1]), ops[|ops| - 1])
  }

  /** One evaluation: when, its verdict, and the bitrate after it. */
  datatype Eval = Eval(at: real, congested: bool, bitrate: int)

  /** The windows that an evaluation at the end of a write looks at. */
  function Judged(s: State, op: Op): State
    requires op.WriteEnds?
  {
    Prepared(WriteObserved(s, op.now, op.senderQueueMs, op.writeBlockedMs), op.now)
  }

  function LogOf(s: State, op: Op): seq<Eval>
  {
    if op.WriteEnds? && Due(s, op.now)
    then [Eval(op.now, Congested(Judged(s, op)), Apply(s, op).current)] else []
  }

  function Log(s: State, ops: seq<Op>): seq<Eval>
  {
    if ops == [] then [] else
    Log(s, ops[..|ops| - 1]) + LogOf(Run(s, ops[..|ops| - 1]), ops[|ops| - 1])
  }

  // ---- what a log says, without the controller ----

  function Init<T>(s: seq<T>): seq<T>
    requires s != []
  {
    s[..|s| - 1]
  }

  function Last<T>(s: seq<T>): T
    requires s != []
  {
    s[|s| - 1]
  }

  function Bitrate(ceiling: int, log: seq<Eval>): int
  {
    if log == [] then ceiling else Last(log).bitrate
  }

  function LastAt(log: seq<Eval>): Instant
  {
    if log == [] then Never else At(Last(log).at)
  }

  function LastChangeAt(ceiling: int, log: seq<Eval>): Instant
  {
    if log == [] then Never
    else if Last(log).bitrate != Bitrate(ceiling, Init(log)) then At(Last(log).at)
    else LastChangeAt(ceiling, Init(log))
  }

  /** The start of the run of healthy evaluations at the end of the log. */
  function HealthyFrom(log: seq<Eval>): Instant
  {
    if log == [] || Last(log).congested then Never
    else if HealthyFrom(Init(log)).Never? then At(Last(log).at)
    else HealthyFrom(Init(log))
  }

  /** Congested evaluations at the end of the log not yet answered by a reduction attempt. */
  function Unanswered(log: seq<Eval>): nat
  {
    if log == [] || !Last(log).congested then 0
    else if Unanswered(Init(log)) == 1 then 0 else 1
  }

  /** The policy: every second congested evaluation in a row attempts a reduction; a healthy
      one raises the bitrate after ten healthy seconds and five seconds without a change. */
  function Policy(ceiling: int, log: seq<Eval>, at: real, congested: bool): int
  {
    var current := Bitrate(ceiling, log);
    if congested then
      if Unanswered(log) == 1 then Min(current, Lowered(ceiling, current)) else current
    else
      var since := HealthyFrom(log);
      if since.At? && at - since.ms >= 10000.0 && Elapsed(at, LastChangeAt(ceiling, log), 5000.0)
      then Max(current, Raised(ceiling, current)) else current
  }

  ghost predicate Follows(ceiling: int, log: seq<Eval>)
  {
    log == [] ||
    (&& Follows(ceiling, Init(log))
     && Elapsed(Last(log).at, LastAt(Init(log)), 2000.0)
     && Last(log).bitrate == Policy(ceiling, Init(log), Last(log).at, Last(log).congested))
  }

  // ---- the controller follows its log ----

  ghost predicate Agrees(s: State, log: seq<Eval>)
  {
    && s.current == Bitrate(s.ceiling, log)
    && s.lastEvaluation == LastAt(log)
    && s.lastChange == LastChangeAt(s.ceiling, log)
    && s.healthySince == HealthyFrom(log)
    && s.congestedWindows == Unanswered(log)
  }

  lemma Snoc(log: seq<Eval>, e: Eval)
    ensures Init(log + [e]) == log && Last(log + [e]) == e
  {
  }

  /** The last change is never after the last evaluation. */
  lemma {:induction false} ChangeBeforeLast(ceiling: int, log: seq<Eval>)
    requires Follows(ceiling, log)
    ensures LastChangeAt(ceiling, log).At? ==> log != [] && LastChangeAt(ceiling, log).ms <= Last(log).at
    ensures HealthyFrom(log).At? ==> log != [] && HealthyFrom(log).ms <= Last(log).at
  {
    if log == [] {
    } else {
      ChangeBeforeLast(ceiling, Init(log));
    }
  }

  lemma DecideAgrees(s: State, log: seq<Eval>, p: State, now: real, congested: bool)
    requires Agrees(s, log) && Follows(s.ceiling, log) && Elapsed(now, LastAt(log), 2000.0)
    requires p.ceiling == s.ceiling && p.current == s.current && p.lastChange == s.lastChange
    requires p.healthySince == s.healthySince && p.congestedWindows == s.congestedWindows
    requires p.lastEvaluation == At(now)
    ensures var d := Decide(p, now, congested);
            var log' := log + [Eval(now, congested, d.current)];
            Agrees(d, log') && Follows(s.ceiling, log') && d.ceiling == s.ceiling
  {
    var d := Decide(p, now, congested);
    Snoc(log, Eval(now, congested, d.current));
    ChangeBeforeLast(s.ceiling, log);
  }

  /** Whatever the calls, the controller's bitrate and timers are those its log prescribes. */
  lemma {:induction false} ControllerFollowsLog(mode: Mode, ceiling: int, frameIntervalMs: real, ops: seq<Op>)
    ensures var s := Run(Fresh(mode, ceiling, frameIntervalMs), ops);
            var log := Log(Fresh(mode, ceiling, frameIntervalMs), ops);
            s.ceiling == ceiling && Agrees(s, log) && Follows(ceiling, log)
  {
    if ops == [] {
    } else {
      var s0 := Fresh(mode, ceiling, frameIntervalMs);
      ControllerFollowsLog(mode, ceiling, frameIntervalMs, Init(ops));
      StepFollowsLog(Run(s0, Init(ops)), Log(s0, Init(ops)), Last(ops));
    }
  }

  lemma ApplyShape(s: State, op: Op)
    ensures var s' := Apply(s, op);
            if op.WriteEnds? && Due(s, op.now)
            then s' == Decide(Judged(s, op), op.now, Congested(Judged(s, op)))
            else s' == s.(samples := s'.samples, inputs := s'.inputs, dropped := s'.dropped,
                          pendingWrites := s'.pendingWrites)
  {
    hide Decide, Congested;
  }

  lemma StepFollowsLog(s: State, log: seq<Eval>, op: Op)
    requires Agrees(s, log) && Follows(s.ceiling, log)
    ensures var s' := Apply(s, op);
            var log' := log + LogOf(s, op);
            s'.ceiling == s.ceiling && Agrees(s', log') && Follows(s.ceiling, log')
  {
    hide Decide, Congested, Apply;
    ApplyShape(s, op);
    if op.WriteEnds? && Due(s, op.now) {
      var p := Judged(s, op);
      DecideAgrees(s, log, p, op.now, Congested(p));
    } else {
      assert log + [] == log;
    }
  }

  // ---- bounds ----

  /** Every bitrate on a log lies between the floor and the ceiling. */
  lemma {:induction false} BitrateBounds(ceiling: int, log: seq<Eval>)
    requires ceiling >= 0 && Follows(ceiling, log)
    ensures Floor(ceiling) <= Bitrate(ceiling, log) <= ceiling
  {
    RoundDivides(4 * ceiling, 10);
    if log == [] {
    } else {
      BitrateBounds(ceiling, Init(log));
    }
  }

  /** Over every run the bitrate stays between 40% of the ceiling, rounded, and the ceiling,
      and at most one congested window is waiting for an answer. */
  lemma RunBounds(mode: Mode, ceiling: int, frameIntervalMs: real, ops: seq<Op>)
    requires ceiling >= 0
    ensures var s := Run(Fresh(mode, ceiling, frameIntervalMs), ops);
            Floor(ceiling) <= s.current <= ceiling && s.congestedWindows <= 1
  {
    ControllerFollowsLog(mode, ceiling, frameIntervalMs, ops);
    BitrateBounds(ceiling, Log(Fresh(mode, ceiling, frameIntervalMs), ops));
  }

  // ---- hysteresis ----

  predicate Changes(ceiling: int, log: seq<Eval>, i: nat)
    requires i < |log|
  {
    log[i].bitrate != Bitrate(ceiling, log[..i])
  }

  lemma {:induction false} PrefixFollows(ceiling: int, log: seq<Eval>, i: nat)
    requires Follows(ceiling, log) && i <= |log|
    ensures Follows(ceiling, log[..i])
  {
    if i < |log| {
      PrefixFollows(ceiling, Init(log), i);
      assert Init(log)[..i] == log[..i];
    } else {
      assert log[..i] == log;
    }
  }

  /** Evaluations are at least two seconds apart. */
  lemma {:induction false} EvaluationsApart(ceiling: int, log: seq<Eval>, i: nat, j: nat)
    requires Follows(ceiling, log) && i < j < |log|
    ensures log[j].at - log[i].at >= 2000.0
    decreases j
  {
    PrefixFollows(ceiling, log, j + 1);
    var p := log[..j + 1];
    assert Init(p) == log[..j] && Last(p) == log[j] && Last(log[..j]) == log[j - 1];
    if i < j - 1 { EvaluationsApart(ceiling, log, i, j - 1); }
  }

  /** A change at entry k is not after the last change of any longer prefix. */
  lemma {:induction false} LastChangeCovers(ceiling: int, log: seq<Eval>, k: nat)
    requires Follows(ceiling, log) && k < |log| && Changes(ceiling, log, k)
    ensures LastChangeAt(ceiling, log).At? && LastChangeAt(ceiling, log).ms >= log[k].at
  {
    if k == |log| - 1 {
      assert log[..k] == Init(log);
    } else {
      assert Init(log)[..k] == log[..k];
      if Last(log).bitrate != Bitrate(ceiling, Init(log)) {
        EvaluationsApart(ceiling, log, k, |log| - 1);
      } else {
        LastChangeCovers(ceiling, Init(log), k);
      }
    }
  }

  lemma {:induction false} HealthyCovers(ceiling: int, log: seq<Eval>, k: nat)
    requires Follows(ceiling, log) && k < |log| && HealthyFrom(log).At? && log[k].at >= HealthyFrom(log).ms
    ensures !log[k].congested
  {
    if k < |log| - 1 {
      assert Init(log)[k] == log[k];
      if HealthyFrom(Init(log)).Never? {
        EvaluationsApart(ceiling, log, k, |log| - 1);
        assert false;
      }
      HealthyCovers(ceiling, Init(log), k);
    }
  }

  /** Any two changes are at least two seconds apart; an increase comes at least five
      seconds after every earlier change and follows ten seconds without a congested
      evaluation; a decrease answers two congested evaluations in a row. */
  lemma Hysteresis(ceiling: int, log: seq<Eval>, i: nat)
    requires Follows(ceiling, log) && i < |log| && Changes(ceiling, log, i)
    ensures forall k :: 0 <= k < i && Changes(ceiling, log, k) ==> log[i].at - log[k].at >= 2000.0
    ensures log[i].bitrate > Bitrate(ceiling, log[..i]) ==>
              && (forall k :: 0 <= k < i && Changes(ceiling, log, k) ==> log[i].at - log[k].at >= 5000.0)
              && (forall k :: 0 <= k <= i && log[i].at - log[k].at < 10000.0 ==> !log[k].congested)
    ensures log[i].bitrate < Bitrate(ceiling, log[..i]) ==> i > 0 && log[i].congested && log[i - 1].congested
  {
    var before := log[..i];
    PrefixFollows(ceiling, log, i);
    PrefixFollows(ceiling, log, i + 1);
    assert Init(log[..i + 1]) == before && Last(log[..i + 1]) == log[i];
    forall k | 0 <= k < i && Changes(ceiling, log, k) ensures log[i].at - log[k].at >= 2000.0 {
      EvaluationsApart(ceiling, log, k, i);
    }
    if log[i].bitrate > Bitrate(ceiling, before) {
      forall k | 0 <= k < i && Changes(ceiling, log, k) ensures log[i].at - log[k].at >= 5000.0 {
        assert before[..k] == log[..k] && before[k] == log[k];
        LastChangeCovers(ceiling, before, k);
      }
      forall k | 0 <= k <= i && log[i].at - log[k].at < 10000.0 ensures !log[k].congested {
        if k < i {
          assert before[k] == log[k];
          HealthyCovers(ceiling, before, k);
        }
      }
    } else {
      assert Unanswered(before) == 1;
      assert Last(before) == log[i - 1];
    }
  }

  // ---- sustained congestion reaches the floor ----

  /** The bitrate after k reductions from the ceiling. */
  function LoweredTimes(ceiling: int, k: nat): int
  {
    if k == 0 then ceiling else Lowered(ceiling, LoweredTimes(ceiling, k - 1))
  }

  lemma LoweredMonotone(ceiling: int, a: int, b: int)
    requires a <= b
    ensures Lowered(ceiling, a) <= Lowered(ceiling, b)
  {
    assert 2 * (8 * a) + 10 <= 2 * (8 * b) + 10;
  }

  /** If the last n evaluations were congested, at least (n - unanswered) / 2 reductions
      were attempted. */
  lemma {:induction false} CongestedTail(ceiling: int, log: seq<Eval>, n: nat) returns (attempts: nat)
    requires ceiling >= 0 && Follows(ceiling, log) && n <= |log|
    requires forall k :: |log| - n <= k < |log| ==> log[k].congested
    ensures 2 * attempts + Unanswered(log) >= n
    ensures Bitrate(ceiling, log) <= LoweredTimes(ceiling, attempts)
    decreases n
  {
    BitrateBounds(ceiling, log);
    if n == 0 { return 0; }
    var before := Init(log);
    forall k | |before| - (n - 1) <= k < |before| ensures before[k].congested {
      assert before[k] == log[k];
    }
    attempts := CongestedTail(ceiling, before, n - 1);
    assert Last(log).congested;
    if Unanswered(before) == 1 {
      LoweredMonotone(ceiling, Bitrate(ceiling, before), LoweredTimes(ceiling, attempts));
      attempts := attempts + 1;
    }
  }

  /** The rounding inside a reduction, as linear bounds. */
  lemma LoweredExactly(ceiling: int, current: int) returns (rounded: int)
    ensures 10 * rounded <= 8 * current + 5 < 10 * rounded + 10
    ensures Lowered(ceiling, current) == Max(Floor(ceiling), rounded)
  {
    rounded := Round(8 * current, 10);
    RoundDivides(8 * current, 10);
  }

  lemma FloorExactly(ceiling: int)
    ensures 10 * Floor(ceiling) <= 4 * ceiling + 5 < 10 * Floor(ceiling) + 10
  {
    RoundDivides(4 * ceiling, 10);
  }

  lemma FiveReductions(ceiling: int)
    requires ceiling >= 4
    ensures LoweredTimes(ceiling, 5) == Floor(ceiling)
  {
    hide Lowered, Floor;
    FloorExactly(ceiling);
    var r1 := LoweredExactly(ceiling, ceiling);
    var r2 := LoweredExactly(ceiling, LoweredTimes(ceiling, 1));
    var r3 := LoweredExactly(ceiling, LoweredTimes(ceiling, 2));
    var r4 := LoweredExactly(ceiling, LoweredTimes(ceiling, 3));
    var r5 := LoweredExactly(ceiling, LoweredTimes(ceiling, 4));
    assert LoweredTimes(ceiling, 0) == ceiling;
    hide LoweredTimes;
    FiveRounds(ceiling, Floor(ceiling), r1, r2, r3, r4, r5);
  }

  lemma FiveRounds(ceiling: int, floor: int, r1: int, r2: int, r3: int, r4: int, r5: int)
    requires ceiling >= 4 && 10 * floor <= 4 * ceiling + 5 < 10 * floor + 10
    requires 10 * r1 <= 8 * ceiling + 5 && 10 * r2 <= 8 * Max(floor, r1) + 5
    requires 10 * r3 <= 8 * Max(floor, r2) + 5 && 10 * r4 <= 8 * Max(floor, r3) + 5 && 10 * r5 <= 8 * Max(floor, r4) + 5
    ensures r5 <= floor
  {
  }

  lemma {:induction false} LoweredStays(ceiling: int, k: nat)
    requires ceiling >= 4 && k >= 5
    ensures LoweredTimes(ceiling, k) == Floor(ceiling)
  {
    if k == 5 {
      FiveReductions(ceiling);
    } else {
      LoweredStays(ceiling, k - 1);
      var rounded := LoweredExactly(ceiling, Floor(ceiling));
      FloorExactly(ceiling);
    }
  }

  /** For a ceiling of 1, 2 or 3 rounding holds the bitrate above the floor for good. */
  lemma {:induction false} TinyCeilingSticks(ceiling: int, k: nat)
    requires 1 <= ceiling <= 3
    ensures LoweredTimes(ceiling, k) > Floor(ceiling)
    ensures LoweredTimes(ceiling, k) <= ceiling
  {
    FloorExactly(ceiling);
    if k == 0 {
    } else {
      TinyCeilingSticks(ceiling, k - 1);
      var rounded := LoweredExactly(ceiling, LoweredTimes(ceiling, k - 1));
    }
  }

  /** Reductions from the ceiling reach the floor, and then by the fifth, exactly for
      ceilings of at least 4. */
  lemma FloorReachedExactly(ceiling: int)
    requires ceiling >= 1
    ensures ceiling >= 4 <==> exists k :: LoweredTimes(ceiling, k) == Floor(ceiling)
    ensures ceiling >= 4 ==> forall k :: k >= 5 ==> LoweredTimes(ceiling, k) == Floor(ceiling)
  {
    if ceiling >= 4 {
      forall k: nat | k >= 5 ensures LoweredTimes(ceiling, k) == Floor(ceiling) {
        LoweredStays(ceiling, k);
      }
      assert LoweredTimes(ceiling, 5) == Floor(ceiling);
    } else {
      forall k: nat ensures LoweredTimes(ceiling, k) != Floor(ceiling) {
        TinyCeilingSticks(ceiling, k);
      }
    }
  }

  /** Ten congested evaluations in a row bring the bitrate to the floor from anywhere. */
  lemma CongestionReachesFloor(ceiling: int, log: seq<Eval>)
    requires ceiling >= 4 && Follows(ceiling, log) && |log| >= 10
    requires forall k :: |log| - 10 <= k < |log| ==> log[k].congested
    ensures Bitrate(ceiling, log) == Floor(ceiling)
  {
    var attempts := CongestedTail(ceiling, log, 10);
    LoweredStays(ceiling, attempts);
    BitrateBounds(ceiling, log);
  }

  // ---- sustained health reaches the ceiling ----

  /** The log ends with healthy evaluations from entry a on, each within `gap` of the one before. */
  ghost predicate HealthyStretch(log: seq<Eval>, a: nat, gap: real)
  {
    && a < |log|
    && (forall k :: a <= k < |log| ==> !log[k].congested)
    && (forall k :: a < k < |log| ==> log[k].at - log[k - 1].at <= gap)
  }

  /** When the (k+1)-th increase of a stretch starting at `start` is due at the latest. */
  function DueBy(start: real, k: nat, gap: real): real
  {
    start + 10000.0 + k as real * (5000.0 + gap)
  }

  lemma {:induction false} HealthyByStart(ceiling: int, log: seq<Eval>, a: nat, gap: real)
    requires Follows(ceiling, log) && HealthyStretch(log, a, gap)
    ensures HealthyFrom(log).At? && HealthyFrom(log).ms <= log[a].at
  {
    if a < |log| - 1 {
      var before := Init(log);
      forall k | a <= k < |before| ensures !before[k].congested {
        assert before[k] == log[k];
      }
      forall k | a < k < |before| ensures before[k].at - before[k - 1].at <= gap {
        assert before[k] == log[k] && before[k - 1] == log[k - 1];
      }
      HealthyByStart(ceiling, before, a, gap);
    } else {
      ChangeBeforeLast(ceiling, log);
    }
  }

  lemma DueByNext(start: real, k: nat, gap: real)
    ensures DueBy(start, k + 1, gap) == DueBy(start, k, gap) + 5000.0 + gap
    ensures gap >= 0.0 ==> DueBy(start, k, gap) >= start + 10000.0
  {
    if gap >= 0.0 { assert k as real * (5000.0 + gap) >= 0.0; }
    assert (k + 1) as real * (5000.0 + gap) == k as real * (5000.0 + gap) + (5000.0 + gap);
  }

  /** Either the ceiling is reached, or the next increase is not due yet; each increase that
      happened was made no later than one gap after it was due. */
  ghost predicate Recovering(ceiling: int, log: seq<Eval>, start: real, gap: real, increases: nat)
  {
    && Bitrate(ceiling, log) >= Min(ceiling, Floor(ceiling) + increases * StepSize(ceiling))
    && (Bitrate(ceiling, log) < ceiling ==>
          && log != [] && Last(log).at < DueBy(start, increases, gap)
          && (LastChangeAt(ceiling, log).At? ==>
                LastChangeAt(ceiling, log).ms
                <= if increases == 0 then start else DueBy(start, increases - 1, gap) + gap))
  }

  lemma RecoverStep(ceiling: int, log: seq<Eval>, start: real, gap: real, increases: nat) returns (next: nat)
    requires ceiling >= 5 && gap >= 0.0 && |log| >= 2
    requires Follows(ceiling, log) && !Last(log).congested
    requires HealthyFrom(Init(log)).At? && HealthyFrom(Init(log)).ms <= start
    requires Last(log).at - Last(Init(log)).at <= gap
    requires Recovering(ceiling, Init(log), start, gap, increases)
    ensures Recovering(ceiling, log, start, gap, next)
  {
    var before := Init(log);
    var now := Last(log).at;
    BitrateBounds(ceiling, before);
    RoundDivides(ceiling, 10);
    DueByNext(start, increases, gap);
    if Last(log).bitrate > Bitrate(ceiling, before) {
      next := increases + 1;
      assert next * StepSize(ceiling) == increases * StepSize(ceiling) + StepSize(ceiling);
    } else {
      next := increases;
      if Last(log).bitrate < ceiling {
        // It would have been raised had it been due.
        if increases > 0 { DueByNext(start, increases - 1, gap); }
        assert Raised(ceiling, Bitrate(ceiling, before)) > Bitrate(ceiling, before);
      }
    }
  }

  lemma {:induction false} Recovers(ceiling: int, log: seq<Eval>, a: nat, gap: real) returns (increases: nat)
    requires ceiling >= 5 && gap >= 0.0 && Follows(ceiling, log) && HealthyStretch(log, a, gap)
    ensures Recovering(ceiling, log, log[a].at, gap, increases)
    decreases |log|
  {
    BitrateBounds(ceiling, log);
    if a == |log| - 1 {
      increases := 0;
      ChangeBeforeLast(ceiling, log);
    } else {
      var before := Init(log);
      forall k | a <= k < |before| ensures !before[k].congested {
        assert before[k] == log[k];
      }
      forall k | a < k < |before| ensures before[k].at - before[k - 1].at <= gap {
        assert before[k] == log[k] && before[k - 1] == log[k - 1];
      }
      increases := Recovers(ceiling, before, a, gap);
      HealthyByStart(ceiling, before, a, gap);
      increases := RecoverStep(ceiling, log, log[a].at, gap, increases);
    }
  }

  lemma Scale(a: real, b: real, c: real)
    requires a <= b && c >= 0.0
    ensures a * c <= b * c
  {
    assert (b - a) * c >= 0.0;
  }

  /** Seven increases lead from the floor to the ceiling. */
  predicate SevenSuffice(ceiling: int) { Floor(ceiling) + 7 * StepSize(ceiling) >= ceiling }

  /** Which is so for every positive ceiling except 1 to 4, 13 and 14. */
  lemma SevenSufficeExactly(ceiling: int)
    requires ceiling >= 1
    ensures SevenSuffice(ceiling) <==> ceiling >= 5 && ceiling != 13 && ceiling != 14
  {
    FloorExactly(ceiling);
    RoundDivides(ceiling, 10);
    hide Floor;
  }

  lemma SevenIncreases(ceiling: int, k: nat)
    requires ceiling >= 5 && SevenSuffice(ceiling) && k >= 7
    ensures Floor(ceiling) + k * StepSize(ceiling) >= ceiling
  {
    RoundDivides(ceiling, 10);
    assert k * StepSize(ceiling) >= 7 * StepSize(ceiling);
  }

  /** How many entries of a log from a on changed the bitrate. */
  function ChangesFrom(ceiling: int, log: seq<Eval>, a: nat): nat
  {
    if |log| <= a then 0
    else ChangesFrom(ceiling, Init(log), a) + (if Last(log).bitrate != Bitrate(ceiling, Init(log)) then 1 else 0)
  }

  /** A healthy evaluation keeps the bitrate or raises it by a step. */
  lemma HealthyChange(ceiling: int, log: seq<Eval>)
    requires log != [] && Follows(ceiling, log) && !Last(log).congested
    ensures var before := Bitrate(ceiling, Init(log));
            Last(log).bitrate == before || (before < ceiling && Last(log).bitrate == Raised(ceiling, before))
  {
    hide Floor, StepSize, Lowered;
  }

  lemma OneMoreStep(n: int, step: int)
    ensures (n + 1) * step == n * step + step
  {
  }

  /** While evaluations stay healthy every change is an increase, so there are at most seven. */
  lemma {:induction false} FewIncreases(ceiling: int, log: seq<Eval>, a: nat)
    requires ceiling >= 5 && SevenSuffice(ceiling) && Follows(ceiling, log)
    requires forall k :: a <= k < |log| ==> !log[k].congested
    ensures Bitrate(ceiling, log) >= Min(ceiling, Floor(ceiling) + ChangesFrom(ceiling, log, a) * StepSize(ceiling))
    ensures ChangesFrom(ceiling, log, a) <= 7
    decreases |log|
  {
    hide Floor, StepSize, SevenSuffice;
    BitrateBounds(ceiling, log);
    if |log| <= a {
      assert ChangesFrom(ceiling, log, a) == 0;
    } else {
      var before := Init(log);
      forall k | a <= k < |before| ensures !before[k].congested {
        assert before[k] == log[k];
      }
      FewIncreases(ceiling, before, a);
      BitrateBounds(ceiling, before);
      HealthyChange(ceiling, log);
      var n := ChangesFrom(ceiling, before, a);
      OneMoreStep(n, StepSize(ceiling));
      if n == 7 { SevenIncreases(ceiling, n); }
      hide Follows;
      assert Bitrate(ceiling, log) == Last(log).bitrate;
    }
  }

  lemma DueBySixth(start: real, k: nat, gap: real, now: real)
    requires k <= 6 && gap >= 0.0 && now - start >= 10000.0 + 6.0 * (5000.0 + gap)
    ensures now >= DueBy(start, k, gap)
  {
    Scale(k as real, 6.0, 5000.0 + gap);
  }

  /** If evaluations stay healthy and come within `gap` of each other, the bitrate is back at
      the ceiling within ten seconds and six more recovery intervals, by at most seven steps. */
  lemma HealthReachesCeiling(ceiling: int, log: seq<Eval>, a: nat, gap: real)
    requires ceiling >= 1 && SevenSuffice(ceiling) && gap >= 0.0 && Follows(ceiling, log) && HealthyStretch(log, a, gap)
    requires Last(log).at - log[a].at >= 10000.0 + 6.0 * (5000.0 + gap)
    ensures Bitrate(ceiling, log) == ceiling && ChangesFrom(ceiling, log, a) <= 7
  {
    SevenSufficeExactly(ceiling);
    FewIncreases(ceiling, log, a);
    var increases := Recovers(ceiling, log, a, gap);
    BitrateBounds(ceiling, log);
    hide Floor, StepSize, DueBy;
    if increases >= 7 {
      SevenIncreases(ceiling, increases);
    } else {
      DueBySixth(log[a].at, increases, gap, Last(log).at);
    }
  }

  // ---- the same, of the controller ----

  /** Whatever came before, ten congested evaluations leave the controller at the floor. */
  lemma CongestedController(mode: Mode, ceiling: int, frameIntervalMs: real, ops: seq<Op>)
    requires ceiling >= 4
    requires var log := Log(Fresh(mode, ceiling, frameIntervalMs), ops);
             |log| >= 10 && forall k :: |log| - 10 <= k < |log| ==> log[k].congested
    ensures Run(Fresh(mode, ceiling, frameIntervalMs), ops).current == Floor(ceiling)
  {
    ControllerFollowsLog(mode, ceiling, frameIntervalMs, ops);
    CongestionReachesFloor(ceiling, Log(Fresh(mode, ceiling, frameIntervalMs), ops));
  }

  /** Whatever came before, a long enough healthy stretch leaves it at the ceiling. */
  lemma HealthyController(mode: Mode, ceiling: int, frameIntervalMs: real, ops: seq<Op>, a: nat, gap: real)
    requires ceiling >= 1 && SevenSuffice(ceiling) && gap >= 0.0
    requires var log := Log(Fresh(mode, ceiling, frameIntervalMs), ops);
             HealthyStretch(log, a, gap) && Last(log).at - log[a].at >= 10000.0 + 6.0 * (5000.0 + gap)
    ensures Run(Fresh(mode, ceiling, frameIntervalMs), ops).current == ceiling
  {
    ControllerFollowsLog(mode, ceiling, frameIntervalMs, ops);
    HealthReachesCeiling(ceiling, Log(Fresh(mode, ceiling, frameIntervalMs), ops), a, gap);
  }

  /** The verdict, without sorting: of the writes one in twenty waited, or was blocked, for more
      than a frame interval, or of the inputs one in ten was limited. */
  lemma CongestedIsCounting(s: State)
    requires s.frameIntervalMs >= 0.0
    ensures Congested(s) <==>
            || (s.samples != [] && 20 * CountAbove(QueueTimes(s.samples), s.frameIntervalMs) >= |s.samples|)
            || (s.samples != [] && 20 * CountAbove(BlockedTimes(s.samples), s.frameIntervalMs) >= |s.samples|)
            || (s.inputs != [] && 10 * |Filter((i: InputSample) => i.limited, s.inputs)| >= |s.inputs|)
  {
    hide P95, CountAbove;
    SameFilter(IsLimited(), (i: InputSample) => i.limited, s.inputs);
    if s.samples != [] {
      P95IsCount(QueueTimes(s.samples), s.frameIntervalMs);
      P95IsCount(BlockedTimes(s.samples), s.frameIntervalMs);
    } else {
      EmptyP95(QueueTimes(s.samples));
      EmptyP95(BlockedTimes(s.samples));
    }
  }

  lemma {:induction false} SameFilter<T>(p: T -> bool, q: T -> bool, s: seq<T>)
    requires forall x :: x in s ==> (p(x) <==> q(x))
    ensures Filter(p, s) == Filter(q, s)
  {
    if s == [] {
    } else {
      SameFilter(p, q, s[1..]);
    }
  }

  lemma EmptyP95(values: seq<real>)
    requires |values| == 0
    ensures P95(values) == 0.0
  {
  }
}
