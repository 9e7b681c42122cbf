/** Runs of the typewriter: repeated ticks from a state, the transitions they
    take, and the exact account of how many ticks of each kind remain before the
    component completes. */
module TypewriterProgress {
  import opened TypewriterState

  /** A count of transitions per kind; Stopped ticks are not counted. */
  datatype Tally = Tally(typed: int, deleted: int, pauses: int, advances: int, completions: int)
  {
    function Plus(o: Tally): Tally
    {
      Tally(typed + o.typed, deleted + o.deleted, pauses + o.pauses,
            advances + o.advances, completions + o.completions)
    }

    function Total(): int
    {
      typed + deleted + pauses + advances + completions
    }
  }

  /** No transitions at all. */
  function Zero(): Tally
  {
    Tally(0, 0, 0, 0, 0)
  }

  /** The tally of a single transition. */
  function Unit(t: Transition): Tally
  {
    match t
    case TypeChar => Tally(1, 0, 0, 0, 0)
    case DeleteChar => Tally(0, 1, 0, 0, 0)
    case StartDeleting => Tally(0, 0, 1, 0, 0)
    case Advance => Tally(0, 0, 0, 1, 0)
    case Complete => Tally(0, 0, 0, 0, 1)
    case Stopped => Zero()
  }

  /** The tally of a sequence of transitions. */
  function TallyOf(ts: seq<Transition>): Tally
  {
    if ts == [] then Zero() else Unit(ts[0]).Plus(TallyOf(ts[1..]))
  }

  /** What entry `k` costs from the moment typing it starts: type every character,
      then either complete (last entry) or pause, erase every character and advance. */
  function Fresh(texts: seq<string>, k: nat): Tally
    requires k < |texts|
  {
    if k == |texts| - 1 then Tally(|texts[k]|, 0, 0, 0, 1)
    else Tally(|texts[k]|, |texts[k]|, 1, 1, 0)
  }

  /** What the entries from `j` on cost together. */
  function Later(texts: seq<string>, j: nat): (r: Tally)
    ensures r.typed >= 0 && r.deleted >= 0 && r.pauses >= 0 && r.advances >= 0 && r.completions >= 0
    decreases |texts| - j
  {
    if j >= |texts| then Zero() else Fresh(texts, j).Plus(Later(texts, j + 1))
  }

  /** What is left of the current entry in state `s`. */
  function Current(texts: seq<string>, s: State): Tally
    requires Valid(texts, s)
  {
    var full := texts[s.index];
    if s.complete then Zero()
    else if s.deleting then Tally(0, |s.text|, 0, 1, 0)
    else if s.index == |texts| - 1 then Tally(|full| - |s.text|, 0, 0, 0, 1)
    else Tally(|full| - |s.text|, |full|, 1, 1, 0)
  }

  /** Every transition still to come from `s` before completion. */
  function Remaining(texts: seq<string>, s: State): Tally
    requires Valid(texts, s)
  {
    if s.complete then Zero() else Current(texts, s).Plus(Later(texts, s.index + 1))
  }

  /** The progress measure: the number of ticks still to come. */
  function Measure(texts: seq<string>, s: State): nat
    requires Valid(texts, s)
  {
    Remaining(texts, s).Total()
  }

  /** The state after `n` ticks from `s`. */
  function Run(texts: seq<string>, s: State, n: nat): (r: State)
    requires Valid(texts, s)
    ensures Valid(texts, r)
    decreases n
  {
    if n == 0 then s else StepValid(texts, s); Run(texts, Step(texts, s), n - 1)
  }

  /** The transitions taken by the first `n` ticks from `s`. */
  function Trace(texts: seq<string>, s: State, n: nat): (ts: seq<Transition>)
    requires Valid(texts, s)
    ensures |ts| == n
    decreases n
  {
    if n == 0 then [] else StepValid(texts, s); [Classify(texts, s)] + Trace(texts, Step(texts, s), n - 1)
  }

  /** One tick, then `n` more. */
  lemma Unroll(texts: seq<string>, s: State, n: nat)
    requires Valid(texts, s)
    ensures Valid(texts, Step(texts, s))
    ensures Run(texts, s, n + 1) == Run(texts, Step(texts, s), n)
    ensures Trace(texts, s, n + 1) == [Classify(texts, s)] + Trace(texts, Step(texts, s), n)
  {
    StepValid(texts, s);
  }

  /** Sum of the lengths of a list of entries. */
  function SumLengths(ts: seq<string>): nat
  {
    if ts == [] then 0 else |ts[0]| + SumLengths(ts[1..])
  }

  /** Every tick before completion uses up exactly one unit of the remaining
      tally, of its own kind. */
  lemma StepConsumesOne(texts: seq<string>, s: State)
    requires Valid(texts, s) && !s.complete
    ensures Valid(texts, Step(texts, s))
    ensures Remaining(texts, s) == Unit(Classify(texts, s)).Plus(Remaining(texts, Step(texts, s)))
    ensures Measure(texts, s) == Measure(texts, Step(texts, s)) + 1
  {
    StepValid(texts, s);
    match Classify(texts, s)
    case Advance => ConsumeAdvance(texts, s);
    case TypeChar => ConsumeTyping(texts, s);
    case DeleteChar => ConsumeDeleting(texts, s);
    case StartDeleting => PauseTick(texts, s);
    case Complete => CompleteTick(texts, s);
  }

  lemma ConsumeAdvance(texts: seq<string>, s: State)
    requires Valid(texts, s) && Classify(texts, s) == Advance
    ensures Valid(texts, Step(texts, s)) && Remaining(texts, s) == Unit(Advance).Plus(Remaining(texts, Step(texts, s)))
  {
    StepValid(texts, s);
    AdvanceTick(texts, s);
    var s' := State(s.index + 1, "", false, false);
    assert Current(texts, s') == Fresh(texts, s.index + 1);
    assert Later(texts, s.index + 1)
        == Fresh(texts, s.index + 1).Plus(Later(texts, s.index + 2));
  }

  lemma ConsumeTyping(texts: seq<string>, s: State)
    requires Valid(texts, s) && Classify(texts, s) == TypeChar
    ensures Valid(texts, Step(texts, s)) && Remaining(texts, s) == Unit(TypeChar).Plus(Remaining(texts, Step(texts, s)))
  {
    StepValid(texts, s);
    TypingTick(texts, s);
  }

  lemma ConsumeDeleting(texts: seq<string>, s: State)
    requires Valid(texts, s) && Classify(texts, s) == DeleteChar
    ensures Valid(texts, Step(texts, s)) && Remaining(texts, s) == Unit(DeleteChar).Plus(Remaining(texts, Step(texts, s)))
  {
    StepValid(texts, s);
    DeletingTick(texts, s);
  }

  /** The measure is zero exactly in the terminal state. */
  lemma MeasureZeroIffComplete(texts: seq<string>, s: State)
    requires Valid(texts, s)
    ensures Measure(texts, s) == 0 <==> s.complete
  {
  }

  /** A complete state stays as it is for any number of further ticks, and those
      ticks take only the Stopped branch. */
  lemma {:induction false} CompleteIsFinal(texts: seq<string>, s: State, n: nat)
    requires Valid(texts, s) && s.complete
    ensures Run(texts, s, n) == s
    ensures TallyOf(Trace(texts, s, n)) == Zero()
    decreases n
  {
    if n > 0 {
      StoppedTick(texts, s);
      var ts := Trace(texts, s, n);
      assert ts[0] == Stopped;
      assert ts[1..] == Trace(texts, s, n - 1);
      CompleteIsFinal(texts, s, n - 1);
      assert TallyOf(ts) == Unit(Stopped).Plus(TallyOf(ts[1..]));
    }
  }

  /** Running `a` ticks and then `b` more is running `a + b` ticks. */
  lemma {:induction false} RunAdditive(texts: seq<string>, s: State, a: nat, b: nat)
    requires Valid(texts, s)
    ensures Run(texts, Run(texts, s, a), b) == Run(texts, s, a + b)
    decreases a
  {
    if a > 0 {
      StepValid(texts, s);
      RunAdditive(texts, Step(texts, s), a - 1, b);
    }
  }

  /** One more tick at the end of a run. */
  lemma {:induction false} RunLast(texts: seq<string>, s: State, n: nat)
    requires Valid(texts, s)
    ensures Run(texts, s, n + 1) == Step(texts, Run(texts, s, n))
    decreases n
  {
    if n > 0 {
      StepValid(texts, s);
      RunLast(texts, Step(texts, s), n - 1);
    }
  }

  /** The accounting identity: what `n` ticks took plus what is then left is
      what was left before. */
  lemma {:induction false} RunAccount(texts: seq<string>, s: State, n: nat)
    requires Valid(texts, s)
    ensures TallyOf(Trace(texts, s, n)).Plus(Remaining(texts, Run(texts, s, n)))
         == Remaining(texts, s)
    decreases n
  {
    if n > 0 {
      StepValid(texts, s);
      var s' := Step(texts, s);
      RunAccount(texts, s', n - 1);
      TraceHead(texts, s, n);
      PlusAssoc(Unit(Classify(texts, s)), TallyOf(Trace(texts, s', n - 1)),
                Remaining(texts, Run(texts, s', n - 1)));
      if s.complete {
        StoppedTick(texts, s);
      } else {
        StepConsumesOne(texts, s);
      }
    }
  }

  /** The first tick of a run, separated from the rest. */
  lemma TraceHead(texts: seq<string>, s: State, n: nat)
    requires Valid(texts, s) && n > 0
    ensures Valid(texts, Step(texts, s))
    ensures TallyOf(Trace(texts, s, n))
         == Unit(Classify(texts, s)).Plus(TallyOf(Trace(texts, Step(texts, s), n - 1)))
    ensures Run(texts, s, n) == Run(texts, Step(texts, s), n - 1)
  {
    StepValid(texts, s);
    var ts := Trace(texts, s, n);
    assert ts[1..] == Trace(texts, Step(texts, s), n - 1);
  }

  lemma PlusAssoc(a: Tally, b: Tally, c: Tally)
    ensures a.Plus(b).Plus(c) == a.Plus(b.Plus(c))
  {
  }

  /** Each tick lowers the measure by one until it reaches zero. */
  lemma {:induction false} RunMeasure(texts: seq<string>, s: State, n: nat)
    requires Valid(texts, s) && n <= Measure(texts, s)
    ensures Measure(texts, Run(texts, s, n)) == Measure(texts, s) - n
    decreases n
  {
    if n > 0 {
      MeasureZeroIffComplete(texts, s);
      StepConsumesOne(texts, s);
      RunMeasure(texts, Step(texts, s), n - 1);
    }
  }

  /** Termination: from any reachable state the component is complete after
      exactly `Measure` ticks, and not one tick earlier; it stays complete after. */
  lemma Terminates(texts: seq<string>, s: State, n: nat)
    requires Valid(texts, s)
    ensures Run(texts, s, n).complete <==> n >= Measure(texts, s)
  {
    var m := Measure(texts, s);
    if n <= m {
      RunMeasure(texts, s, n);
      MeasureZeroIffComplete(texts, Run(texts, s, n));
    } else {
      RunMeasure(texts, s, m);
      MeasureZeroIffComplete(texts, Run(texts, s, m));
      CompleteIsFinal(texts, Run(texts, s, m), n - m);
      RunAdditive(texts, s, m, n - m);
    }
  }

  /** Only the last entry owes a completion. */
  lemma {:induction false} LaterCompletions(texts: seq<string>, j: nat)
    ensures Later(texts, j).completions == if j < |texts| then 1 else 0
    decreases |texts| - j
  {
    if j < |texts| {
      LaterCompletions(texts, j + 1);
    }
  }

  /** `onComplete` is called exactly once in any run long enough to finish, never
      before, and never a second time however long the run. */
  lemma OnCompleteOnce(texts: seq<string>, s: State, n: nat)
    requires Valid(texts, s) && !s.complete
    ensures TallyOf(Trace(texts, s, n)).completions == if n >= Measure(texts, s) then 1 else 0
  {
    RunAccount(texts, s, n);
    Terminates(texts, s, n);
    LaterCompletions(texts, s.index + 1);
    var r := Run(texts, s, n);
    if !r.complete {
      LaterCompletions(texts, r.index + 1);
    }
  }

  /** The cost of the entries from `j` on, in terms of their lengths: every
      character typed, every character but the last entry's erased, one pause
      and one advance per entry before the last, one completion. */
  lemma {:induction false} LaterSums(texts: seq<string>, j: nat)
    requires j < |texts|
    ensures Later(texts, j) == Tally(SumLengths(texts[j..]), SumLengths(texts[j..|texts| - 1]),
                                     |texts| - 1 - j, |texts| - 1 - j, 1)
    decreases |texts| - j
  {
    assert texts[j..][1..] == texts[j + 1..];
    if j == |texts| - 1 {
      assert texts[j + 1..] == [];
      assert texts[j..|texts| - 1] == [];
    } else {
      LaterSums(texts, j + 1);
      assert texts[j..|texts| - 1][1..] == texts[j + 1..|texts| - 1];
    }
  }

  /** A whole run from mount: it completes after exactly `Measure(Initial())` ticks,
      showing the last entry in full; those ticks type every character of every
      entry, erase every entry but the last, pause and advance once per entry but
      the last, and complete once. */
  lemma WholeRun(texts: seq<string>)
    requires |texts| > 0
    ensures Valid(texts, Initial())
    ensures Measure(texts, Initial())
         == 2 * SumLengths(texts) - |texts[|texts| - 1]| + 2 * (|texts| - 1) + 1
    ensures Run(texts, Initial(), Measure(texts, Initial()))
         == State(|texts| - 1, texts[|texts| - 1], false, true)
    ensures Remaining(texts, Initial())
         == Tally(SumLengths(texts), SumLengths(texts[..|texts| - 1]), |texts| - 1, |texts| - 1, 1)
    ensures TallyOf(Trace(texts, Initial(), Measure(texts, Initial())))
         == Remaining(texts, Initial())
  {
    var s := Initial();
    var m := Measure(texts, s);
    LaterSums(texts, 0);
    assert texts[0..] == texts;
    assert texts[0..|texts| - 1] == texts[..|texts| - 1];
    assert Remaining(texts, s) == Later(texts, 0);
    SumLengthsSplit(texts);
    Terminates(texts, s, m);
    RunAccount(texts, s, m);
  }

  /** The lengths of all entries are those of all but the last plus the last. */
  lemma {:induction false} SumLengthsSplit(ts: seq<string>)
    requires |ts| > 0
    ensures SumLengths(ts) == SumLengths(ts[..|ts| - 1]) + |ts[|ts| - 1]|
  {
    if |ts| > 1 {
      assert ts[1..][..|ts| - 2] == ts[..|ts| - 1][1..];
      SumLengthsSplit(ts[1..]);
    } else {
      assert ts[1..] == [];
      assert ts[..0] == [];
    }
  }

  /** The state one tick before `s` on the run from mount. */
  function Pred(texts: seq<string>, s: State): (p: State)
    requires Valid(texts, s) && s != Initial()
    ensures Valid(texts, p) && !p.complete
    ensures Step(texts, p) == s
  {
    var full := texts[s.index];
    if s.complete then
      s.(complete := false)
    else if !s.deleting && s.text != "" then
      var p := s.(text := s.text[..|s.text| - 1]);
      assert full[..|s.text|] == s.text;
      TypingTick(texts, p);
      p
    else if !s.deleting then
      State(s.index - 1, "", true, false)
    else if s.text == full then
      s.(deleting := false)
    else
      var p := s.(text := full[..|s.text| + 1]);
      assert full[..|s.text|] == s.text;
      DeletingTick(texts, p);
      p
  }

  /** Later entries never cost more than earlier starting points. */
  lemma {:induction false} LaterShrinks(texts: seq<string>, i: nat, j: nat)
    requires i <= j
    ensures Later(texts, j).Total() <= Later(texts, i).Total()
    decreases j - i
  {
    if i < j {
      LaterShrinks(texts, i + 1, j);
    }
  }

  /** No reachable state owes more ticks than the state on mount. */
  lemma MeasureBound(texts: seq<string>, s: State)
    requires Valid(texts, s)
    ensures Measure(texts, s) <= Measure(texts, Initial())
  {
    InitialValid(texts);
    assert Remaining(texts, Initial()) == Later(texts, 0);
    assert Measure(texts, s) <= Later(texts, s.index).Total();
    LaterShrinks(texts, 0, s.index);
  }

  /** Every state satisfying the invariant is shown at some point: it is the
      state after exactly `Measure(Initial()) - Measure(s)` ticks from mount. */
  lemma {:induction false} ValidIsReachable(texts: seq<string>, s: State)
    requires Valid(texts, s)
    ensures Valid(texts, Initial()) && Measure(texts, s) <= Measure(texts, Initial())
    ensures Run(texts, Initial(), Measure(texts, Initial()) - Measure(texts, s)) == s
    decreases Measure(texts, Initial()) - Measure(texts, s)
  {
    InitialValid(texts);
    MeasureBound(texts, s);
    if s != Initial() {
      var p := Pred(texts, s);
      StepConsumesOne(texts, p);
      MeasureBound(texts, p);
      ValidIsReachable(texts, p);
      var k := Measure(texts, Initial()) - Measure(texts, p);
      RunLast(texts, Initial(), k);
    }
  }

  /** The states the component can ever be in are exactly those satisfying the
      invariant. */
  lemma ReachableIffValid(texts: seq<string>, s: State)
    requires |texts| > 0
    ensures Valid(texts, Initial())
    ensures (exists n: nat :: Run(texts, Initial(), n) == s) <==> Valid(texts, s)
  {
    InitialValid(texts);
    if Valid(texts, s) {
      ValidIsReachable(texts, s);
    }
  }
}
