/** The TypewriterText component as an object: its four state cells are fields
    that each tick overwrites, as the code's `set...` calls do. */
module TypewriterComponent {
  import opened TypewriterState
  import opened TypewriterProgress

  class TypewriterText {
    /** The entries to show; never changed after mount. */
    const texts: seq<string>

    var currentTextIndex: nat
    var currentText: string
    var isDeleting: bool
    var isComplete: bool

    /** The four cells as one value. */
    function Snapshot(): State
      reads this
    {
      State(currentTextIndex, currentText, isDeleting, isComplete)
    }

    ghost predicate Valid()
      reads this
    {
      TypewriterState.Valid(texts, Snapshot())
    }

    /** Mount: the caller must supply at least one entry, since the first tick
        reads `texts[0]` unguarded. */
    constructor (texts: seq<string>)
      requires |texts| > 0
      ensures this.texts == texts
      ensures Snapshot() == Initial()
      ensures Valid()
    {
      this.texts := texts;
      currentTextIndex := 0;
      currentText := "";
      isDeleting := false;
      isComplete := false;
    }

    /** One run of the effect and the update it leads to.  The result says which
        branch was taken; `onComplete` is called exactly when it is `Complete`. */
    method Tick() returns (t: Transition)
      requires Valid()
      modifies this
      ensures Valid()
      ensures t == Classify(texts, old(Snapshot()))
      ensures Snapshot() == Step(texts, old(Snapshot()))
    {
      if isComplete {
        return Stopped;
      }
      var fullText := texts[currentTextIndex];
      if !isDeleting && currentText == fullText {
        if currentTextIndex == |texts| - 1 {
          isComplete := true;
          return Complete;
        }
        isDeleting := true;
        return StartDeleting;
      }
      if isDeleting && currentText == "" {
        isDeleting := false;
        currentTextIndex := currentTextIndex + 1;
        return Advance;
      }
      if isDeleting {
        currentText := SubstringTo(fullText, |currentText| - 1);
        t := DeleteChar;
      } else {
        currentText := SubstringTo(fullText, |currentText| + 1);
        t := TypeChar;
      }
    }

    /** The host firing every scheduled timer until the component stops: it
        takes exactly `Measure` ticks, calls `onComplete` once (none if already
        complete) and ends showing the last entry in full. */
    method RunUntilComplete() returns (ticks: nat, calls: nat)
      requires Valid()
      modifies this
      ensures Valid()
      ensures Snapshot() == State(|texts| - 1, texts[|texts| - 1], false, true)
      ensures ticks == Measure(texts, old(Snapshot()))
      ensures Snapshot() == Run(texts, old(Snapshot()), ticks)
      ensures calls == if old(isComplete) then 0 else 1
    {
      ghost var s0 := Snapshot();
      ticks, calls := 0, 0;
      if isComplete {
        MeasureZeroIffComplete(texts, s0);
        CompleteIsLast(texts, s0);
        return;
      }
      while !isComplete
        invariant Valid()
        invariant Snapshot() == Run(texts, s0, ticks)
        invariant ticks + Measure(texts, Snapshot()) == Measure(texts, s0)
        invariant calls == if isComplete then 1 else 0
        decreases Measure(texts, Snapshot())
      {
        ghost var before := Snapshot();
        TickProgress(texts, s0, ticks, before);
        var t := Tick();
        if t == Complete {
          calls := calls + 1;
        }
        ticks := ticks + 1;
      }
      MeasureZeroIffComplete(texts, Snapshot());
      CompleteIsLast(texts, Snapshot());
    }
  }

  /** What one tick of the host loop does to the account of a run. */
  lemma TickProgress(texts: seq<string>, s0: State, k: nat, s: State)
    requires Valid(texts, s0) && Valid(texts, s) && !s.complete
    requires Run(texts, s0, k) == s
    ensures Run(texts, s0, k + 1) == Step(texts, s)
    ensures Measure(texts, Step(texts, s)) + 1 == Measure(texts, s)
    ensures Step(texts, s).complete <==> Classify(texts, s) == Complete
  {
    StepConsumesOne(texts, s);
    CompleteTick(texts, s);
    RunLast(texts, s0, k);
  }
}
