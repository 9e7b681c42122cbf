/** Concrete runs of the typewriter: the hero banner of the portfolio page and
    two small sequences. */
module TypewriterExamples {
  import opened TypewriterState
  import opened TypewriterProgress

  /** The entries the hero banner cycles through. */
  function HeroTexts(): seq<string>
  {
    ["Initializing Data Pipeline...", "Loading Analyst Profile...", "Analysis Ready"]
  }

  /** The hero banner stops after 129 ticks showing "Analysis Ready": 69
      characters typed, the 55 characters of the first two entries erased, two
      pauses, two advances, one completion; it is still animating before that. */
  lemma HeroBannerRun(h: seq<string>)
    requires h == HeroTexts()
    ensures Valid(h, Initial())
    ensures Measure(h, Initial()) == 129
    ensures Run(h, Initial(), 129) == State(2, "Analysis Ready", false, true)
    ensures TallyOf(Trace(h, Initial(), 129)) == Tally(69, 55, 2, 2, 1)
    ensures forall n: nat :: n < 129 ==> !Run(h, Initial(), n).complete
  {
    HeroLengths(h);
    ThreeEntries(h);
  }

  /** The lengths of the three hero entries. */
  lemma HeroLengths(h: seq<string>)
    requires h == HeroTexts()
    ensures |h| == 3 && |h[0]| == 29 && |h[1]| == 26 && |h[2]| == 14
    ensures h[2] == "Analysis Ready"
  {
  }

  /** Any three entries of 29, 26 and 14 characters take 129 ticks, the last
      of which completes. */
  lemma ThreeEntries(h: seq<string>)
    requires |h| == 3 && |h[0]| == 29 && |h[1]| == 26 && |h[2]| == 14
    ensures Valid(h, Initial())
    ensures Measure(h, Initial()) == 129
    ensures Run(h, Initial(), Measure(h, Initial())) == State(2, h[2], false, true)
    ensures TallyOf(Trace(h, Initial(), Measure(h, Initial()))) == Tally(69, 55, 2, 2, 1)
    ensures forall n: nat :: n < Measure(h, Initial()) ==> !Run(h, Initial(), n).complete
  {
    assert SumLengths(h) == 69 by {
      assert h[1..][1..] == [h[2]] && [h[2]][1..] == [];
      assert SumLengths([h[2]]) == 14;
      assert SumLengths(h[1..]) == 40;
    }
    assert SumLengths(h[..2]) == 55 by {
      assert h[..2] == [h[0], h[1]] && [h[0], h[1]][1..] == [h[1]] && [h[1]][1..] == [];
      assert SumLengths([h[1]]) == 26;
    }
    WholeRun(h);
    forall n: nat | n < Measure(h, Initial())
      ensures !Run(h, Initial(), n).complete
    {
      Terminates(h, Initial(), n);
    }
  }

  /** Two one-letter entries: "" then "A", a pause, "" again, then "B" and stop. */
  lemma TwoEntries(ts: seq<string>)
    requires ts == ["A", "B"]
    ensures Valid(ts, Initial())
    ensures Trace(ts, Initial(), 6)
         == [TypeChar, StartDeleting, DeleteChar, Advance, TypeChar, Complete]
    ensures [Run(ts, Initial(), 1).text, Run(ts, Initial(), 2).text,
             Run(ts, Initial(), 3).text, Run(ts, Initial(), 4).text,
             Run(ts, Initial(), 5).text, Run(ts, Initial(), 6).text]
         == ["A", "A", "", "", "B", "B"]
    ensures Run(ts, Initial(), 6) == State(1, "B", false, true)
  {
    var s0 := Initial();
    var s1 := State(0, "A", false, false);
    var s2 := State(0, "A", true, false);
    var s3 := State(0, "", true, false);
    var s4 := State(1, "", false, false);
    var s5 := State(1, "B", false, false);
    var s6 := State(1, "B", false, true);
    TwoEntriesTyping(ts);
    TwoEntriesErasing(ts);
    Unroll(ts, s5, 0);
    Unroll(ts, s4, 1);
    Unroll(ts, s3, 2);
    Unroll(ts, s2, 3);
    Unroll(ts, s1, 4);
    Unroll(ts, s0, 5);
    RunLast(ts, s0, 0);
    RunLast(ts, s0, 1);
    RunLast(ts, s0, 2);
    RunLast(ts, s0, 3);
    RunLast(ts, s0, 4);
    RunLast(ts, s0, 5);
  }

  /** The ticks that type, for ["A", "B"]. */
  lemma TwoEntriesTyping(ts: seq<string>)
    requires ts == ["A", "B"]
    ensures Classify(ts, Initial()) == TypeChar
    ensures Step(ts, Initial()) == State(0, "A", false, false)
    ensures Classify(ts, State(0, "A", false, false)) == StartDeleting
    ensures Step(ts, State(0, "A", false, false)) == State(0, "A", true, false)
    ensures Classify(ts, State(1, "", false, false)) == TypeChar
    ensures Step(ts, State(1, "", false, false)) == State(1, "B", false, false)
    ensures Classify(ts, State(1, "B", false, false)) == Complete
    ensures Step(ts, State(1, "B", false, false)) == State(1, "B", false, true)
  {
  }

  /** The ticks that erase and advance, for ["A", "B"]. */
  lemma TwoEntriesErasing(ts: seq<string>)
    requires ts == ["A", "B"]
    ensures Classify(ts, State(0, "A", true, false)) == DeleteChar
    ensures Step(ts, State(0, "A", true, false)) == State(0, "", true, false)
    ensures Classify(ts, State(0, "", true, false)) == Advance
    ensures Step(ts, State(0, "", true, false)) == State(1, "", false, false)
  {
  }

  /** The last entry is never erased, however many more ticks follow, and no run
      erases more than the one character of the first entry. */
  lemma TwoEntriesAfterwards(ts: seq<string>, n: nat)
    requires ts == ["A", "B"]
    ensures Valid(ts, Initial())
    ensures Run(ts, Initial(), 6 + n) == State(1, "B", false, true)
    ensures TallyOf(Trace(ts, Initial(), n)).deleted <= 1
  {
    TwoEntries(ts);
    CompleteIsFinal(ts, State(1, "B", false, true), n);
    RunAdditive(ts, Initial(), 6, n);
    assert ts[1..] == ["B"] && ["B"][1..] == [] && ts[..1] == ["A"] && ["A"][1..] == [];
    assert SumLengths(ts[..1]) == 1;
    WholeRun(ts);
    RunAccount(ts, Initial(), n);
  }

  /** A single entry "AB": typed in two ticks, then complete after the third;
      `onComplete` is called once for any run of three ticks or more and the
      state never changes again. */
  lemma SingleEntry(ts: seq<string>, n: nat)
    requires ts == ["AB"]
    ensures Valid(ts, Initial())
    ensures Measure(ts, Initial()) == 3
    ensures Run(ts, Initial(), 3 + n) == State(0, "AB", false, true)
    ensures TallyOf(Trace(ts, Initial(), 3 + n)).completions == 1
  {
    SingleEntryRun(ts);
    CompleteIsFinal(ts, State(0, "AB", false, true), n);
    RunAdditive(ts, Initial(), 3, n);
    OnCompleteOnce(ts, Initial(), 3 + n);
  }

  /** The run of ["AB"] up to completion. */
  lemma SingleEntryRun(ts: seq<string>)
    requires ts == ["AB"]
    ensures Valid(ts, Initial())
    ensures Measure(ts, Initial()) == 3
    ensures Run(ts, Initial(), 3) == State(0, "AB", false, true)
  {
    OneEntry(ts);
  }

  /** Any single entry of two characters completes after three ticks. */
  lemma OneEntry(ts: seq<string>)
    requires |ts| == 1 && |ts[0]| == 2
    ensures Valid(ts, Initial())
    ensures Measure(ts, Initial()) == 3
    ensures Run(ts, Initial(), Measure(ts, Initial())) == State(0, ts[0], false, true)
  {
    assert ts[..0] == [];
    assert SumLengths(ts) == 2 by {
      assert ts[1..] == [];
    }
    WholeRun(ts);
  }
}
