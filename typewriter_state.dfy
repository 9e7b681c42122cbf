/** The state of the TypewriterText component and the case analysis its effect
    performs on every timer tick.

    The component holds four state cells (current index, shown text, deleting flag,
    complete flag).  Each run of the effect either stops at once (complete), fires
    the completion callback, schedules the pause before deleting, advances to the
    next entry, or schedules one character to be typed or erased.  A "tick" below
    is one run of the effect together with the state update it leads to. */
module TypewriterState {

  /** The four state cells: `currentTextIndex`, `currentText`, `isDeleting`, `isComplete`. */
  datatype State = State(index: nat, text: string, deleting: bool, complete: bool)

  /** The branch the effect takes. */
  datatype Transition =
    | TypeChar       // timer after `speed`: one more character of the target
    | StartDeleting  // timer after `delayBetween`: switch to deleting
    | DeleteChar     // timer after `speed / 2`: one character fewer
    | Advance        // immediate: stop deleting, move to the next entry
    | Complete       // immediate: set `isComplete`, call `onComplete`
    | Stopped        // the effect returns at once; nothing changes

  /** Which timer, if any, the effect schedules before the state changes. */
  datatype Timer = NoTimer | AfterDelayBetween | AfterSpeed | AfterHalfSpeed

  /** The state on mount: index 0, empty text, typing, not complete. */
  function Initial(): State
  {
    State(0, "", false, false)
  }

  /** JavaScript clamps a `substring` bound into `[0, length]`. */
  function Clamp(k: int, n: nat): nat
  {
    if k < 0 then 0 else if k > n then n else k
  }

  /** `s.substring(0, end)`: the end bound is clamped into `[0, |s|]`; with a start
      of 0 the bounds are never out of order, so no swap happens. */
  function SubstringTo(s: string, end: int): string
  {
    s[..Clamp(end, |s|)]
  }

  /** The effect reads `texts[currentTextIndex]` unless it is complete. */
  predicate CanTick(texts: seq<string>, s: State)
  {
    s.complete || s.index < |texts|
  }

  /** The invariant every state the component can reach satisfies: the index is
      in range, the shown text is a prefix of the current target, deleting only
      happens before the last entry, and completion only with the last entry
      fully typed. */
  predicate Valid(texts: seq<string>, s: State)
  {
    && |texts| > 0
    && s.index < |texts|
    && s.text <= texts[s.index]
    && (s.deleting ==> s.index < |texts| - 1)
    && (s.complete ==> !s.deleting && s.index == |texts| - 1 && s.text == texts[s.index])
  }

  /** The case analysis of the effect, in the order the code tests it. */
  function Classify(texts: seq<string>, s: State): Transition
    requires CanTick(texts, s)
  {
    if s.complete then Stopped
    else if !s.deleting && s.text == texts[s.index] then
      if s.index == |texts| - 1 then Complete else StartDeleting
    else if s.deleting && s.text == "" then Advance
    else if s.deleting then DeleteChar
    else TypeChar
  }

  /** The state after one tick.  Typing and deleting recompute the text from the
      target with `substring`, exactly as the code does. */
  function Step(texts: seq<string>, s: State): State
    requires CanTick(texts, s)
  {
    match Classify(texts, s)
    case Stopped => s
    case Complete => s.(complete := true)
    case StartDeleting => s.(deleting := true)
    case Advance => s.(deleting := false, index := s.index + 1)
    case DeleteChar => s.(text := SubstringTo(texts[s.index], |s.text| - 1))
    case TypeChar => s.(text := SubstringTo(texts[s.index], |s.text| + 1))
  }

  /** The timer the effect schedules for each branch. */
  function TimerOf(t: Transition): Timer
  {
    match t
    case TypeChar => AfterSpeed
    case DeleteChar => AfterHalfSpeed
    case StartDeleting => AfterDelayBetween
    case Advance => NoTimer
    case Complete => NoTimer
    case Stopped => NoTimer
  }

  /** Every tick keeps the invariant. */
  lemma StepValid(texts: seq<string>, s: State)
    requires Valid(texts, s)
    ensures Valid(texts, Step(texts, s))
  {
    var full := texts[s.index];
    assert full[..|s.text|] == s.text;
  }

  /** The initial state satisfies the invariant exactly when there is at least one entry. */
  lemma InitialValid(texts: seq<string>)
    ensures Valid(texts, Initial()) <==> |texts| > 0
  {
  }

  /** A typing tick happens exactly when typing an entry that is not yet full,
      and it appends the next character of the target, nothing else changing. */
  lemma TypingTick(texts: seq<string>, s: State)
    requires Valid(texts, s)
    ensures Classify(texts, s) == TypeChar <==>
              !s.complete && !s.deleting && |s.text| < |texts[s.index]|
    ensures Classify(texts, s) == TypeChar ==>
              Step(texts, s) == s.(text := s.text + [texts[s.index][|s.text|]])
  {
    var full := texts[s.index];
    if Classify(texts, s) == TypeChar {
      assert full[..|s.text|] == s.text;
      assert full[..|s.text| + 1] == s.text + [full[|s.text|]];
    }
    if !s.complete && !s.deleting && |s.text| < |full| {
      assert s.text != full;
    }
  }

  /** A deleting tick happens exactly when deleting a non-empty text; it drops the
      last character and keeps the index. */
  lemma DeletingTick(texts: seq<string>, s: State)
    requires Valid(texts, s)
    ensures Classify(texts, s) == DeleteChar <==> !s.complete && s.deleting && s.text != ""
    ensures Classify(texts, s) == DeleteChar ==>
              Step(texts, s) == s.(text := s.text[..|s.text| - 1])
  {
    var full := texts[s.index];
    if Classify(texts, s) == DeleteChar {
      assert full[..|s.text|] == s.text;
      assert full[..|s.text| - 1] == s.text[..|s.text| - 1];
    }
  }

  /** The pause: a fully typed entry that is not the last one only turns on
      deleting; index and text stay. */
  lemma PauseTick(texts: seq<string>, s: State)
    requires Valid(texts, s)
    ensures Classify(texts, s) == StartDeleting <==>
              !s.complete && !s.deleting && s.text == texts[s.index] && s.index < |texts| - 1
    ensures Classify(texts, s) == StartDeleting ==> Step(texts, s) == s.(deleting := true)
  {
  }

  /** Advancing: deleting with an empty text moves to the next entry, which is
      still in range, and starts typing it from the empty text. */
  lemma AdvanceTick(texts: seq<string>, s: State)
    requires Valid(texts, s)
    ensures Classify(texts, s) == Advance <==> !s.complete && s.deleting && s.text == ""
    ensures Classify(texts, s) == Advance ==>
              Step(texts, s) == State(s.index + 1, "", false, false) && s.index + 1 < |texts|
  {
  }

  /** Completion: the last entry fully typed while typing sets the complete flag
      and changes nothing else. */
  lemma CompleteTick(texts: seq<string>, s: State)
    requires Valid(texts, s)
    ensures Classify(texts, s) == Complete <==>
              !s.complete && !s.deleting && s.text == texts[s.index] && s.index == |texts| - 1
    ensures Classify(texts, s) == Complete ==> Step(texts, s) == s.(complete := true)
  {
  }

  /** Once complete, a tick changes nothing: there is no deletion after the last entry. */
  lemma StoppedTick(texts: seq<string>, s: State)
    requires CanTick(texts, s)
    ensures Classify(texts, s) == Stopped <==> s.complete
    ensures s.complete ==> Step(texts, s) == s
  {
  }

  /** A complete state shows the last entry in full, typing. */
  lemma CompleteIsLast(texts: seq<string>, s: State)
    requires Valid(texts, s) && s.complete
    ensures s == State(|texts| - 1, texts[|texts| - 1], false, true)
  {
  }

  /** The timer chosen in each reachable state: half speed exactly while erasing,
      full speed exactly while typing an unfinished entry, the pause delay exactly
      before deleting, and no timer otherwise. */
  lemma TimerBranches(texts: seq<string>, s: State)
    requires Valid(texts, s)
    ensures TimerOf(Classify(texts, s)) == AfterHalfSpeed <==>
              !s.complete && s.deleting && s.text != ""
    ensures TimerOf(Classify(texts, s)) == AfterSpeed <==>
              !s.complete && !s.deleting && |s.text| < |texts[s.index]|
    ensures TimerOf(Classify(texts, s)) == AfterDelayBetween <==>
              !s.complete && !s.deleting && s.text == texts[s.index] && s.index < |texts| - 1
    ensures TimerOf(Classify(texts, s)) == NoTimer <==>
              s.complete || (s.deleting && s.text == "") ||
              (!s.deleting && s.text == texts[s.index] && s.index == |texts| - 1)
  {
    TypingTick(texts, s);
  }
}
