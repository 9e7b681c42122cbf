# Typewriter banner: a verified model

The portfolio's hero banner uses a `TypewriterText` component. It shows a list
of entries one after another. It types each entry one character per timer
tick, pauses, erases it one character per tick, and moves to the next entry.
Once the last entry is fully typed it stops for good and calls its
`onComplete` callback.

This project models that component's state machine in Dafny and proves what
it does.

- `typewriter_state.dfy` (`TypewriterState`)
  - The component's four state cells (`currentTextIndex`, `currentText`,
    `isDeleting`, `isComplete`) as one `State` value.
  - The effect's case analysis, `Classify`, in the order the code tests it.
  - The update one tick leads to (`Step`).
  - The timer each branch schedules (`TimerOf`).
  - The invariant `Valid`:
    - the index is in range;
    - the shown text is a prefix of the current entry;
    - deleting happens only before the last entry;
    - completion happens only with the last entry shown in full.
  - One lemma per branch, stating exactly when the branch is taken and what it
    changes.
- `typewriter_progress.dfy` (`TypewriterProgress`)
  - Runs of `n` ticks (`Run`) and the transitions they take (`Trace`).
  - An exact account (`Remaining`, a `Tally` per transition kind) of the
    ticks still to come.
  - Proved from these:
    - The component terminates after exactly `Measure` ticks.
    - `onComplete` fires exactly once.
    - A complete component never changes again.
    - A whole run from mount types every character and erases every entry but
      the last.
    - The states the component can reach are exactly the `Valid` ones.
- `typewriter_text.dfy` (`TypewriterComponent`)
  - The component as a class whose four fields are overwritten by `Tick`, in
    the code's own branch order, with `substring` computed the same way.
  - `RunUntilComplete` stands in for the host: it fires every scheduled timer
    until the component stops. It is proved to take exactly `Measure` ticks
    and to call `onComplete` once.
- `typewriter_examples.dfy` (`TypewriterExamples`)
  - The hero banner's three entries from `src/components/HeroSection.tsx`.
  - Two small lists of entries, with their full runs.

A *tick* is one run of the effect together with the state update it leads to:
- for the character timers, the update made when the timer fires;
- for the pause, the `setIsDeleting(true)` made when the pause timer fires;
- for advancing and completing, the immediate update.

## Model

| member | source | states |
|---|---|---|
| TypewriterState.InitialValid | src/components/TypewriterText.tsx:19-27 | The mount state (index 0, empty text, typing, not complete) satisfies the invariant exactly when there is at least one entry, since `texts[0]` is read unguarded. |
| TypewriterState.StepValid | src/components/TypewriterText.tsx:24-56 | Every tick keeps the invariant, in particular that the shown text is a prefix of `texts[currentTextIndex]` and that the index stays in range. |
| TypewriterState.TypingTick | src/components/TypewriterText.tsx:47-53 | A typing tick happens if and only if the component is typing an entry not yet full; it appends exactly the next character of the entry, nothing else changing. |
| TypewriterState.DeletingTick | src/components/TypewriterText.tsx:41-53 | A deleting tick happens if and only if the component is deleting a non-empty text; it drops exactly the last character and keeps the index. |
| TypewriterState.PauseTick | src/components/TypewriterText.tsx:29-38 | The pause happens if and only if an entry that is not the last is fully typed; its only effect is to switch deleting on. |
| TypewriterState.AdvanceTick | src/components/TypewriterText.tsx:41-44 | Advancing happens if and only if the component is deleting with an empty text; it moves the index up by exactly one, still in range, and starts typing from the empty text. |
| TypewriterState.CompleteTick | src/components/TypewriterText.tsx:29-35 | Completion happens if and only if the last entry is fully typed while typing; it only sets the complete flag. |
| TypewriterState.StoppedTick | src/components/TypewriterText.tsx:25 | The effect returns at once if and only if the component is complete, and then nothing changes. |
| TypewriterState.CompleteIsLast | src/components/TypewriterText.tsx:29-34 | A complete component shows the last entry in full and is not deleting. |
| TypewriterState.TimerBranches | src/components/TypewriterText.tsx:29-53 | The half-speed timer is scheduled exactly while erasing. The full-speed timer is scheduled exactly while typing an unfinished entry. The pause delay is scheduled exactly before deleting. Otherwise no timer is scheduled. |
| TypewriterProgress.Later | src/components/TypewriterText.tsx:29-53 | The ticks owed by the entries still to come are never negative in any kind. |
| TypewriterProgress.Run | src/components/TypewriterText.tsx:24-56 | Any number of ticks from a state satisfying the invariant ends in a state satisfying it. |
| TypewriterProgress.Trace | src/components/TypewriterText.tsx:24-56 | The record of `n` ticks has one transition per tick. |
| TypewriterProgress.Unroll | src/components/TypewriterText.tsx:24-56 | A run of `n + 1` ticks is one tick followed by a run of `n`, both in its end state and in the transitions it records. |
| TypewriterProgress.StepConsumesOne | src/components/TypewriterText.tsx:29-53 | Every tick before completion uses up exactly one unit of the remaining account, of its own kind, so the measure drops by one. |
| TypewriterProgress.ConsumeAdvance | src/components/TypewriterText.tsx:41-44 | Advancing uses up exactly the advance owed by the current entry and starts the next entry's account. |
| TypewriterProgress.ConsumeTyping | src/components/TypewriterText.tsx:47-53 | A typing tick uses up exactly one of the characters still to type. |
| TypewriterProgress.ConsumeDeleting | src/components/TypewriterText.tsx:47-53 | A deleting tick uses up exactly one of the characters still to erase. |
| TypewriterProgress.MeasureZeroIffComplete | src/components/TypewriterText.tsx:25-35 | No ticks remain if and only if the component is complete. |
| TypewriterProgress.CompleteIsFinal | src/components/TypewriterText.tsx:25 | From a complete state any number of ticks changes nothing and takes no transition but the immediate return. |
| TypewriterProgress.RunAdditive | src/components/TypewriterText.tsx:24-56 | Running `a` ticks and then `b` more is running `a + b` ticks. |
| TypewriterProgress.RunLast | src/components/TypewriterText.tsx:24-56 | A run of `n + 1` ticks is a run of `n` followed by one tick. |
| TypewriterProgress.RunAccount | src/components/TypewriterText.tsx:24-56 | What `n` ticks took, added to what is left afterwards, is what was left before. |
| TypewriterProgress.TraceHead | src/components/TypewriterText.tsx:24-56 | The account of a run is its first transition's unit plus the account of the rest. |
| TypewriterProgress.RunMeasure | src/components/TypewriterText.tsx:24-56 | Up to completion, each tick lowers the measure by exactly one. |
| TypewriterProgress.Terminates | src/components/TypewriterText.tsx:24-56 | From any reachable state the component is complete after `n` ticks if and only if `n` is at least the measure: it terminates, not one tick early, and stays complete. |
| TypewriterProgress.LaterCompletions | src/components/TypewriterText.tsx:31-34 | Among the entries from any position on, only the last owes a completion. |
| TypewriterProgress.OnCompleteOnce | src/components/TypewriterText.tsx:31-34 | In a run from an unfinished state, `onComplete` fires exactly once if the run is at least the measure long, and never otherwise. |
| TypewriterProgress.LaterSums | src/components/TypewriterText.tsx:29-53 | The ticks owed from entry `j` on type every character of those entries and erase every character but the last entry's. They take one pause and one advance per entry before the last, and one completion. |
| TypewriterProgress.WholeRun | src/components/TypewriterText.tsx:19-56 | A run from mount completes after exactly `2·L − |last| + 2(k−1) + 1` ticks, for `L` total characters in `k` entries. It ends showing the last entry in full. Its ticks type all `L` characters, erase all but the last entry, pause and advance `k − 1` times, and complete once. |
| TypewriterProgress.Pred | src/components/TypewriterText.tsx:24-56 | Every state satisfying the invariant, other than the mount state, is reached in one tick from an unfinished state satisfying the invariant. |
| TypewriterProgress.MeasureBound | src/components/TypewriterText.tsx:24-56 | No state satisfying the invariant owes more ticks than the mount state. |
| TypewriterProgress.ValidIsReachable | src/components/TypewriterText.tsx:19-56 | Every state satisfying the invariant is the state after exactly `Measure(mount) − Measure(s)` ticks from mount. |
| TypewriterProgress.ReachableIffValid | src/components/TypewriterText.tsx:19-56 | The states reachable from mount are exactly the states satisfying the invariant. |
| TypewriterComponent.TypewriterText.constructor | src/components/TypewriterText.tsx:19-22 | Mounting with a non-empty list of entries gives index 0, empty text, typing, not complete, and the invariant holds. |
| TypewriterComponent.TypewriterText.Tick | src/components/TypewriterText.tsx:24-56 | One tick overwrites the four fields exactly as `Step` says, keeps the invariant, and reports the branch taken. `onComplete` is called exactly when that branch is `Complete`. |
| TypewriterComponent.TypewriterText.RunUntilComplete | src/components/TypewriterText.tsx:24-56 | Firing every scheduled timer until the component stops takes exactly `Measure` ticks. It calls `onComplete` once, or never if already complete, and ends showing the last entry in full. |
| TypewriterComponent.TickProgress | src/components/TypewriterText.tsx:24-56 | One host tick extends the run by one, lowers the measure by one, and completes the component exactly when it takes the `Complete` branch. |
| TypewriterExamples.HeroBannerRun | src/components/HeroSection.tsx:34-42 | The hero banner stops after exactly 129 ticks, showing "Analysis Ready". It types 69 characters, erases the 55 of the first two entries, pauses and advances twice, and completes once. It is still animating at every earlier tick. |
| TypewriterExamples.HeroLengths | src/components/HeroSection.tsx:35-39 | The hero entries have 29, 26 and 14 characters, the last being "Analysis Ready". |
| TypewriterExamples.ThreeEntries | src/components/TypewriterText.tsx:24-56 | Any three entries of 29, 26 and 14 characters take 129 ticks, with the same tally and no earlier completion. |
| TypewriterExamples.TwoEntries | src/components/TypewriterText.tsx:24-56 | For entries "A" and "B" the six ticks from mount type, pause, erase, advance, type and complete. The text shown after each is "A", "A", "", "", "B", "B". |
| TypewriterExamples.TwoEntriesTyping | src/components/TypewriterText.tsx:29-53 | For "A" and "B": the branch and result of each typing, pausing and completing tick. |
| TypewriterExamples.TwoEntriesErasing | src/components/TypewriterText.tsx:41-53 | For "A" and "B": the branch and result of the erasing and advancing ticks. |
| TypewriterExamples.TwoEntriesAfterwards | src/components/TypewriterText.tsx:25 | For "A" and "B": the last entry is never erased however many ticks follow, and no run erases more than one character. |
| TypewriterExamples.SingleEntry | src/components/TypewriterText.tsx:24-56 | A single entry "AB" is typed in two ticks and complete after the third. `onComplete` is called once in any longer run, and the state never changes again. |
| TypewriterExamples.SingleEntryRun | src/components/TypewriterText.tsx:24-56 | The three-tick run of the single entry "AB" ends complete, showing "AB". |
| TypewriterExamples.OneEntry | src/components/TypewriterText.tsx:24-56 | Any single entry of two characters completes after three ticks, showing that entry. |

## Left out

- Timer durations: milliseconds, the `speed` and `delayBetween` defaults (50 and 1500), and the possibly fractional `speed / 2`. The model records only which timer a branch schedules (`Timer`: after `speed`, after `speed / 2`, after `delayBetween`, none).
- The scheduler: timers firing, and the effect re-running after every state update. These are collapsed into one atomic tick.
  - React's dependency list and re-render mechanics are not modelled.
  - Unmount cleanup is not modelled.
  - Changes to the `texts`, `speed` or `delayBetween` props while the animation runs are not modelled: `texts` is fixed at mount.
- Cancellation: the cleanup at line 55 clears only the per-character timer. The pause timer scheduled at line 37 is never cleared. The model claims nothing about how many timers are pending, and it treats the pause as one atomic transition.
- The callback: `onComplete` is a call into the caller's code. The model represents each call by the `Complete` transition, which `Tick` reports and `RunUntilComplete` counts. In the hero banner the callback is absent, so the call does nothing there, while the complete flag is still set.
- Rendering (src/components/TypewriterText.tsx:58-69): the displayed span is the current text followed by a blinking cursor, which is presentation only.
- Characters are modelled as Dafny `char`s. JavaScript's `substring` counts UTF-16 code units, which agree with `char`s for the hero entries (all ASCII).
- The other components of the site: navigation, particles, contact form, content sections, footer and pages. They are static content or DOM/float/clock code.

## Notes on the model

- `substring(0, end)` is modelled as `SubstringTo`. It clamps the end bound into `[0, length]` as JavaScript does. With a start of 0 no swap of bounds can occur.
- The component's documentation speaks of one pending timer being cancelled between renders. The code does not cancel the pause timer (line 37 returns no cleanup), so the model follows the code and makes no such claim.
