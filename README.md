# Heatmap view of juxta-ws, modelled in Dafny

`HeatmapView` renders the heatmap of a comparison set. Its base text is marked up with the places where the other witnesses differ from it. This project models the three parts of it that carry logic of their own.

- **The change-list builder** (`generateHeatmapChangelist`, with `SetWitness.addDiffLen`).
  - Witness by witness, it reads the pairwise alignments with the base in batches.
  - It creates one `Change` per base range it has not seen yet and records the differing witness on it.
  - It adds the longer side of each difference to that witness's total.
  - Then it sorts the list and walks it with a `prior` change. The walk widens empty ranges, drops overlapping changes and merges neighbours that agree. Finally it widens a still-empty last change.
  - Modules: `Changes`, `Alignments`, `ChangeSort` and `ChangeList` hold the reference definitions and their properties. `ChangeListBuilder` holds the imperative code, proved equal to them.
  - Changes are shared objects in the Java code: the map, the list and `prior` alias them. Here they live in a store keyed by their creation index, and the map, the list and `prior` hold indices. An update made through one of them is therefore seen through the others.
  - Two consequences of the code are reproduced. A change removed for overlap becomes `prior`, so later merges go into a change that is no longer in the list. `changeMap` keeps pointing at removed and merged-away changes.
- **The streaming renderer** (module `Render`).
  - It reads the base text character by character.
  - While any of the four injectors has content at the position, it runs rounds of start calls (revision, page break, note, change) and end calls in reverse order.
  - It escapes every other character onto the current line. Each newline and the end of the text close the line with `<br/>`.
- **The request side** (module `Tasks`).
  - The witness filter list.
  - The task id built with Java `int` arithmetic and `Long`/`Boolean` hash codes.
  - What `toHtml` does before the cache lookup and on a cache miss.

`Wrappers` holds `Option` and `Result`.

Parameters of the model stand for everything outside the core:
- the alignment source (`Context.pairs`, in order) and its offset/limit batching;
- `annotationDao.findNextTokenStart` (`Context.nextTokenStart`);
- the base text length;
- the witnesses of the set;
- the injectors;
- `StringEscapeUtils.escapeHtml` (`escape`);
- `addTrailingNotes`;
- the cache lookup;
- the visualization key.

## Model

| member | source | states |
|---|---|---|
| Changes.Widen | juxta-ws/src/main/java/org/juxtasoftware/resource/heatmap/HeatmapView.java:434-441 | a zero-length prior gets length 1: `[0,1)` when it starts at 0, else `[t,t+1)` at the next token start `t` |
| Changes.AddWitness | juxta-ws/src/main/java/org/juxtasoftware/resource/heatmap/HeatmapView.java:419 | `change.addWitness` adds the witness and keeps index, range and group |
| Changes.Merge | juxta-ws/src/main/java/org/juxtasoftware/resource/heatmap/HeatmapView.java:459 | `prior.mergeChange(change)`: prior keeps its index and group, gains the other's witnesses, and its range becomes the smallest cover of both (assumed definition) |
| Changes.Mergeable | juxta-ws/src/main/java/org/juxtasoftware/resource/heatmap/HeatmapView.java:457-458 | the merge test: the current change has prior's group, its witnesses and its frequency (no contract) |
| Changes.Before | juxta-ws/src/main/java/org/juxtasoftware/resource/heatmap/HeatmapView.java:424 | the comparator used by the sort: start offset, then creation index (assumed definition, no contract) |
| Alignments.WitnessAnnotation | juxta-ws/src/main/java/org/juxtasoftware/resource/heatmap/HeatmapView.java:387 | found exactly when some annotation is on the witness, and the one found is on it |
| Alignments.WitnessAnnotationFirst | juxta-ws/src/main/java/org/juxtasoftware/resource/heatmap/HeatmapView.java:387 | the annotation found is the first one on the witness: every annotation before it is on another witness |
| Alignments.Counterpart | juxta-ws/src/main/java/org/juxtasoftware/resource/heatmap/HeatmapView.java:399-407 | found exactly when some annotation is not on the base, and the one found is among the annotations and not on the base |
| Alignments.CounterpartFirst | juxta-ws/src/main/java/org/juxtasoftware/resource/heatmap/HeatmapView.java:399-407 | the annotation found is the first one not on the base: every annotation before it is on the base |
| Alignments.Batch | juxta-ws/src/main/java/org/juxtasoftware/resource/heatmap/HeatmapView.java:490-497 | a results range returns at most `limit` alignments, the consecutive ones from `offset`; a short batch reaches the end of the list |
| Alignments.BatchesFrom | juxta-ws/src/main/java/org/juxtasoftware/resource/heatmap/HeatmapView.java:372-381 | the batch loop requests at least one batch, the first being the results range at the starting offset; every batch but the last is full and the last is short |
| Alignments.BatchesCover | juxta-ws/src/main/java/org/juxtasoftware/resource/heatmap/HeatmapView.java:372-381 | requesting offsets 0, b, 2b, … until the first short batch reads every alignment exactly once, in order |
| ChangeSort.Sort | juxta-ws/src/main/java/org/juxtasoftware/resource/heatmap/HeatmapView.java:424 | `Collections.sort(changes)` yields a sorted permutation of the list |
| ChangeSort.SortedUnique | juxta-ws/src/main/java/org/juxtasoftware/resource/heatmap/HeatmapView.java:424 | two sorted lists with the same elements are equal, so every sorting algorithm gives the same list |
| ChangeSort.SortDistinct | juxta-ws/src/main/java/org/juxtasoftware/resource/heatmap/HeatmapView.java:424 | sorting keeps every change in the list once |
| ChangeSort.BeforeTotal | juxta-ws/src/main/java/org/juxtasoftware/resource/heatmap/HeatmapView.java:424 | any two distinct changes are ordered one way or the other |
| ChangeList.AlignmentDiff | juxta-ws/src/main/java/org/juxtasoftware/resource/heatmap/HeatmapView.java:408-416 | an alignment with a filtered witness adds 0; otherwise it adds the larger of the base and witness range lengths |
| ChangeList.DiffSumNonNegative | juxta-ws/src/main/java/org/juxtasoftware/resource/heatmap/HeatmapView.java:525-527 | what a witness's alignments add to its total is never negative, so the total never decreases |
| ChangeList.DiffSumAppend | juxta-ws/src/main/java/org/juxtasoftware/resource/heatmap/HeatmapView.java:383-420 | the added difference length of consecutive runs of alignments is the sum of theirs |
| ChangeList.LookupOrCreate | juxta-ws/src/main/java/org/juxtasoftware/resource/heatmap/HeatmapView.java:390-395 | a known range yields its stored change and nothing changes; a new range gets a fresh change numbered by the counter, filed in `changeMap` and appended to the list |
| ChangeList.RecordWitness | juxta-ws/src/main/java/org/juxtasoftware/resource/heatmap/HeatmapView.java:408-419 | a filtered witness leaves everything alone; otherwise only the change gains the witness |
| ChangeList.FoldAlignment | juxta-ws/src/main/java/org/juxtasoftware/resource/heatmap/HeatmapView.java:385-420 | one alignment adds its base range to `changeMap` keys, keeps every existing entry, and appends to the list and counter only for a new range |
| ChangeList.FoldAlignmentDedup | juxta-ws/src/main/java/org/juxtasoftware/resource/heatmap/HeatmapView.java:390-395 | a change is created, numbered from the counter and appended only the first time its exact range is seen; later alignments with that range change neither the list, the counter nor the map |
| ChangeList.FoldAlignmentWitness | juxta-ws/src/main/java/org/juxtasoftware/resource/heatmap/HeatmapView.java:397-419 | a filtered counterpart adds no witness to the range's change; otherwise that change gains the counterpart's witness and keeps its range; no other change is touched |
| ChangeList.FoldAlignmentValid | juxta-ws/src/main/java/org/juxtasoftware/resource/heatmap/HeatmapView.java:383-420 | folding an alignment keeps the builder invariant `Valid`: changes numbered 0..n-1, one map range per change, the list duplicate-free and empty only before the first change, only admitted witnesses |
| ChangeList.FoldAll | juxta-ws/src/main/java/org/juxtasoftware/resource/heatmap/HeatmapView.java:383-420 | the alignment loop: `FoldAlignment` applied to the alignments in order (no contract; its properties are the `FoldAll…` lemmas) |
| ChangeList.FoldAllValid | juxta-ws/src/main/java/org/juxtasoftware/resource/heatmap/HeatmapView.java:383-420 | folding any run of alignments keeps `Valid` |
| ChangeList.FoldAllKeys | juxta-ws/src/main/java/org/juxtasoftware/resource/heatmap/HeatmapView.java:390-395 | after a run of alignments `changeMap` holds the old ranges plus the base ranges read, and the old entries are unchanged |
| ChangeList.FoldAllCreates | juxta-ws/src/main/java/org/juxtasoftware/resource/heatmap/HeatmapView.java:360 | the counter grows by the number of new ranges |
| ChangeList.FoldAllAppends | juxta-ws/src/main/java/org/juxtasoftware/resource/heatmap/HeatmapView.java:394 | the fold only appends to the list, and the list is empty exactly when it was empty and nothing was read |
| ChangeList.FoldAllAppend | juxta-ws/src/main/java/org/juxtasoftware/resource/heatmap/HeatmapView.java:374-383 | folding two runs one after the other is folding their concatenation (batching does not matter) |
| ChangeList.WidenedPrior | juxta-ws/src/main/java/org/juxtasoftware/resource/heatmap/HeatmapView.java:434-441 | a prior with a non-empty range is unchanged; an empty one is widened by `Widen`; identity, group and witnesses stay |
| ChangeList.Overlaps | juxta-ws/src/main/java/org/juxtasoftware/resource/heatmap/HeatmapView.java:445 | the overlap test, made only for a prior that was empty and has just been widened: the current change starts at or before the widened prior (no contract) |
| ChangeList.WalkStep | juxta-ws/src/main/java/org/juxtasoftware/resource/heatmap/HeatmapView.java:430-465 | one iteration of the walk (no contract; `StepDecision`, `StepFrame` and `StepAdmitted` state its properties) |
| ChangeList.StepDecision | juxta-ws/src/main/java/org/juxtasoftware/resource/heatmap/HeatmapView.java:443-465 | the current change stays in the list exactly when it neither overlaps the widened prior nor can be merged into it; a merge puts `Merge(prior, current)` in prior's place and keeps prior; otherwise prior is the widened one and the current change becomes prior |
| ChangeList.StepFrame | juxta-ws/src/main/java/org/juxtasoftware/resource/heatmap/HeatmapView.java:429-466 | a step changes no change but prior, keeps all indices, without prior just keeps the current change; the list only grows by the current change and prior becomes it or stays |
| ChangeList.WalkAll | juxta-ws/src/main/java/org/juxtasoftware/resource/heatmap/HeatmapView.java:428-466 | the walk keeps the store's changes and their indices; the kept list is a duplicate-free selection of the sorted list starting with its first change; prior is null only for an empty list and is otherwise one of its changes |
| ChangeList.WalkAdmitted | juxta-ws/src/main/java/org/juxtasoftware/resource/heatmap/HeatmapView.java:457-460 | widening and merging record no witness that the filter excludes |
| ChangeList.StepAdmitted | juxta-ws/src/main/java/org/juxtasoftware/resource/heatmap/HeatmapView.java:457-460 | one step records no excluded witness |
| ChangeList.FinalStep | juxta-ws/src/main/java/org/juxtasoftware/resource/heatmap/HeatmapView.java:468-483 | a non-empty last prior is unchanged; an empty one before the text end becomes `[t,t+1)` for the next token start `t` (both branches agree); one at or past the end and after 0 becomes `[start-1,start)`; one at 0 stays empty |
| ChangeList.Pass | juxta-ws/src/main/java/org/juxtasoftware/resource/heatmap/HeatmapView.java:372-483 | a witness pass crashes on a null prior exactly when no change exists and the witness has no alignment; otherwise it keeps `Valid`, and `changeMap` and counter are those of the fold |
| ChangeList.AssembleValid | juxta-ws/src/main/java/org/juxtasoftware/resource/heatmap/HeatmapView.java:424-483 | sort, walk and final widening keep `Valid` |
| ChangeList.BuildFrom | juxta-ws/src/main/java/org/juxtasoftware/resource/heatmap/HeatmapView.java:366-484 | the outer witness loop skips the base, runs a pass for every other witness in turn, stops at the first crash, and keeps `Valid` |
| ChangeList.PassGrows | juxta-ws/src/main/java/org/juxtasoftware/resource/heatmap/HeatmapView.java:390-395 | after a pass `changeMap` holds every range ever seen, with the old entries kept even for removed or merged-away changes; the counter counts the ranges; the list is non-empty |
| ChangeList.BuildNextIndex | juxta-ws/src/main/java/org/juxtasoftware/resource/heatmap/HeatmapView.java:366-369 | after a run of witnesses no change exists exactly when all of them were the base |
| ChangeList.CrashIff | juxta-ws/src/main/java/org/juxtasoftware/resource/heatmap/HeatmapView.java:469 | the builder fails exactly when the first witness that is not the base has no alignment |
| ChangeList.FailureSticks | juxta-ws/src/main/java/org/juxtasoftware/resource/heatmap/HeatmapView.java:469 | once the builder has failed, more witnesses do not undo it |
| ChangeList.ChangeListCrash | juxta-ws/src/main/java/org/juxtasoftware/resource/heatmap/HeatmapView.java:469 | `generateHeatmapChangelist` fails exactly when the first non-base witness has no alignment |
| ChangeList.ChangesOf | juxta-ws/src/main/java/org/juxtasoftware/resource/heatmap/HeatmapView.java:487 | the result lists the changes the list refers to, in list order |
| ChangeList.ChangeListSpec | juxta-ws/src/main/java/org/juxtasoftware/resource/heatmap/HeatmapView.java:357-488 | the returned list, or the crash (no contract; `ChangeListCrash` and `ChangeListVisible` state its properties) |
| ChangeList.ChangeListVisible | juxta-ws/src/main/java/org/juxtasoftware/resource/heatmap/HeatmapView.java:434-483 | for a non-empty base text, every change of the returned list has a range of positive length |
| ChangeList.OverlapLosesChange | juxta-ws/src/main/java/org/juxtasoftware/resource/heatmap/HeatmapView.java:443-450 | a run whose second walk removes the non-empty change of witness 2 in the overlap branch: the list returned names witness 2 nowhere, and its two changes could have been merged |
| ChangeList.WalkLosesChange | juxta-ws/src/main/java/org/juxtasoftware/resource/heatmap/HeatmapView.java:443-450 | the same walk leaves a non-empty change covered by no change it keeps |
| ChangeList.WalkCanUnsort | juxta-ws/src/main/java/org/juxtasoftware/resource/heatmap/HeatmapView.java:428-466 | from a list sorted by start, the walk can return a change starting at 5 before one starting at 3: an insertion point at 3 is widened to [5,6) by the next token start, and a change at 3 in another group is kept after it |
| ChangeList.CorrectedWalkAll | juxta-ws/src/main/java/org/juxtasoftware/resource/heatmap/HeatmapView.java:428-466 | the walk with the overlap branch removing the widened prior: prior is null only for an empty list and is otherwise the last change kept |
| ChangeList.CorrectedKeepsNonEmpty | juxta-ws/src/main/java/org/juxtasoftware/resource/heatmap/HeatmapView.java:443-450 | with that correction every non-empty change of the sorted list is covered, range and witnesses, by a change the walk keeps |
| ChangeListBuilder.SetWitness.constructor | juxta-ws/src/main/java/org/juxtasoftware/resource/heatmap/HeatmapView.java:519-524 | a new set witness has total 0 and the given id, base length and base flag |
| ChangeListBuilder.SetWitness.AddDiffLen | juxta-ws/src/main/java/org/juxtasoftware/resource/heatmap/HeatmapView.java:525-527 | the total grows by the given length |
| ChangeListBuilder.FindCounterpart | juxta-ws/src/main/java/org/juxtasoftware/resource/heatmap/HeatmapView.java:399-407 | the search loop returns the first annotation not on the base |
| ChangeListBuilder.LookupOrCreateChange | juxta-ws/src/main/java/org/juxtasoftware/resource/heatmap/HeatmapView.java:390-395 | the map lookup and creation compute `LookupOrCreate` |
| ChangeListBuilder.FoldPair | juxta-ws/src/main/java/org/juxtasoftware/resource/heatmap/HeatmapView.java:385-420 | the body of the alignment loop computes `FoldAlignment` and adds `AlignmentDiff` to the witness's total |
| ChangeListBuilder.FoldBatch | juxta-ws/src/main/java/org/juxtasoftware/resource/heatmap/HeatmapView.java:383-420 | the loop over a batch computes `FoldAll` over it and adds its difference sum |
| ChangeListBuilder.FoldNextBatch | juxta-ws/src/main/java/org/juxtasoftware/resource/heatmap/HeatmapView.java:375-420 | one batch request: the loop stops exactly when the batch is shorter than the batch size, and otherwise the offset grows by exactly the batch size; the fold and total are those of everything read so far |
| ChangeListBuilder.FoldWitness | juxta-ws/src/main/java/org/juxtasoftware/resource/heatmap/HeatmapView.java:372-421 | the batch loop requests exactly the batches `BatchesFrom` lists from offset 0, which together are every alignment of the pair; it folds them in order and adds their difference sum to the witness's total |
| ChangeListBuilder.WidenPrior | juxta-ws/src/main/java/org/juxtasoftware/resource/heatmap/HeatmapView.java:434-441 | the in-place widening computes `WidenedPrior` |
| ChangeListBuilder.WalkOne | juxta-ws/src/main/java/org/juxtasoftware/resource/heatmap/HeatmapView.java:430-465 | one iteration computes `WalkStep`, removing the current change exactly when the step drops it |
| ChangeListBuilder.WalkNext | juxta-ws/src/main/java/org/juxtasoftware/resource/heatmap/HeatmapView.java:429-466 | `next`, the step and `itr.remove()` advance the iterator by one sorted change |
| ChangeListBuilder.WalkChanges | juxta-ws/src/main/java/org/juxtasoftware/resource/heatmap/HeatmapView.java:428-466 | the iterator walk with in-place removal computes `WalkAll` over the sorted list |
| ChangeListBuilder.RunPass | juxta-ws/src/main/java/org/juxtasoftware/resource/heatmap/HeatmapView.java:372-483 | one witness pass computes `Pass`, or the null-prior crash, and adds the witness's difference sum to its total |
| ChangeListBuilder.BuildStep | juxta-ws/src/main/java/org/juxtasoftware/resource/heatmap/HeatmapView.java:366-484 | one turn of the witness loop extends `BuildFrom` by one witness; the base contributes nothing to its total |
| ChangeListBuilder.CrashContributesNothing | juxta-ws/src/main/java/org/juxtasoftware/resource/heatmap/HeatmapView.java:469 | when the builder fails, no witness up to the failing one has added anything |
| ChangeListBuilder.GenerateHeatmapChangelist | juxta-ws/src/main/java/org/juxtasoftware/resource/heatmap/HeatmapView.java:357-488 | the method returns `ChangeListSpec`; each witness's total grows by its own difference sum (0 for the base) when the build succeeds, and is unchanged when it crashes |
| Render.Round | juxta-ws/src/main/java/org/juxtasoftware/resource/heatmap/HeatmapView.java:285-296 | a round is eight calls at one position: starts of revision, page break, note and change, then the ends of the same kinds in reverse order |
| Render.RoundEffect | juxta-ws/src/main/java/org/juxtasoftware/resource/heatmap/HeatmapView.java:285-296 | each injector's state after a round is its own start then end applied to its own state: no injector sees another's calls |
| Render.RoundProgress | juxta-ws/src/main/java/org/juxtasoftware/resource/heatmap/HeatmapView.java:285-296 | under the progress assumption a round of calls never raises the injectors' remaining work and lowers it when one had content |
| Render.Spin | juxta-ws/src/main/java/org/juxtasoftware/resource/heatmap/HeatmapView.java:277-297 | the inner loop ends with no injector having content; it makes no round exactly when none had content at the start, and then injects nothing |
| Render.Trace | juxta-ws/src/main/java/org/juxtasoftware/resource/heatmap/HeatmapView.java:269-311 | one markup string per position read |
| Render.Layout | juxta-ws/src/main/java/org/juxtasoftware/resource/heatmap/HeatmapView.java:300-309 | at least one line is written, and the last one is closed with `<br/>` |
| Render.LayoutShape | juxta-ws/src/main/java/org/juxtasoftware/resource/heatmap/HeatmapView.java:300-309 | the lines written are one per newline plus one for the end of the text, each ending in `<br/>` |
| Render.LayoutPlain | juxta-ws/src/main/java/org/juxtasoftware/resource/heatmap/HeatmapView.java:300-309 | with nothing injected, the lines are the newline-separated segments of the text, escaped and closed with `<br/>` |
| Render.LayoutLinesExtend | juxta-ws/src/main/java/org/juxtasoftware/resource/heatmap/HeatmapView.java:300-309 | markup at later positions does not change lines already built |
| Render.RoundsInRounds | juxta-ws/src/main/java/org/juxtasoftware/resource/heatmap/HeatmapView.java:285-296 | `k` rounds at one position are `8k` calls, each the call of the fixed round order at its offset |
| Render.TraceCalls | juxta-ws/src/main/java/org/juxtasoftware/resource/heatmap/HeatmapView.java:277-297 | all calls come in whole rounds in the order revision, page break, note, change starts then the reverse ends, at positions that only increase and stay below those read |
| Render.ApplyCall | juxta-ws/src/main/java/org/juxtasoftware/resource/heatmap/HeatmapView.java:285-296 | one inject call on its own: only the injector the call names changes, by its start or its end at the call's position |
| Render.RoundApplied | juxta-ws/src/main/java/org/juxtasoftware/resource/heatmap/HeatmapView.java:285-296 | a round's states and markup are those of its eight calls made one after the other in the order of `Round`, each call's markup appended after the previous one's |
| Render.SpinApplied | juxta-ws/src/main/java/org/juxtasoftware/resource/heatmap/HeatmapView.java:277-297 | the inner loop's states and markup are those of its rounds of calls, made in order |
| Render.TraceApplied | juxta-ws/src/main/java/org/juxtasoftware/resource/heatmap/HeatmapView.java:269-311 | the final injector states and all markup written, in position order, are what the calls `TraceCalls` describes give when made in turn from the initial states |
| Render.TraceQuiet | juxta-ws/src/main/java/org/juxtasoftware/resource/heatmap/HeatmapView.java:277-280 | when no injector ever has content, no call is made, nothing is injected and the injector states are untouched |
| Render.SpinUnfold | juxta-ws/src/main/java/org/juxtasoftware/resource/heatmap/HeatmapView.java:277-297 | a round with content is one round of the inner loop and lowers the remaining work |
| Render.InjectRound | juxta-ws/src/main/java/org/juxtasoftware/resource/heatmap/HeatmapView.java:285-296 | the eight calls, in order, give the round's states and markup and log exactly `Round(pos)`; making the logged calls one by one gives the same states and markup |
| Render.SpinRound | juxta-ws/src/main/java/org/juxtasoftware/resource/heatmap/HeatmapView.java:280-297 | one pass of the inner loop's body keeps its invariant and lowers the work left |
| Render.SpinAt | juxta-ws/src/main/java/org/juxtasoftware/resource/heatmap/HeatmapView.java:277-297 | the inner loop computes `Spin` and makes exactly `rounds` rounds of calls |
| Render.RenderHeatMap | juxta-ws/src/main/java/org/juxtasoftware/resource/heatmap/HeatmapView.java:266-316 | `pos` advances once per read, the EOF read included; the markup and calls are `Trace`'s; the lines are `Layout`; trailing notes are written only when `addTrailingNotes` says so |
| Tasks.LongHash | juxta-ws/src/main/java/org/juxtasoftware/resource/heatmap/HeatmapView.java:228-229 | `Long.hashCode`, a 32-bit value |
| Tasks.TaskHash | juxta-ws/src/main/java/org/juxtasoftware/resource/heatmap/HeatmapView.java:226-230 | the hash is a 32-bit value |
| Tasks.BoolHash | juxta-ws/src/main/java/org/juxtasoftware/resource/heatmap/HeatmapView.java:230 | `Boolean.hashCode`: 1231 for true, 1237 for false (no contract) |
| Tasks.Signed | juxta-ws/src/main/java/org/juxtasoftware/resource/heatmap/HeatmapView.java:231 | the `int` value printed lies in the `int` range and has the hash's bits |
| Tasks.NatString | juxta-ws/src/main/java/org/juxtasoftware/resource/heatmap/HeatmapView.java:231 | a non-empty string of decimal digits, one digit exactly for numbers below 10 |
| Tasks.IntString | juxta-ws/src/main/java/org/juxtasoftware/resource/heatmap/HeatmapView.java:231 | `Integer.toString`: a minus sign exactly for negative values, then decimal digits |
| Tasks.TaskId | juxta-ws/src/main/java/org/juxtasoftware/resource/heatmap/HeatmapView.java:225-232 | the id is `heatmap-` followed by the hash as a signed `int`: a minus sign exactly when the hash's top bit is set, then decimal digits |
| Tasks.TaskHashPolynomial | juxta-ws/src/main/java/org/juxtasoftware/resource/heatmap/HeatmapView.java:225-232 | the task hash equals `31^3 + 31^2 h(set) + 31 h(key) + h(condensed)` modulo 2^32 |
| Tasks.NatStringInjective | juxta-ws/src/main/java/org/juxtasoftware/resource/heatmap/HeatmapView.java:231 | different numbers print differently |
| Tasks.IntStringInjective | juxta-ws/src/main/java/org/juxtasoftware/resource/heatmap/HeatmapView.java:231 | different `int` values print differently |
| Tasks.TaskIdInjective | juxta-ws/src/main/java/org/juxtasoftware/resource/heatmap/HeatmapView.java:225-232 | equal task ids come from equal hashes |
| Tasks.CondensedDistinguishes | juxta-ws/src/main/java/org/juxtasoftware/resource/heatmap/HeatmapView.java:164-171 | for the same set and key, the condensed and the full heatmap get different task ids |
| Tasks.FilteredMembers | juxta-ws/src/main/java/org/juxtasoftware/resource/heatmap/HeatmapView.java:211-223 | an id is in the filter list exactly when it was given and is not the base |
| Tasks.FilteredAppend | juxta-ws/src/main/java/org/juxtasoftware/resource/heatmap/HeatmapView.java:215-220 | the filter keeps the given order: filtering a concatenation concatenates the filtered parts |
| Tasks.WitnessFilterList | juxta-ws/src/main/java/org/juxtasoftware/resource/heatmap/HeatmapView.java:211-223 | no `filter` parameter gives the empty list; otherwise the loop yields `Filtered`, the ids in order without the base |
| Tasks.TaskManager.Submit | juxta-ws/src/main/java/org/juxtasoftware/resource/heatmap/HeatmapView.java:168 | a submitted task joins the manager's tasks |
| Tasks.SelectBase | juxta-ws/src/main/java/org/juxtasoftware/resource/heatmap/HeatmapView.java:123-144 | without a requested base the first witness is the base; a requested one is found exactly when it is in the set |
| Tasks.ToHtml | juxta-ws/src/main/java/org/juxtasoftware/resource/heatmap/HeatmapView.java:95-171 | fewer than two witnesses give the message and submit nothing; on a cache miss (or a refresh) the reply is `RENDERING ` plus the task id, and a task is submitted exactly when none with that id exists; on a hit nothing is submitted |
| Tasks.MissIdempotent | juxta-ws/src/main/java/org/juxtasoftware/resource/heatmap/HeatmapView.java:166-169 | a second miss for the same visualization submits nothing more; the step that `RepeatedRequest` uses between its two calls |
| Tasks.RepeatedRequest | juxta-ws/src/main/java/org/juxtasoftware/resource/heatmap/HeatmapView.java:164-171 | asking `toHtml` twice for the same heatmap gives the same reply both times, and the second call submits nothing; the first submits at most one task |

## Left out

- Persistence (the DAOs), the temporary data file, FreeMarker templates (:173-203, :321-337) and logging. The alignments, token starts, text length, cache lookup and visualization key are parameters.
- `StringEscapeUtils.escapeHtml` is a foreign library: `escape` is a parameter.
- The Java class `Change` is not part of this model. Its comparator and `mergeChange` are given assumed definitions:
  - sort order: start, then creation index;
  - merge: range hull and union of witnesses;
  - frequency: the number of witnesses;
  - `hasMatchingWitnesses`: equal witness sets.
- `Collections.sort` is modelled as an insertion sort. `ChangeSort.SortedUnique` shows that, under a strict total order, every sort gives the same result.
- Alignments without a base annotation, without a counterpart, or naming a witness outside the set make the Java code throw `NullPointerException` (:387-408). The model requires them to be present (`PairsResolvable`); only the null `prior` at :469 is modelled as a failure.
- ChangeListBuilder.GenerateHeatmapChangelist: it requires the set witnesses to be distinct objects, as `toHtml` creates them (:157-160).
- ChangeListBuilder.SetWitness.AddDiffLen: `long` overflow of `totalDiffLen` is not modelled; totals are unbounded integers.
- `SetWitness.getChangeIndex`, `generateChangeIndexJson` and `isBase`: float division and `%.2f` formatting (:344-355, :528-533).
- The zero-length base branch (:137-141) is left out: it only logs and sets a status, and processing goes on.
- The `OutOfMemoryError` handler (:204-208) is left out.
- Render.RenderHeatMap:
  - `reader.read()` is a read of the next character of an in-memory string;
  - a markup write and a line write stand for `line.append` and `br.write`/`br.newLine`;
  - the injectors are abstract state machines that must make progress (`Progressing`). Without that assumption the inner loop of the Java code need not end.
  - `hasContent` is assumed free of side effects: it is a function of an injector's state and the position. The `||` at :277-280 stops at the first injector with content, so in Java a query that moved an injector's cursor would make its later state depend on how often it was asked. The model does not capture that, and `TraceQuiet` and `AnyContent` rely on this assumption.
- Tasks.ToHtml:
  - query parsing (`getQuery`, `Long.parseLong`, the comma split) is not modelled: the filter arrives as parsed ids;
  - the check-then-submit at :166-168 is not atomic in Java; concurrency, `HeatmapTask` and `TaskManager` scheduling are not modelled.
  - `TaskManager.Exists` reads "a task with this id exists" as "a task with this id was submitted". Task completion and removal are not modelled.
- Tasks.ToHtml passes the visualization key as the second argument of `generateTaskId`, whose parameter is named `baseId` (:165, :225). The model follows the code.
- The cached-page branch of `toHtml` (:173-203) renders templates; the model only returns `CachedPage`.
- ChangeListBuilder.GenerateHeatmapChangelist: it requires a positive batch size, as do the fold and batching members. With `heatmapBatchSize` 0 the batch loop at :373-380 never ends, because an empty batch is never shorter than the limit.
- Render.RenderHeatMap: characters are Unicode scalar values, while `reader.read()` reads UTF-16 code units. After a character outside the Basic Multilingual Plane the model's `pos` is one less than Java's.
- ChangeList.ChangeListSpec: no order of the returned list is promised. `ChangeList.WalkCanUnsort` shows that a widened change can stay ahead of a change that starts before it.
- The builder and its reference definitions model the overlap branch as written (see Findings). The corrected walk, `CorrectedStep` and `CorrectedWalkAll`, is stated beside it and is not used by `ChangeListSpec`.

## Findings

| source | as written | input that shows it | evidently intended | confidence | as-written member | corrected member |
|---|---|---|---|---|---|---|
| juxta-ws/src/main/java/org/juxtasoftware/resource/heatmap/HeatmapView.java:443-450 | the overlap branch's comment says the prior is tossed, but `itr.remove()` removes the current change and `prior = change` makes the removed change prior; a non-empty difference is dropped from the list | base 0; witness 2 differs over base [4,6); witness 1 differs over the insertion point 3 and over [7,9); the next token after 3 starts at 4; all in group 0 | the widened prior is removed from the list and the current change is kept and becomes prior | not executed; the comment and the code disagree | ChangeList.OverlapLosesChange, ChangeList.WalkLosesChange | ChangeList.CorrectedKeepsNonEmpty |
