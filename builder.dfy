/**
 * `generateHeatmapChangelist` and `SetWitness` as the Java code runs them:
 * local counters, map and list updated in loops, the list iterator's
 * `remove`, and the witnesses' difference totals updated in place.  Every
 * method is proved to compute what the functions of `ChangeList` define.
 */
module ChangeListBuilder {
  import opened Wrappers
  import opened Changes
  import opened Alignments
  import opened ChangeSort
  import opened ChangeList

  /** A witness of the comparison set, with the running total of its differences from the base. */
  class SetWitness {
    const id: int
    const baseLen: int
    const isBase: bool
    var totalDiffLen: int

    constructor (id: int, baseLen: int, isBase: bool)
      ensures this.id == id && this.baseLen == baseLen && this.isBase == isBase
      ensures totalDiffLen == 0
    {
      this.id := id;
      this.baseLen := baseLen;
      this.isBase := isBase;
      totalDiffLen := 0;
    }

    method AddDiffLen(longestDiff: int)
      modifies this
      ensures totalDiffLen == old(totalDiffLen) + longestDiff
    {
      totalDiffLen := totalDiffLen + longestDiff;
    }
  }

  /** What the change list adds to a witness's total: nothing for the base. */
  function Contribution(id: int, ctx: Context): int
    requires id != ctx.baseId ==> AllResolvable(PairAlignments(ctx, id), ctx)
  {
    if id == ctx.baseId then 0 else DiffSum(PairAlignments(ctx, id), ctx)
  }

  /** The loop at HeatmapView.java:401-407: the first annotation not on the base. */
  method FindCounterpart(annotations: seq<AlignedAnnotation>, baseId: int) returns (r: Option<AlignedAnnotation>)
    ensures r == Counterpart(annotations, baseId)
  {
    var k := 0;
    while k < |annotations|
      invariant 0 <= k <= |annotations|
      invariant Counterpart(annotations[k..], baseId) == Counterpart(annotations, baseId)
    {
      if annotations[k].witnessId != baseId {
        return Some(annotations[k]);
      }
      assert annotations[k..][1..] == annotations[k + 1..];
      k := k + 1;
    }
    return None;
  }

  /**
   * HeatmapView.java:389-397: the change of a base range, created with the
   * next index and appended to the list when the range is new.
   */
  method LookupOrCreateChange(b: Builder, rg: Range, group: int) returns (r: Builder, id: nat)
    ensures (r, id) == LookupOrCreate(b, rg, group)
  {
    if rg in b.changeMap {
      return b, b.changeMap[rg];
    }
    id := b.nextIndex;
    var change := NewChange(id, rg, group);
    r := Builder(b.nextIndex + 1, b.changeMap[rg := id], b.store[id := change], b.changes + [id]);
  }

  /** One alignment, HeatmapView.java:387-419, adding its difference to `wit`. */
  method FoldPair(b: Builder, a: Alignment, wit: SetWitness, ctx: Context) returns (r: Builder)
    requires MapInStore(b) && Resolvable(a, ctx)
    modifies wit
    ensures r == FoldAlignment(b, a, ctx)
    ensures wit.totalDiffLen == old(wit.totalDiffLen) + AlignmentDiff(a, ctx)
  {
    var baseAnno := WitnessAnnotation(a.annotations, ctx.baseId).value;
    var b1, id := LookupOrCreateChange(b, baseAnno.range, a.group);
    var witnessAnnotation := FindCounterpart(a.annotations, ctx.baseId);
    if witnessAnnotation.value.witnessId in ctx.filter {
      return b1;
    }
    wit.AddDiffLen(Max(Length(baseAnno.range), Length(witnessAnnotation.value.range)));
    return b1.(store := b1.store[id := AddWitness(b1.store[id], witnessAnnotation.value.witnessId)]);
  }

  /** The alignment loop of HeatmapView.java:383-420 over one batch. */
  method FoldBatch(b: Builder, aligns: seq<Alignment>, wit: SetWitness, ctx: Context) returns (f: Builder)
    requires MapInStore(b) && AllResolvable(aligns, ctx)
    modifies wit
    ensures f == FoldAll(b, aligns, ctx) && MapInStore(f)
    ensures wit.totalDiffLen == old(wit.totalDiffLen) + DiffSum(aligns, ctx)
  {
    f := b;
    for k := 0 to |aligns|
      invariant AllResolvable(aligns[..k], ctx)
      invariant f == FoldAll(b, aligns[..k], ctx) && MapInStore(f)
      invariant wit.totalDiffLen == old(wit.totalDiffLen) + DiffSum(aligns[..k], ctx)
    {
      FoldAlignmentMapInStore(f, aligns[k], ctx);
      f := FoldPair(f, aligns[k], wit, ctx);
      assert aligns[..k + 1][..k] == aligns[..k];
    }
    assert aligns[..|aligns|] == aligns;
  }

  /**
   * The batch loop of HeatmapView.java:372-420 for the witness `wit`: batches
   * at offsets 0, batchSize, 2*batchSize, ... up to the first short one, each
   * folded alignment by alignment.  `requested` is the list of batches the
   * loop asks the alignment source for.
   */
  method FoldWitness(b: Builder, wit: SetWitness, ctx: Context, batchSize: nat)
      returns (f: Builder, ghost requested: seq<seq<Alignment>>)
    requires batchSize > 0 && MapInStore(b) && AllResolvable(PairAlignments(ctx, wit.id), ctx)
    modifies wit
    ensures requested == BatchesFrom(PairAlignments(ctx, wit.id), 0, batchSize)
    ensures Flatten(requested) == PairAlignments(ctx, wit.id)
    ensures f == FoldAll(b, PairAlignments(ctx, wit.id), ctx)
    ensures wit.totalDiffLen == old(wit.totalDiffLen) + DiffSum(PairAlignments(ctx, wit.id), ctx)
  {
    ghost var all := PairAlignments(ctx, wit.id);
    ghost var total0 := wit.totalDiffLen;
    assert all[..0] == [];
    f := b;
    requested := [];
    var done := false;
    var startIdx := 0;
    while !done
      invariant startIdx <= |all|
      invariant !done ==> f == FoldAll(b, all[..startIdx], ctx) && MapInStore(f)
                          && wit.totalDiffLen == total0 + DiffSum(all[..startIdx], ctx)
                          && requested + BatchesFrom(all, startIdx, batchSize) == BatchesFrom(all, 0, batchSize)
      invariant done ==> f == FoldAll(b, all, ctx) && wit.totalDiffLen == total0 + DiffSum(all, ctx)
                         && requested == BatchesFrom(all, 0, batchSize)
      decreases if done then 0 else 1, |all| - startIdx
    {
      ghost var before := requested;
      ghost var start := startIdx;
      f, startIdx, done := FoldNextBatch(b, f, wit, all, total0, startIdx, ctx, batchSize);
      requested := requested + [Batch(all, start, batchSize)];
      NextRequest(all, start, batchSize, startIdx, done, before);
    }
    BatchesCover(all, 0, batchSize);
    assert all[0..] == all;
  }

  /** The batches requested so far stay a prefix of those `BatchesFrom` lists. */
  lemma NextRequest(all: seq<Alignment>, start: nat, batchSize: nat, next: nat, done: bool,
                    before: seq<seq<Alignment>>)
    requires batchSize > 0 && start <= |all|
    requires before + BatchesFrom(all, start, batchSize) == BatchesFrom(all, 0, batchSize)
    requires done <==> |Batch(all, start, batchSize)| < batchSize
    requires !done ==> next == start + batchSize
    ensures var requested := before + [Batch(all, start, batchSize)];
            && (done ==> requested == BatchesFrom(all, 0, batchSize))
            && (!done ==> requested + BatchesFrom(all, next, batchSize) == BatchesFrom(all, 0, batchSize))
  {
    var batch := Batch(all, start, batchSize);
    BatchesFromUnfold(all, start, batchSize);
    if !done {
      assert before + [batch] + BatchesFrom(all, next, batchSize) == before + ([batch] + BatchesFrom(all, next, batchSize));
    }
  }

  /**
   * One turn of the batch loop: the batch at `startIdx`, folded into `f`;
   * either the next offset, or `done` after a short batch.
   */
  method FoldNextBatch(b: Builder, f0: Builder, wit: SetWitness, ghost all: seq<Alignment>, ghost total0: int,
                       startIdx: nat, ctx: Context, batchSize: nat)
      returns (f: Builder, next: nat, done: bool)
    requires all == PairAlignments(ctx, wit.id) && batchSize > 0
    requires startIdx <= |all| && AllResolvable(all, ctx)
    requires f0 == FoldAll(b, all[..startIdx], ctx) && MapInStore(f0)
    requires wit.totalDiffLen == total0 + DiffSum(all[..startIdx], ctx)
    modifies wit
    ensures next <= |all| && (!done ==> startIdx < next)
    ensures done <==> |Batch(all, startIdx, batchSize)| < batchSize
    ensures !done ==> next == startIdx + batchSize
    ensures !done ==> f == FoldAll(b, all[..next], ctx) && MapInStore(f)
                      && wit.totalDiffLen == total0 + DiffSum(all[..next], ctx)
    ensures done ==> f == FoldAll(b, all, ctx) && wit.totalDiffLen == total0 + DiffSum(all, ctx)
  {
    var aligns := Batch(ctx.pairs(wit.id), startIdx, batchSize);
    assert aligns == Batch(all, startIdx, batchSize);
    var read := startIdx + |aligns|;
    assert read <= |all| && aligns == all[startIdx..read];
    BatchExtends(b, f0, all, startIdx, aligns, read, ctx);
    BatchDiffs(all, startIdx, aligns, read, ctx);
    f := FoldBatch(f0, aligns, wit, ctx);
    if |aligns| < batchSize {
      assert read == |all|;
      assert all[..read] == all;
      return f, startIdx, true;
    }
    // a full batch: the next offset is startIdx + batchSize
    return f, read, false;
  }

  /**
   * Folding the next batch after the alignments read so far is folding the
   * next prefix; a short batch is the last one.
   */
  lemma BatchExtends(b: Builder, f0: Builder, all: seq<Alignment>, read: nat, batch: seq<Alignment>, next: nat,
                     ctx: Context)
    requires next == read + |batch| <= |all| && batch == all[read..next] && AllResolvable(all, ctx)
    requires f0 == FoldAll(b, all[..read], ctx)
    ensures AllResolvable(all[..read], ctx) && AllResolvable(batch, ctx) && AllResolvable(all[..next], ctx)
    ensures FoldAll(f0, batch, ctx) == FoldAll(b, all[..next], ctx)
  {
    var pre := all[..read];
    SliceResolvable(all, read, next, ctx);
    SliceConcat(all, read, next);
    FoldAllAppend(b, pre, batch, ctx);
  }

  lemma SliceConcat<T>(all: seq<T>, read: nat, next: nat)
    requires read <= next <= |all|
    ensures all[..next] == all[..read] + all[read..next]
  {
  }

  /** The differences of the next batch add up with those read so far. */
  lemma BatchDiffs(all: seq<Alignment>, read: nat, batch: seq<Alignment>, next: nat, ctx: Context)
    requires next == read + |batch| <= |all| && batch == all[read..next] && AllResolvable(all, ctx)
    ensures AllResolvable(all[..read], ctx) && AllResolvable(batch, ctx) && AllResolvable(all[..next], ctx)
    ensures DiffSum(all[..read], ctx) + DiffSum(batch, ctx) == DiffSum(all[..next], ctx)
  {
    var pre := all[..read];
    SliceResolvable(all, read, next, ctx);
    SliceConcat(all, read, next);
    DiffSumAppend(pre, batch, ctx);
  }

  lemma SliceResolvable(all: seq<Alignment>, read: nat, next: nat, ctx: Context)
    requires read <= next <= |all| && AllResolvable(all, ctx)
    ensures AllResolvable(all[..read], ctx) && AllResolvable(all[read..next], ctx) && AllResolvable(all[..next], ctx)
  {
    assert forall k :: 0 <= k < read ==> all[..read][k] == all[k];
    assert forall k :: 0 <= k < next - read ==> all[read..next][k] == all[read + k];
    assert forall k :: 0 <= k < next ==> all[..next][k] == all[k];
  }


  /** `prior` widened when it is empty: HeatmapView.java:434-442. */
  method WidenPrior(prior: Change, ctx: Context) returns (q: Change)
    ensures q == WidenedPrior(prior, ctx)
  {
    q := prior;
    if Length(q.range) == 0 {
      var start := q.range.start;
      if start == 0 {
        q := q.(range := Range(0, 1));
      } else {
        var newStart := ctx.nextTokenStart(start);
        q := q.(range := Range(newStart, newStart + 1));
      }
    }
  }

  /**
   * The body of the walk at HeatmapView.java:431-465 for the change `next`
   * just returned: the updated changes, the new prior, and whether `next` is
   * to be removed through the iterator.
   */
  method WalkOne(store0: map<nat, Change>, prior0: Option<nat>, change: nat, ghost kept: seq<nat>, ctx: Context)
      returns (store: map<nat, Change>, prior: Option<nat>, removed: bool)
    requires change in store0
    requires prior0.Some? ==> prior0.value in store0 && prior0.value != change
    ensures var w := WalkStep(Walk(store0, kept, prior0), change, ctx);
            && store == w.store && prior == w.prior
            && w.kept == (if removed then kept else kept + [change])
  {
    store, prior, removed := store0, prior0, false;
    if prior.Some? {
      var p := prior.value;
      StepCases(Walk(store0, kept, prior0), change, ctx);
      var q := WidenPrior(store[p], ctx);
      var c := store[change];
      var overlap := Length(store[p].range) == 0 && c.range.start <= q.range.start;
      if overlap {
        store := store[p := q];
        removed := true;
        prior := Some(change);
      } else if Mergeable(c, q) {
        store := store[p := Merge(q, c)];
        removed := true;
      } else {
        store := store[p := q];
        prior := Some(change);
      }
    } else {
      prior := Some(change);
    }
  }

  /**
   * The walk at HeatmapView.java:428-466 over the sorted list: an iterator
   * over the list, whose `remove` takes out the change `next` returned last.
   */
  method WalkChanges(store0: map<nat, Change>, sorted: seq<nat>, ctx: Context)
      returns (store: map<nat, Change>, list: seq<nat>, prior: Option<nat>)
    requires InStore(store0, sorted) && Distinct(sorted)
    ensures Walk(store, list, prior) == WalkAll(store0, sorted, ctx)
  {
    store, list, prior := store0, sorted, None;
    var pos := 0;
    ghost var i := 0;
    while pos < |list|
      invariant 0 <= pos <= |list| && 0 <= i <= |sorted|
      invariant list[pos..] == sorted[i..]
      invariant Walk(store, list[..pos], prior) == WalkAll(store0, sorted[..i], ctx)
      decreases |list| - pos
    {
      store, list, prior, pos := WalkNext(store, list, prior, pos, store0, sorted, i, ctx);
      i := i + 1;
    }
    assert sorted[..i] == sorted;
    assert list[..pos] == list;
  }

  /** One turn of the iterator loop: `next`, the step, and `remove` when the step drops the change. */
  method WalkNext(store0: map<nat, Change>, list0: seq<nat>, prior0: Option<nat>, pos0: nat,
                  ghost initial: map<nat, Change>, ghost sorted: seq<nat>, ghost i: nat, ctx: Context)
      returns (store: map<nat, Change>, list: seq<nat>, prior: Option<nat>, pos: nat)
    requires InStore(initial, sorted) && Distinct(sorted)
    requires pos0 < |list0| && i <= |sorted| && list0[pos0..] == sorted[i..]
    requires Walk(store0, list0[..pos0], prior0) == WalkAll(initial, sorted[..i], ctx)
    ensures pos <= |list| && |list| - pos < |list0| - pos0 && i < |sorted|
    ensures list[pos..] == sorted[i + 1..]
    ensures Walk(store, list[..pos], prior) == WalkAll(initial, sorted[..i + 1], ctx)
  {
    WalkAllNext(initial, sorted, i, ctx);
    CursorStep(list0, pos0, sorted, i);
    list, pos := list0, pos0;
    var change := list[pos];
    pos := pos + 1;
    var removed;
    store, prior, removed := WalkOne(store0, prior0, change, list0[..pos0], ctx);
    if removed {
      list := list[..pos - 1] + list[pos..];
      pos := pos - 1;
    }
  }

  /**
   * The list around the cursor after `next`, with and without `remove`: the
   * part before the cursor grows by the change or stays, and the part after
   * it is the rest of the sorted list.
   */
  lemma CursorStep(list: seq<nat>, pos: nat, sorted: seq<nat>, i: nat)
    requires pos < |list| && i <= |sorted| && list[pos..] == sorted[i..]
    ensures i < |sorted| && sorted[i] == list[pos]
    ensures list[..pos + 1] == list[..pos] + [list[pos]] && list[pos + 1..] == sorted[i + 1..]
    ensures var removed := list[..pos] + list[pos + 1..];
            removed[..pos] == list[..pos] && removed[pos..] == sorted[i + 1..]
  {
    assert list[pos + 1..] == list[pos..][1..];
    assert sorted[i + 1..] == sorted[i..][1..];
  }

  /**
   * The pass for `wit`: fold its alignments, `Collections.sort(changes)`,
   * walk, and widen the last prior (HeatmapView.java:468-483), or crash
   * when prior is null.
   */
  method RunPass(b: Builder, wit: SetWitness, ctx: Context, batchSize: nat) returns (r: Result<Builder, Crash>)
    requires batchSize > 0 && Valid(b, ctx) && AllResolvable(PairAlignments(ctx, wit.id), ctx)
    modifies wit
    ensures r == Pass(b, wit.id, ctx)
    ensures wit.totalDiffLen == old(wit.totalDiffLen) + DiffSum(PairAlignments(ctx, wit.id), ctx)
  {
    var f;
    ghost var requested;
    f, requested := FoldWitness(b, wit, ctx, batchSize);
    FoldAllValid(b, PairAlignments(ctx, wit.id), ctx);
    var sorted := Sort(f.store, f.changes);
    SortDistinct(f.store, f.changes);
    var store, changes, prior := WalkChanges(f.store, sorted, ctx);
    if prior.None? {
      return Failure(NullPrior);
    }
    store := store[prior.value := FinalStep(store[prior.value], ctx)];
    return Success(Builder(f.nextIndex, f.changeMap, store, changes));
  }

  /**
   * One turn of the witness loop of HeatmapView.java:357-488: the base is
   * skipped, any other witness runs a pass.
   */
  method BuildStep(b: Builder, wit: SetWitness, ghost ids: seq<int>, i: nat, ctx: Context, batchSize: nat)
      returns (r: Result<Builder, Crash>)
    requires batchSize > 0 && i < |ids| && ReadableIds(ids, ctx) && wit.id == ids[i]
    requires ReadableIds(ids[..i], ctx) && BuildFrom(ids[..i], ctx) == Success(b) && Valid(b, ctx)
    modifies wit
    ensures ReadableIds(ids[..i + 1], ctx) && r == BuildFrom(ids[..i + 1], ctx)
    ensures wit.totalDiffLen == old(wit.totalDiffLen) + Contribution(wit.id, ctx)
  {
    BuildFromNext(ids, i, ctx);
    if wit.id == ctx.baseId {
      return Success(b);
    }
    r := RunPass(b, wit, ctx, batchSize);
  }

  /**
   * When the builder first fails at witness `i`, no witness up to `i` has
   * contributed anything: those before are the base, and `i` has no
   * alignment at all.
   */
  lemma CrashContributesNothing(ids: seq<int>, i: nat, ctx: Context)
    requires i < |ids| && ReadableIds(ids, ctx) && ReadableIds(ids[..i], ctx) && ReadableIds(ids[..i + 1], ctx)
    requires BuildFrom(ids[..i], ctx).Success? && BuildFrom(ids[..i + 1], ctx).Failure?
    ensures forall j :: 0 <= j <= i ==> Contribution(ids[j], ctx) == 0
  {
    BuildFromNext(ids, i, ctx);
    BuildNextIndex(ids[..i], ctx);
    forall j | 0 <= j < i
      ensures ids[j] == ctx.baseId
    {
      assert ids[..i][j] == ids[j];
    }
  }

  /**
   * `generateHeatmapChangelist`: every witness but the base in turn, each
   * adding its differences to its own total; the change list, or the crash.
   */
  method GenerateHeatmapChangelist(witnesses: seq<SetWitness>, ctx: Context, batchSize: nat)
      returns (r: Result<seq<Change>, Crash>)
    requires batchSize > 0 && PairsResolvable(ctx)
    requires |witnesses| == |ctx.witnessIds|
    requires forall j :: 0 <= j < |witnesses| ==> witnesses[j].id == ctx.witnessIds[j]
    requires forall j, k :: 0 <= j < k < |witnesses| ==> witnesses[j] != witnesses[k]
    modifies witnesses
    ensures r == ChangeListSpec(ctx)
    ensures forall j :: 0 <= j < |witnesses| ==>
              witnesses[j].totalDiffLen
              == old(witnesses[j].totalDiffLen) + (if r.Success? then Contribution(witnesses[j].id, ctx) else 0)
  {
    ghost var ids := ctx.witnessIds;
    ChangeListOfBuild(ctx);
    var b := Empty;
    EmptyValid(ctx);
    var i := 0;
    while i < |witnesses|
      invariant 0 <= i <= |witnesses|
      invariant ReadableIds(ids[..i], ctx)
      invariant BuildFrom(ids[..i], ctx) == Success(b) && Valid(b, ctx)
      invariant forall j :: 0 <= j < |witnesses| ==>
                  witnesses[j].totalDiffLen
                  == old(witnesses[j].totalDiffLen) + (if j < i then Contribution(ids[j], ctx) else 0)
    {
      label before:
      var next := BuildStep(b, witnesses[i], ids, i, ctx, batchSize);
      forall j | 0 <= j < |witnesses| && j != i
        ensures witnesses[j].totalDiffLen == old@before(witnesses[j].totalDiffLen)
      {
        assert witnesses[j] != witnesses[i] by {
          if j < i { assert witnesses[j] != witnesses[i]; } else { assert witnesses[i] != witnesses[j]; }
        }
      }
      if next.Failure? {
        CrashContributesNothing(ids, i, ctx);
        FailureSticks(ids, i + 1, ctx);
        return Failure(NullPrior);
      }
      b := next.value;
      i := i + 1;
    }
    assert ids[..i] == ids;
    return Success(ChangesOf(b, ctx));
  }
}
