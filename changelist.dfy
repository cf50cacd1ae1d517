/**
 * The change-list builder of the heatmap, as functions: the reference the
 * imperative builder in `ChangeListBuilder` is proved against, and the
 * properties of the fold, the merge walk and the final widening.
 *
 * A `Change` of the Java code is a mutable object shared by `changeMap`, the
 * list `changes` and the walk's `prior`.  Here every change lives in a store
 * keyed by its creation index (unique: it is taken from a counter), and the
 * map, the list and `prior` hold indices, so an update through one of them
 * is seen by the others exactly as with shared references.
 */
module ChangeList {
  import opened Wrappers
  import opened Changes
  import opened Alignments
  import opened ChangeSort

  /** What the builder reads: the base, the witnesses, the filter and the data sources. */
  datatype Context = Context(
    baseId: int,                  // base.getId()
    witnessIds: seq<int>,         // ids of this.witnesses, in order
    filter: seq<int>,             // visualizationInfo.getWitnessFilter()
    textLength: int,              // base.getText().getLength()
    nextTokenStart: int -> int,   // annotationDao.findNextTokenStart(base, _)
    pairs: int -> seq<Alignment>) // every difference alignment of (base, w), in order

  /** The one way the builder fails on data the source accepts. */
  datatype Crash = NullPrior  // `prior.getRange()` at HeatmapView.java:469 with prior == null

  /** `getPairAlignments` without its batching: every alignment of (base, witness), in order. */
  function PairAlignments(ctx: Context, witnessId: int): seq<Alignment>
  {
    ctx.pairs(witnessId)
  }

  /**
   * The builder dereferences the base annotation of every alignment, the first
   * other annotation and the witness that annotation names: an alignment
   * without them makes it crash, so every alignment read must have them.
   * Ranges are well formed, as the data model promises.
   */
  predicate Resolvable(a: Alignment, ctx: Context)
  {
    var ba := WitnessAnnotation(a.annotations, ctx.baseId);
    var wa := Counterpart(a.annotations, ctx.baseId);
    && ba.Some? && WellFormed(ba.value.range)
    && wa.Some? && WellFormed(wa.value.range) && wa.value.witnessId in ctx.witnessIds
  }

  predicate AllResolvable(s: seq<Alignment>, ctx: Context)
  {
    forall k :: 0 <= k < |s| ==> Resolvable(s[k], ctx)
  }

  /** Every pair the builder reads is resolvable. */
  predicate PairsResolvable(ctx: Context)
  {
    forall w :: w in ctx.witnessIds && w != ctx.baseId ==> AllResolvable(ctx.pairs(w), ctx)
  }

  function BaseRange(a: Alignment, ctx: Context): Range
    requires Resolvable(a, ctx)
  {
    WitnessAnnotation(a.annotations, ctx.baseId).value.range
  }

  function CounterpartOf(a: Alignment, ctx: Context): AlignedAnnotation
    requires Resolvable(a, ctx)
  {
    Counterpart(a.annotations, ctx.baseId).value
  }

  /** The counterpart witness of the alignment is excluded by the visualization filter. */
  predicate Filtered(a: Alignment, ctx: Context)
    requires Resolvable(a, ctx)
  {
    CounterpartOf(a, ctx).witnessId in ctx.filter
  }

  /** The witnesses that may appear in a change: known, not the base, not filtered out. */
  predicate Admitted(id: int, ctx: Context)
  {
    id in ctx.witnessIds && id != ctx.baseId && id !in ctx.filter
  }

  /**
   * What one alignment adds to the outer-loop witness's difference total:
   * nothing when filtered, else the longer of its two ranges.
   */
  function AlignmentDiff(a: Alignment, ctx: Context): (d: int)
    requires Resolvable(a, ctx)
    ensures d >= 0
    ensures Filtered(a, ctx) ==> d == 0
    ensures !Filtered(a, ctx) ==> d == Length(BaseRange(a, ctx)) || d == Length(CounterpartOf(a, ctx).range)
    ensures !Filtered(a, ctx) ==> d >= Length(BaseRange(a, ctx)) && d >= Length(CounterpartOf(a, ctx).range)
  {
    if Filtered(a, ctx) then 0
    else Max(Length(BaseRange(a, ctx)), Length(CounterpartOf(a, ctx).range))
  }

  function DiffSum(s: seq<Alignment>, ctx: Context): int
    requires AllResolvable(s, ctx)
  {
    if |s| == 0 then 0 else DiffSum(s[..|s| - 1], ctx) + AlignmentDiff(s[|s| - 1], ctx)
  }

  /** A witness's difference total never decreases. */
  lemma {:induction false} DiffSumNonNegative(s: seq<Alignment>, ctx: Context)
    requires AllResolvable(s, ctx)
    ensures DiffSum(s, ctx) >= 0
  {
    if |s| > 0 {
      DiffSumNonNegative(s[..|s| - 1], ctx);
    }
  }

  lemma {:induction false} DiffSumAppend(s: seq<Alignment>, t: seq<Alignment>, ctx: Context)
    requires AllResolvable(s, ctx) && AllResolvable(t, ctx)
    ensures AllResolvable(s + t, ctx)
    ensures DiffSum(s + t, ctx) == DiffSum(s, ctx) + DiffSum(t, ctx)
    decreases |t|
  {
    if |t| > 0 {
      assert (s + t)[..|s + t| - 1] == s + t[..|t| - 1];
      DiffSumAppend(s, t[..|t| - 1], ctx);
    } else {
      assert s + t == s;
    }
  }

  // ---------------------------------------------------------------------
  // Folding alignments into changes (HeatmapView.java:383-420)
  // ---------------------------------------------------------------------

  /** The builder's state: the index counter, `changeMap`, the changes, and the list. */
  datatype Builder = Builder(nextIndex: nat, changeMap: map<Range, nat>, store: map<nat, Change>, changes: seq<nat>)

  const Empty := Builder(0, map[], map[], [])

  predicate WitnessesAdmitted(store: map<nat, Change>, ctx: Context)
  {
    forall id, w :: id in store && w in store[id].witnesses ==> Admitted(w, ctx)
  }

  /**
   * The changes created so far are numbered 0 .. nextIndex-1 and are filed
   * under their index; every range in changeMap names one of them, and
   * changeMap has one range per change; the list holds created changes,
   * each once, and is empty only while no change exists; only admitted
   * witnesses are recorded.
   */
  ghost predicate Valid(b: Builder, ctx: Context)
  {
    && Numbered(b.store, b.nextIndex)
    && MapInStore(b)
    && |b.changeMap| == b.nextIndex
    && InStore(b.store, b.changes) && Distinct(b.changes)
    && (b.changes == [] <==> b.nextIndex == 0)
    && WitnessesAdmitted(b.store, ctx)
  }

  /** Every range in changeMap names a stored change. */
  ghost predicate MapInStore(b: Builder)
  {
    forall r :: r in b.changeMap ==> b.changeMap[r] in b.store
  }

  /** The store holds exactly the changes 0 .. n-1, each filed under its own index. */
  ghost predicate Numbered(store: map<nat, Change>, n: nat)
  {
    && (forall id: nat :: id in store <==> id < n)
    && Indexed(store)
  }

  /** Rewriting changes without touching their indices keeps the numbering. */
  lemma Renumbered(store: map<nat, Change>, st: map<nat, Change>, n: nat)
    requires Numbered(store, n)
    requires st.Keys == store.Keys
    requires forall id :: id in store ==> st[id].index == store[id].index
    ensures Numbered(st, n)
  {
  }

  lemma EmptyValid(ctx: Context)
    ensures Valid(Empty, ctx)
  {
  }

  /**
   * `changeMap.get(range)`, creating the change with the next index, filing
   * it under the range and appending it to the list when the range is new.
   * Returns the builder and the index of the change.
   */
  function LookupOrCreate(b: Builder, rg: Range, group: int): (r: (Builder, nat))
    ensures r.0.changeMap == b.changeMap[rg := r.1]
    ensures rg in b.changeMap ==> r == (b, b.changeMap[rg])
    ensures rg !in b.changeMap ==>
              r == (Builder(b.nextIndex + 1, b.changeMap[rg := b.nextIndex],
                            b.store[b.nextIndex := NewChange(b.nextIndex, rg, group)],
                            b.changes + [b.nextIndex]),
                    b.nextIndex)
  {
    if rg in b.changeMap then (b, b.changeMap[rg])
    else
      var id := b.nextIndex;
      (Builder(id + 1, b.changeMap[rg := id], b.store[id := NewChange(id, rg, group)], b.changes + [id]), id)
  }

  /** `change.addWitness(witness)`, skipped when the counterpart witness is filtered out. */
  function RecordWitness(b: Builder, id: nat, a: Alignment, ctx: Context): (r: Builder)
    requires Resolvable(a, ctx)
    ensures r.nextIndex == b.nextIndex && r.changeMap == b.changeMap && r.changes == b.changes
    ensures Filtered(a, ctx) || id !in b.store ==> r.store == b.store
    ensures !Filtered(a, ctx) && id in b.store ==>
              r.store == b.store[id := AddWitness(b.store[id], CounterpartOf(a, ctx).witnessId)]
  {
    if Filtered(a, ctx) || id !in b.store then b
    else b.(store := b.store[id := AddWitness(b.store[id], CounterpartOf(a, ctx).witnessId)])
  }

  /** One alignment: HeatmapView.java:387-419. */
  function FoldAlignment(b: Builder, a: Alignment, ctx: Context): (r: Builder)
    requires Resolvable(a, ctx)
    ensures r.changeMap.Keys == b.changeMap.Keys + {BaseRange(a, ctx)}
    ensures forall k :: k in b.changeMap ==> r.changeMap[k] == b.changeMap[k]
    ensures BaseRange(a, ctx) in b.changeMap ==> r.nextIndex == b.nextIndex && r.changes == b.changes
    ensures BaseRange(a, ctx) !in b.changeMap ==>
              r.nextIndex == b.nextIndex + 1 && r.changes == b.changes + [b.nextIndex]
  {
    var (b1, id) := LookupOrCreate(b, BaseRange(a, ctx), a.group);
    RecordWitness(b1, id, a, ctx)
  }

  lemma FoldAlignmentValid(b: Builder, a: Alignment, ctx: Context)
    requires Valid(b, ctx) && Resolvable(a, ctx)
    ensures Valid(FoldAlignment(b, a, ctx), ctx)
  {
    var rg := BaseRange(a, ctx);
    var (b1, id) := LookupOrCreate(b, rg, a.group);
    if rg !in b.changeMap {
      CreateValid(b, rg, a.group, ctx);
    }
    RecordValid(b1, id, a, ctx);
  }

  /** Every range keeps naming a stored change. */
  lemma FoldAlignmentMapInStore(b: Builder, a: Alignment, ctx: Context)
    requires MapInStore(b) && Resolvable(a, ctx)
    ensures MapInStore(FoldAlignment(b, a, ctx))
  {
  }

  /** Creating the change of a new range keeps the builder valid. */
  lemma CreateValid(b: Builder, rg: Range, group: int, ctx: Context)
    requires Valid(b, ctx) && rg !in b.changeMap
    ensures Valid(LookupOrCreate(b, rg, group).0, ctx)
  {
    var n := b.nextIndex;
    var c := NewChange(n, rg, group);
    var b1 := Builder(n + 1, b.changeMap[rg := n], b.store[n := c], b.changes + [n]);
    assert LookupOrCreate(b, rg, group).0 == b1;
    assert n !in b.store;
    NumberedExtend(b.store, n, c);
    ListExtend(b.store, b.changes, n, c);
    assert MapInStore(b1);
    assert |b1.changeMap| == n + 1;
    assert WitnessesAdmitted(b1.store, ctx);
  }

  lemma NumberedExtend(store: map<nat, Change>, n: nat, c: Change)
    requires Numbered(store, n) && c.index == n
    ensures Numbered(store[n := c], n + 1)
  {
  }

  lemma ListExtend(store: map<nat, Change>, s: seq<nat>, n: nat, c: Change)
    requires InStore(store, s) && Distinct(s) && n !in store
    ensures InStore(store[n := c], s + [n]) && Distinct(s + [n])
  {
  }

  /** Recording an admitted witness keeps the builder valid. */
  lemma RecordValid(b: Builder, id: nat, a: Alignment, ctx: Context)
    requires Valid(b, ctx) && Resolvable(a, ctx)
    ensures Valid(RecordWitness(b, id, a, ctx), ctx)
  {
    var r := RecordWitness(b, id, a, ctx);
    if !Filtered(a, ctx) && id in b.store {
      Renumbered(b.store, r.store, b.nextIndex);
      assert WitnessesAdmitted(r.store, ctx);
    }
  }

  /**
   * A change is created and appended only the first time its exact base
   * range is seen, with the next index; a range seen before reuses its
   * change, whether or not that change is still in the list, and adds
   * nothing to the list.
   */
  lemma FoldAlignmentDedup(b: Builder, a: Alignment, ctx: Context)
    requires Valid(b, ctx) && Resolvable(a, ctx)
    ensures var r := FoldAlignment(b, a, ctx);
            var rg := BaseRange(a, ctx);
            && (rg in b.changeMap ==>
                  r.nextIndex == b.nextIndex && r.changes == b.changes && r.changeMap == b.changeMap)
            && (rg !in b.changeMap ==>
                  && r.nextIndex == b.nextIndex + 1
                  && r.changes == b.changes + [b.nextIndex]
                  && r.changeMap == b.changeMap[rg := b.nextIndex]
                  && r.store[b.nextIndex].index == b.nextIndex
                  && r.store[b.nextIndex].range == rg
                  && r.store[b.nextIndex].group == a.group)
  {
  }

  /**
   * An alignment whose counterpart witness is filtered out changes no stored
   * change (beyond creating an empty one for a new range); otherwise exactly
   * the change of its base range gains the counterpart witness.
   */
  lemma FoldAlignmentWitness(b: Builder, a: Alignment, ctx: Context)
    requires Valid(b, ctx) && Resolvable(a, ctx)
    ensures var r := FoldAlignment(b, a, ctx);
            var rg := BaseRange(a, ctx);
            var id := r.changeMap[rg];
            var before := if rg in b.changeMap then b.store[id] else NewChange(b.nextIndex, rg, a.group);
            && id in r.store
            && (Filtered(a, ctx) ==> r.store[id] == before)
            && (!Filtered(a, ctx) ==> r.store[id].witnesses == before.witnesses + {CounterpartOf(a, ctx).witnessId}
                                      && r.store[id].range == before.range)
            && (forall k :: k in b.store && k != id ==> r.store[k] == b.store[k])
  {
  }

  /** The ranges of the base annotations of a list of alignments. */
  function BaseRanges(s: seq<Alignment>, ctx: Context): set<Range>
    requires AllResolvable(s, ctx)
  {
    set k | 0 <= k < |s| :: BaseRange(s[k], ctx)
  }

  /** Folding a list of alignments, first to last. */
  function FoldAll(b: Builder, s: seq<Alignment>, ctx: Context): Builder
    requires AllResolvable(s, ctx)
  {
    if |s| == 0 then b
    else FoldAlignment(FoldAll(b, s[..|s| - 1], ctx), s[|s| - 1], ctx)
  }

  lemma {:induction false} FoldAllValid(b: Builder, s: seq<Alignment>, ctx: Context)
    requires Valid(b, ctx) && AllResolvable(s, ctx)
    ensures Valid(FoldAll(b, s, ctx), ctx)
  {
    if |s| > 0 {
      FoldAllValid(b, s[..|s| - 1], ctx);
      FoldAlignmentValid(FoldAll(b, s[..|s| - 1], ctx), s[|s| - 1], ctx);
    }
  }

  /**
   * changeMap only grows: every range already seen keeps its change and the
   * new keys are exactly the base ranges read.
   */
  lemma {:induction false} FoldAllKeys(b: Builder, s: seq<Alignment>, ctx: Context)
    requires AllResolvable(s, ctx)
    ensures var r := FoldAll(b, s, ctx);
            && r.changeMap.Keys == b.changeMap.Keys + BaseRanges(s, ctx)
            && (forall k :: k in b.changeMap ==> r.changeMap[k] == b.changeMap[k])
  {
    if |s| > 0 {
      FoldAllKeys(b, s[..|s| - 1], ctx);
      BaseRangesLast(s, ctx);
    }
  }

  lemma BaseRangesLast(s: seq<Alignment>, ctx: Context)
    requires |s| > 0 && AllResolvable(s, ctx)
    ensures AllResolvable(s[..|s| - 1], ctx)
    ensures BaseRanges(s, ctx) == BaseRanges(s[..|s| - 1], ctx) + {BaseRange(s[|s| - 1], ctx)}
  {
    var s0 := s[..|s| - 1];
    forall x | x in BaseRanges(s, ctx) ensures x in BaseRanges(s0, ctx) + {BaseRange(s[|s| - 1], ctx)} {
      var k :| 0 <= k < |s| && BaseRange(s[k], ctx) == x;
      if k < |s| - 1 { assert s0[k] == s[k]; }
    }
    forall x | x in BaseRanges(s0, ctx) ensures x in BaseRanges(s, ctx) {
      var k :| 0 <= k < |s0| && BaseRange(s0[k], ctx) == x;
      assert s[k] == s0[k];
    }
  }

  /** One change is created per range not seen before, and none otherwise. */
  lemma {:induction false} FoldAllCreates(b: Builder, s: seq<Alignment>, ctx: Context)
    requires AllResolvable(s, ctx)
    ensures var r := FoldAll(b, s, ctx);
            b.changeMap.Keys <= r.changeMap.Keys
            && r.nextIndex == b.nextIndex + |r.changeMap.Keys - b.changeMap.Keys|
  {
    if |s| > 0 {
      var s0 := s[..|s| - 1];
      var a := s[|s| - 1];
      FoldAllCreates(b, s0, ctx);
      var m := FoldAll(b, s0, ctx);
      var r := FoldAlignment(m, a, ctx);
      CountStep(b.changeMap.Keys, m.changeMap.Keys, r.changeMap.Keys, BaseRange(a, ctx),
                b.nextIndex, m.nextIndex, r.nextIndex);
    }
  }

  lemma CountStep(bk: set<Range>, mk: set<Range>, rk: set<Range>, rg: Range, bn: nat, mn: nat, rn: nat)
    requires bk <= mk && mn == bn + |mk - bk| && rk == mk + {rg}
    requires rg in mk ==> rn == mn
    requires rg !in mk ==> rn == mn + 1
    ensures bk <= rk && rn == bn + |rk - bk|
  {
    if rg !in mk {
      assert rk - bk == (mk - bk) + {rg};
    } else {
      assert rk == mk;
    }
  }

  /**
   * The fold only appends to the list, and leaves it empty only when it was
   * empty and nothing was read.
   */
  lemma {:induction false} FoldAllAppends(b: Builder, s: seq<Alignment>, ctx: Context)
    requires Valid(b, ctx) && AllResolvable(s, ctx)
    ensures var r := FoldAll(b, s, ctx);
            && |b.changes| <= |r.changes| && r.changes[..|b.changes|] == b.changes
            && (r.changes == [] <==> b.changes == [] && s == [])
  {
    if |s| > 0 {
      var s0 := s[..|s| - 1];
      FoldAllAppends(b, s0, ctx);
      FoldAllValid(b, s0, ctx);
      var m := FoldAll(b, s0, ctx);
      var r := FoldAlignment(m, s[|s| - 1], ctx);
      assert r.changes[..|b.changes|] == m.changes[..|b.changes|];
    }
  }

  lemma {:induction false} FoldAllAppend(b: Builder, s: seq<Alignment>, t: seq<Alignment>, ctx: Context)
    requires AllResolvable(s, ctx) && AllResolvable(t, ctx)
    ensures AllResolvable(s + t, ctx)
    ensures FoldAll(b, s + t, ctx) == FoldAll(FoldAll(b, s, ctx), t, ctx)
    decreases |t|
  {
    if |t| > 0 {
      assert (s + t)[..|s + t| - 1] == s + t[..|t| - 1];
      assert (s + t)[|s + t| - 1] == t[|t| - 1];
      FoldAllAppend(b, s, t[..|t| - 1], ctx);
    } else {
      assert s + t == s;
    }
  }

  // ---------------------------------------------------------------------
  // The merge walk (HeatmapView.java:428-466)
  // ---------------------------------------------------------------------

  /** The walk's state: the changes, the list kept so far, and `prior`. */
  datatype Walk = Walk(store: map<nat, Change>, kept: seq<nat>, prior: Option<nat>)

  /** `prior` as it is after the widening at :434-441 (unchanged unless it is empty). */
  function WidenedPrior(p: Change, ctx: Context): (q: Change)
    ensures q.index == p.index && q.group == p.group && q.witnesses == p.witnesses
    ensures Length(p.range) != 0 ==> q == p
    ensures Length(p.range) == 0 ==> q.range == Widen(p.range, ctx.nextTokenStart)
  {
    if Length(p.range) == 0 then p.(range := Widen(p.range, ctx.nextTokenStart)) else p
  }

  /** The overlap test of :445, made only when `prior` was empty and has just been widened. */
  predicate Overlaps(prior: Change, current: Change, ctx: Context)
  {
    Length(prior.range) == 0 && current.range.start <= WidenedPrior(prior, ctx).range.start
  }

  /**
   * One step of the walk with `current` just returned by the iterator.
   * With no prior, `current` is kept and becomes prior.  Otherwise an empty
   * prior is widened; if `current` then starts at or before it, `current`
   * is removed from the list and still becomes prior; else, if `current`
   * matches prior in group, witnesses and frequency, it is merged into prior
   * and removed; else it is kept and becomes prior.
   */
  function WalkStep(w: Walk, current: nat, ctx: Context): (r: Walk)
    requires current in w.store
    requires w.prior.Some? ==> w.prior.value in w.store && w.prior.value != current
  {
    if w.prior.None? then Walk(w.store, w.kept + [current], Some(current))
    else
      var p := w.prior.value;
      var q := WidenedPrior(w.store[p], ctx);
      var c := w.store[current];
      if Overlaps(w.store[p], c, ctx) then Walk(w.store[p := q], w.kept, Some(current))
      else if Mergeable(c, q) then Walk(w.store[p := Merge(q, c)], w.kept, w.prior)
      else Walk(w.store[p := q], w.kept + [current], Some(current))
  }

  /**
   * A step rewrites at most prior, keeping its index, and keeps the other
   * changes; it appends `current` to the list or leaves the list alone, and
   * prior becomes `current` or stays.  With no prior, `current` is kept and
   * becomes prior.
   */
  lemma StepFrame(w: Walk, current: nat, ctx: Context)
    requires current in w.store
    requires w.prior.Some? ==> w.prior.value in w.store && w.prior.value != current
    ensures var r := WalkStep(w, current, ctx);
            && (forall id :: id in r.store <==> id in w.store)
            && (forall id :: id in w.store ==> r.store[id].index == w.store[id].index)
            && (forall id :: id in w.store && (w.prior.None? || id != w.prior.value) ==> r.store[id] == w.store[id])
            && (w.prior.None? ==> r == Walk(w.store, w.kept + [current], Some(current)))
            && (r.kept == w.kept + [current] || r.kept == w.kept)
            && (r.prior == Some(current) || r.prior == w.prior)
  {
    if w.prior.Some? {
      var p := w.prior.value;
      StepCases(w, current, ctx);
      var q := WidenedPrior(w.store[p], ctx);
      UpdateFrame(w.store, p, q);
      UpdateFrame(w.store, p, Merge(q, w.store[current]));
    }
  }

  /** Rewriting one stored change, index kept, leaves the others alone. */
  lemma UpdateFrame(store: map<nat, Change>, p: nat, v: Change)
    requires p in store && v.index == store[p].index
    ensures var st := store[p := v];
            && (forall id :: id in st <==> id in store)
            && (forall id :: id in store ==> st[id].index == store[id].index)
            && (forall id :: id in store && id != p ==> st[id] == store[id])
  {
  }

  /**
   * In a step with a prior: `current` stays in the list exactly when it does
   * not overlap the (widened) prior and does not match it; it is merged into
   * prior exactly when it does not overlap and matches; `current` becomes the
   * new prior exactly when it is not merged.
   */
  lemma StepDecision(w: Walk, current: nat, ctx: Context)
    requires current in w.store && w.prior.Some? && w.prior.value in w.store && w.prior.value != current
    ensures var r := WalkStep(w, current, ctx);
            var p := w.prior.value;
            var q := WidenedPrior(w.store[p], ctx);
            var c := w.store[current];
            var merged := !Overlaps(w.store[p], c, ctx) && Mergeable(c, q);
            && (r.kept == w.kept + [current] <==> !Overlaps(w.store[p], c, ctx) && !Mergeable(c, q))
            && (merged ==> r.store[p] == Merge(q, c) && r.prior == w.prior)
            && (!merged ==> r.store[p] == q && r.prior == Some(current))
  {
    var r := WalkStep(w, current, ctx);
    assert |r.kept| == |w.kept| ==> r.kept != w.kept + [current];
  }

  /** The three outcomes of a step with a prior, one by one. */
  lemma StepCases(w: Walk, current: nat, ctx: Context)
    requires current in w.store && w.prior.Some? && w.prior.value in w.store && w.prior.value != current
    ensures var r := WalkStep(w, current, ctx);
            var p := w.prior.value;
            var q := WidenedPrior(w.store[p], ctx);
            var c := w.store[current];
            && (Overlaps(w.store[p], c, ctx) ==> r == Walk(w.store[p := q], w.kept, Some(current)))
            && (!Overlaps(w.store[p], c, ctx) && Mergeable(c, q) ==> r == Walk(w.store[p := Merge(q, c)], w.kept, w.prior))
            && (!Overlaps(w.store[p], c, ctx) && !Mergeable(c, q) ==>
                  r == Walk(w.store[p := q], w.kept + [current], Some(current)))
  {
  }

  /** The walk over the sorted list `s`, first to last. */
  function WalkAll(store: map<nat, Change>, s: seq<nat>, ctx: Context): (r: Walk)
    requires InStore(store, s) && Distinct(s)
    ensures r.store.Keys == store.Keys
    ensures forall id :: id in store ==> r.store[id].index == store[id].index
    ensures forall i :: 0 <= i < |r.kept| ==> r.kept[i] in s
    ensures Distinct(r.kept)
    ensures r.prior.None? <==> |s| == 0
    ensures r.prior.Some? ==> r.prior.value in s
    ensures |s| > 0 ==> |r.kept| > 0 && r.kept[0] == s[0]
  {
    if |s| == 0 then Walk(store, [], None)
    else
      var s0 := s[..|s| - 1];
      var x := s[|s| - 1];
      assert forall i :: 0 <= i < |s0| ==> s0[i] != x;
      var w := WalkAll(store, s0, ctx);
      StepFrame(w, x, ctx);
      var r := WalkStep(w, x, ctx);
      assert |s0| > 0 ==> s0[0] == s[0];
      r
  }

  /** Walking one more change is one more step. */
  lemma WalkAllNext(store: map<nat, Change>, s: seq<nat>, i: nat, ctx: Context)
    requires i < |s| && InStore(store, s) && Distinct(s)
    ensures InStore(store, s[..i]) && Distinct(s[..i]) && InStore(store, s[..i + 1]) && Distinct(s[..i + 1])
    ensures var w := WalkAll(store, s[..i], ctx);
            && s[i] in w.store && (w.prior.Some? ==> w.prior.value in w.store && w.prior.value != s[i])
            && WalkAll(store, s[..i + 1], ctx) == WalkStep(w, s[i], ctx)
  {
    assert s[..i + 1][..i] == s[..i];
    assert forall k :: 0 <= k < i ==> s[..i][k] != s[i];
  }

  /** The walk never writes a witness outside the stored ones. */
  lemma {:induction false} WalkAdmitted(store: map<nat, Change>, s: seq<nat>, ctx: Context)
    requires InStore(store, s) && Distinct(s) && WitnessesAdmitted(store, ctx)
    ensures WitnessesAdmitted(WalkAll(store, s, ctx).store, ctx)
  {
    if |s| > 0 {
      var s0 := s[..|s| - 1];
      assert forall i :: 0 <= i < |s0| ==> s0[i] != s[|s| - 1];
      WalkAdmitted(store, s0, ctx);
      StepAdmitted(WalkAll(store, s0, ctx), s[|s| - 1], ctx);
    }
  }

  lemma StepAdmitted(w: Walk, current: nat, ctx: Context)
    requires current in w.store
    requires w.prior.Some? ==> w.prior.value in w.store && w.prior.value != current
    requires WitnessesAdmitted(w.store, ctx)
    ensures WitnessesAdmitted(WalkStep(w, current, ctx).store, ctx)
  {
    if w.prior.Some? {
      var p := w.prior.value;
      var q := WidenedPrior(w.store[p], ctx);
      var c := w.store[current];
      StepCases(w, current, ctx);
      assert forall x :: x in c.witnesses ==> Admitted(x, ctx);
      assert forall x :: x in q.witnesses ==> Admitted(x, ctx);
      AdmittedUpdate(w.store, p, q, ctx);
      AdmittedUpdate(w.store, p, Merge(q, c), ctx);
    }
  }

  lemma AdmittedUpdate(store: map<nat, Change>, p: nat, v: Change, ctx: Context)
    requires WitnessesAdmitted(store, ctx) && forall x :: x in v.witnesses ==> Admitted(x, ctx)
    ensures WitnessesAdmitted(store[p := v], ctx)
  {
  }


  // ---------------------------------------------------------------------
  // The last change (HeatmapView.java:468-483)
  // ---------------------------------------------------------------------

  /**
   * The widening of the last prior when it is still empty: inside the text it
   * becomes one unit at the next token start (the two branches of :473-477
   * give the same range); at or past the end of the text it becomes the unit
   * before its start, unless it starts at 0, when it stays empty.
   */
  function FinalStep(c: Change, ctx: Context): (d: Change)
    ensures d.index == c.index && d.group == c.group && d.witnesses == c.witnesses
    ensures Length(c.range) != 0 ==> d == c
    ensures Length(c.range) == 0 && c.range.start < ctx.textLength ==>
              d.range == Range(ctx.nextTokenStart(c.range.start), ctx.nextTokenStart(c.range.start) + 1)
    ensures Length(c.range) == 0 && c.range.start >= ctx.textLength && c.range.start > 0 ==>
              d.range == Range(c.range.start - 1, c.range.start)
    ensures Length(c.range) == 0 && c.range.start >= ctx.textLength && c.range.start <= 0 ==> d == c
  {
    if Length(c.range) != 0 then c
    else
      var start := c.range.start;
      if start < ctx.textLength then
        var newStart := ctx.nextTokenStart(start);
        if newStart == start then c.(range := Range(start, start + 1))
        else c.(range := Range(newStart, newStart + 1))
      else if start > 0 then c.(range := Range(start - 1, start))
      else c
  }

  // ---------------------------------------------------------------------
  // One witness, and all of them (HeatmapView.java:366-487)
  // ---------------------------------------------------------------------

  /**
   * The pass for one witness: fold its alignments, sort, walk, widen the
   * last prior.  It fails exactly when the list is still empty, which is
   * when prior is null at :469.
   */
  function Pass(b: Builder, witnessId: int, ctx: Context): (r: Result<Builder, Crash>)
    requires Valid(b, ctx) && AllResolvable(ctx.pairs(witnessId), ctx)
    ensures r.Success? ==> Valid(r.value, ctx)
    ensures r.Success? ==> var f := FoldAll(b, ctx.pairs(witnessId), ctx);
                           r.value.changeMap == f.changeMap && r.value.nextIndex == f.nextIndex
    ensures r.Failure? <==> b.nextIndex == 0 && ctx.pairs(witnessId) == []
  {
    var f := FoldAll(b, ctx.pairs(witnessId), ctx);
    FoldAllValid(b, ctx.pairs(witnessId), ctx);
    FoldAllAppends(b, ctx.pairs(witnessId), ctx);
    var sorted := Sort(f.store, f.changes);
    SortDistinct(f.store, f.changes);
    var w := WalkAll(f.store, sorted, ctx);
    if w.prior.None? then Failure(NullPrior)
    else
      var p := w.prior.value;
      AssembleValid(f, sorted, ctx);
      Success(Builder(f.nextIndex, f.changeMap, w.store[p := FinalStep(w.store[p], ctx)], w.kept))
  }

  /** The list and store left by the walk and the final widening form a valid builder. */
  lemma AssembleValid(f: Builder, sorted: seq<nat>, ctx: Context)
    requires Valid(f, ctx) && InStore(f.store, sorted) && Distinct(sorted)
    requires multiset(sorted) == multiset(f.changes) && |sorted| > 0
    ensures var w := WalkAll(f.store, sorted, ctx);
            var p := w.prior.value;
            Valid(Builder(f.nextIndex, f.changeMap, w.store[p := FinalStep(w.store[p], ctx)], w.kept), ctx)
  {
    var w := WalkAll(f.store, sorted, ctx);
    var p := w.prior.value;
    var st := w.store[p := FinalStep(w.store[p], ctx)];
    assert st.Keys == f.store.Keys;
    Renumbered(f.store, st, f.nextIndex);
    WalkAdmitted(f.store, sorted, ctx);
    assert WitnessesAdmitted(st, ctx) by {
      forall id, x | id in st && x in st[id].witnesses ensures Admitted(x, ctx) {
        assert x in w.store[id].witnesses;
      }
    }
    assert f.changes != [] by {
      assert sorted[0] in multiset(f.changes);
    }
    assert InStore(st, w.kept);
  }

  /** The alignments of every witness in `ids` but the base can be read. */
  predicate ReadableIds(ids: seq<int>, ctx: Context)
  {
    forall k :: 0 <= k < |ids| && ids[k] != ctx.baseId ==> AllResolvable(ctx.pairs(ids[k]), ctx)
  }

  /** Every witness in `ids`, in order; the base is skipped. */
  function BuildFrom(ids: seq<int>, ctx: Context): (r: Result<Builder, Crash>)
    requires ReadableIds(ids, ctx)
    ensures r.Success? ==> Valid(r.value, ctx)
  {
    if |ids| == 0 then Success(Empty)
    else
      var prefix := BuildFrom(ids[..|ids| - 1], ctx);
      var w := ids[|ids| - 1];
      if prefix.Failure? then prefix
      else if w == ctx.baseId then prefix
      else Pass(prefix.value, w, ctx)
  }

  /**
   * A pass never forgets a range: changeMap keeps every entry it had, gains
   * exactly the base ranges of the witness's alignments, and one change is
   * created per new range; after a pass the list is not empty.
   */
  lemma PassGrows(b: Builder, witnessId: int, ctx: Context)
    requires Valid(b, ctx) && AllResolvable(ctx.pairs(witnessId), ctx)
    ensures var r := Pass(b, witnessId, ctx);
            r.Success? ==>
              && r.value.changeMap.Keys == b.changeMap.Keys + BaseRanges(ctx.pairs(witnessId), ctx)
              && (forall k :: k in b.changeMap ==> r.value.changeMap[k] == b.changeMap[k])
              && r.value.nextIndex == b.nextIndex + |r.value.changeMap.Keys - b.changeMap.Keys|
              && r.value.nextIndex > 0 && r.value.changes != []
  {
    FoldAllKeys(b, ctx.pairs(witnessId), ctx);
    FoldAllCreates(b, ctx.pairs(witnessId), ctx);
    var r := Pass(b, witnessId, ctx);
    if r.Success? {
      var f := FoldAll(b, ctx.pairs(witnessId), ctx);
      FoldAllAppends(b, ctx.pairs(witnessId), ctx);
      assert f.nextIndex == 0 ==> f.changes == [] by {
        FoldAllValid(b, ctx.pairs(witnessId), ctx);
      }
    }
  }

  predicate AllBase(ids: seq<int>, baseId: int)
  {
    forall k :: 0 <= k < |ids| ==> ids[k] == baseId
  }

  /**
   * The builder crashes at the `k`-th id: it is the first id other than the
   * base, and that witness has no alignment with the base.
   */
  predicate CrashesAt(ids: seq<int>, k: int, ctx: Context)
  {
    && 0 <= k < |ids| && ids[k] != ctx.baseId
    && AllBase(ids[..k], ctx.baseId)
    && ctx.pairs(ids[k]) == []
  }

  /** Reading one more witness. */
  lemma BuildFromNext(ids: seq<int>, i: nat, ctx: Context)
    requires i < |ids|
    requires ReadableIds(ids, ctx)
    ensures ReadableIds(ids[..i], ctx) && ReadableIds(ids[..i + 1], ctx)
    ensures var prefix := BuildFrom(ids[..i], ctx);
            BuildFrom(ids[..i + 1], ctx)
            == if prefix.Failure? || ids[i] == ctx.baseId then prefix else Pass(prefix.value, ids[i], ctx)
  {
    assert ids[..i + 1][..i] == ids[..i];
  }

  /** The counter stays at 0 exactly as long as only the base has been read. */
  lemma {:induction false} BuildNextIndex(ids: seq<int>, ctx: Context)
    requires ReadableIds(ids, ctx)
    ensures var r := BuildFrom(ids, ctx);
            r.Success? ==> (r.value.nextIndex == 0 <==> AllBase(ids, ctx.baseId))
  {
    if |ids| > 0 {
      var p := ids[..|ids| - 1];
      var w := ids[|ids| - 1];
      BuildNextIndex(p, ctx);
      var prefix := BuildFrom(p, ctx);
      if prefix.Success? && w != ctx.baseId {
        PassGrows(prefix.value, w, ctx);
      }
      AllBaseLast(ids, ctx.baseId);
    }
  }

  lemma AllBaseLast(ids: seq<int>, baseId: int)
    requires |ids| > 0
    ensures AllBase(ids, baseId) <==> AllBase(ids[..|ids| - 1], baseId) && ids[|ids| - 1] == baseId
  {
    var p := ids[..|ids| - 1];
    assert forall k :: 0 <= k < |p| ==> p[k] == ids[k];
  }

  /**
   * The builder fails exactly when the first witness other than the base has
   * no alignment with it: `prior` is then still null at :469.  Once a change
   * exists, later witnesses with no alignment are harmless.
   */
  lemma {:induction false} CrashIff(ids: seq<int>, ctx: Context)
    requires ReadableIds(ids, ctx)
    ensures BuildFrom(ids, ctx).Failure? <==> exists k :: CrashesAt(ids, k, ctx)
  {
    if |ids| > 0 {
      var p := ids[..|ids| - 1];
      CrashIff(p, ctx);
      BuildNextIndex(p, ctx);
      CrashesAtLast(ids, ctx);
    }
  }

  /** A crash point of `ids` is one of its prefix, or its last id. */
  lemma CrashesAtLast(ids: seq<int>, ctx: Context)
    requires |ids| > 0
    ensures var n := |ids| - 1;
            && (forall k :: 0 <= k < n ==> (CrashesAt(ids, k, ctx) <==> CrashesAt(ids[..n], k, ctx)))
            && (CrashesAt(ids, n, ctx) <==> ids[n] != ctx.baseId && AllBase(ids[..n], ctx.baseId) && ctx.pairs(ids[n]) == [])
            && ((exists k :: CrashesAt(ids, k, ctx)) <==> (exists k :: CrashesAt(ids[..n], k, ctx)) || CrashesAt(ids, n, ctx))
  {
    var n := |ids| - 1;
    var p := ids[..n];
    forall k | 0 <= k < n ensures CrashesAt(ids, k, ctx) <==> CrashesAt(p, k, ctx) {
      assert ids[..k] == p[..k];
    }
    if exists k :: CrashesAt(ids, k, ctx) {
      var k :| CrashesAt(ids, k, ctx);
      assert k < n ==> CrashesAt(p, k, ctx);
    }
  }

  /** Once the builder has crashed, reading more witnesses does not revive it. */
  lemma {:induction false} FailureSticks(ids: seq<int>, n: nat, ctx: Context)
    requires n <= |ids|
    requires ReadableIds(ids, ctx)
    requires BuildFrom(ids[..n], ctx).Failure?
    ensures BuildFrom(ids, ctx).Failure?
  {
    if n < |ids| {
      var p := ids[..|ids| - 1];
      assert p[..n] == ids[..n];
      FailureSticks(p, n, ctx);
    } else {
      assert ids[..n] == ids;
    }
  }

  /** Running the builder, in terms of the crash condition alone. */
  lemma ChangeListCrash(ctx: Context)
    requires PairsResolvable(ctx)
    ensures ChangeListSpec(ctx).Failure? <==> exists k :: CrashesAt(ctx.witnessIds, k, ctx)
  {
    CrashIff(ctx.witnessIds, ctx);
  }

  /** The changes of a builder, in list order. */
  function ChangesOf(b: Builder, ctx: Context): (cs: seq<Change>)
    requires Valid(b, ctx)
    ensures |cs| == |b.changes|
    ensures forall i :: 0 <= i < |cs| ==> cs[i] == b.store[b.changes[i]] && cs[i].index == b.changes[i]
  {
    seq(|b.changes|, i requires 0 <= i < |b.changes| => b.store[b.changes[i]])
  }

  /** `generateHeatmapChangelist`: the list returned, or the crash. */
  function ChangeListSpec(ctx: Context): Result<seq<Change>, Crash>
    requires PairsResolvable(ctx)
  {
    match BuildFrom(ctx.witnessIds, ctx)
    case Failure(e) => Failure(e)
    case Success(b) => Success(ChangesOf(b, ctx))
  }

  /** The change list, or the crash, from the builder run over every witness. */
  lemma ChangeListOfBuild(ctx: Context)
    requires PairsResolvable(ctx)
    ensures ReadableIds(ctx.witnessIds, ctx)
    ensures var r := BuildFrom(ctx.witnessIds, ctx);
            ChangeListSpec(ctx) == if r.Failure? then Failure(NullPrior) else Success(ChangesOf(r.value, ctx))
  {
    var r := BuildFrom(ctx.witnessIds, ctx);
    if r.Failure? {
      assert r.error == NullPrior;
    }
  }

  // ---------------------------------------------------------------------
  // What the returned list promises
  // ---------------------------------------------------------------------

  /** No stored change has a range that ends before it starts. */
  ghost predicate StoreWellFormed(store: map<nat, Change>)
  {
    forall id :: id in store ==> WellFormed(store[id].range)
  }

  /**
   * The walk so far: every kept change other than the current prior has a
   * non-empty range, and there is no prior only while nothing is kept.
   */
  ghost predicate VisibleSoFar(w: Walk)
  {
    && StoreWellFormed(w.store)
    && (forall i :: 0 <= i < |w.kept| && w.kept[i] in w.store && Some(w.kept[i]) != w.prior ==>
          Length(w.store[w.kept[i]].range) > 0)
    && (w.prior.None? ==> w.kept == [])
  }

  /** A widened prior is never empty. */
  lemma WidenedNonEmpty(p: Change, ctx: Context)
    requires WellFormed(p.range)
    ensures Length(WidenedPrior(p, ctx).range) > 0
  {
  }

  /** Merging well-formed ranges gives a well-formed range. */
  lemma MergeWellFormed(p: Change, c: Change)
    requires WellFormed(p.range) && WellFormed(c.range)
    ensures WellFormed(Merge(p, c).range) && Length(Merge(p, c).range) >= Length(p.range)
  {
  }

  /** One step keeps every kept change but the prior non-empty. */
  lemma StepVisible(w: Walk, current: nat, ctx: Context)
    requires current in w.store
    requires w.prior.Some? ==> w.prior.value in w.store && w.prior.value != current
    requires current !in w.kept && VisibleSoFar(w)
    ensures VisibleSoFar(WalkStep(w, current, ctx))
  {
    if w.prior.Some? {
      var p := w.prior.value;
      var q := WidenedPrior(w.store[p], ctx);
      var c := w.store[current];
      StepCases(w, current, ctx);
      WidenedNonEmpty(w.store[p], ctx);
      MergeWellFormed(q, c);
      var r := WalkStep(w, current, ctx);
      assert StoreWellFormed(r.store) by {
        forall id | id in r.store ensures WellFormed(r.store[id].range) {
          if id != p { assert r.store[id] == w.store[id]; }
        }
      }
      forall i | 0 <= i < |r.kept| && r.kept[i] in r.store && Some(r.kept[i]) != r.prior
        ensures Length(r.store[r.kept[i]].range) > 0
      {
        if i < |w.kept| {
          assert r.kept[i] == w.kept[i];
          if w.kept[i] != p {
            assert r.store[w.kept[i]] == w.store[w.kept[i]];
          }
        }
      }
    }
  }

  /** The walk leaves every kept change but the last prior non-empty. */
  lemma {:induction false} WalkVisible(store: map<nat, Change>, s: seq<nat>, ctx: Context)
    requires InStore(store, s) && Distinct(s) && StoreWellFormed(store)
    ensures VisibleSoFar(WalkAll(store, s, ctx))
  {
    if |s| > 0 {
      var s0 := s[..|s| - 1];
      var x := s[|s| - 1];
      assert forall i :: 0 <= i < |s0| ==> s0[i] != x;
      WalkVisible(store, s0, ctx);
      var w := WalkAll(store, s0, ctx);
      assert x !in w.kept;
      StepFrame(w, x, ctx);
      StepVisible(w, x, ctx);
    }
  }

  /** Folding alignments creates only changes with well-formed ranges. */
  lemma {:induction false} FoldAllWellFormed(b: Builder, s: seq<Alignment>, ctx: Context)
    requires AllResolvable(s, ctx) && StoreWellFormed(b.store)
    ensures StoreWellFormed(FoldAll(b, s, ctx).store)
  {
    if |s| > 0 {
      FoldAllWellFormed(b, s[..|s| - 1], ctx);
    }
  }

  /**
   * After a pass every listed change has a non-empty range when the base
   * text is not empty: the walk widened every kept change but the last
   * prior, and the final step widened that one.
   */
  lemma PassVisible(b: Builder, witnessId: int, ctx: Context)
    requires Valid(b, ctx) && AllResolvable(ctx.pairs(witnessId), ctx) && StoreWellFormed(b.store)
    ensures var r := Pass(b, witnessId, ctx);
            r.Success? ==>
              && StoreWellFormed(r.value.store)
              && (ctx.textLength > 0 ==>
                    forall i :: 0 <= i < |r.value.changes| ==> Length(r.value.store[r.value.changes[i]].range) > 0)
  {
    var f := FoldAll(b, ctx.pairs(witnessId), ctx);
    FoldAllValid(b, ctx.pairs(witnessId), ctx);
    var sorted := Sort(f.store, f.changes);
    SortDistinct(f.store, f.changes);
    var w := WalkAll(f.store, sorted, ctx);
    if w.prior.Some? {
      var p := w.prior.value;
      assert Pass(b, witnessId, ctx)
             == Success(Builder(f.nextIndex, f.changeMap, w.store[p := FinalStep(w.store[p], ctx)], w.kept)) by {
        PassOf(b, witnessId, ctx, f, sorted, w);
      }
      assert VisibleSoFar(w) && forall i :: 0 <= i < |w.kept| ==> w.kept[i] in w.store by {
        FoldAllWellFormed(b, ctx.pairs(witnessId), ctx);
        WalkVisible(f.store, sorted, ctx);
      }
      FinalVisible(w, ctx);
    } else {
      PassFails(b, witnessId, ctx, f, sorted, w);
    }
  }

  lemma PassFails(b: Builder, witnessId: int, ctx: Context, f: Builder, sorted: seq<nat>, w: Walk)
    requires Valid(b, ctx) && AllResolvable(ctx.pairs(witnessId), ctx)
    requires FoldAll(b, ctx.pairs(witnessId), ctx) == f && Indexed(f.store) && InStore(f.store, f.changes)
    requires Distinct(f.changes) && Sort(f.store, f.changes) == sorted
    requires InStore(f.store, sorted) && Distinct(sorted) && WalkAll(f.store, sorted, ctx) == w && w.prior.None?
    ensures Pass(b, witnessId, ctx) == Failure(NullPrior)
  {
  }

  /** The final widening of prior keeps the store well formed and, for a non-empty text, the list non-empty. */
  lemma FinalVisible(w: Walk, ctx: Context)
    requires VisibleSoFar(w) && w.prior.Some? && w.prior.value in w.store
    requires forall i :: 0 <= i < |w.kept| ==> w.kept[i] in w.store
    ensures var p := w.prior.value;
            var st := w.store[p := FinalStep(w.store[p], ctx)];
            && StoreWellFormed(st)
            && (ctx.textLength > 0 ==> forall i :: 0 <= i < |w.kept| ==> Length(st[w.kept[i]].range) > 0)
  {
    var p := w.prior.value;
    var st := w.store[p := FinalStep(w.store[p], ctx)];
    assert WellFormed(w.store[p].range);
    forall id | id in st ensures WellFormed(st[id].range) {
      if id != p { assert st[id] == w.store[id]; }
    }
    if ctx.textLength > 0 {
      forall i | 0 <= i < |w.kept| ensures Length(st[w.kept[i]].range) > 0 {
        if w.kept[i] != p {
          assert st[w.kept[i]] == w.store[w.kept[i]];
        }
      }
    }
  }

  /** Every change listed after any run of the builder is well formed, and non-empty for a non-empty text. */
  lemma {:induction false} BuildVisible(ids: seq<int>, ctx: Context)
    requires ReadableIds(ids, ctx)
    ensures var r := BuildFrom(ids, ctx);
            r.Success? ==>
              && StoreWellFormed(r.value.store)
              && (ctx.textLength > 0 ==>
                    forall i :: 0 <= i < |r.value.changes| ==> Length(r.value.store[r.value.changes[i]].range) > 0)
  {
    if |ids| > 0 {
      var p := ids[..|ids| - 1];
      BuildFromNext(ids, |ids| - 1, ctx);
      assert ids[..|ids|] == ids;
      BuildVisible(p, ctx);
      var prefix := BuildFrom(p, ctx);
      if prefix.Success? && ids[|ids| - 1] != ctx.baseId {
        PassVisible(prefix.value, ids[|ids| - 1], ctx);
      }
    }
  }

  /**
   * The walk widens empty changes so that they are visible
   * (HeatmapView.java:433 and :467): when the base text is not empty, no
   * change of the returned list has a zero-length range.
   */
  lemma ChangeListVisible(ctx: Context)
    requires PairsResolvable(ctx) && ctx.textLength > 0
    ensures ChangeListSpec(ctx).Success? ==> forall c :: c in ChangeListSpec(ctx).value ==> Length(c.range) > 0
  {
    ChangeListOfBuild(ctx);
    BuildVisible(ctx.witnessIds, ctx);
  }

  // ---------------------------------------------------------------------
  // The overlap branch as written (HeatmapView.java:443-450)
  // ---------------------------------------------------------------------

  /**
   * A run of the builder: the base 0 is compared with witness 2, which
   * differs over [4,6), and then with witness 1, which differs over the
   * insertion point 3 and over [7,9); the next token after offset 3 starts
   * at 4.  All three differences are in group 0.
   */
  const LostChangeContext := Context(0, [0, 2, 1], [], 20, LostNextToken, LostPairs)

  const FirstAlignment := Alignment(0, [AlignedAnnotation(0, Range(4, 6)), AlignedAnnotation(2, Range(4, 5))])
  const InsertAlignment := Alignment(0, [AlignedAnnotation(0, Range(3, 3)), AlignedAnnotation(1, Range(3, 4))])
  const LaterAlignment := Alignment(0, [AlignedAnnotation(0, Range(7, 9)), AlignedAnnotation(1, Range(7, 8))])

  function LostPairs(w: int): seq<Alignment>
  {
    if w == 2 then [FirstAlignment] else if w == 1 then [InsertAlignment, LaterAlignment] else []
  }

  function LostNextToken(offset: int): int
  {
    if offset == 3 then 4 else offset
  }

  const LostChange := Change(0, Range(4, 6), 0, {2})
  const Insertion := Change(1, Range(3, 3), 0, {1})
  const LaterChange := Change(2, Range(7, 9), 0, {1})
  const WidenedInsertion := Change(1, Range(4, 5), 0, {1})

  /** After the pass of witness 2: one change, [4,6), listed. */
  const FirstBuilder := Builder(1, map[Range(4, 6) := 0], map[0 := LostChange], [0])

  /** The changes after folding the alignments of witness 1 into it. */
  const SecondStore := map[0 := LostChange, 1 := Insertion, 2 := LaterChange]

  const SecondMap := map[Range(4, 6) := 0, Range(3, 3) := 1, Range(7, 9) := 2]

  lemma LostResolvable()
    ensures Resolvable(FirstAlignment, LostChangeContext)
    ensures Resolvable(InsertAlignment, LostChangeContext) && Resolvable(LaterAlignment, LostChangeContext)
    ensures PairsResolvable(LostChangeContext)
    ensures ReadableIds(LostChangeContext.witnessIds, LostChangeContext)
  {
    TwoSided(FirstAlignment, LostChangeContext);
    TwoSided(InsertAlignment, LostChangeContext);
    TwoSided(LaterAlignment, LostChangeContext);
  }

  /** An alignment of the base with one other known witness, over well-formed ranges. */
  lemma TwoSided(a: Alignment, ctx: Context)
    requires |a.annotations| == 2 && a.annotations[0].witnessId == ctx.baseId
    requires a.annotations[1].witnessId != ctx.baseId && a.annotations[1].witnessId in ctx.witnessIds
    requires WellFormed(a.annotations[0].range) && WellFormed(a.annotations[1].range)
    ensures Resolvable(a, ctx)
    ensures BaseRange(a, ctx) == a.annotations[0].range && CounterpartOf(a, ctx) == a.annotations[1]
  {
    assert a.annotations[1..][0] == a.annotations[1];
  }

  /** Folding an alignment with a new base range and an admitted counterpart. */
  lemma FoldNew(b: Builder, a: Alignment, ctx: Context)
    requires Resolvable(a, ctx) && BaseRange(a, ctx) !in b.changeMap && !Filtered(a, ctx)
    ensures var n := b.nextIndex;
            FoldAlignment(b, a, ctx)
            == Builder(n + 1, b.changeMap[BaseRange(a, ctx) := n],
                       b.store[n := Change(n, BaseRange(a, ctx), a.group, {CounterpartOf(a, ctx).witnessId})],
                       b.changes + [n])
  {
    var n := b.nextIndex;
    var b1 := LookupOrCreate(b, BaseRange(a, ctx), a.group).0;
    assert b1.store[n] == NewChange(n, BaseRange(a, ctx), a.group);
    assert {} + {CounterpartOf(a, ctx).witnessId} == {CounterpartOf(a, ctx).witnessId};
  }

  lemma FoldOne(b: Builder, x: Alignment, ctx: Context)
    requires Resolvable(x, ctx)
    ensures AllResolvable([x], ctx) && FoldAll(b, [x], ctx) == FoldAlignment(b, x, ctx)
  {
    assert [x][..0] == [];
  }

  lemma FoldTwo(b: Builder, x: Alignment, y: Alignment, ctx: Context)
    requires Resolvable(x, ctx) && Resolvable(y, ctx)
    ensures AllResolvable([x, y], ctx)
    ensures FoldAll(b, [x, y], ctx) == FoldAlignment(FoldAlignment(b, x, ctx), y, ctx)
  {
    FoldOne(b, x, ctx);
    assert [x, y][..1] == [x];
  }

  lemma LostFirstFold()
    ensures AllResolvable([FirstAlignment], LostChangeContext)
    ensures FoldAll(Empty, [FirstAlignment], LostChangeContext) == FirstBuilder
  {
    var ctx := LostChangeContext;
    LostResolvable();
    FoldOne(Empty, FirstAlignment, ctx);
    assert BaseRange(FirstAlignment, ctx) == Range(4, 6);
    assert CounterpartOf(FirstAlignment, ctx).witnessId == 2;
    FoldNew(Empty, FirstAlignment, ctx);
    assert Empty.changeMap[Range(4, 6) := 0] == FirstBuilder.changeMap;
    assert Empty.store[0 := LostChange] == FirstBuilder.store;
  }

  lemma LostFirstPass()
    ensures AllResolvable(LostChangeContext.pairs(2), LostChangeContext)
    ensures Pass(Empty, 2, LostChangeContext) == Success(FirstBuilder)
  {
    var ctx := LostChangeContext;
    LostFirstFold();
    EmptyValid(ctx);
    assert ctx.pairs(2) == [FirstAlignment];
    LostFirstSortWalk();
    assert FinalStep(LostChange, ctx) == LostChange;
    assert FirstBuilder.store[0 := LostChange] == FirstBuilder.store;
    PassOf(Empty, 2, ctx, FirstBuilder, [0], Walk(FirstBuilder.store, [0], Some(0)));
  }

  lemma LostFirstSortWalk()
    ensures Indexed(FirstBuilder.store) && InStore(FirstBuilder.store, [0]) && Distinct([0])
    ensures Sort(FirstBuilder.store, [0]) == [0]
    ensures WalkAll(FirstBuilder.store, [0], LostChangeContext) == Walk(FirstBuilder.store, [0], Some(0))
  {
    assert [0][..0] == [];
  }

  /** Between the two alignments of witness 1. */
  const MidBuilder := Builder(2, map[Range(4, 6) := 0, Range(3, 3) := 1], map[0 := LostChange, 1 := Insertion], [0, 1])

  lemma LostInsertFold()
    ensures Resolvable(InsertAlignment, LostChangeContext)
    ensures FoldAlignment(FirstBuilder, InsertAlignment, LostChangeContext) == MidBuilder
  {
    var ctx := LostChangeContext;
    LostResolvable();
    FoldNew(FirstBuilder, InsertAlignment, ctx);
    assert FirstBuilder.changeMap[Range(3, 3) := 1] == MidBuilder.changeMap;
    assert FirstBuilder.store[1 := Insertion] == MidBuilder.store;
  }

  lemma LostLaterFold()
    ensures Resolvable(LaterAlignment, LostChangeContext)
    ensures FoldAlignment(MidBuilder, LaterAlignment, LostChangeContext) == Builder(3, SecondMap, SecondStore, [0, 1, 2])
  {
    var ctx := LostChangeContext;
    LostResolvable();
    FoldNew(MidBuilder, LaterAlignment, ctx);
    assert MidBuilder.changeMap[Range(7, 9) := 2] == SecondMap;
    assert MidBuilder.store[2 := LaterChange] == SecondStore;
  }

  lemma LostSecondFold()
    ensures AllResolvable([InsertAlignment, LaterAlignment], LostChangeContext)
    ensures FoldAll(FirstBuilder, [InsertAlignment, LaterAlignment], LostChangeContext)
            == Builder(3, SecondMap, SecondStore, [0, 1, 2])
  {
    LostInsertFold();
    LostLaterFold();
    FoldTwo(FirstBuilder, InsertAlignment, LaterAlignment, LostChangeContext);
  }

  lemma LostSort()
    ensures Indexed(SecondStore) && InStore(SecondStore, [0, 1, 2]) && Distinct([0, 1, 2])
    ensures Sort(SecondStore, [0, 1, 2]) == [1, 0, 2]
  {
    LostSorted();
    assert multiset([1, 0, 2]) == multiset([0, 1, 2]);
    SortedUnique(SecondStore, Sort(SecondStore, [0, 1, 2]), [1, 0, 2]);
  }

  lemma LostSorted()
    ensures InStore(SecondStore, [1, 0, 2]) && SortedBy(SecondStore, [1, 0, 2])
  {
    var s := [1, 0, 2];
    forall i, j | 0 <= i < j < 3 ensures Before(SecondStore[s[i]], SecondStore[s[j]]) {
    }
  }

  /** Walking one more change is one more step. */
  lemma WalkSnoc(store: map<nat, Change>, s: seq<nat>, x: nat, t: seq<nat>, w: Walk, ctx: Context)
    requires t == s + [x] && InStore(store, t) && Distinct(t)
    requires InStore(store, s) && Distinct(s) && WalkAll(store, s, ctx) == w
    ensures x in w.store && (w.prior.Some? ==> w.prior.value in w.store && w.prior.value != x)
    ensures WalkAll(store, t, ctx) == WalkStep(w, x, ctx)
  {
    assert t[..|s|] == s && t[|s|] == x;
    LastNotInPrefix(t);
  }

  lemma LostWalkStart()
    ensures InStore(SecondStore, [1]) && Distinct([1])
    ensures WalkAll(SecondStore, [1], LostChangeContext) == Walk(SecondStore, [1], Some(1))
  {
    assert [1][..0] == [];
  }

  /** The insertion point is widened to [4,5), and [4,6) starts at it: [4,6) is removed. */
  lemma LostWalkOverlap()
    ensures InStore(SecondStore, [1, 0]) && Distinct([1, 0])
    ensures WalkAll(SecondStore, [1, 0], LostChangeContext) == Walk(SecondStore[1 := WidenedInsertion], [1], Some(0))
  {
    LostWalkStart();
    LostListed();
    WalkSnoc(SecondStore, [1], 0, [1, 0], Walk(SecondStore, [1], Some(1)), LostChangeContext);
    LostOverlapStep();
  }

  lemma LostListed()
    ensures InStore(SecondStore, [1, 0]) && Distinct([1, 0]) && [1, 0] == [1] + [0]
    ensures InStore(SecondStore, [1, 0, 2]) && Distinct([1, 0, 2]) && [1, 0, 2] == [1, 0] + [2]
  {
  }

  lemma LostOverlapStep()
    ensures WalkStep(Walk(SecondStore, [1], Some(1)), 0, LostChangeContext)
            == Walk(SecondStore[1 := WidenedInsertion], [1], Some(0))
  {
    assert SecondStore[1] == Insertion && SecondStore[0] == LostChange;
    assert WidenedPrior(Insertion, LostChangeContext) == WidenedInsertion;
    assert Overlaps(Insertion, LostChange, LostChangeContext);
    StepCases(Walk(SecondStore, [1], Some(1)), 0, LostChangeContext);
  }

  /** [7,9) differs in its witnesses from the removed [4,6), which is now prior: it is kept. */
  lemma LostWalk()
    ensures InStore(SecondStore, [1, 0, 2]) && Distinct([1, 0, 2])
    ensures WalkAll(SecondStore, [1, 0, 2], LostChangeContext)
            == Walk(SecondStore[1 := WidenedInsertion], [1, 2], Some(2))
  {
    var st := SecondStore[1 := WidenedInsertion];
    LostWalkOverlap();
    LostListed();
    WalkSnoc(SecondStore, [1, 0], 2, [1, 0, 2], Walk(st, [1], Some(0)), LostChangeContext);
    LostKeepStep();
  }

  lemma LostKeepStep()
    ensures var st := SecondStore[1 := WidenedInsertion];
            WalkStep(Walk(st, [1], Some(0)), 2, LostChangeContext) == Walk(st, [1, 2], Some(2))
  {
    var ctx := LostChangeContext;
    var st := SecondStore[1 := WidenedInsertion];
    assert st[0] == LostChange && st[2] == LaterChange;
    assert WidenedPrior(LostChange, ctx) == LostChange;
    assert !Overlaps(LostChange, LaterChange, ctx) && !Mergeable(LaterChange, LostChange);
    StepCases(Walk(st, [1], Some(0)), 2, ctx);
    assert st[0 := LostChange] == st;
  }

  /**
   * The second walk widens the insertion point to [4,5); the change [4,6)
   * of witness 2 then starts at the widened prior, and the iterator removes
   * it (the current change) rather than the prior.  The list returned has
   * lost witness 2 altogether, and its two changes are adjacent, agree in
   * group, witnesses and frequency, and are not merged.
   */
  lemma OverlapLosesChange()
    ensures PairsResolvable(LostChangeContext)
    ensures ChangeListSpec(LostChangeContext) == Success([WidenedInsertion, LaterChange])
    ensures var cs := ChangeListSpec(LostChangeContext).value;
            && Mergeable(cs[1], cs[0])
            && forall c :: c in cs ==> 2 !in c.witnesses
  {
    LostResolvable();
    LostBuild();
    ChangeListOfBuild(LostChangeContext);
    LostChangesOf();
    LostListFacts();
  }

  /**
   * The same run, stated as `CorrectedKeepsNonEmpty` states it: the walk as
   * written leaves the non-empty change [4,6) of witness 2 covered by none
   * of the changes it keeps.
   */
  lemma WalkLosesChange()
    ensures InStore(SecondStore, [1, 0, 2]) && Distinct([1, 0, 2])
    ensures SecondStore[0] == LostChange && Length(LostChange.range) > 0
    ensures !Covered(WalkAll(SecondStore, [1, 0, 2], LostChangeContext), LostChange)
  {
    LostWalk();
    var st := SecondStore[1 := WidenedInsertion];
    assert st[1] == WidenedInsertion && st[2] == LaterChange;
    assert !Covers(WidenedInsertion, LostChange) && !Covers(LaterChange, LostChange);
  }

  /** The two changes left could have been merged, and neither lists witness 2. */
  lemma LostListFacts()
    ensures Mergeable(LaterChange, WidenedInsertion)
    ensures forall c :: c in [WidenedInsertion, LaterChange] ==> 2 !in c.witnesses
  {
  }

  /** The final builder of the run. */
  const SecondBuilder := Builder(3, SecondMap, SecondStore[1 := WidenedInsertion], [1, 2])

  lemma LostChangesOf()
    ensures Valid(SecondBuilder, LostChangeContext)
    ensures ChangesOf(SecondBuilder, LostChangeContext) == [WidenedInsertion, LaterChange]
  {
    LostSecondPass();
  }

  /** Running the builder on one more witness. */
  lemma BuildSnoc(ids: seq<int>, w: int, t: seq<int>, ctx: Context)
    requires t == ids + [w] && ReadableIds(t, ctx)
    ensures ReadableIds(ids, ctx) && (w != ctx.baseId ==> AllResolvable(ctx.pairs(w), ctx))
    ensures var prefix := BuildFrom(ids, ctx);
            BuildFrom(t, ctx) == if prefix.Failure? || w == ctx.baseId then prefix else Pass(prefix.value, w, ctx)
  {
    BuildFromNext(t, |ids|, ctx);
    assert t[..|ids|] == ids && t[..|ids| + 1] == t && t[|ids|] == w;
  }

  lemma LostBuild()
    ensures ReadableIds([0, 2, 1], LostChangeContext)
    ensures BuildFrom([0, 2, 1], LostChangeContext) == Success(SecondBuilder)
  {
    var ctx := LostChangeContext;
    LostResolvable();
    assert [0, 2, 1] == [0, 2] + [1] && [0, 2] == [0] + [2] && [0] == [] + [0];
    BuildSnoc([0, 2], 1, [0, 2, 1], ctx);
    BuildSnoc([0], 2, [0, 2], ctx);
    BuildSnoc([], 0, [0], ctx);
    LostFirstPass();
    LostSecondPass();
  }

  lemma LostSecondPass()
    ensures Valid(FirstBuilder, LostChangeContext) && AllResolvable(LostChangeContext.pairs(1), LostChangeContext)
    ensures Pass(FirstBuilder, 1, LostChangeContext) == Success(SecondBuilder)
  {
    var ctx := LostChangeContext;
    LostFirstValid();
    LostSecondFold();
    LostSort();
    LostWalk();
    assert ctx.pairs(1) == [InsertAlignment, LaterAlignment];
    var st := SecondStore[1 := WidenedInsertion];
    LostFinal();
    PassOf(FirstBuilder, 1, ctx, Builder(3, SecondMap, SecondStore, [0, 1, 2]), [1, 0, 2], Walk(st, [1, 2], Some(2)));
  }

  lemma LostFirstValid()
    ensures Valid(FirstBuilder, LostChangeContext)
  {
    LostFirstPass();
  }

  lemma LostFinal()
    ensures var st := SecondStore[1 := WidenedInsertion];
            st[2 := FinalStep(st[2], LostChangeContext)] == st
  {
    var st := SecondStore[1 := WidenedInsertion];
    assert FinalStep(st[2], LostChangeContext) == LaterChange;
  }

  /** A pass, given its fold, its sorted list and its walk. */
  lemma PassOf(b: Builder, witnessId: int, ctx: Context, f: Builder, sorted: seq<nat>, w: Walk)
    requires Valid(b, ctx) && AllResolvable(ctx.pairs(witnessId), ctx)
    requires FoldAll(b, ctx.pairs(witnessId), ctx) == f && Indexed(f.store) && InStore(f.store, f.changes)
    requires Distinct(f.changes) && Sort(f.store, f.changes) == sorted
    requires InStore(f.store, sorted) && Distinct(sorted) && WalkAll(f.store, sorted, ctx) == w && w.prior.Some?
    requires w.prior.value in w.store
    ensures Pass(b, witnessId, ctx)
            == Success(Builder(f.nextIndex, f.changeMap, w.store[w.prior.value := FinalStep(w.store[w.prior.value], ctx)], w.kept))
  {
  }

  // ---------------------------------------------------------------------
  // The order of the walk's result (HeatmapView.java:428-466)
  // ---------------------------------------------------------------------

  /** A next-token lookup for a token at [3,5): the token after offset 3 starts at 5. */
  function SkipToFive(offset: int): int
  {
    if offset == 3 then 5 else offset
  }

  const SkipContext := Context(0, [1], [], 20, SkipToFive, NoPairs)

  function NoPairs(witnessId: int): seq<Alignment> { [] }

  /** An insertion point at 3, then [3,6) and [3,9) in other groups, all of witness 1. */
  const ShuffledStore: map<nat, Change> := map[0 := Change(0, Range(3, 3), 0, {1}),
                             1 := Change(1, Range(3, 6), 1, {1}),
                             2 := Change(2, Range(3, 9), 2, {1})]

  lemma ShuffledSorted()
    ensures Indexed(ShuffledStore) && InStore(ShuffledStore, [0, 1, 2]) && Distinct([0, 1, 2])
    ensures SortedBy(ShuffledStore, [0, 1, 2])
    ensures InStore(ShuffledStore, [0, 1]) && Distinct([0, 1])
    ensures [0, 1] == [0] + [1] && [0, 1, 2] == [0, 1] + [2] && [0][..0] == []
  {
  }

  lemma ShuffledFirstSteps()
    ensures InStore(ShuffledStore, [0, 1]) && Distinct([0, 1])
    ensures WalkAll(ShuffledStore, [0, 1], SkipContext)
            == Walk(ShuffledStore[0 := Change(0, Range(5, 6), 0, {1})], [0], Some(1))
  {
    ShuffledSorted();
    ShuffledStart();
    WalkSnoc(ShuffledStore, [0], 1, [0, 1], Walk(ShuffledStore, [0], Some(0)), SkipContext);
    ShuffledOverlapStep();
  }

  lemma ShuffledStart()
    ensures InStore(ShuffledStore, [0]) && Distinct([0])
    ensures WalkAll(ShuffledStore, [0], SkipContext) == Walk(ShuffledStore, [0], Some(0))
  {
    assert [0][..0] == [];
  }

  /** The insertion point is widened to [5,6), and [3,6) starts before it: [3,6) is removed. */
  lemma ShuffledOverlapStep()
    ensures WalkStep(Walk(ShuffledStore, [0], Some(0)), 1, SkipContext)
            == Walk(ShuffledStore[0 := Change(0, Range(5, 6), 0, {1})], [0], Some(1))
  {
    var w0 := Walk(ShuffledStore, [0], Some(0));
    assert ShuffledStore[0] == Change(0, Range(3, 3), 0, {1}) && ShuffledStore[1] == Change(1, Range(3, 6), 1, {1});
    assert WidenedPrior(ShuffledStore[0], SkipContext) == Change(0, Range(5, 6), 0, {1});
    assert Overlaps(ShuffledStore[0], ShuffledStore[1], SkipContext);
    StepCases(w0, 1, SkipContext);
  }

  lemma ShuffledLastStep()
    ensures var st := ShuffledStore[0 := Change(0, Range(5, 6), 0, {1})];
            WalkStep(Walk(st, [0], Some(1)), 2, SkipContext) == Walk(st, [0, 2], Some(2))
  {
    var st := ShuffledStore[0 := Change(0, Range(5, 6), 0, {1})];
    assert st[1] == ShuffledStore[1] && st[2] == ShuffledStore[2];
    assert WidenedPrior(st[1], SkipContext) == st[1];
    assert !Overlaps(st[1], st[2], SkipContext) && !Mergeable(st[2], st[1]);
    StepCases(Walk(st, [0], Some(1)), 2, SkipContext);
    assert st[1 := st[1]] == st;
  }

  /**
   * The walk over a list sorted by start can return a list that is not:
   * the insertion point at 3 is widened to [5,6) and kept, the [3,6) after
   * it is removed, and [3,9) is kept after it.
   */
  lemma WalkCanUnsort()
    ensures InStore(ShuffledStore, [0, 1, 2]) && Distinct([0, 1, 2]) && SortedBy(ShuffledStore, [0, 1, 2])
    ensures var w := WalkAll(ShuffledStore, [0, 1, 2], SkipContext);
            && w.kept == [0, 2]
            && w.store[0].range.start > w.store[2].range.start
  {
    ShuffledSorted();
    ShuffledFirstSteps();
    var st := ShuffledStore[0 := Change(0, Range(5, 6), 0, {1})];
    WalkSnoc(ShuffledStore, [0, 1], 2, [0, 1, 2], Walk(st, [0], Some(1)), SkipContext);
    ShuffledLastStep();
  }

  // ---------------------------------------------------------------------
  // The walk with the overlap branch removing prior, as its comment says
  // ---------------------------------------------------------------------

  /** Change `a` covers change `b`: its range contains b's and it lists b's witnesses. */
  predicate Covers(a: Change, b: Change)
  {
    a.range.start <= b.range.start && b.range.end <= a.range.end && b.witnesses <= a.witnesses
  }

  /** Some change the walk has kept covers `b`. */
  ghost predicate Covered(w: Walk, b: Change)
  {
    exists j :: 0 <= j < |w.kept| && w.kept[j] in w.store && Covers(w.store[w.kept[j]], b)
  }

  /**
   * `WalkStep` with the overlap branch of :443-450 removing the widened
   * prior, which is always the last change kept, instead of `current`.
   */
  function CorrectedStep(w: Walk, current: nat, ctx: Context): (r: Walk)
    requires current in w.store
    requires w.prior.Some? ==> w.prior.value in w.store && w.prior.value != current
    requires w.prior.Some? ==> |w.kept| > 0 && w.kept[|w.kept| - 1] == w.prior.value
  {
    if w.prior.None? then Walk(w.store, w.kept + [current], Some(current))
    else
      var p := w.prior.value;
      var q := WidenedPrior(w.store[p], ctx);
      var c := w.store[current];
      if Overlaps(w.store[p], c, ctx) then Walk(w.store[p := q], w.kept[..|w.kept| - 1] + [current], Some(current))
      else if Mergeable(c, q) then Walk(w.store[p := Merge(q, c)], w.kept, w.prior)
      else Walk(w.store[p := q], w.kept + [current], Some(current))
  }

  /** The corrected walk over the sorted list `s`; prior is always the last change kept. */
  function CorrectedWalkAll(store: map<nat, Change>, s: seq<nat>, ctx: Context): (r: Walk)
    requires InStore(store, s) && Distinct(s)
    ensures r.store.Keys == store.Keys
    ensures r.prior.None? <==> |s| == 0
    ensures r.prior.Some? ==> r.prior.value in s && |r.kept| > 0 && r.kept[|r.kept| - 1] == r.prior.value
  {
    if |s| == 0 then Walk(store, [], None)
    else
      var s0 := s[..|s| - 1];
      var x := s[|s| - 1];
      LastNotInPrefix(s);
      var w := CorrectedWalkAll(store, s0, ctx);
      CorrectedStepFrame(w, x, ctx);
      CorrectedStep(w, x, ctx)
  }

  /** The last of a list without repeats is not in the rest, and the rest is in the list. */
  lemma LastNotInPrefix(s: seq<nat>)
    requires |s| > 0 && Distinct(s)
    ensures s[|s| - 1] !in s[..|s| - 1]
    ensures forall y :: y in s[..|s| - 1] ==> y in s
  {
    assert s == s[..|s| - 1] + [s[|s| - 1]];
  }

  /** A corrected step rewrites at most prior; it keeps prior the last change kept. */
  lemma CorrectedStepFrame(w: Walk, current: nat, ctx: Context)
    requires current in w.store
    requires w.prior.Some? ==> w.prior.value in w.store && w.prior.value != current
    requires w.prior.Some? ==> |w.kept| > 0 && w.kept[|w.kept| - 1] == w.prior.value
    ensures var r := CorrectedStep(w, current, ctx);
            && r.store.Keys == w.store.Keys
            && (forall id :: id in w.store && (w.prior.None? || id != w.prior.value) ==> r.store[id] == w.store[id])
            && (forall i :: 0 <= i < |r.kept| ==> r.kept[i] == current || r.kept[i] in w.kept)
            && r.prior.Some?
            && (r.prior.value == current || r.prior == w.prior)
            && |r.kept| > 0 && r.kept[|r.kept| - 1] == r.prior.value
  {
    if w.prior.Some? {
      var p := w.prior.value;
      var q := WidenedPrior(w.store[p], ctx);
      var c := w.store[current];
      CorrectedCases(w, current, ctx);
      if Overlaps(w.store[p], c, ctx) {
        UpdateFrame(w.store, p, q);
        ReplaceLast(w.kept, current);
      } else if Mergeable(c, q) {
        UpdateFrame(w.store, p, Merge(q, c));
      } else {
        UpdateFrame(w.store, p, q);
      }
    }
  }

  /** The three outcomes of a corrected step with a prior. */
  lemma CorrectedCases(w: Walk, current: nat, ctx: Context)
    requires current in w.store && w.prior.Some? && w.prior.value in w.store && w.prior.value != current
    requires |w.kept| > 0 && w.kept[|w.kept| - 1] == w.prior.value
    ensures var r := CorrectedStep(w, current, ctx);
            var p := w.prior.value;
            var q := WidenedPrior(w.store[p], ctx);
            var c := w.store[current];
            && (Overlaps(w.store[p], c, ctx) ==> r == Walk(w.store[p := q], w.kept[..|w.kept| - 1] + [current], Some(current)))
            && (!Overlaps(w.store[p], c, ctx) && Mergeable(c, q) ==> r == Walk(w.store[p := Merge(q, c)], w.kept, w.prior))
            && (!Overlaps(w.store[p], c, ctx) && !Mergeable(c, q) ==>
                  r == Walk(w.store[p := q], w.kept + [current], Some(current)))
  {
  }

  /** Replacing the last element: every element is the new one or an old one, and the new one is last. */
  lemma ReplaceLast(s: seq<nat>, x: nat)
    requires |s| > 0
    ensures var t := s[..|s| - 1] + [x];
            && |t| == |s| && t[|t| - 1] == x
            && (forall i :: 0 <= i < |t| - 1 ==> t[i] == s[i])
            && (forall i :: 0 <= i < |t| ==> t[i] == x || t[i] in s)
  {
  }

  /** The corrected walk leaves the changes it has not read as they were. */
  lemma {:induction false} CorrectedUnread(store: map<nat, Change>, s: seq<nat>, ctx: Context, id: nat)
    requires InStore(store, s) && Distinct(s) && id in store && id !in s
    ensures CorrectedWalkAll(store, s, ctx).store[id] == store[id]
  {
    if |s| > 0 {
      LastNotInPrefix(s);
      var s0 := s[..|s| - 1];
      CorrectedUnread(store, s0, ctx, id);
      CorrectedStepFrame(CorrectedWalkAll(store, s0, ctx), s[|s| - 1], ctx);
    }
  }

  /** A step keeps every change covered that was covered before it. */
  lemma CorrectedStepKeepsCovered(w: Walk, current: nat, ctx: Context, b: Change)
    requires current in w.store
    requires w.prior.Some? ==> w.prior.value in w.store && w.prior.value != current
    requires w.prior.Some? ==> |w.kept| > 0 && w.kept[|w.kept| - 1] == w.prior.value
    requires Length(b.range) > 0 && Covered(w, b)
    ensures Covered(CorrectedStep(w, current, ctx), b)
  {
    var r := CorrectedStep(w, current, ctx);
    var j :| 0 <= j < |w.kept| && w.kept[j] in w.store && Covers(w.store[w.kept[j]], b);
    var k := w.kept[j];
    assert Length(w.store[k].range) > 0;
    if w.prior.None? {
      assert r.kept[j] == k && r.store == w.store;
    } else {
      var p := w.prior.value;
      var q := WidenedPrior(w.store[p], ctx);
      var c := w.store[current];
      if Overlaps(w.store[p], c, ctx) {
        assert Length(w.store[p].range) == 0;
        assert k != p && j < |w.kept| - 1;
        CorrectedCases(w, current, ctx);
        UpdateFrame(w.store, p, q);
        ReplaceLast(w.kept, current);
        assert r.kept[j] == k && r.store[k] == w.store[k];
      } else if Mergeable(c, q) {
        CorrectedCases(w, current, ctx);
        UpdateFrame(w.store, p, Merge(q, c));
        assert r.kept[j] == k;
        if k == p {
          assert q == w.store[p] && Covers(Merge(q, c), q);
        } else {
          assert r.store[k] == w.store[k];
        }
      } else {
        CorrectedCases(w, current, ctx);
        UpdateFrame(w.store, p, q);
        assert r.kept[j] == k;
        if k == p {
          assert q == w.store[p];
        } else {
          assert r.store[k] == w.store[k];
        }
      }
    }
  }

  /** After a step, the change it read is covered. */
  lemma CorrectedStepCoversCurrent(w: Walk, current: nat, ctx: Context)
    requires current in w.store
    requires w.prior.Some? ==> w.prior.value in w.store && w.prior.value != current
    requires w.prior.Some? ==> |w.kept| > 0 && w.kept[|w.kept| - 1] == w.prior.value
    ensures Covered(CorrectedStep(w, current, ctx), w.store[current])
  {
    var r := CorrectedStep(w, current, ctx);
    var c := w.store[current];
    if w.prior.None? {
      assert r.kept[|r.kept| - 1] == current && Covers(r.store[current], c);
    } else {
      var p := w.prior.value;
      var q := WidenedPrior(w.store[p], ctx);
      CorrectedCases(w, current, ctx);
      if Overlaps(w.store[p], c, ctx) {
        UpdateFrame(w.store, p, q);
        ReplaceLast(w.kept, current);
        assert r.kept[|r.kept| - 1] == current && r.store[current] == c;
      } else if Mergeable(c, q) {
        assert r.kept[|r.kept| - 1] == p && r.store[p] == Merge(q, c);
      } else {
        UpdateFrame(w.store, p, q);
        assert r.kept[|r.kept| - 1] == current && r.store[current] == c;
      }
    }
  }

  /**
   * With the overlap branch corrected, no information is lost: every
   * non-empty change of the sorted list is covered, range and witnesses,
   * by a change the walk keeps.
   */
  lemma {:induction false} CorrectedKeepsNonEmpty(store: map<nat, Change>, s: seq<nat>, ctx: Context)
    requires InStore(store, s) && Distinct(s)
    ensures var r := CorrectedWalkAll(store, s, ctx);
            forall i :: 0 <= i < |s| && Length(store[s[i]].range) > 0 ==> Covered(r, store[s[i]])
  {
    if |s| > 0 {
      var s0 := s[..|s| - 1];
      var x := s[|s| - 1];
      assert forall i :: 0 <= i < |s0| ==> s0[i] != x;
      CorrectedKeepsNonEmpty(store, s0, ctx);
      var w := CorrectedWalkAll(store, s0, ctx);
      assert CorrectedWalkAll(store, s, ctx) == CorrectedStep(w, x, ctx);
      forall i | 0 <= i < |s| && Length(store[s[i]].range) > 0
        ensures Covered(CorrectedStep(w, x, ctx), store[s[i]])
      {
        if i < |s0| {
          assert s[i] == s0[i];
          CorrectedStepKeepsCovered(w, x, ctx, store[s[i]]);
        } else {
          CorrectedUnread(store, s0, ctx, x);
          CorrectedStepCoversCurrent(w, x, ctx);
        }
      }
    }
  }
}
