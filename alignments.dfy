/**
 * Pairwise alignments as the alignment source delivers them, and the
 * offset/limit batching through which the change-list builder reads them.
 */
module Alignments {
  import opened Wrappers
  import opened Changes

  /** One side of an alignment: a witness and a range in that witness's text. */
  datatype AlignedAnnotation = AlignedAnnotation(witnessId: int, range: Range)

  /** A detected difference between two witnesses, with its group. */
  datatype Alignment = Alignment(group: int, annotations: seq<AlignedAnnotation>)

  /** `align.getWitnessAnnotation(id)`: the first annotation on witness `id`, if any. */
  function WitnessAnnotation(annotations: seq<AlignedAnnotation>, id: int): (r: Option<AlignedAnnotation>)
    ensures r.Some? <==> exists k :: 0 <= k < |annotations| && annotations[k].witnessId == id
    ensures r.Some? ==> r.value in annotations && r.value.witnessId == id
  {
    if |annotations| == 0 then None
    else if annotations[0].witnessId == id then Some(annotations[0])
    else WitnessAnnotation(annotations[1..], id)
  }

  /** The annotation found is the first one on witness `id`: none before it is on `id`. */
  lemma {:induction false} WitnessAnnotationFirst(annotations: seq<AlignedAnnotation>, id: int)
    ensures var r := WitnessAnnotation(annotations, id);
            r.Some? ==> exists k :: 0 <= k < |annotations| && annotations[k] == r.value
                                    && forall j :: 0 <= j < k ==> annotations[j].witnessId != id
  {
    var r := WitnessAnnotation(annotations, id);
    if |annotations| > 0 && annotations[0].witnessId != id {
      var tail := annotations[1..];
      WitnessAnnotationFirst(tail, id);
      if r.Some? {
        var k :| 0 <= k < |tail| && tail[k] == r.value && forall j :: 0 <= j < k ==> tail[j].witnessId != id;
        forall j | 0 <= j < k + 1 ensures annotations[j].witnessId != id {
          if j > 0 { assert annotations[j] == tail[j - 1]; }
        }
        assert annotations[k + 1] == r.value;
      }
    } else if |annotations| > 0 {
      assert annotations[0] == r.value;
    }
  }

  /** The first annotation that is not on witness `baseId`: the loop at HeatmapView.java:401-407. */
  function Counterpart(annotations: seq<AlignedAnnotation>, baseId: int): (r: Option<AlignedAnnotation>)
    ensures r.Some? <==> exists k :: 0 <= k < |annotations| && annotations[k].witnessId != baseId
    ensures r.Some? ==> r.value in annotations && r.value.witnessId != baseId
  {
    if |annotations| == 0 then None
    else if annotations[0].witnessId != baseId then Some(annotations[0])
    else Counterpart(annotations[1..], baseId)
  }

  /** The counterpart found is the first annotation off the base: all before it are on `baseId`. */
  lemma {:induction false} CounterpartFirst(annotations: seq<AlignedAnnotation>, baseId: int)
    ensures var r := Counterpart(annotations, baseId);
            r.Some? ==> exists k :: 0 <= k < |annotations| && annotations[k] == r.value
                                    && forall j :: 0 <= j < k ==> annotations[j].witnessId == baseId
  {
    var r := Counterpart(annotations, baseId);
    if |annotations| > 0 && annotations[0].witnessId == baseId {
      var tail := annotations[1..];
      CounterpartFirst(tail, baseId);
      if r.Some? {
        var k :| 0 <= k < |tail| && tail[k] == r.value && forall j :: 0 <= j < k ==> tail[j].witnessId == baseId;
        forall j | 0 <= j < k + 1 ensures annotations[j].witnessId == baseId {
          if j > 0 { assert annotations[j] == tail[j - 1]; }
        }
        assert annotations[k + 1] == r.value;
      }
    } else if |annotations| > 0 {
      assert annotations[0] == r.value;
    }
  }

  /**
   * The batch the alignment source returns for results range
   * `(offset, limit)`: the elements of the ordered list `all` from `offset`,
   * at most `limit` of them.
   */
  function Batch(all: seq<Alignment>, offset: nat, limit: nat): (b: seq<Alignment>)
    ensures |b| <= limit
    ensures offset + limit <= |all| ==> b == all[offset..offset + limit]
    ensures |all| < offset + limit ==> b == all[Min(offset, |all|)..]
    ensures offset <= |all| ==> offset + |b| <= |all| && b == all[offset..offset + |b|]
    ensures offset <= |all| && |b| < limit ==> offset + |b| == |all|
  {
    all[Min(offset, |all|)..Min(offset + limit, |all|)]
  }

  /**
   * The batches requested at offsets `offset`, `offset + limit`, ... up to and
   * including the first short one, which is the only short one.
   */
  function BatchesFrom(all: seq<Alignment>, offset: nat, limit: nat): (bs: seq<seq<Alignment>>)
    requires limit > 0
    ensures |bs| > 0 && bs[0] == Batch(all, offset, limit)
    ensures |bs[|bs| - 1]| < limit
    ensures forall i :: 0 <= i < |bs| - 1 ==> |bs[i]| == limit
    decreases |all| + 1 - offset
  {
    var b := Batch(all, offset, limit);
    if |b| < limit || offset >= |all| + 1 then [b]
    else [b] + BatchesFrom(all, offset + limit, limit)
  }

  function Flatten(bs: seq<seq<Alignment>>): seq<Alignment>
  {
    if |bs| == 0 then [] else bs[0] + Flatten(bs[1..])
  }

  /**
   * Reading batch after batch from `offset` until a short batch arrives yields
   * every alignment from `offset` on, exactly once and in order.
   */
  lemma {:induction false} BatchesCover(all: seq<Alignment>, offset: nat, limit: nat)
    requires limit > 0 && offset <= |all|
    ensures Flatten(BatchesFrom(all, offset, limit)) == all[offset..]
    decreases |all| - offset
  {
    var b := Batch(all, offset, limit);
    if |b| < limit {
      BatchesFromUnfold(all, offset, limit);
      FlattenCons(b, []);
    } else {
      BatchesCover(all, offset + limit, limit);
      BatchesFromUnfold(all, offset, limit);
      FullBatchCover(all, offset, limit, BatchesFrom(all, offset + limit, limit));
    }
  }

  /** The first batch, then the batches after it when it is full. */
  lemma BatchesFromUnfold(all: seq<Alignment>, offset: nat, limit: nat)
    requires limit > 0 && offset <= |all|
    ensures var b := Batch(all, offset, limit);
            BatchesFrom(all, offset, limit) == if |b| < limit then [b] else [b] + BatchesFrom(all, offset + limit, limit)
  {
  }

  lemma FullBatchCover(all: seq<Alignment>, offset: nat, limit: nat, rest: seq<seq<Alignment>>)
    requires offset + limit <= |all| && Flatten(rest) == all[offset + limit..]
    ensures Flatten([Batch(all, offset, limit)] + rest) == all[offset..]
  {
    var b := Batch(all, offset, limit);
    FlattenCons(b, rest);
    SuffixSplit(all, offset, offset + limit);
  }

  lemma FlattenCons(b: seq<Alignment>, rest: seq<seq<Alignment>>)
    ensures Flatten([b] + rest) == b + Flatten(rest)
  {
    assert ([b] + rest)[1..] == rest;
    assert Flatten([]) == [];
  }

  lemma SuffixSplit<T>(all: seq<T>, i: nat, j: nat)
    requires i <= j <= |all|
    ensures all[i..] == all[i..j] + all[j..]
  {
  }
}
