/**
 * The request side of the heatmap view (HeatmapView.java:95-232): the witness
 * filter list, the id of the background rendering task and the decision
 * `toHtml` makes when the heatmap is not cached.
 *
 * Java `long` ids are `bv64`, so `Long.hashCode` is computed on bits; the
 * `int` arithmetic of `generateTaskId` is written out on `int` values in
 * [0, 2^32), with its 32-bit wrap-around as `Wrap`.
 */
module Tasks {
  import opened Wrappers

  // ---------------------------------------------------------------------
  // Task ids (:225-232)
  // ---------------------------------------------------------------------

  const IntRange := 0x1_0000_0000

  /** An `int` result of Java arithmetic, as its unsigned 32 bits. */
  function Wrap(x: int): (r: int)
    ensures 0 <= r < IntRange
  {
    x % IntRange
  }

  /** `Long.hashCode`: the low 32 bits of the value xor-ed with its high half. */
  function LongHash(v: bv64): (h: int)
    ensures 0 <= h < IntRange
  {
    Wrap((v ^ (v >> 32)) as int)
  }

  /** `Boolean.hashCode`. */
  function BoolHash(b: bool): int
  {
    if b then 1231 else 1237
  }

  /** The `int` that `generateTaskId` builds, starting from 1 with the prime 31. */
  function TaskHash(setId: bv64, key: bv64, condensed: bool): (h: int)
    ensures 0 <= h < IntRange
  {
    var r := 1;
    var r1 := Wrap(31 * r + LongHash(setId));
    var r2 := Wrap(31 * r1 + LongHash(key));
    Wrap(31 * r2 + BoolHash(condensed))
  }

  /** The value of a Java `int` given by its 32 bits. */
  function Signed(x: int): (r: int)
    requires 0 <= x < IntRange
    ensures -0x8000_0000 <= r < 0x8000_0000 && Wrap(r) == x
  {
    if x < 0x8000_0000 then x else x - IntRange
  }

  function Digit(d: nat): char
    requires d < 10
  {
    (48 + d) as char
  }

  /** The decimal digits of `n`, most significant first, without leading zeros. */
  function NatString(n: nat): (s: string)
    ensures |s| > 0 && forall i :: 0 <= i < |s| ==> '0' <= s[i] <= '9'
    ensures |s| == 1 <==> n < 10
  {
    (if n < 10 then "" else NatString(n / 10)) + [Digit(n % 10)]
  }

  /** Java's `String.valueOf(int)`: a minus sign for negative values, then the digits. */
  function IntString(i: int): (s: string)
    ensures |s| > 0 && (s[0] == '-' <==> i < 0)
    ensures forall k :: (if i < 0 then 1 else 0) <= k < |s| ==> '0' <= s[k] <= '9'
    ensures i < 0 ==> |s| > 1
  {
    if i < 0 then "-" + NatString(-i) else NatString(i)
  }

  /** `generateTaskId(setId, key, condensed)`. */
  function TaskId(setId: bv64, key: bv64, condensed: bool): (id: string)
    ensures |id| > 8 && id[..8] == "heatmap-"
    ensures id[8] == '-' <==> TaskHash(setId, key, condensed) >= 0x8000_0000
    ensures forall k :: 9 <= k < |id| ==> '0' <= id[k] <= '9'
    ensures '0' <= id[8] <= '9' || id[8] == '-'
  {
    "heatmap-" + IntString(Signed(TaskHash(setId, key, condensed)))
  }

  lemma WrapMulAdd(k: int, a: int, b: int)
    ensures Wrap(k * Wrap(a) + b) == Wrap(k * a + b)
  {
    var q := a / IntRange;
    assert a == IntRange * q + Wrap(a);
    assert k * a + b == (k * Wrap(a) + b) + IntRange * (k * q);
    WrapShift(k * Wrap(a) + b, k * q);
  }

  lemma WrapShift(x: int, n: int)
    ensures Wrap(x + IntRange * n) == Wrap(x)
  {
  }

  /** The id is the polynomial 31^3 + 31^2 h(set) + 31 h(key) + h(condensed), wrapping at 32 bits. */
  lemma TaskHashPolynomial(setId: bv64, key: bv64, condensed: bool)
    ensures TaskHash(setId, key, condensed)
            == Wrap(29791 + 961 * LongHash(setId) + 31 * LongHash(key) + BoolHash(condensed))
  {
    var h1, h2, hb := LongHash(setId), LongHash(key), BoolHash(condensed);
    WrapMulAdd(31, 31 + h1, h2);
    WrapMulAdd(31, 31 * (31 + h1) + h2, hb);
    WrapMulAdd(31, 31 * Wrap(31 + h1) + h2, hb);
    assert 31 * (31 * (31 + h1) + h2) + hb == 29791 + 961 * h1 + 31 * h2 + hb;
  }

  lemma Digits(d: nat, e: nat)
    requires d < 10 && e < 10 && Digit(d) == Digit(e)
    ensures d == e
  {
    assert Digit(d) as int == 48 + d;
    assert Digit(e) as int == 48 + e;
  }

  /** Different numbers have different decimal strings. */
  lemma {:induction false} NatStringInjective(a: nat, b: nat)
    requires NatString(a) == NatString(b)
    ensures a == b
  {
    var s := NatString(a);
    assert s[|s| - 1] == Digit(a % 10);
    assert NatString(b)[|s| - 1] == Digit(b % 10);
    Digits(a % 10, b % 10);
    if a >= 10 {
      assert b >= 10;
      assert NatString(a / 10) == s[..|s| - 1] == NatString(b / 10);
      NatStringInjective(a / 10, b / 10);
    }
  }

  lemma IntStringInjective(i: int, j: int)
    requires IntString(i) == IntString(j)
    ensures i == j
  {
    if i < 0 && j < 0 {
      assert NatString(-i) == IntString(i)[1..] == IntString(j)[1..] == NatString(-j);
      NatStringInjective(-i, -j);
    } else if i >= 0 && j >= 0 {
      NatStringInjective(i, j);
    }
  }

  /** Equal task ids come from equal hash values. */
  lemma TaskIdInjective(s1: bv64, k1: bv64, c1: bool, s2: bv64, k2: bv64, c2: bool)
    requires TaskId(s1, k1, c1) == TaskId(s2, k2, c2)
    ensures TaskHash(s1, k1, c1) == TaskHash(s2, k2, c2)
  {
    var p := "heatmap-";
    var i1, i2 := Signed(TaskHash(s1, k1, c1)), Signed(TaskHash(s2, k2, c2));
    assert IntString(i1) == TaskId(s1, k1, c1)[|p|..];
    assert IntString(i2) == TaskId(s2, k2, c2)[|p|..];
    IntStringInjective(i1, i2);
  }

  lemma WrapSix(x: int)
    ensures Wrap(x) != Wrap(x + 6)
  {
    var q := x / IntRange;
    assert x == IntRange * q + Wrap(x);
    if Wrap(x) + 6 < IntRange {
      WrapShift(Wrap(x) + 6, q);
    } else {
      WrapShift(Wrap(x) + 6 - IntRange, q + 1);
    }
  }

  /** For the same set and key, the condensed and the full heatmap get different tasks. */
  lemma CondensedDistinguishes(setId: bv64, key: bv64)
    ensures TaskId(setId, key, true) != TaskId(setId, key, false)
  {
    var u := 31 * Wrap(31 * Wrap(31 + LongHash(setId)) + LongHash(key));
    assert TaskHash(setId, key, true) == Wrap(u + 1231);
    assert TaskHash(setId, key, false) == Wrap(u + 1231 + 6);
    WrapSix(u + 1231);
    if TaskId(setId, key, true) == TaskId(setId, key, false) {
      TaskIdInjective(setId, key, true, setId, key, false);
    }
  }

  // ---------------------------------------------------------------------
  // The witness filter list (:211-223)
  // ---------------------------------------------------------------------

  /** The ids in order, without the base. */
  function Filtered(ids: seq<bv64>, baseId: bv64): seq<bv64>
  {
    if |ids| == 0 then []
    else Filtered(ids[..|ids| - 1], baseId) + (if ids[|ids| - 1] == baseId then [] else [ids[|ids| - 1]])
  }

  /** An id is in the filter list exactly when it was given and is not the base. */
  lemma {:induction false} FilteredMembers(ids: seq<bv64>, baseId: bv64, x: bv64)
    ensures x in Filtered(ids, baseId) <==> x in ids && x != baseId
  {
    if |ids| > 0 {
      FilteredMembers(ids[..|ids| - 1], baseId, x);
      assert ids == ids[..|ids| - 1] + [ids[|ids| - 1]];
    }
  }

  /** Filtering keeps the order of the given ids: it distributes over concatenation. */
  lemma {:induction false} FilteredAppend(a: seq<bv64>, b: seq<bv64>, baseId: bv64)
    ensures Filtered(a + b, baseId) == Filtered(a, baseId) + Filtered(b, baseId)
  {
    if |b| > 0 {
      var b0 := b[..|b| - 1];
      assert (a + b)[..|a + b| - 1] == a + b0;
      FilteredAppend(a, b0, baseId);
    } else {
      assert a + b == a;
    }
  }

  /**
   * `getWitnessFilterList(baseId)`: `filter` is the already parsed
   * `filter` query parameter, `None` when it is absent.
   */
  method WitnessFilterList(filter: Option<seq<bv64>>, baseId: bv64) returns (list: seq<bv64>)
    ensures filter.None? ==> list == []
    ensures filter.Some? ==> list == Filtered(filter.value, baseId)
  {
    list := [];
    if filter.Some? {
      var docIds := filter.value;
      for i := 0 to |docIds|
        invariant list == Filtered(docIds[..i], baseId)
      {
        assert docIds[..i + 1][..i] == docIds[..i];
        var witId := docIds[i];
        if witId != baseId {
          list := list + [witId];
        }
      }
      assert docIds[..|docIds|] == docIds;
    }
  }

  // ---------------------------------------------------------------------
  // The cache-miss decision (:100-171)
  // ---------------------------------------------------------------------

  /** The tasks submitted to the task manager, by id, in order. */
  class TaskManager {
    var submitted: seq<string>

    constructor ()
      ensures submitted == []
    {
      submitted := [];
    }

    predicate Exists(taskId: string)
      reads this
    {
      taskId in submitted
    }

    method Submit(taskId: string)
      modifies this
      ensures submitted == old(submitted) + [taskId]
    {
      submitted := submitted + [taskId];
    }
  }

  const TooFewWitnesses := "This set contains less than two witnesess. Unable to view heatmap."

  const Rendering := "RENDERING "

  /**
   * What `toHtml` answers: a text message, the placeholder of a rendering
   * in progress, the page built from the cached heatmap, or the
   * `NullPointerException` of :150 when the requested base is not in the set.
   */
  datatype Reply = Text(message: string) | Html(body: string) | CachedPage | NoBase

  /** The base witness: the requested one if it is in the set (:124-144), else none. */
  function SelectBase(requested: Option<bv64>, witnessIds: seq<bv64>): (r: Option<bv64>)
    requires |witnessIds| >= 2
    ensures requested.None? ==> r == Some(witnessIds[0])
    ensures requested.Some? ==> (r.Some? <==> requested.value in witnessIds)
    ensures r.Some? ==> r.value in witnessIds
  {
    if requested.None? then Some(witnessIds[0])
    else if requested.value in witnessIds then requested
    else None
  }

  /**
   * `toHtml` up to the cache lookup.  `refresh` says whether the query asks
   * to drop the cached heatmaps of the set (:100-102); `heatmapExists` and
   * `visualizationKey` stand for the cache lookup and for the key of the
   * visualization of a base with a filter list.
   */
  method ToHtml(manager: TaskManager, setId: bv64, witnessIds: seq<bv64>, requested: Option<bv64>,
                filter: Option<seq<bv64>>, condensed: bool, refresh: bool,
                heatmapExists: (bv64, bv64, bool) -> bool,
                visualizationKey: (bv64, seq<bv64>) -> bv64)
    returns (reply: Reply)
    modifies manager
    ensures |witnessIds| < 2 ==> reply == Text(TooFewWitnesses) && manager.submitted == old(manager.submitted)
    ensures |witnessIds| >= 2 && SelectBase(requested, witnessIds).None? ==>
              reply == NoBase && manager.submitted == old(manager.submitted)
    ensures |witnessIds| >= 2 && SelectBase(requested, witnessIds).Some? ==>
              var base := SelectBase(requested, witnessIds).value;
              var key := visualizationKey(base, if filter.None? then [] else Filtered(filter.value, base));
              if !refresh && heatmapExists(setId, key, condensed) then
                reply == CachedPage && manager.submitted == old(manager.submitted)
              else
                var taskId := TaskId(setId, key, condensed);
                && reply == Html(Rendering + taskId)
                && manager.submitted == old(manager.submitted) + (if taskId in old(manager.submitted) then [] else [taskId])
  {
    if |witnessIds| < 2 {
      return Text(TooFewWitnesses);
    }
    var baseId := SelectBase(requested, witnessIds);
    if baseId.None? {
      return NoBase;
    }
    var witFilterList := WitnessFilterList(filter, baseId.value);
    var key := visualizationKey(baseId.value, witFilterList);
    var cached := !refresh && heatmapExists(setId, key, condensed);
    if !cached {
      var taskId := TaskId(setId, key, condensed);
      if !manager.Exists(taskId) {
        manager.Submit(taskId);
      }
      return Html(Rendering + taskId);
    }
    return CachedPage;
  }

  /**
   * The same request made twice: the second call answers as the first did
   * and submits nothing the first did not.
   */
  method RepeatedRequest(manager: TaskManager, setId: bv64, witnessIds: seq<bv64>, requested: Option<bv64>,
                         filter: Option<seq<bv64>>, condensed: bool, refresh: bool,
                         heatmapExists: (bv64, bv64, bool) -> bool,
                         visualizationKey: (bv64, seq<bv64>) -> bv64)
    returns (first: Reply, second: Reply, afterFirst: seq<string>)
    modifies manager
    ensures second == first
    ensures manager.submitted == afterFirst
    ensures |old(manager.submitted)| <= |afterFirst| <= |old(manager.submitted)| + 1
  {
    first := ToHtml(manager, setId, witnessIds, requested, filter, condensed, refresh, heatmapExists, visualizationKey);
    afterFirst := manager.submitted;
    if |witnessIds| >= 2 && SelectBase(requested, witnessIds).Some? {
      var base := SelectBase(requested, witnessIds).value;
      var key := visualizationKey(base, if filter.None? then [] else Filtered(filter.value, base));
      var taskId := TaskId(setId, key, condensed);
      MissIdempotent(old(manager.submitted), taskId);
    }
    second := ToHtml(manager, setId, witnessIds, requested, filter, condensed, refresh, heatmapExists, visualizationKey);
  }

  /** A repeated miss for the same visualization submits nothing new. */
  lemma MissIdempotent(submitted: seq<string>, taskId: string)
    ensures var once := submitted + (if taskId in submitted then [] else [taskId]);
            once + (if taskId in once then [] else [taskId]) == once
  {
    var once := submitted + (if taskId in submitted then [] else [taskId]);
    assert taskId in once by {
      if taskId !in submitted {
        assert once[|submitted|] == taskId;
      }
    }
    assert once + [] == once;
  }
}
