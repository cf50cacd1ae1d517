/**
 * Text ranges and change records over the base witness.
 *
 * `Range` is the half-open interval `[start, end)` of character offsets.
 * `Change` is the record the change-list builder creates for a base range and
 * then widens, merges into or drops.  The Java class `Change` is not part of
 * this model; its comparator, `mergeChange`, `hasMatching*` and
 * `getDifferenceFrequency` are given the definitions below (see README).
 */
module Changes {

  datatype Range = Range(start: int, end: int)

  function Length(r: Range): int
  {
    r.end - r.start
  }

  /** A range whose end is not before its start. */
  predicate WellFormed(r: Range)
  {
    r.start <= r.end
  }

  /**
   * The widening applied to a zero-length `prior` during the merge walk:
   * `[0, 1)` when it starts at offset 0, otherwise one unit at the next token
   * start after its start.
   */
  function Widen(r: Range, nextTokenStart: int -> int): (w: Range)
    ensures Length(w) == 1
    ensures r.start == 0 ==> w.start == 0
    ensures r.start != 0 ==> var t := nextTokenStart(r.start); w == Range(t, t + 1)
  {
    if r.start == 0 then Range(0, 1)
    else Range(nextTokenStart(r.start), nextTokenStart(r.start) + 1)
  }

  /**
   * A change: its creation index, its base range, its alignment group and the
   * ids of the witnesses that differ from the base over it.
   */
  datatype Change = Change(index: nat, range: Range, group: int, witnesses: set<int>)

  /** `new Change(idx, range, group)`: no witness yet. */
  function NewChange(index: nat, range: Range, group: int): Change
  {
    Change(index, range, group, {})
  }

  function AddWitness(c: Change, witnessId: int): (d: Change)
    ensures d.index == c.index && d.range == c.range && d.group == c.group
    ensures d.witnesses == c.witnesses + {witnessId}
  {
    c.(witnesses := c.witnesses + {witnessId})
  }

  /** How many witnesses disagree with the base over this change. */
  function Frequency(c: Change): nat
  {
    |c.witnesses|
  }

  /** The merge criterion of the walk: same group, same witnesses, same frequency. */
  predicate Mergeable(current: Change, prior: Change)
  {
    current.group == prior.group
    && current.witnesses == prior.witnesses
    && Frequency(current) == Frequency(prior)
  }

  function Min(a: int, b: int): int { if a <= b then a else b }

  function Max(a: int, b: int): int { if a <= b then b else a }

  /**
   * `prior.mergeChange(current)`: prior keeps its identity and group, absorbs
   * the witnesses of `current`, and its range becomes the smallest range
   * covering both.
   */
  function Merge(prior: Change, current: Change): (m: Change)
    ensures m.index == prior.index && m.group == prior.group
    ensures m.witnesses == prior.witnesses + current.witnesses
    ensures m.range.start <= prior.range.start && m.range.start <= current.range.start
    ensures prior.range.end <= m.range.end && current.range.end <= m.range.end
    ensures m.range.start == prior.range.start || m.range.start == current.range.start
    ensures m.range.end == prior.range.end || m.range.end == current.range.end
  {
    var hull := Range(Min(prior.range.start, current.range.start), Max(prior.range.end, current.range.end));
    Change(prior.index, hull, prior.group, prior.witnesses + current.witnesses)
  }

  /** The sort order of changes: by range start, then by index. */
  predicate Before(a: Change, b: Change)
  {
    a.range.start < b.range.start
    || (a.range.start == b.range.start && a.index < b.index)
  }
}
