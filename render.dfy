/**
 * The streaming loop of `renderHeatMap` (HeatmapView.java:266-316): the base
 * text is read character by character; at every position the four injectors
 * may add markup, in a fixed order, as long as any of them has content there;
 * each character is escaped onto the current line, and each newline and the
 * end of the text close the line with "<br/>".
 *
 * An injector is an abstract state machine over a state `S`: `hasContent`,
 * `injectStart` and `injectEnd` of the Java injectors, the two inject calls
 * returning the new state and the markup they append to the line.  `pending`
 * measures the work an injector has left; the spinning at one position ends
 * because a round of calls never raises it and lowers it for an injector that
 * had content (`Progressing`).
 */
module Render {
  import opened Wrappers

  datatype Injector<!S> = Injector(
    hasContent: (S, nat) -> bool,
    injectStart: (S, nat) -> (S, string),
    injectEnd: (S, nat) -> (S, string),
    pending: S -> nat)

  /** The four injectors of the heatmap, and their states. */
  datatype Injectors<!S> = Injectors(revision: Injector<S>, pageBreak: Injector<S>, note: Injector<S>, change: Injector<S>)

  datatype States<S> = States(revision: S, pageBreak: S, note: S, change: S)

  /** Which injector a call goes to, and the calls the loop makes. */
  datatype Kind = Revision | PageBreak | Note | ChangeMarks

  datatype Call = Start(kind: Kind, pos: nat) | End(kind: Kind, pos: nat)

  /** An injector's state after its start call and its end call at `pos`. */
  function Cycle<S>(i: Injector<S>, s: S, pos: nat): S
  {
    i.injectEnd(i.injectStart(s, pos).0, pos).0
  }

  /**
   * The progress the loop relies on: at any position a start and an end call
   * never raise the work left, and lower it when the injector had content.
   */
  ghost predicate Progresses<S(!new)>(i: Injector<S>)
  {
    forall s, pos {:trigger Cycle(i, s, pos)} :: i.pending(Cycle(i, s, pos)) <= i.pending(s)
                     && (i.hasContent(s, pos) ==> i.pending(Cycle(i, s, pos)) < i.pending(s))
  }

  ghost predicate Progressing<S(!new)>(inj: Injectors<S>)
  {
    Progresses(inj.revision) && Progresses(inj.pageBreak) && Progresses(inj.note) && Progresses(inj.change)
  }

  function Pending<S>(inj: Injectors<S>, st: States<S>): nat
  {
    inj.revision.pending(st.revision) + inj.pageBreak.pending(st.pageBreak)
    + inj.note.pending(st.note) + inj.change.pending(st.change)
  }

  /** The condition of the inner loop, :277-280. */
  predicate AnyContent<S>(inj: Injectors<S>, st: States<S>, pos: nat)
  {
    inj.revision.hasContent(st.revision, pos) || inj.pageBreak.hasContent(st.pageBreak, pos)
    || inj.note.hasContent(st.note, pos) || inj.change.hasContent(st.change, pos)
  }

  /** The calls of one round at `pos`: starts from revision to change, ends in reverse (:285-296). */
  function Round(pos: nat): (r: seq<Call>)
    ensures |r| == 8 && forall i :: 0 <= i < 8 ==> r[i].pos == pos
    ensures forall i, j :: 0 <= i < 4 && j == 7 - i ==> r[i].Start? && r[j].End? && r[i].kind == r[j].kind
    ensures [r[0].kind, r[1].kind, r[2].kind, r[3].kind] == [Revision, PageBreak, Note, ChangeMarks]
  {
    [Start(Revision, pos), Start(PageBreak, pos), Start(Note, pos), Start(ChangeMarks, pos),
     End(ChangeMarks, pos), End(Note, pos), End(PageBreak, pos), End(Revision, pos)]
  }

  /** `k` rounds at `pos`. */
  function Rounds(pos: nat, k: nat): seq<Call>
  {
    if k == 0 then [] else Rounds(pos, k - 1) + Round(pos)
  }

  /** The states and the markup after one round of calls at `pos`, in the order of `Round(pos)`. */
  function RoundEffect<S>(inj: Injectors<S>, st: States<S>, pos: nat): (r: (States<S>, string))
    ensures r.0 == States(Cycle(inj.revision, st.revision, pos), Cycle(inj.pageBreak, st.pageBreak, pos),
                          Cycle(inj.note, st.note, pos), Cycle(inj.change, st.change, pos))
  {
    var (r1, a1) := inj.revision.injectStart(st.revision, pos);
    var (b1, a2) := inj.pageBreak.injectStart(st.pageBreak, pos);
    var (n1, a3) := inj.note.injectStart(st.note, pos);
    var (c1, a4) := inj.change.injectStart(st.change, pos);
    var (c2, a5) := inj.change.injectEnd(c1, pos);
    var (n2, a6) := inj.note.injectEnd(n1, pos);
    var (b2, a7) := inj.pageBreak.injectEnd(b1, pos);
    var (r2, a8) := inj.revision.injectEnd(r1, pos);
    (States(r2, b2, n2, c2), a1 + a2 + a3 + a4 + a5 + a6 + a7 + a8)
  }

  /** A round with content at `pos` leaves strictly less work. */
  lemma RoundProgress<S(!new)>(inj: Injectors<S>, st: States<S>, pos: nat)
    requires Progressing(inj)
    ensures Pending(inj, RoundEffect(inj, st, pos).0) <= Pending(inj, st)
    ensures AnyContent(inj, st, pos) ==> Pending(inj, RoundEffect(inj, st, pos).0) < Pending(inj, st)
  {
  }

  /**
   * The inner loop at `pos`: the states, the markup injected and the number
   * of rounds made while some injector had content.
   */
  function Spin<S(!new)>(inj: Injectors<S>, st: States<S>, pos: nat): (r: (States<S>, string, nat))
    requires Progressing(inj)
    ensures !AnyContent(inj, r.0, pos)
    ensures r.2 == 0 <==> !AnyContent(inj, st, pos)
    ensures r.2 == 0 ==> r.0 == st && r.1 == ""
    decreases Pending(inj, st)
  {
    if !AnyContent(inj, st, pos) then (st, "", 0)
    else
      RoundProgress(inj, st, pos);
      var (st1, m) := RoundEffect(inj, st, pos);
      var (st2, rest, k) := Spin(inj, st1, pos);
      (st2, m + rest, k + 1)
  }

  /**
   * The first `n` positions of the outer loop: the states after them, the
   * markup injected at each position and every injector call, in order.
   */
  function Trace<S(!new)>(inj: Injectors<S>, st0: States<S>, n: nat): (r: (States<S>, seq<string>, seq<Call>))
    requires Progressing(inj)
    ensures |r.1| == n
  {
    if n == 0 then (st0, [], [])
    else
      var (st, ms, cs) := Trace(inj, st0, n - 1);
      var (st1, m, k) := Spin(inj, st, n - 1);
      (st1, ms + [m], cs + Rounds(n - 1, k))
  }

  // ---------------------------------------------------------------------
  // Lines
  // ---------------------------------------------------------------------

  const BR := "<br/>"

  function EscapeAll(s: string, escape: char -> string): string
  {
    if |s| == 0 then "" else EscapeAll(s[..|s| - 1], escape) + escape(s[|s| - 1])
  }

  /**
   * The lines written and the line being built after the first `n`
   * characters of `text`, with `markup[p]` injected before character `p`.
   */
  function LayoutLines(text: string, markup: seq<string>, escape: char -> string, n: nat): (r: (seq<string>, string))
    requires n <= |text| && n <= |markup|
  {
    if n == 0 then ([], "")
    else
      var (lines, line) := LayoutLines(text, markup, escape, n - 1);
      var c := text[n - 1];
      if c == '\n' then (lines + [line + markup[n - 1] + BR], "")
      else (lines, line + markup[n - 1] + escape(c))
  }

  /** Every line written: one per newline, and the last one at the end of the text. */
  function Layout(text: string, markup: seq<string>, escape: char -> string): (lines: seq<string>)
    requires |markup| == |text| + 1
    ensures |lines| > 0 && EndsWithBreak(lines[|lines| - 1])
  {
    var (lines, line) := LayoutLines(text, markup, escape, |text|);
    lines + [line + markup[|text|] + BR]
  }

  function Newlines(s: string): nat
  {
    if |s| == 0 then 0 else Newlines(s[..|s| - 1]) + (if s[|s| - 1] == '\n' then 1 else 0)
  }

  predicate EndsWithBreak(line: string)
  {
    |line| >= |BR| && line[|line| - |BR|..] == BR
  }

  lemma {:induction false} LayoutLinesShape(text: string, markup: seq<string>, escape: char -> string, n: nat)
    requires n <= |text| && n <= |markup|
    ensures var (lines, _) := LayoutLines(text, markup, escape, n);
            |lines| == Newlines(text[..n]) && forall i :: 0 <= i < |lines| ==> EndsWithBreak(lines[i])
  {
    if n > 0 {
      LayoutLinesShape(text, markup, escape, n - 1);
      assert text[..n][..n - 1] == text[..n - 1];
      var (lines, line) := LayoutLines(text, markup, escape, n - 1);
      var l := line + markup[n - 1] + BR;
      assert l[|l| - |BR|..] == BR;
    }
  }

  /**
   * One line per newline plus the last one, each closed with "<br/>"
   * (:301-305).
   */
  lemma LayoutShape(text: string, markup: seq<string>, escape: char -> string)
    requires |markup| == |text| + 1
    ensures var lines := Layout(text, markup, escape);
            |lines| == Newlines(text) + 1 && forall i :: 0 <= i < |lines| ==> EndsWithBreak(lines[i])
  {
    LayoutLinesShape(text, markup, escape, |text|);
    assert text[..|text|] == text;
    var (lines, line) := LayoutLines(text, markup, escape, |text|);
    var l := line + markup[|text|] + BR;
    assert l[|l| - |BR|..] == BR;
  }

  /** The text cut at its newlines, which are dropped: one segment more than newlines. */
  function Segments(text: string): (r: seq<string>)
    ensures |r| > 0
  {
    if |text| == 0 then [""]
    else
      var r := Segments(text[..|text| - 1]);
      var c := text[|text| - 1];
      if c == '\n' then r + [""] else r[..|r| - 1] + [r[|r| - 1] + [c]]
  }

  /** The heatmap of a text into which nothing is injected: each segment escaped, then "<br/>". */
  function PlainLines(text: string, escape: char -> string): (r: seq<string>)
  {
    var segs := Segments(text);
    seq(|segs|, i requires 0 <= i < |segs| => EscapeAll(segs[i], escape) + BR)
  }

  predicate NoMarkup(markup: seq<string>)
  {
    forall p :: 0 <= p < |markup| ==> markup[p] == ""
  }

  /** `lines` and `line` are the escaped segments `segs`, all but the last one closed. */
  predicate PlainSoFar(lines: seq<string>, line: string, segs: seq<string>, escape: char -> string)
  {
    && |segs| > 0
    && |lines| == |segs| - 1
    && (forall i :: 0 <= i < |lines| ==> lines[i] == EscapeAll(segs[i], escape) + BR)
    && line == EscapeAll(segs[|segs| - 1], escape)
  }

  lemma PlainBreak(lines: seq<string>, line: string, segs: seq<string>, escape: char -> string)
    requires PlainSoFar(lines, line, segs, escape)
    ensures PlainSoFar(lines + [line + "" + BR], "", segs + [""], escape)
  {
    assert line + "" == line;
  }

  lemma PlainChar(lines: seq<string>, line: string, segs: seq<string>, c: char, escape: char -> string)
    requires PlainSoFar(lines, line, segs, escape)
    ensures PlainSoFar(lines, line + "" + escape(c), segs[..|segs| - 1] + [segs[|segs| - 1] + [c]], escape)
  {
    var last := segs[|segs| - 1];
    assert (last + [c])[..|last + [c]| - 1] == last;
    assert line + "" == line;
  }

  lemma {:induction false} LayoutLinesPlain(text: string, markup: seq<string>, escape: char -> string, n: nat)
    requires n <= |text| && n <= |markup| && NoMarkup(markup)
    ensures PlainSoFar(LayoutLines(text, markup, escape, n).0, LayoutLines(text, markup, escape, n).1,
                       Segments(text[..n]), escape)
  {
    if n > 0 {
      LayoutLinesPlain(text, markup, escape, n - 1);
      assert text[..n][..n - 1] == text[..n - 1];
      assert markup[n - 1] == "";
      var (lines, line) := LayoutLines(text, markup, escape, n - 1);
      var segs := Segments(text[..n - 1]);
      if text[n - 1] == '\n' {
        PlainBreak(lines, line, segs, escape);
      } else {
        PlainChar(lines, line, segs, text[n - 1], escape);
      }
    }
  }

  /** With nothing injected, the lines are the escaped segments of the text, each closed. */
  lemma LayoutPlain(text: string, markup: seq<string>, escape: char -> string)
    requires |markup| == |text| + 1 && NoMarkup(markup)
    ensures Layout(text, markup, escape) == PlainLines(text, escape)
  {
    LayoutLinesPlain(text, markup, escape, |text|);
    assert text[..|text|] == text;
    assert markup[|text|] == "";
    var (lines, line) := LayoutLines(text, markup, escape, |text|);
    var segs := Segments(text);
    var plain := PlainLines(text, escape);
    var all := lines + [line + markup[|text|] + BR];
    assert |all| == |plain|;
    forall i | 0 <= i < |all| ensures all[i] == plain[i] {
      if i == |lines| {
        assert line + "" == line;
      }
    }
  }

  // ---------------------------------------------------------------------
  // Injector calls
  // ---------------------------------------------------------------------

  /**
   * The calls come in whole rounds, each in the fixed order of `Round`:
   * the call at index `i` is the `i % 8`-th call of a round.
   */
  predicate InRounds(calls: seq<Call>)
  {
    |calls| % 8 == 0 && forall i :: 0 <= i < |calls| ==> calls[i] == Round(calls[i].pos)[i % 8]
  }

  lemma {:induction false} RoundsInRounds(pos: nat, k: nat)
    ensures |Rounds(pos, k)| == 8 * k && InRounds(Rounds(pos, k))
    ensures forall i :: 0 <= i < |Rounds(pos, k)| ==> Rounds(pos, k)[i].pos == pos
  {
    if k > 0 {
      RoundsInRounds(pos, k - 1);
      var a := Rounds(pos, k - 1);
      forall i | 0 <= i < |a| + 8
        ensures (a + Round(pos))[i] == Round((a + Round(pos))[i].pos)[i % 8]
        ensures (a + Round(pos))[i].pos == pos
      {
        if i >= |a| {
          assert (i - |a|) % 8 == i % 8;
        }
      }
    }
  }

  lemma InRoundsAppend(a: seq<Call>, b: seq<Call>)
    requires InRounds(a) && InRounds(b)
    ensures InRounds(a + b)
  {
    forall i | 0 <= i < |a + b|
      ensures (a + b)[i] == Round((a + b)[i].pos)[i % 8]
    {
      if i >= |a| {
        assert (a + b)[i] == b[i - |a|];
        assert (i - |a|) % 8 == i % 8;
      }
    }
  }

  /** Call positions below `n`, never decreasing. */
  predicate Ordered(calls: seq<Call>, n: nat)
  {
    && (forall i :: 0 <= i < |calls| ==> calls[i].pos < n)
    && (forall i, j :: 0 <= i <= j < |calls| ==> calls[i].pos <= calls[j].pos)
  }

  lemma OrderedAppend(cs: seq<Call>, rs: seq<Call>, p: nat)
    requires Ordered(cs, p)
    requires forall i :: 0 <= i < |rs| ==> rs[i].pos == p
    ensures Ordered(cs + rs, p + 1)
  {
    forall i | 0 <= i < |cs + rs| ensures (cs + rs)[i].pos <= p {
      if i >= |cs| { assert (cs + rs)[i] == rs[i - |cs|]; }
    }
  }

  lemma {:induction false} TraceCalls<S(!new)>(inj: Injectors<S>, st0: States<S>, n: nat)
    requires Progressing(inj)
    ensures InRounds(Trace(inj, st0, n).2) && Ordered(Trace(inj, st0, n).2, n)
  {
    if n > 0 {
      TraceCalls(inj, st0, n - 1);
      var (st, ms, cs) := Trace(inj, st0, n - 1);
      var k := Spin(inj, st, n - 1).2;
      var rs := Rounds(n - 1, k);
      RoundsInRounds(n - 1, k);
      InRoundsAppend(cs, rs);
      OrderedAppend(cs, rs, n - 1);
      assert Trace(inj, st0, n).2 == cs + rs;
    }
  }

  /**
   * When no injector has content anywhere, nothing is injected and no
   * inject call is made.
   */
  lemma {:induction false} TraceQuiet<S(!new)>(inj: Injectors<S>, st0: States<S>, n: nat)
    requires Progressing(inj)
    requires forall st: States<S>, pos: nat :: !AnyContent(inj, st, pos)
    ensures Trace(inj, st0, n).0 == st0 && NoMarkup(Trace(inj, st0, n).1) && Trace(inj, st0, n).2 == []
  {
    if n > 0 {
      TraceQuiet(inj, st0, n - 1);
      var (st, ms, cs) := Trace(inj, st0, n - 1);
      assert !AnyContent(inj, st, n - 1);
      assert Trace(inj, st0, n) == (st, ms + [""], cs + []);
      assert cs + [] == [];
    }
  }

  /** The injector a call goes to. */
  function InjectorOf<S>(inj: Injectors<S>, k: Kind): Injector<S>
  {
    match k
    case Revision => inj.revision
    case PageBreak => inj.pageBreak
    case Note => inj.note
    case ChangeMarks => inj.change
  }

  /** The state of the injector a call goes to. */
  function StateOf<S>(st: States<S>, k: Kind): S
  {
    match k
    case Revision => st.revision
    case PageBreak => st.pageBreak
    case Note => st.note
    case ChangeMarks => st.change
  }

  function WithState<S>(st: States<S>, k: Kind, s: S): States<S>
  {
    match k
    case Revision => st.(revision := s)
    case PageBreak => st.(pageBreak := s)
    case Note => st.(note := s)
    case ChangeMarks => st.(change := s)
  }

  /**
   * One call made on its own: the injector the call names is started or
   * ended at the call's position; the markup is what that call appends.
   */
  function ApplyCall<S>(inj: Injectors<S>, st: States<S>, c: Call): (r: (States<S>, string))
    ensures StateOf(r.0, c.kind) == (if c.Start? then InjectorOf(inj, c.kind).injectStart(StateOf(st, c.kind), c.pos).0
                                     else InjectorOf(inj, c.kind).injectEnd(StateOf(st, c.kind), c.pos).0)
    ensures forall k :: k != c.kind ==> StateOf(r.0, k) == StateOf(st, k)
  {
    var i := InjectorOf(inj, c.kind);
    var (s, m) := if c.Start? then i.injectStart(StateOf(st, c.kind), c.pos) else i.injectEnd(StateOf(st, c.kind), c.pos);
    (WithState(st, c.kind, s), m)
  }

  /** A list of calls made one after the other: the final states and all markup, in call order. */
  function ApplyCalls<S>(inj: Injectors<S>, st: States<S>, cs: seq<Call>): (States<S>, string)
  {
    if |cs| == 0 then (st, "")
    else
      var (s1, m1) := ApplyCalls(inj, st, cs[..|cs| - 1]);
      var (s2, m2) := ApplyCall(inj, s1, cs[|cs| - 1]);
      (s2, m1 + m2)
  }

  lemma ApplySnoc<S>(inj: Injectors<S>, st: States<S>, cs: seq<Call>, c: Call)
    ensures var (s1, m1) := ApplyCalls(inj, st, cs);
            ApplyCalls(inj, st, cs + [c]) == (ApplyCall(inj, s1, c).0, m1 + ApplyCall(inj, s1, c).1)
  {
    assert (cs + [c])[..|cs|] == cs;
  }

  /** Making the calls of `a` and then those of `b` is making the calls of `a + b`. */
  lemma {:induction false} ApplyAppend<S>(inj: Injectors<S>, st: States<S>, a: seq<Call>, b: seq<Call>)
    ensures var (s1, m1) := ApplyCalls(inj, st, a);
            var (s2, m2) := ApplyCalls(inj, s1, b);
            ApplyCalls(inj, st, a + b) == (s2, m1 + m2)
  {
    if |b| == 0 {
      var (s1, m1) := ApplyCalls(inj, st, a);
      assert a + b == a && ApplyCalls(inj, s1, b) == (s1, "") && m1 + "" == m1;
    } else {
      var b0 := b[..|b| - 1];
      var c := b[|b| - 1];
      ApplyAppend(inj, st, a, b0);
      assert a + b == (a + b0) + [c] && b == b0 + [c];
      var (s1, m1) := ApplyCalls(inj, st, a);
      var (t, mb) := ApplyCalls(inj, s1, b0);
      var (u, mc) := ApplyCall(inj, t, c);
      ApplySnoc(inj, s1, b0, c);
      ApplySnoc(inj, st, a + b0, c);
      assert (m1 + mb) + mc == m1 + (mb + mc);
    }
  }

  /**
   * The markup and the states of a round are those of its calls made in the
   * order of `Round(pos)`: the order `TraceCalls` states is the order in
   * which the markup is written.
   */
  lemma RoundApplied<S>(inj: Injectors<S>, st: States<S>, pos: nat)
    ensures RoundEffect(inj, st, pos) == ApplyCalls(inj, st, Round(pos))
  {
    var r := Round(pos);
    var (r1, a1) := inj.revision.injectStart(st.revision, pos);
    var (b1, a2) := inj.pageBreak.injectStart(st.pageBreak, pos);
    var (n1, a3) := inj.note.injectStart(st.note, pos);
    var (c1, a4) := inj.change.injectStart(st.change, pos);
    var (c2, a5) := inj.change.injectEnd(c1, pos);
    var (n2, a6) := inj.note.injectEnd(n1, pos);
    var (b2, a7) := inj.pageBreak.injectEnd(b1, pos);
    var (r2, a8) := inj.revision.injectEnd(r1, pos);
    var t1 := States(r1, st.pageBreak, st.note, st.change);
    var t2 := States(r1, b1, st.note, st.change);
    var t3 := States(r1, b1, n1, st.change);
    var t4 := States(r1, b1, n1, c1);
    var t5 := States(r1, b1, n1, c2);
    var t6 := States(r1, b1, n2, c2);
    var t7 := States(r1, b2, n2, c2);
    var t8 := States(r2, b2, n2, c2);
    assert ApplyCalls(inj, st, r[..1]) == (t1, a1) by {
      ApplySnoc(inj, st, [], r[0]);
      assert [] + [r[0]] == r[..1] && "" + a1 == a1;
    }
    assert ApplyCalls(inj, st, r[..2]) == (t2, a1 + a2) by {
      ApplySnoc(inj, st, r[..1], r[1]);
      assert r[..1] + [r[1]] == r[..2];
    }
    assert ApplyCalls(inj, st, r[..3]) == (t3, a1 + a2 + a3) by {
      ApplySnoc(inj, st, r[..2], r[2]);
      assert r[..2] + [r[2]] == r[..3];
    }
    assert ApplyCalls(inj, st, r[..4]) == (t4, a1 + a2 + a3 + a4) by {
      ApplySnoc(inj, st, r[..3], r[3]);
      assert r[..3] + [r[3]] == r[..4];
    }
    assert ApplyCalls(inj, st, r[..5]) == (t5, a1 + a2 + a3 + a4 + a5) by {
      ApplySnoc(inj, st, r[..4], r[4]);
      assert r[..4] + [r[4]] == r[..5];
    }
    assert ApplyCalls(inj, st, r[..6]) == (t6, a1 + a2 + a3 + a4 + a5 + a6) by {
      ApplySnoc(inj, st, r[..5], r[5]);
      assert r[..5] + [r[5]] == r[..6];
    }
    assert ApplyCalls(inj, st, r[..7]) == (t7, a1 + a2 + a3 + a4 + a5 + a6 + a7) by {
      ApplySnoc(inj, st, r[..6], r[6]);
      assert r[..6] + [r[6]] == r[..7];
    }
    assert ApplyCalls(inj, st, r) == (t8, a1 + a2 + a3 + a4 + a5 + a6 + a7 + a8) by {
      ApplySnoc(inj, st, r[..7], r[7]);
      assert r[..7] + [r[7]] == r;
    }
  }

  lemma {:induction false} RoundsCons(pos: nat, k: nat)
    ensures Rounds(pos, k + 1) == Round(pos) + Rounds(pos, k)
  {
    if k > 0 {
      RoundsCons(pos, k - 1);
    }
  }

  /** The inner loop's states and markup are those of its rounds of calls, made in order. */
  lemma {:induction false} SpinApplied<S(!new)>(inj: Injectors<S>, st: States<S>, pos: nat)
    requires Progressing(inj)
    ensures var (st1, m, k) := Spin(inj, st, pos);
            (st1, m) == ApplyCalls(inj, st, Rounds(pos, k))
    decreases Pending(inj, st)
  {
    if AnyContent(inj, st, pos) {
      RoundProgress(inj, st, pos);
      var (st1, m) := RoundEffect(inj, st, pos);
      SpinApplied(inj, st1, pos);
      var k := Spin(inj, st1, pos).2;
      RoundsCons(pos, k);
      RoundApplied(inj, st, pos);
      ApplyAppend(inj, st, Round(pos), Rounds(pos, k));
    } else {
      assert ApplyCalls(inj, st, []) == (st, "");
    }
  }

  /** All markup of the first positions, in position order. */
  function Concat(ms: seq<string>): string
  {
    if |ms| == 0 then "" else Concat(ms[..|ms| - 1]) + ms[|ms| - 1]
  }

  /**
   * What the injectors write, and the states they end in, are determined by
   * the calls `Trace` lists: making those calls one after the other from the
   * initial states gives the final states and all markup, in order.
   */
  lemma {:induction false} TraceApplied<S(!new)>(inj: Injectors<S>, st0: States<S>, n: nat)
    requires Progressing(inj)
    ensures var (st, ms, cs) := Trace(inj, st0, n);
            (st, Concat(ms)) == ApplyCalls(inj, st0, cs)
  {
    if n == 0 {
      assert ApplyCalls(inj, st0, []) == (st0, "");
    } else {
      TraceApplied(inj, st0, n - 1);
      var (st, ms, cs) := Trace(inj, st0, n - 1);
      var (st1, m, k) := Spin(inj, st, n - 1);
      SpinApplied(inj, st, n - 1);
      ApplyAppend(inj, st0, cs, Rounds(n - 1, k));
      assert (ms + [m])[..|ms|] == ms;
    }
  }

  /** Markup for positions at or past `n` does not change the first `n` characters' lines. */
  lemma {:induction false} LayoutLinesExtend(text: string, markup: seq<string>, extra: seq<string>, escape: char -> string, n: nat)
    requires n <= |text| && n <= |markup|
    ensures LayoutLines(text, markup + extra, escape, n) == LayoutLines(text, markup, escape, n)
  {
    if n > 0 {
      LayoutLinesExtend(text, markup, extra, escape, n - 1);
      assert (markup + extra)[n - 1] == markup[n - 1];
    }
  }

  // ---------------------------------------------------------------------
  // The loops
  // ---------------------------------------------------------------------

  /** One round less of the inner loop, when some injector has content. */
  lemma SpinUnfold<S(!new)>(inj: Injectors<S>, st: States<S>, pos: nat, st1: States<S>, m: string)
    requires Progressing(inj) && AnyContent(inj, st, pos)
    requires (st1, m) == RoundEffect(inj, st, pos)
    ensures Pending(inj, st1) < Pending(inj, st)
    ensures Spin(inj, st, pos).0 == Spin(inj, st1, pos).0
    ensures Spin(inj, st, pos).1 == m + Spin(inj, st1, pos).1
    ensures Spin(inj, st, pos).2 == Spin(inj, st1, pos).2 + 1
  {
    RoundProgress(inj, st, pos);
  }

  /** One round of the eight inject calls at `pos` (:285-296), logging each call. */
  method InjectRound<S>(inj: Injectors<S>, st: States<S>, pos: nat) returns (st1: States<S>, injected: string, calls: seq<Call>)
    ensures (st1, injected) == RoundEffect(inj, st, pos)
    ensures calls == Round(pos)
    ensures (st1, injected) == ApplyCalls(inj, st, calls)
  {
    calls := [];
    var (r1, a1) := inj.revision.injectStart(st.revision, pos);
    calls := calls + [Start(Revision, pos)];
    var (b1, a2) := inj.pageBreak.injectStart(st.pageBreak, pos);
    calls := calls + [Start(PageBreak, pos)];
    var (n1, a3) := inj.note.injectStart(st.note, pos);
    calls := calls + [Start(Note, pos)];
    var (c1, a4) := inj.change.injectStart(st.change, pos);
    calls := calls + [Start(ChangeMarks, pos)];
    var (c2, a5) := inj.change.injectEnd(c1, pos);
    calls := calls + [End(ChangeMarks, pos)];
    var (n2, a6) := inj.note.injectEnd(n1, pos);
    calls := calls + [End(Note, pos)];
    var (b2, a7) := inj.pageBreak.injectEnd(b1, pos);
    calls := calls + [End(PageBreak, pos)];
    var (r2, a8) := inj.revision.injectEnd(r1, pos);
    calls := calls + [End(Revision, pos)];
    st1 := States(r2, b2, n2, c2);
    injected := a1 + a2 + a3 + a4 + a5 + a6 + a7 + a8;
    RoundApplied(inj, st, pos);
  }

  /**
   * What the inner loop at `pos` keeps: from `st`, spinning on yields what
   * spinning from `st0` does, after `injected` and `rounds` rounds of calls.
   */
  ghost predicate SpinSoFar<S(!new)>(inj: Injectors<S>, st0: States<S>, pos: nat,
                                     st: States<S>, injected: string, rounds: nat, calls: seq<Call>)
    requires Progressing(inj)
  {
    && Spin(inj, st0, pos).0 == Spin(inj, st, pos).0
    && Spin(inj, st0, pos).1 == injected + Spin(inj, st, pos).1
    && Spin(inj, st0, pos).2 == rounds + Spin(inj, st, pos).2
    && calls == Rounds(pos, rounds)
  }

  /** The body of the inner loop: one round of calls, logged. */
  method SpinRound<S(!new)>(inj: Injectors<S>, ghost st0: States<S>, pos: nat,
                            st: States<S>, injected: string, rounds: nat, calls: seq<Call>)
    returns (st1: States<S>, injected1: string, rounds1: nat, calls1: seq<Call>)
    requires Progressing(inj) && AnyContent(inj, st, pos)
    requires SpinSoFar(inj, st0, pos, st, injected, rounds, calls)
    ensures SpinSoFar(inj, st0, pos, st1, injected1, rounds1, calls1)
    ensures Pending(inj, st1) < Pending(inj, st)
  {
    var m, cs;
    st1, m, cs := InjectRound(inj, st, pos);
    SpinUnfold(inj, st, pos, st1, m);
    assert Rounds(pos, rounds + 1) == calls + cs;
    injected1, rounds1, calls1 := injected + m, rounds + 1, calls + cs;
  }

  /**
   * The inner loop at `pos` (:277-296): rounds of the eight inject calls
   * while any injector has content, returning the new states, the markup
   * appended to the line, the number of rounds and the calls made.
   */
  method SpinAt<S(!new)>(inj: Injectors<S>, st0: States<S>, pos: nat)
    returns (st: States<S>, injected: string, rounds: nat, calls: seq<Call>)
    requires Progressing(inj)
    ensures (st, injected, rounds) == Spin(inj, st0, pos)
    ensures calls == Rounds(pos, rounds)
  {
    st, injected, rounds, calls := st0, "", 0, [];
    assert injected + Spin(inj, st0, pos).1 == Spin(inj, st0, pos).1;
    while AnyContent(inj, st, pos)
      invariant SpinSoFar(inj, st0, pos, st, injected, rounds, calls)
      decreases Pending(inj, st)
    {
      st, injected, rounds, calls := SpinRound(inj, st0, pos, st, injected, rounds, calls);
    }
    assert injected + "" == injected;
  }

  /**
   * `renderHeatMap`'s streaming loop (:266-311) over the base text, with the
   * trailing notes (:313-316): `trailing` is the note injector's
   * `addTrailingNotes`, saying whether there are notes after the end of the
   * text and the markup for them.  Each read returns the next character, or
   * `None` at the end of the stream where the source reads -1.  `lines` are
   * the lines written to the data file, `trailer` what is written after them.
   */
  method RenderHeatMap<S(!new)>(text: string, inj: Injectors<S>, st0: States<S>,
                                escape: char -> string, trailing: S -> (bool, string))
    returns (lines: seq<string>, trailer: Option<string>, markup: seq<string>, calls: seq<Call>, charsRead: nat)
    requires Progressing(inj)
    ensures charsRead == |text| + 1
    ensures var (st, ms, cs) := Trace(inj, st0, |text| + 1);
            && markup == ms && calls == cs
            && trailer == (if trailing(st.note).0 then Some(trailing(st.note).1) else None)
    ensures lines == Layout(text, markup, escape)
  {
    var pos: nat := 0;
    var line := "";
    var done := false;
    var st := st0;
    lines, markup, calls, charsRead := [], [], [], 0;
    while !done
      invariant pos <= |text| + 1 && (done <==> pos == |text| + 1) && charsRead == pos
      invariant (st, markup, calls) == Trace(inj, st0, pos)
      invariant !done ==> (lines, line) == LayoutLines(text, markup, escape, pos)
      invariant done ==> line == "" && lines == Layout(text, markup, escape)
      decreases |text| + 1 - pos
    {
      var data: Option<char> := if pos < |text| then Some(text[pos]) else None;
      charsRead := charsRead + 1;
      if data.None? {
        done := true;
      }
      var injected, k, cs;
      ghost var markup0 := markup;
      st, injected, k, cs := SpinAt(inj, st, pos);
      markup := markup + [injected];
      calls := calls + cs;
      line := line + injected;
      LayoutLinesExtend(text, markup0, [injected], escape, pos);
      if data == Some('\n') || data.None? {
        lines := lines + [line + BR];
        line := "";
      } else {
        line := line + escape(data.value);
      }
      pos := pos + 1;
    }
    var (more, notes) := trailing(st.note);
    trailer := if more then Some(line + notes) else None;
    assert line + notes == notes;
  }
}
