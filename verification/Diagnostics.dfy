/** Recovery diagnostics: one warning per recovery node of the tree, in source order. */
module Diagnostics {
  import opened CursorWalk
  import opened LineIndex

  /** What a report is about: the file's path, its text and the name of its grammar. */
  datatype Job = Job(path: string, source: string, language: string)

  datatype Severity = Error | Warning

  datatype Diagnostic = Diagnostic(file: string, severity: Severity, message: string, span: Span)

  predicate IsRecovery(f: Found) { f.isError || f.isMissing }

  /** An empty path is reported as unknown rather than as nothing. */
  function Labeled(path: string): string { if path == "" then "<source>" else path }

  /** A missing symbol is named; text that did not parse is not. */
  function RecoveryMessage(missing: bool, kind: string, language: string): string
  {
    if missing then language + " is missing " + kind else language + " could not parse this text"
  }

  function Report(job: Job, f: Found): Diagnostic
  {
    Diagnostic(Labeled(job.path), Warning, RecoveryMessage(f.isMissing, f.kind, job.language),
               SpanOf(job.source, f.start, f.end))
  }

  /** The reports of the recovery nodes among `visits`, in visiting order. */
  function Reports(job: Job, visits: seq<Visit>): seq<Diagnostic>
  {
    if visits == [] then []
    else
      var last := visits[|visits| - 1].found;
      Reports(job, visits[..|visits| - 1]) + if IsRecovery(last) then [Report(job, last)] else []
  }

  // ---------------------------------------------------------------- the stable sort

  /** Sort key: where the span starts, then where it ends. */
  predicate KeyLe(a: Diagnostic, b: Diagnostic)
  {
    a.span.start.byte < b.span.start.byte
    || (a.span.start.byte == b.span.start.byte && a.span.end.byte <= b.span.end.byte)
  }

  predicate SameKey(a: Diagnostic, b: Diagnostic) { KeyLe(a, b) && KeyLe(b, a) }

  ghost predicate SortedByKey(ds: seq<Diagnostic>)
  {
    forall i, j :: 0 <= i < j < |ds| ==> KeyLe(ds[i], ds[j])
  }

  /** The diagnostics sharing a key with `d`, in order. */
  function WithKey(ds: seq<Diagnostic>, d: Diagnostic): seq<Diagnostic>
  {
    if ds == [] then []
    else WithKey(ds[..|ds| - 1], d) + if SameKey(ds[|ds| - 1], d) then [ds[|ds| - 1]] else []
  }

  /** Insert after every entry whose key is no larger. */
  function InsertByKey(ds: seq<Diagnostic>, d: Diagnostic): seq<Diagnostic>
  {
    if ds == [] || KeyLe(ds[|ds| - 1], d) then ds + [d]
    else InsertByKey(ds[..|ds| - 1], d) + [ds[|ds| - 1]]
  }

  function SortByKey(ds: seq<Diagnostic>): seq<Diagnostic>
  {
    if ds == [] then [] else InsertByKey(SortByKey(ds[..|ds| - 1]), ds[|ds| - 1])
  }

  lemma {:induction false} InsertLosesNothing(ds: seq<Diagnostic>, d: Diagnostic)
    ensures multiset(InsertByKey(ds, d)) == multiset(ds) + multiset{d}
  {
    hide KeyLe;
    if ds != [] && !KeyLe(ds[|ds| - 1], d) {
      InsertLosesNothing(ds[..|ds| - 1], d);
      assert ds == ds[..|ds| - 1] + [ds[|ds| - 1]];
    }
  }

  lemma KeyLeTransitive(a: Diagnostic, b: Diagnostic, c: Diagnostic)
    ensures KeyLe(a, b) || KeyLe(b, a)
    ensures KeyLe(a, b) && KeyLe(b, c) ==> KeyLe(a, c)
  {
  }

  lemma {:induction false} InsertSorted(ds: seq<Diagnostic>, d: Diagnostic)
    requires SortedByKey(ds)
    ensures SortedByKey(InsertByKey(ds, d))
  {
    hide KeyLe;
    if ds == [] {
    } else if KeyLe(ds[|ds| - 1], d) {
      forall i | 0 <= i < |ds| ensures KeyLe(ds[i], d) {
        KeyLeTransitive(ds[i], ds[|ds| - 1], d);
      }
    } else {
      var init, last := ds[..|ds| - 1], ds[|ds| - 1];
      InsertSorted(init, d);
      InsertLosesNothing(init, d);
      KeyLeTransitive(d, last, last);
      var inner := InsertByKey(init, d);
      forall i | 0 <= i < |inner| ensures KeyLe(inner[i], last) {
        assert inner[i] in multiset(inner);
      }
    }
  }

  lemma {:induction false} InsertKeepsTies(ds: seq<Diagnostic>, d: Diagnostic, key: Diagnostic)
    requires SortedByKey(ds)
    ensures WithKey(InsertByKey(ds, d), key) == WithKey(ds, key) + if SameKey(d, key) then [d] else []
  {
    if ds == [] || KeyLe(ds[|ds| - 1], d) {
      assert (ds + [d])[..|ds|] == ds;
    } else {
      var init, last := ds[..|ds| - 1], ds[|ds| - 1];
      InsertKeepsTies(init, d, key);
      assert (InsertByKey(init, d) + [last])[..|InsertByKey(init, d)|] == InsertByKey(init, d);
    }
  }

  /** The sort orders by key, loses nothing, and keeps entries with equal keys in their given order. */
  lemma {:induction false} SortIsStable(ds: seq<Diagnostic>, key: Diagnostic)
    ensures SortedByKey(SortByKey(ds))
    ensures multiset(SortByKey(ds)) == multiset(ds)
    ensures WithKey(SortByKey(ds), key) == WithKey(ds, key)
  {
    hide InsertByKey, KeyLe;
    if ds != [] {
      var init, last := ds[..|ds| - 1], ds[|ds| - 1];
      SortIsStable(init, key);
      InsertSorted(SortByKey(init), last);
      InsertLosesNothing(SortByKey(init), last);
      InsertKeepsTies(SortByKey(init), last, key);
      assert ds == init + [last];
    }
  }

  lemma InsertAtEnd(ds: seq<Diagnostic>, d: Diagnostic)
    requires ds != [] ==> KeyLe(ds[|ds| - 1], d)
    ensures InsertByKey(ds, d) == ds + [d]
  {
    hide KeyLe;
  }

  lemma {:induction false} SortKeepsSorted(ds: seq<Diagnostic>)
    requires SortedByKey(ds)
    ensures SortByKey(ds) == ds
  {
    hide InsertByKey, KeyLe;
    if ds != [] {
      var init, last := ds[..|ds| - 1], ds[|ds| - 1];
      SortKeepsSorted(init);
      InsertAtEnd(init, last);
      assert ds == init + [last];
    }
  }

  /** A recovery is never reported as an error. */
  lemma {:induction false} ReportsWarn(job: Job, visits: seq<Visit>)
    ensures forall d <- Reports(job, visits) :: d.severity == Warning
  {
    hide SpanOf, RecoveryMessage;
    if visits != [] {
      ReportsWarn(job, visits[..|visits| - 1]);
    }
  }

  lemma NeverAnError(job: Job, visits: seq<Visit>)
    ensures forall d <- SortByKey(Reports(job, visits)) :: d.severity == Warning
  {
    hide Reports, SortByKey;
    var ds := Reports(job, visits);
    ReportsWarn(job, visits);
    forall d | d in SortByKey(ds) ensures d.severity == Warning {
      SortIsStable(ds, d);
      assert d in multiset(SortByKey(ds));
      assert d in multiset(ds);
    }
  }

  // ---------------------------------------------------------------- the operations

  /** Collect one diagnostic per recovery node below `root`, sorted by span. */
  method Diagnose(root: Tree, job: Job) returns (found: seq<Diagnostic>)
    ensures found == SortByKey(Reports(job, Preorder(root, 0)))
    ensures forall d <- found :: d.severity == Warning
  {
    hide SpanOf, Preorder, SortByKey, RecoveryMessage;
    var visits, _ := Walk(root);
    found := [];
    for i := 0 to |visits|
      invariant found == Reports(job, visits[..i])
    {
      assert visits[..i + 1][..i] == visits[..i];
      if IsRecovery(visits[i].found) {
        found := found + [Report(job, visits[i].found)];
      }
    }
    assert visits[..|visits|] == visits;
    NeverAnError(job, visits);
    found := SortByKey(found);
  }

  method RecoveryCount(root: Tree) returns (count: nat)
    ensures count == Recoveries(Preorder(root, 0))
  {
    hide Preorder;
    var visits, _ := Walk(root);
    count := 0;
    for i := 0 to |visits|
      invariant count == Recoveries(visits[..i])
    {
      assert visits[..i + 1][..i] == visits[..i];
      if IsRecovery(visits[i].found) {
        count := count + 1;
      }
    }
    assert visits[..|visits|] == visits;
  }

  function Recoveries(visits: seq<Visit>): nat
  {
    if visits == [] then 0
    else Recoveries(visits[..|visits| - 1]) + if IsRecovery(visits[|visits| - 1].found) then 1 else 0
  }

  // ---------------------------------------------------------------- what they promise

  predicate HasRecovery(t: Tree)
    decreases t
  {
    IsRecovery(Facts(t)) || KidsHaveRecovery(t, 0)
  }

  predicate KidsHaveRecovery(t: Tree, from: nat)
    requires from <= |t.children|
    decreases t, |t.children| - from
  {
    from < |t.children| && (HasRecovery(t.children[from]) || KidsHaveRecovery(t, from + 1))
  }

  lemma {:induction false} RecoveriesConcat(a: seq<Visit>, b: seq<Visit>)
    ensures Recoveries(a + b) == Recoveries(a) + Recoveries(b)
  {
    if b == [] {
      assert a + b == a;
    } else {
      RecoveriesConcat(a, b[..|b| - 1]);
      assert (a + b)[..|a + b| - 1] == a + b[..|b| - 1];
    }
  }

  /** A count of zero means a clean tree, root included. */
  lemma {:induction false} NoneIffClean(t: Tree, depth: nat)
    ensures Recoveries(Preorder(t, depth)) == 0 <==> !HasRecovery(t)
    decreases t
  {
    var head := [Visit(Facts(t), depth)];
    RecoveriesConcat(head, KidsFrom(t, 0, depth));
    assert Recoveries(head) == Recoveries([]) + if IsRecovery(Facts(t)) then 1 else 0 by {
      assert head[..0] == [];
    }
    NoneIffKidsClean(t, 0, depth);
  }

  lemma {:induction false} NoneIffKidsClean(t: Tree, from: nat, depth: nat)
    requires from <= |t.children|
    ensures Recoveries(KidsFrom(t, from, depth)) == 0 <==> !KidsHaveRecovery(t, from)
    decreases t, |t.children| - from
  {
    if from < |t.children| {
      RecoveriesConcat(Preorder(t.children[from], depth + 1), KidsFrom(t, from + 1, depth));
      NoneIffClean(t.children[from], depth + 1);
      NoneIffKidsClean(t, from + 1, depth);
    }
  }

  /** The count is the length of the list, in every tree. */
  lemma {:induction false} CountIsLength(job: Job, visits: seq<Visit>)
    ensures |Reports(job, visits)| == Recoveries(visits)
    ensures |SortByKey(Reports(job, visits))| == Recoveries(visits)
  {
    hide SpanOf, SortByKey;
    if visits != [] {
      CountIsLength(job, visits[..|visits| - 1]);
      var reports := Reports(job, visits);
      SortIsStable(reports, Diagnostic("", Warning, "", Span(Pos(1, 1, 0), Pos(1, 1, 0))));
      assert |multiset(SortByKey(reports))| == |multiset(reports)|;
    } else {
      assert SortByKey([]) == [] by { SortKeepsSorted([]); }
    }
  }

  /** A child's span lies inside its parent's, and siblings come one after the other. */
  ghost predicate WellNested(t: Tree)
    decreases t
  {
    && t.start <= t.end
    && (forall i :: 0 <= i < |t.children| ==> WellNested(t.children[i]))
    && (forall i :: 0 <= i < |t.children| ==> t.start <= t.children[i].start && t.children[i].end <= t.end)
    && (forall i, j :: 0 <= i < j < |t.children| ==> t.children[i].end <= t.children[j].start)
  }

  ghost predicate StartsWithin(visits: seq<Visit>, lo: nat, hi: nat)
  {
    && (forall i :: 0 <= i < |visits| ==> lo <= visits[i].found.start <= hi)
    && (forall i, j :: 0 <= i < j < |visits| ==> visits[i].found.start <= visits[j].found.start)
  }

  lemma StartsJoin(a: seq<Visit>, b: seq<Visit>, lo: nat, mid: nat, hi: nat)
    requires StartsWithin(a, lo, mid) && StartsWithin(b, mid, hi) && lo <= mid <= hi
    ensures StartsWithin(a + b, lo, hi)
  {
  }

  /** The walk arrives in order of where nodes start. */
  lemma {:induction false} WalkInStartOrder(t: Tree, depth: nat)
    requires WellNested(t)
    ensures StartsWithin(Preorder(t, depth), t.start, t.end)
    decreases t
  {
    KidsInStartOrder(t, 0, depth, t.start);
    StartsJoin([Visit(Facts(t), depth)], KidsFrom(t, 0, depth), t.start, t.start, t.end);
  }

  lemma {:induction false} KidsInStartOrder(t: Tree, from: nat, depth: nat, lo: nat)
    requires WellNested(t) && from <= |t.children| && lo <= t.end
    requires forall i :: from <= i < |t.children| ==> lo <= t.children[i].start
    ensures StartsWithin(KidsFrom(t, from, depth), lo, t.end)
    decreases t, |t.children| - from
  {
    hide StartsWithin;
    if from < |t.children| {
      var child := t.children[from];
      WalkInStartOrder(child, depth + 1);
      KidsInStartOrder(t, from + 1, depth, child.end);
      assert StartsWithin(Preorder(child, depth + 1), lo, child.end) by {
        Loosen(Preorder(child, depth + 1), child.start, lo, child.end);
      }
      StartsJoin(Preorder(child, depth + 1), KidsFrom(t, from + 1, depth), lo, child.end, t.end);
    } else {
      assert StartsWithin([], lo, t.end) by { Nothing(lo, t.end); }
    }
  }

  lemma Loosen(visits: seq<Visit>, old_lo: nat, lo: nat, hi: nat)
    requires StartsWithin(visits, old_lo, hi) && lo <= old_lo
    ensures StartsWithin(visits, lo, hi)
  {
  }

  lemma Nothing(lo: nat, hi: nat)
    ensures StartsWithin([], lo, hi)
  {
  }

  ghost predicate StartsAscend(ds: seq<Diagnostic>)
  {
    forall i, j :: 0 <= i < j < |ds| ==> ds[i].span.start.byte <= ds[j].span.start.byte
  }

  /** Every report starts at or before `byte`. */
  ghost predicate StartBy(ds: seq<Diagnostic>, byte: nat)
  {
    forall i :: 0 <= i < |ds| ==> ds[i].span.start.byte <= byte
  }

  lemma ReportsOneMore(job: Job, visits: seq<Visit>)
    requires visits != []
    ensures var init, last := visits[..|visits| - 1], visits[|visits| - 1].found;
      && (IsRecovery(last) ==> Reports(job, visits) == Reports(job, init) + [Report(job, last)])
      && (!IsRecovery(last) ==> Reports(job, visits) == Reports(job, init))
  {
    hide Report;
  }

  lemma ReportStart(job: Job, f: Found)
    ensures Report(job, f).span.start.byte == Position(job.source, f.start).byte
  {
    hide Position, RecoveryMessage;
  }

  lemma {:induction false} ReportsAscend(job: Job, visits: seq<Visit>, lo: nat, hi: nat)
    requires StartsWithin(visits, lo, hi)
    ensures StartsAscend(Reports(job, visits))
    ensures visits != [] ==> StartBy(Reports(job, visits), Position(job.source, visits[|visits| - 1].found.start).byte)
  {
    hide Position, Reports, Report;
    if visits != [] {
      var init, last := visits[..|visits| - 1], visits[|visits| - 1].found;
      ReportsAscend(job, init, lo, hi);
      ReportsOneMore(job, visits);
      ReportStart(job, last);
      if init != [] {
        PositionsOrderedAsBytes(job.source, init[|init| - 1].found.start, last.start);
      } else {
        NoReports(job);
      }
    } else {
      NoReports(job);
    }
  }

  lemma NoReports(job: Job)
    ensures Reports(job, []) == []
  {
  }

  /** Before the sort, the reports of a well-nested tree already ascend by where they start. */
  lemma WalkAscendsByStart(root: Tree, job: Job)
    requires WellNested(root)
    ensures StartsAscend(Reports(job, Preorder(root, 0)))
  {
    hide Preorder, Reports, Position;
    WalkInStartOrder(root, 0);
    ReportsAscend(job, Preorder(root, 0), root.start, root.end);
  }

  // ---------------------------------------------------------------- when the walk is already the report order

  /** Some recovery node at or below `t` is reported to start at `start` and to end before `end`. */
  predicate HasShorter(source: string, t: Tree, start: nat, end: nat)
    decreases t
  {
    || (IsRecovery(Facts(t)) && Position(source, t.start).byte == start && Position(source, t.end).byte < end)
    || KidsHaveShorter(source, t, 0, start, end)
  }

  predicate KidsHaveShorter(source: string, t: Tree, from: nat, start: nat, end: nat)
    requires from <= |t.children|
    decreases t, |t.children| - from
  {
    from < |t.children|
    && (HasShorter(source, t.children[from], start, end) || KidsHaveShorter(source, t, from + 1, start, end))
  }

  /** Some recovery node has a recovery descendant reported to start where it does and to end sooner. */
  predicate Overtaken(source: string, t: Tree)
    decreases t
  {
    || (IsRecovery(Facts(t)) && KidsHaveShorter(source, t, 0, Position(source, t.start).byte, Position(source, t.end).byte))
    || KidsOvertaken(source, t, 0)
  }

  predicate KidsOvertaken(source: string, t: Tree, from: nat)
    requires from <= |t.children|
    decreases t, |t.children| - from
  {
    from < |t.children| && (Overtaken(source, t.children[from]) || KidsOvertaken(source, t, from + 1))
  }

  /** Every report starts and ends between the two bytes. */
  ghost predicate Inside(ds: seq<Diagnostic>, lo: nat, hi: nat)
  {
    forall i :: 0 <= i < |ds| ==> lo <= ds[i].span.start.byte <= ds[i].span.end.byte <= hi
  }

  ghost predicate AllAfter(d: Diagnostic, ds: seq<Diagnostic>)
  {
    forall i :: 0 <= i < |ds| ==> KeyLe(d, ds[i])
  }

  /** Some report starts at `start` and ends before `end`. */
  ghost predicate Shorter(ds: seq<Diagnostic>, start: nat, end: nat)
  {
    exists i :: 0 <= i < |ds| && ds[i].span.start.byte == start && ds[i].span.end.byte < end
  }

  lemma {:induction false} ReportsConcat(job: Job, a: seq<Visit>, b: seq<Visit>)
    ensures Reports(job, a + b) == Reports(job, a) + Reports(job, b)
  {
    hide Report;
    if b == [] {
      assert a + b == a;
    } else {
      ReportsConcat(job, a, b[..|b| - 1]);
      assert (a + b)[..|a + b| - 1] == a + b[..|b| - 1];
    }
  }

  lemma ReportsOfOne(job: Job, v: Visit)
    ensures Reports(job, [v]) == if IsRecovery(v.found) then [Report(job, v.found)] else []
  {
    hide Report;
    assert [v][..0] == [];
  }

  /** The reports of a subtree: its own, if it is a recovery node, and then its children's. */
  lemma ReportsOfTree(job: Job, t: Tree, depth: nat)
    ensures Reports(job, Preorder(t, depth))
         == (if IsRecovery(Facts(t)) then [Report(job, Facts(t))] else []) + Reports(job, KidsFrom(t, 0, depth))
  {
    hide Reports, Report;
    ReportsOfOne(job, Visit(Facts(t), depth));
    ReportsConcat(job, [Visit(Facts(t), depth)], KidsFrom(t, 0, depth));
  }

  lemma ReportsOfKids(job: Job, t: Tree, from: nat, depth: nat)
    requires from < |t.children|
    ensures Reports(job, KidsFrom(t, from, depth))
         == Reports(job, Preorder(t.children[from], depth + 1)) + Reports(job, KidsFrom(t, from + 1, depth))
  {
    hide Reports, Preorder;
    ReportsConcat(job, Preorder(t.children[from], depth + 1), KidsFrom(t, from + 1, depth));
  }

  lemma InsideJoin(a: seq<Diagnostic>, b: seq<Diagnostic>, lo: nat, mid: nat, hi: nat)
    requires Inside(a, lo, mid) && Inside(b, mid, hi) && lo <= mid <= hi
    ensures Inside(a + b, lo, hi)
    ensures SortedByKey(a + b) <==> SortedByKey(a) && SortedByKey(b)
  {
    var c := a + b;
    if SortedByKey(c) {
      assert forall i :: 0 <= i < |a| ==> a[i] == c[i];
      assert forall i :: 0 <= i < |b| ==> b[i] == c[|a| + i];
    }
  }

  lemma InsideLoosen(ds: seq<Diagnostic>, lo: nat, lo': nat, hi: nat)
    requires Inside(ds, lo', hi) && lo <= lo'
    ensures Inside(ds, lo, hi)
  {
  }

  /** Flooring is monotone, so the reports of a well-nested tree stay inside its reported span. */
  lemma {:induction false} TreeInside(job: Job, t: Tree, depth: nat)
    requires WellNested(t)
    ensures Inside(Reports(job, Preorder(t, depth)), Position(job.source, t.start).byte, Position(job.source, t.end).byte)
    decreases t
  {
    hide Position, Reports, Preorder, KidsFrom, RecoveryMessage;
    ReportsOfTree(job, t, depth);
    PositionsOrderedAsBytes(job.source, t.start, t.end);
    KidsInside(job, t, 0, depth, t.start);
  }

  lemma {:induction false} KidsInside(job: Job, t: Tree, from: nat, depth: nat, lo: nat)
    requires WellNested(t) && from <= |t.children| && lo <= t.end
    requires forall i :: from <= i < |t.children| ==> lo <= t.children[i].start
    ensures Inside(Reports(job, KidsFrom(t, from, depth)), Position(job.source, lo).byte, Position(job.source, t.end).byte)
    decreases t, |t.children| - from
  {
    hide Position, Reports, Preorder, Inside;
    if from == |t.children| {
      NoReports(job);
      NothingInside(Position(job.source, lo).byte, Position(job.source, t.end).byte);
    } else {
      var child := t.children[from];
      SpansOrdered(job.source, lo, child.start, child.end, t.end);
      TreeInside(job, child, depth + 1);
      KidsInside(job, t, from + 1, depth, child.end);
      ReportsOfKids(job, t, from, depth);
      InsideLoosen(Reports(job, Preorder(child, depth + 1)), Position(job.source, lo).byte,
                   Position(job.source, child.start).byte, Position(job.source, child.end).byte);
      InsideJoin(Reports(job, Preorder(child, depth + 1)), Reports(job, KidsFrom(t, from + 1, depth)),
                 Position(job.source, lo).byte, Position(job.source, child.end).byte, Position(job.source, t.end).byte);
    }
  }

  lemma NothingInside(lo: nat, hi: nat)
    ensures Inside([], lo, hi) && SortedByKey([]) && forall start, end :: !Shorter([], start, end)
  {
  }

  lemma SpansOrdered(source: string, a: nat, b: nat, c: nat, d: nat)
    requires a <= b <= c <= d
    ensures Position(source, a).byte <= Position(source, b).byte <= Position(source, c).byte <= Position(source, d).byte
  {
    hide Position;
    PositionsOrderedAsBytes(source, a, b);
    PositionsOrderedAsBytes(source, b, c);
    PositionsOrderedAsBytes(source, c, d);
  }

  lemma ShorterJoin(a: seq<Diagnostic>, b: seq<Diagnostic>, start: nat, end: nat)
    ensures Shorter(a + b, start, end) <==> Shorter(a, start, end) || Shorter(b, start, end)
  {
    var c := a + b;
    if i :| 0 <= i < |a| && a[i].span.start.byte == start && a[i].span.end.byte < end {
      assert c[i] == a[i];
    }
    if i :| 0 <= i < |b| && b[i].span.start.byte == start && b[i].span.end.byte < end {
      assert c[|a| + i] == b[i];
    }
  }

  /** The tree predicate says what the list of reports holds. */
  lemma {:induction false} ShorterIff(job: Job, t: Tree, depth: nat, start: nat, end: nat)
    ensures HasShorter(job.source, t, start, end) <==> Shorter(Reports(job, Preorder(t, depth)), start, end)
    decreases t
  {
    hide Position, Reports, Preorder, KidsFrom, RecoveryMessage;
    ReportsOfTree(job, t, depth);
    var own := if IsRecovery(Facts(t)) then [Report(job, Facts(t))] else [];
    ShorterJoin(own, Reports(job, KidsFrom(t, 0, depth)), start, end);
    KidsShorterIff(job, t, 0, depth, start, end);
    assert IsRecovery(Facts(t)) ==> own[0] == Report(job, Facts(t));
  }

  lemma {:induction false} KidsShorterIff(job: Job, t: Tree, from: nat, depth: nat, start: nat, end: nat)
    requires from <= |t.children|
    ensures KidsHaveShorter(job.source, t, from, start, end) <==> Shorter(Reports(job, KidsFrom(t, from, depth)), start, end)
    decreases t, |t.children| - from
  {
    hide Position, Reports, Preorder, Shorter, HasShorter;
    if from == |t.children| {
      NoReports(job);
      NothingInside(0, 0);
    } else {
      ReportsOfKids(job, t, from, depth);
      ShorterIff(job, t.children[from], depth + 1, start, end);
      KidsShorterIff(job, t, from + 1, depth, start, end);
      ShorterJoin(Reports(job, Preorder(t.children[from], depth + 1)), Reports(job, KidsFrom(t, from + 1, depth)), start, end);
    }
  }

  /** A report ahead of others that start no sooner is out of place exactly when one of them is shorter. */
  lemma HeadSorted(d: Diagnostic, ds: seq<Diagnostic>, hi: nat)
    requires Inside(ds, d.span.start.byte, hi)
    ensures SortedByKey([d] + ds) <==> SortedByKey(ds) && !Shorter(ds, d.span.start.byte, d.span.end.byte)
  {
    var c := [d] + ds;
    assert forall i :: 0 <= i < |ds| ==> c[i + 1] == ds[i];
    assert !Shorter(ds, d.span.start.byte, d.span.end.byte) <==> AllAfter(d, ds);
    if SortedByKey(c) {
      forall i | 0 <= i < |ds| ensures KeyLe(d, ds[i]) {
        assert KeyLe(c[0], c[i + 1]);
      }
      forall i, j | 0 <= i < j < |ds| ensures KeyLe(ds[i], ds[j]) {
        assert KeyLe(c[i + 1], c[j + 1]);
      }
    }
  }

  lemma {:induction false} SortedIff(job: Job, t: Tree, depth: nat)
    requires WellNested(t)
    ensures SortedByKey(Reports(job, Preorder(t, depth))) <==> !Overtaken(job.source, t)
    decreases t
  {
    hide Position, Reports, Preorder, KidsFrom, RecoveryMessage, KeyLe, SortedByKey, Shorter, Inside;
    ReportsOfTree(job, t, depth);
    KidsSortedIff(job, t, 0, depth);
    var kids := Reports(job, KidsFrom(t, 0, depth));
    if IsRecovery(Facts(t)) {
      var own := Report(job, Facts(t));
      KidsInside(job, t, 0, depth, t.start);
      KidsShorterIff(job, t, 0, depth, own.span.start.byte, own.span.end.byte);
      HeadSorted(own, kids, Position(job.source, t.end).byte);
    } else {
      assert [] + kids == kids;
    }
  }

  lemma {:induction false} KidsSortedIff(job: Job, t: Tree, from: nat, depth: nat)
    requires WellNested(t) && from <= |t.children|
    ensures SortedByKey(Reports(job, KidsFrom(t, from, depth))) <==> !KidsOvertaken(job.source, t, from)
    decreases t, |t.children| - from
  {
    hide Position, Reports, Preorder, SortedByKey, Inside, Overtaken;
    if from == |t.children| {
      NoReports(job);
      NothingInside(0, 0);
    } else {
      var child := t.children[from];
      ReportsOfKids(job, t, from, depth);
      SortedIff(job, child, depth + 1);
      KidsSortedIff(job, t, from + 1, depth);
      TreeInside(job, child, depth + 1);
      KidsInside(job, t, from + 1, depth, child.end);
      SpansOrdered(job.source, child.start, child.end, child.end, t.end);
      InsideJoin(Reports(job, Preorder(child, depth + 1)), Reports(job, KidsFrom(t, from + 1, depth)),
                 Position(job.source, child.start).byte, Position(job.source, child.end).byte,
                 Position(job.source, t.end).byte);
    }
  }

  /**
   * Exactly when the walk arrives in the published order, for every well-nested tree and every
   * text: the sort changes nothing if and only if no recovery node has a recovery descendant
   * reported to start at the same byte and to end sooner. Siblings never break the order.
   */
  lemma WalkIsSortedIff(root: Tree, job: Job)
    requires WellNested(root)
    ensures SortedByKey(Reports(job, Preorder(root, 0))) <==> !Overtaken(job.source, root)
    ensures SortByKey(Reports(job, Preorder(root, 0))) == Reports(job, Preorder(root, 0)) <==> !Overtaken(job.source, root)
  {
    hide Position, Reports, Preorder, SortByKey, SortedByKey, Overtaken, WellNested;
    SortedIff(job, root, 0);
    var reports := Reports(job, Preorder(root, 0));
    SortIsStable(reports, Diagnostic("", Warning, "", Span(Pos(1, 1, 0), Pos(1, 1, 0))));
    if SortedByKey(reports) {
      SortKeepsSorted(reports);
    }
  }

  /** An error node covering two bytes whose first child is an error node covering one. */
  const NESTED := Node(true, false, "block", 0, 2, [Node(true, false, "item", 0, 1, [])])

  lemma WalkOfNested()
    ensures Preorder(NESTED, 0) == [Visit(Facts(NESTED), 0), Visit(Facts(NESTED.children[0]), 1)]
  {
    var child := NESTED.children[0];
    UnfoldPreorder(NESTED, 0);
    UnfoldPreorder(child, 1);
    assert KidsFrom(NESTED, 1, 0) == [];
  }

  lemma ReportsOfTwo(job: Job, a: Visit, b: Visit)
    requires IsRecovery(a.found) && IsRecovery(b.found)
    ensures Reports(job, [a, b]) == [Report(job, a.found), Report(job, b.found)]
  {
    hide Position;
    assert [a, b][..1] == [a] && [a][..0] == [];
    assert Reports(job, [a]) == Reports(job, []) + [Report(job, a.found)];
  }

  lemma PlainByte(job: Job, k: nat)
    requires |job.source| == 2 && job.source[0] as int < 0x80 && job.source[1] as int < 0x80 && k <= 2
    ensures Position(job.source, k).byte == k
  {
    hide Position;
    assert job.source[..0] == "" && job.source[..1][..0] == "" && job.source[..2][..1] == job.source[..1];
    assert Offset(job.source, 0) == 0 && Offset(job.source, 1) == 1 && Offset(job.source, 2) == 2;
    FloorOfBoundary(job.source, k);
    PositionIsCounted(job.source, k);
  }

  /**
   * The walk alone does not publish the sorted order: a parent is met before a child that starts
   * with it and ends sooner, and the sort puts the child first.
   */
  lemma SortIsNeeded(job: Job)
    requires |job.source| == 2 && job.source[0] as int < 0x80 && job.source[1] as int < 0x80
    ensures WellNested(NESTED)
    ensures Reports(job, Preorder(NESTED, 0)) != SortByKey(Reports(job, Preorder(NESTED, 0)))
  {
    hide SortByKey, Position, Preorder, Reports;
    WalkOfNested();
    var reports := Reports(job, Preorder(NESTED, 0));
    ReportsOfTwo(job, Visit(Facts(NESTED), 0), Visit(Facts(NESTED.children[0]), 1));
    PlainByte(job, 0);
    PlainByte(job, 1);
    PlainByte(job, 2);
    assert !KeyLe(reports[0], reports[1]);
    SortIsStable(reports, reports[0]);
  }
}
