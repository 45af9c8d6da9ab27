/** The findings table as values: what each SQL statement does to the rows, what a saved report and a
    snooze do as a whole, and what every run of them keeps.

    A row's identity is its position: rows are appended and never deleted. */
module Ledger {
  import opened Text
  import opened Timestamps
  import opened Findings

  datatype Status = Open | Snoozed | Resolved

  /** Timestamps are whole seconds, the precision formatTime stores. */
  datatype Row = Row(
    finding: Finding, status: Status, firstSeen: int, lastSeen: int,
    resolvedAt: Option<int>, snoozeUntil: Option<int>, seenCount: nat)

  predicate Active(r: Row) { r.status != Resolved }

  predicate ActiveFor(r: Row, k: Key) { Active(r) && KeyOf(r.finding) == k }

  ghost predicate HasActive(t: seq<Row>, k: Key) { exists i :: 0 <= i < |t| && ActiveFor(t[i], k) }

  // ----- The statements -----

  /** updateOpenFinding's SET list. Right-hand sides read the old row; a NULL snooze_until falls into ELSE. */
  function Refresh(r: Row, f: Finding, at: int): Row {
    var held := r.status.Snoozed? && r.snoozeUntil.Some? && r.snoozeUntil.value > at;
    r.(finding := r.finding.(severity := f.severity, summary := f.summary, detail := f.detail, data := f.data),
       lastSeen := at,
       seenCount := r.seenCount + 1,
       status := if held then Snoozed else Open,
       snoozeUntil := if held then r.snoozeUntil else None)
  }

  function RefreshIf(r: Row, f: Finding, at: int): Row {
    if ActiveFor(r, KeyOf(f)) then Refresh(r, f, at) else r
  }

  function Update(t: seq<Row>, f: Finding, at: int): seq<Row> {
    seq(|t|, i requires 0 <= i < |t| => RefreshIf(t[i], f, at))
  }

  function NewRow(f: Finding, at: int): Row { Row(f, Open, at, at, None, None, 1) }

  ghost function Upsert(t: seq<Row>, f: Finding, at: int): seq<Row> {
    if HasActive(t, KeyOf(f)) then Update(t, f, at) else t + [NewRow(f, at)]
  }

  ghost function UpsertAll(t: seq<Row>, fs: seq<Finding>, at: int): seq<Row> {
    if fs == [] then t else Upsert(UpsertAll(t, fs[..|fs| - 1], at), fs[|fs| - 1], at)
  }

  /** The entity keys fs names for one check, whatever node the findings carry (seenKeys). */
  function NamedKeys(fs: seq<Finding>, checkId: string): set<string> {
    set f | f in fs && f.checkId == checkId :: f.entityKey
  }

  /** resolveMissingFindings' WHERE clause. */
  predicate Missing(r: Row, node: string, checkId: string, seen: set<string>) {
    Active(r) && r.finding.node == node && r.finding.checkId == checkId && r.finding.entityKey !in seen
  }

  function Close(r: Row, at: int): Row { r.(status := Resolved, resolvedAt := Some(at)) }

  function ResolveMissing(t: seq<Row>, node: string, checkId: string, seen: set<string>, at: int): seq<Row> {
    seq(|t|, i requires 0 <= i < |t| => if Missing(t[i], node, checkId, seen) then Close(t[i], at) else t[i])
  }

  /** Does the report's resolve pass close this row? */
  predicate Unreported(r: Row, rep: Report) {
    Active(r) && r.finding.node == rep.node && r.finding.checkId in rep.ran &&
    r.finding.entityKey !in NamedKeys(rep.findings, r.finding.checkId)
  }

  /** The resolve pass as one table-wide statement. */
  function ResolvePass(t: seq<Row>, rep: Report): seq<Row> {
    seq(|t|, i requires 0 <= i < |t| => if Unreported(t[i], rep) then Close(t[i], Seconds(rep.generatedAt)) else t[i])
  }

  /** What SaveReport leaves in the table. */
  ghost function Save(t: seq<Row>, rep: Report): seq<Row> {
    ResolvePass(UpsertAll(t, rep.findings, Seconds(rep.generatedAt)), rep)
  }

  /** SnoozeEntity: every active row of the entity, on any node and for any check. */
  function Snooze(t: seq<Row>, entityKey: string, until: int): seq<Row> {
    seq(|t|, i requires 0 <= i < |t| =>
      if Active(t[i]) && t[i].finding.entityKey == entityKey
      then t[i].(status := Snoozed, snoozeUntil := Some(Seconds(until))) else t[i])
  }

  // ----- Runs -----

  datatype Step = SaveStep(rep: Report) | SnoozeStep(entityKey: string, until: int)

  ghost function Do(t: seq<Row>, step: Step): seq<Row> {
    match step
    case SaveStep(rep) => Save(t, rep)
    case SnoozeStep(e, u) => Snooze(t, e, u)
  }

  ghost function Play(t: seq<Row>, steps: seq<Step>): seq<Row> {
    if steps == [] then t else Do(Play(t, steps[..|steps| - 1]), steps[|steps| - 1])
  }

  // ----- The invariant -----

  predicate RowOk(r: Row) {
    && (r.status.Open? ==> r.snoozeUntil.None?)
    && (r.status.Snoozed? ==> r.snoozeUntil.Some?)
    && (r.status.Resolved? <==> r.resolvedAt.Some?)
    && r.seenCount >= 1
  }

  ghost predicate UniqueActive(t: seq<Row>) {
    forall i, j :: 0 <= i < j < |t| && Active(t[i]) && Active(t[j]) ==> KeyOf(t[i].finding) != KeyOf(t[j].finding)
  }

  ghost predicate Inv(t: seq<Row>) {
    UniqueActive(t) && forall i :: 0 <= i < |t| ==> RowOk(t[i])
  }

  lemma UpsertKeepsInv(t: seq<Row>, f: Finding, at: int)
    requires Inv(t)
    ensures Inv(Upsert(t, f, at))
  {
    if HasActive(t, KeyOf(f)) {
      var u := Update(t, f, at);
      forall i | 0 <= i < |t|
        ensures RowOk(u[i]) && (Active(u[i]) <==> Active(t[i])) && KeyOf(u[i].finding) == KeyOf(t[i].finding)
    {
        assert RowOk(t[i]);
      }
    } else {
      forall i | 0 <= i < |t| && Active(t[i]) ensures KeyOf(t[i].finding) != KeyOf(f) {
        assert !ActiveFor(t[i], KeyOf(f));
      }
    }
  }

  lemma {:induction false} UpsertAllKeepsInv(t: seq<Row>, fs: seq<Finding>, at: int)
    requires Inv(t)
    ensures Inv(UpsertAll(t, fs, at))
  {
    if fs != [] {
      UpsertAllKeepsInv(t, fs[..|fs| - 1], at);
      UpsertKeepsInv(UpsertAll(t, fs[..|fs| - 1], at), fs[|fs| - 1], at);
    }
  }

  /** Closing or snoozing rows in place keeps the invariant: no key becomes active that was not. */
  lemma RewriteKeepsInv(t: seq<Row>, u: seq<Row>)
    requires Inv(t) && |u| == |t|
    requires forall i :: 0 <= i < |t| ==>
        KeyOf(u[i].finding) == KeyOf(t[i].finding) && RowOk(u[i]) && (Active(u[i]) ==> Active(t[i]))
    ensures Inv(u)
  {
    forall i, j | 0 <= i < j < |u| && Active(u[i]) && Active(u[j]) ensures KeyOf(u[i].finding) != KeyOf(u[j].finding) {
      assert Active(t[i]) && Active(t[j]);
    }
  }

  lemma DoKeepsInv(t: seq<Row>, step: Step)
    requires Inv(t)
    ensures Inv(Do(t, step))
  {
    match step
    case SaveStep(rep) =>
      var m := UpsertAll(t, rep.findings, Seconds(rep.generatedAt));
      UpsertAllKeepsInv(t, rep.findings, Seconds(rep.generatedAt));
      RewriteKeepsInv(m, ResolvePass(m, rep));
    case SnoozeStep(e, u) =>
      RewriteKeepsInv(t, Snooze(t, e, u));
  }

  /** In every table reachable from the empty one (take t == []): one active row per key, and status,
      snooze_until and resolved_at agree. */
  lemma {:induction false} ReachableInv(t: seq<Row>, steps: seq<Step>)
    requires Inv(t)
    ensures Inv(Play(t, steps))
  {
    if steps != [] {
      ReachableInv(t, steps[..|steps| - 1]);
      DoKeepsInv(Play(t, steps[..|steps| - 1]), steps[|steps| - 1]);
    }
  }

  // ----- One row through one report -----

  /** A row after the findings of a report have been applied to it one by one. */
  function RefreshAll(r: Row, fs: seq<Finding>, at: int): Row {
    if fs == [] then r else RefreshIf(RefreshAll(r, fs[..|fs| - 1], at), fs[|fs| - 1], at)
  }

  /** The rows already in the table are refreshed independently of each other. */
  lemma {:induction false} UpsertAllRow(t: seq<Row>, fs: seq<Finding>, at: int, i: nat)
    requires i < |t|
    ensures |t| <= |UpsertAll(t, fs, at)| <= |t| + |fs|
    ensures UpsertAll(t, fs, at)[i] == RefreshAll(t[i], fs, at)
  {
    if fs != [] {
      UpsertAllRow(t, fs[..|fs| - 1], at, i);
      var m, f := UpsertAll(t, fs[..|fs| - 1], at), fs[|fs| - 1];
      if !HasActive(m, KeyOf(f)) { assert !ActiveFor(m[i], KeyOf(f)); }
    }
  }

  lemma {:induction false} UpsertAllGrows(t: seq<Row>, fs: seq<Finding>, at: int)
    ensures |t| <= |UpsertAll(t, fs, at)| <= |t| + |fs|
  {
    if fs != [] { UpsertAllGrows(t, fs[..|fs| - 1], at); }
  }

  ghost predicate Names(fs: seq<Finding>, k: Key) { exists i :: 0 <= i < |fs| && KeyOf(fs[i]) == k }

  function TimesNamed(fs: seq<Finding>, k: Key): nat {
    if fs == [] then 0 else TimesNamed(fs[..|fs| - 1], k) + if KeyOf(fs[|fs| - 1]) == k then 1 else 0
  }

  lemma {:induction false} NamedPositive(fs: seq<Finding>, k: Key)
    ensures TimesNamed(fs, k) > 0 <==> Names(fs, k)
  {
    if fs != [] {
      var rest := fs[..|fs| - 1];
      NamedPositive(rest, k);
      assert KeyOf(fs[|fs| - 1]) == k ==> Names(fs, k);
      if i :| 0 <= i < |fs| && KeyOf(fs[i]) == k { assert i < |rest| ==> KeyOf(rest[i]) == k; }
      if j :| 0 <= j < |rest| && KeyOf(rest[j]) == k { assert KeyOf(fs[j]) == k; }
    }
  }

  /** What refreshing leaves alone, and what it counts. */
  lemma {:induction false} RefreshAllFacts(r: Row, fs: seq<Finding>, at: int)
    ensures var q, n := RefreshAll(r, fs, at), TimesNamed(fs, KeyOf(r.finding));
      && KeyOf(q.finding) == KeyOf(r.finding) && q.finding.tier == r.finding.tier
      && q.firstSeen == r.firstSeen && q.resolvedAt == r.resolvedAt
      && (Active(q) <==> Active(r))
      && q.seenCount == r.seenCount + (if Active(r) then n else 0)
      && (!Active(r) || n == 0 ==> q == r)
  {
    if fs != [] { RefreshAllFacts(r, fs[..|fs| - 1], at); }
  }

  /** A row changes under a saved report exactly when it is active and the report names its key, or the
      report ran its check on its node without naming its entity. Every other row is bit-for-bit the same. */
  lemma SaveFrame(t: seq<Row>, rep: Report, i: nat)
    requires i < |t|
    ensures |Save(t, rep)| >= |t|
    ensures Save(t, rep)[i] == t[i] <==>
        !Active(t[i]) || (!Names(rep.findings, KeyOf(t[i].finding)) && !Unreported(t[i], rep))
  {
    var at := Seconds(rep.generatedAt);
    UpsertAllRow(t, rep.findings, at, i);
    RefreshAllFacts(t[i], rep.findings, at);
    NamedPositive(rep.findings, KeyOf(t[i].finding));
  }

  /** The documented frame: rows of another node, or of a check neither run nor reported, are untouched
      by a report whose findings all carry its node. */
  lemma OtherRowsUntouched(t: seq<Row>, rep: Report, i: nat)
    requires i < |t|
    requires forall f :: f in rep.findings ==> f.node == rep.node
    requires t[i].finding.node != rep.node ||
             (t[i].finding.checkId !in rep.ran && forall f :: f in rep.findings ==> f.checkId != t[i].finding.checkId)
    ensures |Save(t, rep)| >= |t| && Save(t, rep)[i] == t[i]
  {
    SaveFrame(t, rep, i);
    if j :| 0 <= j < |rep.findings| && KeyOf(rep.findings[j]) == KeyOf(t[i].finding) {
      assert rep.findings[j] in rep.findings;
    }
  }

  /** A received report can refresh rows of this node but never resolve one: only a report of a row's own node does. */
  lemma OnlyOwnNodeResolves(t: seq<Row>, rep: Report, i: nat)
    requires i < |t| && Active(t[i]) && t[i].finding.node != rep.node
    ensures |t| <= |Save(t, rep)| && Active(Save(t, rep)[i])
  {
    UpsertAllRow(t, rep.findings, Seconds(rep.generatedAt), i);
    RefreshAllFacts(t[i], rep.findings, Seconds(rep.generatedAt));
  }

  lemma {:induction false} RefreshAllLast(r: Row, fs: seq<Finding>, at: int, j: nat)
    requires Active(r) && j < |fs| && KeyOf(fs[j]) == KeyOf(r.finding)
    requires forall m :: j < m < |fs| ==> KeyOf(fs[m]) != KeyOf(r.finding)
    ensures var q := RefreshAll(r, fs, at);
      && q.finding == r.finding.(severity := fs[j].severity, summary := fs[j].summary, detail := fs[j].detail,
          data := fs[j].data)
      && q.lastSeen == at
  {
    var rest := fs[..|fs| - 1];
    RefreshAllFacts(r, rest, at);
    if j < |rest| { RefreshAllLast(r, rest, at, j); }
  }

  /** A row the report names shows the last finding that names it, keeps its tier and first_seen, is stamped
      with the report's second, and counts every naming. */
  lemma LastFindingWins(t: seq<Row>, rep: Report, i: nat, j: nat)
    requires i < |t| && Active(t[i]) && j < |rep.findings| && KeyOf(rep.findings[j]) == KeyOf(t[i].finding)
    requires forall m :: j < m < |rep.findings| ==> KeyOf(rep.findings[m]) != KeyOf(t[i].finding)
    ensures |t| <= |Save(t, rep)|
    ensures var q, f := Save(t, rep)[i], rep.findings[j];
      && q.finding == t[i].finding.(severity := f.severity, summary := f.summary, detail := f.detail, data := f.data)
      && q.lastSeen == Seconds(rep.generatedAt) && q.firstSeen == t[i].firstSeen
      && q.seenCount == t[i].seenCount + TimesNamed(rep.findings, KeyOf(t[i].finding))
  {
    var at := Seconds(rep.generatedAt);
    UpsertAllRow(t, rep.findings, at, i);
    RefreshAllFacts(t[i], rep.findings, at);
    RefreshAllLast(t[i], rep.findings, at, j);
  }

  /** A row as a report adds it. */
  ghost predicate AddedBy(r: Row, t: seq<Row>, fs: seq<Finding>, at: int) {
    && r.status.Open? && r.firstSeen == at && r.lastSeen == at && r.resolvedAt.None? && r.snoozeUntil.None?
    && r.seenCount == TimesNamed(fs, KeyOf(r.finding)) && !HasActive(t, KeyOf(r.finding))
  }

  lemma {:induction false} UpsertAllAdds(t: seq<Row>, fs: seq<Finding>, at: int, i: nat)
    requires |t| <= i < |UpsertAll(t, fs, at)|
    ensures AddedBy(UpsertAll(t, fs, at)[i], t, fs, at)
  {
    var rest, f := fs[..|fs| - 1], fs[|fs| - 1];
    var m := UpsertAll(t, rest, at);
    if i < |m| {
      UpsertAllAdds(t, rest, at, i);
      if !HasActive(m, KeyOf(f)) { assert !ActiveFor(m[i], KeyOf(f)); }
    } else {
      UpsertAllActive(t, rest, at, KeyOf(f));
      NamedPositive(rest, KeyOf(f));
    }
  }

  /** Every row a report adds is open, has no snooze, starts and ends at the report's second, counts the findings
      of its key, and had no active row before. */
  lemma AddedRows(t: seq<Row>, rep: Report, i: nat)
    requires |t| <= i < |Save(t, rep)|
    ensures AddedBy(Save(t, rep)[i], t, rep.findings, Seconds(rep.generatedAt))
  {
    var m := UpsertAll(t, rep.findings, Seconds(rep.generatedAt));
    UpsertAllAdds(t, rep.findings, Seconds(rep.generatedAt), i);
    var k := KeyOf(m[i].finding);
    assert m[i].seenCount >= 1 by { AddedCounts(t, rep.findings, Seconds(rep.generatedAt), i); }
    NamedPositive(rep.findings, k);
    NamesMember(rep.findings, k);
    var f :| f in rep.findings && KeyOf(f) == k;
    assert k.entityKey in NamedKeys(rep.findings, k.checkId);
  }

  lemma {:induction false} AddedCounts(t: seq<Row>, fs: seq<Finding>, at: int, i: nat)
    requires |t| <= i < |UpsertAll(t, fs, at)|
    ensures UpsertAll(t, fs, at)[i].seenCount >= 1
  {
    if i < |UpsertAll(t, fs[..|fs| - 1], at)| { AddedCounts(t, fs[..|fs| - 1], at, i); }
  }

  // ----- What exactly is stored -----

  /** Is this the finding of that node, check and entity? */
  predicate About(f: Finding, node: string, checkId: string, e: string) {
    f.node == node && f.checkId == checkId && f.entityKey == e
  }

  /** Where a row's content comes from: the first and the last finding about it. */
  predicate FirstAbout(fs: seq<Finding>, node: string, checkId: string, e: string, k: nat) {
    k < |fs| && About(fs[k], node, checkId, e) && forall m :: 0 <= m < k ==> !About(fs[m], node, checkId, e)
  }

  predicate LastAbout(fs: seq<Finding>, node: string, checkId: string, e: string, j: nat) {
    j < |fs| && About(fs[j], node, checkId, e) && forall m :: j < m < |fs| ==> !About(fs[m], node, checkId, e)
  }

  lemma {:induction false} RefreshAllStatus(r: Row, fs: seq<Finding>, at: int)
    requires r.status != Resolved && TimesNamed(fs, KeyOf(r.finding)) > 0
    ensures var q := RefreshAll(r, fs, at);
      if r.status == Snoozed && r.snoozeUntil.Some? && r.snoozeUntil.value > at
      then q.status == Snoozed && q.snoozeUntil == r.snoozeUntil
      else q.status == Open && q.snoozeUntil == None
  {
    var rest := fs[..|fs| - 1];
    RefreshAllFacts(r, rest, at);
    if TimesNamed(rest, KeyOf(r.finding)) > 0 { RefreshAllStatus(r, rest, at); }
  }

  /** A row the report names, whole: the last finding about it but the tier it came with, the report's second, one
      more sighting for each finding, snoozed still only when it was until a later second. */
  lemma NamedRow(t: seq<Row>, rep: Report, i: nat, j: nat)
    requires i < |t| && t[i].status != Resolved
    requires LastAbout(rep.findings, t[i].finding.node, t[i].finding.checkId, t[i].finding.entityKey, j)
    ensures |t| <= |Save(t, rep)|
    ensures var r, f, at := t[i], rep.findings[j], Seconds(rep.generatedAt);
      var held := r.status == Snoozed && r.snoozeUntil.Some? && r.snoozeUntil.value > at;
      Save(t, rep)[i] ==
      Row(f.(tier := r.finding.tier), if held then Snoozed else Open, r.firstSeen, at,
          r.resolvedAt, if held then r.snoozeUntil else None,
          r.seenCount + TimesNamed(rep.findings, KeyOf(r.finding)))
  {
    var at := Seconds(rep.generatedAt);
    LastFindingWins(t, rep, i, j);
    NamedPositive(rep.findings, KeyOf(t[i].finding));
    assert KeyOf(rep.findings[j]) == KeyOf(t[i].finding);
    assert rep.findings[j] in rep.findings;
    UpsertAllRow(t, rep.findings, at, i);
    RefreshAllStatus(t[i], rep.findings, at);
    RefreshAllFacts(t[i], rep.findings, at);
  }

  /** Every other row: one that the report leaves out of a check it ran on the row's node is closed at the report's
      second and otherwise as it was; all the rest are as they were. */
  lemma UnnamedRow(t: seq<Row>, rep: Report, i: nat)
    requires i < |t|
    requires forall f :: f in rep.findings ==>
               !About(f, t[i].finding.node, t[i].finding.checkId, t[i].finding.entityKey)
    ensures |t| <= |Save(t, rep)|
    ensures var r := t[i];
      var missing := r.status != Resolved && r.finding.node == rep.node && r.finding.checkId in rep.ran
        && forall f :: f in rep.findings ==> !(f.checkId == r.finding.checkId && f.entityKey == r.finding.entityKey);
      Save(t, rep)[i] == if missing then r.(status := Resolved, resolvedAt := Some(Seconds(rep.generatedAt))) else r
  {
    var at := Seconds(rep.generatedAt);
    UpsertAllRow(t, rep.findings, at, i);
    RefreshAllFacts(t[i], rep.findings, at);
    NamedPositive(rep.findings, KeyOf(t[i].finding));
    NamesMember(rep.findings, KeyOf(t[i].finding));
  }

  /** A resolved row is never touched. */
  lemma ResolvedRow(t: seq<Row>, rep: Report, i: nat)
    requires i < |t| && t[i].status == Resolved
    ensures |t| <= |Save(t, rep)| && Save(t, rep)[i] == t[i]
  {
    SaveFrame(t, rep, i);
  }

  /** What a row the report adds contains: the last finding about it, with the tier of the first. */
  lemma {:induction false} AddedContent(t: seq<Row>, fs: seq<Finding>, at: int, i: nat, k: nat, j: nat)
    requires |t| <= i < |UpsertAll(t, fs, at)|
    requires var f := UpsertAll(t, fs, at)[i].finding;
      FirstAbout(fs, f.node, f.checkId, f.entityKey, k) && LastAbout(fs, f.node, f.checkId, f.entityKey, j)
    ensures UpsertAll(t, fs, at)[i].finding == fs[j].(tier := fs[k].tier)
    decreases |fs|
  {
    var rest, last := fs[..|fs| - 1], fs[|fs| - 1];
    var m := UpsertAll(t, rest, at);
    if i < |m| {
      var key := KeyOf(m[i].finding);
      UpsertAllAdds(t, rest, at, i);
      UpsertContent(m, last, at, i);
      NamedAdded(t, rest, at, i);
      var n :| 0 <= n < |rest| && KeyOf(rest[n]) == key;
      assert About(fs[n], key.node, key.checkId, key.entityKey);
      var j' := if j < |rest| then j else LastIndex(rest, key.node, key.checkId, key.entityKey, n);
      AddedContent(t, rest, at, i, k, j');
    } else {
      NoneBefore(t, rest, last, at, k);
    }
  }

  lemma UpsertContent(m: seq<Row>, f: Finding, at: int, i: nat)
    requires i < |m| && m[i].status.Open?
    ensures i < |Upsert(m, f, at)|
    ensures Upsert(m, f, at)[i].finding ==
            if KeyOf(f) == KeyOf(m[i].finding) then f.(tier := m[i].finding.tier) else m[i].finding
  {
    if KeyOf(f) == KeyOf(m[i].finding) { assert ActiveFor(m[i], KeyOf(f)); }
  }

  /** The last finding about a row, when there is one. */
  function LastIndex(fs: seq<Finding>, node: string, checkId: string, e: string, n: nat): (j: nat)
    requires n < |fs| && About(fs[n], node, checkId, e)
    ensures LastAbout(fs, node, checkId, e, j)
    decreases |fs|
  {
    if About(fs[|fs| - 1], node, checkId, e) then |fs| - 1
    else
      assert forall m :: 0 <= m < |fs| - 1 ==> fs[..|fs| - 1][m] == fs[m];
      LastIndex(fs[..|fs| - 1], node, checkId, e, n)
  }

  lemma {:induction false} NamedAdded(t: seq<Row>, fs: seq<Finding>, at: int, i: nat)
    requires |t| <= i < |UpsertAll(t, fs, at)|
    ensures Names(fs, KeyOf(UpsertAll(t, fs, at)[i].finding))
  {
    var rest, last := fs[..|fs| - 1], fs[|fs| - 1];
    var m := UpsertAll(t, rest, at);
    if i < |m| {
      NamedAdded(t, rest, at, i);
      var n :| 0 <= n < |rest| && KeyOf(rest[n]) == KeyOf(m[i].finding);
      assert KeyOf(fs[n]) == KeyOf(m[i].finding);
    } else {
      assert KeyOf(fs[|fs| - 1]) == KeyOf(UpsertAll(t, fs, at)[i].finding);
    }
  }

  /** A finding that adds a row is the first of its key. */
  lemma NoneBefore(t: seq<Row>, rest: seq<Finding>, last: Finding, at: int, k: nat)
    requires !HasActive(UpsertAll(t, rest, at), KeyOf(last))
    requires FirstAbout(rest + [last], last.node, last.checkId, last.entityKey, k)
    ensures k == |rest|
  {
    UpsertAllActive(t, rest, at, KeyOf(last));
    assert forall n :: 0 <= n < |rest| ==> KeyOf(rest[n]) != KeyOf(last);
  }

  /** The same of a saved report, with the rest of the row (see AddedRows). */
  lemma AddedRow(t: seq<Row>, rep: Report, i: nat, k: nat, j: nat)
    requires |t| <= i < |Save(t, rep)|
    requires var f := Save(t, rep)[i].finding;
      && FirstAbout(rep.findings, f.node, f.checkId, f.entityKey, k)
      && LastAbout(rep.findings, f.node, f.checkId, f.entityKey, j)
    ensures var at := Seconds(rep.generatedAt);
      Save(t, rep)[i] ==
      Row(rep.findings[j].(tier := rep.findings[k].tier), Open, at, at, None, None,
          TimesNamed(rep.findings, KeyOf(rep.findings[j])))
  {
    AddedRows(t, rep, i);
    AddedContent(t, rep.findings, Seconds(rep.generatedAt), i, k, j);
  }

  /** A snooze, row by row: active rows of the entity, on any node and for any check, are snoozed until the stored
      second and otherwise as they were; resolved rows and rows of other entities are untouched. */
  lemma SnoozedRow(t: seq<Row>, entityKey: string, until: int, i: nat)
    requires i < |t|
    ensures |Snooze(t, entityKey, until)| == |t|
    ensures Snooze(t, entityKey, until)[i] ==
            if t[i].status != Resolved && t[i].finding.entityKey == entityKey
            then t[i].(status := Snoozed, snoozeUntil := Some(Seconds(until))) else t[i]
  {
  }

  // ----- Which keys are active afterwards -----

  lemma UpsertActive(t: seq<Row>, f: Finding, at: int, k: Key)
    ensures HasActive(Upsert(t, f, at), k) <==> HasActive(t, k) || KeyOf(f) == k
  {
    var u := Upsert(t, f, at);
    if HasActive(t, KeyOf(f)) {
      forall i | 0 <= i < |t| ensures ActiveFor(u[i], k) <==> ActiveFor(t[i], k) {}
      if HasActive(t, k) { var i :| 0 <= i < |t| && ActiveFor(t[i], k); assert ActiveFor(u[i], k); }
    } else {
      assert ActiveFor(u[|t|], KeyOf(f));
      if HasActive(t, k) { var i :| 0 <= i < |t| && ActiveFor(t[i], k); assert ActiveFor(u[i], k); }
    }
  }

  lemma {:induction false} UpsertAllActive(t: seq<Row>, fs: seq<Finding>, at: int, k: Key)
    ensures HasActive(UpsertAll(t, fs, at), k) <==> HasActive(t, k) || Names(fs, k)
  {
    NamedPositive(fs, k);
    if fs != [] {
      UpsertAllActive(t, fs[..|fs| - 1], at, k);
      NamedPositive(fs[..|fs| - 1], k);
      UpsertActive(UpsertAll(t, fs[..|fs| - 1], at), fs[|fs| - 1], at, k);
    }
  }

  /** The active keys after any report on any table, with no assumption on the findings' nodes: what was
      active or is named, minus the keys of checks that ran on the report's node whose entity no finding of
      that check names. */
  lemma ActiveAfterSave(t: seq<Row>, rep: Report, k: Key)
    ensures HasActive(Save(t, rep), k) <==>
            && (HasActive(t, k) || Names(rep.findings, k))
            && !(k.node == rep.node && k.checkId in rep.ran && k.entityKey !in NamedKeys(rep.findings, k.checkId))
  {
    var m := UpsertAll(t, rep.findings, Seconds(rep.generatedAt));
    var u := ResolvePass(m, rep);
    UpsertAllActive(t, rep.findings, Seconds(rep.generatedAt), k);
    if HasActive(m, k) {
      var i :| 0 <= i < |m| && ActiveFor(m[i], k);
      assert Unreported(m[i], rep) || ActiveFor(u[i], k);
    }
    if HasActive(u, k) {
      var i :| 0 <= i < |u| && ActiveFor(u[i], k);
      assert ActiveFor(m[i], k);
    }
  }

  /** A finding of this check and entity that carries another node shields an active row from resolution. */
  predicate Shielded(rep: Report, checkId: string, e: string) {
    e in NamedKeys(rep.findings, checkId) &&
    forall f :: f in rep.findings && f.checkId == checkId && f.entityKey == e ==> f.node != rep.node
  }

  lemma NamesMember(fs: seq<Finding>, k: Key)
    ensures Names(fs, k) <==> exists f :: f in fs && KeyOf(f) == k
  {
    if f :| f in fs && KeyOf(f) == k {
      var i :| 0 <= i < |fs| && fs[i] == f;
      assert KeyOf(fs[i]) == k;
    }
    if i :| 0 <= i < |fs| && KeyOf(fs[i]) == k { assert fs[i] in fs; }
  }

  /** For a check that ran, the active keys on the report's node are exactly those it named there, if and
      only if no entity that was active before is named solely by findings carrying another node. */
  lemma RanKeysExact(t: seq<Row>, rep: Report, checkId: string)
    requires checkId in rep.ran
    ensures (forall e ::
               HasActive(Save(t, rep), Key(rep.node, checkId, e)) <==> Names(rep.findings, Key(rep.node, checkId, e)))
            <==> (forall e :: HasActive(t, Key(rep.node, checkId, e)) ==> !Shielded(rep, checkId, e))
  {
    forall e
      ensures (HasActive(Save(t, rep), Key(rep.node, checkId, e)) <==> Names(rep.findings, Key(rep.node, checkId, e)))
              <==> (HasActive(t, Key(rep.node, checkId, e)) ==> !Shielded(rep, checkId, e))
    {
      var k := Key(rep.node, checkId, e);
      ActiveAfterSave(t, rep, k);
      NamesMember(rep.findings, k);
      if Names(rep.findings, k) {
        var f :| f in rep.findings && KeyOf(f) == k;
        assert e in NamedKeys(rep.findings, checkId);
      }
      if e in NamedKeys(rep.findings, checkId) {
        var f :| f in rep.findings && f.checkId == checkId && f.entityKey == e;
        assert f.node == rep.node ==> KeyOf(f) == k;
      }
    }
  }

  /** And such a report exists for every finding: an open row, and a later report of the same node that ran the
      check and names the entity for another node only. The row stays active, unnamed. */
  lemma ForeignFindingShields(f: Finding, other: string)
    requires other != f.node
    ensures var t, rep := [NewRow(f, 0)], Report(f.node, 0, [f.(node := other)], [f.checkId], [], [], map[], 1, 0);
      HasActive(Save(t, rep), KeyOf(f)) && !Names(rep.findings, KeyOf(f))
  {
    var t, rep := [NewRow(f, 0)], Report(f.node, 0, [f.(node := other)], [f.checkId], [], [], map[], 1, 0);
    ActiveAfterSave(t, rep, KeyOf(f));
    assert ActiveFor(t[0], KeyOf(f));
    assert f.entityKey in NamedKeys(rep.findings, f.checkId) by { assert rep.findings[0] in rep.findings; }
  }

  /** The common case: findings built by NewFinding carry the report's node, and then it is exact. */
  lemma RanKeysExactOnOwnNode(t: seq<Row>, rep: Report, checkId: string, e: string)
    requires checkId in rep.ran
    requires forall f :: f in rep.findings ==> f.node == rep.node
    ensures HasActive(Save(t, rep), Key(rep.node, checkId, e)) <==> Names(rep.findings, Key(rep.node, checkId, e))
  {
    RanKeysExact(t, rep, checkId);
    forall e' ensures !Shielded(rep, checkId, e') {
      if e' in NamedKeys(rep.findings, checkId) {
        var f :| f in rep.findings && f.checkId == checkId && f.entityKey == e';
        assert f.node == rep.node;
      }
    }
  }

  // ----- Conservation -----

  function SumSeen(t: seq<Row>): nat {
    if t == [] then 0 else SumSeen(t[..|t| - 1]) + t[|t| - 1].seenCount
  }

  function CountActive(t: seq<Row>): nat {
    if t == [] then 0 else CountActive(t[..|t| - 1]) + if Active(t[|t| - 1]) then 1 else 0
  }

  lemma HasActiveSnoc(t: seq<Row>, k: Key)
    requires t != []
    ensures HasActive(t, k) <==> HasActive(t[..|t| - 1], k) || ActiveFor(t[|t| - 1], k)
    ensures UniqueActive(t) ==> UniqueActive(t[..|t| - 1])
    ensures UniqueActive(t) ==> !(HasActive(t[..|t| - 1], k) && ActiveFor(t[|t| - 1], k))
  {
    var rest, last := t[..|t| - 1], t[|t| - 1];
    assert forall i :: 0 <= i < |rest| ==> rest[i] == t[i];
    if i :| 0 <= i < |rest| && ActiveFor(rest[i], k) { assert ActiveFor(t[i], k); }
    if ActiveFor(last, k) { assert ActiveFor(t[|t| - 1], k); }
    if i :| 0 <= i < |t| && ActiveFor(t[i], k) { assert i < |rest| ==> ActiveFor(rest[i], k); }
  }

  /** An UPDATE adds one to seen_count of exactly one row, because at most one active row has the key. */
  lemma {:induction false} UpdateSum(t: seq<Row>, f: Finding, at: int)
    requires UniqueActive(t)
    ensures SumSeen(Update(t, f, at)) == SumSeen(t) + if HasActive(t, KeyOf(f)) then 1 else 0
    ensures CountActive(Update(t, f, at)) == CountActive(t)
  {
    if t != [] {
      HasActiveSnoc(t, KeyOf(f));
      UpdateSum(t[..|t| - 1], f, at);
      assert Update(t, f, at)[..|t| - 1] == Update(t[..|t| - 1], f, at);
    }
  }

  lemma {:induction false} UpsertAllSum(t: seq<Row>, fs: seq<Finding>, at: int)
    requires Inv(t)
    ensures var u := UpsertAll(t, fs, at);
      SumSeen(u) == SumSeen(t) + |fs| && CountActive(u) == CountActive(t) + (|u| - |t|)
  {
    UpsertAllGrows(t, fs, at);
    if fs != [] {
      var m, f := UpsertAll(t, fs[..|fs| - 1], at), fs[|fs| - 1];
      UpsertAllSum(t, fs[..|fs| - 1], at);
      UpsertAllKeepsInv(t, fs[..|fs| - 1], at);
      UpdateSum(m, f, at);
      assert (m + [NewRow(f, at)])[..|m|] == m;
    }
  }

  /** Rewrites that keep every seen_count keep the sum. */
  lemma {:induction false} SumUnchanged(t: seq<Row>, u: seq<Row>)
    requires |t| == |u| && forall i :: 0 <= i < |t| ==> u[i].seenCount == t[i].seenCount
    ensures SumSeen(u) == SumSeen(t)
  {
    if t != [] { SumUnchanged(t[..|t| - 1], u[..|u| - 1]); }
  }

  function FindingsOf(s: Step): nat { match s case SaveStep(rep) => |rep.findings| case SnoozeStep(_, _) => 0 }

  function TotalFindings(steps: seq<Step>): nat {
    if steps == [] then 0
    else TotalFindings(steps[..|steps| - 1]) + FindingsOf(steps[|steps| - 1])
  }

  /** Over whole runs, the seen counts add up to the number of findings ever saved: none is lost or double counted. */
  lemma {:induction false} SeenConserved(steps: seq<Step>)
    ensures SumSeen(Play([], steps)) == TotalFindings(steps)
  {
    if steps != [] {
      var t := Play([], steps[..|steps| - 1]);
      SeenConserved(steps[..|steps| - 1]);
      ReachableInv([], steps[..|steps| - 1]);
      match steps[|steps| - 1]
      case SaveStep(rep) =>
        var m := UpsertAll(t, rep.findings, Seconds(rep.generatedAt));
        UpsertAllSum(t, rep.findings, Seconds(rep.generatedAt));
        SumUnchanged(m, ResolvePass(m, rep));
      case SnoozeStep(e, u) =>
        SumUnchanged(t, Snooze(t, e, u));
    }
  }

  // ----- History is append-only -----

  lemma DoPreserves(t: seq<Row>, step: Step, i: nat)
    requires i < |t|
    ensures var u := Do(t, step);
      && |t| <= |u|
      && KeyOf(u[i].finding) == KeyOf(t[i].finding) && u[i].finding.tier == t[i].finding.tier
      && u[i].firstSeen == t[i].firstSeen && t[i].seenCount <= u[i].seenCount
      && (t[i].status.Resolved? ==> u[i] == t[i])
  {
    if step.SaveStep? {
      var at := Seconds(step.rep.generatedAt);
      UpsertAllRow(t, step.rep.findings, at, i);
      RefreshAllFacts(t[i], step.rep.findings, at);
    }
  }

  /** Through any further run: rows are never removed, a row keeps its key, tier and first_seen, its count
      never falls, and a resolved row never changes again. */
  lemma {:induction false} RowsPersist(t: seq<Row>, steps: seq<Step>, i: nat)
    requires i < |t|
    ensures var u := Play(t, steps);
      && |t| <= |u|
      && KeyOf(u[i].finding) == KeyOf(t[i].finding) && u[i].finding.tier == t[i].finding.tier
      && u[i].firstSeen == t[i].firstSeen && t[i].seenCount <= u[i].seenCount
      && (t[i].status.Resolved? ==> u[i] == t[i])
  {
    if steps != [] {
      RowsPersist(t, steps[..|steps| - 1], i);
      DoPreserves(Play(t, steps[..|steps| - 1]), steps[|steps| - 1], i);
    }
  }

  // ----- Snoozes -----

  predicate SnoozedTill(r: Row, u: int) { r.status.Snoozed? && r.snoozeUntil == Some(u) }

  /** A snooze holds through the findings of a report exactly while the report's second is before u. */
  lemma {:induction false} RefreshAllSnoozed(r: Row, fs: seq<Finding>, at: int, u: int)
    requires SnoozedTill(r, u)
    ensures var q := RefreshAll(r, fs, at);
      if TimesNamed(fs, KeyOf(r.finding)) == 0 || at < u then SnoozedTill(q, u)
      else q.status.Open? && q.snoozeUntil.None? && KeyOf(q.finding) == KeyOf(r.finding)
  {
    RefreshAllFacts(r, fs, at);
    if fs != [] {
      RefreshAllSnoozed(r, fs[..|fs| - 1], at, u);
      RefreshAllFacts(r, fs[..|fs| - 1], at);
    }
  }

  /** Does the report leave a snooze till second u on key k alone? It must not name k at or after u, and
      if it ran k's check on k's node it must name the entity. */
  ghost predicate Respects(rep: Report, k: Key, u: int) {
    && (Names(rep.findings, k) ==> Seconds(rep.generatedAt) < u)
    && (k.node == rep.node && k.checkId in rep.ran ==> k.entityKey in NamedKeys(rep.findings, k.checkId))
  }

  /** One report: the row is still snoozed till u exactly when the report respects the snooze. */
  lemma SnoozeHeldByReport(t: seq<Row>, rep: Report, i: nat, u: int)
    requires i < |t| && SnoozedTill(t[i], u)
    ensures |t| <= |Save(t, rep)|
    ensures SnoozedTill(Save(t, rep)[i], u) <==> Respects(rep, KeyOf(t[i].finding), u)
  {
    var at := Seconds(rep.generatedAt);
    UpsertAllRow(t, rep.findings, at, i);
    RefreshAllFacts(t[i], rep.findings, at);
    RefreshAllSnoozed(t[i], rep.findings, at, u);
    NamedPositive(rep.findings, KeyOf(t[i].finding));
  }

  /** The first report that names the key at or after u reopens the row and clears snooze_until. */
  lemma SnoozeExpires(t: seq<Row>, rep: Report, i: nat, u: int)
    requires i < |t| && SnoozedTill(t[i], u)
    requires Names(rep.findings, KeyOf(t[i].finding)) && Seconds(rep.generatedAt) >= u
    ensures |t| <= |Save(t, rep)|
    ensures var r := Save(t, rep)[i]; r.status.Open? && r.snoozeUntil.None?
  {
    var at := Seconds(rep.generatedAt);
    UpsertAllRow(t, rep.findings, at, i);
    RefreshAllSnoozed(t[i], rep.findings, at, u);
    NamedPositive(rep.findings, KeyOf(t[i].finding));
    NamesMember(rep.findings, KeyOf(t[i].finding));
    var f :| f in rep.findings && KeyOf(f) == KeyOf(t[i].finding);
    assert f.entityKey in NamedKeys(rep.findings, f.checkId);
  }

  /** Steps that leave a snooze on k till u alone: respectful reports, and snoozes of other entities. */
  ghost predicate LeavesSnooze(step: Step, k: Key, u: int) {
    match step
    case SaveStep(rep) => Respects(rep, k, u)
    case SnoozeStep(e, _) => e != k.entityKey
  }

  /** Over any run of such steps the row stays snoozed with the same deadline. */
  lemma {:induction false} SnoozeHeld(t: seq<Row>, steps: seq<Step>, i: nat, u: int)
    requires i < |t| && SnoozedTill(t[i], u)
    requires forall s :: s in steps ==> LeavesSnooze(s, KeyOf(t[i].finding), u)
    ensures |t| <= |Play(t, steps)| && SnoozedTill(Play(t, steps)[i], u)
  {
    if steps != [] {
      var rest, last := steps[..|steps| - 1], steps[|steps| - 1];
      SnoozeHeld(t, rest, i, u);
      RowsPersist(t, rest, i);
      assert last in steps;
      if last.SaveStep? { SnoozeHeldByReport(Play(t, rest), last.rep, i, u); }
    }
  }

  /** "Before snooze_until" is judged on stored seconds: a report later in u's own second reopens the row. */
  lemma SubSecondSnoozeReopens(f: Finding)
    ensures var rep := Report(f.node, 5 * SECOND + 1, [f], [f.checkId], [], [], map[], 1, 0);
      var until := 5 * SECOND + 900;
      var t := Snooze([NewRow(f, 0)], f.entityKey, until);
      && rep.generatedAt < until
      && SnoozedTill(t[0], Seconds(until))
      && |Save(t, rep)| == 1 && Save(t, rep)[0].status.Open?
  {
    var rep := Report(f.node, 5 * SECOND + 1, [f], [f.checkId], [], [], map[], 1, 0);
    var t := Snooze([NewRow(f, 0)], f.entityKey, 5 * SECOND + 900);
    assert KeyOf(rep.findings[0]) == KeyOf(t[0].finding);
    SnoozeExpires(t, rep, 0, Seconds(5 * SECOND + 900));
    assert UpsertAll(t, [], 5) == t && [f][..0] == [];
    assert ActiveFor(t[0], KeyOf(f));
    assert UpsertAll(t, [f], 5) == Update(t, f, 5);
  }

  // ----- What the digest shows -----

  const STALENESS_SCAN := "staleness_scan"

  /** openStalenessFindings' filter over the rows OpenFindings returns. */
  predicate InStalenessList(r: Row, node: string) {
    Active(r) && r.finding.node == node && r.finding.checkId == STALENESS_SCAN && !r.status.Snoozed?
  }

  /** While a row is snoozed, nothing with its key appears in the digest's staleness list, because no
      other row of that key is active. */
  lemma SnoozedAbsentFromDigest(t: seq<Row>, i: nat, u: int, j: nat)
    requires Inv(t) && i < |t| && j < |t| && SnoozedTill(t[i], u)
    ensures InStalenessList(t[j], t[i].finding.node) ==> KeyOf(t[j].finding) != KeyOf(t[i].finding)
  {
    if Active(t[j]) && i < j { assert KeyOf(t[i].finding) != KeyOf(t[j].finding); }
  }

  /** The story of a keep: in any history, snooze an entity that has an active row, then let any steps
      happen that leave the snooze alone. The row is still snoozed with the same deadline, and no row of
      its key is in the digest's staleness list. */
  lemma KeepHidesFromDigest(before: seq<Step>, i: nat, until: int, after: seq<Step>)
    requires i < |Play([], before)| && Active(Play([], before)[i])
    requires forall s :: s in after ==> LeavesSnooze(s, KeyOf(Play([], before)[i].finding), Seconds(until))
    ensures var r := Play([], before)[i];
      var t := Play(Do(Play([], before), SnoozeStep(r.finding.entityKey, until)), after);
      && i < |t| && SnoozedTill(t[i], Seconds(until))
      && forall j :: 0 <= j < |t| && KeyOf(t[j].finding) == KeyOf(r.finding) ==> !InStalenessList(t[j], r.finding.node)
  {
    var r := Play([], before)[i];
    var t0 := Do(Play([], before), SnoozeStep(r.finding.entityKey, until));
    var t := Play(t0, after);
    ReachableInv([], before);
    DoKeepsInv(Play([], before), SnoozeStep(r.finding.entityKey, until));
    ReachableInv(t0, after);
    SnoozeHeld(t0, after, i, Seconds(until));
    RowsPersist(t0, after, i);
    forall j | 0 <= j < |t| && KeyOf(t[j].finding) == KeyOf(r.finding) ensures !InStalenessList(t[j], r.finding.node) {
      SnoozedAbsentFromDigest(t, i, Seconds(until), j);
    }
  }
}
