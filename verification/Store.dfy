/** The store (internal/store): the tables as fields, the SQL statements and transactions as methods.
    Each method is proved against the value-level specification in Ledger. */
module Store {
  import opened Text
  import opened Timestamps
  import opened Findings
  import opened Ledger
  import opened Sorting
  import opened Ordering

  datatype UpsertSummary = UpsertSummary(added: nat, updated: nat, resolved: nat)

  predicate RowLess(a: Row, b: Row) { SqlLess(a.finding, b.finding) }

  lemma RowOrder()
    ensures WeakOrder(RowLess)
  {
    SqlOrder();
  }

  lemma {:induction false} RowIndex(s: seq<Row>, r: Row) returns (i: nat)
    requires r in s
    ensures i < |s| && s[i] == r
  {
    i :| 0 <= i < |s| && s[i] == r;
  }

  /** Rows of one node that the query keeps. */
  function OpenRows(t: seq<Row>, node: string): seq<Row> {
    if t == [] then []
    else if Active(t[|t| - 1]) && t[|t| - 1].finding.node == node then OpenRows(t[..|t| - 1], node) + [t[|t| - 1]]
    else OpenRows(t[..|t| - 1], node)
  }

  /** openStalenessFindings' filter. */
  predicate Shown(r: Row) { r.finding.checkId == STALENESS_SCAN && !r.status.Snoozed? }

  /** openStalenessFindings on a list of rows. */
  function StalenessFindings(rows: seq<Row>): seq<Finding> {
    if rows == [] then []
    else if Shown(rows[|rows| - 1]) then StalenessFindings(rows[..|rows| - 1]) + [rows[|rows| - 1].finding]
    else StalenessFindings(rows[..|rows| - 1])
  }

  method OpenStalenessFindings(stored: seq<Row>) returns (out: seq<Finding>)
    ensures out == StalenessFindings(stored)
    ensures forall f :: f in out <==> exists i :: 0 <= i < |stored| && stored[i].finding == f && Shown(stored[i])
  {
    out := [];
    for n := 0 to |stored|
      invariant out == StalenessFindings(stored[..n])
      invariant forall f :: f in out <==> exists i :: 0 <= i < n && stored[i].finding == f && Shown(stored[i])
    {
      assert stored[..n + 1][..n] == stored[..n];
      if stored[n].finding.checkId != STALENESS_SCAN || stored[n].status.Snoozed? { continue; }
      out := out + [stored[n].finding];
    }
    assert stored[..|stored|] == stored;
  }

  /** Does the table put this finding in a node's staleness section? */
  ghost predicate InStaleness(t: seq<Row>, f: Finding, node: string) {
    exists i :: 0 <= i < |t| && t[i].finding == f && InStalenessList(t[i], node)
  }

  /** What OpenFindings may return for a node: its active rows, in query order. */
  ghost predicate IsOpenList(t: seq<Row>, node: string, open: seq<Row>) {
    Sorted(RowLess, open) && multiset(open) == multiset(OpenRows(t, node))
  }

  /** The staleness findings of one node, in the order of some such answer, each as often as it has a row. */
  ghost predicate IsNodeList(t: seq<Row>, node: string, fs: seq<Finding>) {
    exists open :: IsOpenList(t, node, open) && fs == StalenessFindings(open)
  }

  /** The digest's section: the node's list, then the peer's once heard from, stably sorted by falling score. */
  ghost predicate IsDigest(t: seq<Row>, node: string, peer: string, heard: bool, score: Finding -> real,
        out: seq<Finding>) {
    exists own, others ::
      && IsNodeList(t, node, own) && (if heard then IsNodeList(t, peer, others) else others == [])
      && StableSortOf(ByScore(score), out, own + others)
  }

  /** Highest score first. */
  function ByScore(score: Finding -> real): (Finding, Finding) -> bool { (a, b) => score(a) > score(b) }

  /** collectStalenessFindings: own findings, then the peer's, stably by falling score. */
  method CollectStaleness(own: seq<Finding>, peer: seq<Finding>, score: Finding -> real) returns (out: seq<Finding>)
    ensures StableSortOf(ByScore(score), out, own + peer)
    ensures multiset(out) == multiset(own + peer)
  {
    out := SliceStable(ByScore(score), own + peer);
  }

  class Store {
    var rows: seq<Row>         // the findings table
    var reports: seq<Report>   // the reports table
    var fuse: nat              // statements SQLite will still complete before it reports an error

    constructor (fuse: nat)
      ensures rows == [] && reports == [] && this.fuse == fuse
    {
      rows, reports, this.fuse := [], [], fuse;
    }

    /** The UPDATE of updateOpenFinding; updated reports RowsAffected > 0. */
    method UpdateOpenFinding(f: Finding, at: int) returns (updated: bool)
      modifies this`rows
      ensures rows == Update(old(rows), f, at)
      ensures updated <==> HasActive(old(rows), KeyOf(f))
    {
      updated := false;
      var n := 0;
      while n < |rows|
        invariant n <= |rows| == |old(rows)|
        invariant forall i :: 0 <= i < n ==> rows[i] == RefreshIf(old(rows)[i], f, at)
        invariant forall i :: n <= i < |rows| ==> rows[i] == old(rows)[i]
        invariant updated <==> exists i :: 0 <= i < n && ActiveFor(old(rows)[i], KeyOf(f))
      {
        if ActiveFor(rows[n], KeyOf(f)) {
          rows := rows[n := Refresh(rows[n], f, at)];
          updated := true;
        }
        n := n + 1;
      }
    }

    method InsertFinding(f: Finding, at: int)
      modifies this`rows
      ensures rows == old(rows) + [NewRow(f, at)]
    {
      rows := rows + [NewRow(f, at)];
    }

    /** The UPDATE of resolveMissingFindings; n is RowsAffected. */
    method ResolveMissingFindings(node: string, checkId: string, seen: set<string>, at: int) returns (n: nat)
      modifies this`rows
      ensures rows == ResolveMissing(old(rows), node, checkId, seen, at)
      ensures CountActive(rows) + n == CountActive(old(rows))
    {
      n := 0;
      var i := 0;
      while i < |rows|
        invariant i <= |rows| == |old(rows)|
        invariant forall j :: 0 <= j < i ==>
            rows[j] == if Missing(old(rows)[j], node, checkId, seen) then Close(old(rows)[j], at) else old(rows)[j]
        invariant forall j :: i <= j < |rows| ==> rows[j] == old(rows)[j]
        invariant CountActive(rows[..i]) + n == CountActive(old(rows)[..i])
      {
        ghost var before := rows;
        if Missing(rows[i], node, checkId, seen) {
          rows := rows[i := Close(rows[i], at)];
          n := n + 1;
        }
        assert rows[..i + 1][..i] == before[..i] && old(rows)[..i + 1][..i] == old(rows)[..i];
        i := i + 1;
      }
      assert rows[..i] == rows && old(rows)[..i] == old(rows);
    }

    /** One statement: consumes the fuse, or fails. */
    method Exec() returns (ok: bool)
      modifies this`fuse
      ensures ok <==> old(fuse) > 0
      ensures fuse == if ok then old(fuse) - 1 else 0
    {
      ok := fuse > 0;
      if ok { fuse := fuse - 1; }
    }

    /** One finding: refresh its active row, or insert a new one. */
    method UpsertFinding(f: Finding, at: int) returns (ok: bool, hit: bool)
      modifies this`rows, this`fuse
      ensures ok ==> (hit <==> HasActive(old(rows), KeyOf(f)))
      ensures ok <==> old(fuse) >= if HasActive(old(rows), KeyOf(f)) then 1 else 2
      ensures ok ==> rows == Upsert(old(rows), f, at) && fuse == old(fuse) - (if hit then 1 else 2)
    {
      hit := false;
      ok := Exec();
      if !ok { return; }
      hit := UpdateOpenFinding(f, at);
      if !hit {
        UpdateMisses(old(rows), f, at);
        ok := Exec();
        if ok { InsertFinding(f, at); }
      }
    }

    /** The first loop of upsertFindings. */
    method UpsertRows(rep: Report) returns (ok: bool, seen: map<string, set<string>>, added: nat, updated: nat)
      modifies this`rows, this`fuse
      ensures ok <==>
        old(fuse) >= |rep.findings| + (|UpsertAll(old(rows), rep.findings, Seconds(rep.generatedAt))| - |old(rows)|)
      ensures ok ==>
        && rows == UpsertAll(old(rows), rep.findings, Seconds(rep.generatedAt))
        && added + updated == |rep.findings| && |rows| == |old(rows)| + added
        && fuse == old(fuse) - |rep.findings| - added
        && SeenKeys(seen, rep.findings)
    {
      var at := Seconds(rep.generatedAt);
      var fs := rep.findings;
      seen, added, updated := map[], 0, 0;
      var n := 0;
      while n < |fs|
        invariant n <= |fs|
        invariant rows == UpsertAll(old(rows), fs[..n], at)
        invariant added + updated == n && |rows| == |old(rows)| + added
        invariant fuse == old(fuse) - n - added
        invariant SeenKeys(seen, fs[..n])
      {
        var f := fs[n];
        UpsertStep(old(rows), rows, fs, n, at);
        SeenStep(seen, fs, n);
        seen := seen[f.checkId := (if f.checkId in seen then seen[f.checkId] else {}) + {f.entityKey}];
        var hit;
        ok, hit := UpsertFinding(f, at);
        if !ok { return; }
        if hit { updated := updated + 1; } else { added := added + 1; }
        n := n + 1;
      }
      assert fs[..n] == fs;
      ok := true;
    }

    /** upsertFindings: both loops. A false ok is an error from some statement; the caller rolls back. */
    method UpsertFindings(rep: Report) returns (ok: bool, summary: UpsertSummary)
      modifies this`rows, this`fuse
      ensures ok <==> old(fuse) >= |rep.findings| + (|Save(old(rows), rep)| - |old(rows)|) + |rep.ran|
      ensures ok ==>
        && rows == Save(old(rows), rep)
        && fuse == old(fuse) - |rep.findings| - summary.added - |rep.ran|
        && summary.added + summary.updated == |rep.findings|
        && |rows| == |old(rows)| + summary.added
        && (Inv(old(rows)) ==> CountActive(rows) + summary.resolved == CountActive(old(rows)) + summary.added)
    {
      summary := UpsertSummary(0, 0, 0);
      var at := Seconds(rep.generatedAt);
      ghost var upserted := UpsertAll(rows, rep.findings, at);
      UpsertAllGrows(rows, rep.findings, at);
      var ok0, seen, added, updated := UpsertRows(rep);
      ok := ok0;
      if !ok { return; }
      if Inv(old(rows)) { UpsertAllSum(old(rows), rep.findings, at); }
      var resolved := 0;
      var n := 0;
      ghost var left := fuse;
      while n < |rep.ran|
        invariant n <= |rep.ran| && fuse == left - n
        invariant rows == ResolvePass(upserted, rep.(ran := rep.ran[..n]))
        invariant CountActive(rows) + resolved == CountActive(upserted)
      {
        var c := rep.ran[n];
        ok := Exec();
        if !ok { return; }
        ghost var mid := rows;
        var keys := if c in seen then seen[c] else {};
        var k := ResolveMissingFindings(rep.node, c, keys, at);
        ResolveStep(upserted, mid, rep, n);
        resolved := resolved + k;
        n := n + 1;
      }
      assert rep.ran[..n] == rep.ran && rep.(ran := rep.ran) == rep;
      summary := UpsertSummary(added, updated, resolved);
    }

    /** SaveReport: the report row and every finding change in one transaction. Either all statements
        complete and the table is Save of what it was, or nothing is left of any of them. */
    method SaveReport(rep: Report) returns (ok: bool, summary: UpsertSummary)
      modifies this
      ensures ok <==> old(fuse) >= |rep.findings| + (|Save(old(rows), rep)| - |old(rows)|) + |rep.ran| + 2
      ensures !ok ==> rows == old(rows) && reports == old(reports) && summary == UpsertSummary(0, 0, 0)
      ensures ok ==>
        && rows == Save(old(rows), rep) && reports == old(reports) + [rep]
        && summary.added + summary.updated == |rep.findings|
        && |rows| == |old(rows)| + summary.added
        && (Inv(old(rows)) ==> CountActive(rows) + summary.resolved == CountActive(old(rows)) + summary.added)
      ensures Inv(old(rows)) ==> Inv(rows)
    {
      var savedRows, savedReports := rows, reports;
      UpsertAllGrows(rows, rep.findings, Seconds(rep.generatedAt));
      if Inv(rows) { DoKeepsInv(rows, SaveStep(rep)); }
      summary := UpsertSummary(0, 0, 0);
      ok := Exec();
      if ok {
        reports := reports + [rep];
        var s: UpsertSummary;
        ok, s := UpsertFindings(rep);
        if ok {
          ok := Exec();
          if ok { summary := s; }
        }
      }
      if !ok { rows, reports := savedRows, savedReports; }
    }

    /** SnoozeEntity's UPDATE. */
    method SnoozeEntity(entityKey: string, until: int)
      modifies this`rows
      ensures rows == Snooze(old(rows), entityKey, until)
      ensures |rows| == |old(rows)|
      ensures forall i :: 0 <= i < |rows| ==>
        old(rows)[i].status.Resolved? || old(rows)[i].finding.entityKey != entityKey ==> rows[i] == old(rows)[i]
      ensures forall i :: 0 <= i < |rows| ==>
        !old(rows)[i].status.Resolved? && old(rows)[i].finding.entityKey == entityKey ==>
          rows[i] == old(rows)[i].(status := Snoozed, snoozeUntil := Some(Seconds(until)))
      ensures Inv(old(rows)) ==> Inv(rows)
    {
      var n := 0;
      while n < |rows|
        invariant n <= |rows| == |old(rows)|
        invariant rows[..n] == Snooze(old(rows), entityKey, until)[..n]
        invariant rows[n..] == old(rows)[n..]
      {
        if Active(rows[n]) && rows[n].finding.entityKey == entityKey {
          rows := rows[n := rows[n].(status := Snoozed, snoozeUntil := Some(Seconds(until)))];
        }
        n := n + 1;
      }
      assert rows[..n] == rows;
      if Inv(old(rows)) { DoKeepsInv(old(rows), SnoozeStep(entityKey, until)); }
    }

    /** OpenFindings: the active rows of a node, in query order. On a reachable table no two of them are
        tied, so the order is fully determined. */
    method OpenFindings(node: string) returns (out: seq<Row>)
      ensures multiset(out) == multiset(OpenRows(rows, node))
      ensures Sorted(RowLess, out)
      ensures forall r :: r in out <==> r in rows && Active(r) && r.finding.node == node
      ensures Inv(rows) ==> forall i, j :: 0 <= i < j < |out| ==> RowLess(out[i], out[j])
    {
      var picked := [];
      for n := 0 to |rows|
        invariant picked == OpenRows(rows[..n], node)
        invariant forall r :: r in picked <==> r in rows[..n] && Active(r) && r.finding.node == node
      {
        assert rows[..n + 1][..n] == rows[..n] && rows[..n + 1] == rows[..n] + [rows[n]];
        if Active(rows[n]) && rows[n].finding.node == node { picked := picked + [rows[n]]; }
      }
      assert rows[..|rows|] == rows;
      RowOrder();
      out := SliceStable(RowLess, picked);
      assert forall r :: r in out <==> r in multiset(out);
      if Inv(rows) { OpenRowsUntied(rows, node, picked, out); }
    }

    /** The staleness findings of one node: exactly those of its open, unsnoozed staleness rows. */
    method NodeStaleness(node: string) returns (out: seq<Finding>)
      ensures IsNodeList(rows, node, out)
      ensures forall f :: f in out <==> InStaleness(rows, f, node)
    {
      var open := OpenFindings(node);
      out := OpenStalenessFindings(open);
      forall f | f in out ensures InStaleness(rows, f, node) {
        var j :| 0 <= j < |open| && open[j].finding == f && Shown(open[j]);
        assert open[j] in open;
        var i := RowIndex(rows, open[j]);
      }
      forall i | 0 <= i < |rows| && InStalenessList(rows[i], node) ensures rows[i].finding in out {
        assert rows[i] in rows;
        var j := RowIndex(open, rows[i]);
      }
    }

    /** The digest's staleness section: the open, unsnoozed staleness findings of this node, and of the peer once
        it has ever been heard from, highest score first. score is findingScore. */
    method DigestStaleness(node: string, peer: string, heard: bool, score: Finding -> real) returns (out: seq<Finding>)
      ensures IsDigest(rows, node, peer, heard, score, out)
      ensures forall f :: f in out <==> InStaleness(rows, f, node) || (heard && InStaleness(rows, f, peer))
      ensures forall i, j :: 0 <= i < j < |out| ==> score(out[i]) >= score(out[j])
    {
      var own := NodeStaleness(node);
      var others := [];
      if heard { others := NodeStaleness(peer); }
      out := CollectStaleness(own, others, score);
      assert forall f :: f in out <==> f in multiset(own + others);
      assert forall i, j :: 0 <= i < j < |out| ==> !ByScore(score)(out[j], out[i]);
    }
  }

  lemma UpdateMisses(t: seq<Row>, f: Finding, at: int)
    requires !HasActive(t, KeyOf(f))
    ensures Update(t, f, at) == t
  {
    forall i | 0 <= i < |t| ensures RefreshIf(t[i], f, at) == t[i] { assert !ActiveFor(t[i], KeyOf(f)); }
  }

  /** seenKeys holds the named keys of every check that has findings. */
  ghost predicate SeenKeys(seen: map<string, set<string>>, fs: seq<Finding>) {
    && (forall c :: c in seen ==> seen[c] == NamedKeys(fs, c))
    && (forall c :: c !in seen ==> NamedKeys(fs, c) == {})
  }

  lemma SeenStep(seen: map<string, set<string>>, fs: seq<Finding>, n: nat)
    requires n < |fs| && SeenKeys(seen, fs[..n])
    ensures var c := fs[n].checkId;
      SeenKeys(seen[c := (if c in seen then seen[c] else {}) + {fs[n].entityKey}], fs[..n + 1])
  {
    assert fs[..n + 1] == fs[..n] + [fs[n]];
    assert forall c :: NamedKeys(fs[..n + 1], c) == NamedKeys(fs[..n], c) + if fs[n].checkId == c
        then {fs[n].entityKey} else {};
  }

  /** Later findings only add rows. */
  lemma {:induction false} GrowsFurther(t: seq<Row>, fs: seq<Finding>, n: nat, at: int)
    requires n <= |fs|
    ensures |UpsertAll(t, fs[..n], at)| <= |UpsertAll(t, fs, at)|
    decreases |fs|
  {
    if n == |fs| {
      assert fs[..n] == fs;
    } else {
      GrowsFurther(t, fs[..|fs| - 1], n, at);
      assert fs[..|fs| - 1][..n] == fs[..n];
    }
  }

  /** One more finding in the first loop: what it does, and the row it adds when there is none to refresh. */
  lemma UpsertStep(t: seq<Row>, mid: seq<Row>, fs: seq<Finding>, n: nat, at: int)
    requires n < |fs| && mid == UpsertAll(t, fs[..n], at)
    ensures UpsertAll(t, fs[..n + 1], at) == Upsert(mid, fs[n], at)
    ensures |Upsert(mid, fs[n], at)| == |mid| + if HasActive(mid, KeyOf(fs[n])) then 0 else 1
    ensures |Upsert(mid, fs[n], at)| <= |UpsertAll(t, fs, at)|
  {
    assert fs[..n + 1][..n] == fs[..n];
    GrowsFurther(t, fs, n + 1, at);
  }

  /** One more check id in the resolve loop. */
  lemma ResolveStep(t: seq<Row>, mid: seq<Row>, rep: Report, n: nat)
    requires n < |rep.ran| && mid == ResolvePass(t, rep.(ran := rep.ran[..n]))
    ensures ResolveMissing(mid, rep.node, rep.ran[n], NamedKeys(rep.findings, rep.ran[n]), Seconds(rep.generatedAt))
            == ResolvePass(t, rep.(ran := rep.ran[..n + 1]))
  {
    assert rep.ran[..n + 1] == rep.ran[..n] + [rep.ran[n]];
  }

  /** Two positions of the selected rows are two positions of the table. */
  lemma {:induction false} OpenRowsDistinct(t: seq<Row>, node: string)
    requires UniqueActive(t)
    ensures forall r :: r in OpenRows(t, node) ==> r in t && Active(r) && r.finding.node == node
    ensures forall i, j :: 0 <= i < j < |OpenRows(t, node)| ==>
        KeyOf(OpenRows(t, node)[i].finding) != KeyOf(OpenRows(t, node)[j].finding)
  {
    if t != [] {
      var rest, last := t[..|t| - 1], t[|t| - 1];
      OpenRowsDistinct(rest, node);
      forall r | r in OpenRows(rest, node) ensures Active(last) ==> KeyOf(r.finding) != KeyOf(last.finding) {
        var i := RowIndex(rest, r);
        assert t[i] == r;
      }
    }
  }

  lemma OpenRowsUntied(t: seq<Row>, node: string, picked: seq<Row>, out: seq<Row>)
    requires Inv(t) && picked == OpenRows(t, node)
    requires Sorted(RowLess, out) && multiset(out) == multiset(picked)
    requires forall r :: r in out ==> r.finding.node == node
    ensures forall i, j :: 0 <= i < j < |out| ==> RowLess(out[i], out[j])
  {
    OpenRowsDistinct(t, node);
    forall i, j | 0 <= i < j < |out| ensures RowLess(out[i], out[j]) {
      DistinctSurvives((r: Row) => KeyOf(r.finding), picked, out, i, j);
      var a, b := out[i].finding, out[j].finding;
      assert out[i] in out && out[j] in out;
      BeforeAsymmetric(-SqlRank(a.severity), a, -SqlRank(b.severity), b);
    }
  }

  lemma OpenListUnique(t: seq<Row>, node: string, a: seq<Row>, b: seq<Row>)
    requires Inv(t) && IsOpenList(t, node, a) && IsOpenList(t, node, b)
    ensures a == b
  {
    OpenRowsDistinct(t, node);
    assert forall r :: r in a ==> r in multiset(a);
    assert forall r :: r in b ==> r in multiset(b);
    OpenRowsUntied(t, node, OpenRows(t, node), a);
    OpenRowsUntied(t, node, OpenRows(t, node), b);
    RowOrder();
    StrictSortUnique(RowLess, a, b);
  }

  /** On a reachable table the section is fully determined, ties in score included. */
  lemma DigestUnique(t: seq<Row>, node: string, peer: string, heard: bool, score: Finding -> real, a: seq<Finding>,
        b: seq<Finding>)
    requires Inv(t) && IsDigest(t, node, peer, heard, score, a) && IsDigest(t, node, peer, heard, score, b)
    ensures a == b
  {
    NodeListUnique(t, node);
    NodeListUnique(t, peer);
    var own, others :| IsNodeList(t, node, own) && (if heard then IsNodeList(t, peer, others) else others == [])
                       && StableSortOf(ByScore(score), a, own + others);
    StableSortUnique(ByScore(score), a, b);
  }

  lemma NodeListUnique(t: seq<Row>, node: string)
    requires Inv(t)
    ensures forall a, b :: IsNodeList(t, node, a) && IsNodeList(t, node, b) ==> a == b
  {
    forall a, b | IsNodeList(t, node, a) && IsNodeList(t, node, b) ensures a == b {
      var x :| IsOpenList(t, node, x) && a == StalenessFindings(x);
      var y :| IsOpenList(t, node, y) && b == StalenessFindings(y);
      OpenListUnique(t, node, x, y);
    }
  }
}
