/** The check runner (internal/check/runner.go) and its composition with the ledger. */
module Runner {
  import opened Text
  import opened Timestamps
  import opened Findings
  import opened Sorting
  import opened Ordering
  import opened Ledger

  datatype Error = NotConfigured | Failure(message: string)

  datatype CheckResult = CheckResult(findings: seq<Finding>, metrics: map<string, real>)

  /** How the goroutine running a check ends, if it does. */
  datatype Ending = Returned(res: CheckResult, err: Option<Error>) | Panicked(message: string) | Hung

  /** One check of a run: its id, how it ends, and whether the deadline wins the race against that. */
  datatype Attempt = Attempt(id: string, ending: Ending, late: bool)

  datatype Outcome = Outcome(res: CheckResult, err: Option<Error>)

  const NOTHING := CheckResult([], map[])

  /** runOne: the select between the result channel and the deadline. */
  function RunOne(a: Attempt): Outcome {
    if a.late || a.ending.Hung? then Outcome(NOTHING, Some(Failure("check " + a.id + ": deadline exceeded")))
    else match a.ending
      case Panicked(m) => Outcome(NOTHING, Some(Failure("panicked: " + m)))
      case Returned(res, err) => if err.Some? && err.value.Failure? then Outcome(NOTHING, err) else Outcome(res, err)
  }

  /** How an attempt counts, by its own fields: it came back in time without an error, or in time with
      ErrNotConfigured; anything else is a failure. */
  predicate Completes(a: Attempt) { !a.late && a.ending.Returned? && a.ending.err == None }
  predicate Skips(a: Attempt) { !a.late && a.ending.Returned? && a.ending.err == Some(NotConfigured) }
  predicate Fails(a: Attempt) { !Completes(a) && !Skips(a) }

  /** What the report says about a failure: the check's own error as it is, the panic, or the deadline. */
  function Reason(a: Attempt): string {
    if !a.late && a.ending.Panicked? then "panicked: " + a.ending.message
    else if !a.late && a.ending.Returned? && a.ending.err.Some? && a.ending.err.value.Failure?
    then a.ending.err.value.message
    else "check " + a.id + ": deadline exceeded"
  }

  /** runOne gives a completed check's own result, and an error exactly for the rest. */
  lemma RunOneMeaning(a: Attempt)
    ensures RunOne(a).err.None? <==> Completes(a)
    ensures RunOne(a).err == Some(NotConfigured) <==> Skips(a)
    ensures Fails(a) ==> RunOne(a).err == Some(Failure(Reason(a)))
    ensures Completes(a) ==> RunOne(a).res == a.ending.res
  {
  }

  function RanIds(cs: seq<Attempt>): seq<string> {
    if cs == [] then []
    else if Completes(cs[|cs| - 1]) then RanIds(cs[..|cs| - 1]) + [cs[|cs| - 1].id]
    else RanIds(cs[..|cs| - 1])
  }

  function SkippedIds(cs: seq<Attempt>): seq<string> {
    if cs == [] then []
    else if Skips(cs[|cs| - 1]) then SkippedIds(cs[..|cs| - 1]) + [cs[|cs| - 1].id]
    else SkippedIds(cs[..|cs| - 1])
  }

  function FailedIds(cs: seq<Attempt>): seq<string> { ErrorIds(Errors(cs)) }

  function Errors(cs: seq<Attempt>): seq<CheckError> {
    if cs == [] then []
    else if Fails(cs[|cs| - 1]) then Errors(cs[..|cs| - 1]) + [CheckError(cs[|cs| - 1].id, Reason(cs[|cs| - 1]))]
    else Errors(cs[..|cs| - 1])
  }

  /** The findings of the completed checks, in registry order. */
  function Emitted(cs: seq<Attempt>): seq<Finding> {
    if cs == [] then []
    else if Completes(cs[|cs| - 1]) then Emitted(cs[..|cs| - 1]) + cs[|cs| - 1].ending.res.findings
    else Emitted(cs[..|cs| - 1])
  }

  /** Metrics of the completed checks; a later check wins on a shared name. */
  function Merged(cs: seq<Attempt>): map<string, real> {
    if cs == [] then map[]
    else if Completes(cs[|cs| - 1]) then Merged(cs[..|cs| - 1]) + cs[|cs| - 1].ending.res.metrics
    else Merged(cs[..|cs| - 1])
  }

  function ErrorIds(es: seq<CheckError>): seq<string> { seq(|es|, i requires 0 <= i < |es| => es[i].checkId) }

  /** What a report of a run of cs on node at now is. */
  ghost predicate IsRunOf(rep: Report, node: string, now: int, cs: seq<Attempt>) {
    && rep.node == node && rep.generatedAt == now
    && rep.ran == RanIds(cs) && rep.skipped == SkippedIds(cs) && rep.errors == Errors(cs)
    && StableSortOf(FindingLess, rep.findings, Emitted(cs)) && multiset(rep.findings) == multiset(Emitted(cs))
    && rep.metrics == Merged(cs)
    && rep.checksRun == |rep.ran| + |rep.errors| && rep.checksFailed == |rep.errors|
  }

  /** Run: every check in order, each recorded in exactly one of ran, skipped and errors. */
  method Run(node: string, now: int, checks: seq<Attempt>) returns (rep: Report)
    ensures IsRunOf(rep, node, now, checks)
  {
    var findings, ran, skipped, errors, metrics := [], [], [], [], map[];
    for n := 0 to |checks|
      invariant ran == RanIds(checks[..n]) && skipped == SkippedIds(checks[..n])
      invariant errors == Errors(checks[..n])
      invariant findings == Emitted(checks[..n]) && metrics == Merged(checks[..n])
    {
      assert checks[..n + 1][..n] == checks[..n];
      var c := checks[n];
      var o := RunOne(c);
      RunOneMeaning(c);
      match o.err
      case Some(NotConfigured) =>
        skipped := skipped + [c.id];
      case Some(Failure(m)) =>
        errors := errors + [CheckError(c.id, m)];
      case None =>
        ran := ran + [c.id];
        findings := findings + o.res.findings;
        metrics := metrics + o.res.metrics;
    }
    assert checks[..|checks|] == checks;
    findings := SortFindings(findings);
    rep := Report(node, now, findings, ran, skipped, errors, metrics, |ran| + |errors|, |errors|);
  }

  lemma {:induction false} RanMembers(cs: seq<Attempt>, id: string)
    ensures id in RanIds(cs) <==> exists i :: 0 <= i < |cs| && cs[i].id == id && Completes(cs[i])
  {
    if cs != [] {
      var rest := cs[..|cs| - 1];
      RanMembers(rest, id);
      assert forall i :: 0 <= i < |rest| ==> rest[i] == cs[i];
    }
  }

  lemma {:induction false} SkippedMembers(cs: seq<Attempt>, id: string)
    ensures id in SkippedIds(cs) <==> exists i :: 0 <= i < |cs| && cs[i].id == id && Skips(cs[i])
  {
    if cs != [] {
      var rest := cs[..|cs| - 1];
      SkippedMembers(rest, id);
      assert forall i :: 0 <= i < |rest| ==> rest[i] == cs[i];
    }
  }

  lemma {:induction false} FailedMembers(cs: seq<Attempt>, id: string)
    ensures id in FailedIds(cs) <==> exists i :: 0 <= i < |cs| && cs[i].id == id && Fails(cs[i])
  {
    if cs != [] {
      var rest := cs[..|cs| - 1];
      FailedMembers(rest, id);
      ErrorIdsSnoc(Errors(rest), CheckError(cs[|cs| - 1].id, Reason(cs[|cs| - 1])), id);
      assert forall i :: 0 <= i < |rest| ==> rest[i] == cs[i];
    }
  }

  lemma ErrorIdsSnoc(es: seq<CheckError>, e: CheckError, id: string)
    ensures id in ErrorIds(es + [e]) <==> id in ErrorIds(es) || id == e.checkId
  {
    var all := ErrorIds(es + [e]);
    assert all == ErrorIds(es) + [e.checkId];
  }

  /** A run of two registries one after the other reports what both report, in that order; a metric both have is the
      second's. */
  lemma RunsConcatenate(a: seq<Attempt>, b: seq<Attempt>)
    ensures RanIds(a + b) == RanIds(a) + RanIds(b) && SkippedIds(a + b) == SkippedIds(a) + SkippedIds(b)
    ensures Errors(a + b) == Errors(a) + Errors(b) && Emitted(a + b) == Emitted(a) + Emitted(b)
    ensures Merged(a + b) == Merged(a) + Merged(b)
  {
    RanConcat(a, b);
    SkippedConcat(a, b);
    ErrorsConcat(a, b);
    EmittedConcat(a, b);
    MergedConcat(a, b);
  }

  lemma {:induction false} RanConcat(a: seq<Attempt>, b: seq<Attempt>)
    ensures RanIds(a + b) == RanIds(a) + RanIds(b)
  {
    if b == [] {
      assert a + b == a && RanIds(a) + [] == RanIds(a);
    } else {
      var rest, last := b[..|b| - 1], b[|b| - 1];
      RanConcat(a, rest);
      assert (a + b)[..|a + b| - 1] == a + rest;
      assert RanIds(a) + (RanIds(rest) + [last.id]) == RanIds(a) + RanIds(rest) + [last.id];
    }
  }

  lemma {:induction false} SkippedConcat(a: seq<Attempt>, b: seq<Attempt>)
    ensures SkippedIds(a + b) == SkippedIds(a) + SkippedIds(b)
  {
    if b == [] {
      assert a + b == a && SkippedIds(a) + [] == SkippedIds(a);
    } else {
      var rest, last := b[..|b| - 1], b[|b| - 1];
      SkippedConcat(a, rest);
      assert (a + b)[..|a + b| - 1] == a + rest;
      assert SkippedIds(a) + (SkippedIds(rest) + [last.id]) == SkippedIds(a) + SkippedIds(rest) + [last.id];
    }
  }

  lemma {:induction false} ErrorsConcat(a: seq<Attempt>, b: seq<Attempt>)
    ensures Errors(a + b) == Errors(a) + Errors(b)
  {
    if b == [] {
      assert a + b == a && Errors(a) + [] == Errors(a);
    } else {
      var rest, last := b[..|b| - 1], b[|b| - 1];
      ErrorsConcat(a, rest);
      assert (a + b)[..|a + b| - 1] == a + rest;
      var e := [CheckError(last.id, Reason(last))];
      assert Errors(a) + (Errors(rest) + e) == Errors(a) + Errors(rest) + e;
    }
  }

  lemma {:induction false} EmittedConcat(a: seq<Attempt>, b: seq<Attempt>)
    ensures Emitted(a + b) == Emitted(a) + Emitted(b)
  {
    if b == [] {
      assert a + b == a && Emitted(a) + [] == Emitted(a);
    } else {
      var rest, last := b[..|b| - 1], b[|b| - 1];
      EmittedConcat(a, rest);
      assert (a + b)[..|a + b| - 1] == a + rest;
      var fs := if Completes(last) then last.ending.res.findings else [];
      assert Emitted(a) + (Emitted(rest) + fs) == Emitted(a) + Emitted(rest) + fs;
    }
  }

  lemma {:induction false} MergedConcat(a: seq<Attempt>, b: seq<Attempt>)
    ensures Merged(a + b) == Merged(a) + Merged(b)
  {
    if b == [] {
      assert a + b == a && Merged(a) + map[] == Merged(a);
    } else {
      var rest, last := b[..|b| - 1], b[|b| - 1];
      MergedConcat(a, rest);
      assert (a + b)[..|a + b| - 1] == a + rest;
      var ms := if Completes(last) then last.ending.res.metrics else map[];
      assert Merged(a) + (Merged(rest) + ms) == Merged(a) + Merged(rest) + ms;
    }
  }

  /** And a run of one check reports it in exactly one place, with what it returned. */
  lemma RunOfOne(c: Attempt)
    ensures RanIds([c]) == (if Completes(c) then [c.id] else [])
    ensures SkippedIds([c]) == (if Skips(c) then [c.id] else [])
    ensures Errors([c]) == (if Fails(c) then [CheckError(c.id, Reason(c))] else [])
    ensures Emitted([c]) == (if Completes(c) then c.ending.res.findings else [])
    ensures Merged([c]) == (if Completes(c) then c.ending.res.metrics else map[])
  {
    assert [c][..0] == [];
  }

  /** Registry order: a completed check stands in ran behind exactly the completed checks before it. */
  lemma {:induction false} RanInOrder(cs: seq<Attempt>, i: nat)
    requires i < |cs| && Completes(cs[i])
    ensures |RanIds(cs[..i])| < |RanIds(cs)| && RanIds(cs)[|RanIds(cs[..i])|] == cs[i].id
  {
    var rest := cs[..|cs| - 1];
    if i < |rest| {
      RanInOrder(rest, i);
      assert rest[..i] == cs[..i];
    }
  }

  lemma {:induction false} Counted(cs: seq<Attempt>)
    ensures |RanIds(cs)| + |SkippedIds(cs)| + |FailedIds(cs)| == |cs|
  {
    if cs != [] { Counted(cs[..|cs| - 1]); }
  }

  /** With distinct ids (the registry refuses duplicates) every check lands in exactly one list, and which
      one is decided by its own outcome. */
  lemma EachCheckOnce(rep: Report, node: string, now: int, cs: seq<Attempt>, i: nat)
    requires IsRunOf(rep, node, now, cs) && i < |cs|
    requires forall j, k :: 0 <= j < k < |cs| ==> cs[j].id != cs[k].id
    ensures cs[i].id in rep.ran <==> Completes(cs[i])
    ensures cs[i].id in rep.skipped <==> Skips(cs[i])
    ensures cs[i].id in ErrorIds(rep.errors) <==> Fails(cs[i])
    ensures rep.checksRun + |rep.skipped| == |cs| && |rep.ran| + rep.checksFailed == rep.checksRun
  {
    RanMembers(cs, cs[i].id);
    SkippedMembers(cs, cs[i].id);
    FailedMembers(cs, cs[i].id);
    Counted(cs);
    assert |ErrorIds(rep.errors)| == |rep.errors|;
  }

  lemma {:induction false} EmittedMembers(cs: seq<Attempt>, f: Finding)
    ensures f in Emitted(cs) <==> exists i :: 0 <= i < |cs| && Completes(cs[i]) && f in cs[i].ending.res.findings
  {
    if cs != [] {
      var rest := cs[..|cs| - 1];
      EmittedMembers(rest, f);
      assert forall i :: 0 <= i < |rest| ==> rest[i] == cs[i];
    }
  }

  /** Checks build findings with NewFinding: under their own id, stamped with the node. */
  ghost predicate EmitsOwn(a: Attempt, node: string) {
    Completes(a) ==> forall f :: f in a.ending.res.findings ==> f.checkId == a.id && f.node == node
  }

  /** A report that says nothing about a check. */
  ghost predicate SilentOn(rep: Report, checkId: string) {
    checkId !in rep.ran && forall f :: f in rep.findings ==> f.checkId != checkId
  }

  lemma RunFindings(rep: Report, node: string, now: int, cs: seq<Attempt>, f: Finding)
    requires IsRunOf(rep, node, now, cs)
    ensures f in rep.findings <==> exists i :: 0 <= i < |cs| && Completes(cs[i]) && f in cs[i].ending.res.findings
  {
    EmittedMembers(cs, f);
    assert f in rep.findings <==> f in multiset(rep.findings);
    assert f in Emitted(cs) <==> f in multiset(Emitted(cs));
  }

  /** A check that errors, panics, hangs, misses the deadline or is not configured leaves no trace in the report. */
  lemma UnfinishedIsSilent(rep: Report, node: string, now: int, cs: seq<Attempt>, checkId: string)
    requires IsRunOf(rep, node, now, cs)
    requires forall i :: 0 <= i < |cs| ==> EmitsOwn(cs[i], node)
    requires forall i :: 0 <= i < |cs| && cs[i].id == checkId ==> !Completes(cs[i])
    ensures SilentOn(rep, checkId)
  {
    RanMembers(cs, checkId);
    forall f | f in rep.findings ensures f.checkId != checkId {
      RunFindings(rep, node, now, cs, f);
      var i :| 0 <= i < |cs| && Completes(cs[i]) && f in cs[i].ending.res.findings;
      assert EmitsOwn(cs[i], node);
    }
  }

  ghost function Saves(reps: seq<Report>): seq<Step> { seq(|reps|, i requires 0 <= i < |reps| => SaveStep(reps[i])) }

  /** A report that can change nothing about a check of a node: it does not run the check there, and names nothing
      of it there. */
  ghost predicate LeavesAlone(rep: Report, node: string, checkId: string) {
    && !(rep.node == node && checkId in rep.ran)
    && forall f :: f in rep.findings ==> !(f.node == node && f.checkId == checkId)
  }

  predicate Concerns(r: Row, node: string, checkId: string) { r.finding.node == node && r.finding.checkId == checkId }

  /** What a node's store receives while a check cannot finish on it: its own reports, silent on the check, and the
      peer's, which may well have run the same check over there. */
  ghost predicate Meanwhile(rep: Report, node: string, checkId: string) {
    SilentOn(rep, checkId) || (rep.node != node && forall f :: f in rep.findings ==> f.node == rep.node)
  }

  /** Through any number of such reports every row of that node and check stays exactly as it was and none is added:
      nothing is resolved because a check could not run. */
  lemma SilentCheckKeepsRows(t: seq<Row>, reps: seq<Report>, node: string, checkId: string)
    requires forall rep :: rep in reps ==> Meanwhile(rep, node, checkId)
    ensures var u := Play(t, Saves(reps));
      && |t| <= |u|
      && (forall i :: 0 <= i < |t| && Concerns(t[i], node, checkId) ==> u[i] == t[i])
      && (forall i :: |t| <= i < |u| ==> !Concerns(u[i], node, checkId))
  {
    LeftAlone(t, reps, node, checkId);
  }

  lemma {:induction false} LeftAlone(t: seq<Row>, reps: seq<Report>, node: string, checkId: string)
    requires forall rep :: rep in reps ==> LeavesAlone(rep, node, checkId)
    ensures var u := Play(t, Saves(reps));
      && |t| <= |u|
      && (forall i :: 0 <= i < |t| && Concerns(t[i], node, checkId) ==> u[i] == t[i])
      && (forall i :: |t| <= i < |u| ==> !Concerns(u[i], node, checkId))
  {
    if reps != [] {
      var rest, last := reps[..|reps| - 1], reps[|reps| - 1];
      LeftAlone(t, rest, node, checkId);
      assert Saves(reps)[..|reps| - 1] == Saves(rest);
      assert last in reps;
      LeftAloneOnce(Play(t, Saves(rest)), last, node, checkId);
    }
  }

  lemma LeftAloneOnce(m: seq<Row>, rep: Report, node: string, checkId: string)
    requires LeavesAlone(rep, node, checkId)
    ensures var u := Save(m, rep);
      && |m| <= |u|
      && (forall i :: 0 <= i < |m| ==> KeyOf(u[i].finding) == KeyOf(m[i].finding))
      && (forall i :: 0 <= i < |m| && Concerns(m[i], node, checkId) ==> u[i] == m[i])
      && (forall i :: |m| <= i < |u| ==> !Concerns(u[i], node, checkId))
  {
    var u := Save(m, rep);
    UpsertAllGrows(m, rep.findings, Seconds(rep.generatedAt));
    forall i | 0 <= i < |m| && Concerns(m[i], node, checkId) ensures u[i] == m[i] {
      SaveFrame(m, rep, i);
      NamesMember(rep.findings, KeyOf(m[i].finding));
    }
    forall i | 0 <= i < |m| ensures KeyOf(u[i].finding) == KeyOf(m[i].finding) { DoPreserves(m, SaveStep(rep), i); }
    forall i | |m| <= i < |u| ensures !Concerns(u[i], node, checkId) {
      AddedRowsAreNamed(m, rep.findings, Seconds(rep.generatedAt), i);
    }
  }

  /** LeavesAlone is exact: on some table every other report changes a row of the check or adds one. */
  lemma LeavesAloneExactly(rep: Report, node: string, checkId: string)
    ensures LeavesAlone(rep, node, checkId) <==>
            forall t: seq<Row> ::
              && |t| <= |Save(t, rep)|
              && (forall i :: 0 <= i < |t| && Concerns(t[i], node, checkId) ==> Save(t, rep)[i] == t[i])
              && (forall i :: |t| <= i < |Save(t, rep)| ==> !Concerns(Save(t, rep)[i], node, checkId))
  {
    if LeavesAlone(rep, node, checkId) {
      forall t: seq<Row>
        ensures && |t| <= |Save(t, rep)|
                && (forall i :: 0 <= i < |t| && Concerns(t[i], node, checkId) ==> Save(t, rep)[i] == t[i])
                && (forall i :: |t| <= i < |Save(t, rep)| ==> !Concerns(Save(t, rep)[i], node, checkId))
      {
        LeftAloneOnce(t, rep, node, checkId);
      }
    } else {
      var t, i := TouchedTable(rep, node, checkId);
      assert Save(t, rep)[i] != t[i];
    }
  }

  /** A one-row table that such a report changes: the row of a finding it names, or of an entity it leaves out. */
  lemma TouchedTable(rep: Report, node: string, checkId: string) returns (t: seq<Row>, i: nat)
    requires !LeavesAlone(rep, node, checkId)
    ensures i < |t| <= |Save(t, rep)| && Concerns(t[i], node, checkId) && Save(t, rep)[i] != t[i]
  {
    var f: Finding;
    if g :| g in rep.findings && g.node == node && g.checkId == checkId {
      f := g;
    } else {
      var e := LongerKey(rep.findings);
      f := Finding(checkId, node, e, "", "", "", "", "");
      assert e !in NamedKeys(rep.findings, checkId);
    }
    t, i := [NewRow(f, 0)], 0;
    SaveFrame(t, rep, 0);
    NamesMember(rep.findings, KeyOf(f));
  }

  lemma {:induction false} LongerKey(fs: seq<Finding>) returns (e: string)
    ensures e != "" && forall f :: f in fs ==> |f.entityKey| < |e|
  {
    e := "x";
    if fs != [] {
      e := LongerKey(fs[1..]);
      e := e + fs[0].entityKey;
      assert fs == [fs[0]] + fs[1..];
    }
  }

  /** A row a report adds carries a key the report names. */
  lemma {:induction false} AddedRowsAreNamed(t: seq<Row>, fs: seq<Finding>, at: int, i: nat)
    requires |t| <= i < |UpsertAll(t, fs, at)|
    ensures exists f :: f in fs && KeyOf(f) == KeyOf(UpsertAll(t, fs, at)[i].finding)
  {
    var rest, last := fs[..|fs| - 1], fs[|fs| - 1];
    var m := UpsertAll(t, rest, at);
    if i < |m| {
      AddedRowsAreNamed(t, rest, at, i);
      var f :| f in rest && KeyOf(f) == KeyOf(m[i].finding);
      assert f in fs;
    }
  }

  /** After a cycle, a check that completed has active exactly the entities it emitted. */
  lemma CompletedCheckExact(t: seq<Row>, rep: Report, node: string, now: int, cs: seq<Attempt>, checkId: string,
        e: string)
    requires IsRunOf(rep, node, now, cs)
    requires forall i :: 0 <= i < |cs| ==> EmitsOwn(cs[i], node)
    requires exists i :: 0 <= i < |cs| && cs[i].id == checkId && Completes(cs[i])
    ensures HasActive(Save(t, rep), Key(node, checkId, e)) <==>
            exists i, f :: 0 <= i < |cs| && Completes(cs[i]) && f in cs[i].ending.res.findings
                && KeyOf(f) == Key(node, checkId, e)
  {
    RanMembers(cs, checkId);
    forall f | f in rep.findings ensures f.node == node {
      RunFindings(rep, node, now, cs, f);
      var i :| 0 <= i < |cs| && Completes(cs[i]) && f in cs[i].ending.res.findings;
      assert EmitsOwn(cs[i], node);
    }
    var k := Key(node, checkId, e);
    RanKeysExactOnOwnNode(t, rep, checkId, e);
    NamesMember(rep.findings, k);
    forall f ensures f in rep.findings <==>
        exists i :: 0 <= i < |cs| && Completes(cs[i]) && f in cs[i].ending.res.findings {
      RunFindings(rep, node, now, cs, f);
    }
  }
}
