/** The two orders findings are shown in: sortFindings in the check runner, and OpenFindings' ORDER BY. */
module Ordering {
  import opened Text
  import opened Findings
  import opened Sorting

  const CRITICAL := "critical"
  const WARN := "warn"
  const INFO := "info"

  predicate Declared(severity: string) { severity == CRITICAL || severity == WARN || severity == INFO }

  /** severityRank: ascending, everything else ranks with info. */
  function SeverityRank(s: string): int { if s == CRITICAL then 0 else if s == WARN then 1 else 2 }

  /** The CASE expression of OpenFindings: descending, everything else ranks below info. */
  function SqlRank(s: string): int {
    if s == CRITICAL then 3 else if s == WARN then 2 else if s == INFO then 1 else 0
  }

  /** Smaller rank first, then check id, then entity key. */
  predicate Before(ra: int, a: Finding, rb: int, b: Finding) {
    if ra != rb then ra < rb
    else if a.checkId != b.checkId then Less(a.checkId, b.checkId)
    else Less(a.entityKey, b.entityKey)
  }

  predicate FindingLess(a: Finding, b: Finding) {
    Before(SeverityRank(a.severity), a, SeverityRank(b.severity), b)
  }

  predicate SqlLess(a: Finding, b: Finding) {
    Before(-SqlRank(a.severity), a, -SqlRank(b.severity), b)
  }

  lemma BeforeAsymmetric(ra: int, a: Finding, rb: int, b: Finding)
    ensures !(Before(ra, a, rb, b) && Before(rb, b, ra, a))
    ensures Before(ra, a, rb, b) || Before(rb, b, ra, a)
        || (ra == rb && a.checkId == b.checkId && a.entityKey == b.entityKey)
  {
    LessAsymmetric(a.checkId, b.checkId);
    LessAsymmetric(a.entityKey, b.entityKey);
    LessTotal(a.checkId, b.checkId);
    LessTotal(a.entityKey, b.entityKey);
  }

  lemma BeforeNegativelyTransitive(ra: int, a: Finding, rb: int, b: Finding, rc: int, c: Finding)
    requires Before(ra, a, rc, c)
    ensures Before(ra, a, rb, b) || Before(rb, b, rc, c)
  {
    if ra == rb == rc {
      if a.checkId == c.checkId {
        LessTotal(a.checkId, b.checkId);
        LessNegativelyTransitive(a.entityKey, b.entityKey, c.entityKey);
      } else {
        LessNegativelyTransitive(a.checkId, b.checkId, c.checkId);
        LessIrreflexive(a.checkId);
        LessIrreflexive(c.checkId);
      }
    }
  }

  lemma FindingOrder()
    ensures WeakOrder(FindingLess)
  {
    forall x, y | FindingLess(x, y) ensures !FindingLess(y, x) {
      BeforeAsymmetric(SeverityRank(x.severity), x, SeverityRank(y.severity), y);
    }
    forall x, y, z | FindingLess(x, z) ensures FindingLess(x, y) || FindingLess(y, z) {
      BeforeNegativelyTransitive(SeverityRank(x.severity), x, SeverityRank(y.severity), y, SeverityRank(z.severity), z);
    }
  }

  lemma SqlOrder()
    ensures WeakOrder(SqlLess)
  {
    forall x, y | SqlLess(x, y) ensures !SqlLess(y, x) {
      BeforeAsymmetric(-SqlRank(x.severity), x, -SqlRank(y.severity), y);
    }
    forall x, y, z | SqlLess(x, z) ensures SqlLess(x, y) || SqlLess(y, z) {
      BeforeNegativelyTransitive(-SqlRank(x.severity), x, -SqlRank(y.severity), y, -SqlRank(z.severity), z);
    }
  }

  /** Two severities are ordered alike by the runner and by the query, for all findings that carry them,
      except info against a severity outside the three declared ones: tied in one, ordered in the other. */
  lemma OrdersAgree(s: string, t: string)
    ensures (forall a: Finding, b: Finding | a.severity == s && b.severity == t :: FindingLess(a, b) <==> SqlLess(a, b))
            <==> !(s == INFO && !Declared(t)) && !(t == INFO && !Declared(s))
  {
    if s == INFO && !Declared(t) {
      var a := Finding("x", "", "", s, "", "", "", "");
      var b := Finding("", "", "", t, "", "", "", "");
      assert SqlLess(a, b) && !FindingLess(a, b);
    }
    if t == INFO && !Declared(s) {
      var a := Finding("", "", "", s, "", "", "", "");
      var b := Finding("x", "", "", t, "", "", "", "");
      assert Less("", "x");
      assert FindingLess(a, b) && !SqlLess(a, b);
    }
  }

  /** sortFindings: the stable sort of the findings by severity, check and entity. */
  method SortFindings(findings: seq<Finding>) returns (out: seq<Finding>)
    ensures StableSortOf(FindingLess, out, findings)
    ensures multiset(out) == multiset(findings)
    ensures out == Sort(FindingLess, findings)
  {
    FindingOrder();
    out := SliceStable(FindingLess, findings);
  }

  /** What the sorted list looks like: critical before warn before the rest, then by check, then by entity. */
  lemma SortedMeaning(out: seq<Finding>, i: nat, j: nat)
    requires Sorted(FindingLess, out) && i < j < |out|
    ensures out[j].severity == "critical" ==> out[i].severity == "critical"
    ensures out[j].severity == "warn" ==> out[i].severity == "critical" || out[i].severity == "warn"
    ensures out[i].severity == out[j].severity ==> !Less(out[j].checkId, out[i].checkId)
    ensures out[i].severity == out[j].severity && out[i].checkId == out[j].checkId ==>
              !Less(out[j].entityKey, out[i].entityKey)
  {
    assert !FindingLess(out[j], out[i]);
    LessIrreflexive(out[i].checkId);
    LessIrreflexive(out[i].entityKey);
  }

  /** And the query's, where what is not declared comes last. */
  lemma QueryOrderMeaning(a: Finding, b: Finding)
    requires !SqlLess(b, a)
    ensures b.severity == "critical" ==> a.severity == "critical"
    ensures b.severity == "warn" ==> a.severity == "critical" || a.severity == "warn"
    ensures b.severity == "info" ==> a.severity == "critical" || a.severity == "warn" || a.severity == "info"
    ensures a.severity == b.severity ==> !Less(b.checkId, a.checkId)
    ensures a.severity == b.severity && a.checkId == b.checkId ==> !Less(b.entityKey, a.entityKey)
  {
    LessIrreflexive(a.checkId);
    LessIrreflexive(a.entityKey);
  }
}
