/** The value types every check produces (internal/check/types.go). */
module Findings {

  datatype Finding = Finding(
    checkId: string, node: string, entityKey: string, severity: string, tier: string,
    summary: string, detail: string, data: string)

  /** The dedup identity of the findings table: at most one active row per key. */
  datatype Key = Key(node: string, checkId: string, entityKey: string)

  function KeyOf(f: Finding): Key { Key(f.node, f.checkId, f.entityKey) }

  datatype CheckError = CheckError(checkId: string, error: string)

  /** generatedAt is an instant in nanoseconds; the last two are the counters the digest shows. */
  datatype Report = Report(
    node: string, generatedAt: int, findings: seq<Finding>, ran: seq<string>,
    skipped: seq<string>, errors: seq<CheckError>, metrics: map<string, real>,
    checksRun: nat, checksFailed: nat)
}
