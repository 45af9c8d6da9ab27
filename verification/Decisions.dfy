/** The two halves of a delete: decision.Execute on the node that owns Sonarr and Radarr (the Pi), and
    ReceiveDecision on the node that owns qBittorrent (the NAS). Every client and store call is an event;
    the answers of the outside world are parameters. */
module Decisions {
  import opened Text
  import opened Retry
  import History

  datatype Provider = Sonarr | Radarr
  datatype Ref = Ref(provider: Provider, id: int)

  /** parseEntityKey: "sonarr:<id>" or "radarr:<id>" with a 64-bit id. */
  function ParseEntityKey(key: string): Option<Ref> { ParseKeyWith(key, ParseInt64) }

  function ParseKeyWith(key: string, parse: string -> Option<int>): Option<Ref> {
    match Cut(key, ':')
    case None => None
    case Some((provider, idStr)) =>
      if provider != "sonarr" && provider != "radarr" then None
      else WithId(if provider == "sonarr" then Sonarr else Radarr, parse(idStr))
  }

  function WithId(p: Provider, id: Option<int>): Option<Ref> {
    match id case None => None case Some(v) => Some(Ref(p, v))
  }

  function ProviderName(p: Provider): (s: string)
    ensures ':' !in s
  {
    if p.Sonarr? then "sonarr" else "radarr"
  }

  function EntityKey(ref: Ref): string { ProviderName(ref.provider) + ":" + FormatInt(ref.id) }

  /** Every key the program builds parses back to the entity it was built from. */
  lemma EntityKeyRoundTrip(ref: Ref)
    requires -MAX_INT64 - 1 <= ref.id <= MAX_INT64
    ensures ParseEntityKey(EntityKey(ref)) == Some(ref)
  {
    ParseFormat(ref.id);
    ProviderCut(ProviderName(ref.provider), FormatInt(ref.id));
    KeyParses(EntityKey(ref), ref.provider, FormatInt(ref.id), ParseInt64(FormatInt(ref.id)));
  }

  /** A key that spells an entity: one of the two names, a colon, a number. */
  ghost predicate SpellsEntity(key: string, ref: Ref, id: string, parse: string -> Option<int>) {
    key == (if ref.provider.Sonarr? then "sonarr" else "radarr") + ":" + id && parse(id) == Some(ref.id)
  }

  /** Nothing else parses. */
  lemma EntityKeyExactly(key: string, ref: Ref)
    ensures ParseEntityKey(key) == Some(ref) <==> exists id :: SpellsEntity(key, ref, id, ParseInt64)
  {
    KeyExactly(key, ref, ParseInt64);
  }

  lemma KeyExactly(key: string, ref: Ref, parse: string -> Option<int>)
    ensures ParseKeyWith(key, parse) == Some(ref) <==> exists id :: SpellsEntity(key, ref, id, parse)
  {
    var p := if ref.provider.Sonarr? then "sonarr" else "radarr";
    forall id ensures SpellsEntity(key, ref, id, parse) ==> Cut(key, ':') == Some((p, id)) {
      if SpellsEntity(key, ref, id, parse) { ProviderCut(p, id); }
    }
    if Cut(key, ':').Some? {
      var name, rest := Cut(key, ':').value.0, Cut(key, ':').value.1;
      assert key == name + ":" + rest;
      if name == p && parse(rest) == Some(ref.id) { assert SpellsEntity(key, ref, rest, parse); }
    }
  }

  lemma KeyParses(key: string, p: Provider, idStr: string, id: Option<int>)
    requires Cut(key, ':') == Some((ProviderName(p), idStr)) && ParseInt64(idStr) == id
    ensures ParseEntityKey(key) == WithId(p, id)
  {
  }

  lemma ProviderCut(p: string, idStr: string)
    requires ':' !in p
    ensures Cut(p + ":" + idStr, ':') == Some((p, idStr))
  {
    CutAt(p, ':', idStr);
    assert p + ":" + idStr == p + [':'] + idStr;
  }

  datatype Status = Executed | Failed | Blocked

  datatype JsonItem = Str(s: string) | NotStr

  /** The "hashes" entry of a payload: absent or of another shape, a []string, or a decoded JSON array. */
  datatype Payload = NoHashes | Strings(hs: seq<string>) | Items(items: seq<JsonItem>)

  datatype Message = Message(kind: string, entityKey: string, payload: Payload)

  const QBIT_DELETE := "qbit_delete"

  type HistoryRecord = History.Record
  datatype Title = Title(id: int, extId: int)
  datatype Request = Request(id: int, mediaType: string, tvdbId: int, tmdbId: int)

  datatype Event =
    | SnoozeEntity(entityKey: string, until: int)
    | ReadLibrary(ref: Ref)
    | ArrDelete(ref: Ref, ok: bool)
    | ReadRequests
    | Decline(requestId: int)
    | ReadHistory(ref: Ref, records: Option<seq<HistoryRecord>>)
    | Send(msg: Message)
    | Remediation(status: Status)
    | Mark(id: int, status: Status)
    | Inbound(msg: Message, ok: bool)
    | QbitDelete(hashes: seq<string>, ok: bool)

  /** Calls that change the media stack or ask the peer to. */
  predicate IsWrite(e: Event) { e.ArrDelete? || e.Decline? || e.Send? || e.QbitDelete? }

  // ----- The Pi -----

  /** The actions gate, which clients are configured, and the peer client's retries. */
  datatype PiConfig = PiConfig(actions: bool, sonarr: bool, radarr: bool, overseerr: bool, peer: bool, retries: int)

  datatype Decision = Decision(id: int, entityKey: string, kind: string)

  datatype Lookup = LookupFailed | NotFound | Found(dec: Decision)

  /** The outside world's answers during one Execute. None is an error; until is now plus the snooze days. */
  datatype PiEnv = PiEnv(
    snoozeOk: bool, library: Option<seq<Title>>, arrOk: bool, requests: Option<seq<Request>>,
    history: Option<seq<HistoryRecord>>, send: nat -> Try, markOk: bool, now: int, until: int)

  /** lookupSonarrSeries and lookupRadarrMovie: the external id, 0 when unknown. */
  function ExternalId(library: Option<seq<Title>>, id: int): int {
    match library case None => 0 case Some(all) => FirstExternalId(all, id)
  }

  function FirstExternalId(all: seq<Title>, id: int): int {
    if all == [] then 0 else if all[0].id == id then all[0].extId else FirstExternalId(all[1..], id)
  }

  function MediaType(p: Provider): string { if p.Sonarr? then "tv" else "movie" }

  predicate RequestMatches(r: Request, p: Provider, extId: int) {
    r.mediaType == MediaType(p) && (if p.Sonarr? then r.tvdbId else r.tmdbId) == extId
  }

  function Declines(rs: seq<Request>, p: Provider, extId: int): seq<Event> {
    if rs == [] then []
    else if RequestMatches(rs[|rs| - 1], p, extId) then Declines(rs[..|rs| - 1], p, extId) + [Decline(rs[|rs| - 1].id)]
    else Declines(rs[..|rs| - 1], p, extId)
  }

  function OverseerrTrace(cfg: PiConfig, env: PiEnv, ref: Ref): seq<Event> {
    var extId := ExternalId(env.library, ref.id);
    if !cfg.overseerr || extId == 0 then []
    else [ReadRequests] + match env.requests case None => [] case Some(rs) => Declines(rs, ref.provider, extId)
  }

  /** The distinct upper-cased download ids of one entity, in order of first occurrence. */
  function DownloadHashes(recs: seq<HistoryRecord>, id: int): seq<string> {
    if recs == [] then []
    else
      var hs, r := DownloadHashes(recs[..|recs| - 1], id), recs[|recs| - 1];
      if r.mediaId != id || r.downloadId == "" || ToUpper(r.downloadId) in hs then hs else hs + [ToUpper(r.downloadId)]
  }

  function HashesFor(env: PiEnv, id: int): seq<string> {
    match env.history case None => [] case Some(recs) => DownloadHashes(recs, id)
  }

  function HintTrace(cfg: PiConfig, env: PiEnv, entityKey: string, hashes: seq<string>): seq<Event> {
    if !cfg.peer || hashes == [] then []
    else seq(Calls(cfg.retries, env.send), i => Send(Message(QBIT_DELETE, entityKey, Strings(hashes))))
  }

  /** One remediation attempt, then one mark attempt, with the same status. */
  function Finish(dec: Decision, s: Status): seq<Event> { [Remediation(s), Mark(dec.id, s)] }

  predicate Configured(cfg: PiConfig, p: Provider) { if p.Sonarr? then cfg.sonarr else cfg.radarr }

  function DeleteTrace(cfg: PiConfig, dec: Decision, env: PiEnv): seq<Event> {
    if !cfg.actions then Finish(dec, Blocked)
    else match ParseEntityKey(dec.entityKey)
      case None => Finish(dec, Failed)
      case Some(ref) =>
        if !Configured(cfg, ref.provider) then Finish(dec, Failed) else EntityTrace(cfg, dec, ref, env)
  }

  /** executeDeleteSonarr and executeDeleteRadarr past the nil-client test. */
  function EntityTrace(cfg: PiConfig, dec: Decision, ref: Ref, env: PiEnv): seq<Event> {
    [ReadLibrary(ref), ArrDelete(ref, env.arrOk)] +
    if env.arrOk then AfterDelete(cfg, dec, ref, env) + Finish(dec, Executed) else Finish(dec, Failed)
  }

  /** The best-effort steps once the entity is gone from Sonarr or Radarr. */
  function AfterDelete(cfg: PiConfig, dec: Decision, ref: Ref, env: PiEnv): seq<Event> {
    OverseerrTrace(cfg, env, ref) + [ReadHistory(ref, env.history)]
        + HintTrace(cfg, env, dec.entityKey, HashesFor(env, ref.id))
  }

  /** Everything one Execute does to the outside world, in order. */
  function ExecuteTrace(cfg: PiConfig, found: Lookup, env: PiEnv): seq<Event> {
    match found
    case LookupFailed => []
    case NotFound => []
    case Found(dec) =>
      if dec.kind == "keep"
      then [SnoozeEntity(dec.entityKey, env.until), Mark(dec.id, if env.snoozeOk then Executed else Failed)]
      else if dec.kind == "delete" then DeleteTrace(cfg, dec, env)
      else Finish(dec, Failed)
  }

  /** Why an Execute ends in an error: the errors its answer wraps. */
  datatype Cause =
    | StoreError | DecisionNotFound | UnknownKind | SnoozeFailed
    | ActionsDisabled | UnknownEntityKey | NotConfigured | ArrFailed | MarkFailed

  /** What stops a delete, as a function of the gate, the key, the clients present and the *arr answer alone. */
  function DeleteCause(cfg: PiConfig, entityKey: string, arrOk: bool): Option<Cause> {
    if !cfg.actions then Some(ActionsDisabled)
    else match ParseEntityKey(entityKey)
      case None => Some(UnknownEntityKey)
      case Some(ref) =>
        if !Configured(cfg, ref.provider) then Some(NotConfigured) else if !arrOk then Some(ArrFailed) else None
  }

  /** The status stored for a cause. */
  function StatusFor(cause: Option<Cause>): Status {
    match cause case None => Executed case Some(c) => if c.ActionsDisabled? then Blocked else Failed
  }

  function DeleteStatus(cfg: PiConfig, entityKey: string, arrOk: bool): Status {
    StatusFor(DeleteCause(cfg, entityKey, arrOk))
  }

  function CauseOf(cfg: PiConfig, dec: Decision, env: PiEnv): Option<Cause> {
    if dec.kind == "keep" then (if env.snoozeOk then None else Some(SnoozeFailed))
    else if dec.kind == "delete" then DeleteCause(cfg, dec.entityKey, env.arrOk)
    else Some(UnknownKind)
  }

  /** The status one Execute tries to store. */
  function FinalStatus(cfg: PiConfig, dec: Decision, env: PiEnv): Status { StatusFor(CauseOf(cfg, dec, env)) }

  /** What Execute returns: the decision as it now is, executed at an instant and for a keep snoozed until another;
      or an error that is each of the causes. */
  datatype Answer =
    | Done(dec: Decision, executedAt: int, snoozeUntil: Option<int>)
    | Error(causes: set<Cause>)

  /** The answer once the decision has been found: a failed mark joins whatever else went wrong. */
  function Answered(dec: Decision, cause: Option<Cause>, env: PiEnv): Answer {
    var failed := if env.markOk then {} else {MarkFailed};
    match cause
    case Some(c) => Error({c} + failed)
    case None =>
      if env.markOk then Done(dec, env.now, if dec.kind == "keep" then Some(env.until) else None) else Error(failed)
  }

  /** sonarrDownloadHashes and radarrDownloadHashes: no hash twice, and exactly the entity's own. */
  method CollectHashes(recs: seq<HistoryRecord>, id: int) returns (hashes: seq<string>)
    ensures hashes == DownloadHashes(recs, id)
    ensures Distinct(hashes)
    ensures forall h :: h in hashes <==>
        exists r :: r in recs && r.mediaId == id && r.downloadId != "" && ToUpper(r.downloadId) == h
  {
    var seen: set<string> := {};
    hashes := [];
    for n := 0 to |recs|
      invariant hashes == DownloadHashes(recs[..n], id)
      invariant forall h :: h in seen <==> h in hashes
    {
      assert recs[..n + 1][..n] == recs[..n];
      var r := recs[n];
      if r.mediaId != id || r.downloadId == "" { continue; }
      var h := ToUpper(r.downloadId);
      if h in seen { continue; }
      seen := seen + {h};
      hashes := hashes + [h];
    }
    assert recs[..|recs|] == recs;
    HashesDistinct(recs, id);
    forall h { HashOrigin(recs, id, h); }
  }

  /** In order of first occurrence. */
  lemma DownloadHashesSnoc(recs: seq<HistoryRecord>, r: HistoryRecord, id: int)
    ensures DownloadHashes([], id) == []
    ensures DownloadHashes(recs + [r], id) ==
            if r.mediaId == id && r.downloadId != "" && ToUpper(r.downloadId) !in DownloadHashes(recs, id)
            then DownloadHashes(recs, id) + [ToUpper(r.downloadId)] else DownloadHashes(recs, id)
  {
    assert (recs + [r])[..|recs|] == recs;
  }

  lemma {:induction false} HashesDistinct(recs: seq<HistoryRecord>, id: int)
    ensures Distinct(DownloadHashes(recs, id))
  {
    if recs != [] {
      var hs, h := DownloadHashes(recs[..|recs| - 1], id), ToUpper(recs[|recs| - 1].downloadId);
      HashesDistinct(recs[..|recs| - 1], id);
      if h !in hs { AppendDistinct(hs, h); }
      assert DownloadHashes(recs, id) == hs || (h !in hs && DownloadHashes(recs, id) == hs + [h]);
    }
  }

  ghost predicate Distinct(hs: seq<string>) { forall i, j :: 0 <= i < j < |hs| ==> hs[i] != hs[j] }

  lemma AppendDistinct(hs: seq<string>, h: string)
    requires Distinct(hs) && h !in hs
    ensures Distinct(hs + [h])
  {
  }

  lemma {:induction false} HashOrigin(recs: seq<HistoryRecord>, id: int, h: string)
    ensures h in DownloadHashes(recs, id) <==>
        exists r :: r in recs && r.mediaId == id && r.downloadId != "" && ToUpper(r.downloadId) == h
  {
    if recs != [] {
      HashOrigin(recs[..|recs| - 1], id, h);
      assert recs == recs[..|recs| - 1] + [recs[|recs| - 1]];
    }
  }

  lemma Reassociate(a: seq<Event>, b: seq<Event>, c: seq<Event>, d: seq<Event>)
    ensures a + b + c + d == a + (b + (c + d)) && a + b + d == a + (b + d)
  {
  }

  /** The Pi's executor. log is what it has done to the outside world so far. */
  class Executor {
    const cfg: PiConfig
    var log: seq<Event>

    constructor (cfg: PiConfig)
      ensures this.cfg == cfg && log == []
    {
      this.cfg, log := cfg, [];
    }

    /** declineOverseerrRequests. */
    method DeclineOverseerrRequests(env: PiEnv, ref: Ref)
      modifies this
      ensures log == old(log) + OverseerrTrace(cfg, env, ref)
    {
      var extId := ExternalId(env.library, ref.id);
      if !cfg.overseerr || extId == 0 { return; }
      log := log + [ReadRequests];
      if env.requests.None? { return; }
      var rs := env.requests.value;
      for n := 0 to |rs|
        invariant log == old(log) + ([ReadRequests] + Declines(rs[..n], ref.provider, extId))
      {
        assert rs[..n + 1][..n] == rs[..n];
        if !RequestMatches(rs[n], ref.provider, extId) { continue; }
        log := log + [Decline(rs[n].id)];
      }
      assert rs[..|rs|] == rs;
    }

    /** sendQbitDeleteHint, with SendDecision's attempts. */
    method SendQbitDeleteHint(env: PiEnv, entityKey: string, hashes: seq<string>)
      modifies this
      ensures log == old(log) + HintTrace(cfg, env, entityKey, hashes)
    {
      if !cfg.peer || hashes == [] { return; }
      var msg := Message(QBIT_DELETE, entityKey, Strings(hashes));
      var out, calls := DoWithRetry(cfg.retries, env.send);
      for n := 0 to calls
        invariant log == old(log) + seq(n, i => Send(msg))
      {
        log := log + [Send(msg)];
      }
    }

    /** finishDelete (no cause), failDelete and blockDelete, for a decision that is not a keep. */
    method FinishWith(dec: Decision, cause: Option<Cause>, env: PiEnv) returns (answer: Answer)
      requires dec.kind != "keep"
      modifies this
      ensures log == old(log) + Finish(dec, StatusFor(cause))
      ensures answer == Answered(dec, cause, env)
    {
      log := log + [Remediation(StatusFor(cause))];
      log := log + [Mark(dec.id, StatusFor(cause))];
      if cause.Some? {
        answer := Error(if env.markOk then {cause.value} else {cause.value, MarkFailed});
      } else {
        answer := if env.markOk then Done(dec, env.now, None) else Error({MarkFailed});
      }
    }

    method BestEffort(dec: Decision, ref: Ref, env: PiEnv)
      modifies this
      ensures log == old(log) + AfterDelete(cfg, dec, ref, env)
    {
      DeclineOverseerrRequests(env, ref);
      log := log + [ReadHistory(ref, env.history)];
      var hashes := [];
      if env.history.Some? { hashes := CollectHashes(env.history.value, ref.id); }
      SendQbitDeleteHint(env, dec.entityKey, hashes);
    }

    method DeleteEntity(dec: Decision, ref: Ref, env: PiEnv) returns (answer: Answer)
      requires dec.kind != "keep"
      modifies this
      ensures log == old(log) + EntityTrace(cfg, dec, ref, env)
      ensures answer == Answered(dec, if env.arrOk then None else Some(ArrFailed), env)
    {
      log := log + [ReadLibrary(ref)];
      log := log + [ArrDelete(ref, env.arrOk)];
      ghost var head := [ReadLibrary(ref), ArrDelete(ref, env.arrOk)];
      assert log == old(log) + head;
      if !env.arrOk {
        answer := FinishWith(dec, Some(ArrFailed), env);
        Reassociate(old(log), head, [], Finish(dec, Failed));
        return;
      }
      BestEffort(dec, ref, env);
      answer := FinishWith(dec, None, env);
      Reassociate(old(log), head, AfterDelete(cfg, dec, ref, env), Finish(dec, Executed));
    }

    /** executeDelete: the gate first, before any client call. */
    method ExecuteDelete(dec: Decision, env: PiEnv) returns (answer: Answer)
      requires dec.kind != "keep"
      modifies this
      ensures log == old(log) + DeleteTrace(cfg, dec, env)
      ensures answer == Answered(dec, DeleteCause(cfg, dec.entityKey, env.arrOk), env)
    {
      if !cfg.actions {
        answer := FinishWith(dec, Some(ActionsDisabled), env);
        return;
      }
      var parsed := ParseEntityKey(dec.entityKey);
      if parsed.None? {
        answer := FinishWith(dec, Some(UnknownEntityKey), env);
        return;
      }
      if !Configured(cfg, parsed.value.provider) {
        answer := FinishWith(dec, Some(NotConfigured), env);
        return;
      }
      answer := DeleteEntity(dec, parsed.value, env);
    }

    /** Execute. The decision comes back only when it was found, done, and stored as executed; one that was carried
        out but could not be marked, and every blocked or failed one, comes back as an error naming why. */
    method Execute(found: Lookup, env: PiEnv) returns (answer: Answer)
      modifies this
      ensures log == old(log) + ExecuteTrace(cfg, found, env)
      ensures found.LookupFailed? ==> answer == Error({StoreError})
      ensures found.NotFound? ==> answer == Error({DecisionNotFound})
      ensures found.Found? ==> answer == Answered(found.dec, CauseOf(cfg, found.dec, env), env)
      ensures answer.Done? <==> found.Found? && FinalStatus(cfg, found.dec, env) == Executed && env.markOk
    {
      match found
      case LookupFailed => answer := Error({StoreError});
      case NotFound => answer := Error({DecisionNotFound});
      case Found(dec) =>
        if dec.kind == "keep" {
          answer := ExecuteKeep(dec, env);
        } else if dec.kind == "delete" {
          answer := ExecuteDelete(dec, env);
        } else {
          answer := FinishWith(dec, Some(UnknownKind), env);
        }
    }

    /** executeKeep: never looks at the gate. */
    method ExecuteKeep(dec: Decision, env: PiEnv) returns (answer: Answer)
      requires dec.kind == "keep"
      modifies this
      ensures log == old(log) +
                     [SnoozeEntity(dec.entityKey, env.until), Mark(dec.id, if env.snoozeOk then Executed else Failed)]
      ensures answer == Answered(dec, if env.snoozeOk then None else Some(SnoozeFailed), env)
    {
      log := log + [SnoozeEntity(dec.entityKey, env.until)];
      if !env.snoozeOk {
        log := log + [Mark(dec.id, Failed)];
        answer := Error(if env.markOk then {SnoozeFailed} else {SnoozeFailed, MarkFailed});
        return;
      }
      log := log + [Mark(dec.id, Executed)];
      answer := if env.markOk then Done(dec, env.now, Some(env.until)) else Error({MarkFailed});
    }
  }

  /** The last thing one Execute does is its one attempt to store exactly that status, whatever else happened. */
  lemma MarkComesLast(cfg: PiConfig, dec: Decision, env: PiEnv)
    ensures var t := ExecuteTrace(cfg, Found(dec), env);
      && t != [] && t[|t| - 1] == Mark(dec.id, FinalStatus(cfg, dec, env))
      && forall i :: 0 <= i < |t| - 1 ==> !t[i].Mark?
  {
    if dec.kind == "delete" {
      var work, s := DeleteWork(cfg, dec, env), FinalStatus(cfg, dec, env);
      DeleteShape(cfg, dec, env);
      assert forall i :: 0 <= i < |work| ==> work[i] in work;
    }
  }

  // ----- What one Execute can and cannot do -----

  /** The part of a trace that reaches the decisions and remediations tables. */
  function Bookkeeping(es: seq<Event>): seq<Event> {
    if es == [] then []
    else if es[|es| - 1].Mark? || es[|es| - 1].Remediation? then Bookkeeping(es[..|es| - 1]) + [es[|es| - 1]]
    else Bookkeeping(es[..|es| - 1])
  }

  lemma {:induction false} BookkeepingConcat(a: seq<Event>, b: seq<Event>)
    ensures Bookkeeping(a + b) == Bookkeeping(a) + Bookkeeping(b)
  {
    if b == [] {
      assert a + b == a;
    } else {
      BookkeepingConcat(a, b[..|b| - 1]);
      assert (a + b)[..|a + b| - 1] == a + b[..|b| - 1];
    }
  }

  lemma {:induction false} NoBookkeeping(es: seq<Event>)
    requires forall e :: e in es ==> !e.Mark? && !e.Remediation?
    ensures Bookkeeping(es) == []
  {
    if es != [] { NoBookkeeping(es[..|es| - 1]); }
  }

  lemma {:induction false} DeclinesOnly(rs: seq<Request>, p: Provider, extId: int)
    ensures forall e :: e in Declines(rs, p, extId) ==> e.Decline?
  {
    if rs != [] { DeclinesOnly(rs[..|rs| - 1], p, extId); }
  }

  lemma OverseerrOnly(cfg: PiConfig, env: PiEnv, ref: Ref)
    ensures forall e :: e in OverseerrTrace(cfg, env, ref) ==> e.ReadRequests? || e.Decline?
  {
    if env.requests.Some? { DeclinesOnly(env.requests.value, ref.provider, ExternalId(env.library, ref.id)); }
  }

  /** What a delete does between its bookkeeping: everything but the last two events. */
  function DeleteWork(cfg: PiConfig, dec: Decision, env: PiEnv): seq<Event> {
    if !cfg.actions then []
    else match ParseEntityKey(dec.entityKey)
      case None => []
      case Some(ref) =>
        if !Configured(cfg, ref.provider) then []
        else EntityWork(cfg, dec, ref, env)
  }

  function EntityWork(cfg: PiConfig, dec: Decision, ref: Ref, env: PiEnv): seq<Event> {
    [ReadLibrary(ref), ArrDelete(ref, env.arrOk)] + if env.arrOk then AfterDelete(cfg, dec, ref, env) else []
  }

  lemma DeleteShape(cfg: PiConfig, dec: Decision, env: PiEnv)
    ensures DeleteTrace(cfg, dec, env) ==
        DeleteWork(cfg, dec, env) + Finish(dec, DeleteStatus(cfg, dec.entityKey, env.arrOk))
    ensures forall e :: e in DeleteWork(cfg, dec, env) ==>
        !e.Mark? && !e.Remediation? && !e.Inbound? && !e.QbitDelete? && cfg.actions
  {
    DeleteWorkEvents(cfg, dec, env);
    if cfg.actions && ParseEntityKey(dec.entityKey).Some? {
      EntityShape(cfg, dec, ParseEntityKey(dec.entityKey).value, env);
    }
  }

  lemma DeleteWorkEvents(cfg: PiConfig, dec: Decision, env: PiEnv)
    ensures forall e :: e in DeleteWork(cfg, dec, env) ==>
        !e.Mark? && !e.Remediation? && !e.Inbound? && !e.QbitDelete? && cfg.actions
  {
    if cfg.actions && ParseEntityKey(dec.entityKey).Some? {
      EntityWorkEvents(cfg, dec, ParseEntityKey(dec.entityKey).value, env);
    }
  }

  lemma EntityWorkEvents(cfg: PiConfig, dec: Decision, ref: Ref, env: PiEnv)
    ensures forall e :: e in EntityWork(cfg, dec, ref, env) ==>
        !e.Mark? && !e.Remediation? && !e.Inbound? && !e.QbitDelete?
  {
    AfterDeleteEvents(cfg, dec, ref, env);
  }

  lemma AfterDeleteEvents(cfg: PiConfig, dec: Decision, ref: Ref, env: PiEnv)
    ensures forall e :: e in AfterDelete(cfg, dec, ref, env) ==>
        e.ReadRequests? || e.Decline? || e.ReadHistory? || e.Send?
  {
    OverseerrOnly(cfg, env, ref);
    HintOnly(cfg, env, dec.entityKey, HashesFor(env, ref.id));
  }

  lemma HintOnly(cfg: PiConfig, env: PiEnv, entityKey: string, hashes: seq<string>)
    ensures forall e :: e in HintTrace(cfg, env, entityKey, hashes) ==> e.Send?
  {
  }

  lemma EntityShape(cfg: PiConfig, dec: Decision, ref: Ref, env: PiEnv)
    ensures EntityTrace(cfg, dec, ref, env) ==
            EntityWork(cfg, dec, ref, env) + Finish(dec, if env.arrOk then Executed else Failed)
  {
    var head := [ReadLibrary(ref), ArrDelete(ref, env.arrOk)];
    assert head + [] == head;
  }

  /** Best-effort steps cannot interfere: for every answer of the lookups, Overseerr, history and the peer,
      one remediation attempt and one mark attempt are made, both with the status DeleteStatus gives. */
  lemma DeleteBookkeeping(cfg: PiConfig, dec: Decision, env: PiEnv)
    requires dec.kind == "delete"
    ensures var s := DeleteStatus(cfg, dec.entityKey, env.arrOk);
      Bookkeeping(ExecuteTrace(cfg, Found(dec), env)) == [Remediation(s), Mark(dec.id, s)]
  {
    var s := DeleteStatus(cfg, dec.entityKey, env.arrOk);
    DeleteShape(cfg, dec, env);
    NoBookkeeping(DeleteWork(cfg, dec, env));
    BookkeepingConcat(DeleteWork(cfg, dec, env), Finish(dec, s));
    BookkeepingConcat([Remediation(s)], [Mark(dec.id, s)]);
    assert Finish(dec, s) == [Remediation(s)] + [Mark(dec.id, s)];
  }

  /** Two executions of one decision that agree on the *arr answer agree on everything they record. */
  lemma BestEffortCannotInterfere(cfg: PiConfig, dec: Decision, env: PiEnv, env': PiEnv)
    requires dec.kind == "delete" && env.arrOk == env'.arrOk
    ensures Bookkeeping(ExecuteTrace(cfg, Found(dec), env)) == Bookkeeping(ExecuteTrace(cfg, Found(dec), env'))
  {
    DeleteBookkeeping(cfg, dec, env);
    DeleteBookkeeping(cfg, dec, env');
  }

  lemma {:induction false} DeclinesExact(rs: seq<Request>, p: Provider, extId: int, id: int)
    ensures Decline(id) in Declines(rs, p, extId) <==> exists r :: r in rs && RequestMatches(r, p, extId) && r.id == id
  {
    if rs != [] {
      DeclinesExact(rs[..|rs| - 1], p, extId, id);
      assert rs == rs[..|rs| - 1] + [rs[|rs| - 1]];
    }
  }

  /** Where the events of an executed delete come from. */
  lemma ExecutedEvents(cfg: PiConfig, dec: Decision, ref: Ref, env: PiEnv)
    requires dec.kind == "delete" && ParseEntityKey(dec.entityKey) == Some(ref)
    requires DeleteStatus(cfg, dec.entityKey, env.arrOk) == Executed
    ensures var t := ExecuteTrace(cfg, Found(dec), env);
      forall e :: e in t <==>
        e in [ReadLibrary(ref), ArrDelete(ref, true)] || e in OverseerrTrace(cfg, env, ref)
            || e in [ReadHistory(ref, env.history)]
        || e in HintTrace(cfg, env, dec.entityKey, HashesFor(env, ref.id)) || e in Finish(dec, Executed)
  {
    InParts([ReadLibrary(ref), ArrDelete(ref, true)], OverseerrTrace(cfg, env, ref), [ReadHistory(ref, env.history)],
            HintTrace(cfg, env, dec.entityKey, HashesFor(env, ref.id)), Finish(dec, Executed));
  }

  /** An executed delete looks the entity up, deletes it, and deletes nothing else. */
  lemma DeleteComesSecond(cfg: PiConfig, dec: Decision, ref: Ref, env: PiEnv)
    requires dec.kind == "delete" && ParseEntityKey(dec.entityKey) == Some(ref)
    requires DeleteStatus(cfg, dec.entityKey, env.arrOk) == Executed
    ensures var t := ExecuteTrace(cfg, Found(dec), env);
      && |t| >= 2 && t[0] == ReadLibrary(ref) && t[1] == ArrDelete(ref, true)
      && forall e :: e in t && e.ArrDelete? ==> e == t[1]
  {
    ExecutedEvents(cfg, dec, ref, env);
    OverseerrOnly(cfg, env, ref);
  }

  /** The first title of a library with an id. */
  predicate FirstTitle(all: seq<Title>, id: int, i: nat) {
    i < |all| && all[i].id == id && forall j :: 0 <= j < i ==> all[j].id != id
  }

  /** The external id looked up is that of the first title with the entity's id, and 0 when there is none. */
  lemma {:induction false} LookedUp(all: seq<Title>, id: int)
    ensures forall i: nat :: FirstTitle(all, id, i) ==> ExternalId(Some(all), id) == all[i].extId
    ensures (forall t :: t in all ==> t.id != id) ==> ExternalId(Some(all), id) == 0
    ensures ExternalId(None, id) == 0
  {
    if all != [] && all[0].id != id {
      LookedUp(all[1..], id);
      forall i: nat | FirstTitle(all, id, i) ensures ExternalId(Some(all), id) == all[i].extId {
        assert FirstTitle(all[1..], id, i - 1);
      }
    }
  }

  /** The first title with an id exists when any does. */
  lemma {:induction false} FirstTitleExists(all: seq<Title>, id: int) returns (i: nat)
    requires exists t :: t in all && t.id == id
    ensures FirstTitle(all, id, i)
  {
    if all[0].id == id {
      i := 0;
    } else {
      assert all == [all[0]] + all[1..];
      var k := FirstTitleExists(all[1..], id);
      i := k + 1;
    }
  }

  /** Is this a request for the title: of the provider's media type, under the provider's external id? */
  predicate RequestFor(r: Request, p: Provider, extId: int) {
    match p
    case Sonarr => r.mediaType == "tv" && r.tvdbId == extId
    case Radarr => r.mediaType == "movie" && r.tmdbId == extId
  }

  /** What a delete looks up for its requests: a known title with an external id. */
  ghost predicate Identified(library: Option<seq<Title>>, id: int, extId: int) {
    library.Some? && extId != 0 && exists i: nat :: FirstTitle(library.value, id, i) && library.value[i].extId == extId
  }

  /** It declines exactly the requests for the entity it deleted: the first title with its id gives the external
      id, and none is declined without a client, a title, an external id or an answer. */
  lemma DeclinesMade(cfg: PiConfig, dec: Decision, ref: Ref, env: PiEnv, id: int)
    requires dec.kind == "delete" && ParseEntityKey(dec.entityKey) == Some(ref)
    requires DeleteStatus(cfg, dec.entityKey, env.arrOk) == Executed
    ensures Decline(id) in ExecuteTrace(cfg, Found(dec), env) <==>
            cfg.overseerr && env.requests.Some? && exists r, extId ::
              r in env.requests.value && r.id == id
              && Identified(env.library, ref.id, extId) && RequestFor(r, ref.provider, extId)
  {
    ExecutedEvents(cfg, dec, ref, env);
    OverseerrDeclines(cfg, env, ref, id);
    IdentifiedExactly(env.library, ref.id);
    if env.requests.Some? {
      var extId := ExternalId(env.library, ref.id);
      assert forall r: Request :: RequestMatches(r, ref.provider, extId) <==> RequestFor(r, ref.provider, extId);
    }
  }

  lemma IdentifiedExactly(library: Option<seq<Title>>, id: int)
    ensures forall extId :: Identified(library, id, extId) <==> extId != 0 && extId == ExternalId(library, id)
  {
    if library.Some? {
      LookedUp(library.value, id);
      if exists t :: t in library.value && t.id == id { var i := FirstTitleExists(library.value, id); }
    }
  }

  lemma OverseerrDeclines(cfg: PiConfig, env: PiEnv, ref: Ref, id: int)
    ensures Decline(id) in OverseerrTrace(cfg, env, ref) <==>
            cfg.overseerr && ExternalId(env.library, ref.id) != 0 && env.requests.Some? &&
            exists r :: r in env.requests.value && RequestMatches(r, ref.provider, ExternalId(env.library, ref.id))
                && r.id == id
  {
    if env.requests.Some? { DeclinesExact(env.requests.value, ref.provider, ExternalId(env.library, ref.id), id); }
  }

  /** One decline for each such request, in the order Overseerr lists them. */
  lemma DeclinesInOrder(rs: seq<Request>, r: Request, p: Provider, extId: int)
    ensures Declines([], p, extId) == []
    ensures Declines(rs + [r], p, extId) ==
            Declines(rs, p, extId) + (if RequestFor(r, p, extId) then [Decline(r.id)] else [])
  {
    assert (rs + [r])[..|rs|] == rs;
    assert Declines(rs, p, extId) + [] == Declines(rs, p, extId);
  }

  /** The whole story of an executed delete: lookup, delete, then requests if they are asked for at all, then the
      history, then the messages to the peer, then the bookkeeping. */
  lemma DeleteStory(cfg: PiConfig, dec: Decision, ref: Ref, env: PiEnv)
    returns (declines: seq<Event>, sends: seq<Event>)
    requires dec.kind == "delete" && ParseEntityKey(dec.entityKey) == Some(ref)
    requires DeleteStatus(cfg, dec.entityKey, env.arrOk) == Executed
    ensures ExecuteTrace(cfg, Found(dec), env) ==
            [ReadLibrary(ref), ArrDelete(ref, true)] + declines + [ReadHistory(ref, env.history)] + sends
            + [Remediation(Executed), Mark(dec.id, Executed)]
    ensures declines == [] || (declines[0] == ReadRequests && forall e :: e in declines[1..] ==> e.Decline?)
    ensures declines != [] <==> cfg.overseerr && exists extId :: Identified(env.library, ref.id, extId)
    ensures forall e :: e in sends ==> e.Send?
    ensures |sends| == if cfg.peer && HashesFor(env, ref.id) != [] then Calls(cfg.retries, env.send) else 0
  {
    declines, sends := OverseerrTrace(cfg, env, ref), HintTrace(cfg, env, dec.entityKey, HashesFor(env, ref.id));
    IdentifiedExactly(env.library, ref.id);
    if env.requests.Some? { DeclinesOnly(env.requests.value, ref.provider, ExternalId(env.library, ref.id)); }
    if declines != [] { assert Identified(env.library, ref.id, ExternalId(env.library, ref.id)); }
    HintOnly(cfg, env, dec.entityKey, HashesFor(env, ref.id));
    StoryRegrouped([ReadLibrary(ref), ArrDelete(ref, true)], declines, [ReadHistory(ref, env.history)], sends,
                   Finish(dec, Executed));
  }

  lemma StoryRegrouped(a: seq<Event>, b: seq<Event>, c: seq<Event>, d: seq<Event>, e: seq<Event>)
    ensures a + ((b + c + d) + e) == a + b + c + d + e
  {
  }

  /** And of every other: nothing but the bookkeeping, unless it got as far as the *arr delete that failed; and
      nothing at all for a decision that was not found. */
  lemma UnexecutedStory(cfg: PiConfig, dec: Decision, env: PiEnv)
    requires dec.kind == "delete" && DeleteStatus(cfg, dec.entityKey, env.arrOk) != Executed
    ensures var t, key := ExecuteTrace(cfg, Found(dec), env), ParseEntityKey(dec.entityKey);
      var s := if cfg.actions then Failed else Blocked;
      var end := [Remediation(s), Mark(dec.id, s)];
      if cfg.actions && key.Some? && (if key.value.provider.Sonarr? then cfg.sonarr else cfg.radarr)
      then t == [ReadLibrary(key.value), ArrDelete(key.value, false)] + end
      else t == end
    ensures ExecuteTrace(cfg, LookupFailed, env) == [] && ExecuteTrace(cfg, NotFound, env) == []
  {
  }

  /** Which deletes are executed, blocked and failed, by the gate, the key, the client and the *arr answer. */
  lemma DeleteOutcome(cfg: PiConfig, entityKey: string, arrOk: bool)
    ensures DeleteStatus(cfg, entityKey, arrOk) == Blocked <==> !cfg.actions
    ensures DeleteStatus(cfg, entityKey, arrOk) == Executed <==>
            cfg.actions && arrOk && ParseEntityKey(entityKey).Some?
            && (ParseEntityKey(entityKey).value.provider == Sonarr ==> cfg.sonarr)
            && (ParseEntityKey(entityKey).value.provider == Radarr ==> cfg.radarr)
  {
  }

  /** Why an Execute returns an error, cause by cause. */
  lemma CausesExactly(cfg: PiConfig, dec: Decision, env: PiEnv)
    ensures var answer := Answered(dec, CauseOf(cfg, dec, env), env);
      var causes := if answer.Error? then answer.causes else {};
      var key := ParseEntityKey(dec.entityKey);
      && (answer.Error? <==> causes != {})
      && (MarkFailed in causes <==> !env.markOk)
      && (UnknownKind in causes <==> dec.kind != "keep" && dec.kind != "delete")
      && (SnoozeFailed in causes <==> dec.kind == "keep" && !env.snoozeOk)
      && (ActionsDisabled in causes <==> dec.kind == "delete" && !cfg.actions)
      && (UnknownEntityKey in causes <==> dec.kind == "delete" && cfg.actions && key.None?)
      && (NotConfigured in causes <==>
            && dec.kind == "delete" && cfg.actions && key.Some?
            && if key.value.provider.Sonarr? then !cfg.sonarr else !cfg.radarr)
      && (ArrFailed in causes <==>
            && dec.kind == "delete" && cfg.actions && key.Some? && !env.arrOk
            && if key.value.provider.Sonarr? then cfg.sonarr else cfg.radarr)
      && StoreError !in causes && DecisionNotFound !in causes
      && (answer.Done? ==> answer == Done(dec, env.now, if dec.kind == "keep" then Some(env.until) else None))
  {
  }

  /** It sends the peer exactly the hashes of the history, and does send unless there is no peer, nothing to
      delete, or no attempt to make. */
  lemma HintSent(cfg: PiConfig, dec: Decision, ref: Ref, env: PiEnv, msg: Message)
    requires dec.kind == "delete" && ParseEntityKey(dec.entityKey) == Some(ref)
    requires DeleteStatus(cfg, dec.entityKey, env.arrOk) == Executed
    ensures Send(msg) in ExecuteTrace(cfg, Found(dec), env) <==>
            cfg.peer && HashesFor(env, ref.id) != [] && Calls(cfg.retries, env.send) > 0 &&
            msg == Message(QBIT_DELETE, dec.entityKey, Strings(HashesFor(env, ref.id)))
  {
    ExecutedEvents(cfg, dec, ref, env);
    OverseerrOnly(cfg, env, ref);
    HintMembers(cfg, env, dec.entityKey, HashesFor(env, ref.id), msg);
  }

  lemma HintMembers(cfg: PiConfig, env: PiEnv, entityKey: string, hashes: seq<string>, msg: Message)
    ensures Send(msg) in HintTrace(cfg, env, entityKey, hashes) <==>
            cfg.peer && hashes != [] && Calls(cfg.retries, env.send) > 0 &&
            msg == Message(QBIT_DELETE, entityKey, Strings(hashes))
  {
    var hint := HintTrace(cfg, env, entityKey, hashes);
    if cfg.peer && hashes != [] && Calls(cfg.retries, env.send) > 0 {
      assert hint[0] in hint && forall i :: 0 <= i < |hint| ==> hint[i] == hint[0];
    }
  }

  lemma InParts(a: seq<Event>, b: seq<Event>, c: seq<Event>, d: seq<Event>, f: seq<Event>)
    ensures forall e :: e in a + (b + c + d + f) <==> e in a || e in b || e in c || e in d || e in f
    ensures forall e :: e in b + c + d + f <==> e in b || e in c || e in d || e in f
  {
  }

  /** A keep makes one mark and no remediation, and touches nothing but the snooze; any other kind only fails. */
  lemma OtherKindsBookkeeping(cfg: PiConfig, dec: Decision, env: PiEnv)
    requires dec.kind != "delete"
    ensures var t := ExecuteTrace(cfg, Found(dec), env);
      && (forall e :: e in t ==> !IsWrite(e))
      && Bookkeeping(t) == (if dec.kind == "keep" then [Mark(dec.id, if env.snoozeOk then Executed else Failed)]
                            else [Remediation(Failed), Mark(dec.id, Failed)])
      && (dec.kind == "keep" ==>
            t == [SnoozeEntity(dec.entityKey, env.until), Mark(dec.id, if env.snoozeOk then Executed else Failed)])
      && (dec.kind != "keep" ==> t == [Remediation(Failed), Mark(dec.id, Failed)])
  {
    var t := ExecuteTrace(cfg, Found(dec), env);
    assert t[..2] == t && t[..1] == [t[0]] && t[..1][..0] == [];
    BookkeepingConcat([t[0]], [t[1]]);
    assert t == [t[0]] + [t[1]];
  }

  /** Every call that changes the stack, or asks the peer to, is made with the actions gate on. */
  lemma WritesNeedGate(cfg: PiConfig, found: Lookup, env: PiEnv, e: Event)
    requires e in ExecuteTrace(cfg, found, env) && IsWrite(e)
    ensures cfg.actions
  {
    match found
    case Found(dec) =>
      if dec.kind == "delete" { DeleteShape(cfg, dec, env); } else { OtherKindsBookkeeping(cfg, dec, env); }
  }

  // ----- The NAS -----

  datatype NasConfig = NasConfig(actions: bool, qbit: bool)
  datatype NasEnv = NasEnv(recordOk: bool, depsOk: bool, deleteOk: bool)

  /** JSON turns a []string into a []any of strings. */
  function Wire(m: Message): Message {
    match m.payload
    case Strings(hs) => m.(payload := Items(seq(|hs|, i requires 0 <= i < |hs| => Str(hs[i]))))
    case _ => m
  }

  function ItemStrings(items: seq<JsonItem>): seq<string> {
    if items == [] then []
    else ItemStrings(items[..|items| - 1]) + match items[|items| - 1] case Str(s) => [s] case NotStr => []
  }

  function HashesIn(p: Payload): seq<string> {
    match p case NoHashes => [] case Strings(hs) => hs case Items(items) => ItemStrings(items)
  }

  /** hashesFromPayload. */
  method HashesFromPayload(p: Payload) returns (out: seq<string>)
    ensures out == HashesIn(p)
  {
    out := [];
    match p
    case NoHashes =>
    case Strings(hs) => out := hs;
    case Items(items) =>
      for n := 0 to |items|
        invariant out == ItemStrings(items[..n])
      {
        assert items[..n + 1][..n] == items[..n];
        match items[n]
        case Str(s) => out := out + [s];
        case NotStr =>
      }
      assert items[..|items|] == items;
  }

  /** The hashes that arrive are the hashes that were sent, in order. */
  lemma {:induction false} HashesSurviveWire(m: Message, hs: seq<string>)
    requires m.payload == Strings(hs)
    ensures HashesIn(Wire(m).payload) == hs
    decreases |hs|
  {
    if hs != [] {
      var rest := m.(payload := Strings(hs[..|hs| - 1]));
      HashesSurviveWire(rest, hs[..|hs| - 1]);
      assert Wire(m).payload.items[..|hs| - 1] == Wire(rest).payload.items;
    } else {
      assert Wire(m).payload.items == [];
    }
  }

  function QbitDeleteTrace(cfg: NasConfig, msg: Message, env: NasEnv): seq<Event> {
    if !cfg.actions then [Remediation(Blocked)]
    else if HashesIn(msg.payload) == [] || !env.depsOk || !cfg.qbit then [Remediation(Failed)]
    else [QbitDelete(HashesIn(msg.payload), env.deleteOk), Remediation(if env.deleteOk then Executed else Failed)]
  }

  /** Everything one ReceiveDecision does, in order. */
  function ReceiveTrace(cfg: NasConfig, msg: Message, env: NasEnv): seq<Event> {
    if !env.recordOk then [Inbound(msg, false)]
    else [Inbound(msg, true)] + if msg.kind == QBIT_DELETE then QbitDeleteTrace(cfg, msg, env) else []
  }

  class Receiver {
    const cfg: NasConfig
    var log: seq<Event>

    constructor (cfg: NasConfig)
      ensures this.cfg == cfg && log == []
    {
      this.cfg, log := cfg, [];
    }

    method ExecuteQbitDelete(msg: Message, env: NasEnv)
      modifies this
      ensures log == old(log) + QbitDeleteTrace(cfg, msg, env)
    {
      if !cfg.actions {
        log := log + [Remediation(Blocked)];
        return;
      }
      var hashes := HashesFromPayload(msg.payload);
      if |hashes| == 0 || !env.depsOk || !cfg.qbit {
        log := log + [Remediation(Failed)];
        return;
      }
      log := log + [QbitDelete(hashes, env.deleteOk)];
      log := log + [Remediation(if env.deleteOk then Executed else Failed)];
    }

    /** ReceiveDecision; only a failure to record the message is reported back. */
    method ReceiveDecision(msg: Message, env: NasEnv) returns (ok: bool)
      modifies this
      ensures log == old(log) + ReceiveTrace(cfg, msg, env)
      ensures ok == env.recordOk
    {
      log := log + [Inbound(msg, env.recordOk)];
      ok := env.recordOk;
      if ok && msg.kind == QBIT_DELETE { ExecuteQbitDelete(msg, env); }
    }
  }

  // ----- What the NAS does with a message -----

  /** What arrives as hashes: the strings of a list in order, other items dropped; nothing else counts as a list. */
  lemma HashesRead(a: seq<JsonItem>, b: seq<JsonItem>, s: string, hs: seq<string>)
    ensures HashesIn(Items(a + b)) == HashesIn(Items(a)) + HashesIn(Items(b))
    ensures HashesIn(Items([Str(s)])) == [s] && HashesIn(Items([NotStr])) == [] && HashesIn(Items([])) == []
    ensures HashesIn(Strings(hs)) == hs && HashesIn(NoHashes) == []
  {
    OneItem(Str(s));
    OneItem(NotStr);
    ItemStringsConcat(a, b);
  }

  lemma OneItem(item: JsonItem)
    ensures ItemStrings([item]) == if item.Str? then [item.s] else []
  {
    assert [item][..0] == [];
    assert ItemStrings([item][..0]) == [];
  }

  lemma {:induction false} ItemStringsConcat(a: seq<JsonItem>, b: seq<JsonItem>)
    ensures ItemStrings(a + b) == ItemStrings(a) + ItemStrings(b)
  {
    if b == [] {
      assert a + b == a;
    } else {
      ItemStringsConcat(a, b[..|b| - 1]);
      assert (a + b)[..|a + b| - 1] == a + b[..|b| - 1];
    }
  }

  /** One received message, whole. It is recorded first, and only a recorded qbit_delete goes further; torrents are
      deleted exactly with the gate on, a client, the dependencies and at least one hash, and what is recorded as the
      outcome is blocked behind a closed gate, executed after a delete that worked, and failed otherwise. */
  lemma ReceiveStory(cfg: NasConfig, msg: Message, env: NasEnv)
    ensures var t, hashes := ReceiveTrace(cfg, msg, env), HashesIn(msg.payload);
      var acted := env.recordOk && msg.kind == "qbit_delete";
      var deletes := acted && cfg.actions && cfg.qbit && env.depsOk && hashes != [];
      && t[0] == Inbound(msg, env.recordOk)
      && |t| == 1 + (if acted then 1 else 0) + (if deletes then 1 else 0)
      && (deletes ==> t[1] == QbitDelete(hashes, env.deleteOk))
      && (acted ==> t[|t| - 1] == Remediation(
            if !cfg.actions then Blocked else if deletes && env.deleteOk then Executed else Failed))
  {
  }
}
