/** The two-node delete protocol as a state machine: any number of Execute calls on the Pi and of
    ReceiveDecision calls on the NAS run interleaved, one event at a time. A delivery attempt may be lost,
    delivered late, or delivered although the Pi saw an error; a thread that is never advanced again has crashed. */
module Protocol {
  import opened Text
  import opened Retry
  import opened Decisions

  /** A NAS thread handles the delivery of the Send event at log position source. */
  datatype Thread =
    | PiRun(pi: PiConfig, found: Lookup, env: PiEnv)
    | NasRun(nas: NasConfig, msg: Message, nasEnv: NasEnv, source: nat)

  function Trace(th: Thread): seq<Event> {
    match th
    case PiRun(cfg, found, env) => ExecuteTrace(cfg, found, env)
    case NasRun(cfg, msg, env, _) => ReceiveTrace(cfg, msg, env)
  }

  datatype Entry = Entry(tid: nat, ev: Event)

  /** plan[t] is the trace of thread t, pos[t] how many of its events have happened; log is what happened, in order. */
  datatype World = World(threads: seq<Thread>, plan: seq<seq<Event>>, pos: seq<nat>, log: seq<Entry>)

  datatype Step =
    | Start(pi: PiConfig, found: Lookup, env: PiEnv)
    | Deliver(k: nat, nas: NasConfig, nasEnv: NasEnv)
    | Advance(tid: nat)

  /** The network delivers one attempt at most once. */
  ghost predicate Undelivered(w: World, k: nat) {
    forall n :: 0 <= n < |w.threads| && w.threads[n].NasRun? ==> w.threads[n].source != k
  }

  ghost predicate Enabled(w: World, s: Step) {
    match s
    case Start(_, _, _) => true
    case Deliver(k, _, _) => k < |w.log| && w.log[k].ev.Send? && Undelivered(w, k)
    case Advance(t) => t < |w.plan| == |w.pos| && w.pos[t] < |w.plan[t]|
  }

  /** A step that is not enabled does nothing. */
  ghost function Take(w: World, s: Step): World {
    if !Enabled(w, s) then w
    else match s
      case Start(cfg, found, env) => Spawn(w, PiRun(cfg, found, env))
      case Deliver(k, cfg, env) => Spawn(w, NasRun(cfg, Wire(w.log[k].ev.msg), env, k))
      case Advance(t) => w.(pos := w.pos[t := w.pos[t] + 1], log := w.log + [Entry(t, w.plan[t][w.pos[t]])])
  }

  ghost function Spawn(w: World, th: Thread): World {
    w.(threads := w.threads + [th], plan := w.plan + [Trace(th)], pos := w.pos + [0])
  }

  ghost function Reach(steps: seq<Step>): World {
    if steps == [] then World([], [], [], []) else Take(Reach(steps[..|steps| - 1]), steps[|steps| - 1])
  }

  /** The events of one thread, in log order. */
  function Of(log: seq<Entry>, t: nat): seq<Event> {
    if log == [] then []
    else if log[|log| - 1].tid == t then Of(log[..|log| - 1], t) + [log[|log| - 1].ev]
    else Of(log[..|log| - 1], t)
  }

  // ----- The invariant -----

  ghost predicate InStep(w: World, t: nat)
    requires t < |w.plan| == |w.pos|
  {
    w.pos[t] <= |w.plan[t]| && Of(w.log, t) == w.plan[t][..w.pos[t]]
  }

  /** A NAS thread works on a message that was sent, and everything it does comes after the sending. */
  ghost predicate Sourced(w: World, t: nat)
    requires t < |w.threads|
  {
    w.threads[t].NasRun? ==>
      && w.threads[t].source < |w.log|
      && w.log[w.threads[t].source].ev.Send?
      && w.threads[t].msg == Wire(w.log[w.threads[t].source].ev.msg)
      && forall j :: 0 <= j < |w.log| && w.log[j].tid == t ==> w.threads[t].source < j
  }

  ghost predicate DistinctSources(w: World) {
    forall m, n :: 0 <= m < n < |w.threads| && w.threads[m].NasRun? && w.threads[n].NasRun? ==>
      w.threads[m].source != w.threads[n].source
  }

  ghost predicate Inv(w: World) {
    && |w.threads| == |w.pos| == |w.plan|
    && (forall t :: 0 <= t < |w.threads| ==> w.plan[t] == Trace(w.threads[t]))
    && (forall j :: 0 <= j < |w.log| ==> w.log[j].tid < |w.threads|)
    && (forall t :: 0 <= t < |w.threads| ==> InStep(w, t))
    && (forall t :: 0 <= t < |w.threads| ==> Sourced(w, t))
    && DistinctSources(w)
  }

  lemma {:induction false} OfNobody(log: seq<Entry>, t: nat)
    requires forall j :: 0 <= j < |log| ==> log[j].tid != t
    ensures Of(log, t) == []
  {
    if log != [] { OfNobody(log[..|log| - 1], t); }
  }

  lemma SpawnKeepsInv(w: World, th: Thread)
    requires Inv(w)
    requires th.NasRun? ==>
      && th.source < |w.log| && w.log[th.source].ev.Send? && Undelivered(w, th.source)
      && th.msg == Wire(w.log[th.source].ev.msg)
    ensures Inv(Spawn(w, th))
  {
    var v := Spawn(w, th);
    OfNobody(w.log, |w.threads|);
    forall t | 0 <= t < |v.threads| ensures InStep(v, t) && Sourced(v, t) {
      if t < |w.threads| { assert InStep(w, t) && Sourced(w, t); }
    }
  }

  lemma OfAppend(log: seq<Entry>, e: Entry, t: nat)
    ensures Of(log + [e], t) == if e.tid == t then Of(log, t) + [e.ev] else Of(log, t)
  {
    assert (log + [e])[..|log|] == log;
  }

  /** One event further: thread t's own record grows by that event, every other thread's stays. */
  lemma AdvanceInStep(w: World, t: nat, u: nat)
    requires Enabled(w, Advance(t)) && u < |w.plan| && InStep(w, u)
    ensures InStep(Take(w, Advance(t)), u)
  {
    OfAppend(w.log, Entry(t, w.plan[t][w.pos[t]]), u);
    assert w.plan[t][..w.pos[t]] + [w.plan[t][w.pos[t]]] == w.plan[t][..w.pos[t] + 1];
  }

  lemma AdvanceSourced(w: World, v: World, e: Entry, u: nat)
    requires u < |w.threads| && v.threads == w.threads && v.log == w.log + [e] && Sourced(w, u)
    ensures Sourced(v, u)
  {
  }

  lemma AdvanceKeepsInv(w: World, t: nat)
    requires Inv(w) && Enabled(w, Advance(t))
    ensures Inv(Take(w, Advance(t)))
  {
    var v := Take(w, Advance(t));
    forall u | 0 <= u < |v.threads| ensures InStep(v, u) && Sourced(v, u) {
      AdvanceInStep(w, t, u);
      AdvanceSourced(w, v, Entry(t, w.plan[t][w.pos[t]]), u);
    }
  }

  lemma {:induction false} ReachableInv(steps: seq<Step>)
    ensures Inv(Reach(steps))
  {
    if steps != [] {
      ReachableInv(steps[..|steps| - 1]);
      var w, s := Reach(steps[..|steps| - 1]), steps[|steps| - 1];
      if Enabled(w, s) {
        match s
        case Start(cfg, found, env) => SpawnKeepsInv(w, PiRun(cfg, found, env));
        case Deliver(k, cfg, env) => SpawnKeepsInv(w, NasRun(cfg, Wire(w.log[k].ev.msg), env, k));
        case Advance(t) => AdvanceKeepsInv(w, t);
      }
    }
  }

  // ----- From a thread's order to the log's order -----

  lemma {:induction false} OfGrows(log: seq<Entry>, t: nat, i: nat)
    requires i <= |log|
    ensures |Of(log[..i], t)| <= |Of(log, t)| && Of(log, t)[..|Of(log[..i], t)|] == Of(log[..i], t)
  {
    if i < |log| {
      OfGrows(log[..|log| - 1], t, i);
      assert log[..|log| - 1][..i] == log[..i];
    } else {
      assert log[..i] == log;
    }
  }

  /** The m-th event of a thread sits somewhere in the log. */
  lemma {:induction false} Locate(log: seq<Entry>, t: nat, m: nat) returns (j: nat)
    requires m < |Of(log, t)|
    ensures j < |log| && log[j] == Entry(t, Of(log, t)[m]) && |Of(log[..j], t)| == m
  {
    var rest := log[..|log| - 1];
    if m < |Of(rest, t)| {
      j := Locate(rest, t, m);
      assert rest[..j] == log[..j];
    } else {
      j := |log| - 1;
    }
  }

  /** Whatever a thread does before its event at log position i happened before i in the log. */
  lemma EarlierInLog(w: World, i: nat, m: nat) returns (j: nat)
    requires Inv(w) && i < |w.log|
    requires m < |Of(w.log[..i], w.log[i].tid)|
    ensures j < i && w.log[j].tid == w.log[i].tid
    ensures m < |Trace(w.threads[w.log[i].tid])| && w.log[j].ev == Trace(w.threads[w.log[i].tid])[m]
    ensures |Of(w.log[..j], w.log[i].tid)| == m
  {
    var t := w.log[i].tid;
    OfGrows(w.log, t, i);
    assert InStep(w, t);
    j := Locate(w.log[..i], t, m);
    assert w.log[..i][..j] == w.log[..j];
  }

  /** The event at log position i is the thread's own event number |Of(log[..i])|. */
  lemma ThreadIndex(w: World, i: nat)
    requires Inv(w) && i < |w.log|
    ensures var t := w.log[i].tid; var m := |Of(w.log[..i], t)|;
      m < |Trace(w.threads[t])| && Trace(w.threads[t])[m] == w.log[i].ev
  {
    var t := w.log[i].tid;
    OwnEvent(w.log, t, i);
    assert InStep(w, t);
  }

  lemma OwnEvent(log: seq<Entry>, t: nat, i: nat)
    requires i < |log| && log[i].tid == t
    ensures |Of(log[..i], t)| < |Of(log, t)| && Of(log, t)[|Of(log[..i], t)|] == log[i].ev
  {
    OfGrows(log, t, i + 1);
    OfAppend(log[..i], log[i], t);
    assert log[..i + 1] == log[..i] + [log[i]];
    var own := Of(log[..i + 1], t);
    assert Of(log, t)[..|own|][|own| - 1] == log[i].ev;
  }

  // ----- What a trace guarantees -----

  /** In a Pi trace, a Send comes after the *arr delete succeeded and after the history read its hashes come from. */
  lemma SendFollowsDelete(cfg: PiConfig, found: Lookup, env: PiEnv, m: nat) returns (ref: Ref, d: nat, h: nat)
    requires m < |ExecuteTrace(cfg, found, env)| && ExecuteTrace(cfg, found, env)[m].Send?
    ensures var t := ExecuteTrace(cfg, found, env);
      && cfg.actions && d < h < m
      && t[d] == ArrDelete(ref, true)
      && t[h].ReadHistory? && t[h].ref == ref && t[h].records.Some?
      && t[m].msg.payload == Strings(DownloadHashes(t[h].records.value, ref.id))
      && ParseEntityKey(t[m].msg.entityKey) == Some(ref)
  {
    var t := ExecuteTrace(cfg, found, env);
    WritesNeedGate(cfg, found, env, t[m]);
    var dec := found.dec;
    if dec.kind != "delete" { OtherKindsBookkeeping(cfg, dec, env); }
    ref := ParseEntityKey(dec.entityKey).value;
    d, h := SendWithinEntity(cfg, dec, ref, env, m);
  }

  lemma SendWithinEntity(cfg: PiConfig, dec: Decision, ref: Ref, env: PiEnv, m: nat) returns (d: nat, h: nat)
    requires m < |EntityTrace(cfg, dec, ref, env)| && EntityTrace(cfg, dec, ref, env)[m].Send?
    ensures var t := EntityTrace(cfg, dec, ref, env);
      && d < h < m && t[d] == ArrDelete(ref, true)
      && t[h] == ReadHistory(ref, env.history) && env.history.Some?
      && t[m].msg == Message(QBIT_DELETE, dec.entityKey, Strings(DownloadHashes(env.history.value, ref.id)))
  {
    var o, hint := OverseerrTrace(cfg, env, ref), HintTrace(cfg, env, dec.entityKey, HashesFor(env, ref.id));
    OverseerrOnly(cfg, env, ref);
    d, h := 1, 2 + |o|;
    var head := [ReadLibrary(ref), ArrDelete(ref, env.arrOk)];
    if env.arrOk {
      PartIndex(head, o, ReadHistory(ref, env.history), hint, Finish(dec, Executed), m);
    } else {
      TwoPartIndex(head, Finish(dec, Failed), m);
    }
  }

  lemma TwoPartIndex(a: seq<Event>, b: seq<Event>, m: nat)
    requires m < |a + b|
    ensures (a + b)[m] in a || (a + b)[m] in b
  {
  }

  /** Which part of a concatenation an index falls into. */
  lemma PartIndex(a: seq<Event>, o: seq<Event>, x: Event, b: seq<Event>, f: seq<Event>, m: nat)
    requires m < |a + ((o + [x] + b) + f)|
    ensures var e := (a + ((o + [x] + b) + f))[m];
      || (m < |a| && e in a)
      || (|a| <= m < |a| + |o| && e in o)
      || (m == |a| + |o| && e == x)
      || (|a| + |o| < m && e in b)
      || (|a| + |o| < m && e in f)
    ensures (a + ((o + [x] + b) + f))[|a| + |o|] == x
    ensures forall i :: 0 <= i < |a| ==> (a + ((o + [x] + b) + f))[i] == a[i]
  {
    var t := a + ((o + [x] + b) + f);
    if m < |a| { assert t[m] == a[m]; }
    else if m < |a| + |o| { assert t[m] == o[m - |a|]; }
    else if |a| + |o| + 1 + |b| <= m { assert t[m] == f[m - |a| - |o| - 1 - |b|]; }
    else if |a| + |o| < m { assert t[m] == b[m - |a| - |o| - 1]; }
  }

  /** On the NAS: a delete is the thread's second event, right after the message was recorded, with the gate on. */
  lemma DeleteFollowsRecord(cfg: NasConfig, msg: Message, env: NasEnv, m: nat)
    requires m < |ReceiveTrace(cfg, msg, env)| && ReceiveTrace(cfg, msg, env)[m].QbitDelete?
    ensures m == 1 && cfg.actions && ReceiveTrace(cfg, msg, env)[0] == Inbound(msg, true)
    ensures ReceiveTrace(cfg, msg, env)[m].hashes == HashesIn(msg.payload)
  {
  }

  lemma OnlyNasDeletesTorrents(th: Thread, m: nat)
    requires m < |Trace(th)| && Trace(th)[m].QbitDelete?
    ensures th.NasRun?
  {
    if th.PiRun? && th.found.Found? {
      var dec := th.found.dec;
      if dec.kind == "delete" {
        DeleteShape(th.pi, dec, th.env);
      } else {
        OtherKindsBookkeeping(th.pi, dec, th.env);
        assert IsWrite(Trace(th)[m]);
      }
    }
  }

  lemma OnlyPiSends(th: Thread, m: nat)
    requires m < |Trace(th)| && Trace(th)[m].Send?
    ensures th.PiRun?
  {
  }

  // ----- Safety over every run -----

  /** Position d of the log: a successful *arr delete of ref by Pi thread t, with the gate on. */
  ghost predicate DeletedAt(w: World, t: nat, ref: Ref, d: nat) {
    d < |w.log| && w.log[d] == Entry(t, ArrDelete(ref, true)) && t < |w.threads| && w.threads[t].PiRun?
        && w.threads[t].pi.actions
  }

  /** Position h of the log: thread t reads a history in which every one of hashes belongs to ref. */
  ghost predicate ReadAt(w: World, t: nat, ref: Ref, hashes: seq<string>, h: nat) {
    && h < |w.log| && w.log[h].tid == t && w.log[h].ev.ReadHistory? && w.log[h].ev.ref == ref
        && w.log[h].ev.records.Some?
    && forall x :: x in hashes ==>
        exists r ::
            r in w.log[h].ev.records.value && r.mediaId == ref.id && r.downloadId != "" && ToUpper(r.downloadId) == x
  }

  /** Every torrent deletion on the NAS, in every run: the NAS's gate is on; the same delivery was recorded
      before; and earlier in the log one Pi execution, its gate on, had deleted the message's entity from
      Sonarr or Radarr and then read a history from which every deleted hash comes. */
  lemma TorrentDeletesAreJustified(steps: seq<Step>, i: nat) returns (inbound: nat, pi: nat, ref: Ref, d: nat, h: nat)
    requires i < |Reach(steps).log| && Reach(steps).log[i].ev.QbitDelete?
    ensures var w := Reach(steps); var t := w.log[i].tid;
      && t < |w.threads| && w.threads[t].NasRun? && w.threads[t].nas.actions
      && inbound < i && w.log[inbound] == Entry(t, Inbound(w.threads[t].msg, true))
      && ParseEntityKey(w.threads[t].msg.entityKey) == Some(ref)
      && d < h < w.threads[t].source < i
      && DeletedAt(w, pi, ref, d) && ReadAt(w, pi, ref, w.log[i].ev.hashes, h)
  {
    var w := Reach(steps);
    ReachableInv(steps);
    var t := w.log[i].tid;
    ThreadIndex(w, i);
    var m := |Of(w.log[..i], t)|;
    OnlyNasDeletesTorrents(w.threads[t], m);
    var th := w.threads[t];
    DeleteFollowsRecord(th.nas, th.msg, th.nasEnv, m);
    inbound := EarlierInLog(w, i, 0);
    assert Sourced(w, t);
    var k := th.source;
    pi, ref, d, h := SentAfterDelete(w, k);
    var hs := DownloadHashes(w.log[h].ev.records.value, ref.id);
    HashesSurviveWire(w.log[k].ev.msg, hs);
    forall x | x in w.log[i].ev.hashes
      ensures exists r ::
          r in w.log[h].ev.records.value && r.mediaId == ref.id && r.downloadId != "" && ToUpper(r.downloadId) == x
    {
      HashOrigin(w.log[h].ev.records.value, ref.id, x);
    }
  }

  lemma SentAfterDelete(w: World, k: nat) returns (pi: nat, ref: Ref, d: nat, h: nat)
    requires Inv(w) && k < |w.log| && w.log[k].ev.Send?
    ensures d < h < k && pi == w.log[k].tid && DeletedAt(w, pi, ref, d)
    ensures w.log[h].tid == pi && w.log[h].ev.ReadHistory? && w.log[h].ev.ref == ref && w.log[h].ev.records.Some?
    ensures w.log[k].ev.msg.payload == Strings(DownloadHashes(w.log[h].ev.records.value, ref.id))
    ensures ParseEntityKey(w.log[k].ev.msg.entityKey) == Some(ref)
  {
    pi := w.log[k].tid;
    ThreadIndex(w, k);
    var th, m := w.threads[pi], |Of(w.log[..k], pi)|;
    OnlyPiSends(th, m);
    var md, mh;
    ref, md, mh := SendFollowsDelete(th.pi, th.found, th.env, m);
    h := EarlierInLog(w, k, mh);
    d := EarlierInLog(w, h, md);
  }

  /** Every write of either node, in every run, was made by a thread whose actions gate is on. */
  lemma EveryWriteIsGated(steps: seq<Step>, i: nat)
    requires i < |Reach(steps).log| && IsWrite(Reach(steps).log[i].ev)
    ensures var w := Reach(steps); var t := w.log[i].tid;
      t < |w.threads| && (if w.threads[t].PiRun? then w.threads[t].pi.actions else w.threads[t].nas.actions)
  {
    var w := Reach(steps);
    ReachableInv(steps);
    ThreadIndex(w, i);
    var th := w.threads[w.log[i].tid];
    if th.PiRun? { WritesNeedGate(th.pi, th.found, th.env, w.log[i].ev); }
  }

  // ----- Delivery is bounded -----

  function Sends(es: seq<Event>): nat {
    if es == [] then 0 else Sends(es[..|es| - 1]) + if es[|es| - 1].Send? then 1 else 0
  }

  lemma {:induction false} SendsConcat(a: seq<Event>, b: seq<Event>)
    ensures Sends(a + b) == Sends(a) + Sends(b)
  {
    if b == [] {
      assert a + b == a;
    } else {
      SendsConcat(a, b[..|b| - 1]);
      assert (a + b)[..|a + b| - 1] == a + b[..|b| - 1];
    }
  }

  lemma {:induction false} SendsBound(es: seq<Event>)
    ensures Sends(es) <= |es|
    ensures (forall e :: e in es ==> !e.Send?) ==> Sends(es) == 0
  {
    if es != [] { SendsBound(es[..|es| - 1]); }
  }

  lemma SendsAfterDelete(cfg: PiConfig, dec: Decision, ref: Ref, env: PiEnv)
    ensures Sends(AfterDelete(cfg, dec, ref, env)) <= Max(0, cfg.retries + 1)
  {
    var quiet := OverseerrTrace(cfg, env, ref) + [ReadHistory(ref, env.history)];
    var hint := HintTrace(cfg, env, dec.entityKey, HashesFor(env, ref.id));
    OverseerrOnly(cfg, env, ref);
    SendsConcat(quiet, hint);
    SendsBound(quiet);
    SendsBound(hint);
  }

  /** One Execute makes one SendDecision, which makes at most 1 + retries attempts. */
  lemma SendsPerExecute(cfg: PiConfig, found: Lookup, env: PiEnv)
    ensures Sends(ExecuteTrace(cfg, found, env)) <= Max(0, cfg.retries + 1)
  {
    var t := ExecuteTrace(cfg, found, env);
    if found.Found? && found.dec.kind == "delete" {
      var dec := found.dec;
      var s := DeleteStatus(cfg, dec.entityKey, env.arrOk);
      DeleteShape(cfg, dec, env);
      SendsConcat(DeleteWork(cfg, dec, env), Finish(dec, s));
      SendsBound(Finish(dec, s));
      if ParseEntityKey(dec.entityKey).Some? {
        var ref := ParseEntityKey(dec.entityKey).value;
        var head := [ReadLibrary(ref), ArrDelete(ref, env.arrOk)];
        SendsAfterDelete(cfg, dec, ref, env);
        SendsConcat(head, AfterDelete(cfg, dec, ref, env));
        SendsBound(head);
        assert head + [] == head;
      }
    } else {
      if found.Found? { OtherKindsBookkeeping(cfg, found.dec, env); }
      SendsBound(t);
    }
  }

  function SendPositions(log: seq<Entry>, t: nat): set<nat> {
    set k: nat | k < |log| && log[k].tid == t && log[k].ev.Send?
  }

  lemma PositionsSnoc(log: seq<Entry>, t: nat)
    requires log != []
    ensures var last := log[|log| - 1];
      |SendPositions(log, t)| ==
      |SendPositions(log[..|log| - 1], t)| + if last.tid == t && last.ev.Send? then 1 else 0
  {
    var rest, last := log[..|log| - 1], log[|log| - 1];
    var here: set<nat> := if last.tid == t && last.ev.Send? then {|rest|} else {};
    assert SendPositions(log, t) == SendPositions(rest, t) + here;
  }

  lemma {:induction false} PositionsCounted(log: seq<Entry>, t: nat)
    ensures |SendPositions(log, t)| == Sends(Of(log, t))
  {
    if log != [] {
      var rest, last := log[..|log| - 1], log[|log| - 1];
      PositionsCounted(rest, t);
      PositionsSnoc(log, t);
      if last.tid == t {
        SendsConcat(Of(rest, t), [last.ev]);
        assert [last.ev][..0] == [];
      }
    }
  }

  /** The NAS threads that handle a message sent by thread t. */
  ghost function Deliveries(w: World, t: nat): set<nat> {
    set n: nat | n < |w.threads| && w.threads[n].NasRun? && w.threads[n].source < |w.log|
        && w.log[w.threads[n].source].tid == t
  }

  lemma {:induction false} InjectiveImage(ns: set<nat>, w: World, t: nat)
    requires DistinctSources(w) && ns <= Deliveries(w, t)
    ensures |set n | n in ns :: w.threads[n].source| == |ns|
    decreases |ns|
  {
    if ns != {} {
      var n :| n in ns;
      InjectiveImage(ns - {n}, w, t);
      var image := set x | x in ns - {n} :: w.threads[x].source;
      forall x | x in ns - {n} ensures w.threads[x].source != w.threads[n].source {
        assert x < n || n < x;
      }
      assert (set x | x in ns :: w.threads[x].source) == image + {w.threads[n].source};
    }
  }

  lemma DeliveriesWithinSends(w: World, t: nat)
    requires Inv(w)
    ensures |Deliveries(w, t)| <= Sends(Of(w.log, t))
  {
    var ns := Deliveries(w, t);
    InjectiveImage(ns, w, t);
    var image := set n | n in ns :: w.threads[n].source;
    forall k | k in image ensures k in SendPositions(w.log, t) {
      var n :| n in ns && w.threads[n].source == k;
      assert Sourced(w, n);
    }
    SubsetSize(image, SendPositions(w.log, t));
    PositionsCounted(w.log, t);
  }

  lemma SendsOfPrefix(trace: seq<Event>, p: nat)
    requires p <= |trace|
    ensures Sends(trace[..p]) <= Sends(trace)
  {
    SendsConcat(trace[..p], trace[p..]);
    assert trace == trace[..p] + trace[p..];
  }

  /** In every run, one Execute's decision is handled by the NAS at most 1 + retries times. */
  lemma DeliveriesBounded(steps: seq<Step>, t: nat)
    requires t < |Reach(steps).threads| && Reach(steps).threads[t].PiRun?
    ensures |Deliveries(Reach(steps), t)| <= Max(0, Reach(steps).threads[t].pi.retries + 1)
  {
    var w := Reach(steps);
    ReachableInv(steps);
    DeliveriesWithinSends(w, t);
    assert InStep(w, t);
    SendsOfPrefix(w.plan[t], w.pos[t]);
    SendsPerExecute(w.threads[t].pi, w.threads[t].found, w.threads[t].env);
  }

  lemma {:induction false} SubsetSize(a: set<nat>, b: set<nat>)
    requires a <= b
    ensures |a| <= |b|
  {
    if a != {} {
      var x :| x in a;
      SubsetSize(a - {x}, b - {x});
    }
  }

  // ----- Nothing keeps a run from completing -----

  lemma ReachSnoc(steps: seq<Step>, s: Step)
    ensures Reach(steps + [s]) == Take(Reach(steps), s)
  {
    assert (steps + [s])[..|steps|] == steps;
  }

  lemma AdvanceFacts(steps: seq<Step>, t: nat)
    requires var w := Reach(steps); t < |w.plan| == |w.pos| && w.pos[t] < |w.plan[t]|
    ensures var w, v := Reach(steps), Reach(steps + [Advance(t)]);
      && v.threads == w.threads && v.plan == w.plan && |v.pos| == |w.pos| && v.pos[t] == w.pos[t] + 1
      && v.log == w.log + [Entry(t, w.plan[t][w.pos[t]])]
  {
    ReachSnoc(steps, Advance(t));
  }

  lemma AlreadyDone(w: World, t: nat)
    requires Inv(w) && t < |w.threads| && w.pos[t] == |w.plan[t]|
    ensures Of(w.log, t) == Trace(w.threads[t])
  {
    assert InStep(w, t);
    assert w.plan[t][..w.pos[t]] == w.plan[t];
  }

  /** How far a thread has to go. */
  ghost function Left(steps: seq<Step>, t: nat): int {
    var w := Reach(steps);
    if t < |w.plan| && t < |w.pos| then |w.plan[t]| - w.pos[t] else 0
  }

  /** Every started thread can be driven to its end: the events it then has in the log are all it was to do. */
  lemma {:induction false} Drive(steps: seq<Step>, t: nat) returns (further: seq<Step>)
    requires t < |Reach(steps).threads|
    ensures var w, v := Reach(steps), Reach(further);
      v.threads == w.threads && w.log <= v.log && Of(v.log, t) == Trace(v.threads[t])
    decreases Left(steps, t)
  {
    ReachableInv(steps);
    var w := Reach(steps);
    assert InStep(w, t);
    if w.pos[t] == |w.plan[t]| {
      further := steps;
      AlreadyDone(w, t);
    } else {
      AdvanceFacts(steps, t);
      further := Drive(steps + [Advance(t)], t);
    }
  }

  /** Starting one more Execute, or delivering a message not delivered yet, adds its thread. */
  lemma Starts(steps: seq<Step>, cfg: PiConfig, found: Lookup, env: PiEnv)
    ensures var w, v := Reach(steps), Reach(steps + [Start(cfg, found, env)]);
      v.threads == w.threads + [PiRun(cfg, found, env)] && v.log == w.log
  {
    ReachSnoc(steps, Start(cfg, found, env));
  }

  lemma Delivers(steps: seq<Step>, k: nat, nas: NasConfig, env: NasEnv)
    requires var w := Reach(steps); k < |w.log| && w.log[k].ev.Send? && Undelivered(w, k)
    ensures var w, v := Reach(steps), Reach(steps + [Deliver(k, nas, env)]);
      v.threads == w.threads + [NasRun(nas, Wire(w.log[k].ev.msg), env, k)] && v.log == w.log
  {
    ReachSnoc(steps, Deliver(k, nas, env));
  }

  /** A run in which one Execute completes and then one of its messages is handled. */
  lemma SendThenHandle(cfg: PiConfig, dec: Decision, env: PiEnv, msg: Message, nas: NasConfig, nasEnv: NasEnv)
    returns (steps: seq<Step>)
    requires Send(msg) in ExecuteTrace(cfg, Found(dec), env)
    ensures var w := Reach(steps);
      && |w.threads| == 2 && w.threads[1].NasRun? && Of(w.log, 0) == ExecuteTrace(cfg, Found(dec), env)
      && Of(w.log, 1) == ReceiveTrace(nas, Wire(msg), nasEnv)
  {
    Starts([], cfg, Found(dec), env);
    var first := [] + [Start(cfg, Found(dec), env)];
    var sent := Drive(first, 0);
    var w := Reach(sent);
    var m :| 0 <= m < |Of(w.log, 0)| && Of(w.log, 0)[m] == Send(msg);
    var k := Locate(w.log, 0, m);
    Delivers(sent, k, nas, nasEnv);
    var delivered := sent + [Deliver(k, nas, nasEnv)];
    steps := Drive(delivered, 1);
    ReachableInv(sent);
    ReachableInv(steps);
    KeepsComplete(w, Reach(steps), 0);
  }

  /** A thread that is done stays done. */
  lemma KeepsComplete(w: World, v: World, t: nat)
    requires Inv(v) && t < |v.threads| && w.log <= v.log && Of(w.log, t) == Trace(v.threads[t])
    ensures Of(v.log, t) == Trace(v.threads[t])
  {
    OfGrows(v.log, t, |w.log|);
    assert v.log[..|w.log|] == w.log;
    assert InStep(v, t);
  }

  /** So the protocol does what it is for. When everything works, there is a run in which the NAS deletes exactly the
      hashes the history of the deleted entity has. */
  lemma HashesReachNas(cfg: PiConfig, dec: Decision, ref: Ref, env: PiEnv, nas: NasConfig)
    returns (steps: seq<Step>, i: nat)
    requires dec.kind == "delete" && ParseEntityKey(dec.entityKey) == Some(ref)
    requires DeleteStatus(cfg, dec.entityKey, env.arrOk) == Executed
    requires cfg.peer && HashesFor(env, ref.id) != [] && Calls(cfg.retries, env.send) > 0
    requires nas.actions && nas.qbit
    ensures var w := Reach(steps);
      i < |w.log| && w.log[i] == Entry(1, QbitDelete(HashesFor(env, ref.id), true))
      && |w.threads| == 2 && w.threads[1].NasRun?
  {
    var hashes := HashesFor(env, ref.id);
    var msg := Message(QBIT_DELETE, dec.entityKey, Strings(hashes));
    var nasEnv := NasEnv(true, true, true);
    HintSent(cfg, dec, ref, env, msg);
    steps := SendThenHandle(cfg, dec, env, msg, nas, nasEnv);
    HashesSurviveWire(msg, hashes);
    ReceiveStory(nas, Wire(msg), nasEnv);
    i := Locate(Reach(steps).log, 1, 1);
  }
}
