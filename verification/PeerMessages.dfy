/** The peer_messages table, its nightly prune, and the digest's verdict on the peer
    (internal/store/peer.go, internal/agent/schedule.go, internal/agent/digest.go). */
module PeerMessages {
  import opened Text
  import opened Timestamps

  datatype Message = Message(direction: string, kind: string, peer: string, receivedAt: int)

  predicate Counts(m: Message, peer: string, kind: string) { m.direction == "in" && m.kind == kind && m.peer == peer }

  /** The newest received_at among the messages that count, in whole seconds; None when there is none. */
  function Newest(t: seq<Message>, peer: string, kind: string): Option<int> {
    if t == [] then None else Newer(Newest(t[..|t| - 1], peer, kind), t[|t| - 1], peer, kind)
  }

  function Newer(best: Option<int>, m: Message, peer: string, kind: string): Option<int> {
    if Counts(m, peer, kind) && (best.None? || m.receivedAt >= best.value) then Some(m.receivedAt) else best
  }

  lemma NewestSnoc(t: seq<Message>, m: Message, peer: string, kind: string)
    ensures Newest(t + [m], peer, kind) == Newer(Newest(t, peer, kind), m, peer, kind)
  {
    assert (t + [m])[..|t|] == t;
  }

  /** DELETE ... WHERE received_at < cutoff. */
  function Kept(t: seq<Message>, cutoff: int): seq<Message> {
    if t == [] then []
    else if t[|t| - 1].receivedAt < cutoff then Kept(t[..|t| - 1], cutoff)
    else Kept(t[..|t| - 1], cutoff) + [t[|t| - 1]]
  }

  class Table {
    var rows: seq<Message>

    constructor ()
      ensures rows == []
    {
      rows := [];
    }

    /** SavePeerMessage: an unknown direction or kind is rejected and nothing is stored. */
    method SavePeerMessage(direction: string, kind: string, peer: string, at: int) returns (ok: bool)
      modifies this
      ensures ok <==> direction in {"in", "out"} && kind in {"report", "heartbeat", "decision"}
      ensures rows == old(rows) + if ok then [Message(direction, kind, peer, Seconds(at))] else []
    {
      ok := (direction == "in" || direction == "out")
          && (kind == "report" || kind == "heartbeat" || kind == "decision");
      if ok { rows := rows + [Message(direction, kind, peer, Seconds(at))]; }
    }

    /** PrunePeerMessages. */
    method PrunePeerMessages(olderThan: int) returns (deleted: nat)
      modifies this
      ensures rows == Kept(old(rows), Seconds(olderThan))
      ensures deleted + |rows| == |old(rows)|
    {
      var kept := [];
      deleted := 0;
      for n := 0 to |rows|
        invariant kept == Kept(rows[..n], Seconds(olderThan)) && deleted + |kept| == n && rows == old(rows)
      {
        assert rows[..n + 1][..n] == rows[..n];
        if rows[n].receivedAt < Seconds(olderThan) { deleted := deleted + 1; } else { kept := kept + [rows[n]]; }
      }
      assert rows[..|rows|] == rows;
      rows := kept;
    }

    /** LastPeerMessageAt: the newest inbound message of the kind; none of them is newer. */
    method LastPeerMessageAt(peer: string, kind: string) returns (at: Option<int>)
      ensures at == Newest(rows, peer, kind)
      ensures at.None? <==> forall m :: m in rows ==> !(m.direction == "in" && m.kind == kind && m.peer == peer)
      ensures at.Some? ==>
        && (exists m ::
              m in rows && m.direction == "in" && m.kind == kind && m.peer == peer && m.receivedAt == at.value)
        && forall m :: m in rows && m.direction == "in" && m.kind == kind && m.peer == peer ==> m.receivedAt <= at.value
    {
      at := None;
      for n := 0 to |rows|
        invariant at == Newest(rows[..n], peer, kind)
        invariant at.None? <==> forall m :: m in rows[..n] ==> !Counts(m, peer, kind)
        invariant at.Some? ==> (exists m :: m in rows[..n] && Counts(m, peer, kind) && m.receivedAt == at.value)
                               && forall m :: m in rows[..n] && Counts(m, peer, kind) ==> m.receivedAt <= at.value
      {
        assert rows[..n + 1][..n] == rows[..n] && rows[..n + 1] == rows[..n] + [rows[n]];
        if Counts(rows[n], peer, kind) && (at.None? || rows[n].receivedAt >= at.value) {
          at := Some(rows[n].receivedAt);
        }
      }
      assert rows[..|rows|] == rows;
    }
  }

  // ----- The verdict -----

  /** buildPeerSection: no section, a fresh peer, or a peer stale since its last report. */
  datatype Verdict = NoReport | Fresh(last: int) | StaleSince(last: int)

  function VerdictAt(t: seq<Message>, peer: string, now: int, staleAfter: int): Verdict {
    match Newest(t, peer, "report")
    case None => NoReport
    case Some(last) => if now - last * SECOND > staleAfter then StaleSince(last) else Fresh(last)
  }

  /** The verdict by the messages themselves: there is none without a report received from the peer; otherwise it
      names the second of the newest, and calls the peer fresh exactly while that is no older than stale-after. */
  lemma {:induction false} VerdictMeaning(t: seq<Message>, peer: string, now: int, staleAfter: int, last: int)
    ensures var v := VerdictAt(t, peer, now, staleAfter);
      && (v == NoReport <==> forall m :: m in t ==> !(m.direction == "in" && m.kind == "report" && m.peer == peer))
      && (v == Fresh(last) <==> NewestReport(t, peer, last) && now - last * SECOND <= staleAfter)
      && (v == StaleSince(last) <==> NewestReport(t, peer, last) && now - last * SECOND > staleAfter)
  {
    NewestMeaning(t, peer, last);
    if Newest(t, peer, "report").Some? { NewestMeaning(t, peer, Newest(t, peer, "report").value); }
  }

  ghost predicate NewestReport(t: seq<Message>, peer: string, last: int) {
    && (exists m :: m in t && m.direction == "in" && m.kind == "report" && m.peer == peer && m.receivedAt == last)
    && forall m :: m in t && m.direction == "in" && m.kind == "report" && m.peer == peer ==> m.receivedAt <= last
  }

  lemma {:induction false} NewestMeaning(t: seq<Message>, peer: string, last: int)
    ensures Newest(t, peer, "report").None? <==>
            forall m :: m in t ==> !(m.direction == "in" && m.kind == "report" && m.peer == peer)
    ensures Newest(t, peer, "report") == Some(last) <==> NewestReport(t, peer, last)
  {
    if t != [] {
      var rest, m := t[..|t| - 1], t[|t| - 1];
      NewestMeaning(rest, peer, last);
      if Newest(rest, peer, "report").Some? { NewestMeaning(rest, peer, Newest(rest, peer, "report").value); }
      assert t == rest + [m];
    }
  }

  /** What a cutoff keeps: every message at or after it, in order, and no other. */
  lemma {:induction false} KeptConcat(a: seq<Message>, b: seq<Message>, cutoff: int)
    ensures Kept(a + b, cutoff) == Kept(a, cutoff) + Kept(b, cutoff)
    ensures forall m :: m in Kept(b, cutoff) <==> m in b && m.receivedAt >= cutoff
  {
    if b == [] {
      assert a + b == a;
    } else {
      KeptConcat(a, b[..|b| - 1], cutoff);
      assert (a + b)[..|a + b| - 1] == a + b[..|b| - 1];
      assert b == b[..|b| - 1] + [b[|b| - 1]];
    }
  }

  // ----- Schedules -----

  datatype Step = Save(m: Message) | Prune(at: int)

  /** The table after a schedule; each prune keeps what is younger than the retention at that moment. */
  function Play(steps: seq<Step>, retention: int): seq<Message> {
    if steps == [] then []
    else match steps[|steps| - 1]
      case Save(m) => Play(steps[..|steps| - 1], retention) + [m]
      case Prune(at) => Kept(Play(steps[..|steps| - 1], retention), Seconds(at - retention))
  }

  /** The same schedule with the prunes left out. */
  function Saved(steps: seq<Step>): seq<Message> {
    if steps == [] then []
    else match steps[|steps| - 1]
      case Save(m) => Saved(steps[..|steps| - 1]) + [m]
      case Prune(_) => Saved(steps[..|steps| - 1])
  }

  ghost predicate PrunesBy(steps: seq<Step>, now: int) {
    forall i :: 0 <= i < |steps| && steps[i].Prune? ==> steps[i].at <= now
  }

  /** Keeping only rows at or after a cutoff does not change the newest, when the newest is at or after it. */
  lemma {:induction false} NewestOfKept(t: seq<Message>, cutoff: int, peer: string, kind: string)
    ensures var best := Newest(t, peer, kind);
      Newest(Kept(t, cutoff), peer, kind) == if best.Some? && best.value >= cutoff then best else None
  {
    if t != [] {
      var rest, m := t[..|t| - 1], t[|t| - 1];
      NewestOfKept(rest, cutoff, peer, kind);
      if m.receivedAt >= cutoff { NewestSnoc(Kept(rest, cutoff), m, peer, kind); }
    }
  }

  /** The newest message with and without the prunes: the same, or older resp. gone, in which case the true
      newest is older than limit. */
  predicate Agrees(pruned: Option<int>, whole: Option<int>, limit: int) {
    pruned == whole || (whole.Some? && whole.value < limit && (pruned.None? || pruned.value <= whole.value))
  }

  lemma AgreesSave(pruned: Option<int>, whole: Option<int>, limit: int, m: Message, peer: string, kind: string)
    requires Agrees(pruned, whole, limit)
    ensures Agrees(Newer(pruned, m, peer, kind), Newer(whole, m, peer, kind), limit)
  {
  }

  lemma {:induction false} PruneKeepsNewest(steps: seq<Step>, retention: int, now: int, peer: string, kind: string)
    requires PrunesBy(steps, now)
    ensures Agrees(Newest(Play(steps, retention), peer, kind), Newest(Saved(steps), peer, kind),
        Seconds(now - retention))
  {
    if steps != [] {
      var rest, last := steps[..|steps| - 1], steps[|steps| - 1];
      var limit := Seconds(now - retention);
      PrunesByInit(steps, now);
      PruneKeepsNewest(rest, retention, now, peer, kind);
      var a, b := Play(rest, retention), Saved(rest);
      match last
      case Save(m) =>
        AgreesSave(Newest(a, peer, kind), Newest(b, peer, kind), limit, m, peer, kind);
        NewestSnoc(a, m, peer, kind);
        NewestSnoc(b, m, peer, kind);
      case Prune(at) =>
        NewestOfKept(a, Seconds(at - retention), peer, kind);
        SecondsMonotone(at - retention, now - retention);
    }
  }

  lemma PrunesByInit(steps: seq<Step>, now: int)
    requires steps != [] && PrunesBy(steps, now)
    ensures PrunesBy(steps[..|steps| - 1], now)
    ensures steps[|steps| - 1].Prune? ==> steps[|steps| - 1].at <= now
  {
    var rest := steps[..|steps| - 1];
    forall i | 0 <= i < |rest| && rest[i].Prune? ensures rest[i].at <= now { assert steps[i].Prune?; }
    assert steps[|steps| - 1].Prune? ==> steps[|steps| - 1].at <= now;
  }

  lemma SecondsMonotone(a: int, b: int)
    requires a <= b
    ensures Seconds(a) <= Seconds(b)
  {
  }

  /** A message that makes the peer fresh is never older than the newest protected second. */
  lemma FreshIsProtected(last: int, now: int, retention: int, staleAfter: int)
    requires staleAfter < retention + SECOND
    ensures now - last * SECOND <= staleAfter ==> last >= Seconds(now - retention)
  {
    var s := Seconds(now - retention);
    assert s * SECOND <= now - retention;
    assert last < s ==> last * SECOND <= (s - 1) * SECOND;
  }

  /** No schedule of prunes changes the verdict on a fresh peer. */
  lemma FreshSurvivesPruning(steps: seq<Step>, retention: int, staleAfter: int, now: int, peer: string)
    requires PrunesBy(steps, now) && staleAfter < retention + SECOND
    requires VerdictAt(Saved(steps), peer, now, staleAfter).Fresh?
    ensures VerdictAt(Play(steps, retention), peer, now, staleAfter) == VerdictAt(Saved(steps), peer, now, staleAfter)
  {
    PruneKeepsNewest(steps, retention, now, peer, "report");
    FreshIsProtected(Newest(Saved(steps), peer, "report").value, now, retention, staleAfter);
  }

  /** Nothing happens before the first storable second, cutoffs included. */
  ghost predicate InEra(steps: seq<Step>, retention: int) {
    forall i :: 0 <= i < |steps| ==> if steps[i].Save? then steps[i].m.receivedAt >= 0 else steps[i].at >= retention
  }

  /** Instants come in order: no message is received after a later prune or after the digest. */
  ghost predicate InOrder(steps: seq<Step>, now: int) {
    && (forall i :: 0 <= i < |steps| ==> At(steps[i]) <= now)
    && forall i, j :: 0 <= i < j < |steps| ==> At(steps[i]) <= At(steps[j])
  }

  function At(s: Step): int { match s case Save(m) => m.receivedAt * SECOND case Prune(at) => at }

  /** Over every schedule that can happen, a peer that is fresh stays fresh under the prunes. */
  ghost predicate FreshIsSafe(retention: int, staleAfter: int) {
    forall steps, now, peer |
      InEra(steps, retention) && InOrder(steps, now) && VerdictAt(Saved(steps), peer, now, staleAfter).Fresh? ::
      VerdictAt(Play(steps, retention), peer, now, staleAfter) == VerdictAt(Saved(steps), peer, now, staleAfter)
  }

  lemma InOrderPrunesBy(steps: seq<Step>, now: int)
    requires InOrder(steps, now)
    ensures PrunesBy(steps, now)
  {
    forall i | 0 <= i < |steps| && steps[i].Prune? ensures steps[i].at <= now { assert At(steps[i]) <= now; }
  }

  /** The exact condition on the configuration (a positive retention, as loading checks): pruning is safe for a
      fresh peer, on every schedule, if and only if peer_stale_after is below peer_message_retention plus the
      second that storage rounds away. */
  lemma PruneSafeExactly(retention: int, staleAfter: int)
    requires retention > 0
    ensures FreshIsSafe(retention, staleAfter) <==> staleAfter < retention + SECOND
  {
    if staleAfter < retention + SECOND {
      forall steps, now, peer |
        InEra(steps, retention) && InOrder(steps, now) && VerdictAt(Saved(steps), peer, now, staleAfter).Fresh?
        ensures VerdictAt(Play(steps, retention), peer, now, staleAfter) ==
            VerdictAt(Saved(steps), peer, now, staleAfter)
      {
        InOrderPrunesBy(steps, now);
        FreshSurvivesPruning(steps, retention, staleAfter, now, peer);
      }
    } else {
      PruneLosesFresh(retention, staleAfter, "nas");
    }
  }

  /** A report received in some second, and a prune that runs retention plus one second after it, right when
      the digest is built: the peer is fresh, but its report is gone. */
  lemma PruneLosesFresh(retention: int, staleAfter: int, peer: string)
    requires retention > 0 && staleAfter >= retention + SECOND
    ensures !FreshIsSafe(retention, staleAfter)
  {
    var m := Message("in", "report", peer, 0);
    var now := retention + SECOND;
    var steps := [Save(m), Prune(now)];
    LosingSchedule(m, retention);
    assert VerdictAt(Saved(steps), peer, now, staleAfter) == Fresh(0);
    assert VerdictAt(Play(steps, retention), peer, now, staleAfter) == NoReport;
    assert InEra(steps, retention) && InOrder(steps, now);
  }

  lemma LosingSchedule(m: Message, retention: int)
    requires Counts(m, m.peer, "report") && m.receivedAt == 0
    ensures Newest(Saved([Save(m), Prune(retention + SECOND)]), m.peer, "report") == Some(0)
    ensures Play([Save(m), Prune(retention + SECOND)], retention) == []
  {
    var prune := Prune(retention + SECOND);
    OneMessage(m);
    OneSave(m, retention);
    PlaySnoc([Save(m)], prune, retention);
    assert [Save(m)] + [prune] == [Save(m), prune];
    assert Seconds(prune.at - retention) == 1;
  }

  lemma OneSave(m: Message, retention: int)
    ensures Play([Save(m)], retention) == [m] && Saved([Save(m)]) == [m]
  {
    PlaySnoc([], Save(m), retention);
    assert [] + [Save(m)] == [Save(m)] && [] + [m] == [m];
  }

  lemma OneMessage(m: Message)
    requires Counts(m, m.peer, "report") && m.receivedAt == 0
    ensures Newest([m], m.peer, "report") == Some(0) && Kept([m], 1) == []
  {
    assert [m][..0] == [];
  }

  lemma PlaySnoc(steps: seq<Step>, last: Step, retention: int)
    ensures Play(steps + [last], retention) ==
            if last.Save? then Play(steps, retention) + [last.m]
            else Kept(Play(steps, retention), Seconds(last.at - retention))
    ensures Saved(steps + [last]) == if last.Save? then Saved(steps) + [last.m] else Saved(steps)
  {
    assert (steps + [last])[..|steps|] == steps;
  }
}
