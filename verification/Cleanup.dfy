/** Cleanup planning and host removal (internal/cleanup). */
module Cleanup {
  import opened Text
  import opened Paths
  import opened Orphans

  datatype Kind = Recycle | OrphanFiles | Docker | Seeded | Unknown
  datatype Item = Item(key: string, bytes: int)
  datatype Plan = Plan(kind: Kind, items: seq<Item>, bytes: int)

  /** Why an item was not removed. */
  datatype Failure = Refused(key: string) | RemoveFailed(key: string)

  datatype Result = Result(executed: nat, bytes: int, errors: seq<Failure>)
  datatype Outcome = Disabled | Error | OtherExecutor | Done(res: Result)

  /** The actions gate, the dry-run default, whether there is a host client, and the configured directories. */
  datatype Config = Config(
    actions: bool, dryRun: bool, host: bool, recycleDirs: seq<string>, downloadsDirs: seq<string>)

  function SumBytes(items: seq<Item>): int {
    if items == [] then 0 else SumBytes(items[..|items| - 1]) + items[|items| - 1].bytes
  }

  function AllowedPrefixes(cfg: Config, kind: Kind): Option<seq<string>> {
    match kind case Recycle => Some(cfg.recycleDirs) case OrphanFiles => Some(cfg.downloadsDirs) case _ => None
  }

  predicate UnderAny(path: string, prefixes: seq<string>) { exists d :: d in prefixes && IsUnderDir(d, path) }

  method UnderAnyPrefix(path: string, prefixes: seq<string>) returns (yes: bool)
    ensures yes <==> exists d :: d in prefixes && IsUnderDir(d, path)
  {
    for n := 0 to |prefixes|
      invariant forall i :: 0 <= i < n ==> !IsUnderDir(prefixes[i], path)
    {
      if IsUnderDir(prefixes[n], path) { return true; }
    }
    return false;
  }

  /** The paths handed to Host.Remove: the cleaned keys of the admitted items, in plan order. */
  function Attempts(items: seq<Item>, prefixes: seq<string>): seq<string> {
    if items == [] then []
    else Attempts(items[..|items| - 1], prefixes) + AttemptFor(items[|items| - 1], prefixes)
  }

  function AttemptFor(item: Item, prefixes: seq<string>): seq<string> {
    if UnderAny(item.key, prefixes) then [Clean(item.key)] else []
  }

  /** The items that were removed: admitted, and the host agreed. */
  function Removed(items: seq<Item>, prefixes: seq<string>, answers: nat -> bool): seq<Item> {
    if items == [] then []
    else
      var n := |items| - 1;
      if UnderAny(items[n].key, prefixes) && answers(n) then Removed(items[..n], prefixes, answers) + [items[n]]
      else Removed(items[..n], prefixes, answers)
  }

  /** One line for each item that was not removed, in order: refused, or the host failed. */
  function Failures(items: seq<Item>, prefixes: seq<string>, answers: nat -> bool): seq<Failure> {
    if items == [] then []
    else
      var n := |items| - 1;
      Failures(items[..n], prefixes, answers) + FailureFor(items[n], prefixes, answers(n))
  }

  function FailureFor(item: Item, prefixes: seq<string>, answer: bool): seq<Failure> {
    if !UnderAny(item.key, prefixes) then [Refused(item.key)]
    else if !answer then [RemoveFailed(item.key)]
    else []
  }

  /** One more item: what it adds to the attempts, the failures, the removals and their bytes. */
  lemma RemovedStep(items: seq<Item>, n: nat, prefixes: seq<string>, answers: nat -> bool, gone: bool)
    requires n < |items| && gone == (UnderAny(items[n].key, prefixes) && answers(n))
    ensures |Removed(items[..n + 1], prefixes, answers)| ==
            |Removed(items[..n], prefixes, answers)| + (if gone then 1 else 0)
    ensures SumBytes(Removed(items[..n + 1], prefixes, answers)) ==
            SumBytes(Removed(items[..n], prefixes, answers)) + (if gone then items[n].bytes else 0)
    ensures Attempts(items[..n + 1], prefixes) == Attempts(items[..n], prefixes) + AttemptFor(items[n], prefixes)
    ensures Failures(items[..n + 1], prefixes, answers) ==
            Failures(items[..n], prefixes, answers) + FailureFor(items[n], prefixes, answers(n))
  {
    var before := Removed(items[..n], prefixes, answers);
    assert items[..n + 1][..n] == items[..n];
    assert (before + [items[n]])[..|before|] == before;
  }

  /** The loop body of executeHostRemove: the path tried, if any, and the error to report, if any. */
  method RemoveItem(item: Item, prefixes: seq<string>, answer: bool) returns (tried: seq<string>, err: Option<Failure>)
    ensures tried == AttemptFor(item, prefixes)
    ensures err.None? <==> UnderAny(item.key, prefixes) && answer
    ensures FailureFor(item, prefixes, answer) == if err.None? then [] else [err.value]
  {
    var admitted := UnderAnyPrefix(item.key, prefixes);
    if !admitted { return [], Some(Refused(item.key)); }
    tried := [Clean(item.key)];
    err := if answer then None else Some(RemoveFailed(item.key));
  }

  /** What executing a host plan does: an error and nothing tried without a host client or for a kind without
      directories; otherwise every admitted path is tried in order, each item is either executed or an error,
      and the bytes are those of the items removed. */
  ghost predicate HostRemoval(cfg: Config, plan: Plan, answers: nat -> bool, out: Outcome, attempts: seq<string>) {
    if !cfg.host || AllowedPrefixes(cfg, plan.kind).None? then out == Error && attempts == []
    else
      var prefixes := AllowedPrefixes(cfg, plan.kind).value;
      && out.Done?
      && attempts == Attempts(plan.items, prefixes)
      && out.res.executed + |out.res.errors| == |plan.items|
      && out.res.errors == Failures(plan.items, prefixes, answers)
      && out.res.executed == |Removed(plan.items, prefixes, answers)|
      && out.res.bytes == SumBytes(Removed(plan.items, prefixes, answers))
  }

  /** executeHostRemove. answers(i) is whether the host removes the path of item i. */
  method ExecuteHostRemove(cfg: Config, plan: Plan, answers: nat -> bool) returns (out: Outcome, attempts: seq<string>)
    ensures HostRemoval(cfg, plan, answers, out, attempts)
  {
    attempts := [];
    if !cfg.host { return Error, attempts; }
    var allowed := AllowedPrefixes(cfg, plan.kind);
    if allowed.None? { return Error, attempts; }
    var res;
    res, attempts := RemoveAll(plan.items, allowed.value, answers);
    out := Done(res);
  }

  /** The loop of executeHostRemove. */
  method RemoveAll(items: seq<Item>, prefixes: seq<string>, answers: nat -> bool)
    returns (res: Result, attempts: seq<string>)
    ensures attempts == Attempts(items, prefixes)
    ensures res.executed + |res.errors| == |items| && res.errors == Failures(items, prefixes, answers)
    ensures res.executed == |Removed(items, prefixes, answers)|
        && res.bytes == SumBytes(Removed(items, prefixes, answers))
  {
    attempts := [];
    var executed: nat, bytes, errors := 0, 0, [];
    for n := 0 to |items|
      invariant attempts == Attempts(items[..n], prefixes)
      invariant executed + |errors| == n && errors == Failures(items[..n], prefixes, answers)
      invariant executed == |Removed(items[..n], prefixes, answers)|
          && bytes == SumBytes(Removed(items[..n], prefixes, answers))
    {
      var item := items[n];
      var tried, err := RemoveItem(item, prefixes, answers(n));
      RemovedStep(items, n, prefixes, answers, err.None?);
      attempts := attempts + tried;
      if err.Some? { errors := errors + [err.value]; } else { executed, bytes := executed + 1, bytes + item.bytes; }
    }
    assert items[..|items|] == items;
    res := Result(executed, bytes, errors);
  }

  /** Execute: the gate comes before any client call. */
  method Execute(cfg: Config, plan: Plan, answers: nat -> bool) returns (out: Outcome, attempts: seq<string>)
    ensures !cfg.actions || cfg.dryRun <==> out == Disabled
    ensures attempts != [] ==> cfg.actions && !cfg.dryRun && cfg.host && (plan.kind.Recycle? || plan.kind.OrphanFiles?)
    ensures cfg.actions && !cfg.dryRun && (plan.kind.Recycle? || plan.kind.OrphanFiles?) ==>
              HostRemoval(cfg, plan, answers, out, attempts)
    ensures attempts != [] ==>
              attempts == Attempts(plan.items, if plan.kind.Recycle? then cfg.recycleDirs else cfg.downloadsDirs)
    ensures cfg.actions && !cfg.dryRun ==> (out == OtherExecutor <==> plan.kind.Docker? || plan.kind.Seeded?)
    ensures cfg.actions && !cfg.dryRun && plan.kind.Unknown? ==> out == Error
  {
    attempts := [];
    if !cfg.actions || cfg.dryRun { return Disabled, attempts; }
    match plan.kind
    case Recycle => out, attempts := ExecuteHostRemove(cfg, plan, answers);
    case OrphanFiles => out, attempts := ExecuteHostRemove(cfg, plan, answers);
    case Docker => out := OtherExecutor;
    case Seeded => out := OtherExecutor;
    case Unknown => out := Error;
  }

  // ----- What is tried and removed, item by item -----

  lemma {:induction false} AttemptsConcat(a: seq<Item>, b: seq<Item>, prefixes: seq<string>)
    ensures Attempts(a + b, prefixes) == Attempts(a, prefixes) + Attempts(b, prefixes)
  {
    if b == [] {
      assert a + b == a;
    } else {
      var rest, last := b[..|b| - 1], b[|b| - 1];
      AttemptsConcat(a, rest, prefixes);
      assert (a + b)[..|a + b| - 1] == a + rest;
      StringsAssociate(Attempts(a, prefixes), Attempts(rest, prefixes), AttemptFor(last, prefixes));
    }
  }

  lemma StringsAssociate(a: seq<string>, b: seq<string>, c: seq<string>)
    ensures (a + b) + c == a + (b + c)
  {
  }

  /** One item: its path is tried, cleaned, exactly when some configured directory has it under it. */
  lemma AttemptOfOne(item: Item, prefixes: seq<string>)
    ensures (exists d :: d in prefixes && IsUnderDir(d, item.key)) ==> Attempts([item], prefixes) == [Clean(item.key)]
    ensures (forall d :: d in prefixes ==> !IsUnderDir(d, item.key)) ==> Attempts([item], prefixes) == []
  {
    assert [item][..0] == [];
    assert [] + AttemptFor(item, prefixes) == AttemptFor(item, prefixes);
  }

  /** Every item not removed has its own line, in plan order, which says which of the two it was. */
  lemma FailuresSnoc(items: seq<Item>, item: Item, prefixes: seq<string>, answers: nat -> bool)
    ensures Failures([], prefixes, answers) == []
    ensures var before := Failures(items, prefixes, answers);
      var after := Failures(items + [item], prefixes, answers);
      && ((forall d :: d in prefixes ==> !IsUnderDir(d, item.key)) ==>
            after == before + [Refused(item.key)])
      && ((exists d :: d in prefixes && IsUnderDir(d, item.key)) && !answers(|items|) ==>
            after == before + [RemoveFailed(item.key)])
      && ((exists d :: d in prefixes && IsUnderDir(d, item.key)) && answers(|items|) ==> after == before)
  {
    assert (items + [item])[..|items|] == items;
    assert Failures(items, prefixes, answers) + [] == Failures(items, prefixes, answers);
  }

  /** What is removed, and so counted, in plan order: an item under a configured directory that the host agreed to
      remove. */
  lemma RemovedSnoc(items: seq<Item>, item: Item, prefixes: seq<string>, answers: nat -> bool)
    ensures Removed([], prefixes, answers) == [] && SumBytes([]) == 0
    ensures answers(|items|) && (exists d :: d in prefixes && IsUnderDir(d, item.key)) ==>
              Removed(items + [item], prefixes, answers) == Removed(items, prefixes, answers) + [item]
    ensures !answers(|items|) || (forall d :: d in prefixes ==> !IsUnderDir(d, item.key)) ==>
              Removed(items + [item], prefixes, answers) == Removed(items, prefixes, answers)
    ensures SumBytes(items + [item]) == SumBytes(items) + item.bytes
  {
    assert (items + [item])[..|items|] == items;
  }

  // ----- Containment -----

  lemma {:induction false} AttemptOrigin(items: seq<Item>, prefixes: seq<string>, p: string)
    requires p in Attempts(items, prefixes)
    ensures exists item :: item in items && p == Clean(item.key) && UnderAny(item.key, prefixes)
  {
    var n := |items| - 1;
    if p in Attempts(items[..n], prefixes) {
      AttemptOrigin(items[..n], prefixes, p);
      var item :| item in items[..n] && p == Clean(item.key) && UnderAny(item.key, prefixes);
      assert item in items;
    } else {
      assert items[n] in items;
    }
  }

  /** For absolute configured directories, every path handed to Host.Remove is clean and absolute, and a
      configured directory's elements are a prefix of its elements; under "/" only "/" itself qualifies. */
  lemma RemovalsContained(items: seq<Item>, prefixes: seq<string>, p: string)
    requires p in Attempts(items, prefixes)
    requires forall d :: d in prefixes ==> Rooted(d)
    ensures Clean(p) == p && Parse(p).rooted && forall i :: 0 <= i < |Parse(p).segs| ==> EntryName(Parse(p).segs[i])
    ensures exists d :: d in prefixes && AtOrAbove(Parse(d), Parse(p)) && (Parse(d).segs == [] ==> p == "/")
  {
    AttemptOrigin(items, prefixes, p);
    var item :| item in items && p == Clean(item.key) && UnderAny(item.key, prefixes);
    var d :| d in prefixes && IsUnderDir(d, item.key);
    AdmittedContained(d, item.key);
  }

  /** One admitted path, against the directory that admits it. */
  lemma AdmittedContained(d: string, key: string)
    requires Rooted(d) && IsUnderDir(d, key)
    ensures var p := Clean(key);
      && Clean(p) == p && Parse(p).rooted && AtOrAbove(Parse(d), Parse(p)) && (Parse(d).segs == [] ==> p == "/")
      && forall i :: 0 <= i < |Parse(p).segs| ==> EntryName(Parse(p).segs[i])
  {
    CleanIdempotent(key);
    UnderDirMeaning(d, key);
    ParseCanonical(key);
    var a, b := Parse(d), Parse(key);
    if a == b { assert b.segs[..|b.segs|] == b.segs; }
  }

  // ----- The planners -----

  /** A key some planner built: an entry name joined to one of the configured directories. */
  ghost predicate PlannedFrom(key: string, dirs: seq<string>) {
    exists d, name :: d in dirs && EntryName(name) && key == JoinPath(d, name)
  }

  /** A planned key is admitted exactly when some configured directory other than the root is a prefix of
      it; its own directory is one, unless that is "/". */
  lemma PlannedAdmitted(dirs: seq<string>, d: string, name: string)
    requires d in dirs && EntryName(name) && forall x :: x in dirs ==> Rooted(x)
    ensures UnderAny(JoinPath(d, name), dirs) <==>
            exists x :: x in dirs && Parse(x).segs != [] && AtOrAbove(Parse(x), Path(true, Parse(d).segs + [name]))
    ensures Parse(d).segs != [] ==> UnderAny(JoinPath(d, name), dirs)
    ensures Clean(JoinPath(d, name)) == JoinPath(d, name)
  {
    var key := JoinPath(d, name);
    JoinedEntry(d, name);
    CleanIdempotent(d + ['/'] + name);
    forall x | x in dirs
      ensures IsUnderDir(x, key) <==> Parse(x).segs != [] && AtOrAbove(Parse(x), Parse(key))
    {
      UnderDirMeaning(x, key);
      if |Parse(x).segs| == |Parse(key).segs| { assert Parse(key).segs[..|Parse(key).segs|] == Parse(key).segs; }
    }
    assert (Parse(d).segs + [name])[..|Parse(d).segs|] == Parse(d).segs;
  }

  /** With "/" as the only configured directory the planner's own items are all refused. */
  lemma RootRefusesItsOwnPlan(name: string)
    requires EntryName(name)
    ensures !UnderAny(JoinPath("/", name), ["/"])
  {
    PlannedAdmitted(["/"], "/", name);
    ParseRender(Path(true, []));
  }

  /** Planner and executor agree: from absolute non-root directories, every planned item is attempted,
      under exactly the path that was planned. */
  lemma {:induction false} PlansFullyAttempted(items: seq<Item>, dirs: seq<string>)
    requires forall x :: x in dirs ==> Rooted(x) && Parse(x).segs != []
    requires forall item :: item in items ==> PlannedFrom(item.key, dirs)
    ensures Attempts(items, dirs) == Keys(items)
  {
    if items != [] {
      var n := |items| - 1;
      PlansFullyAttempted(items[..n], dirs);
      assert items[n] in items;
      PlannedKeyAdmitted(items[n].key, dirs);
      AttemptsStep(items, dirs);
    }
  }

  function Keys(items: seq<Item>): seq<string> {
    if items == [] then [] else Keys(items[..|items| - 1]) + [items[|items| - 1].key]
  }

  lemma AttemptsStep(items: seq<Item>, dirs: seq<string>)
    requires items != [] && UnderAny(items[|items| - 1].key, dirs)
    ensures Attempts(items, dirs) == Attempts(items[..|items| - 1], dirs) + [Clean(items[|items| - 1].key)]
  {
  }

  lemma PlannedKeyAdmitted(key: string, dirs: seq<string>)
    requires PlannedFrom(key, dirs) && forall x :: x in dirs ==> Rooted(x) && Parse(x).segs != []
    ensures UnderAny(key, dirs) && Clean(key) == key
  {
    var d, name :| d in dirs && EntryName(name) && key == JoinPath(d, name);
    PlannedAdmitted(dirs, d, name);
  }

  /** The measured size of an entry: its own, or DirSize's answer for a directory. */
  function Measured(full: string, e: Entry, size: string -> Option<int>): Option<int> {
    if e.isDir then size(full) else Some(e.size)
  }

  /** One recycle directory: the old enough entries, directories measured with DirSize. None on a failed measurement. */
  function DirItems(dir: string, es: seq<Entry>, now: int, minAge: int,
        size: string -> Option<int>): Option<seq<Item>> {
    if es == [] then Some([])
    else
      var e := es[|es| - 1];
      match DirItems(dir, es[..|es| - 1], now, minAge, size)
      case None => None
      case Some(items) =>
        if now - e.modTime < minAge then Some(items)
        else
          var full := JoinPath(dir, e.name);
          match Measured(full, e, size)
          case None => None
          case Some(b) => Some(items + [Item(full, b)])
  }

  /** What the planner takes from a listing, in listing order: an entry as old as the limit or older, with the size
      measured for a directory and the listed one otherwise; a failed measurement fails the directory. */
  lemma DirItemsSnoc(dir: string, es: seq<Entry>, e: Entry, now: int, minAge: int, size: string -> Option<int>)
    ensures DirItems(dir, [], now, minAge, size) == Some([])
    ensures var before, path := DirItems(dir, es, now, minAge, size), JoinPath(dir, e.name);
      DirItems(dir, es + [e], now, minAge, size) ==
      if before.None? then None
      else if now - e.modTime < minAge then before
      else if e.isDir then (if size(path).None? then None else Some(before.value + [Item(path, size(path).value)]))
      else Some(before.value + [Item(path, e.size)])
  {
    assert (es + [e])[..|es|] == es;
  }

  function RecycleItems(dirs: seq<string>, list: string -> Option<seq<Entry>>, now: int, minAge: int,
        size: string -> Option<int>): Option<seq<Item>> {
    if dirs == [] then Some([])
    else match (RecycleItems(dirs[..|dirs| - 1], list, now, minAge, size), list(dirs[|dirs| - 1]))
      case (Some(items), Some(es)) =>
        (match DirItems(dirs[|dirs| - 1], es, now, minAge, size)
         case None => None
         case Some(more) => Some(items + more))
      case _ => None
  }

  lemma {:induction false} SumConcat(a: seq<Item>, b: seq<Item>)
    ensures SumBytes(a + b) == SumBytes(a) + SumBytes(b)
  {
    if b == [] {
      assert a + b == a;
    } else {
      SumConcat(a, b[..|b| - 1]);
      assert (a + b)[..|a + b| - 1] == a + b[..|b| - 1];
    }
  }

  lemma {:induction false} DirFailure(dir: string, es: seq<Entry>, now: int, minAge: int, size: string -> Option<int>,
        n: nat)
    requires n <= |es| && DirItems(dir, es[..n], now, minAge, size).None?
    ensures DirItems(dir, es, now, minAge, size).None?
    decreases |es|
  {
    if n == |es| {
      assert es[..n] == es;
    } else {
      assert es[..|es| - 1][..n] == es[..n];
      DirFailure(dir, es[..|es| - 1], now, minAge, size, n);
    }
  }

  lemma {:induction false} RecycleFailure(dirs: seq<string>, list: string -> Option<seq<Entry>>, now: int,
        minAge: int, size: string -> Option<int>, n: nat)
    requires n <= |dirs| && RecycleItems(dirs[..n], list, now, minAge, size).None?
    ensures RecycleItems(dirs, list, now, minAge, size).None?
    decreases |dirs|
  {
    if n == |dirs| {
      assert dirs[..n] == dirs;
    } else {
      assert dirs[..|dirs| - 1][..n] == dirs[..n];
      RecycleFailure(dirs[..|dirs| - 1], list, now, minAge, size, n);
    }
  }

  /** One more entry of a recycle directory. */
  lemma DirStep(dir: string, es: seq<Entry>, n: nat, now: int, minAge: int, size: string -> Option<int>,
        items: seq<Item>)
    requires n < |es| && DirItems(dir, es[..n], now, minAge, size) == Some(items)
    ensures var full := JoinPath(dir, es[n].name);
      var b := Measured(full, es[n], size);
      DirItems(dir, es[..n + 1], now, minAge, size) ==
      if now - es[n].modTime < minAge then Some(items)
      else if b.None? then None
      else Some(items + [Item(full, b.value)])
  {
    assert es[..n + 1][..n] == es[..n];
  }

  lemma SumSnoc(items: seq<Item>, item: Item)
    ensures SumBytes(items + [item]) == SumBytes(items) + item.bytes
  {
    assert (items + [item])[..|items|] == items;
  }

  /** recyclePlanner.Plan's inner loop. */
  method PlanDir(dir: string, es: seq<Entry>, now: int, minAge: int, size: string -> Option<int>)
    returns (ok: bool, items: seq<Item>, bytes: int)
    ensures ok <==> DirItems(dir, es, now, minAge, size).Some?
    ensures ok ==> items == DirItems(dir, es, now, minAge, size).value && bytes == SumBytes(items)
  {
    items, bytes := [], 0;
    for n := 0 to |es|
      invariant DirItems(dir, es[..n], now, minAge, size) == Some(items)
      invariant bytes == SumBytes(items)
    {
      var e := es[n];
      DirStep(dir, es, n, now, minAge, size, items);
      if now - e.modTime < minAge { continue; }
      var full := JoinPath(dir, e.name);
      var b := Measured(full, e, size);
      if b.None? {
        DirFailure(dir, es, now, minAge, size, n + 1);
        return false, items, bytes;
      }
      SumSnoc(items, Item(full, b.value));
      items := items + [Item(full, b.value)];
      bytes := bytes + b.value;
    }
    assert es[..|es|] == es;
    ok := true;
  }

  /** recyclePlanner.Plan: all directories, and Bytes is the sum over the items. */
  method RecyclePlan(host: bool, dirs: seq<string>, list: string -> Option<seq<Entry>>, now: int, minAge: int,
        size: string -> Option<int>)
    returns (r: Option<Plan>)
    ensures r.None? <==> !host || dirs == [] || RecycleItems(dirs, list, now, minAge, size).None?
    ensures r.Some? ==>
      var items := RecycleItems(dirs, list, now, minAge, size).value;
      r.value == Plan(Recycle, items, SumBytes(items))
  {
    if !host || dirs == [] { return None; }
    var items, bytes := [], 0;
    for n := 0 to |dirs|
      invariant RecycleItems(dirs[..n], list, now, minAge, size) == Some(items)
      invariant bytes == SumBytes(items)
    {
      assert dirs[..n + 1][..n] == dirs[..n];
      var es := list(dirs[n]);
      if es.None? {
        RecycleFailure(dirs, list, now, minAge, size, n + 1);
        return None;
      }
      var ok, more, b := PlanDir(dirs[n], es.value, now, minAge, size);
      if !ok {
        RecycleFailure(dirs, list, now, minAge, size, n + 1);
        return None;
      }
      SumConcat(items, more);
      items, bytes := items + more, bytes + b;
    }
    assert dirs[..|dirs|] == dirs;
    r := Some(Plan(Recycle, items, bytes));
  }

  lemma {:induction false} DirItemsPlanned(dir: string, es: seq<Entry>, now: int, minAge: int,
        size: string -> Option<int>, item: Item)
    requires DirItems(dir, es, now, minAge, size).Some? && item in DirItems(dir, es, now, minAge, size).value
    ensures exists e :: e in es && now - e.modTime >= minAge && item.key == JoinPath(dir, e.name)
  {
    var n := |es| - 1;
    if item in DirItems(dir, es[..n], now, minAge, size).value {
      DirItemsPlanned(dir, es[..n], now, minAge, size, item);
      var e :| e in es[..n] && now - e.modTime >= minAge && item.key == JoinPath(dir, e.name);
      assert e in es;
    } else {
      assert es[n] in es;
    }
  }

  /** Every recycle item is an entry of a configured directory, old enough, and therefore PlannedFrom it. */
  lemma {:induction false} RecycleItemsPlanned(dirs: seq<string>, list: string -> Option<seq<Entry>>, now: int,
        minAge: int, size: string -> Option<int>, item: Item)
    requires RecycleItems(dirs, list, now, minAge, size).Some?
        && item in RecycleItems(dirs, list, now, minAge, size).value
    ensures exists d, e ::
      d in dirs && list(d).Some? && e in list(d).value && now - e.modTime >= minAge && item.key == JoinPath(d, e.name)
  {
    var rest, last := dirs[..|dirs| - 1], dirs[|dirs| - 1];
    if item in RecycleItems(rest, list, now, minAge, size).value {
      RecycleItemsPlanned(rest, list, now, minAge, size, item);
      var d, e :| d in rest && list(d).Some? && e in list(d).value && now - e.modTime >= minAge
          && item.key == JoinPath(d, e.name);
      assert d in dirs;
    } else {
      DirItemsPlanned(last, list(last).value, now, minAge, size, item);
      assert last in dirs;
    }
  }

  /** The orphans old enough, in order. */
  function OrphanItems(os: seq<Orphan>, now: int, minAge: int): seq<Item> {
    if os == [] then []
    else if now - os[|os| - 1].modTime < minAge then OrphanItems(os[..|os| - 1], now, minAge)
    else OrphanItems(os[..|os| - 1], now, minAge) + [Item(os[|os| - 1].path, os[|os| - 1].size)]
  }

  /** orphansPlanner.Plan: None when FindOrphans fails (qbit is whether there is a client for it); otherwise every
      old enough orphan of its answer, in order, with Bytes their sum. */
  method OrphansPlan(cfg: Config, qbit: bool, torrents: Option<seq<Torrent>>, list: string -> Option<seq<Entry>>,
      now: int, minAge: int)
    returns (r: Option<Plan>)
    ensures r.None? <==> !cfg.host || !qbit || cfg.downloadsDirs == [] || torrents.None?
                         || AllUnaccounted(torrents.value, cfg.downloadsDirs, list).None?
    ensures r.Some? ==>
      var os := AllUnaccounted(torrents.value, cfg.downloadsDirs, list).value;
      && r.value == Plan(OrphanFiles, OrphanItems(os, now, minAge), SumBytes(OrphanItems(os, now, minAge)))
      && forall item :: item in r.value.items <==>
           exists o :: o in os && now - o.modTime >= minAge && item == Item(o.path, o.size)
  {
    var os := FindOrphans(cfg.host && qbit, cfg.downloadsDirs, torrents, list);
    if os.None? { return None; }
    var plan := PlanOrphans(os.value, now, minAge);
    forall item ensures item in plan.items <==>
      exists o :: o in os.value && now - o.modTime >= minAge && item == Item(o.path, o.size)
    {
      OrphanItemMembers(os.value, now, minAge, item);
    }
    r := Some(plan);
  }

  /** The loop of orphansPlanner.Plan. */
  method PlanOrphans(os: seq<Orphan>, now: int, minAge: int) returns (plan: Plan)
    ensures plan == Plan(OrphanFiles, OrphanItems(os, now, minAge), SumBytes(OrphanItems(os, now, minAge)))
  {
    var items, bytes := [], 0;
    for n := 0 to |os|
      invariant items == OrphanItems(os[..n], now, minAge) && bytes == SumBytes(items)
    {
      assert os[..n + 1][..n] == os[..n];
      var o := os[n];
      if now - o.modTime < minAge { continue; }
      SumSnoc(items, Item(o.path, o.size));
      items, bytes := items + [Item(o.path, o.size)], bytes + o.size;
    }
    assert os[..|os|] == os;
    plan := Plan(OrphanFiles, items, bytes);
  }

  lemma {:induction false} OrphanItemMembers(os: seq<Orphan>, now: int, minAge: int, item: Item)
    ensures item in OrphanItems(os, now, minAge) <==>
            exists o :: o in os && now - o.modTime >= minAge && item == Item(o.path, o.size)
  {
    if os != [] {
      OrphanItemMembers(os[..|os| - 1], now, minAge, item);
      assert os == os[..|os| - 1] + [os[|os| - 1]];
    }
  }

  /** In the order they were found: an orphan as old as the limit or older becomes an item, no other does. */
  lemma OrphanItemsSnoc(os: seq<Orphan>, o: Orphan, now: int, minAge: int)
    ensures OrphanItems([], now, minAge) == []
    ensures OrphanItems(os + [o], now, minAge) ==
            OrphanItems(os, now, minAge) + (if now - o.modTime >= minAge then [Item(o.path, o.size)] else [])
  {
    assert (os + [o])[..|os|] == os;
    assert OrphanItems(os, now, minAge) + [] == OrphanItems(os, now, minAge);
  }

  /** Whatever the planner puts in an orphan plan is an entry of a downloads directory that no torrent
      accounts for. */
  lemma OrphanPlanPlanned(ts: seq<Torrent>, dirs: seq<string>, list: string -> Option<seq<Entry>>, now: int,
      minAge: int, item: Item)
    requires AllUnaccounted(ts, dirs, list).Some? && RealNames(dirs, list)
    requires item in OrphanItems(AllUnaccounted(ts, dirs, list).value, now, minAge)
    ensures PlannedFrom(item.key, dirs) && !Accounted(ts, item.key)
  {
    var os := AllUnaccounted(ts, dirs, list).value;
    OrphanItemMembers(os, now, minAge, item);
    var o :| o in os && now - o.modTime >= minAge && item == Item(o.path, o.size);
    OrphanMembers(ts, dirs, list, o);
    var d :| d in dirs && list(d).Some? && o in Entries(d, list(d).value);
    var e := EntriesAt(d, list(d).value, o);
  }

  /** Planner and executor agree on orphans: every path of the plan is tried, as planned. */
  lemma OrphanPlanFullyAttempted(ts: seq<Torrent>, dirs: seq<string>, list: string -> Option<seq<Entry>>, now: int,
      minAge: int)
    requires AllUnaccounted(ts, dirs, list).Some? && RealNames(dirs, list)
    requires forall x :: x in dirs ==> Rooted(x) && Parse(x).segs != []
    ensures var items := OrphanItems(AllUnaccounted(ts, dirs, list).value, now, minAge);
      Attempts(items, dirs) == Keys(items)
  {
    var items := OrphanItems(AllUnaccounted(ts, dirs, list).value, now, minAge);
    forall item | item in items ensures PlannedFrom(item.key, dirs) {
      OrphanPlanPlanned(ts, dirs, list, now, minAge, item);
    }
    PlansFullyAttempted(items, dirs);
  }

  /** And on recycle directories. */
  lemma RecyclePlanFullyAttempted(dirs: seq<string>, list: string -> Option<seq<Entry>>, now: int, minAge: int,
      size: string -> Option<int>)
    requires RecycleItems(dirs, list, now, minAge, size).Some? && RealNames(dirs, list)
    requires forall x :: x in dirs ==> Rooted(x) && Parse(x).segs != []
    ensures var items := RecycleItems(dirs, list, now, minAge, size).value; Attempts(items, dirs) == Keys(items)
  {
    var items := RecycleItems(dirs, list, now, minAge, size).value;
    forall item | item in items ensures PlannedFrom(item.key, dirs) {
      RecycleItemsPlanned(dirs, list, now, minAge, size, item);
    }
    PlansFullyAttempted(items, dirs);
  }

  /** Orphan removal is safe end to end: no path the executor tries for an orphan plan is the content of a
      torrent whose content is Kept, an ancestor of it, or SavePath/Name of any. */
  lemma OrphanRemovalSafe(ts: seq<Torrent>, dirs: seq<string>, list: string -> Option<seq<Entry>>, now: int,
      minAge: int, p: string, t: Torrent)
    requires AllUnaccounted(ts, dirs, list).Some? && t in ts && RealNames(dirs, list)
    requires p in Attempts(OrphanItems(AllUnaccounted(ts, dirs, list).value, now, minAge), dirs)
    requires forall d :: d in dirs ==> Rooted(d)
    requires t.contentPath != "" ==> Kept(ts, dirs, t.contentPath)
    ensures t.contentPath != "" ==> !AtOrAbove(Parse(p), Parse(t.contentPath))
    ensures t.savePath != "" && t.name != "" ==> p != JoinPath(t.savePath, t.name)
  {
    var os := AllUnaccounted(ts, dirs, list).value;
    AttemptOrigin(OrphanItems(os, now, minAge), dirs, p);
    var item :| item in OrphanItems(os, now, minAge) && p == Clean(item.key) && UnderAny(item.key, dirs);
    OrphanItemMembers(os, now, minAge, item);
    var o :| o in os && now - o.modTime >= minAge && item == Item(o.path, o.size);
    OrphanPlanPlanned(ts, dirs, list, now, minAge, item);
    var d, name :| d in dirs && EntryName(name) && item.key == JoinPath(d, name);
    PlannedAdmitted(dirs, d, name);
    OrphanSafety(ts, dirs, list, o, t);
  }
}
