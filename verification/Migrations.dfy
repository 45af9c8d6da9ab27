/** Schema migrations (internal/store/migrate.go): each in its own transaction, resumable after a crash. */
module Migrations {
  import opened Text
  import opened Sorting

  /** migrationVersion: the number before the first underscore; None is the error. */
  function Version(name: string): Option<int> {
    match Cut(name, '_') case None => None case Some((prefix, _)) => ParseInt64(prefix)
  }

  /** A migration file with its version. */
  datatype Migration = Migration(name: string, version: int)

  /** The files migrate gets to, in order: it stops with an error at the first name it cannot parse. */
  function Parsed(names: seq<string>): seq<Migration> { ParsedBy(names, Version) }

  function ParsedBy(names: seq<string>, version: string -> Option<int>): seq<Migration> {
    if names == [] || version(names[0]).None? then []
    else [Migration(names[0], version(names[0]).value)] + ParsedBy(names[1..], version)
  }

  /** sortedMigrationNames: the embedded files in byte order. */
  function SortedNames(files: seq<string>): seq<string> { Sort(Less, files) }

  /** schema_meta.version (0 before it exists) and every script committed so far, in order. */
  datatype Db = Db(version: int, applied: seq<Migration>)

  const FRESH := Db(0, [])

  /** The names a run will apply: those above the version it read at its start. */
  function Pending(ms: seq<Migration>, current: int): seq<Migration> {
    if ms == [] then []
    else Pending(ms[..|ms| - 1], current) + if ms[|ms| - 1].version > current then [ms[|ms| - 1]] else []
  }

  /** applyMigration's transaction: the script and the version together. */
  function Commit(db: Db, m: Migration): Db {
    Db(m.version, db.applied + [m])
  }

  function CommitAll(db: Db, ns: seq<Migration>): Db {
    if ns == [] then db else Commit(CommitAll(db, ns[..|ns| - 1]), ns[|ns| - 1])
  }

  lemma {:induction false} PendingMembers(ms: seq<Migration>, current: int)
    ensures forall i :: 0 <= i < |Pending(ms, current)| ==> Pending(ms, current)[i].version > current
    ensures |Pending(ms, current)| <= |ms|
  {
    if ms != [] { PendingMembers(ms[..|ms| - 1], current); }
  }

  function Min(a: nat, b: nat): nat { if a < b then a else b }

  /** A run that gets through at most k transactions before the process dies or a statement fails; a
      transaction it dies in leaves nothing behind. */
  function RunUpTo(ms: seq<Migration>, db: Db, k: nat): Db {
    var p := Pending(ms, db.version);
    CommitAll(db, p[..Min(k, |p|)])
  }

  function RunAll(ms: seq<Migration>, db: Db): Db {
    RunUpTo(ms, db, |ms|)
  }

  /** migrate: fuse is how many transactions commit before one fails. ok is a nil error. */
  method Migrate(files: seq<string>, db: Db, fuse: nat) returns (ok: bool, db': Db)
    ensures db' == RunUpTo(Parsed(SortedNames(files)), db, fuse)
    ensures ok <==> |Parsed(SortedNames(files))| == |files| && |Pending(Parsed(SortedNames(files)), db.version)| <= fuse
  {
    SortPermutes(Less, files);
    SameLength(SortedNames(files), files);
    ok, db' := ApplyAll(SortedNames(files), db, fuse);
  }

  lemma SameLength(a: seq<string>, b: seq<string>)
    requires multiset(a) == multiset(b)
    ensures |a| == |b|
  {
    assert |multiset(a)| == |a| && |multiset(b)| == |b|;
  }

  /** The loop of migrate, over names in the order given. */
  method ApplyAll(names: seq<string>, db: Db, fuse: nat) returns (ok: bool, db': Db)
    ensures db' == RunUpTo(Parsed(names), db, fuse)
    ensures ok <==> |Parsed(names)| == |names| && |Pending(Parsed(names), db.version)| <= fuse
  {
    var current := db.version;
    db' := db;
    var left: nat := fuse;
    ghost var all := Parsed(names);
    ghost var done: seq<Migration> := [];
    assert names[0..] == names;
    ParsedLength(names);
    for n := 0 to |names|
      invariant n <= |all| && Parsed(names[n..]) == all[n..]
      invariant done == Pending(all[..n], current) && |done| == fuse - left
      invariant db' == CommitAll(db, done)
    {
      ParsedStep(names, n, all);
      var v := Version(names[n]);
      if v.None? {
        PrefixOfAll(all, n, current, fuse);
        return false, db';
      }
      PendingNext(all, n, current);
      if v.value <= current { continue; }
      if left == 0 {
        PrefixOfAll(all, n, current, fuse);
        return false, db';
      }
      left := left - 1;
      CommitSnoc(db, done, all[n]);
      done := done + [all[n]];
      db' := Commit(db', Migration(names[n], v.value));
    }
    PrefixOfAll(all, |names|, current, fuse);
    ok := true;
  }

  lemma PendingNext(all: seq<Migration>, n: nat, current: int)
    requires n < |all|
    ensures Pending(all[..n + 1], current) ==
            if all[n].version > current then Pending(all[..n], current) + [all[n]] else Pending(all[..n], current)
    ensures |Pending(all[..n + 1], current)| <= |Pending(all, current)|
  {
    PendingSnoc(all[..n], all[n], current);
    assert all[..n + 1] == all[..n] + [all[n]];
    assert Pending(all[..n], current) + [] == Pending(all[..n], current);
    PendingPrefix(all, n + 1, current);
  }

  lemma ParsedStep(names: seq<string>, n: nat, all: seq<Migration>)
    requires n < |names| && n <= |all| && Parsed(names[n..]) == all[n..]
    ensures Version(names[n]).None? ==> |all| == n
    ensures Version(names[n]).Some? ==>
      n < |all| && all[n] == Migration(names[n], Version(names[n]).value) && Parsed(names[n + 1..]) == all[n + 1..]
  {
    var rest := names[n..];
    assert rest[0] == names[n] && rest[1..] == names[n + 1..];
    if Version(names[n]).Some? {
      assert all[n..][0] == all[n];
      assert all[n..][1..] == all[n + 1..];
    }
  }

  lemma {:induction false} ParsedLength(names: seq<string>)
    ensures |Parsed(names)| <= |names|
  {
    if names != [] { ParsedLength(names[1..]); }
  }

  /** What has been committed when the loop stops at n, as the prefix RunUpTo takes. */
  lemma PrefixOfAll(all: seq<Migration>, n: nat, current: int, fuse: nat)
    requires n <= |all| && |Pending(all[..n], current)| <= fuse
    requires n == |all| || |Pending(all[..n], current)| == fuse
    ensures var p := Pending(all, current); Pending(all[..n], current) == p[..Min(fuse, |p|)]
    ensures n == |all| ==> |Pending(all, current)| <= fuse
  {
    PendingPrefix(all, n, current);
    if n == |all| { assert all[..n] == all; }
    var p := Pending(all, current);
    assert p[..|p|] == p;
  }

  lemma PendingSnoc(ms: seq<Migration>, m: Migration, current: int)
    ensures Pending(ms + [m], current) == Pending(ms, current) + if m.version > current then [m] else []
  {
    assert (ms + [m])[..|ms|] == ms;
  }

  lemma CommitSnoc(db: Db, ms: seq<Migration>, m: Migration)
    ensures CommitAll(db, ms + [m]) == Commit(CommitAll(db, ms), m)
  {
    assert (ms + [m])[..|ms|] == ms;
  }

  lemma {:induction false} PendingPrefix(ms: seq<Migration>, n: nat, current: int)
    requires n <= |ms|
    ensures |Pending(ms[..n], current)| <= |Pending(ms, current)|
    ensures Pending(ms, current)[..|Pending(ms[..n], current)|] == Pending(ms[..n], current)
  {
    if n == |ms| {
      assert ms[..n] == ms;
    } else {
      PendingPrefix(ms[..|ms| - 1], n, current);
      assert ms[..|ms| - 1][..n] == ms[..n];
    }
  }

  // ----- Crashes -----

  /** Runs that die after the given numbers of commits, one after the other. */
  function AfterCrashes(ms: seq<Migration>, crashes: seq<nat>): Db {
    if crashes == [] then FRESH else RunUpTo(ms, AfterCrashes(ms, crashes[..|crashes| - 1]), crashes[|crashes| - 1])
  }

  ghost predicate Increasing(ms: seq<Migration>) {
    forall i, j :: 0 <= i < j < |ms| ==> ms[i].version < ms[j].version
  }

  /** What there is to apply on a new database: the names with a positive version. */
  function Wanted(ms: seq<Migration>): seq<Migration> {
    Pending(ms, 0)
  }

  lemma {:induction false} CommitAllFacts(db: Db, ns: seq<Migration>)
    ensures CommitAll(db, ns) == Db(if ns == [] then db.version else ns[|ns| - 1].version, db.applied + ns)
  {
    if ns == [] {
      assert db.applied + ns == db.applied;
    } else {
      CommitAllFacts(db, ns[..|ns| - 1]);
      assert db.applied + ns[..|ns| - 1] + [ns[|ns| - 1]] == db.applied + ns;
    }
  }

  /** The pending names above a non-negative version are the wanted names above it. */
  lemma {:induction false} PendingOfWanted(ms: seq<Migration>, current: int)
    requires current >= 0
    ensures Pending(ms, current) == Pending(Wanted(ms), current)
  {
    if ms != [] {
      var rest, last := ms[..|ms| - 1], ms[|ms| - 1];
      PendingOfWanted(rest, current);
      PendingSnoc(Wanted(rest), last, current);
      assert Wanted(rest) + [] == Wanted(rest);
    }
  }

  lemma {:induction false} PendingConcat(a: seq<Migration>, b: seq<Migration>, current: int)
    ensures Pending(a + b, current) == Pending(a, current) + Pending(b, current)
  {
    if b == [] {
      assert a + b == a;
    } else {
      var rest, last := b[..|b| - 1], b[|b| - 1];
      PendingConcat(a, rest, current);
      assert a + b == (a + rest) + [last] && b == rest + [last];
      PendingSnoc(a + rest, last, current);
      PendingSnoc(rest, last, current);
      ConcatAssociative(Pending(a, current), Pending(rest, current), if last.version > current then [last] else []);
    }
  }

  lemma ConcatAssociative(a: seq<Migration>, b: seq<Migration>, c: seq<Migration>)
    ensures (a + b) + c == a + (b + c)
  {
  }

  lemma {:induction false} PendingNone(ms: seq<Migration>, current: int)
    requires forall i :: 0 <= i < |ms| ==> ms[i].version <= current
    ensures Pending(ms, current) == []
  {
    if ms != [] { PendingNone(ms[..|ms| - 1], current); }
  }

  lemma {:induction false} PendingEvery(ms: seq<Migration>, current: int)
    requires forall i :: 0 <= i < |ms| ==> ms[i].version > current
    ensures Pending(ms, current) == ms
  {
    if ms != [] {
      PendingEvery(ms[..|ms| - 1], current);
      assert ms == ms[..|ms| - 1] + [ms[|ms| - 1]];
    }
  }

  /** When the first k are applied and the rest are above the version, what is pending is exactly the rest. */
  lemma PendingIsSuffix(w: seq<Migration>, k: nat, current: int)
    requires k <= |w|
    requires forall i :: 0 <= i < k ==> w[i].version <= current
    requires forall i :: k <= i < |w| ==> w[i].version > current
    ensures Pending(w, current) == w[k..]
  {
    PendingNone(w[..k], current);
    PendingEvery(w[k..], current);
    PendingConcat(w[..k], w[k..], current);
    assert w == w[..k] + w[k..];
  }

  /** The database after the first k wanted migrations. */
  ghost predicate AtStage(db: Db, w: seq<Migration>, k: nat) {
    k <= |w| && db.applied == w[..k] && db.version == if k == 0 then 0 else w[k - 1].version
  }

  /** At a stage, what is pending is the rest of what is wanted. */
  lemma StagePending(ms: seq<Migration>, w: seq<Migration>, db: Db, k: nat)
    requires w == Wanted(ms) && Increasing(w) && AtStage(db, w, k)
    ensures Pending(ms, db.version) == w[k..]
  {
    PendingMembers(ms, 0);
    StageVersion(db, w, k);
    PendingOfWanted(ms, db.version);
    PendingIsSuffix(w, k, db.version);
  }

  /** One run, however far it gets, moves from one stage to a later one. */
  lemma RunMovesStage(ms: seq<Migration>, w: seq<Migration>, db: Db, k: nat, fuse: nat)
    requires w == Wanted(ms) && Increasing(w) && AtStage(db, w, k)
    ensures AtStage(RunUpTo(ms, db, fuse), w, k + Min(fuse, |w| - k))
  {
    StagePending(ms, w, db, k);
    RunFromStage(ms, db, w, k, fuse);
  }

  lemma RunFromStage(ms: seq<Migration>, db: Db, w: seq<Migration>, k: nat, fuse: nat)
    requires AtStage(db, w, k) && Pending(ms, db.version) == w[k..]
    ensures AtStage(RunUpTo(ms, db, fuse), w, k + Min(fuse, |w| - k))
  {
    CommitSome(db, w, k, Min(fuse, |w| - k));
  }

  /** At a stage, the version separates what has been applied from what has not. */
  lemma StageVersion(db: Db, w: seq<Migration>, k: nat)
    requires Increasing(w) && AtStage(db, w, k) && forall i :: 0 <= i < |w| ==> w[i].version > 0
    ensures db.version >= 0
    ensures forall i :: 0 <= i < k ==> w[i].version <= db.version
    ensures forall i :: k <= i < |w| ==> w[i].version > db.version
  {
  }

  lemma CommitSome(db: Db, w: seq<Migration>, k: nat, m: nat)
    requires AtStage(db, w, k) && k + m <= |w|
    ensures AtStage(CommitAll(db, w[k..][..m]), w, k + m)
  {
    CommitAllFacts(db, w[k..][..m]);
    assert w[..k] + w[k..][..m] == w[..k + m];
    if m > 0 { assert w[k..][..m][m - 1] == w[k + m - 1]; }
  }

  lemma {:induction false} CrashesMoveStages(ms: seq<Migration>, crashes: seq<nat>) returns (k: nat)
    requires Increasing(Wanted(ms))
    ensures AtStage(AfterCrashes(ms, crashes), Wanted(ms), k)
  {
    if crashes == [] {
      k := 0;
    } else {
      var k0 := CrashesMoveStages(ms, crashes[..|crashes| - 1]);
      RunMovesStage(ms, Wanted(ms), AfterCrashes(ms, crashes[..|crashes| - 1]), k0, crashes[|crashes| - 1]);
      k := k0 + Min(crashes[|crashes| - 1], |Wanted(ms)| - k0);
    }
  }

  /** Any crashes, then one completed run. */
  function Eventually(ms: seq<Migration>, crashes: seq<nat>): Db {
    RunAll(ms, AfterCrashes(ms, crashes))
  }

  lemma CompletedRun(ms: seq<Migration>, crashes: seq<nat>)
    requires Increasing(Wanted(ms))
    ensures AtStage(Eventually(ms, crashes), Wanted(ms), |Wanted(ms)|)
    ensures RunAll(ms, Eventually(ms, crashes)) == Eventually(ms, crashes)
  {
    PendingMembers(ms, 0);
    var k := CrashesMoveStages(ms, crashes);
    RunMovesStage(ms, Wanted(ms), AfterCrashes(ms, crashes), k, |ms|);
    RunMovesStage(ms, Wanted(ms), Eventually(ms, crashes), |Wanted(ms)|, |ms|);
  }

  /** Exactly once and in order, whatever the crashes, if and only if the positive versions strictly increase
      in name order; rerunning is then a no-op (CompletedRun) and the version is the top one. */
  lemma ExactlyOnceIffIncreasing(ms: seq<Migration>)
    ensures (forall crashes :: Eventually(ms, crashes).applied == Wanted(ms)) <==> Increasing(Wanted(ms))
  {
    PendingMembers(ms, 0);
    var w := Wanted(ms);
    if Increasing(w) {
      forall crashes ensures Eventually(ms, crashes).applied == w {
        CompletedRun(ms, crashes);
        assert w[..|w|] == w;
      }
    } else {
      var i := AdjacentDrop(w);
      SkippedAfterCrash(ms, i);
      assert Eventually(ms, [i + 1]).applied != w;
    }
  }

  lemma {:induction false} AdjacentDrop(w: seq<Migration>) returns (i: nat)
    requires !Increasing(w)
    ensures i + 1 < |w| && w[i].version >= w[i + 1].version
  {
    i := 0;
    while i + 1 < |w| && w[i].version < w[i + 1].version
      invariant i <= |w|
      invariant forall a, b :: 0 <= a < b <= i && b < |w| ==> w[a].version < w[b].version
    {
      i := i + 1;
    }
  }

  /** Two neighbours out of order: dying between them loses the second. */
  lemma SkippedAfterCrash(ms: seq<Migration>, i: nat)
    requires i + 1 < |Wanted(ms)| && Wanted(ms)[i].version >= Wanted(ms)[i + 1].version
    ensures Eventually(ms, [i + 1]).applied != Wanted(ms)
  {
    var w := Wanted(ms);
    var db := CommitAll(FRESH, w[..i + 1]);
    CrashAfter(ms, i + 1);
    CommitAllFacts(FRESH, w[..i + 1]);
    PendingMembers(ms, db.version);
    var p := Pending(ms, db.version);
    assert p[..|p|] == p;
    CommitAllFacts(db, p);
    assert [] + w[..i + 1] == w[..i + 1];
    OutOfPlace(w, i + 1, p);
  }

  /** The database after a first run that dies behind k commits. */
  lemma CrashAfter(ms: seq<Migration>, k: nat)
    requires k <= |Wanted(ms)|
    ensures AfterCrashes(ms, [k]) == CommitAll(FRESH, Wanted(ms)[..k])
  {
    assert [k][..0] == [];
    assert AfterCrashes(ms, [k]) == RunUpTo(ms, FRESH, k);
  }

  /** A continuation whose versions all exceed that of w[k] does not go on with w[k]. */
  lemma OutOfPlace(w: seq<Migration>, k: nat, p: seq<Migration>)
    requires k < |w| && forall i :: 0 <= i < |p| ==> p[i].version > w[k].version
    ensures w[..k] + p != w
  {
    assert p != [] ==> (w[..k] + p)[k] == p[0];
  }

  // ----- Names -----

  /** A zero-padded prefix is read back as the number. */
  lemma PaddedVersion(n: nat, w: nat, x: string)
    requires 0 < w && n < Pow10(w) <= MAX_INT64
    ensures Version(Pad(n, w) + ['_'] + x) == Some(n)
  {
    CutAt(Pad(n, w), '_', x);
    ParsePad(n, w);
  }

  lemma ParsePad(n: nat, w: nat)
    requires 0 < w && n < Pow10(w) <= MAX_INT64
    ensures ParseInt64(Pad(n, w)) == Some(n)
  {
    ValuePad(n, w);
    ParsePositive(Pad(n, w));
  }

  lemma {:induction false} ValuePad(n: nat, w: nat)
    requires n < Pow10(w)
    ensures Value(Pad(n, w)) == n
  {
    if w > 0 {
      ValuePad(n / 10, w - 1);
      assert Pad(n, w)[..w - 1] == Pad(n / 10, w - 1);
    }
  }

  /** The naming scheme: a positive number in exactly w digits, an underscore, anything. */
  ghost predicate Numbered(name: string, v: nat, w: nat, x: string) {
    0 < v < Pow10(w) && name == Pad(v, w) + ['_'] + x
  }

  ghost predicate FollowsScheme(name: string, w: nat) { exists v: nat, x: string :: Numbered(name, v, w, x) }

  /** Byte order of two names of the scheme with different numbers is the order of the numbers. */
  lemma NumberedOrder(a: string, v: nat, x: string, b: string, u: nat, y: string, w: nat)
    requires Numbered(a, v, w, x) && Numbered(b, u, w, y) && v != u && !Less(b, a)
    ensures v < u
  {
    assert a == Pad(v, w) + (['_'] + x) && b == Pad(u, w) + (['_'] + y);
    PadOrder(u, v, w);
    LessConcat(Pad(u, w), Pad(v, w), ['_'] + y, ['_'] + x);
  }

  /** version reads the number of a name of the scheme. */
  ghost predicate Reads(version: string -> Option<int>, name: string, w: nat) {
    exists v: nat, x: string :: Numbered(name, v, w, x) && version(name) == Some(v)
  }

  lemma SchemeReads(name: string, w: nat)
    requires FollowsScheme(name, w) && Pow10(w) <= MAX_INT64
    ensures Reads(Version, name, w)
  {
    var v: nat, x: string :| Numbered(name, v, w, x);
    PaddedVersion(v, w, x);
  }

  lemma ReadsOrder(version: string -> Option<int>, a: string, b: string, w: nat)
    requires Reads(version, a, w) && Reads(version, b, w) && version(a) != version(b) && !Less(b, a)
    ensures 0 < version(a).value < version(b).value
  {
    var v: nat, x: string :| Numbered(a, v, w, x) && version(a) == Some(v);
    var u: nat, y: string :| Numbered(b, u, w, y) && version(b) == Some(u);
    NumberedOrder(a, v, x, b, u, y, w);
  }

  /** Sorting the names sorts their distinct numbers. */
  lemma SortedNumbers(version: string -> Option<int>, files: seq<string>, w: nat)
    requires forall f :: f in files ==> Reads(version, f, w)
    requires forall i, j :: 0 <= i < j < |files| ==> version(files[i]) != version(files[j])
    ensures var names := SortedNames(files);
      && |names| == |files|
      && (forall i :: 0 <= i < |names| ==> version(names[i]).Some? && version(names[i]).value > 0)
      && forall i, j :: 0 <= i < j < |names| ==> version(names[i]).value < version(names[j]).value
  {
    var names := SortedNames(files);
    SortPermutes(Less, files);
    SameLength(names, files);
    NameOrder();
    SortIsStable(Less, files);
    forall i | 0 <= i < |names| ensures Reads(version, names[i], w) { assert names[i] in multiset(files); }
    forall i, j | 0 <= i < j < |names| ensures version(names[i]).value < version(names[j]).value {
      DistinctSurvives(version, files, names, i, j);
      ReadsOrder(version, names[i], names[j], w);
    }
  }

  lemma {:induction false} ParsedAll(names: seq<string>, version: string -> Option<int>)
    requires forall i :: 0 <= i < |names| ==> version(names[i]).Some?
    ensures |ParsedBy(names, version)| == |names|
    ensures forall i :: 0 <= i < |names| ==>
              ParsedBy(names, version)[i] == Migration(names[i], version(names[i]).value)
  {
    if names != [] {
      var rest := names[1..];
      assert forall i :: 1 <= i < |names| ==> names[i] == rest[i - 1];
      ParsedAll(rest, version);
    }
  }

  lemma NameOrder()
    ensures WeakOrder(Less)
  {
    forall x, y | Less(x, y) ensures !Less(y, x) { LessAsymmetric(x, y); }
    forall x, y, z | Less(x, z) ensures Less(x, y) || Less(y, z) { LessNegativelyTransitive(x, y, z); }
  }

  /** Files of the scheme with distinct numbers, in whatever order they are listed: sorting puts them in strictly
      increasing order of their positive versions, and all of them are wanted. */
  lemma SchemeIncreases(files: seq<string>, w: nat)
    requires Pow10(w) <= MAX_INT64 && forall f :: f in files ==> FollowsScheme(f, w)
    requires forall i, j :: 0 <= i < j < |files| ==> Version(files[i]) != Version(files[j])
    ensures var ms := Parsed(SortedNames(files));
      |ms| == |files| && Wanted(ms) == ms && Increasing(ms)
  {
    forall f | f in files ensures Reads(Version, f, w) { SchemeReads(f, w); }
    SortedNumbers(Version, files, w);
    ParsedIncreases(SortedNames(files), Version);
  }

  lemma ParsedIncreases(names: seq<string>, version: string -> Option<int>)
    requires forall i :: 0 <= i < |names| ==> version(names[i]).Some? && version(names[i]).value > 0
    requires forall i, j :: 0 <= i < j < |names| ==> version(names[i]).value < version(names[j]).value
    ensures var ms := ParsedBy(names, version); |ms| == |names| && Wanted(ms) == ms && Increasing(ms)
  {
    ParsedAll(names, version);
    PendingEvery(ParsedBy(names, version), 0);
  }

  /** So the shipped naming scheme meets the condition: under every crash schedule each file is applied exactly
      once, in order, and the schema ends at the top version. */
  lemma SchemeAppliedOnce(files: seq<string>, w: nat, crashes: seq<nat>)
    requires Pow10(w) <= MAX_INT64 && forall f :: f in files ==> FollowsScheme(f, w)
    requires forall i, j :: 0 <= i < j < |files| ==> Version(files[i]) != Version(files[j])
    ensures var ms, db := Parsed(SortedNames(files)), Eventually(Parsed(SortedNames(files)), crashes);
      db.applied == ms && |ms| == |files| && db.version == if ms == [] then 0 else ms[|ms| - 1].version
  {
    SchemeIncreases(files, w);
    var ms := Parsed(SortedNames(files));
    CompletedRun(ms, crashes);
    assert ms[..|ms|] == ms;
  }

  // ----- Names outside the scheme -----

  lemma DecimalVersion(n: nat, x: string)
    requires n <= MAX_INT64
    ensures Version(Decimal(n) + ['_'] + x) == Some(n)
  {
    CutAt(Decimal(n), '_', x);
    ValueDecimal(n);
    ParsePositive(Decimal(n));
  }

  /** Two files in byte order, listed either way. */
  lemma SortTwo(a: string, b: string)
    requires Less(b, a)
    ensures SortedNames([a, b]) == [b, a]
  {
    LessAsymmetric(a, b);
    assert [a, b][..1] == [a] && [a][..0] == [] && Sort(Less, [a]) == [a];
    assert Sort(Less, [a, b]) == Insert(Less, [a], b);
    assert Insert(Less, [], b) == [b];
  }

  /** Without the padding the condition fails: a tenth migration sorts before the ninth, and when the process dies
      between the two, the run that then completes leaves the ninth out. */
  lemma UnpaddedNamesSkip(x: string, y: string)
    ensures var ninth, tenth := Decimal(9) + ['_'] + x, Decimal(10) + ['_'] + y;
      var ms := Parsed(SortedNames([ninth, tenth]));
      && ms == [Migration(tenth, 10), Migration(ninth, 9)] && !Increasing(Wanted(ms))
      && Eventually(ms, [1]).applied == [Migration(tenth, 10)]
  {
    var ninth, tenth := Decimal(9) + ['_'] + x, Decimal(10) + ['_'] + y;
    DecimalVersion(9, x);
    DecimalVersion(10, y);
    assert ninth[0] == '9' && tenth[0] == '1' by { assert Decimal(10) == "1" + "0"; }
    SortTwo(ninth, tenth);
    ParsedTwo(tenth, 10, ninth, 9);
    LowerSecondSkipped(Migration(tenth, 10), Migration(ninth, 9));
  }

  lemma ParsedTwo(a: string, v: int, b: string, u: int)
    requires Version(a) == Some(v) && Version(b) == Some(u)
    ensures Parsed([a, b]) == [Migration(a, v), Migration(b, u)]
  {
    ParsedAll([a, b], Version);
  }

  lemma LowerSecondSkipped(a: Migration, b: Migration)
    requires 0 < b.version < a.version
    ensures !Increasing(Wanted([a, b])) && Eventually([a, b], [1]).applied == [a]
  {
    PendingEvery([a, b], 0);
    CrashAfter([a, b], 1);
    assert [a, b][..1] == [a];
    CommitAllFacts(FRESH, [a]);
    PendingNone([a, b], a.version);
    CommitAllFacts(CommitAll(FRESH, [a]), []);
    assert [] + [a] == [a];
  }
}
