/** Orphan detection (internal/checks/disk/orphans.go): which entries of the downloads directories
    qBittorrent does not account for. */
module Orphans {
  import opened Text
  import opened Paths

  datatype Torrent = Torrent(contentPath: string, savePath: string, name: string)
  datatype Entry = Entry(name: string, size: int, isDir: bool, modTime: int)
  datatype Orphan = Orphan(path: string, size: int, isDir: bool, modTime: int)

  /** What one torrent adds to trackedPaths' known set. */
  function KnownBy(t: Torrent): set<string> {
    (if t.contentPath != "" then {Clean(t.contentPath)} else {}) +
    (if t.savePath != "" && t.name != "" then {JoinPath(t.savePath, t.name)} else {})
  }

  /** And to the set of known parents. */
  function ParentsBy(t: Torrent): set<string> { if t.contentPath != "" then {DirOf(t.contentPath)} else {} }

  /** What the torrents of a list contribute together. */
  function Union(ts: seq<Torrent>, part: Torrent -> set<string>): set<string> {
    if ts == [] then {} else Union(ts[..|ts| - 1], part) + part(ts[|ts| - 1])
  }

  function Known(ts: seq<Torrent>): set<string> { Union(ts, KnownBy) }

  function KnownParents(ts: seq<Torrent>): set<string> { Union(ts, ParentsBy) }

  /** An entry is accounted for when some torrent knows it, as content or as the parent of content. */
  predicate Accounted(ts: seq<Torrent>, p: string) { p in Known(ts) || p in KnownParents(ts) }

  lemma {:induction false} UnionMeaning(ts: seq<Torrent>, part: Torrent -> set<string>, p: string)
    ensures p in Union(ts, part) <==> exists t :: t in ts && p in part(t)
  {
    if ts != [] {
      UnionMeaning(ts[..|ts| - 1], part, p);
      assert ts == ts[..|ts| - 1] + [ts[|ts| - 1]];
    }
  }

  lemma AccountedMeaning(ts: seq<Torrent>, p: string)
    ensures Accounted(ts, p) <==> exists t :: t in ts && (p in KnownBy(t) || p in ParentsBy(t))
  {
    EitherMeaning(ts, KnownBy, ParentsBy, p);
  }

  lemma EitherMeaning(ts: seq<Torrent>, a: Torrent -> set<string>, b: Torrent -> set<string>, p: string)
    ensures p in Union(ts, a) || p in Union(ts, b) <==> exists t :: t in ts && (p in a(t) || p in b(t))
  {
    UnionMeaning(ts, a, p);
    UnionMeaning(ts, b, p);
  }

  function OrphanOf(dir: string, e: Entry): Orphan { Orphan(JoinPath(dir, e.name), e.size, e.isDir, e.modTime) }

  /** The unaccounted entries of one directory, in listing order. */
  function Unaccounted(ts: seq<Torrent>, dir: string, es: seq<Entry>): seq<Orphan> {
    if es == [] then []
    else
      var o := OrphanOf(dir, es[|es| - 1]);
      if Accounted(ts, o.path) then Unaccounted(ts, dir, es[..|es| - 1]) else Unaccounted(ts, dir, es[..|es| - 1]) + [o]
  }

  /** All directories in order; None when one cannot be listed. */
  function AllUnaccounted(ts: seq<Torrent>, dirs: seq<string>, list: string -> Option<seq<Entry>>)
    : Option<seq<Orphan>>
  {
    if dirs == [] then Some([])
    else match (AllUnaccounted(ts, dirs[..|dirs| - 1], list), list(dirs[|dirs| - 1]))
      case (Some(os), Some(es)) => Some(os + Unaccounted(ts, dirs[|dirs| - 1], es))
      case _ => None
  }

  method TrackedPaths(ts: seq<Torrent>) returns (known: set<string>, parents: set<string>)
    ensures known == Known(ts) && parents == KnownParents(ts)
  {
    known, parents := {}, {};
    for n := 0 to |ts|
      invariant known == Known(ts[..n]) && parents == KnownParents(ts[..n])
    {
      assert ts[..n + 1][..n] == ts[..n];
      var k, ps := Track(ts[n]);
      known, parents := known + k, parents + ps;
    }
    assert ts[..|ts|] == ts;
  }

  /** The loop body of trackedPaths. */
  method Track(t: Torrent) returns (known: set<string>, parents: set<string>)
    ensures known == KnownBy(t) && parents == ParentsBy(t)
  {
    known, parents := {}, {};
    if t.contentPath != "" {
      known := known + {Clean(t.contentPath)};
      parents := parents + {DirOf(t.contentPath)};
    }
    if t.savePath != "" && t.name != "" {
      known := known + {JoinPath(t.savePath, t.name)};
    }
  }

  method OrphanEntries(ghost ts: seq<Torrent>, dir: string, es: seq<Entry>, known: set<string>, parents: set<string>)
    returns (out: seq<Orphan>)
    requires known == Known(ts) && parents == KnownParents(ts)
    ensures out == Unaccounted(ts, dir, es)
  {
    out := [];
    for n := 0 to |es|
      invariant out == Unaccounted(ts, dir, es[..n])
    {
      assert es[..n + 1][..n] == es[..n];
      var o := OrphanOf(dir, es[n]);
      if o.path in known || o.path in parents { continue; }
      out := out + [o];
    }
    assert es[..|es|] == es;
  }

  /** FindOrphans. torrents is qBittorrent's answer; None, there or from a listing, fails the whole call. */
  method FindOrphans(configured: bool, dirs: seq<string>, torrents: Option<seq<Torrent>>,
        list: string -> Option<seq<Entry>>)
    returns (r: Option<seq<Orphan>>)
    ensures r == if configured && dirs != [] && torrents.Some? then AllUnaccounted(torrents.value, dirs, list) else None
  {
    if !configured || dirs == [] || torrents.None? { return None; }
    var known, parents := TrackedPaths(torrents.value);
    var orphans := [];
    for n := 0 to |dirs|
      invariant AllUnaccounted(torrents.value, dirs[..n], list) == Some(orphans)
    {
      assert dirs[..n + 1][..n] == dirs[..n];
      var es := list(dirs[n]);
      if es.None? {
        ListingFailure(torrents.value, dirs, list, n);
        return None;
      }
      var found := OrphanEntries(torrents.value, dirs[n], es.value, known, parents);
      orphans := orphans + found;
    }
    assert dirs[..|dirs|] == dirs;
    r := Some(orphans);
  }

  lemma {:induction false} ListingFailure(ts: seq<Torrent>, dirs: seq<string>, list: string -> Option<seq<Entry>>,
        n: nat)
    requires n < |dirs| && list(dirs[n]).None?
    ensures AllUnaccounted(ts, dirs, list).None?
  {
    if n < |dirs| - 1 { ListingFailure(ts, dirs[..|dirs| - 1], list, n); }
  }

  // ----- What is and is not reported -----

  /** Every entry of a listing, accounted for or not. */
  function Entries(dir: string, es: seq<Entry>): seq<Orphan> {
    if es == [] then [] else Entries(dir, es[..|es| - 1]) + [OrphanOf(dir, es[|es| - 1])]
  }

  lemma {:induction false} EntriesAt(dir: string, es: seq<Entry>, o: Orphan) returns (e: Entry)
    requires o in Entries(dir, es)
    ensures e in es && OrphanOf(dir, e) == o
  {
    var rest := es[..|es| - 1];
    if o in Entries(dir, rest) {
      e := EntriesAt(dir, rest, o);
      assert e in es;
    } else {
      e := es[|es| - 1];
    }
  }

  lemma {:induction false} UnaccountedMembers(ts: seq<Torrent>, dir: string, es: seq<Entry>, o: Orphan)
    ensures o in Unaccounted(ts, dir, es) <==> o in Entries(dir, es) && !Accounted(ts, o.path)
  {
    if es != [] { UnaccountedMembers(ts, dir, es[..|es| - 1], o); }
  }

  /** Completeness and soundness: an entry of a configured directory is reported exactly when no torrent
      accounts for it. */
  lemma {:induction false} OrphanMembers(ts: seq<Torrent>, dirs: seq<string>, list: string -> Option<seq<Entry>>,
        o: Orphan)
    requires AllUnaccounted(ts, dirs, list).Some?
    ensures o in AllUnaccounted(ts, dirs, list).value <==> !Accounted(ts, o.path) && Listed(dirs, list, o)
  {
    if dirs != [] {
      var rest, last := dirs[..|dirs| - 1], dirs[|dirs| - 1];
      OrphanMembers(ts, rest, list, o);
      UnaccountedMembers(ts, last, list(last).value, o);
      ListedSnoc(dirs, list, o);
    }
  }

  /** Is this an entry of some listing? */
  ghost predicate Listed(dirs: seq<string>, list: string -> Option<seq<Entry>>, o: Orphan) {
    exists d :: d in dirs && list(d).Some? && o in Entries(d, list(d).value)
  }

  lemma ListedSnoc(dirs: seq<string>, list: string -> Option<seq<Entry>>, o: Orphan)
    requires dirs != []
    ensures var last := dirs[|dirs| - 1];
      Listed(dirs, list, o) <==>
            Listed(dirs[..|dirs| - 1], list, o) || (list(last).Some? && o in Entries(last, list(last).value))
  {
    assert dirs == dirs[..|dirs| - 1] + [dirs[|dirs| - 1]];
  }

  /** The report is in listing order, and an entry is reported, with its own size, kind and age, exactly when no
      torrent accounts for its path. */
  lemma UnaccountedSnoc(ts: seq<Torrent>, dir: string, es: seq<Entry>, e: Entry)
    ensures Unaccounted(ts, dir, []) == []
    ensures var path := JoinPath(dir, e.name);
      Unaccounted(ts, dir, es + [e]) ==
      if Accounted(ts, path) then Unaccounted(ts, dir, es)
      else Unaccounted(ts, dir, es) + [Orphan(path, e.size, e.isDir, e.modTime)]
  {
    assert (es + [e])[..|es|] == es;
  }

  /** And directories in configured order. */
  lemma DirectoriesInOrder(ts: seq<Torrent>, dirs: seq<string>, last: string, list: string -> Option<seq<Entry>>)
    ensures AllUnaccounted(ts, dirs + [last], list) ==
            if AllUnaccounted(ts, dirs, list).None? || list(last).None? then None
            else Some(AllUnaccounted(ts, dirs, list).value + Unaccounted(ts, last, list(last).value))
    ensures AllUnaccounted(ts, [], list) == Some([])
  {
    assert (dirs + [last])[..|dirs|] == dirs;
  }

  /** Is the first path the second, or an ancestor of it? */
  predicate AtOrAbove(a: Path, b: Path) { a.rooted == b.rooted && |a.segs| <= |b.segs| && b.segs[..|a.segs|] == a.segs }

  /** An ancestor of a stack with one more piece pushed, against the stack before. */
  lemma PushedAncestor(a: seq<string>, before: seq<string>, last: string)
    requires Canonical(Path(true, before)) && '/' !in last
    requires |a| <= |Push(true, before, last)| && Push(true, before, last)[..|a|] == a
    ensures a == before || a == Push(true, before, last) <==>
            a == Push(true, before, last) || (|Push(true, before, last)| == |a| + 1 && EntryName(last))
  {
  }

  /** The entry of a directory on the way to something below it. */
  function Towards(d: Path, below: Path): Path
    requires |d.segs| < |below.segs|
  {
    Path(d.rooted, d.segs + [below.segs[|d.segs|]])
  }

  predicate Above(a: Path, b: Path) { AtOrAbove(a, b) && |a.segs| < |b.segs| }

  /** Does this torrent keep this entry? The entry is its content, or what stands in front of the last slash of its
      content path, or SavePath/Name. */
  predicate Keeps(t: Torrent, entry: Path) {
    || (t.contentPath != "" && (entry == Parse(t.contentPath) || entry == Parse(DirPart(t.contentPath))))
    || (t.savePath != "" && t.name != "" && entry == Parse(t.savePath + ['/'] + t.name))
  }

  /** A content path no listing can endanger: in every configured directory above it, some torrent, its own or
      another, keeps the entry on the way to it. */
  ghost predicate Kept(ts: seq<Torrent>, dirs: seq<string>, content: string) {
    forall d :: d in dirs && Above(Parse(d), Parse(content)) ==>
      exists t :: t in ts && Keeps(t, Towards(Parse(d), Parse(content)))
  }

  lemma KeepsMeaning(t: Torrent, entry: Path)
    requires Canonical(entry)
    ensures Keeps(t, entry) <==> Render(entry) in KnownBy(t) || Render(entry) in ParentsBy(t)
  {
    ParseCanonical(t.contentPath);
    ParseCanonical(DirPart(t.contentPath));
    ParseCanonical(t.savePath + ['/'] + t.name);
    RenderInjective(entry, Parse(t.contentPath));
    RenderInjective(entry, Parse(DirPart(t.contentPath)));
    RenderInjective(entry, Parse(t.savePath + ['/'] + t.name));
  }

  lemma AccountedKept(ts: seq<Torrent>, entry: Path)
    requires Canonical(entry)
    ensures Accounted(ts, Render(entry)) <==> exists t :: t in ts && Keeps(t, entry)
  {
    AccountedMeaning(ts, Render(entry));
    forall t | t in ts
      ensures Keeps(t, entry) <==> Render(entry) in KnownBy(t) || Render(entry) in ParentsBy(t)
    {
      KeepsMeaning(t, entry);
    }
  }

  /** What listings can contain. */
  ghost predicate RealNames(dirs: seq<string>, list: string -> Option<seq<Entry>>) {
    forall d, e :: d in dirs && list(d).Some? && e in list(d).value ==> EntryName(e.name)
  }

  ghost predicate Reports(ts: seq<Torrent>, dirs: seq<string>, list: string -> Option<seq<Entry>>, o: Orphan) {
    AllUnaccounted(ts, dirs, list).Some? && o in AllUnaccounted(ts, dirs, list).value
  }

  /** A reported path as elements: a configured directory's and one name, kept by no torrent. */
  lemma ReportedOrigin(ts: seq<Torrent>, dirs: seq<string>, list: string -> Option<seq<Entry>>, o: Orphan)
    returns (d: string, e: Entry)
    requires Reports(ts, dirs, list, o) && RealNames(dirs, list) && forall d :: d in dirs ==> Rooted(d)
    ensures d in dirs && EntryName(e.name) && Parse(o.path) == Path(true, Parse(d).segs + [e.name])
    ensures o.path == Render(Parse(o.path)) && Canonical(Parse(o.path))
    ensures forall t :: t in ts ==> !Keeps(t, Parse(o.path))
  {
    OrphanMembers(ts, dirs, list, o);
    d :| d in dirs && list(d).Some? && o in Entries(d, list(d).value);
    e := EntriesAt(d, list(d).value, o);
    JoinedEntry(d, e.name);
    CleanIdempotent(d + ['/'] + e.name);
    ParseCanonical(o.path);
    AccountedKept(ts, Parse(o.path));
  }

  /** Orphan safety. Of a torrent whose content is Kept, neither the content nor an ancestor of it is ever
      reported; SavePath/Name of a torrent never is. */
  lemma OrphanSafety(ts: seq<Torrent>, dirs: seq<string>, list: string -> Option<seq<Entry>>, o: Orphan, t: Torrent)
    requires Reports(ts, dirs, list, o) && t in ts
    requires (forall d :: d in dirs ==> Rooted(d)) && RealNames(dirs, list)
    requires t.contentPath != "" ==> Kept(ts, dirs, t.contentPath)
    ensures t.contentPath != "" ==> !AtOrAbove(Parse(o.path), Parse(t.contentPath))
    ensures t.savePath != "" && t.name != "" ==> o.path != JoinPath(t.savePath, t.name)
  {
    if t.contentPath != "" { KeptNotReported(ts, dirs, list, o, t.contentPath); }
    var d, e := ReportedOrigin(ts, dirs, list, o);
    if t.savePath != "" && t.name != "" { CleanIdempotent(t.savePath + ['/'] + t.name); }
  }

  lemma KeptNotReported(ts: seq<Torrent>, dirs: seq<string>, list: string -> Option<seq<Entry>>, o: Orphan,
        content: string)
    requires Reports(ts, dirs, list, o) && (forall d :: d in dirs ==> Rooted(d)) && RealNames(dirs, list)
    requires Kept(ts, dirs, content)
    ensures !AtOrAbove(Parse(o.path), Parse(content))
  {
    var d, e := ReportedOrigin(ts, dirs, list, o);
    if AtOrAbove(Parse(o.path), Parse(content)) { AncestorOfJoined(Parse(d), e.name, Parse(content)); }
  }

  lemma AncestorOfJoined(d: Path, name: string, content: Path)
    requires AtOrAbove(Path(d.rooted, d.segs + [name]), content)
    ensures Above(d, content) && Towards(d, content) == Path(d.rooted, d.segs + [name])
  {
    var s := d.segs + [name];
    assert content.segs[..|d.segs|] == content.segs[..|s|][..|d.segs|] == d.segs;
    assert content.segs[|d.segs|] == content.segs[..|s|][|d.segs|] == name;
  }

  /** Exactly so, for any torrents and any content path, rooted or not, however spelled: no listing whatsoever makes
      FindOrphans report the content or anything above it if and only if the content is Kept. */
  lemma KeptExactly(ts: seq<Torrent>, dirs: seq<string>, content: string)
    requires forall d :: d in dirs ==> Rooted(d)
    ensures Kept(ts, dirs, content) <==> NeverReported(ts, dirs, content)
  {
    if Kept(ts, dirs, content) {
      forall list: string -> Option<seq<Entry>>, o: Orphan | RealNames(dirs, list) && Reports(ts, dirs, list, o)
        ensures !AtOrAbove(Parse(o.path), Parse(content))
      {
        KeptNotReported(ts, dirs, list, o, content);
      }
    } else {
      var d :| d in dirs && Above(Parse(d), Parse(content))
               && !exists t :: t in ts && Keeps(t, Towards(Parse(d), Parse(content)));
      ParseCanonical(content);
      UnkeptReported(ts, dirs, d, Entry(Parse(content).segs[|Parse(d).segs|], 0, true, 0), content);
    }
  }

  ghost predicate NeverReported(ts: seq<Torrent>, dirs: seq<string>, content: string) {
    forall list: string -> Option<seq<Entry>>, o: Orphan |
      RealNames(dirs, list) && Reports(ts, dirs, list, o) :: !AtOrAbove(Parse(o.path), Parse(content))
  }

  /** The listing in which one directory holds one entry and all others are empty. */
  function OnlyEntry(d: string, e: Entry): string -> Option<seq<Entry>> { x => Some(if x == d then [e] else []) }

  lemma UnkeptReported(ts: seq<Torrent>, dirs: seq<string>, d: string, e: Entry, content: string)
    requires d in dirs && Above(Parse(d), Parse(content))
    requires e.name == Parse(content).segs[|Parse(d).segs|] && EntryName(e.name)
    requires !exists t :: t in ts && Keeps(t, Towards(Parse(d), Parse(content)))
    requires d != ""
    ensures RealNames(dirs, OnlyEntry(d, e)) && Reports(ts, dirs, OnlyEntry(d, e), OrphanOf(d, e))
    ensures AtOrAbove(Parse(OrphanOf(d, e).path), Parse(content))
  {
    var p := JoinPath(d, e.name);
    JoinedEntry(d, e.name);
    CleanIdempotent(d + ['/'] + e.name);
    ParseCanonical(p);
    AccountedKept(ts, Parse(p));
    TowardsIsAbove(Parse(d), Parse(content));
    OnlyEntryReported(ts, dirs, d, e);
  }

  lemma TowardsIsAbove(d: Path, below: Path)
    requires Above(d, below)
    ensures AtOrAbove(Towards(d, below), below)
  {
    assert below.segs[..|d.segs| + 1] == below.segs[..|d.segs|] + [below.segs[|d.segs|]];
  }

  lemma OnlyEntryReported(ts: seq<Torrent>, dirs: seq<string>, d: string, e: Entry)
    requires d in dirs && EntryName(e.name) && !Accounted(ts, OrphanOf(d, e).path)
    ensures RealNames(dirs, OnlyEntry(d, e)) && Reports(ts, dirs, OnlyEntry(d, e), OrphanOf(d, e))
  {
    ListedAll(ts, dirs, OnlyEntry(d, e));
    OrphanMembers(ts, dirs, OnlyEntry(d, e), OrphanOf(d, e));
    assert [e][..0] == [] && OrphanOf(d, e) in Entries(d, [e]);
  }

  lemma {:induction false} ListedAll(ts: seq<Torrent>, dirs: seq<string>, list: string -> Option<seq<Entry>>)
    requires forall d :: d in dirs ==> list(d).Some?
    ensures AllUnaccounted(ts, dirs, list).Some?
  {
    if dirs != [] { ListedAll(ts, dirs[..|dirs| - 1], list); }
  }

  // ----- One torrent -----

  /** How a torrent keeps its own content: at each configured directory above it, the content lies one level below,
      or two with a real name behind the last slash, or SavePath/Name is the entry on the way. */
  predicate Protected(dirs: seq<string>, t: Torrent) {
    forall d :: d in dirs && Above(Parse(d), Parse(t.contentPath)) ==> ProtectedAt(Parse(d), t)
  }

  predicate ProtectedAt(d: Path, t: Torrent)
    requires Above(d, Parse(t.contentPath))
  {
    var content := Parse(t.contentPath);
    || |content.segs| == |d.segs| + 1
    || (|content.segs| == |d.segs| + 2 && EntryName(LastPiece(t.contentPath)))
    || (t.savePath != "" && t.name != "" && Towards(d, content) == Parse(t.savePath + ['/'] + t.name))
  }

  /** One torrent, with whatever fields it has and however its paths are spelled, keeps an entry at or above its own
      content in exactly these cases. Anything but a real name behind the last slash (nothing, ".", "..") makes Dir
      return something other than the parent. */
  lemma KeepsOwn(t: Torrent, entry: Path)
    requires Canonical(entry) && Rooted(t.contentPath) && AtOrAbove(entry, Parse(t.contentPath))
    ensures Keeps(t, entry) <==>
            || entry == Parse(t.contentPath)
            || (|Parse(t.contentPath).segs| == |entry.segs| + 1 && EntryName(LastPiece(t.contentPath)))
            || (t.savePath != "" && t.name != "" && entry == Parse(t.savePath + ['/'] + t.name))
  {
    ParsePushesLast(t.contentPath);
    ParseCanonical(DirPart(t.contentPath));
    PushedAncestor(entry.segs, Parse(DirPart(t.contentPath)).segs, LastPiece(t.contentPath));
  }

  lemma KeepsTowards(t: Torrent, d: Path)
    requires Rooted(t.contentPath) && Above(d, Parse(t.contentPath))
    ensures Keeps(t, Towards(d, Parse(t.contentPath))) <==> ProtectedAt(d, t)
  {
    var content, entry := Parse(t.contentPath), Towards(d, Parse(t.contentPath));
    ParseCanonical(t.contentPath);
    TowardsIsAbove(d, content);
    PrefixCanonical(entry, content);
    if |entry.segs| == |content.segs| { SameLengthAncestor(entry, content); }
    KeepsOwn(t, entry);
  }

  lemma PrefixCanonical(a: Path, b: Path)
    requires Canonical(b) && AtOrAbove(a, b)
    ensures Canonical(a)
  {
    assert forall i :: 0 <= i < |a.segs| ==> a.segs[i] == b.segs[i];
  }

  lemma SameLengthAncestor(a: Path, b: Path)
    requires AtOrAbove(a, b) && |a.segs| == |b.segs|
    ensures a == b
  {
    assert b.segs[..|b.segs|] == b.segs;
  }

  /** A Protected torrent needs no other to be safe, and for a torrent alone, with all three fields, Protected is
      exactly when nothing at or above its content is ever reported. */
  lemma ProtectedExactly(ts: seq<Torrent>, dirs: seq<string>, t: Torrent)
    requires t in ts && Rooted(t.contentPath) && forall d :: d in dirs ==> Rooted(d)
    ensures Protected(dirs, t) ==> Kept(ts, dirs, t.contentPath)
    ensures Protected(dirs, t) <==> NeverReported([t], dirs, t.contentPath)
  {
    forall d | d in dirs && Above(Parse(d), Parse(t.contentPath))
      ensures Keeps(t, Towards(Parse(d), Parse(t.contentPath))) <==> ProtectedAt(Parse(d), t)
    {
      KeepsTowards(t, Parse(d));
    }
    assert t in [t];
    KeptExactly([t], dirs, t.contentPath);
  }

  /** The exact condition for one torrent and one path at or above its content, over every rooted spelling. */
  lemma AncestorAccounted(full: Path, s: string)
    requires Canonical(full) && Rooted(s) && AtOrAbove(full, Parse(s))
    ensures Accounted([Torrent(s, "", "")], Render(full)) <==>
            full == Parse(s) || (|Parse(s).segs| == |full.segs| + 1 && EntryName(LastPiece(s)))
  {
    var t := Torrent(s, "", "");
    AccountedKept([t], full);
    assert t in [t];
    KeepsOwn(t, full);
  }

  /** The depth bound is needed, for every directory and every name: a single torrent whose content lies
      rest below the listed entry leaves that entry unaccounted exactly when rest has two elements or more. */
  lemma DeepContentReported(dir: Path, a: string, rest: seq<string>)
    requires Canonical(Path(true, dir.segs + [a] + rest)) && dir.rooted
    ensures var t := Torrent(Render(Path(true, dir.segs + [a] + rest)), "", "");
      !Accounted([t], Render(Path(true, dir.segs + [a]))) <==> |rest| >= 2
  {
    var full := Path(true, dir.segs + [a]);
    var content := Path(true, full.segs + rest);
    assert full.segs == content.segs[..|full.segs|];
    SameOrDeeper(full, content, rest);
    RenderedAncestor(full, content);
  }

  /** For content in canonical spelling, one level is what Dir protects. */
  lemma RenderedAncestor(full: Path, content: Path)
    requires Canonical(full) && Canonical(content) && content.rooted && content.segs != [] && AtOrAbove(full, content)
    ensures Accounted([Torrent(Render(content), "", "")], Render(full)) <==>
            full == content || |content.segs| == |full.segs| + 1
  {
    ParseRender(content);
    assert content == Path(true, content.segs);
    RenderedLastPiece(content.segs);
    AncestorAccounted(full, Render(content));
  }

  lemma SameOrDeeper(full: Path, content: Path, rest: seq<string>)
    requires full.rooted == content.rooted && content.segs == full.segs + rest
    ensures full == content <==> rest == []
  {
  }

  /** A rendered path ends in the name of its last element. */
  lemma RenderedLastPiece(segs: seq<string>)
    requires segs != [] && Canonical(Path(true, segs))
    ensures EntryName(LastPiece(Render(Path(true, segs)))) && LastPiece(Render(Path(true, segs))) == segs[|segs| - 1]
  {
    var init, last := segs[..|segs| - 1], segs[|segs| - 1];
    assert segs == init + [last];
    RenderSnoc(init, last);
    LastPieceJoined(if init == [] then "" else Render(Path(true, init)), last);
  }

  /** So is the name at the end: with a trailing slash, Dir returns the content itself, and the folder that
      holds the content is reported. */
  lemma TrailingSlashReported(dir: Path, a: string, b: string)
    requires Canonical(Path(true, dir.segs + [a, b])) && dir.rooted
    ensures var t := Torrent(Render(Path(true, dir.segs + [a, b])) + ['/'], "", "");
      !Accounted([t], Render(Path(true, dir.segs + [a])))
  {
    var full, content := Path(true, dir.segs + [a]), Path(true, dir.segs + [a, b]);
    assert full.segs == content.segs[..|full.segs|];
    SlashLosesParent(full, content);
  }

  lemma SlashLosesParent(full: Path, content: Path)
    requires Canonical(full) && Canonical(content) && content.rooted && AtOrAbove(full, content) && full != content
    ensures !Accounted([Torrent(Render(content) + ['/'], "", "")], Render(full))
  {
    ParseRender(content);
    TrailingSlash(Render(content));
    LastPieceJoined(Render(content), "");
    assert Render(content) + ['/'] + "" == Render(content) + ['/'];
    AncestorAccounted(full, Render(content) + ['/']);
  }
}
