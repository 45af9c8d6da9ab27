/** Lexical path processing (Go's path/filepath on Unix) and the containment test built on it. */
module Paths {
  import opened Text

  /** A path after lexical processing: rooted or not, and its remaining elements. */
  datatype Path = Path(rooted: bool, segs: seq<string>)

  /** The pieces between slashes; always at least one. */
  function Split(s: string): (r: seq<string>)
    ensures r != [] && forall i :: 0 <= i < |r| ==> '/' !in r[i]
    decreases |s|
  {
    match Cut(s, '/') case None => [s] case Some((a, b)) => [a] + Split(b)
  }

  /** One element onto the stack: empty and "." vanish, ".." pops, at the root it vanishes too. */
  function Push(rooted: bool, stack: seq<string>, seg: string): seq<string> {
    if seg == "" || seg == "." then stack
    else if seg == ".." then
      if stack != [] && stack[|stack| - 1] != ".." then stack[..|stack| - 1]
      else if rooted then stack
      else stack + [seg]
    else stack + [seg]
  }

  function Resolve(rooted: bool, segs: seq<string>): seq<string> {
    if segs == [] then [] else Push(rooted, Resolve(rooted, segs[..|segs| - 1]), segs[|segs| - 1])
  }

  predicate Rooted(s: string) { s != [] && s[0] == '/' }

  /** What follows the root slash. */
  function Body(s: string): string { if Rooted(s) then s[1..] else s }

  function Parse(s: string): Path { Path(Rooted(s), Resolve(Rooted(s), Split(Body(s)))) }

  function Join(segs: seq<string>): string {
    if segs == [] then "" else if |segs| == 1 then segs[0] else segs[0] + ['/'] + Join(segs[1..])
  }

  function Render(p: Path): string {
    if p.rooted then "/" + Join(p.segs) else if p.segs == [] then "." else Join(p.segs)
  }

  /** filepath.Clean. */
  function Clean(s: string): string { Render(Parse(s)) }

  predicate Name(seg: string) { seg != "" && seg != "." && '/' !in seg }

  /** No empty or "." elements; ".." only at the front of a relative path. */
  ghost predicate Canonical(p: Path) {
    && (forall i :: 0 <= i < |p.segs| ==> Name(p.segs[i]))
    && (p.rooted ==> forall i :: 0 <= i < |p.segs| ==> p.segs[i] != "..")
    && (forall i, j :: 0 <= i < j < |p.segs| && p.segs[j] == ".." ==> p.segs[i] == "..")
  }

  // ----- Clean computes a canonical form -----

  lemma {:induction false} ResolveCanonical(rooted: bool, segs: seq<string>)
    requires forall i :: 0 <= i < |segs| ==> '/' !in segs[i]
    ensures Canonical(Path(rooted, Resolve(rooted, segs)))
  {
    if segs != [] { ResolveCanonical(rooted, segs[..|segs| - 1]); }
  }

  lemma ParseCanonical(s: string)
    ensures Canonical(Parse(s))
  {
    ResolveCanonical(Rooted(s), Split(Body(s)));
  }

  lemma {:induction false} SplitJoin(segs: seq<string>)
    requires segs != [] && forall i :: 0 <= i < |segs| ==> '/' !in segs[i]
    ensures Split(Join(segs)) == segs
  {
    if |segs| > 1 {
      SplitJoin(segs[1..]);
      CutAt(segs[0], '/', Join(segs[1..]));
    }
  }

  lemma ResolveSnoc(rooted: bool, segs: seq<string>, last: string)
    ensures Resolve(rooted, segs + [last]) == Push(rooted, Resolve(rooted, segs), last)
  {
    assert (segs + [last])[..|segs|] == segs;
  }

  /** The last element of a canonical path is simply pushed. */
  lemma PushLast(rooted: bool, init: seq<string>, last: string)
    requires Canonical(Path(rooted, init + [last]))
    ensures Push(rooted, init, last) == init + [last] && Canonical(Path(rooted, init))
  {
    var s := init + [last];
    assert s[|init|] == last && forall i :: 0 <= i < |init| ==> s[i] == init[i];
  }

  /** Resolving a canonical path changes nothing. */
  lemma {:induction false} ResolveFixed(rooted: bool, segs: seq<string>)
    requires Canonical(Path(rooted, segs))
    ensures Resolve(rooted, segs) == segs
  {
    if segs != [] {
      var init, last := segs[..|segs| - 1], segs[|segs| - 1];
      assert segs == init + [last];
      PushLast(rooted, init, last);
      ResolveFixed(rooted, init);
    }
  }

  lemma {:induction false} JoinHead(segs: seq<string>)
    requires segs != [] && forall i :: 0 <= i < |segs| ==> Name(segs[i])
    ensures Join(segs) != [] && Join(segs)[0] != '/'
  {
  }

  /** Rendering and parsing are inverse on canonical paths. */
  lemma ParseRender(p: Path)
    requires Canonical(p)
    ensures Parse(Render(p)) == p
  {
    ResolveFixed(p.rooted, p.segs);
    if p.segs == [] {
      assert Split("") == [""] && Split(".") == ["."];
      assert [""][..0] == [] && ["."][..0] == [];
      assert Body("/") == "" && Body(".") == ".";
    } else {
      JoinHead(p.segs);
      SplitJoin(p.segs);
      assert Body(Render(p)) == Join(p.segs);
    }
  }

  /** Clean keeps what a path denotes, and cleaning twice is cleaning once. */
  lemma CleanIdempotent(s: string)
    ensures Parse(Clean(s)) == Parse(s) && Clean(Clean(s)) == Clean(s)
  {
    ParseCanonical(s);
    ParseRender(Parse(s));
  }

  lemma RenderInjective(p: Path, q: Path)
    requires Canonical(p) && Canonical(q)
    ensures Render(p) == Render(q) <==> p == q
  {
    ParseRender(p);
    ParseRender(q);
  }

  // ----- The prefix test -----

  predicate HasPrefix(s: string, p: string) { |p| <= |s| && s[..|p|] == p }

  predicate ProperPrefix(a: seq<string>, b: seq<string>) { |a| < |b| && b[..|a|] == a }

  /** isUnderDir. */
  predicate IsUnderDir(dir: string, path: string) {
    Clean(dir) == Clean(path) || HasPrefix(Clean(path), Clean(dir) + "/")
  }

  /** A prefix that ends its first element with a slash fixes where the string is cut. */
  lemma CutPrefix(s: string, x: string, rest: string)
    requires '/' !in x
    ensures HasPrefix(s, x + ['/'] + rest) <==>
            Cut(s, '/').Some? && Cut(s, '/').value.0 == x && HasPrefix(Cut(s, '/').value.1, rest)
  {
    var t := x + ['/'] + rest;
    if HasPrefix(s, t) {
      var u := s[|t|..];
      assert s == t + u == x + ['/'] + (rest + u);
      CutAt(x, '/', rest + u);
      assert (rest + u)[..|rest|] == rest;
    }
    if Cut(s, '/').Some? && Cut(s, '/').value.0 == x && HasPrefix(Cut(s, '/').value.1, rest) {
      assert s[..|t|] == x + ['/'] + Cut(s, '/').value.1[..|rest|];
    }
  }

  lemma CutJoin(b: seq<string>)
    requires forall i :: 0 <= i < |b| ==> Name(b[i])
    ensures Cut(Join(b), '/') == if |b| > 1 then Some((b[0], Join(b[1..]))) else None
  {
    if |b| > 1 { CutAt(b[0], '/', Join(b[1..])); }
  }

  lemma PrefixCons(a: seq<string>, b: seq<string>)
    requires a != [] && b != []
    ensures ProperPrefix(a, b) <==> a[0] == b[0] && ProperPrefix(a[1..], b[1..])
  {
    if ProperPrefix(a, b) {
      assert b[1..][..|a| - 1] == b[..|a|][1..];
      assert b[0] == b[..|a|][0];
    }
    if a[0] == b[0] && ProperPrefix(a[1..], b[1..]) {
      assert b[..|a|] == [b[0]] + b[1..][..|a| - 1];
      assert a == [a[0]] + a[1..];
    }
  }

  lemma {:induction false} JoinPrefix(a: seq<string>, b: seq<string>)
    requires a != [] && (forall i :: 0 <= i < |a| ==> Name(a[i])) && forall i :: 0 <= i < |b| ==> Name(b[i])
    ensures HasPrefix(Join(b), Join(a) + "/") <==> ProperPrefix(a, b)
  {
    CutJoin(b);
    if b != [] { PrefixCons(a, b); }
    var rest := if |a| == 1 then "" else Join(a[1..]) + "/";
    assert Join(a) + "/" == a[0] + ['/'] + rest;
    CutPrefix(Join(b), a[0], rest);
    if |a| > 1 && |b| > 1 { JoinPrefix(a[1..], b[1..]); }
  }

  lemma CutRender(q: Path)
    requires Canonical(q)
    ensures Cut(Render(q), '/') ==
            if q.rooted then Some(("", Join(q.segs)))
            else if |q.segs| > 1 then Some((q.segs[0], Join(q.segs[1..])))
            else None
  {
    CutJoin(q.segs);
    if q.rooted {
      assert Render(q) == "" + ['/'] + Join(q.segs);
      CutAt("", '/', Join(q.segs));
    }
  }

  lemma NoLeadingSlash(s: string)
    requires s == "" || s[0] != '/'
    ensures !HasPrefix(s, "/")
  {
    if s != "" { assert s[..1][0] == s[0]; }
  }

  /** A slash after the root, or after ".", never starts a cleaned path. */
  lemma NothingUnderEmpty(p: Path, q: Path)
    requires Canonical(p) && Canonical(q) && p.segs == []
    ensures !HasPrefix(Render(q), Render(p) + "/")
  {
    CutRender(q);
    if q.segs != [] { JoinHead(q.segs); }
    if p.rooted {
      assert Render(p) + "/" == "" + ['/'] + "/";
      CutPrefix(Render(q), "", "/");
      NoLeadingSlash(Join(q.segs));
    } else {
      assert Render(p) + "/" == "." + ['/'] + "";
      CutPrefix(Render(q), ".", "");
    }
  }

  lemma RenderPrefix(p: Path, q: Path)
    requires Canonical(p) && Canonical(q)
    ensures HasPrefix(Render(q), Render(p) + "/") <==>
        p.segs != [] && p.rooted == q.rooted && ProperPrefix(p.segs, q.segs)
  {
    if p.segs == [] {
      NothingUnderEmpty(p, q);
    } else {
      CutRender(q);
      JoinPrefix(p.segs, q.segs);
      if p.rooted {
        assert Render(p) + "/" == "" + ['/'] + (Join(p.segs) + "/");
        CutPrefix(Render(q), "", Join(p.segs) + "/");
      } else {
        var rest := if |p.segs| == 1 then "" else Join(p.segs[1..]) + "/";
        assert Render(p) + "/" == p.segs[0] + ['/'] + rest;
        CutPrefix(Render(q), p.segs[0], rest);
      }
    }
  }

  /** The containment test in terms of elements, for every pair of strings: the two denote the same path, or
      the directory has elements and they are a proper prefix of the path's. Neither ".." nor a sibling whose
      name merely starts alike gets through, and nothing but "/" itself is under "/". */
  lemma UnderDirMeaning(dir: string, path: string)
    ensures var d, p := Parse(dir), Parse(path);
      IsUnderDir(dir, path) <==> d == p || (d.segs != [] && d.rooted == p.rooted && ProperPrefix(d.segs, p.segs))
  {
    ParseCanonical(dir);
    ParseCanonical(path);
    RenderInjective(Parse(dir), Parse(path));
    RenderPrefix(Parse(dir), Parse(path));
  }

  // ----- Joining and taking the directory -----

  /** filepath.Join of two elements. */
  function JoinPath(dir: string, name: string): string {
    if dir != "" then Clean(dir + ['/'] + name) else if name != "" then Clean(name) else ""
  }

  /** With one element empty, the other is cleaned alone; with both, nothing is joined. */
  lemma JoinOneEmpty(x: string)
    requires x != ""
    ensures JoinPath("", x) == Clean(x) == JoinPath(x, "") && JoinPath("", "") == ""
  {
    TrailingSlash(x);
    assert x + ['/'] + "" == x + ['/'];
  }

  lemma {:induction false} SplitConcat(a: string, b: string)
    ensures Split(a + ['/'] + b) == Split(a) + Split(b)
    decreases |a|
  {
    match Cut(a, '/')
    case None =>
      CutAt(a, '/', b);
    case Some((x, y)) =>
      assert a + ['/'] + b == x + ['/'] + (y + ['/'] + b);
      CutAt(x, '/', y + ['/'] + b);
      SplitConcat(y, b);
  }

  /** What a directory entry can be called. */
  predicate EntryName(name: string) { Name(name) && name != ".." }

  lemma JoinedEntry(dir: string, name: string)
    requires dir != "" && EntryName(name)
    ensures Parse(JoinPath(dir, name)) == Path(Parse(dir).rooted, Parse(dir).segs + [name])
  {
    var s := dir + ['/'] + name;
    CleanIdempotent(s);
    assert Body(s) == Body(dir) + ['/'] + name;
    SplitConcat(Body(dir), name);
    assert Split(name) == [name];
    ResolveSnoc(Rooted(dir), Split(Body(dir)), name);
  }

  /** Everything up to and including the last slash. */
  function DirPart(p: string): (d: string)
    ensures |d| <= |p| && p[..|d|] == d && '/' !in p[|d|..] && (d != [] ==> d[|d| - 1] == '/')
  {
    if p == [] then []
    else if p[|p| - 1] == '/' then
      assert p[|p|..] == [];
      p
    else
      var d := DirPart(p[..|p| - 1]);
      assert p[|d|..] == p[..|p| - 1][|d|..] + [p[|p| - 1]];
      d
  }

  /** filepath.Dir. */
  function DirOf(p: string): string { Clean(DirPart(p)) }

  /** The directory of a string that ends in an element: that element is dropped before cleaning. */
  lemma {:induction false} DirOfJoined(q: string, last: string)
    requires '/' !in last
    ensures DirPart(q + ['/'] + last) == q + ['/']
    decreases |last|
  {
    var p := q + ['/'] + last;
    if last == [] {
      assert p == q + ['/'];
    } else {
      assert p[..|p| - 1] == q + ['/'] + last[..|last| - 1];
      DirOfJoined(q, last[..|last| - 1]);
    }
  }

  lemma {:induction false} JoinSnoc(segs: seq<string>, last: string)
    requires segs != []
    ensures Join(segs + [last]) == Join(segs) + ['/'] + last
  {
    if |segs| > 1 {
      JoinSnoc(segs[1..], last);
      assert (segs + [last])[1..] == segs[1..] + [last];
      assert segs[0] + ['/'] + (Join(segs[1..]) + ['/'] + last) == (segs[0] + ['/'] + Join(segs[1..])) + ['/'] + last;
    } else {
      assert (segs + [last])[1..] == [last];
    }
  }

  /** A trailing slash parses to the same path. */
  lemma TrailingSlash(s: string)
    requires s != ""
    ensures Parse(s + ['/']) == Parse(s)
  {
    SplitConcat(Body(s), "");
    assert Body(s + ['/']) == Body(s) + ['/'] + "";
    assert Split("") == [""];
    ResolveSnoc(Rooted(s), Split(Body(s)), "");
  }

  /** What stands behind the last slash. */
  function LastPiece(p: string): string { p[|DirPart(p)|..] }

  /** A rooted path is its last piece pushed onto its directory, whatever the spelling of either. */
  lemma ParsePushesLast(s: string)
    requires Rooted(s)
    ensures Parse(s) == Path(true, Push(true, Parse(DirPart(s)).segs, LastPiece(s))) && Rooted(DirPart(s))
  {
    var d, last := DirPart(s), LastPiece(s);
    assert s == d + last;
    assert s[0] in d + last;
    var e := d[..|d| - 1];
    assert d == e + ['/'];
    assert Split(last) == [last];
    if e == [] {
      assert Body(s) == last;
      assert [last] == [] + [last];
      ResolveSnoc(true, [], last);
      ParseRender(Path(true, []));
    } else {
      assert Body(s) == Body(e) + ['/'] + last;
      SplitConcat(Body(e), last);
      ResolveSnoc(true, Split(Body(e)), last);
      TrailingSlash(e);
    }
  }

  /** Behind a slash that precedes the last piece. */
  lemma LastPieceJoined(q: string, last: string)
    requires '/' !in last
    ensures LastPiece(q + ['/'] + last) == last
  {
    DirOfJoined(q, last);
  }

  lemma RenderSnoc(init: seq<string>, last: string)
    ensures Render(Path(true, init + [last])) == (if init == [] then "" else Render(Path(true, init))) + ['/'] + last
  {
    if init == [] {
      assert Join([] + [last]) == last;
      assert "/" + last == "" + ['/'] + last;
    } else {
      JoinSnoc(init, last);
      assert "/" + (Join(init) + ['/'] + last) == ("/" + Join(init)) + ['/'] + last;
    }
  }

  // ----- What ".." does -----

  /** Where one piece of a path leads in a tree without links: nothing and "." stay, ".." goes to the parent, and
      the root is its own parent. A place is the names from the root down to it. */
  function StepTo(at: seq<string>, piece: string): seq<string> {
    if piece == ".." then at[..if at == [] then 0 else |at| - 1]
    else if piece == "" || piece == "." then at
    else at + [piece]
  }

  function Walk(at: seq<string>, pieces: seq<string>): seq<string> {
    if pieces == [] then at else StepTo(Walk(at, pieces[..|pieces| - 1]), pieces[|pieces| - 1])
  }

  /** Where a path leads from a working directory, piece by piece as it is written. */
  function LeadsTo(from: seq<string>, s: string): seq<string> {
    Walk(if Rooted(s) then [] else from, Split(Body(s)))
  }

  lemma WalkSnoc(at: seq<string>, pieces: seq<string>, last: string)
    ensures Walk(at, pieces + [last]) == StepTo(Walk(at, pieces), last)
  {
    assert (pieces + [last])[..|pieces|] == pieces;
  }

  lemma {:induction false} WalkResolved(at: seq<string>, rooted: bool, pieces: seq<string>)
    requires rooted ==> at == []
    requires forall i :: 0 <= i < |pieces| ==> '/' !in pieces[i]
    ensures Walk(at, Resolve(rooted, pieces)) == Walk(at, pieces)
  {
    if pieces != [] {
      var rest, last := pieces[..|pieces| - 1], pieces[|pieces| - 1];
      WalkResolved(at, rooted, rest);
      ResolveCanonical(rooted, rest);
      WalkPushed(at, rooted, Resolve(rooted, rest), last);
    }
  }

  lemma WalkPushed(at: seq<string>, rooted: bool, stack: seq<string>, piece: string)
    requires rooted ==> at == []
    requires Canonical(Path(rooted, stack))
    ensures Walk(at, Push(rooted, stack, piece)) == StepTo(Walk(at, stack), piece)
  {
    if stack != [] {
      var init, top := stack[..|stack| - 1], stack[|stack| - 1];
      assert stack == init + [top];
      WalkSnoc(at, init, top);
      if top != ".." { assert (Walk(at, init) + [top])[..|Walk(at, init)|] == Walk(at, init); }
    }
    WalkSnoc(at, stack, piece);
  }

  lemma WalkRendered(p: Path, at: seq<string>)
    requires Canonical(p)
    ensures Walk(at, Split(Body(Render(p)))) == Walk(at, p.segs)
  {
    if p.segs == [] {
      assert Body(Render(p)) == if p.rooted then "" else ".";
      assert Split("") == [""] && Split(".") == ["."];
      WalkSnoc(at, [], "");
      WalkSnoc(at, [], ".");
      assert [] + [""] == [""] && [] + ["."] == ["."];
    } else {
      JoinHead(p.segs);
      SplitJoin(p.segs);
      assert Body(Render(p)) == Join(p.segs);
    }
  }

  lemma RenderRooted(p: Path)
    requires Canonical(p)
    ensures Rooted(Render(p)) == p.rooted
  {
    if p.segs != [] { JoinHead(p.segs); }
  }

  /** Cleaning keeps where a path leads, from every working directory. */
  lemma CleanLeadsThere(s: string, from: seq<string>)
    ensures LeadsTo(from, Clean(s)) == LeadsTo(from, s) && Rooted(Clean(s)) == Rooted(s)
  {
    var at := if Rooted(s) then [] else from;
    ParseCanonical(s);
    RenderRooted(Parse(s));
    WalkRendered(Parse(s), at);
    WalkResolved(at, Rooted(s), Split(Body(s)));
  }

  lemma {:induction false} WalkNames(at: seq<string>, names: seq<string>)
    requires forall i :: 0 <= i < |names| ==> EntryName(names[i])
    ensures Walk(at, names) == at + names
  {
    if names == [] {
      assert at + names == at;
    } else {
      WalkNames(at, names[..|names| - 1]);
      assert at + names[..|names| - 1] + [names[|names| - 1]] == at + names;
    }
  }

  /** For an absolute path the elements Parse gives are where the path leads. */
  lemma ParseLeadsThere(s: string, from: seq<string>)
    requires Rooted(s)
    ensures Parse(s).segs == LeadsTo(from, s)
  {
    ParseCanonical(s);
    WalkResolved([], true, Split(Body(s)));
    WalkNames([], Parse(s).segs);
  }

  /** The pieces a path is written in. */
  predicate Spells(s: string, rooted: bool, pieces: seq<string>) { Rooted(s) == rooted && Split(Body(s)) == pieces }

  /** The pieces of a joined path are those of its two halves. */
  lemma PiecesBehind(a: string, x: string)
    ensures Spells(a + ['/'] + x, a == "" || Rooted(a), (if a == "" then [] else Split(Body(a))) + Split(x))
  {
    var s := a + ['/'] + x;
    if a == "" {
      assert Body(s) == x;
    } else {
      assert Body(s) == Body(a) + ['/'] + x;
      SplitConcat(Body(a), x);
    }
  }

  lemma ResolveBehind(rooted: bool, a: seq<string>, init: seq<string>, last: string)
    ensures Resolve(rooted, a + (init + [last])) == Push(rooted, Resolve(rooted, a + init), last)
  {
    assert a + (init + [last]) == a + init + [last];
    ResolveSnoc(rooted, a + init, last);
  }

  lemma {:induction false} ResolveTail(rooted: bool, a: seq<string>, b: seq<string>, tail: seq<string>)
    requires Resolve(rooted, a) == Resolve(rooted, b)
    ensures Resolve(rooted, a + tail) == Resolve(rooted, b + tail)
  {
    if tail == [] {
      assert a + tail == a && b + tail == b;
    } else {
      var init, last := tail[..|tail| - 1], tail[|tail| - 1];
      ResolveTail(rooted, a, b, init);
      assert tail == init + [last];
      ResolveBehind(rooted, a, init, last);
      ResolveBehind(rooted, b, init, last);
    }
  }

  lemma SplitHead(x: string, b: string)
    requires '/' !in x
    ensures Split(x + ['/'] + b) == [x] + Split(b) && Split(x) == [x]
  {
    SplitConcat(x, b);
  }

  /** Two paths with the same stack in front and the same pieces behind are the same path. */
  lemma SameTail(s: string, t: string, rooted: bool, a: seq<string>, b: seq<string>, tail: seq<string>)
    requires Spells(s, rooted, a + tail) && Spells(t, rooted, b + tail) && Resolve(rooted, a) == Resolve(rooted, b)
    ensures Parse(s) == Parse(t) && Clean(s) == Clean(t)
  {
    ResolveTail(rooted, a, b, tail);
  }

  lemma Cancelled(s: string, t: string, rooted: bool, front: seq<string>, name: string, tail: seq<string>)
    requires EntryName(name)
    requires Spells(s, rooted, front + ([name] + ([".."] + tail))) && Spells(t, rooted, front + tail)
    ensures Clean(s) == Clean(t)
  {
    PopName(rooted, front, name);
    Regrouped(front, [name], [".."], tail);
    SameTail(s, t, rooted, front + [name] + [".."], front, tail);
  }

  lemma Regrouped(a: seq<string>, b: seq<string>, c: seq<string>, d: seq<string>)
    ensures a + (b + (c + d)) == a + b + c + d
  {
  }

  lemma PopName(rooted: bool, front: seq<string>, name: string)
    requires EntryName(name)
    ensures Resolve(rooted, front + [name] + [".."]) == Resolve(rooted, front)
  {
    ResolveSnoc(rooted, front, name);
    ResolveSnoc(rooted, front + [name], "..");
    var r := Resolve(rooted, front);
    assert (r + [name])[..|r|] == r;
  }

  /** Anywhere in any path, a name and the ".." behind it cancel. */
  lemma DotDotCancels(a: string, name: string, b: string)
    requires EntryName(name)
    ensures Clean(a + ['/'] + (name + ['/'] + (".." + ['/'] + b))) == Clean(a + ['/'] + b)
  {
    var up := ".." + ['/'] + b;
    PiecesBehind(a, b);
    PiecesBehind(a, name + ['/'] + up);
    SplitHead(name, up);
    SplitHead("..", b);
    Cancelled(a + ['/'] + (name + ['/'] + up), a + ['/'] + b, a == "" || Rooted(a),
              if a == "" then [] else Split(Body(a)), name, Split(b));
  }

  /** At the end of a path too: the parent of an entry is the directory. */
  lemma DotDotIsParent(dir: string, name: string)
    requires dir != "" && EntryName(name)
    ensures Clean(dir + ['/'] + (name + ['/'] + "..")) == Clean(dir)
  {
    var front := Split(Body(dir));
    PiecesBehind(dir, name + ['/'] + "..");
    SplitHead(name, "..");
    SplitHead("..", "");
    assert [".."] + [] == [".."] && front + [] == front;
    Cancelled(dir + ['/'] + (name + ['/'] + ".."), dir, Rooted(dir), front, name, []);
  }

  /** The root is its own parent. */
  lemma DotDotAtRoot(b: string)
    ensures Clean("" + ['/'] + (".." + ['/'] + b)) == Clean("" + ['/'] + b) && Clean("" + ['/'] + "..") == "/"
  {
    PiecesBehind("", b);
    PiecesBehind("", ".." + ['/'] + b);
    PiecesBehind("", "..");
    SplitHead("..", b);
    UpAtRoot("" + ['/'] + (".." + ['/'] + b), "" + ['/'] + b, "" + ['/'] + "..", Split(b));
  }

  lemma UpAtRoot(s: string, t: string, top: string, tail: seq<string>)
    requires Spells(s, true, [] + ([".."] + tail)) && Spells(t, true, [] + tail) && Spells(top, true, [] + [".."])
    ensures Clean(s) == Clean(t) && Clean(top) == "/"
  {
    ResolveSnoc(true, [], "..");
    assert [] + [".."] == [".."] && [] + ([".."] + tail) == [".."] + tail;
    SameTail(s, t, true, [".."], [], tail);
  }

  /** At the front of a relative path it stays: what it leads to depends on where one starts. */
  lemma DotDotStaysInFront(p: Path)
    requires Canonical(p) && !p.rooted
    ensures Parse(".." + ['/'] + Render(p)) == Path(false, [".."] + p.segs)
  {
    PiecesBehind("..", Render(p));
    SplitHead("..", "");
    assert Body("..") == "..";
    PiecesOf(p);
    if p.segs == [] {
      assert [".."] + ["."] == [] + [".."] + ["."];
      ResolveSnoc(false, [], "..");
      ResolveSnoc(false, [".."], ".");
    } else {
      CanonicalUp(p.segs);
      ResolveFixed(false, [".."] + p.segs);
    }
  }

  lemma PiecesOf(p: Path)
    requires Canonical(p) && !p.rooted
    ensures !Rooted(Render(p)) && Split(Render(p)) == if p.segs == [] then ["."] else p.segs
  {
    if p.segs != [] {
      JoinHead(p.segs);
      SplitJoin(p.segs);
    }
  }

  lemma CanonicalUp(segs: seq<string>)
    requires Canonical(Path(false, segs))
    ensures Canonical(Path(false, [".."] + segs))
  {
    var s := [".."] + segs;
    forall i, j | 0 <= i < j < |s| && s[j] == ".." ensures s[i] == ".." {
      if i > 0 { assert segs[i - 1] == s[i] && segs[j - 1] == s[j]; }
    }
  }

  // ----- Leaving a directory and coming back -----

  lemma {:induction false} ResolveUpward(stack: seq<string>, front: seq<string>, pieces: seq<string>)
    requires Resolve(true, front) == stack && forall i :: 0 <= i < |pieces| ==> pieces[i] != ".."
    ensures Resolve(true, front + pieces) == stack + Resolve(true, pieces)
  {
    if pieces == [] {
      assert front + pieces == front && stack + [] == stack;
    } else {
      var init, last := pieces[..|pieces| - 1], pieces[|pieces| - 1];
      assert pieces == init + [last];
      ResolveUpward(stack, front, init);
      ResolveBehind(true, front, init, last);
      ResolveSnoc(true, init, last);
      PushBehind(stack, Resolve(true, init), last);
    }
  }

  lemma PushBehind(a: seq<string>, b: seq<string>, piece: string)
    requires piece != ".."
    ensures Push(true, a + b, piece) == a + Push(true, b, piece)
  {
    assert a + (b + [piece]) == a + b + [piece];
  }

  /** A key that leaves a directory by ".." and does not use it again is under the directory exactly when what
      follows leads back into it by its own name. */
  lemma LeavingAndReturning(dir: string, rest: string)
    requires Rooted(dir) && Parse(dir).segs != []
    requires forall i :: 0 <= i < |Split(rest)| ==> Split(rest)[i] != ".."
    ensures var d, back := Parse(dir).segs, Parse("/" + rest).segs;
      IsUnderDir(dir, dir + ['/'] + (".." + ['/'] + rest)) <==> back != [] && back[0] == d[|d| - 1]
  {
    UpPieces(dir, rest);
    ParseBehindSlash(rest);
    UpFrom(dir, dir + ['/'] + (".." + ['/'] + rest), Split(Body(dir)), Split(rest));
  }

  lemma UpPieces(dir: string, rest: string)
    requires Rooted(dir)
    ensures Spells(dir + ['/'] + (".." + ['/'] + rest), true, Split(Body(dir)) + ([".."] + Split(rest)))
  {
    PiecesBehind(dir, ".." + ['/'] + rest);
    SplitHead("..", rest);
  }

  lemma ParseBehindSlash(rest: string)
    ensures Parse("/" + rest) == Path(true, Resolve(true, Split(rest)))
  {
    assert Body("/" + rest) == rest;
  }

  lemma UpFrom(dir: string, key: string, front: seq<string>, tail: seq<string>)
    requires Spells(dir, true, front) && Spells(key, true, front + ([".."] + tail)) && Parse(dir).segs != []
    requires forall i :: 0 <= i < |tail| ==> tail[i] != ".."
    ensures var d, back := Parse(dir).segs, Resolve(true, tail);
      IsUnderDir(dir, key) <==> back != [] && back[0] == d[|d| - 1]
  {
    var d, back := Parse(dir).segs, Resolve(true, tail);
    ParseCanonical(dir);
    Upward(front, d, tail);
    UnderDirMeaning(dir, key);
    UnderParent(d, back);
  }

  lemma Upward(front: seq<string>, d: seq<string>, tail: seq<string>)
    requires Resolve(true, front) == d && d != [] && d[|d| - 1] != ".."
    requires forall i :: 0 <= i < |tail| ==> tail[i] != ".."
    ensures Resolve(true, front + ([".."] + tail)) == d[..|d| - 1] + Resolve(true, tail)
  {
    ResolveSnoc(true, front, "..");
    ResolveUpward(d[..|d| - 1], front + [".."], tail);
    assert front + ([".."] + tail) == front + [".."] + tail;
  }

  lemma UnderParent(d: seq<string>, back: seq<string>)
    requires d != []
    ensures d == d[..|d| - 1] + back || ProperPrefix(d, d[..|d| - 1] + back) <==> back != [] && back[0] == d[|d| - 1]
  {
    assert d == d[..|d| - 1] + [d[|d| - 1]];
    BackInto(d[..|d| - 1], d[|d| - 1], back);
  }

  lemma BackInto(up: seq<string>, name: string, back: seq<string>)
    ensures up + back == up + [name] || ProperPrefix(up + [name], up + back) <==> back != [] && back[0] == name
  {
    var a, b := up + [name], up + back;
    if back != [] {
      assert b[|up|] == back[0];
      if back[0] == name { assert b[..|up| + 1] == a; }
      if a == b { assert b[|up|] == a[|up|]; }
      if ProperPrefix(a, b) { assert b[|up|] == b[..|a|][|up|] == name; }
    } else {
      assert b == up;
    }
  }

  /** So a key that goes to a sibling is refused, however deep the directory lies. */
  lemma SiblingRefused(dir: string, c: string, x: string)
    requires Rooted(dir) && Parse(dir).segs != [] && EntryName(c) && EntryName(x)
    requires c != Parse(dir).segs[|Parse(dir).segs| - 1]
    ensures !IsUnderDir(dir, dir + ['/'] + (".." + ['/'] + (c + ['/'] + x)))
  {
    UpPieces(dir, c + ['/'] + x);
    TwoNames(c, x);
    UpFrom(dir, dir + ['/'] + (".." + ['/'] + (c + ['/'] + x)), Split(Body(dir)), Split(c + ['/'] + x));
  }

  lemma TwoNames(c: string, x: string)
    requires EntryName(c) && EntryName(x)
    ensures Split(c + ['/'] + x) == [c] + [x] && Resolve(true, [c] + [x]) == [c, x]
  {
    SplitHead(c, x);
    SplitHead(x, "");
    ResolveSnoc(true, [], c);
    ResolveSnoc(true, [c], x);
  }
}
