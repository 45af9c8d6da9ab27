/** The paged history loop shared by the Sonarr and Radarr clients. */
module History {
  import opened Text

  datatype Record = Record(date: int, eventType: string, mediaId: int, downloadId: string)

  datatype Reply = PageError | Page(total: int, records: seq<Record>)

  /** since is None for the zero time. */
  predicate Recent(since: Option<int>, r: Record) { since.None? || r.date >= since.value }

  /** The records before the first one that is too old. */
  function UntilOld(since: Option<int>, rs: seq<Record>): seq<Record> {
    if rs == [] || !Recent(since, rs[0]) then [] else [rs[0]] + UntilOld(since, rs[1..])
  }

  /** The records at or after since. */
  function Filter(since: Option<int>, rs: seq<Record>): seq<Record> {
    if rs == [] then [] else (if Recent(since, rs[0]) then [rs[0]] else []) + Filter(since, rs[1..])
  }

  /** The records the server lists for an event type; the empty type asks for all. */
  function OfType(eventType: string, rs: seq<Record>): seq<Record> {
    if rs == [] then []
    else if eventType == "" || rs[0].eventType == eventType then [rs[0]] + OfType(eventType, rs[1..])
    else OfType(eventType, rs[1..])
  }

  /** The in-memory fake: one filter by date and event type. */
  function FakeHistory(since: Option<int>, eventType: string, rs: seq<Record>): seq<Record> {
    if rs == [] then []
    else if Recent(since, rs[0]) && (eventType == "" || rs[0].eventType == eventType)
    then [rs[0]] + FakeHistory(since, eventType, rs[1..])
    else FakeHistory(since, eventType, rs[1..])
  }

  lemma {:induction false} FakeFilters(since: Option<int>, eventType: string, rs: seq<Record>)
    ensures FakeHistory(since, eventType, rs) == Filter(since, OfType(eventType, rs))
  {
    if rs != [] {
      var listed := OfType(eventType, rs[1..]);
      FakeFilters(since, eventType, rs[1..]);
      assert ([rs[0]] + listed)[1..] == listed;
    }
  }

  predicate AllRecent(since: Option<int>, rs: seq<Record>) {
    rs == [] || (Recent(since, rs[0]) && AllRecent(since, rs[1..]))
  }

  lemma {:induction false} AllRecentMeaning(since: Option<int>, rs: seq<Record>)
    ensures AllRecent(since, rs) <==> forall i :: 0 <= i < |rs| ==> Recent(since, rs[i])
  {
    if rs != [] {
      AllRecentMeaning(since, rs[1..]);
      assert forall i :: 1 <= i < |rs| ==> rs[i] == rs[1..][i - 1];
    }
  }

  /** What the loop returns against a server that answers the given pages, then empty ones; None on an error. */
  function Fetched(since: Option<int>, pages: seq<Reply>, before: nat): Option<seq<Record>> {
    if pages == [] then Some([])
    else match pages[0]
      case PageError => None
      case Page(total, records) =>
        var got := before + |records|;
        if !AllRecent(since, records) then Some(UntilOld(since, records))
        else if got >= total || records == [] then Some(records)
        else Behind(records, Fetched(since, pages[1..], got))
  }

  lemma {:induction false} UntilOldAll(since: Option<int>, rs: seq<Record>)
    requires AllRecent(since, rs)
    ensures UntilOld(since, rs) == rs
  {
    if rs != [] { UntilOldAll(since, rs[1..]); }
  }

  lemma {:induction false} UntilOldAt(since: Option<int>, rs: seq<Record>, n: nat)
    requires n < |rs| && (forall i :: 0 <= i < n ==> Recent(since, rs[i])) && !Recent(since, rs[n])
    ensures UntilOld(since, rs) == rs[..n] && !AllRecent(since, rs)
  {
    if n > 0 {
      UntilOldAt(since, rs[1..], n - 1);
      assert rs[..n] == [rs[0]] + rs[1..][..n - 1];
    }
  }

  function Behind(out: seq<Record>, r: Option<seq<Record>>): Option<seq<Record>> {
    match r case None => None case Some(rest) => Some(out + rest)
  }

  /** How many records the first n pages hold. */
  function Received(pages: seq<Reply>, n: nat): nat
    requires n <= |pages| && forall i :: 0 <= i < n ==> pages[i].Page?
  {
    if n == 0 then 0 else |pages[0].records| + Received(pages[1..], n - 1)
  }

  /** A page after which the loop asks for another: all its records are recent, it has some, and fewer have come than
      there are. */
  ghost predicate GoesOn(since: Option<int>, pages: seq<Reply>, i: nat, before: nat) {
    && i < |pages| && (forall j :: 0 <= j <= i ==> pages[j].Page?) && pages[i].records != []
    && (forall j :: 0 <= j < |pages[i].records| ==> since == None || pages[i].records[j].date >= since.value)
    && before + Received(pages, i + 1) < pages[i].total
  }

  /** The number of requests, by the pages themselves: the loop goes on after every page but the last it asks for, and
      stops there. */
  lemma {:induction false} RequestsMeaning(since: Option<int>, pages: seq<Reply>, before: nat)
    ensures var n := Requests(since, pages, before);
      && 1 <= n <= |pages| + 1 && !GoesOn(since, pages, n - 1, before)
      && forall i :: 0 <= i < n - 1 ==> GoesOn(since, pages, i, before)
  {
    if pages != [] && pages[0].Page? {
      var rest, got := pages[1..], before + |pages[0].records|;
      AllRecentMeaning(since, pages[0].records);
      assert Received(pages, 1) == |pages[0].records| + Received(rest, 0);
      if GoesOn(since, pages, 0, before) {
        RequestsMeaning(since, rest, got);
        forall i | 0 < i <= |pages| ensures GoesOn(since, pages, i, before) <==> GoesOn(since, rest, i - 1, got) {
          GoesOnBehind(since, pages, i, before);
        }
      }
    }
  }

  lemma GoesOnBehind(since: Option<int>, pages: seq<Reply>, i: nat, before: nat)
    requires pages != [] && pages[0].Page? && 0 < i
    ensures GoesOn(since, pages, i, before) <==> GoesOn(since, pages[1..], i - 1, before + |pages[0].records|)
  {
    var rest := pages[1..];
    if i < |pages| {
      assert pages[i] == rest[i - 1];
      assert (forall j :: 0 <= j <= i ==> pages[j].Page?) <==> forall j :: 0 <= j <= i - 1 ==> rest[j].Page? by {
        assert forall j :: 0 < j <= i ==> pages[j] == rest[j - 1];
        assert forall j :: 0 <= j <= i - 1 ==> rest[j] == pages[j + 1];
      }
    }
  }

  lemma BehindNothing(r: Option<seq<Record>>)
    ensures Behind([], r) == r
  {
    if r.Some? { assert [] + r.value == r.value; }
  }

  lemma BehindBoth(a: seq<Record>, b: seq<Record>, r: Option<seq<Record>>)
    ensures Behind(a, Behind(b, r)) == Behind(a + b, r)
  {
    if r.Some? { assert a + (b + r.value) == a + b + r.value; }
  }

  /** One page request; eventType is not sent when it is empty. */
  datatype Query = Query(page: nat, pageSize: nat, sortKey: string, sortDirection: string, eventType: Option<string>)

  const PAGE_SIZE: nat := 500

  function PageQuery(page: nat, eventType: string): Query {
    Query(page, PAGE_SIZE, "date", "descending", if eventType == "" then None else Some(eventType))
  }

  /** How many pages the loop asks for: up to an error, an old record, the total, or an empty page. */
  function Requests(since: Option<int>, pages: seq<Reply>, before: nat): nat {
    if pages == [] then 1
    else match pages[0]
      case PageError => 1
      case Page(total, records) =>
        var got := before + |records|;
        if !AllRecent(since, records) || got >= total || records == [] then 1 else 1 + Requests(since, pages[1..], got)
  }

  /** The loop over one page: the records in front of the first old one, and whether there is one. */
  method TakeRecent(since: Option<int>, records: seq<Record>) returns (taken: seq<Record>, tooOld: bool)
    ensures taken == UntilOld(since, records) && (tooOld <==> !AllRecent(since, records))
  {
    taken := [];
    for n := 0 to |records|
      invariant taken == records[..n]
      invariant forall i :: 0 <= i < n ==> Recent(since, records[i])
    {
      if !Recent(since, records[n]) {
        UntilOldAt(since, records, n);
        return taken, true;
      }
      taken := taken + [records[n]];
      assert records[..n + 1] == records[..n] + [records[n]];
    }
    assert records[..|records|] == records;
    AllRecentMeaning(since, records);
    UntilOldAll(since, records);
    tooOld := false;
  }

  /** HTTPClient.History. queries is what it asked the server, in order: consecutive pages from the first, each once. */
  method HistoryLoop(since: Option<int>, eventType: string, pages: seq<Reply>)
    returns (r: Option<seq<Record>>, queries: seq<Query>)
    ensures r == Fetched(since, pages, 0)
    ensures |queries| == Requests(since, pages, 0)
    ensures forall i :: 0 <= i < |queries| ==>
              queries[i] == Query(i + 1, 500, "date", "descending", if eventType == "" then None else Some(eventType))
  {
    queries := [];
    var out: seq<Record> := [];
    var fetched: nat := 0;
    var page := 0;
    assert pages[0..] == pages;
    BehindNothing(Fetched(since, pages, 0));
    while true
      invariant 0 <= page <= |pages|
      invariant Fetched(since, pages, 0) == Behind(out, Fetched(since, pages[page..], fetched))
      invariant |queries| == page && page + Requests(since, pages[page..], fetched) == Requests(since, pages, 0)
      invariant forall i :: 0 <= i < |queries| ==> queries[i] == PageQuery(i + 1, eventType)
      decreases |pages| - page
    {
      queries := queries + [PageQuery(page + 1, eventType)];
      if page == |pages| {
        assert pages[page..] == [] && out + [] == out;
        return Some(out), queries;
      }
      ghost var here := pages[page..];
      assert here[0] == pages[page] && here[1..] == pages[page + 1..];
      if pages[page].PageError? { return None, queries; }
      var records := pages[page].records;
      fetched := fetched + |records|;
      var taken, tooOld := TakeRecent(since, records);
      ghost var start := out;
      out := out + taken;
      if tooOld { return Some(out), queries; }
      UntilOldAll(since, records);
      if fetched >= pages[page].total || |records| == 0 { return Some(out), queries; }
      page := page + 1;
      BehindBoth(start, records, Fetched(since, pages[page..], fetched));
    }
  }

  /** The server cuts one list into non-empty pages of any sizes and reports its length every time. */
  ghost predicate Serves(pages: seq<Reply>, all: seq<Record>, total: nat) {
    if pages == [] then all == []
    else
      && pages[0].Page? && pages[0].total == total && pages[0].records != []
      && |pages[0].records| <= |all| && all[..|pages[0].records|] == pages[0].records
      && Serves(pages[1..], all[|pages[0].records|..], total)
  }

  lemma {:induction false} UntilOldConcat(since: Option<int>, a: seq<Record>, b: seq<Record>)
    ensures UntilOld(since, a + b) == if AllRecent(since, a) then a + UntilOld(since, b) else UntilOld(since, a)
  {
    if a == [] {
      assert a + b == b;
    } else {
      assert (a + b)[1..] == a[1..] + b;
      UntilOldConcat(since, a[1..], b);
      assert [a[0]] + (a[1..] + UntilOld(since, b)) == a + UntilOld(since, b);
    }
  }

  /** The first page of several, by what the pages behind it give. */
  lemma FirstPage(since: Option<int>, pages: seq<Reply>, records: seq<Record>, rest: seq<Record>, before: nat)
    requires pages != [] && pages[0] == Page(before + |records| + |rest|, records) && records != []
    requires rest != [] ==> Fetched(since, pages[1..], before + |records|) == Some(UntilOld(since, rest))
    ensures Fetched(since, pages, before) == Some(UntilOld(since, records + rest))
  {
    UntilOldConcat(since, records, rest);
    if rest == [] { assert records + rest == records; }
    if AllRecent(since, records) { UntilOldAll(since, records); }
  }

  lemma {:induction false} PagesDoNotMatterFrom(since: Option<int>, pages: seq<Reply>, all: seq<Record>, before: nat)
    requires Serves(pages, all, before + |all|)
    ensures Fetched(since, pages, before) == Some(UntilOld(since, all))
  {
    if pages != [] {
      var records := pages[0].records;
      var rest := all[|records|..];
      assert all == records + rest;
      PagesDoNotMatterFrom(since, pages[1..], rest, before + |records|);
      FirstPage(since, pages, records, rest, before);
    }
  }

  /** No record that is still recent comes after one that is too old. */
  ghost predicate OldOnesLast(since: Option<int>, rs: seq<Record>) {
    forall i, j :: 0 <= i < j < |rs| && Recent(since, rs[j]) ==> Recent(since, rs[i])
  }

  lemma {:induction false} FilterNothing(since: Option<int>, rs: seq<Record>)
    ensures Filter(since, rs) == [] <==> forall i :: 0 <= i < |rs| ==> !Recent(since, rs[i])
  {
    if rs != [] {
      FilterNothing(since, rs[1..]);
      assert forall i :: 1 <= i < |rs| ==> rs[i] == rs[1..][i - 1];
    }
  }

  lemma {:induction false} EarlyExitIsFilter(since: Option<int>, rs: seq<Record>)
    ensures UntilOld(since, rs) == Filter(since, rs) <==> OldOnesLast(since, rs)
  {
    if rs != [] {
      var rest := rs[1..];
      assert forall i :: 1 <= i < |rs| ==> rs[i] == rest[i - 1];
      if Recent(since, rs[0]) {
        EarlyExitIsFilter(since, rest);
        assert UntilOld(since, rs)[1..] == UntilOld(since, rest) && Filter(since, rs)[1..] == Filter(since, rest);
        if OldOnesLast(since, rest) {
          forall i, j | 0 <= i < j < |rs| && Recent(since, rs[j]) ensures Recent(since, rs[i]) {
            if i > 0 { assert Recent(since, rest[j - 1]) && Recent(since, rest[i - 1]); }
          }
        }
        if OldOnesLast(since, rs) {
          forall i, j | 0 <= i < j < |rest| && Recent(since, rest[j]) ensures Recent(since, rest[i]) {
            assert Recent(since, rs[j + 1]) && Recent(since, rs[i + 1]);
          }
        }
      } else {
        FilterNothing(since, rest);
        if OldOnesLast(since, rs) {
          forall i | 0 <= i < |rest| ensures !Recent(since, rest[i]) { assert rs[i + 1] == rest[i]; }
        }
        if i :| 0 <= i < |rest| && Recent(since, rest[i]) { assert Recent(since, rs[i + 1]) && !Recent(since, rs[0]); }
      }
    }
  }

  /** Paged history against the fake: however the server pages what it lists for the event type, the loop
      returns what the fake filters out of all records if and only if no recent record listed follows an old one. */
  lemma HistoryIsFilter(since: Option<int>, eventType: string, pages: seq<Reply>, all: seq<Record>)
    requires Serves(pages, OfType(eventType, all), |OfType(eventType, all)|)
    ensures Fetched(since, pages, 0) == Some(FakeHistory(since, eventType, all)) <==>
            OldOnesLast(since, OfType(eventType, all))
  {
    PagesDoNotMatterFrom(since, pages, OfType(eventType, all), 0);
    EarlyExitIsFilter(since, OfType(eventType, all));
    FakeFilters(since, eventType, all);
  }

  /** A date-descending list, which the query asks for, meets the condition, whatever the event type. */
  lemma DescendingHistory(since: Option<int>, eventType: string, pages: seq<Reply>, all: seq<Record>)
    requires Serves(pages, OfType(eventType, all), |OfType(eventType, all)|)
    requires Descending(all)
    ensures Fetched(since, pages, 0) == Some(FakeHistory(since, eventType, all))
  {
    OfTypeDescending(eventType, all);
    HistoryIsFilter(since, eventType, pages, all);
  }

  ghost predicate Descending(rs: seq<Record>) { forall i, j :: 0 <= i < j < |rs| ==> rs[i].date >= rs[j].date }

  lemma {:induction false} OfTypeDescending(eventType: string, rs: seq<Record>)
    requires Descending(rs)
    ensures Descending(OfType(eventType, rs))
    ensures forall r :: r in OfType(eventType, rs) ==> r in rs
  {
    if rs != [] {
      var rest := rs[1..];
      assert forall i :: 1 <= i < |rs| ==> rs[i] == rest[i - 1];
      OfTypeDescending(eventType, rest);
      var tail := OfType(eventType, rest);
      forall j | 0 <= j < |tail| ensures rs[0].date >= tail[j].date { assert tail[j] in rest; }
    }
  }

  /** What the fake returns, record by record: in order, those at or after since (all, without one) of the event type
      (of any, when it is empty). */
  lemma {:induction false} FakeConcat(since: Option<int>, eventType: string, a: seq<Record>, b: seq<Record>)
    ensures FakeHistory(since, eventType, a + b) == FakeHistory(since, eventType, a) + FakeHistory(since, eventType, b)
  {
    if a == [] {
      assert a + b == b;
    } else {
      assert (a + b)[1..] == a[1..] + b;
      FakeConcat(since, eventType, a[1..], b);
      var x := FakeHistory(since, eventType, a[1..]);
      assert [a[0]] + (x + FakeHistory(since, eventType, b)) == [a[0]] + x + FakeHistory(since, eventType, b);
    }
  }

  lemma FakeOfOne(since: Option<int>, eventType: string, r: Record)
    ensures FakeHistory(since, eventType, [r]) ==
            if (since == None || r.date >= since.value) && (eventType == "" || r.eventType == eventType) then [r]
            else []
  {
    assert FakeHistory(since, eventType, [r][1..]) == [];
  }
}
