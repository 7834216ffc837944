/** The practice list: filters, and pages linked by a cursor. */
module Practice {
  import opened Filters
  import opened Order
  import opened Wrappers

  datatype Question = Question(id: string, subject: string, unit: string, source: string, year: int)

  /** Empty strings and year 0 mean "no filter". */
  datatype Filter = Filter(subject: string, unit: string, source: string, year: int)

  datatype Page = Page(questions: seq<Question>, next: Option<string>)

  predicate Matches(f: Filter, q: Question) {
    && (f.subject == "" || q.subject == f.subject)
    && (f.unit == "" || q.unit == f.unit)
    && (f.source == "" || q.source == f.source)
    && (f.year == 0 || q.year == f.year)
  }

  /** Is `q` past the cursor? The empty cursor is before everything. */
  predicate Past(after: string, q: Question) {
    after == "" || !StrLe(q.id, after)
  }

  function IdKey(): Question -> Key {
    (q: Question) => Key(0, 0, q.id)
  }

  function Above(qs: seq<Question>, after: string): seq<Question> {
    Where(qs, (q: Question) => Past(after, q))
  }

  /** The questions that pass the filter, in list order. */
  function Filtered(qs: seq<Question>, f: Filter): seq<Question> {
    Where(qs, (q: Question) => Matches(f, q))
  }

  function Cap(limit: int): (c: nat)
    ensures 1 <= c <= 50
  {
    if limit < 1 then 1 else if limit > 50 then 50 else limit
  }

  /** One page: the first questions past the cursor, and a cursor if the page is full. */
  function PageOf(qs: seq<Question>, f: Filter, limit: int, after: string): (p: Page)
    ensures p.next.Some? <==> |p.questions| == Cap(limit)
    ensures p.next.Some? ==> p.next.value == p.questions[|p.questions| - 1].id
  {
    var out := Take(Above(Filtered(qs, f), after), Cap(limit));
    Page(out, if |out| == Cap(limit) then Some(out[|out| - 1].id) else None)
  }

  lemma {:induction false} FilteredPrefix(qs: seq<Question>, f: Filter, i: nat, after: string)
    requires i <= |qs|
    ensures Above(Filtered(qs[..i], f), after) <= Above(Filtered(qs, f), after)
    decreases |qs| - i
  {
    if i == |qs| {
      assert qs[..i] == qs;
    } else {
      FilteredPrefix(qs, f, i + 1, after);
      NextFiltered(qs, f, i, after);
    }
  }

  lemma NextFiltered(qs: seq<Question>, f: Filter, i: nat, after: string)
    requires i < |qs|
    ensures Above(Filtered(qs[..i + 1], f), after)
         == Above(Filtered(qs[..i], f), after) + (if Matches(f, qs[i]) && Past(after, qs[i]) then [qs[i]] else [])
  {
    hide Matches, Past;
    assert qs[..i + 1] == qs[..i] + [qs[i]];
    WhereAppend(qs[..i], qs[i], (q: Question) => Matches(f, q));
    WhereAppend(Filtered(qs[..i], f), qs[i], (q: Question) => Past(after, q));
    if !Matches(f, qs[i]) { assert Filtered(qs[..i + 1], f) == Filtered(qs[..i], f); }
  }

  lemma NothingListed(f: Filter, after: string)
    ensures Above(Filtered([], f), after) == []
  {
  }

  method ListPractice(qs: seq<Question>, f: Filter, limit: int, after: string) returns (p: Page)
    ensures p == PageOf(qs, f, limit, after)
  {
    hide Filtered, Above, StrLe;
    var capped := Cap(limit);
    assert Above(Filtered([], f), after) == [] by { NothingListed(f, after); }
    var out: seq<Question> := [];
    for i := 0 to |qs|
      invariant out == Above(Filtered(qs[..i], f), after) && |out| < capped
    {
      NextFiltered(qs, f, i, after);
      if f.subject != "" && qs[i].subject != f.subject { continue; }
      if f.unit != "" && qs[i].unit != f.unit { continue; }
      if f.source != "" && qs[i].source != f.source { continue; }
      if f.year != 0 && qs[i].year != f.year { continue; }
      if after != "" && StrLe(qs[i].id, after) { continue; }
      out := out + [qs[i]];
      if |out| >= capped {
        FilteredPrefix(qs, f, i + 1, after);
        return Page(out, Some(out[|out| - 1].id));
      }
    }
    assert qs[..|qs|] == qs;
    p := Page(out, None);
  }

  // ---- Walking the pages ----

  ghost predicate InOrder(qs: seq<Question>) {
    forall i, j :: 0 <= i < j < |qs| ==> StrLe(qs[i].id, qs[j].id)
  }

  ghost predicate NamedIds(qs: seq<Question>) {
    forall i :: 0 <= i < |qs| ==> qs[i].id != ""
  }

  ghost predicate DistinctIds(qs: seq<Question>) {
    forall i, j :: 0 <= i < j < |qs| ==> qs[i].id != qs[j].id
  }

  /** The list as the application keeps it. */
  function Catalogue(raw: seq<Question>): seq<Question> {
    SortBy(raw, IdKey())
  }

  lemma CatalogueInOrder(raw: seq<Question>)
    ensures InOrder(Catalogue(raw)) && multiset(Catalogue(raw)) == multiset(raw)
  {
    SortBySorts(raw, IdKey());
    forall i, j | 0 <= i < j < |Catalogue(raw)| ensures StrLe(Catalogue(raw)[i].id, Catalogue(raw)[j].id) {
      assert KeyLe(IdKey()(Catalogue(raw)[i]), IdKey()(Catalogue(raw)[j]));
      StrTotal(Catalogue(raw)[i].id, Catalogue(raw)[i].id);
    }
  }

  lemma {:induction false} FilteredInOrder(qs: seq<Question>, f: Filter)
    requires InOrder(qs)
    ensures InOrder(Filtered(qs, f))
    ensures forall q :: q in Filtered(qs, f) <==> q in qs && Matches(f, q)
  {
    if qs != [] {
      var n := |qs| - 1;
      FilteredInOrder(qs[..n], f);
      assert qs == qs[..n] + [qs[n]];
      var r, front := Filtered(qs, f), Filtered(qs[..n], f);
      forall i, j | 0 <= i < j < |r| ensures StrLe(r[i].id, r[j].id) {
        if j < |front| {
          assert r[i] == front[i] && r[j] == front[j];
        } else {
          assert front[i] in front && r[i] == front[i];
          var k :| 0 <= k < n && qs[k] == r[i];
        }
      }
    }
  }

  /** In a sorted list the questions past a cursor are a suffix. */
  lemma AboveIsSuffix(qs: seq<Question>, after: string, k: nat)
    requires k <= |qs|
    requires forall i :: 0 <= i < |qs| ==> (Past(after, qs[i]) <==> i >= k)
    ensures Above(qs, after) == qs[k..]
  {
    hide Past;
    WhereSuffix(qs, (q: Question) => Past(after, q), k);
  }

  /** How many questions of a sorted list are not past the cursor. */
  function Before(qs: seq<Question>, after: string): (k: nat)
    ensures k <= |qs|
  {
    if qs == [] then 0
    else if Past(after, qs[|qs| - 1]) then Before(qs[..|qs| - 1], after)
    else |qs|
  }

  lemma {:induction false} BeforeSplits(qs: seq<Question>, after: string)
    requires InOrder(qs)
    ensures forall i :: 0 <= i < |qs| ==> (Past(after, qs[i]) <==> i >= Before(qs, after))
    ensures Above(qs, after) == qs[Before(qs, after)..]
  {
    if qs != [] {
      var n := |qs| - 1;
      if Past(after, qs[n]) {
        BeforeSplits(qs[..n], after);
      } else {
        forall i | 0 <= i < n ensures !Past(after, qs[i]) { StrTransitive(qs[i].id, qs[n].id, after); }
      }
    }
    AboveIsSuffix(qs, after, Before(qs, after));
  }

  /** The cursor of a page passes the page: strictly fewer questions are left. */
  lemma CursorAdvances(qs: seq<Question>, after: string, n: nat)
    requires InOrder(qs) && 0 < n <= |Above(qs, after)| && Above(qs, after)[n - 1].id != ""
    ensures var cursor := Above(qs, after)[n - 1].id;
      && Before(qs, cursor) >= Before(qs, after) + n
      && |Above(qs, cursor)| < |Above(qs, after)|
  {
    hide StrLe;
    var k := Before(qs, after);
    BeforeSplits(qs, after);
    var cursor := qs[k + n - 1].id;
    BeforeSplits(qs, cursor);
    StrTotal(cursor, cursor);
    assert !Past(cursor, qs[k + n - 1]);
  }

  /** The first page does not end in an empty id, which would be taken for the empty cursor. */
  predicate Startable(qs: seq<Question>, limit: int) {
    |qs| < Cap(limit) || qs[Cap(limit) - 1].id != ""
  }

  /** Then no later page does. */
  lemma CursorNamed(qs: seq<Question>, limit: int, after: string)
    requires InOrder(qs) && Startable(qs, limit) && Cap(limit) <= |Above(qs, after)|
    ensures Above(qs, after)[Cap(limit) - 1].id != ""
  {
    BeforeSplits(qs, after);
    if after == "" {
      AboveIsSuffix(qs, "", 0);
    } else {
      assert Past(after, qs[Before(qs, after) + Cap(limit) - 1]);
    }
  }

  /** Follow `next` from the given cursor to the end; `qs` are the questions that pass the filter. */
  function Walk(qs: seq<Question>, limit: int, after: string): seq<Question>
    requires InOrder(qs) && Startable(qs, limit)
    decreases |Above(qs, after)|
  {
    var page := Take(Above(qs, after), Cap(limit));
    if |page| < Cap(limit) then page
    else
      CursorNamed(qs, limit, after);
      CursorAdvances(qs, after, |page|);
      page + Walk(qs, limit, page[|page| - 1].id)
  }

  /** The number of requests that this takes. */
  function Requests(qs: seq<Question>, limit: int, after: string): nat
    requires InOrder(qs) && Startable(qs, limit)
    decreases |Above(qs, after)|
  {
    var page := Take(Above(qs, after), Cap(limit));
    if |page| < Cap(limit) then 1
    else
      CursorNamed(qs, limit, after);
      CursorAdvances(qs, after, |page|);
      1 + Requests(qs, limit, page[|page| - 1].id)
  }

  /** Otherwise the first page sends the client back to itself, again and again. */
  lemma EmptyIdTurnsBack(qs: seq<Question>, f: Filter, limit: int)
    ensures PageOf(qs, f, limit, "").next == Some("") <==> !Startable(Filtered(qs, f), limit)
  {
    hide StrLe;
    AboveIsSuffix(Filtered(qs, f), "", 0);
  }

  /** The client's loop over the endpoint is that walk, and it ends. */
  method FollowCursor(qs: seq<Question>, f: Filter, limit: int) returns (all: seq<Question>, requests: nat)
    requires InOrder(qs) && Startable(Filtered(qs, f), limit)
    ensures InOrder(Filtered(qs, f))
    ensures all == Walk(Filtered(qs, f), limit, "") && requests == Requests(Filtered(qs, f), limit, "")
  {
    hide Walk, Requests, PageOf, Filtered, Above;
    FilteredInOrder(qs, f);
    ghost var fs := Filtered(qs, f);
    all, requests := [], 0;
    var after := "";
    while true
      invariant all + Walk(fs, limit, after) == Walk(fs, limit, "")
      invariant requests + Requests(fs, limit, after) == Requests(fs, limit, "")
      decreases |Above(fs, after)|
    {
      var p := ListPractice(qs, f, limit, after);
      WalkStep(qs, f, limit, after);
      assert all + (p.questions + Walk(fs, limit, if p.next.Some? then p.next.value else ""))
          == all + p.questions + Walk(fs, limit, if p.next.Some? then p.next.value else "");
      all, requests := all + p.questions, requests + 1;
      if p.next.None? {
        return;
      }
      after := p.next.value;
    }
  }

  lemma WalkStep(qs: seq<Question>, f: Filter, limit: int, after: string)
    requires InOrder(Filtered(qs, f)) && Startable(Filtered(qs, f), limit)
    ensures var fs, p := Filtered(qs, f), PageOf(qs, f, limit, after);
      if p.next.None? then Walk(fs, limit, after) == p.questions && Requests(fs, limit, after) == 1
      else
        && Walk(fs, limit, after) == p.questions + Walk(fs, limit, p.next.value)
        && Requests(fs, limit, after) == 1 + Requests(fs, limit, p.next.value)
        && |Above(fs, p.next.value)| < |Above(fs, after)|
  {
    hide Filtered, Above, InOrder, Cap;
    var fs, page := Filtered(qs, f), PageOf(qs, f, limit, after).questions;
    if |page| == Cap(limit) {
      CursorNamed(fs, limit, after);
      CursorAdvances(fs, after, |page|);
    }
  }

  /** Where page number `m` of `c` questions starts, counted from zero. */
  function PageStart(m: nat, c: nat): (p: nat)
    ensures if m > 0 then p >= c else p == 0
  {
    assert m > 0 ==> (m - 1) * c >= 0 && m * c == (m - 1) * c + c;
    m * c
  }

  /** No page boundary falls between two questions of the same id. */
  ghost predicate CleanCuts(qs: seq<Question>, c: nat) {
    forall m: nat :: 0 < PageStart(m, c) < |qs| ==> qs[PageStart(m, c) - 1].id != qs[PageStart(m, c)].id
  }

  lemma CutsOfRest(qs: seq<Question>, c: nat)
    requires 0 < c < |qs| && CleanCuts(qs, c)
    ensures qs[c - 1].id != qs[c].id && CleanCuts(qs[c..], c)
  {
    hide PageStart;
    var rest := qs[c..];
    NextPageStart(0, c);
    forall m: nat | 0 < PageStart(m, c) < |rest| ensures rest[PageStart(m, c) - 1].id != rest[PageStart(m, c)].id {
      NextPageStart(m, c);
      assert 0 < PageStart(m + 1, c) < |qs|;
    }
  }

  lemma CutsFromRest(qs: seq<Question>, c: nat)
    requires 0 < c < |qs| && qs[c - 1].id != qs[c].id && CleanCuts(qs[c..], c)
    ensures CleanCuts(qs, c)
  {
    hide PageStart;
    var rest := qs[c..];
    NextPageStart(0, c);
    forall m: nat | 0 < PageStart(m, c) < |qs| ensures qs[PageStart(m, c) - 1].id != qs[PageStart(m, c)].id {
      var p := PageStart(m, c);
      if m > 1 {
        NextPageStart(m - 1, c);
        assert 0 < PageStart(m - 1, c) == p - c < |rest|;
        assert rest[p - c] == qs[p] && rest[p - c - 1] == qs[p - 1];
      }
    }
  }

  lemma CleanCutsShift(qs: seq<Question>, c: nat)
    requires 0 < c < |qs|
    ensures CleanCuts(qs, c) <==> qs[c - 1].id != qs[c].id && CleanCuts(qs[c..], c)
  {
    hide CleanCuts;
    if CleanCuts(qs, c) { CutsOfRest(qs, c); }
    if qs[c - 1].id != qs[c].id && CleanCuts(qs[c..], c) { CutsFromRest(qs, c); }
  }

  lemma NextPageStart(m: nat, c: nat)
    ensures PageStart(m + 1, c) == PageStart(m, c) + c
  {
  }

  lemma FewHaveCleanCuts(qs: seq<Question>, c: nat)
    requires |qs| <= c
    ensures CleanCuts(qs, c)
  {
    hide PageStart;
  }

  /** What lies past the end of a full page is the rest, without the questions that share the cursor's id. */
  lemma NextPage(qs: seq<Question>, after: string, n: nat)
    requires InOrder(qs) && 0 < n <= |Above(qs, after)| && Above(qs, after)[n - 1].id != ""
    ensures var rest := Above(qs, after); var next := Above(qs, rest[n - 1].id);
      && |next| <= |rest| - n
      && (n == |rest| || rest[n].id != rest[n - 1].id ==> next == rest[n..])
      && (n < |rest| && rest[n].id == rest[n - 1].id ==> |next| < |rest| - n)
  {
    var k := Before(qs, after);
    var rest := Above(qs, after);
    var cursor := rest[n - 1].id;
    CursorAdvances(qs, after, n);
    BeforeSplits(qs, after);
    BeforeSplits(qs, cursor);
    if n < |rest| {
      assert rest[n] == qs[k + n] && rest[n - 1] == qs[k + n - 1];
      StrTotal(cursor, cursor);
      if rest[n].id != cursor && !Past(cursor, qs[k + n]) { StrAntisymmetric(qs[k + n].id, cursor); }
    }
  }

  /** A full page, and the walk from its end. */
  lemma FullPage(qs: seq<Question>, limit: int, after: string)
    requires InOrder(qs) && Startable(qs, limit) && Cap(limit) <= |Above(qs, after)|
    ensures var rest, c := Above(qs, after), Cap(limit); var cursor := rest[c - 1].id;
      && cursor != "" && |Above(qs, cursor)| < |rest|
      && Walk(qs, limit, after) == rest[..c] + Walk(qs, limit, cursor)
      && Requests(qs, limit, after) == 1 + Requests(qs, limit, cursor)
  {
    hide Cap, Above, InOrder, Startable, Before;
    CursorNamed(qs, limit, after);
    CursorAdvances(qs, after, Cap(limit));
  }

  lemma LastPage(qs: seq<Question>, limit: int, after: string)
    requires InOrder(qs) && Startable(qs, limit) && |Above(qs, after)| < Cap(limit)
    ensures Walk(qs, limit, after) == Above(qs, after) && Requests(qs, limit, after) == 1
  {
    hide Cap, Above, InOrder, Startable;
  }

  /** From any cursor on: the walk returns the rest of the list if and only if every cut is clean; and it
      then takes one request more than there are full pages. */
  lemma {:induction false} WalkFrom(qs: seq<Question>, limit: int, after: string)
    requires InOrder(qs) && Startable(qs, limit)
    ensures |Walk(qs, limit, after)| <= |Above(qs, after)|
    ensures Walk(qs, limit, after) == Above(qs, after) <==> CleanCuts(Above(qs, after), Cap(limit))
    ensures CleanCuts(Above(qs, after), Cap(limit)) ==>
      PageCount(Requests(qs, limit, after), |Above(qs, after)|, Cap(limit))
    decreases |Above(qs, after)|
  {
    hide Walk, Requests, Cap, Above, InOrder, Startable, CleanCuts, PageCount;
    var rest, c := Above(qs, after), Cap(limit);
    if |rest| < c {
      LastPage(qs, limit, after);
      FewHaveCleanCuts(rest, c);
      PagesAddUp(1, 0, |rest|, c);
    } else {
      FullPage(qs, limit, after);
      NextPage(qs, after, c);
      var cursor := rest[c - 1].id;
      WalkFrom(qs, limit, cursor);
      CutsOnward(rest, Above(qs, cursor), Walk(qs, limit, cursor), c);
      PagesAddUp(Requests(qs, limit, after), Requests(qs, limit, cursor), |rest|, c);
    }
  }

  /** `r` requests are one more than the full pages of `c` among `n` questions. */
  predicate PageCount(r: int, n: int, c: int) {
    1 <= r && (r - 1) * c <= n < r * c
  }

  lemma PagesAddUp(r: int, before: int, n: nat, c: int)
    requires r == before + 1 && c >= 1
    ensures before == 0 && n < c ==> PageCount(r, n, c)
    ensures n >= c && PageCount(before, n - c, c) ==> PageCount(r, n, c)
  {
    assert (before - 1) * c == before * c - c && (r - 1) * c == before * c && r * c == before * c + c;
  }

  /** One page further: the walk is whole if the cut is clean and the rest of the walk is whole. */
  lemma CutsOnward(rest: seq<Question>, next: seq<Question>, walk: seq<Question>, c: nat)
    requires 0 < c <= |rest| && |walk| <= |next| <= |rest| - c
    requires c == |rest| || rest[c].id != rest[c - 1].id ==> next == rest[c..]
    requires c < |rest| && rest[c].id == rest[c - 1].id ==> |next| < |rest| - c
    requires walk == next <==> CleanCuts(next, c)
    ensures rest[..c] + walk == rest <==> CleanCuts(rest, c)
    ensures CleanCuts(rest, c) ==> CleanCuts(next, c) && |next| == |rest| - c
  {
    hide CleanCuts;
    assert rest == rest[..c] + rest[c..];
    SamePrefix(rest[..c], walk, rest[c..]);
    if c < |rest| {
      CleanCutsShift(rest, c);
    } else {
      FewHaveCleanCuts(rest, c);
      FewHaveCleanCuts(next, c);
    }
  }

  lemma SamePrefix(p: seq<Question>, a: seq<Question>, b: seq<Question>)
    ensures p + a == p + b <==> a == b
  {
    assert a == (p + a)[|p|..] && b == (p + b)[|p|..];
  }

  lemma {:induction false} FilteredKeepsDistinct(qs: seq<Question>, f: Filter)
    requires DistinctIds(qs)
    ensures DistinctIds(Filtered(qs, f))
    ensures forall q :: q in Filtered(qs, f) ==> q in qs
  {
    if qs != [] {
      var n := |qs| - 1;
      FilteredKeepsDistinct(qs[..n], f);
      assert qs == qs[..n] + [qs[n]];
      var front := Filtered(qs[..n], f);
      forall i | 0 <= i < |front| ensures front[i].id != qs[n].id {
        assert front[i] in qs[..n];
        var k :| 0 <= k < n && qs[k] == front[i];
      }
    }
  }

  lemma FilteredDistinct(raw: seq<Question>, f: Filter)
    requires DistinctIds(raw)
    ensures DistinctIds(Filtered(Catalogue(raw), f))
  {
    var c := Catalogue(raw);
    CatalogueInOrder(raw);
    SameElements(c, raw);
    DistinctSameElements(raw, c);
    forall i, j | 0 <= i < j < |c| ensures c[i].id != c[j].id {
      assert c[i] in raw && c[j] in raw && c[i] != c[j];
    }
    FilteredKeepsDistinct(c, f);
  }

  lemma DistinctHaveCleanCuts(qs: seq<Question>, c: nat)
    requires DistinctIds(qs)
    ensures CleanCuts(qs, c)
  {
  }

  /** The whole promise: from the empty cursor every question that passes the filter comes back,
      once and in order, in exactly as many requests as there are full pages, plus one. */
  lemma WalkIsComplete(raw: seq<Question>, f: Filter, limit: int)
    requires DistinctIds(raw) && Startable(Filtered(Catalogue(raw), f), limit)
    ensures var fs := Filtered(Catalogue(raw), f);
      && InOrder(fs) && Walk(fs, limit, "") == fs
      && PageCount(Requests(fs, limit, ""), |fs|, Cap(limit))
  {
    hide Catalogue, Filtered, Cap, Above, PageCount;
    var c := Catalogue(raw);
    CatalogueInOrder(raw);
    FilteredInOrder(c, f);
    FilteredDistinct(raw, f);
    var fs := Filtered(c, f);
    WalkFrom(fs, limit, "");
    AboveIsSuffix(fs, "", 0);
    DistinctHaveCleanCuts(fs, Cap(limit));
  }

  /** Exactly which sorted lists come back whole for a page size: those where no page ends between two
      questions of the same id. */
  lemma WalkCompleteIff(qs: seq<Question>, limit: int)
    requires InOrder(qs) && Startable(qs, limit)
    ensures Walk(qs, limit, "") == qs <==> CleanCuts(qs, Cap(limit))
  {
    hide CleanCuts;
    WalkFrom(qs, limit, "");
    AboveIsSuffix(qs, "", 0);
  }

  /** Distinct ids are exactly what is needed for every page size. */
  lemma WalkCompleteForAllLimits(qs: seq<Question>)
    requires InOrder(qs) && NamedIds(qs)
    ensures (forall limit :: Walk(qs, limit, "") == qs) <==> DistinctIds(qs)
  {
    if DistinctIds(qs) {
      forall limit ensures Walk(qs, limit, "") == qs {
        WalkCompleteIff(qs, limit);
        DistinctHaveCleanCuts(qs, Cap(limit));
      }
    } else {
      var i, j :| 0 <= i < j < |qs| && qs[i].id == qs[j].id;
      StrAntisymmetricBetween(qs, i, j);
      assert PageStart(i + 1, 1) == i + 1;
      WalkCompleteIff(qs, 1);
      assert Walk(qs, 1, "") != qs;
    }
  }

  /** In a sorted list questions of the same id stand next to each other. */
  lemma StrAntisymmetricBetween(qs: seq<Question>, i: nat, j: nat)
    requires InOrder(qs) && i < j < |qs| && qs[i].id == qs[j].id
    ensures qs[i].id == qs[i + 1].id
  {
    if i + 1 < j { StrAntisymmetric(qs[i].id, qs[i + 1].id); }
  }
}
