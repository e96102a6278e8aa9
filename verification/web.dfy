/** The arithmetic of the HTML pages in app/routes/web.py: pagination of
    the person list and the average confidence on the training page.
    Templates are not modelled. */
module Web {
  import opened Common
  import opened Store
  import opened PersonService

  /** People per page. */
  const PerPage: nat := 20

  datatype Pagination = Pagination(page: int, hasPrev: bool, hasNext: bool, prevPage: Option<int>, nextPage: Option<int>)

  /** The page: each shown person with their statistics, and the links. */
  datatype ListPage = ListPage(persons: seq<(Person, Stats)>, pagination: Pagination)

  /** `max(page, 1)`. */
  function PageNumber(page: int): (p: int)
    ensures p >= 1
    ensures page >= 1 ==> p == page
    ensures page < 1 ==> p == 1
  {
    if page >= 1 then page else 1
  }

  /** The number of newest-first people skipped before a page. */
  function PageOffset(page: int): (offset: nat)
    ensures offset == (PageNumber(page) - 1) * PerPage
    ensures offset % PerPage == 0
  {
    (PageNumber(page) - 1) * PerPage
  }

  /** The people of one page starting at `offset`, and whether more
      follow: `PerPage + 1` rows are fetched and the surplus one dropped. */
  function Fetch(db: Db, offset: nat): (out: (seq<Person>, bool))
    ensures out.1 <==> |db.persons| > offset + PerPage
    ensures |out.0| == (if |db.persons| <= offset then 0 else Min(PerPage, |db.persons| - offset))
    ensures forall i :: 0 <= i < |out.0| ==> out.0[i] == PersonsNewestFirst(db)[offset + i]
  {
    var fetched := GetAllPersons(db, PerPage + 1, offset);
    var hasNext := |fetched| > PerPage;
    (if hasNext then fetched[..PerPage] else fetched, hasNext)
  }

  /** `persons_list_page`: one row more than a page is fetched to learn
      whether a next page exists, and the surplus row is dropped. */
  function PersonsListPage(db: Db, page: int): (r: ListPage)
    ensures |r.persons| <= PerPage
    ensures r.pagination.page == PageNumber(page)
    ensures r.pagination.hasNext <==> |db.persons| > PageOffset(page) + PerPage
    ensures r.pagination.hasPrev <==> page > 1
    ensures r.pagination.prevPage == (if r.pagination.hasPrev then Some(PageNumber(page) - 1) else None)
    ensures r.pagination.nextPage == (if r.pagination.hasNext then Some(PageNumber(page) + 1) else None)
    ensures |r.persons| == (if |db.persons| <= PageOffset(page) then 0
                            else Min(PerPage, |db.persons| - PageOffset(page)))
    ensures forall i :: 0 <= i < |r.persons| ==>
      r.persons[i].0 == PersonsNewestFirst(db)[PageOffset(page) + i]
      && r.persons[i].1 == GetPersonStats(db, r.persons[i].0.id)
  {
    var p := PageNumber(page);
    var offset := PageOffset(page);
    var fetched := Fetch(db, offset);
    var shown := fetched.0;
    var hasNext := fetched.1;
    var hasPrev := p > 1;
    var rows := seq(|shown|, i requires 0 <= i < |shown| => (shown[i], GetPersonStats(db, shown[i].id)));
    ListPage(rows, Pagination(p, hasPrev, hasNext,
                              if hasPrev then Some(p - 1) else None,
                              if hasNext then Some(p + 1) else None))
  }

  /** Every person is shown on exactly one page: the one their
      newest-first position falls in, at the matching slot. */
  lemma PersonOnItsPage(db: Db, k: nat)
    requires k < |db.persons|
    ensures var r := PersonsListPage(db, k / PerPage + 1);
      k % PerPage < |r.persons| && r.persons[k % PerPage].0 == PersonsNewestFirst(db)[k]
  {
    PageOfPosition(k);
    PageSlot(db, k / PerPage + 1, k % PerPage);
  }

  /** Slot `i` of a page holds the person at the page's offset plus `i`. */
  lemma PageSlot(db: Db, page: int, i: nat)
    requires i < PerPage && PageOffset(page) + i < |db.persons|
    ensures var r := PersonsListPage(db, page);
      i < |r.persons| && r.persons[i].0 == PersonsNewestFirst(db)[PageOffset(page) + i]
  {
  }

  /** The page a newest-first position falls on starts at the position
      rounded down to a multiple of the page size. */
  lemma PageOfPosition(k: nat)
    ensures PageOffset(k / PerPage + 1) == k - k % PerPage
    ensures 0 <= k % PerPage < PerPage
  {
  }

  /** A page that announces a next page is followed by a non-empty one,
      which links back to it. */
  lemma NextPageIsNonEmpty(db: Db, page: int)
    requires PersonsListPage(db, page).pagination.hasNext
    ensures var next := PersonsListPage(db, PageNumber(page) + 1);
      |next.persons| > 0 && next.pagination.prevPage == Some(PageNumber(page))
  {
    assert PageOffset(PageNumber(page) + 1) == PageOffset(page) + PerPage;
  }

  // -------------------------------------------------- training page

  /** The confidences of the active photos that have one, in table order. */
  function ActiveConfidences(ps: seq<Photo>): (cs: seq<real>)
    ensures |cs| <= |ps|
    ensures forall x :: x in ps && x.isActive && x.confidence.Some? ==> x.confidence.value in cs
    decreases |ps|
  {
    if ps == [] then []
    else
      var rest := ActiveConfidences(ps[1..]);
      assert forall x :: x in ps && x != ps[0] ==> x in ps[1..];
      if ps[0].isActive && ps[0].confidence.Some? then [ps[0].confidence.value] + rest else rest
  }

  /** An active photo that has a confidence: one that the training page
      averages. */
  predicate Rated(x: Photo) {
    x.isActive && x.confidence.Some?
  }

  /** The collected confidences are exactly those of the rated photos, one
      per photo and in table order. */
  lemma {:induction false} ActiveConfidencesOfRated(ps: seq<Photo>)
    ensures var rated := Filter(ps, Rated);
      && |ActiveConfidences(ps)| == |rated|
      && forall i :: 0 <= i < |rated| ==> rated[i].confidence == Some(ActiveConfidences(ps)[i])
    decreases |ps|
  {
    if ps != [] {
      var tail := Filter(ps[1..], Rated);
      var cs := ActiveConfidences(ps[1..]);
      ActiveConfidencesOfRated(ps[1..]);
      if Rated(ps[0]) {
        assert Filter(ps, Rated) == [ps[0]] + tail;
        assert ActiveConfidences(ps) == [ps[0].confidence.value] + cs;
      } else {
        assert Filter(ps, Rated) == tail;
        assert ActiveConfidences(ps) == cs;
      }
    }
  }

  function Sum(xs: seq<real>): real
    decreases |xs|
  {
    if xs == [] then 0.0 else xs[0] + Sum(xs[1..])
  }

  lemma {:induction false} SumBounds(xs: seq<real>)
    requires forall i :: 0 <= i < |xs| ==> 0.0 <= xs[i] <= 1.0
    ensures 0.0 <= Sum(xs) <= |xs| as real
    decreases |xs|
  {
    if xs != [] {
      assert forall i :: 1 <= i < |xs| ==> xs[i] == xs[1..][i - 1];
      SumBounds(xs[1..]);
    }
  }

  /** The average confidence on `training_page`: the mean over active
      photos that have a confidence, or 0.0 when there is none. */
  function TrainingAverageConfidence(ps: seq<Photo>): (avg: real)
    ensures ActiveConfidences(ps) == [] ==> avg == 0.0
    ensures ActiveConfidences(ps) != [] ==>
      avg == Average(Sum(ActiveConfidences(ps)), |ActiveConfidences(ps)|)
  {
    var cs := ActiveConfidences(ps);
    if cs == [] then 0.0 else Average(Sum(cs), |cs|)
  }

  /** Photos without a confidence, and inactive photos, do not move the
      average. */
  lemma {:induction false} SkippedPhotosIgnored(ps: seq<Photo>, x: Photo)
    requires !x.isActive || x.confidence.None?
    ensures ActiveConfidences([x] + ps) == ActiveConfidences(ps)
    ensures TrainingAverageConfidence([x] + ps) == TrainingAverageConfidence(ps)
  {
    assert ([x] + ps)[1..] == ps;
  }

  /** With confidences in [0, 1] the average is in [0, 1]. */
  lemma {:induction false} TrainingAverageBounds(ps: seq<Photo>)
    requires forall i :: 0 <= i < |ps| ==> ps[i].confidence.None? || 0.0 <= ps[i].confidence.value <= 1.0
    ensures 0.0 <= TrainingAverageConfidence(ps) <= 1.0
  {
    var cs := ActiveConfidences(ps);
    if cs != [] {
      ConfidencesInRange(ps);
      SumBounds(cs);
      AverageBounds(Sum(cs), |cs| as real);
      assert Average(Sum(cs), |cs|) == Sum(cs) / (|cs| as real);
    }
  }

  lemma {:induction false} ConfidencesInRange(ps: seq<Photo>)
    requires forall i :: 0 <= i < |ps| ==> ps[i].confidence.None? || 0.0 <= ps[i].confidence.value <= 1.0
    ensures forall i :: 0 <= i < |ActiveConfidences(ps)| ==> 0.0 <= ActiveConfidences(ps)[i] <= 1.0
    decreases |ps|
  {
    if ps != [] {
      assert forall i :: 1 <= i < |ps| ==> ps[i] == ps[1..][i - 1];
      ConfidencesInRange(ps[1..]);
    }
  }
}
