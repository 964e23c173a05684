/**
 * `page_navigation` (scraper.py:39-92): walks the search result pages from a
 * start URL, collecting the `href` of every listing, and clicks "Next Page"
 * until the button is missing, hidden or disabled. The browser is replaced by
 * the sequence of result pages the clicks would reach.
 */
module Navigation {
  import opened Wrappers
  import opened Seqs

  /** A listing's `.//h3/a` lookup: `Missing` when it raises, else the anchor's `href`. */
  datatype Listing = Missing | Anchor(href: Option<string>)

  /**
   * The "Next Page" button: `NoButton` stands for any exception inside the
   * button's `try` (scraper.py:56-86): the span is not found within the wait,
   * it has no enclosing button, or `is_displayed()`, `is_enabled()` or the
   * JavaScript click raises. `Button` carries what the two checks returned;
   * a clickable one is clicked without error.
   */
  datatype NextButton = NoButton | Button(displayed: bool, enabled: bool)

  datatype ResultsPage = ResultsPage(listings: seq<Listing>, next: NextButton)

  /** The start page either fails to load or leads through these pages in click order. */
  datatype Session = LoadFailed | Loaded(pages: seq<ResultsPage>)

  predicate IsMissing(l: Listing)
  {
    l.Missing?
  }

  /** `next_button.is_displayed() and next_button.is_enabled()` */
  predicate Clickable(b: NextButton)
  {
    b.Button? && b.displayed && b.enabled
  }

  /** Every listing lookup succeeds and the next page can be reached. */
  predicate Continues(p: ResultsPage)
  {
    (forall j | 0 <= j < |p.listings| :: !IsMissing(p.listings[j])) && Clickable(p.next)
  }

  predicate Stops(p: ResultsPage)
  {
    !Continues(p)
  }

  /** Some page ends the walk: the `while True` loop terminates on this session. */
  predicate Ends(pages: seq<ResultsPage>)
  {
    exists i | 0 <= i < |pages| :: Stops(pages[i])
  }

  /** The index of the page the walk ends on: the first that stops it. */
  function LastPage(pages: seq<ResultsPage>): (r: nat)
    requires Ends(pages)
    ensures r < |pages| && Stops(pages[r])
    ensures forall q | 0 <= q < r :: Continues(pages[q])
  {
    assert FirstWhere(pages, Stops).Some?;
    FirstWhere(pages, Stops).value
  }

  /** How many listings are read before the first failing lookup. */
  function ReadCount(ls: seq<Listing>): (n: nat)
    ensures n <= |ls|
    ensures forall j | 0 <= j < n :: ls[j].Anchor?
    ensures n < |ls| ==> ls[n].Missing?
  {
    match FirstWhere(ls, IsMissing)
    case None => |ls|
    case Some(i) => i
  }

  /** The hrefs a page contributes: those of the listings read before the first failure. */
  function Hrefs(ls: seq<Listing>): (r: seq<Option<string>>)
    ensures |r| == ReadCount(ls)
    ensures forall j | 0 <= j < |r| :: r[j] == ls[j].href
  {
    seq(ReadCount(ls), j requires 0 <= j < ReadCount(ls) => ls[j].href)
  }

  function PageHrefs(pages: seq<ResultsPage>): (r: seq<seq<Option<string>>>)
    ensures |r| == |pages|
    ensures forall i | 0 <= i < |pages| :: r[i] == Hrefs(pages[i].listings)
  {
    seq(|pages|, i requires 0 <= i < |pages| => Hrefs(pages[i].listings))
  }

  /** The links `page_navigation` returns: each page's hrefs, in page order, up to the last page. */
  function Collected(s: Session): seq<Option<string>>
    requires s.Loaded? ==> Ends(s.pages)
  {
    match s
    case LoadFailed => []
    case Loaded(pages) => Concat(PageHrefs(pages[..LastPage(pages) + 1]))
  }

  /**
   * The `for listing in business_listings` loop of one page: the hrefs read
   * before the first failing lookup, and whether one failed (the exception
   * that ends `page_navigation`).
   */
  method ReadListings(listings: seq<Listing>) returns (hrefs: seq<Option<string>>, failed: bool)
    ensures hrefs == Hrefs(listings)
    ensures failed <==> ReadCount(listings) < |listings|
  {
    hrefs := [];
    var j := 0;
    while j < |listings|
      invariant 0 <= j <= |listings|
      invariant forall k | 0 <= k < j :: listings[k].Anchor?
      invariant hrefs == seq(j, k requires 0 <= k < j => listings[k].href)
    {
      match listings[j] {
        case Missing =>
          assert ReadCount(listings) == j;
          return hrefs, true;
        case Anchor(href) =>
          hrefs := hrefs + [href];
      }
      j := j + 1;
    }
    assert ReadCount(listings) == j;
    return hrefs, false;
  }

  /** The `while True` loop: reads each page's listings, then clicks "Next Page" or stops. */
  method PageNavigation(s: Session) returns (links: seq<Option<string>>)
    requires s.Loaded? ==> Ends(s.pages)
    ensures links == Collected(s)
  {
    links := [];
    if s.LoadFailed? {
      return;
    }
    var pages := s.pages;
    ghost var last := LastPage(pages);
    var p := 0;
    while true
      invariant 0 <= p <= last
      invariant links == Concat(PageHrefs(pages[..p]))
      decreases last - p
    {
      var hrefs, failed := ReadListings(pages[p].listings);
      CollectedStep(pages, p);
      links := links + hrefs;
      StopsWhen(pages[p]);
      if failed || !Clickable(pages[p].next) {
        StopsAtLast(pages, p);
        return;
      }
      p := p + 1;
    }
  }

  /** A page stops the walk iff one of its listing lookups fails or its button cannot be clicked. */
  lemma StopsWhen(page: ResultsPage)
    ensures Stops(page) <==> ReadCount(page.listings) < |page.listings| || !Clickable(page.next)
  {
    if ReadCount(page.listings) < |page.listings| {
      assert IsMissing(page.listings[ReadCount(page.listings)]);
    }
  }

  /** The first page that stops the walk is the last one visited. */
  lemma StopsAtLast(pages: seq<ResultsPage>, p: nat)
    requires Ends(pages) && p <= LastPage(pages) && Stops(pages[p])
    ensures p == LastPage(pages)
  {
  }

  /** Adding one more page to the walk adds its hrefs at the end. */
  lemma CollectedStep(pages: seq<ResultsPage>, p: nat)
    requires p < |pages|
    ensures Concat(PageHrefs(pages[..p + 1])) == Concat(PageHrefs(pages[..p])) + Hrefs(pages[p].listings)
  {
    assert PageHrefs(pages[..p + 1])[..p] == PageHrefs(pages[..p]);
  }

  /** A start page that does not load gives no links. */
  lemma LoadFailedCollectsNothing()
    ensures Collected(LoadFailed) == []
  {
  }

  /**
   * When every listing lookup succeeds and only the final page lacks a
   * clickable button, every listing's href is returned: one link per listing.
   */
  lemma AllPagesRead(pages: seq<ResultsPage>)
    requires |pages| > 0 && !Clickable(pages[|pages| - 1].next)
    requires forall i | 0 <= i < |pages| - 1 :: Clickable(pages[i].next)
    requires forall i, j | 0 <= i < |pages| && 0 <= j < |pages[i].listings| :: pages[i].listings[j].Anchor?
    ensures Ends(pages) && Collected(Loaded(pages)) == Concat(PageHrefs(pages))
    ensures |Collected(Loaded(pages))| == TotalLength(PageHrefs(pages))
    ensures forall i | 0 <= i < |pages| :: |PageHrefs(pages)[i]| == |pages[i].listings|
  {
    assert Stops(pages[|pages| - 1]);
    forall q | 0 <= q < |pages| - 1
      ensures Continues(pages[q])
    {
    }
    assert LastPage(pages) == |pages| - 1;
    assert pages[..|pages|] == pages;
    ConcatLength(PageHrefs(pages));
    forall i | 0 <= i < |pages|
      ensures |PageHrefs(pages)[i]| == |pages[i].listings|
    {
      var n := ReadCount(pages[i].listings);
      assert n == |pages[i].listings|;
    }
  }

  /** Pages after the one the walk stops on are never visited: they do not change the result. */
  lemma LaterPagesIgnored(pages: seq<ResultsPage>, rest: seq<ResultsPage>)
    requires Ends(pages)
    ensures Ends(pages + rest)
    ensures Collected(Loaded(pages + rest)) == Collected(Loaded(pages))
  {
    var last := LastPage(pages);
    assert (pages + rest)[last] == pages[last];
    forall q | 0 <= q < last
      ensures Continues((pages + rest)[q])
    {
      assert (pages + rest)[q] == pages[q];
    }
    assert LastPage(pages + rest) == last;
    assert (pages + rest)[..last + 1] == pages[..last + 1];
  }

  /**
   * A listing whose anchor lookup fails ends the walk on that page: only the
   * hrefs before it on that page are kept, after those of the earlier pages.
   */
  lemma MissingListingStops(pages: seq<ResultsPage>, p: nat, j: nat)
    requires p < |pages| && j < |pages[p].listings| && pages[p].listings[j].Missing?
    requires forall k | 0 <= k < j :: pages[p].listings[k].Anchor?
    requires forall q | 0 <= q < p :: Continues(pages[q])
    ensures Ends(pages)
    ensures Collected(Loaded(pages)) == Concat(PageHrefs(pages[..p])) + seq(j, k requires 0 <= k < j => pages[p].listings[k].href)
  {
    assert Stops(pages[p]);
    assert LastPage(pages) == p;
    assert ReadCount(pages[p].listings) == j;
    CollectedStep(pages, p);
  }
}
