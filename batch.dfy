/**
 * The script's main part (scraper.py:248-275): reads the business links,
 * extracts and saves each link the first time it is met, then saves every
 * extracted record a second time in one final pass. The browser is the
 * function `site` from a link to the page it loads.
 */
module Batch {
  import opened Text
  import opened Business
  import opened Csv

  /** The distinct links in order of first occurrence. */
  function Dedup(links: seq<string>): seq<string>
    decreases |links|
  {
    if links == [] then []
    else
      var init := links[..|links| - 1];
      var x := links[|links| - 1];
      Dedup(init) + (if x in init then [] else [x])
  }

  /** The position of the first occurrence of `x`. */
  function FirstIndex(links: seq<string>, x: string): (r: nat)
    requires x in links
    ensures r < |links| && links[r] == x && x !in links[..r]
  {
    if links[0] == x then 0
    else
      var r := 1 + FirstIndex(links[1..], x);
      assert links[..r] == [links[0]] + links[1..][..r - 1];
      r
  }

  /** The record `extract_business_info` returns for every link. */
  function RecordsOf(urls: seq<string>, site: string -> Page): (rs: seq<Record>)
    ensures |rs| == |urls|
    ensures forall i | 0 <= i < |urls| :: rs[i] == RecordOf(urls[i], site(urls[i]))
  {
    seq(|urls|, i requires 0 <= i < |urls| => RecordOf(urls[i], site(urls[i])))
  }

  /** Reading one more link adds it to the distinct links unless it was already met. */
  lemma DedupStep(links: seq<string>, k: nat)
    requires k < |links|
    ensures Dedup(links[..k + 1]) == Dedup(links[..k]) + (if links[k] in links[..k] then [] else [links[k]])
  {
    assert links[..k + 1][..k] == links[..k];
  }

  /** The links met so far, as `visited_links` holds them. */
  function Seen(links: seq<string>): set<string>
  {
    set l | l in links
  }

  /** Reading one more link adds it to the visited links. */
  lemma VisitedStep(links: seq<string>, k: nat)
    requires k < |links|
    ensures Seen(links[..k + 1]) == Seen(links[..k]) + {links[k]}
  {
    assert links[..k + 1] == links[..k] + [links[k]];
  }

  lemma RecordsOfAppend(urls: seq<string>, x: string, site: string -> Page)
    ensures RecordsOf(urls + [x], site) == RecordsOf(urls, site) + [RecordOf(x, site(x))]
  {
  }

  /**
   * The file after saving the records `all` one call at a time to a file that
   * held `rows0`: the header comes with the first record, if the file was new.
   */
  function SavedOneByOne(rows0: seq<Row>, onDisk0: bool, all: seq<Record>): seq<Row>
  {
    if all == [] then rows0 else rows0 + (if onDisk0 then [] else [Header]) + RowsOf(all)
  }

  lemma SavedStep(rows0: seq<Row>, onDisk0: bool, all: seq<Record>, info: Record)
    ensures SavedOneByOne(rows0, onDisk0, all + [info])
         == SavedOneByOne(rows0, onDisk0, all) + (if onDisk0 || all != [] then [] else [Header]) + RowsOf([info])
  {
    assert RowsOf(all + [info]) == RowsOf(all) + RowsOf([info]);
  }

  /**
   * The `for link in all_business_links` loop (scraper.py:264-270): each link
   * not yet visited is extracted, kept, saved on its own and marked visited.
   */
  method ScrapeLinks(links: seq<string>, site: string -> Page, out: CsvFile) returns (all: seq<Record>, visited: set<string>)
    requires out.Valid()
    modifies out
    ensures visited == set l | l in links
    ensures all == RecordsOf(Dedup(links), site)
    ensures out.Valid() && out.onDisk == (old(out.onDisk) || all != [])
    ensures out.rows == SavedOneByOne(old(out.rows), old(out.onDisk), all)
  {
    all := [];
    visited := {};
    ghost var rows0 := out.rows;
    ghost var onDisk0 := out.onDisk;
    var k := 0;
    while k < |links|
      invariant 0 <= k <= |links|
      invariant visited == Seen(links[..k])
      invariant all == RecordsOf(Dedup(links[..k]), site)
      invariant out.Valid() && out.onDisk == (onDisk0 || all != [])
      invariant out.rows == SavedOneByOne(rows0, onDisk0, all)
    {
      var link := links[k];
      DedupStep(links, k);
      VisitedStep(links, k);
      if link !in visited {
        assert link !in links[..k];
        var info := ExtractBusinessInfo(link, site(link));
        RecordsOfAppend(Dedup(links[..k]), link, site);
        SavedStep(rows0, onDisk0, all, info);
        all := all + [info];
        out.SaveToCsv([info]);
        visited := visited + {link};
      } else {
        assert link in links[..k];
      }
      k := k + 1;
    }
    assert links[..k] == links;
  }

  /**
   * The whole run: strips the lines of the link file, scrapes them, then
   * appends every record once more (scraper.py:275).
   */
  method Run(lines: seq<string>, site: string -> Page, out: CsvFile) returns (all: seq<Record>)
    requires out.Valid()
    modifies out
    ensures all == RecordsOf(Dedup(StripAll(lines)), site)
    ensures out.Valid() && out.onDisk
    ensures out.rows == old(out.rows) + (if old(out.onDisk) then [] else [Header]) + RowsOf(all) + RowsOf(all)
  {
    var links := StripAll(lines);
    var visited;
    all, visited := ScrapeLinks(links, site, out);
    FinalPass(old(out.rows), old(out.onDisk), all);
    out.SaveToCsv(all);
  }

  /** Saving all records once more after saving them one by one. */
  lemma FinalPass(rows0: seq<Row>, onDisk0: bool, all: seq<Record>)
    ensures SavedOneByOne(rows0, onDisk0, all) + (if onDisk0 || all != [] then [] else [Header]) + RowsOf(all)
         == rows0 + (if onDisk0 then [] else [Header]) + RowsOf(all) + RowsOf(all)
  {
    if all == [] {
      assert RowsOf(all) == [];
    }
  }

  /** The records kept are those of the distinct links: a link is extracted iff it is in the input. */
  lemma {:induction false} DedupElements(links: seq<string>, x: string)
    ensures x in Dedup(links) <==> x in links
    decreases |links|
  {
    if links != [] {
      var init := links[..|links| - 1];
      DedupElements(init, x);
      assert links == init + [links[|links| - 1]];
    }
  }

  /** No link is extracted twice. */
  lemma {:induction false} DedupDistinct(links: seq<string>)
    ensures forall i, j | 0 <= i < j < |Dedup(links)| :: Dedup(links)[i] != Dedup(links)[j]
    decreases |links|
  {
    if links != [] {
      var init := links[..|links| - 1];
      var x := links[|links| - 1];
      DedupDistinct(init);
      DedupElements(init, x);
    }
  }

  /** The first occurrence is the only occurrence with none before it. */
  lemma FirstIndexIs(links: seq<string>, y: string, i: nat)
    requires i < |links| && links[i] == y && y !in links[..i]
    ensures FirstIndex(links, y) == i
  {
  }

  lemma FirstIndexInPrefix(links: seq<string>, y: string)
    requires |links| > 0 && y in links[..|links| - 1]
    ensures FirstIndex(links, y) == FirstIndex(links[..|links| - 1], y)
  {
    var init := links[..|links| - 1];
    var i := FirstIndex(init, y);
    assert links[..i] == init[..i];
    FirstIndexIs(links, y, i);
  }

  /** Links are extracted in the order of their first occurrence in the input. */
  lemma {:induction false} DedupOrder(links: seq<string>)
    ensures forall x | x in Dedup(links) :: x in links
    ensures forall i, j | 0 <= i < j < |Dedup(links)| :: FirstIndex(links, Dedup(links)[i]) < FirstIndex(links, Dedup(links)[j])
    decreases |links|
  {
    if links != [] {
      var init := links[..|links| - 1];
      var x := links[|links| - 1];
      var d := Dedup(init);
      DedupOrder(init);
      forall y | y in Dedup(links)
        ensures y in links
      {
        DedupElements(links, y);
      }
      forall y | y in d
        ensures FirstIndex(links, y) == FirstIndex(init, y) < |init|
      {
        FirstIndexInPrefix(links, y);
      }
      if x !in init {
        assert FirstIndex(links, x) == |init| by {
          assert links[|init|] == x;
          assert links[..|init|] == init;
        }
      }
    }
  }

  /** Input links that are already distinct are all extracted, in input order. */
  lemma {:induction false} DedupOfDistinct(links: seq<string>)
    requires forall i, j | 0 <= i < j < |links| :: links[i] != links[j]
    ensures Dedup(links) == links
    decreases |links|
  {
    if links != [] {
      var init := links[..|links| - 1];
      DedupOfDistinct(init);
      assert links[|links| - 1] !in init;
      assert init + [links[|links| - 1]] == links;
    }
  }

  /** No links, no records; otherwise at least one. */
  lemma {:induction false} DedupEmpty(links: seq<string>)
    ensures Dedup(links) == [] <==> links == []
  {
    if links != [] {
      DedupElements(links, links[0]);
    }
  }

  /**
   * The final pass duplicates every record. On a new file `Run` leaves
   * `[Header] + RowsOf(all) + RowsOf(all)`: one header and `2 * |all|` rows,
   * the row of record `i` standing at `1 + i` and again at `1 + |all| + i`.
   */
  lemma RunRowsTwice(all: seq<Record>, i: nat)
    requires i < |all|
    ensures |[Header] + RowsOf(all) + RowsOf(all)| == 1 + 2 * |all|
    ensures ([Header] + RowsOf(all) + RowsOf(all))[1 + i] == RowOf(all[i])
    ensures ([Header] + RowsOf(all) + RowsOf(all))[1 + |all| + i] == RowOf(all[i])
  {
  }
}
