/**
  `getChapters` (index.js:88-148) and the cache-or-discover branch of `main`
  (index.js:157-165).

  The browser is abstracted away: what it supplies becomes input. `initialHeight` is
  the first reading of `document.body.scrollHeight` (index.js:100), and each `Pass`
  holds what one iteration of the scroll loop observes: the `{title, link}` rows
  rendered after scrolling (index.js:117-123) and the height read at the end of the
  iteration (index.js:136). Navigation, the dialog, scrolling and the waits have no
  effect on the result beyond these observations.
*/
module Discovery {

  import opened Optional
  import opened ChapterTable
  import Scroll

  /** The query appended to the title page to open its chapter list (index.js:90). */
  const ChaptersQuery: string := "?section=chapters"

  /** `${mangaLink}?section=chapters`: the link itself, followed by the query. */
  function ChaptersUrl(mangaLink: string): (url: string)
    ensures |url| == |mangaLink| + |ChaptersQuery|
    ensures url[..|mangaLink|] == mangaLink
    ensures url[|mangaLink|..] == ChaptersQuery
  {
    mangaLink + ChaptersQuery
  }

  /** What one iteration of the scroll loop observes. */
  datatype Pass = Pass(rows: seq<Chapter>, height: int)

  /** The heights read at the end of each iteration. */
  function Heights(passes: seq<Pass>): seq<int> {
    seq(|passes|, i requires 0 <= i < |passes| => passes[i].height)
  }

  /** All rows observed by the given iterations, in the order they were read. */
  function AllRows(passes: seq<Pass>): seq<Chapter>
    decreases |passes|
  {
    if passes == [] then []
    else AllRows(passes[..|passes| - 1]) + passes[|passes| - 1].rows
  }

  /**
    How `getChapters` ends: the loop exits after `passes` iterations with the array of
    entries, or the supplied observations run out while the offset is still below the
    page height (against a live page the loop would scroll on).
  */
  datatype Discovery = Completed(chapters: seq<Chapter>, passes: nat) | Unfinished

  /**
    Specification of `getChapters` in terms of its observations: the loop ends exactly
    when some pass count within the readings lets the offset reach the height, and the
    array it then yields lists distinct, non-empty titles.
  */
  function Discover(initialHeight: int, passes: seq<Pass>): (r: Discovery)
    ensures r.Unfinished? <==> Scroll.PassCount(initialHeight, Heights(passes)).None?
    ensures r.Completed? ==> r.passes <= |passes| && Scroll.PassCount(initialHeight, Heights(passes)) == Some(r.passes)
    ensures r.Completed? ==> TitlesDistinct(r.chapters) && forall i :: 0 <= i < |r.chapters| ==> r.chapters[i].title != ""
  {
    match Scroll.PassCount(initialHeight, Heights(passes))
    case None => Unfinished
    case Some(n) =>
      MergeBatchValid(Empty, AllRows(passes[..n]));
      Completed(Entries(MergeBatch(Empty, AllRows(passes[..n]))), n)
  }

  /**
    The `forEach` over one batch (index.js:127-133): a row is stored when its title is
    non-empty and the title's current link is missing or empty.
  */
  method MergeRows(chapters: Table, rows: seq<Chapter>) returns (merged: Table)
    ensures merged == MergeBatch(chapters, rows)
  {
    merged := chapters;
    for i := 0 to |rows|
      invariant merged == MergeBatch(chapters, rows[..i])
    {
      var chapter := rows[i];
      if chapter.title != "" && (chapter.title !in merged.links || merged.links[chapter.title] == "") {
        var order := if chapter.title in merged.links then merged.order else merged.order + [chapter.title];
        merged := Table(merged.links[chapter.title := chapter.link], order);
      }
      assert rows[..i + 1][..i] == rows[..i];
    }
    assert rows[..|rows|] == rows;
  }

  /**
    `getChapters` (index.js:88-148): returns the URL it navigates to and how the scroll
    loop ends. `currentHeight` is always a multiple of 350, the table always holds the
    merge of every batch read so far, and the loop leaves exactly when the offset has
    reached the last height read.
  */
  method GetChapters(mangaLink: string, initialHeight: int, passes: seq<Pass>) returns (url: string, outcome: Discovery)
    ensures url == ChaptersUrl(mangaLink)
    ensures outcome == Discover(initialHeight, passes)
  {
    url := ChaptersUrl(mangaLink);
    var chapters := Empty;
    var currentHeight := 0;
    var scrollHeight := initialHeight;
    var k := 0;
    ghost var heights := Heights(passes);
    while currentHeight < scrollHeight
      invariant 0 <= k <= |passes|
      invariant currentHeight == Scroll.ScrollIncrement * k
      invariant scrollHeight == Scroll.HeightAt(initialHeight, heights, k)
      invariant Scroll.PassCount(initialHeight, heights) == Scroll.PassesFrom(initialHeight, heights, k)
      invariant chapters == MergeBatch(Empty, AllRows(passes[..k]))
      decreases |passes| - k
    {
      if k == |passes| {
        outcome := Unfinished;
        return;
      }
      chapters := MergeRows(chapters, passes[k].rows);
      scrollHeight := passes[k].height;
      currentHeight := currentHeight + Scroll.ScrollIncrement;
      assert passes[..k + 1][..k] == passes[..k];
      MergeBatchConcat(Empty, AllRows(passes[..k]), passes[k].rows);
      k := k + 1;
    }
    MergeBatchValid(Empty, AllRows(passes[..k]));
    outcome := Completed(Entries(chapters), k);
  }

  /**
    What a completed discovery returns: the loop stopped at the first iteration count
    whose offset reached the height then read; the entries have pairwise distinct,
    non-empty titles; each title was read in some iteration and is paired with the
    first non-empty link read for it (or "" when it never had one); every non-empty
    title read is present; and entries are listed in order of first occurrence.
  */
  lemma DiscoveredCatalog(initialHeight: int, passes: seq<Pass>, chapters: seq<Chapter>, n: nat)
    requires Discover(initialHeight, passes) == Completed(chapters, n)
    ensures n <= |passes|
    ensures Scroll.ScrollIncrement * n >= Scroll.HeightAt(initialHeight, Heights(passes), n)
    ensures forall j :: 0 <= j < n ==> Scroll.ScrollIncrement * j < Scroll.HeightAt(initialHeight, Heights(passes), j)
    ensures TitlesDistinct(chapters)
    ensures forall i :: 0 <= i < |chapters| ==> chapters[i].title != ""
    ensures forall i :: 0 <= i < |chapters| ==>
              Seen(AllRows(passes[..n]), chapters[i].title) &&
              chapters[i].link == FirstLink(AllRows(passes[..n]), chapters[i].title)
    ensures forall k :: k != "" && Seen(AllRows(passes[..n]), k) ==>
              exists i :: 0 <= i < |chapters| && chapters[i].title == k
    ensures forall i, j :: 0 <= i < j < |chapters| ==>
              Seen(AllRows(passes[..n]), chapters[i].title) && Seen(AllRows(passes[..n]), chapters[j].title) &&
              FirstIndex(AllRows(passes[..n]), chapters[i].title) < FirstIndex(AllRows(passes[..n]), chapters[j].title)
  {
    var rows := AllRows(passes[..n]);
    var t := MergeBatch(Empty, rows);
    MergeBatchValid(Empty, rows);
    MergeOrderFirstOccurrence(rows);
    assert chapters == Entries(t);
    forall k | true
      ensures k in t.links <==> k != "" && Seen(rows, k)
      ensures k in t.links ==> t.links[k] == FirstLink(rows, k)
    {
      MergeBatchAt(Empty, rows, k);
    }
  }

  /**
    The branch of `main` (index.js:157-165). `cache` is the content of chapters.json
    when the file exists. The results are the chapter list `main` ends up with and the
    content of chapters.json afterwards. A cached list is used verbatim and discovery is
    not run; otherwise the discovered list is both returned and written to the file.
  */
  method LoadChapters(cache: Option<seq<Chapter>>, mangaLink: string, initialHeight: int, passes: seq<Pass>)
    returns (chapters: Option<seq<Chapter>>, store: Option<seq<Chapter>>)
    ensures cache.Some? ==> chapters == cache && store == cache
    ensures cache.None? && Discover(initialHeight, passes).Completed? ==>
              chapters == store == Some(Discover(initialHeight, passes).chapters)
    ensures cache.None? && Discover(initialHeight, passes).Unfinished? ==> chapters == None && store == None
  {
    if cache.Some? {
      chapters, store := cache, cache;
    } else {
      var url, outcome := GetChapters(mangaLink, initialHeight, passes);
      match outcome
      case Completed(discovered, _) =>
        chapters := Some(discovered);
        store := chapters;
      case Unfinished =>
        chapters, store := None, None;
    }
  }

}
