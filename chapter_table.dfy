/**
  The title-keyed dictionary that `getChapters` fills while it scrolls the chapter
  list (index.js:95, 127-133), and its conversion to the array of `{title, link}`
  entries that is saved and returned (index.js:140).

  The JavaScript object `chapters` is modelled as a map from title to link together
  with the sequence of its keys in insertion order, which is the order in which
  `Object.entries` lists string keys. Two quirks of plain JavaScript objects are not
  modelled (see README): a title that names an `Object.prototype` member, such as
  "constructor", reads as a truthy function and is never stored, and keys that look
  like array indices are listed first, in numeric order.
*/
module ChapterTable {

  /** One `{title, link}` row read from the rendered list, and one entry of the result array. */
  datatype Chapter = Chapter(title: string, link: string)

  /** The dictionary `chapters`: links keyed by title, and the keys in insertion order. */
  datatype Table = Table(links: map<string, string>, order: seq<string>)

  /** The empty object literal `{}` of index.js:95. */
  const Empty: Table := Table(map[], [])

  predicate Distinct(s: seq<string>) {
    forall i, j :: 0 <= i < j < |s| ==> s[i] != s[j]
  }

  predicate TitlesDistinct(cs: seq<Chapter>) {
    forall i, j :: 0 <= i < j < |cs| ==> cs[i].title != cs[j].title
  }

  /** The order lists each key exactly once, and no key is the empty title. */
  predicate Valid(t: Table) {
    && Distinct(t.order)
    && (forall k :: k in t.order ==> k in t.links)
    && (forall k :: k in t.links ==> k in t.order)
    && "" !in t.links
  }

  /** Some row of `rows` carries this title. */
  predicate Seen(rows: seq<Chapter>, title: string) {
    exists i :: 0 <= i < |rows| && rows[i].title == title
  }

  /** What `chapters[title]` reads, with a missing key read as the falsy empty string. */
  function Stored(t: Table, title: string): string {
    if title in t.links then t.links[title] else ""
  }

  /**
    The guard `chapter.title && !chapters[chapter.title]` (index.js:128): the title is
    truthy (non-empty) and the stored link is falsy (missing or empty).
  */
  predicate Admits(t: Table, row: Chapter) {
    row.title != "" && (row.title !in t.links || t.links[row.title] == "")
  }

  /**
    One call of the `forEach` body (index.js:127-133). Assigning to a key that is
    already present keeps its place in the key order.
  */
  function MergeRow(t: Table, row: Chapter): (r: Table)
    ensures r.links.Keys == if row.title == "" then t.links.Keys else t.links.Keys + {row.title}
    ensures row.title != "" ==>
              r.links[row.title] == if Stored(t, row.title) != "" then Stored(t, row.title) else row.link
    ensures forall k :: k in t.links && k != row.title ==> r.links[k] == t.links[k]
    ensures t.order <= r.order
  {
    if Admits(t, row) then
      Table(t.links[row.title := row.link],
            if row.title in t.links then t.order else t.order + [row.title])
    else
      t
  }

  /**
    The whole `forEach` over one batch of rows, first row first. Merging never removes
    a title nor reorders the titles already present.
  */
  function MergeBatch(t: Table, rows: seq<Chapter>): (r: Table)
    ensures t.links.Keys <= r.links.Keys
    ensures t.order <= r.order
    decreases |rows|
  {
    if rows == [] then t
    else MergeRow(MergeBatch(t, rows[..|rows| - 1]), rows[|rows| - 1])
  }

  /**
    Reference definition, independent of the table: the link of the first row with
    this title whose link is non-empty, or "" when there is none.
  */
  function FirstLink(rows: seq<Chapter>, title: string): string
    decreases |rows|
  {
    if rows == [] then ""
    else if rows[0].title == title && rows[0].link != "" then rows[0].link
    else FirstLink(rows[1..], title)
  }

  /** Reference definition: the position of the first row carrying this title. */
  function FirstIndex(rows: seq<Chapter>, title: string): (i: nat)
    requires Seen(rows, title)
    ensures i < |rows| && rows[i].title == title
    ensures forall j :: 0 <= j < i ==> rows[j].title != title
    decreases |rows|
  {
    if rows[0].title == title then 0
    else
      var j :| 0 <= j < |rows| && rows[j].title == title;
      assert rows[1..][j - 1].title == title;
      1 + FirstIndex(rows[1..], title)
  }

  /**
    `Object.entries(chapters).map(([title, link]) => ({ title, link }))` (index.js:140):
    one entry per key, in insertion order, each paired with its stored link.
  */
  function Entries(t: Table): (r: seq<Chapter>)
    requires Valid(t)
    ensures |r| == |t.order|
    ensures forall i :: 0 <= i < |r| ==> r[i].title == t.order[i] && r[i].title in t.links && r[i].link == t.links[r[i].title]
    ensures forall k :: k in t.links ==> exists i :: 0 <= i < |r| && r[i].title == k
    ensures TitlesDistinct(r)
    ensures forall i :: 0 <= i < |r| ==> r[i].title != ""
  {
    var r := seq(|t.order|, i requires 0 <= i < |t.order| => Chapter(t.order[i], t.links[t.order[i]]));
    assert forall k :: k in t.links ==> exists i :: 0 <= i < |r| && r[i].title == k by {
      forall k | k in t.links
        ensures exists i :: 0 <= i < |r| && r[i].title == k
      {
        var i :| 0 <= i < |t.order| && t.order[i] == k;
        assert r[i].title == k;
      }
    }
    r
  }

  // ---------------------------------------------------------------------------
  // Properties of the reference definitions

  lemma {:induction false} FirstLinkSnoc(rows: seq<Chapter>, r: Chapter, title: string)
    ensures FirstLink(rows + [r], title) ==
              if FirstLink(rows, title) != "" then FirstLink(rows, title)
              else if r.title == title then r.link
              else ""
    decreases |rows|
  {
    if rows == [] {
      assert FirstLink([r][1..], title) == "";
    } else {
      assert (rows + [r])[0] == rows[0];
      assert (rows + [r])[1..] == rows[1..] + [r];
      FirstLinkSnoc(rows[1..], r, title);
    }
  }

  /** A title that has a first non-empty link occurs among the rows. */
  lemma {:induction false} FirstLinkSeen(rows: seq<Chapter>, title: string)
    requires FirstLink(rows, title) != ""
    ensures Seen(rows, title)
    decreases |rows|
  {
    if rows[0].title != title || rows[0].link == "" {
      FirstLinkSeen(rows[1..], title);
      var i :| 0 <= i < |rows[1..]| && rows[1..][i].title == title;
      assert rows[i + 1].title == title;
    }
  }

  /** When no row has a non-empty link for a title, every row with that title has an empty link. */
  lemma {:induction false} FirstLinkAllEmpty(rows: seq<Chapter>, title: string)
    requires FirstLink(rows, title) == ""
    ensures forall i :: 0 <= i < |rows| && rows[i].title == title ==> rows[i].link == ""
    decreases |rows|
  {
    if rows != [] {
      FirstLinkAllEmpty(rows[1..], title);
      forall i | 0 <= i < |rows| && rows[i].title == title
        ensures rows[i].link == ""
      {
        if i > 0 { assert rows[1..][i - 1] == rows[i]; }
      }
    }
  }

  lemma SeenSnoc(rows: seq<Chapter>, r: Chapter, title: string)
    ensures Seen(rows + [r], title) <==> Seen(rows, title) || r.title == title
  {
    if Seen(rows, title) {
      var i :| 0 <= i < |rows| && rows[i].title == title;
      assert (rows + [r])[i].title == title;
    }
    if r.title == title {
      assert (rows + [r])[|rows|].title == title;
    }
    if Seen(rows + [r], title) {
      var i :| 0 <= i < |rows + [r]| && (rows + [r])[i].title == title;
      if i < |rows| { assert rows[i].title == title; }
    }
  }

  // ---------------------------------------------------------------------------
  // Properties of the merge

  /** Merging one row keeps every key listed once and never stores an empty title. */
  lemma MergeRowValid(t: Table, row: Chapter)
    requires Valid(t)
    ensures Valid(MergeRow(t, row))
  {
    if Admits(t, row) && row.title !in t.links {
      var o := t.order + [row.title];
      assert o[|t.order|] == row.title;
      forall i, j | 0 <= i < j < |o| ensures o[i] != o[j] {
        if j == |t.order| { assert o[i] == t.order[i]; }
      }
    }
  }

  /** Merging a batch keeps the table valid: titles stay pairwise distinct and non-empty. */
  lemma {:induction false} MergeBatchValid(t: Table, rows: seq<Chapter>)
    requires Valid(t)
    ensures Valid(MergeBatch(t, rows))
    decreases |rows|
  {
    if rows != [] {
      MergeBatchValid(t, rows[..|rows| - 1]);
      MergeRowValid(MergeBatch(t, rows[..|rows| - 1]), rows[|rows| - 1]);
    }
  }

  /**
    What a batch does to one title: the key is present afterwards exactly when it was
    before or some row carried it as a non-empty title; a non-empty stored link never
    changes; otherwise the link is that of the first row with a non-empty link (so an
    empty stored link is replaced by a later non-empty one).
  */
  lemma {:induction false} MergeBatchAt(t: Table, rows: seq<Chapter>, k: string)
    ensures k in MergeBatch(t, rows).links <==> k in t.links || (k != "" && Seen(rows, k))
    ensures k in t.links && t.links[k] != "" ==> MergeBatch(t, rows).links[k] == t.links[k]
    ensures k != "" && Stored(t, k) == "" && k in MergeBatch(t, rows).links ==>
              MergeBatch(t, rows).links[k] == FirstLink(rows, k)
    decreases |rows|
  {
    if rows == [] {
      return;
    }
    var init, r := rows[..|rows| - 1], rows[|rows| - 1];
    assert rows == init + [r];
    var s := MergeBatch(t, init);
    MergeBatchAt(t, init, k);
    FirstLinkSnoc(init, r, k);
    SeenSnoc(init, r, k);
    if FirstLink(init, k) != "" {
      FirstLinkSeen(init, k);
    }
  }

  /** Merging a batch and then another is merging their concatenation. */
  lemma {:induction false} MergeBatchConcat(t: Table, a: seq<Chapter>, b: seq<Chapter>)
    ensures MergeBatch(t, a + b) == MergeBatch(MergeBatch(t, a), b)
    decreases |b|
  {
    if b == [] {
      assert a + b == a;
    } else {
      assert (a + b)[..|a + b| - 1] == a + b[..|b| - 1];
      assert (a + b)[|a + b| - 1] == b[|b| - 1];
      MergeBatchConcat(t, a, b[..|b| - 1]);
    }
  }

  /** Every row of the batch is already reflected in the table: merging it again would change nothing. */
  predicate Absorbs(t: Table, rows: seq<Chapter>) {
    forall i :: 0 <= i < |rows| && rows[i].title != "" ==>
      rows[i].title in t.links && (t.links[rows[i].title] == "" ==> rows[i].link == "")
  }

  lemma {:induction false} MergeAbsorbed(t: Table, rows: seq<Chapter>)
    requires Absorbs(t, rows)
    ensures MergeBatch(t, rows) == t
    decreases |rows|
  {
    if rows != [] {
      var init, r := rows[..|rows| - 1], rows[|rows| - 1];
      assert Absorbs(t, init) by {
        forall i | 0 <= i < |init| ensures init[i] == rows[i] { }
      }
      MergeAbsorbed(t, init);
      if Admits(t, r) {
        assert t.links[r.title := r.link] == t.links;
      }
    }
  }

  lemma MergeBatchAbsorbs(t: Table, rows: seq<Chapter>)
    ensures Absorbs(MergeBatch(t, rows), rows)
  {
    var m := MergeBatch(t, rows);
    forall i | 0 <= i < |rows| && rows[i].title != ""
      ensures rows[i].title in m.links && (m.links[rows[i].title] == "" ==> rows[i].link == "")
    {
      var k := rows[i].title;
      MergeBatchAt(t, rows, k);
      if m.links[k] == "" {
        if Stored(t, k) == "" {
          FirstLinkAllEmpty(rows, k);
        }
      }
    }
  }

  /** Merging the same batch a second time leaves the table unchanged. */
  lemma MergeIdempotent(t: Table, rows: seq<Chapter>)
    ensures MergeBatch(MergeBatch(t, rows), rows) == MergeBatch(t, rows)
  {
    MergeBatchAbsorbs(t, rows);
    MergeAbsorbed(MergeBatch(t, rows), rows);
  }

  /** Every key occurs among the rows, and keys are ordered by their first occurrence. */
  predicate InFirstOccurrenceOrder(rows: seq<Chapter>, order: seq<string>) {
    && (forall k :: k in order ==> Seen(rows, k))
    && (forall i, j :: 0 <= i < j < |order| ==>
          Seen(rows, order[i]) && Seen(rows, order[j]) &&
          FirstIndex(rows, order[i]) < FirstIndex(rows, order[j]))
  }

  /** Starting from `{}`, the keys are listed in the order of their first occurrence among the rows. */
  lemma {:induction false} MergeOrderFirstOccurrence(rows: seq<Chapter>)
    ensures InFirstOccurrenceOrder(rows, MergeBatch(Empty, rows).order)
    decreases |rows|
  {
    if rows == [] {
      return;
    }
    var init, r := rows[..|rows| - 1], rows[|rows| - 1];
    assert rows == init + [r];
    var s := MergeBatch(Empty, init);
    MergeOrderFirstOccurrence(init);
    OrderExtendRows(init, r, s.order);
    if MergeBatch(Empty, rows).order != s.order {
      MergeBatchAt(Empty, init, r.title);
      OrderAppendTitle(init, r, s.order);
    }
  }

  /** Reading one more row does not change the first occurrence of titles already seen. */
  lemma OrderExtendRows(rows: seq<Chapter>, r: Chapter, order: seq<string>)
    requires InFirstOccurrenceOrder(rows, order)
    ensures InFirstOccurrenceOrder(rows + [r], order)
  {
    forall k | k in order ensures Seen(rows + [r], k) && FirstIndex(rows + [r], k) == FirstIndex(rows, k) {
      FirstIndexSnoc(rows, r, k);
    }
  }

  /** A title first seen in the last row comes after every title seen before it. */
  lemma OrderAppendTitle(rows: seq<Chapter>, r: Chapter, order: seq<string>)
    requires InFirstOccurrenceOrder(rows, order)
    requires !Seen(rows, r.title)
    ensures InFirstOccurrenceOrder(rows + [r], order + [r.title])
  {
    var o := order + [r.title];
    FirstIndexAfter(rows, r);
    forall k | k in order ensures Seen(rows + [r], k) && FirstIndex(rows + [r], k) == FirstIndex(rows, k) {
      FirstIndexSnoc(rows, r, k);
    }
    forall i, j | 0 <= i < j < |o|
      ensures Seen(rows + [r], o[i]) && Seen(rows + [r], o[j])
      ensures FirstIndex(rows + [r], o[i]) < FirstIndex(rows + [r], o[j])
    {
      assert o[i] == order[i] && o[i] in order;
      if j < |order| {
        assert o[j] == order[j] && o[j] in order;
      }
    }
  }

  lemma FirstIndexSnoc(rows: seq<Chapter>, r: Chapter, title: string)
    requires Seen(rows, title)
    ensures Seen(rows + [r], title) && FirstIndex(rows + [r], title) == FirstIndex(rows, title)
  {
    SeenSnoc(rows, r, title);
    var a, b := FirstIndex(rows + [r], title), FirstIndex(rows, title);
    assert (rows + [r])[b] == rows[b];
  }

  lemma FirstIndexAfter(rows: seq<Chapter>, r: Chapter)
    requires !Seen(rows, r.title)
    ensures Seen(rows + [r], r.title) && FirstIndex(rows + [r], r.title) == |rows|
  {
    SeenSnoc(rows, r, r.title);
    assert (rows + [r])[|rows|] == r;
  }

}
