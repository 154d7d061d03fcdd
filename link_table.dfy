/**
 * The `crawler_data` table (`CrawlerInfo` records `{id, link, crawled}`),
 * held in memory as a sequence in row-id order, and the three statements the
 * crawler runs against it: the claim query, the "mark crawled" update and
 * the bulk insert of new links.
 */
module LinkTable {

  /** One row of `crawler_data`. */
  datatype Record = Record(id: int, link: string, crawled: bool)

  /** The `LIMIT` of the claim query. */
  const CLAIM_LIMIT: nat := 200

  /** The ids of the records of `s`. */
  function IdsOf(s: seq<Record>): set<int> {
    if s == [] then {} else IdsOf(s[..|s| - 1]) + {s[|s| - 1].id}
  }

  /** The links of the records of `s`. */
  function LinksOf(s: seq<Record>): set<string> {
    if s == [] then {} else LinksOf(s[..|s| - 1]) + {s[|s| - 1].link}
  }

  /** An id is in `IdsOf(s)` exactly when some record of `s` has it. */
  lemma {:induction false} IdsOfMember(s: seq<Record>, x: int)
    ensures x in IdsOf(s) <==> exists i :: 0 <= i < |s| && s[i].id == x
  {
    if s != [] {
      var init := s[..|s| - 1];
      IdsOfMember(init, x);
      if exists i :: 0 <= i < |init| && init[i].id == x {
        var i :| 0 <= i < |init| && init[i].id == x;
        assert s[i] == init[i];
      }
      if exists i :: 0 <= i < |s| && s[i].id == x {
        var i :| 0 <= i < |s| && s[i].id == x;
        if i < |init| {
          assert s[i] == init[i];
        }
      }
    }
  }

  /** A link is in `LinksOf(s)` exactly when some record of `s` has it. */
  lemma {:induction false} LinksOfMember(s: seq<Record>, x: string)
    ensures x in LinksOf(s) <==> exists i :: 0 <= i < |s| && s[i].link == x
  {
    if s != [] {
      var init := s[..|s| - 1];
      LinksOfMember(init, x);
      if exists i :: 0 <= i < |init| && init[i].link == x {
        var i :| 0 <= i < |init| && init[i].link == x;
        assert s[i] == init[i];
      }
      if exists i :: 0 <= i < |s| && s[i].link == x {
        var i :| 0 <= i < |s| && s[i].link == x;
        if i < |init| {
          assert s[i] == init[i];
        }
      }
    }
  }

  lemma {:induction false} IdsOfAppend(a: seq<Record>, b: seq<Record>)
    ensures IdsOf(a + b) == IdsOf(a) + IdsOf(b)
    decreases |b|
  {
    if b == [] {
      assert a + b == a;
    } else {
      assert (a + b)[..|a + b| - 1] == a + b[..|b| - 1];
      IdsOfAppend(a, b[..|b| - 1]);
    }
  }

  lemma {:induction false} LinksOfAppend(a: seq<Record>, b: seq<Record>)
    ensures LinksOf(a + b) == LinksOf(a) + LinksOf(b)
    decreases |b|
  {
    if b == [] {
      assert a + b == a;
    } else {
      assert (a + b)[..|a + b| - 1] == a + b[..|b| - 1];
      LinksOfAppend(a, b[..|b| - 1]);
    }
  }

  /** The ids of a prefix are ids of the whole sequence. */
  lemma IdsOfPrefix(s: seq<Record>, n: nat)
    requires n <= |s|
    ensures IdsOf(s[..n]) <= IdsOf(s)
  {
    assert s == s[..n] + s[n..];
    IdsOfAppend(s[..n], s[n..]);
  }

  /** Rows are kept in row-id order: each row id is below the next one. */
  predicate IdsIncreasing(t: seq<Record>) {
    |t| <= 1 || (t[|t| - 2].id < t[|t| - 1].id && IdsIncreasing(t[..|t| - 1]))
  }

  /** In a table in row-id order every earlier row has a smaller id, so row
      ids are unique. */
  lemma {:induction false} IdsIncreasingAt(t: seq<Record>, i: nat, j: nat)
    requires IdsIncreasing(t) && i < j < |t|
    ensures t[i].id < t[j].id
    decreases |t|
  {
    var init := t[..|t| - 1];
    if j < |t| - 1 {
      IdsIncreasingAt(init, i, j);
      assert init[i] == t[i] && init[j] == t[j];
    } else if i < |t| - 2 {
      IdsIncreasingAt(init, i, |t| - 2);
      assert init[i] == t[i] && init[|t| - 2] == t[|t| - 2];
    }
  }

  /** Row-id order depends on the ids alone. */
  lemma {:induction false} SameIdsIncreasing(a: seq<Record>, b: seq<Record>)
    requires IdsIncreasing(a) && |a| == |b|
    requires forall i :: 0 <= i < |a| ==> a[i].id == b[i].id
    ensures IdsIncreasing(b)
    decreases |a|
  {
    if |a| > 1 {
      SameIdsIncreasing(a[..|a| - 1], b[..|b| - 1]);
    }
  }

  /** The next row id is above every row id of a table in row-id order. */
  lemma NextRowIdAbove(t: seq<Record>, i: nat)
    requires IdsIncreasing(t) && i < |t|
    ensures t[i].id < NextRowId(t)
  {
    if i < |t| - 1 {
      IdsIncreasingAt(t, i, |t| - 1);
    }
  }

  /** The row id SQLite gives the next inserted row: one more than the
      largest row id in the table, or 1 for an empty table. */
  function NextRowId(t: seq<Record>): int {
    if t == [] then 1 else t[|t| - 1].id + 1
  }

  /** `UPDATE crawler_data SET crawled = TRUE WHERE id IN ids`, row by row;
      the update keeps the number of rows. */
  function MarkCrawled(t: seq<Record>, ids: set<int>): (r: seq<Record>)
    ensures |r| == |t|
  {
    if t == [] then []
    else
      var head := if t[0].id in ids then t[0].(crawled := true) else t[0];
      [head] + MarkCrawled(t[1..], ids)
  }

  /** Exactly the rows whose id is in `ids` become crawled; ids and links do
      not change, and no row becomes uncrawled. */
  lemma {:induction false} MarkCrawledRows(t: seq<Record>, ids: set<int>)
    ensures var r := MarkCrawled(t, ids);
      forall i :: 0 <= i < |t| ==>
        r[i].id == t[i].id && r[i].link == t[i].link &&
        (r[i].crawled <==> t[i].crawled || t[i].id in ids)
  {
    if t != [] {
      MarkCrawledRows(t[1..], ids);
      var r := MarkCrawled(t, ids);
      assert forall i :: 1 <= i < |t| ==> r[i] == MarkCrawled(t[1..], ids)[i - 1] && t[i] == t[1..][i - 1];
    }
  }

  /** A row appended with the next row id keeps the ids in order, and the
      next row id moves past it. */
  lemma AppendNextRow(t: seq<Record>, r: Record)
    requires IdsIncreasing(t) && r.id == NextRowId(t)
    ensures IdsIncreasing(t + [r])
    ensures NextRowId(t + [r]) == r.id + 1
    ensures IdsOf(t + [r]) == IdsOf(t) + {r.id}
  {
    assert (t + [r])[..|t|] == t;
    IdsOfAppend(t, [r]);
  }

  /** With no ids the update changes nothing. */
  lemma MarkCrawledNothing(t: seq<Record>)
    ensures MarkCrawled(t, {}) == t
  {
    var r := MarkCrawled(t, {});
    MarkCrawledRows(t, {});
    assert forall i :: 0 <= i < |t| ==> r[i] == t[i];
  }

  /** Running the update twice with the same ids gives the same table. */
  lemma MarkCrawledIdempotent(t: seq<Record>, ids: set<int>)
    ensures MarkCrawled(MarkCrawled(t, ids), ids) == MarkCrawled(t, ids)
  {
    var once := MarkCrawled(t, ids);
    var twice := MarkCrawled(once, ids);
    MarkCrawledRows(t, ids);
    MarkCrawledRows(once, ids);
    assert forall i :: 0 <= i < |t| ==> twice[i] == once[i];
  }

  /** The update keeps row ids, so it keeps their order and the next row id. */
  lemma MarkCrawledKeepsIds(t: seq<Record>, ids: set<int>)
    ensures IdsOf(MarkCrawled(t, ids)) == IdsOf(t)
    ensures IdsIncreasing(t) ==> IdsIncreasing(MarkCrawled(t, ids))
    ensures NextRowId(MarkCrawled(t, ids)) == NextRowId(t)
  {
    var r := MarkCrawled(t, ids);
    MarkCrawledRows(t, ids);
    SameIdsSameIdsOf(t, r);
    if IdsIncreasing(t) {
      SameIdsIncreasing(t, r);
    }
  }

  /** Two tables with the same id in every row have the same ids. */
  lemma {:induction false} SameIdsSameIdsOf(a: seq<Record>, b: seq<Record>)
    requires |a| == |b|
    requires forall i :: 0 <= i < |a| ==> a[i].id == b[i].id
    ensures IdsOf(a) == IdsOf(b)
    decreases |a|
  {
    if a != [] {
      var n := |a| - 1;
      assert forall i :: 0 <= i < n ==> a[..n][i] == a[i] && b[..n][i] == b[i];
      SameIdsSameIdsOf(a[..n], b[..n]);
    }
  }

  /** The uncrawled rows, in table order. */
  function Uncrawled(t: seq<Record>): (r: seq<Record>)
    ensures |r| <= |t|
  {
    if t == [] then []
    else if t[0].crawled then Uncrawled(t[1..])
    else [t[0]] + Uncrawled(t[1..])
  }

  /** The uncrawled rows are exactly the rows of the table that are not
      crawled. */
  lemma {:induction false} UncrawledRows(t: seq<Record>)
    ensures forall x :: x in Uncrawled(t) <==> x in t && !x.crawled
  {
    if t != [] {
      UncrawledRows(t[1..]);
      assert t == [t[0]] + t[1..];
    }
  }

  /** `SELECT * FROM crawler_data WHERE crawled = FALSE LIMIT limit`, in the
      table's row-id scan order; it returns at most `limit` rows. */
  function SelectUncrawled(t: seq<Record>, limit: nat): (r: seq<Record>)
    ensures |r| <= limit
  {
    if limit == 0 || t == [] then []
    else if t[0].crawled then SelectUncrawled(t[1..], limit)
    else [t[0]] + SelectUncrawled(t[1..], limit - 1)
  }

  /** Every claimed row is an uncrawled row of the table; when fewer than
      `limit` are returned, every uncrawled row is among them. */
  lemma {:induction false} SelectUncrawledRows(t: seq<Record>, limit: nat)
    ensures var r := SelectUncrawled(t, limit);
      && (forall x :: x in r ==> x in t && !x.crawled)
      && (|r| < limit ==> forall x :: x in t && !x.crawled ==> x in r)
  {
    if limit != 0 && t != [] {
      SelectUncrawledRows(t[1..], if t[0].crawled then limit else limit - 1);
      assert t == [t[0]] + t[1..];
    }
  }

  /** The claimed rows are rows of the table, so their ids are too. */
  lemma SelectUncrawledIds(t: seq<Record>, limit: nat)
    ensures IdsOf(SelectUncrawled(t, limit)) <= IdsOf(t)
  {
    var r := SelectUncrawled(t, limit);
    SelectUncrawledRows(t, limit);
    forall x | x in IdsOf(r) ensures x in IdsOf(t) {
      IdsOfMember(r, x);
      var i :| 0 <= i < |r| && r[i].id == x;
      assert r[i] in t;
      var k :| 0 <= k < |t| && t[k] == r[i];
      IdsOfMember(t, x);
    }
  }

  /** The claim is the first `limit` uncrawled rows: all of them when there
      are fewer. */
  lemma {:induction false} SelectIsFirstUncrawled(t: seq<Record>, limit: nat)
    ensures var u := Uncrawled(t);
      SelectUncrawled(t, limit) == if |u| <= limit then u else u[..limit]
  {
    if limit != 0 && t != [] {
      SelectIsFirstUncrawled(t[1..], if t[0].crawled then limit else limit - 1);
    }
  }

  /** The rows a bulk insert of `links` appends after `before`: one uncrawled
      row per link, with consecutive row ids from `firstId`, and nothing
      before them changed. */
  predicate InsertedAsNew(before: seq<Record>, after: seq<Record>, firstId: int, links: set<string>) {
    |after| == |before| + |links| &&
    after[..|before|] == before &&
    (forall j :: |before| <= j < |after| ==>
       after[j].id == firstId + (j - |before|) && !after[j].crawled) &&
    LinksOf(after[|before|..]) == links
  }

  /** Halfway through a bulk insert of `links`, with `remaining` still to
      go: inserting one more remaining link with the next consecutive row id
      extends the insert by that link. */
  lemma InsertOneMore(before: seq<Record>, after: seq<Record>, firstId: int,
                      links: set<string>, remaining: set<string>, link: string, row: Record)
    requires remaining <= links && link in remaining
    requires InsertedAsNew(before, after, firstId, links - remaining)
    requires row == Record(firstId + |links - remaining|, link, false)
    ensures |links - (remaining - {link})| == |links - remaining| + 1
    ensures InsertedAsNew(before, after + [row], firstId, links - (remaining - {link}))
  {
    var done := links - remaining;
    assert links - (remaining - {link}) == done + {link};
    var grown := after + [row];
    assert grown[..|before|] == after[..|before|];
    var added := grown[|before|..];
    assert added[..|added| - 1] == after[|before|..] && added[|added| - 1] == row;
    assert |done + {link}| == |done| + 1;
    forall j | |before| <= j < |grown|
      ensures grown[j].id == firstId + (j - |before|) && !grown[j].crawled
    {
      if j < |after| {
        assert grown[j] == after[j];
      }
    }
  }

  /** A bulk insert of `links` into `before` that has got as far as
      `after`, with `remaining` still to go and `nextId` the row id the next
      row gets. */
  predicate InsertProgress(before: seq<Record>, after: seq<Record>, firstId: int,
                           links: set<string>, remaining: set<string>, nextId: int) {
    && remaining <= links
    && IdsIncreasing(after) && nextId == NextRowId(after)
    && InsertedAsNew(before, after, firstId, links - remaining)
    && nextId == firstId + |links - remaining|
  }

  /** Appending a row for any remaining link with the next row id makes
      progress, keeping the rows in row-id order. */
  lemma InsertStep(before: seq<Record>, after: seq<Record>, firstId: int,
                   links: set<string>, remaining: set<string>, nextId: int, link: string)
    requires InsertProgress(before, after, firstId, links, remaining, nextId) && link in remaining
    ensures InsertProgress(before, after + [Record(nextId, link, false)], firstId, links,
                           remaining - {link}, nextId + 1)
  {
    var row := Record(nextId, link, false);
    AppendNextRow(after, row);
    InsertOneMore(before, after, firstId, links, remaining, link, row);
  }

  /** The inserted rows hold each link exactly once. */
  lemma InsertedLinksDistinct(before: seq<Record>, after: seq<Record>, firstId: int, links: set<string>)
    requires InsertedAsNew(before, after, firstId, links)
    ensures forall i, j :: |before| <= i < j < |after| ==> after[i].link != after[j].link
  {
    var added := after[|before|..];
    forall i, j | |before| <= i < j < |after|
      ensures after[i].link != after[j].link
    {
      assert after[i] == added[i - |before|] && after[j] == added[j - |before|];
      if after[i].link == after[j].link {
        RepeatedLinkShrinks(added, i - |before|, j - |before|);
        assert false;
      }
    }
  }

  /** A sequence with a repeated link has fewer distinct links than rows. */
  lemma {:induction false} RepeatedLinkShrinks(s: seq<Record>, i: nat, j: nat)
    requires i < j < |s| && s[i].link == s[j].link
    ensures |LinksOf(s)| < |s|
    decreases |s|
  {
    var init := s[..|s| - 1];
    if j < |s| - 1 {
      assert init[i] == s[i] && init[j] == s[j];
      RepeatedLinkShrinks(init, i, j);
    } else {
      LinksOfMember(init, s[j].link);
      assert init[i] == s[i];
      assert LinksOf(s) == LinksOf(init);
      LinksAtMostLength(init);
    }
  }

  lemma {:induction false} LinksAtMostLength(s: seq<Record>)
    ensures |LinksOf(s)| <= |s|
  {
    if s != [] {
      LinksAtMostLength(s[..|s| - 1]);
    }
  }

  /** `after` keeps every row of `before` in place, with the same id and
      link, and no row that was crawled has become uncrawled. */
  predicate Grows(before: seq<Record>, after: seq<Record>) {
    |before| <= |after| &&
    forall i :: 0 <= i < |before| ==>
      after[i].id == before[i].id && after[i].link == before[i].link &&
      (before[i].crawled ==> after[i].crawled)
  }

  lemma GrowsTransitive(a: seq<Record>, b: seq<Record>, c: seq<Record>)
    requires Grows(a, b) && Grows(b, c)
    ensures Grows(a, c)
  {
  }
}
