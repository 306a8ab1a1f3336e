/**
  The order-preserving URL deduplication of scraped listing rows
  (scrape_zeropro.py, `dedup_keep_order`). A row is a title and a url
  field that may be missing.
 */
module ScrapeZeropro {
  import opened Wrappers
  import opened Seqs

  datatype ItemRow = ItemRow(title: string, url: Option<string>)

  /** `r.get("url")` is truthy: present and non-empty. */
  predicate HasUrl(row: ItemRow) {
    row.url.Some? && row.url.value != ""
  }

  /** Row `i` carries a url no earlier row carries. */
  ghost predicate FirstWithUrl(rows: seq<ItemRow>, i: int)
    requires 0 <= i < |rows|
  {
    HasUrl(rows[i]) && forall j | 0 <= j < i :: rows[j].url != rows[i].url
  }

  /** The reference result: the rows that are first with their url, in input order. */
  ghost function KeptRows(rows: seq<ItemRow>): seq<ItemRow> {
    if rows == [] then []
    else
      var n := |rows| - 1;
      KeptRows(rows[..n]) + (if FirstWithUrl(rows, n) then [rows[n]] else [])
  }

  /** The urls of the rows of `rows` that carry one. */
  ghost function UrlsSeen(rows: seq<ItemRow>): set<string> {
    set j | 0 <= j < |rows| && HasUrl(rows[j]) :: rows[j].url.value
  }

  /** One more row adds its url, when it has one, to the urls seen. */
  lemma UrlsSeenStep(rows: seq<ItemRow>, i: int)
    requires 0 <= i < |rows|
    ensures UrlsSeen(rows[..i + 1]) == UrlsSeen(rows[..i]) + (if HasUrl(rows[i]) then {rows[i].url.value} else {})
  {
    var prefix := rows[..i + 1];
    assert forall j | 0 <= j < i :: prefix[j] == rows[..i][j];
    assert prefix[i] == rows[i];
  }

  /** dedup_keep_order: one pass with a set of the urls already kept. */
  method DedupKeepOrder(rows: seq<ItemRow>) returns (out: seq<ItemRow>)
    ensures out == KeptRows(rows)
  {
    var seen: set<string> := {};
    out := [];
    var i := 0;
    while i < |rows|
      invariant 0 <= i <= |rows|
      invariant seen == UrlsSeen(rows[..i])
      invariant out == KeptRows(rows[..i])
    {
      var r := rows[i];
      var prefix := rows[..i + 1];
      assert prefix[..i] == rows[..i];
      assert FirstWithUrl(prefix, i) <==> r.url.Some? && r.url.value != "" && r.url.value !in seen by {
        if HasUrl(r) && r.url.value in seen {
          var j :| 0 <= j < i && HasUrl(rows[j]) && rows[j].url.value == r.url.value;
          assert prefix[j].url == r.url;
        }
      }
      match r.url {
        case Some(k) =>
          if k != "" && k !in seen {
            out := out + [r];
            seen := seen + {k};
          }
        case None =>
      }
      UrlsSeenStep(rows, i);
      i := i + 1;
    }
    assert rows[..i] == rows;
  }

  /**
    The kept rows sit in the input at increasing positions, each the first
    with its url, and every such first row is one of them.
   */
  lemma {:induction false} KeptEmbedding(rows: seq<ItemRow>) returns (idx: seq<int>)
    ensures Embeds(idx, KeptRows(rows), rows)
    ensures forall k | 0 <= k < |idx| :: FirstWithUrl(rows, idx[k])
    ensures forall i | 0 <= i < |rows| && FirstWithUrl(rows, i) :: exists k :: 0 <= k < |idx| && idx[k] == i
  {
    if rows == [] {
      idx := [];
    } else {
      var n := |rows| - 1;
      var init := rows[..n];
      var idx0 := KeptEmbedding(init);
      assert rows == init + [rows[n]] + [];
      forall i | 0 <= i < n ensures FirstWithUrl(rows, i) == FirstWithUrl(init, i) {
      }
      if FirstWithUrl(rows, n) {
        EmbedsExtendBoth(idx0, KeptRows(init), init, rows[n], []);
        idx := idx0 + [n];
        forall i | 0 <= i < |rows| && FirstWithUrl(rows, i) ensures exists k :: 0 <= k < |idx| && idx[k] == i {
          if i < n {
            var k :| 0 <= k < |idx0| && idx0[k] == i;
            assert idx[k] == i;
          } else {
            assert idx[|idx0|] == i;
          }
        }
      } else {
        EmbedsExtendRight(idx0, KeptRows(init), init, [rows[n]]);
        idx := idx0;
      }
    }
  }

  /** The output is a subsequence of the input. */
  lemma DedupIsSubsequence(rows: seq<ItemRow>)
    ensures IsSubsequence(KeptRows(rows), rows)
  {
    var idx := KeptEmbedding(rows);
  }

  /** Every kept row has a non-empty url, and no two kept rows share one. */
  lemma DedupUrls(rows: seq<ItemRow>)
    ensures forall k | 0 <= k < |KeptRows(rows)| :: HasUrl(KeptRows(rows)[k])
    ensures forall a, b | 0 <= a < b < |KeptRows(rows)| :: KeptRows(rows)[a].url != KeptRows(rows)[b].url
  {
    var out := KeptRows(rows);
    var idx := KeptEmbedding(rows);
    forall a, b | 0 <= a < b < |out| ensures out[a].url != out[b].url {
      assert idx[a] < idx[b] && FirstWithUrl(rows, idx[b]);
    }
  }

  /** A row without a url, or with an empty one, is never kept. */
  lemma DedupDropsMissingUrls(rows: seq<ItemRow>, row: ItemRow)
    requires !HasUrl(row)
    ensures row !in KeptRows(rows)
  {
    DedupUrls(rows);
  }

  /** The first row with a given url. */
  lemma {:induction false} FirstOccurrence(rows: seq<ItemRow>, i: int) returns (j: int)
    requires 0 <= i < |rows| && HasUrl(rows[i])
    ensures 0 <= j <= i && rows[j].url == rows[i].url && FirstWithUrl(rows, j)
    decreases i
  {
    if forall m | 0 <= m < i :: rows[m].url != rows[i].url {
      j := i;
    } else {
      var m :| 0 <= m < i && rows[m].url == rows[i].url;
      j := FirstOccurrence(rows, m);
    }
  }

  /** For every url the input carries, the first row carrying it is in the output. */
  lemma DedupKeepsFirst(rows: seq<ItemRow>, i: int)
    requires 0 <= i < |rows| && HasUrl(rows[i])
    ensures exists j, k :: (0 <= j <= i && 0 <= k < |KeptRows(rows)|
      && KeptRows(rows)[k] == rows[j] && rows[j].url == rows[i].url
      && forall m | 0 <= m < j :: rows[m].url != rows[i].url)
  {
    var idx := KeptEmbedding(rows);
    var j := FirstOccurrence(rows, i);
    var k :| 0 <= k < |idx| && idx[k] == j;
    assert KeptRows(rows)[k] == rows[j];
  }

  /** Rows whose urls are present and pairwise distinct are kept as they are. */
  lemma {:induction false} KeptRowsOfUnique(rows: seq<ItemRow>)
    requires forall k | 0 <= k < |rows| :: HasUrl(rows[k])
    requires forall a, b | 0 <= a < b < |rows| :: rows[a].url != rows[b].url
    ensures KeptRows(rows) == rows
  {
    if rows != [] {
      var n := |rows| - 1;
      KeptRowsOfUnique(rows[..n]);
      assert FirstWithUrl(rows, n);
      assert rows[..n] + [rows[n]] == rows;
    }
  }

  /** Deduplicating twice is deduplicating once. */
  lemma DedupIdempotent(rows: seq<ItemRow>)
    ensures KeptRows(KeptRows(rows)) == KeptRows(rows)
  {
    DedupUrls(rows);
    KeptRowsOfUnique(KeptRows(rows));
  }
}
