/** The run-wide aggregates that scraper.py keeps in module-level globals:
    the word-frequency table, the longest-page record and the
    per-subdomain anchor counts (lines 36-47 and 69-72). */
module Statistics {

  /** The count stored for `key`, or 0 when the key is absent. */
  function CountOf(m: map<string, nat>, key: string): nat
  {
    if key in m then m[key] else 0
  }

  /** `m[key] += n` when the key is present, `m[key] = n` otherwise. */
  function AddCount(m: map<string, nat>, key: string, n: nat): (r: map<string, nat>)
    ensures r.Keys == m.Keys + {key}
    ensures CountOf(r, key) == CountOf(m, key) + n
    ensures forall k :: k != key ==> CountOf(r, k) == CountOf(m, k)
  {
    if key in m then m[key := m[key] + n] else m[key := n]
  }

  /** The frequency table after adding one page's frequencies. */
  function MergeCounts(total: map<string, nat>, page: map<string, nat>): (r: map<string, nat>)
    ensures r.Keys == total.Keys + page.Keys
    ensures forall w :: CountOf(r, w) == CountOf(total, w) + CountOf(page, w)
  {
    map w | w in total.Keys + page.Keys :: CountOf(total, w) + CountOf(page, w)
  }

  /** The loop of lines 43-47, one word at a time. */
  method AccumulateFrequencies(total: map<string, nat>, page: map<string, nat>)
    returns (r: map<string, nat>)
    ensures r.Keys == total.Keys + page.Keys
    ensures forall w :: CountOf(r, w) == CountOf(total, w) + CountOf(page, w)
  {
    r := total;
    var pending := page.Keys;
    while pending != {}
      invariant pending <= page.Keys
      invariant r.Keys == total.Keys + (page.Keys - pending)
      invariant forall w :: w !in pending ==> CountOf(r, w) == CountOf(total, w) + CountOf(page, w)
      invariant forall w :: w in pending ==> CountOf(r, w) == CountOf(total, w)
      decreases pending
    {
      var word :| word in pending;
      if word in r {
        r := r[word := r[word] + page[word]];
      } else {
        r := r[word := page[word]];
      }
      pending := pending - {word};
    }
  }

  /** Adding pages one after another gives the same totals whatever their order. */
  lemma MergeOrderIrrelevant(total: map<string, nat>, a: map<string, nat>, b: map<string, nat>)
    ensures MergeCounts(MergeCounts(total, a), b) == MergeCounts(MergeCounts(total, b), a)
  {
    var left := MergeCounts(MergeCounts(total, a), b);
    var right := MergeCounts(MergeCounts(total, b), a);
    assert forall w :: CountOf(left, w) == CountOf(right, w);
    assert left.Keys == right.Keys;
    forall w | w in left.Keys
      ensures left[w] == right[w]
    {
      assert CountOf(left, w) == CountOf(right, w);
    }
  }

  /** Example: `{"a": 2}` then `{"a": 3, "b": 1}` give `{"a": 5, "b": 1}`. */
  lemma MergeExample()
    ensures MergeCounts(MergeCounts(map[], map["a" := 2]), map["a" := 3, "b" := 1]) == map["a" := 5, "b" := 1]
  {
    var first := MergeCounts(map[], map["a" := 2]);
    assert CountOf(first, "a") == 2;
    var second := MergeCounts(first, map["a" := 3, "b" := 1]);
    assert CountOf(second, "a") == 5;
    assert CountOf(second, "b") == 1;
    assert second.Keys == {"a", "b"};
  }

  /** The longest page seen so far and its token count. */
  datatype PageRecord = PageRecord(url: string, tokenCount: nat)

  /** Lines 36-38: a page replaces the record only with strictly more tokens. */
  function UpdateLongest(record: PageRecord, url: string, tokenCount: nat): (r: PageRecord)
    ensures r.tokenCount == if tokenCount > record.tokenCount then tokenCount else record.tokenCount
    ensures r == record || r == PageRecord(url, tokenCount)
    ensures tokenCount <= record.tokenCount ==> r == record
  {
    if tokenCount > record.tokenCount then PageRecord(url, tokenCount) else record
  }

  /** The record after a run of pages, each a (URL, token count) pair, in order. */
  function LongestAfter(record: PageRecord, pages: seq<PageRecord>): PageRecord
    decreases |pages|
  {
    if |pages| == 0 then record
    else UpdateLongest(LongestAfter(record, pages[..|pages| - 1]), pages[|pages| - 1].url, pages[|pages| - 1].tokenCount)
  }

  /** `r` is some page of `pages` that beats `record`, and every page
      before it has strictly fewer tokens than `r`. */
  ghost predicate EarliestWithCount(record: PageRecord, pages: seq<PageRecord>, r: PageRecord)
  {
    exists k :: 0 <= k < |pages| && r == pages[k] && record.tokenCount < r.tokenCount
      && (forall j :: 0 <= j < k ==> pages[j].tokenCount < r.tokenCount)
  }

  /** Over a run of pages the record holds the largest count, and it names
      the earliest page reaching it: every page before it had strictly fewer
      tokens, so a tie keeps the earlier page. */
  lemma {:induction false} LongestAfterIsFirstMaximum(record: PageRecord, pages: seq<PageRecord>)
    ensures var r := LongestAfter(record, pages);
      && r.tokenCount >= record.tokenCount
      && (forall k :: 0 <= k < |pages| ==> pages[k].tokenCount <= r.tokenCount)
      && (r == record || EarliestWithCount(record, pages, r))
    decreases |pages|
  {
    if |pages| > 0 {
      var init := pages[..|pages| - 1];
      var last := pages[|pages| - 1];
      LongestAfterIsFirstMaximum(record, init);
      var before := LongestAfter(record, init);
      var r := LongestAfter(record, pages);
      assert forall k :: 0 <= k < |init| ==> init[k] == pages[k];
      if last.tokenCount > before.tokenCount {
        assert r == pages[|pages| - 1];
      } else {
        assert r == before;
        if r != record {
          var k :| 0 <= k < |init| && r == init[k] && record.tokenCount < r.tokenCount
            && (forall j :: 0 <= j < k ==> init[j].tokenCount < r.tokenCount);
          assert r == pages[k];
        }
      }
    }
  }
}
