/** Link normalisation of scraper.py (lines 54-62): every resolved link is
    cut at its first `#` (dropping the fragment, section 3.5 of RFC 3986)
    and then at its first `?` (dropping the query, section 3.4 of RFC 3986). */
module Normalizer {
  import opened Results
  import opened Text

  /** `s[:s.index(c)]` when `c in s`, otherwise `s` unchanged. */
  function CutAt(s: string, c: char): (r: string)
    ensures r <= s
    ensures c !in r
    ensures |r| < |s| ==> s[|r|] == c
  {
    match FirstIndex(s, c)
    case None => s
    case Some(i) => s[..i]
  }

  /** The dedup key of a link: the part before its first `#` or `?`. */
  function Normalize(link: string): (r: string)
    ensures r <= link
    ensures '#' !in r && '?' !in r
    ensures |r| < |link| ==> link[|r|] == '#' || link[|r|] == '?'
  {
    CutAt(CutAt(link, '#'), '?')
  }

  /** The prefix of `link` before its first `#` or `?` (all of `link` when neither occurs). */
  ghost predicate IsStopPrefix(p: string, link: string)
  {
    && p <= link
    && '#' !in p && '?' !in p
    && (|p| == |link| || link[|p|] == '#' || link[|p|] == '?')
  }

  /** Normalisation keeps exactly the prefix before the first `#` or `?`:
      it is the one prefix with that shape. */
  lemma NormalizeIsStopPrefix(link: string, p: string)
    ensures IsStopPrefix(p, link) <==> p == Normalize(link)
  {
  }

  /** A link without `#` or `?` is already normal. */
  lemma NormalizeKeepsPlainLink(link: string)
    requires '#' !in link && '?' !in link
    ensures Normalize(link) == link
  {
    NormalizeIsStopPrefix(link, link);
  }

  /** Normalising twice changes nothing. */
  lemma NormalizeIdempotent(link: string)
    ensures Normalize(Normalize(link)) == Normalize(link)
  {
    NormalizeKeepsPlainLink(Normalize(link));
  }

  /** Example: query and fragment both disappear. */
  lemma NormalizeExample()
    ensures Normalize("http://a/x?y#z") == "http://a/x"
  {
    var link, p := "http://a/x?y#z", "http://a/x";
    assert link == p + "?y#z";
    assert link[|p|] == '?';
    assert forall k :: 0 <= k < |p| ==> p[k] != '#' && p[k] != '?';
    NormalizeIsStopPrefix(link, p);
  }

  /** Every link of a list normalised, in order. */
  function NormalizeAll(links: seq<string>): (r: seq<string>)
    ensures |r| == |links|
    ensures forall k :: 0 <= k < |r| ==> r[k] <= links[k] && '#' !in r[k] && '?' !in r[k]
  {
    seq(|links|, k requires 0 <= k < |links| => Normalize(links[k]))
  }

  /** The two passes of lines 55-62 over the anchor list, in place: first
      every link is cut at `#`, then every link is cut at `?`. */
  method NormalizeAnchors(aTags: seq<string>) returns (out: seq<string>)
    ensures |out| == |aTags|
    ensures forall k :: 0 <= k < |aTags| ==> out[k] == Normalize(aTags[k])
    ensures out == NormalizeAll(aTags)
  {
    out := aTags;
    var index := 0;
    while index < |out|
      invariant |out| == |aTags|
      invariant 0 <= index <= |out|
      invariant forall k :: 0 <= k < index ==> out[k] == CutAt(aTags[k], '#')
      invariant forall k :: index <= k < |out| ==> out[k] == aTags[k]
    {
      var found := FirstIndex(out[index], '#');
      if found.Some? {
        out := out[index := out[index][..found.value]];
      }
      index := index + 1;
    }
    index := 0;
    while index < |out|
      invariant |out| == |aTags|
      invariant 0 <= index <= |out|
      invariant forall k :: 0 <= k < index ==> out[k] == Normalize(aTags[k])
      invariant forall k :: index <= k < |out| ==> out[k] == CutAt(aTags[k], '#')
    {
      var found := FirstIndex(out[index], '?');
      if found.Some? {
        out := out[index := out[index][..found.value]];
      }
      index := index + 1;
    }
  }
}
