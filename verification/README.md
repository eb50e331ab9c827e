# A verified model of the scraper of a web crawler

`scraper.py` is the page handler of a course web crawler restricted to the
`ics.uci.edu`, `cs.uci.edu`, `informatics.uci.edu` and `stat.uci.edu`
domains. For every downloaded page the crawler calls `scraper(url, resp)`.
That call:

- checks the status and the site's robots.txt (`canCrawl`);
- records the page in run-wide statistics: the distinct pages, the crawl
  order, the longest page, the word totals and the anchor counts per
  ics.uci.edu subdomain;
- normalises the page's links by dropping fragment and query;
- keeps the links that were not yet visited;
- filters them through the crawl-eligibility predicate `is_valid`.

This project states that behaviour in Dafny and proves properties of it.
The module-level globals become an explicit `CrawlState` value that each
call takes and returns. Exceptions become an `Outcome`: either
`Done(state, links)` or `Raised(error, state)`. Because the source mutates
its globals in place, `Raised` carries the state as it stood when the
exception was raised.

Modules, one per concern:

| file | module | what it holds |
|---|---|---|
| results.dfy | `Results` | `Option` and `Result` |
| text.dfy | `Text` | Python string operations: `in`, `str.index`, `list.index`, `split` with a one-character separator, slicing with clamped bounds, ASCII `lower()` |
| sequences.dfy | `Sequences` | filtering list comprehensions, `set(list)` |
| normalizer.dfy | `Normalizer` | the cut at `#` and then at `?` (lines 54-62) |
| validator.dfy | `Validator` | `is_valid` over an already split URL (lines 82-116) |
| robots.dfy | `Robots` | the text half of `canCrawl` (lines 132-152) |
| statistics.dfy | `Statistics` | word totals, longest page, per-key counters |
| extractor.dfy | `Extractor` | `extract_next_links` and `scraper` (lines 8-80) |

Behaviour followed as the code has it, where a reader might expect otherwise:

- **Domain scope is a substring test.** A host such as
  `x.ics.uci.edu.example.com` is in scope, and the bare apex `ics.uci.edu`
  is not (`Validator.EmbeddedDomainInScope`, `Validator.ApexHostOutOfScope`).
- **The token blacklist is literal.** The pattern string of line 96 is split
  at `|`, and its pieces are looked up as plain substrings of the path and
  query. These pieces include `(css`, `jpe?g`, `tiff?` and `gz)$`. As a
  result, any path containing `js`, `ps` or `rm` is rejected.
- **A robots.txt block must end with an empty line.** A block that runs to
  the end of the text makes `lines.index('')` raise. That `ValueError`
  escapes `extract_next_links` (`Robots.UnterminatedBlockRaises`). The code
  does not treat the end of the text as the end of the block.
- **Robots rules match anywhere in the URL.** A `Disallow:` value denies a URL
  when it occurs anywhere in it, not only as a path prefix. An empty value
  denies every URL.
- **A missing `//` raises after the statistics were recorded.** The call
  raises at line 68, but by then lines 29-47 have already recorded the page.
  The error outcome therefore keeps those updates, and the state is not
  rolled back (`Extractor.AcceptedPageRecorded`).
- **The subdomain count counts all anchors.** It adds the number of anchors,
  duplicates and already visited links included.

## Model

| member | source | states |
|---|---|---|
| Text.Find | scraper.py:68 | `str.index` of a substring: the result is the first position where the substring occurs, and there is no result exactly when it occurs nowhere |
| Text.Contains | scraper.py:92 | Python's `in` on strings holds exactly when the substring occurs at some position |
| Text.FirstIndex | scraper.py:139-141 | `list.index`: the position of the first equal element; absent exactly when no element equals the value |
| Text.Split | scraper.py:136 | `split('\n')` yields at least one piece, none holding the separator, and joining the pieces with the separator gives back the text |
| Text.SplitJoin | scraper.py:136 | splitting the joined separator-free pieces gives exactly those pieces back |
| Text.SplitEndsWithEmpty | scraper.py:136 | a text ending in a line break has an empty last line |
| Text.Slice | scraper.py:68 | Python slicing clamps both bounds to the text and is empty when the start is not before the end |
| Text.ToLower | scraper.py:99 | `lower()` keeps the length and lower-cases each character on its own |
| Sequences.Filter | scraper.py:8-10 | a list comprehension with a condition keeps order, keeps every element that passes with its full multiplicity, and drops every element that fails |
| Sequences.FilterAppend | scraper.py:75-77 | filtering a concatenation is the concatenation of the filtered parts, which is what an append loop builds |
| Sequences.Distinct | scraper.py:105 | (function, no contract) `set(pathList)`: the set of the list's elements |
| Sequences.DistinctPlusMultiplicity | scraper.py:105 | an element occurring `m` times leaves at most `len(list) - m + 1` distinct values |
| Normalizer.CutAt | scraper.py:56-57 | `s[:s.index(c)]` when `c` occurs: a prefix free of `c`, followed in `s` by `c` when shorter |
| Normalizer.Normalize | scraper.py:54-62 | the result is a prefix of the link with neither `#` nor `?`, and it stops only at one of them |
| Normalizer.NormalizeIsStopPrefix | scraper.py:54-62 | the normalised link is the one and only prefix that stops at the first `#` or `?` or at the end |
| Normalizer.NormalizeKeepsPlainLink | scraper.py:55-62 | a link without `#` and `?` is left unchanged |
| Normalizer.NormalizeIdempotent | scraper.py:54-62 | normalising a normalised link changes nothing |
| Normalizer.NormalizeExample | scraper.py:54-62 | `http://a/x?y#z` becomes `http://a/x` |
| Normalizer.NormalizeAll | scraper.py:54-62 | the normalised list has one entry per anchor, each a `#`- and `?`-free prefix of its anchor |
| Normalizer.NormalizeAnchors | scraper.py:54-62 | the two in-place passes over the anchor list leave each entry normalised, the same as `NormalizeAll` |
| Validator.SchemeAllowed | scraper.py:88 | (predicate, no contract) the scheme is `http` or `https` |
| Validator.InvalidTokens | scraper.py:96-97 | (constant) the 62 pieces of the pattern string split at its bar characters, in order, with the pattern's parentheses, `?` and `$` kept inside the pieces |
| Validator.TokensA | scraper.py:96 | (constant) the first 16 of those pieces, from `(css` to `mpeg` |
| Validator.TokensB | scraper.py:96 | (constant) the next 16 pieces, from `ram` to `names` |
| Validator.TokensC | scraper.py:96 | (constant) the next 16 pieces, from `data` to `sha1` |
| Validator.TokensD | scraper.py:96 | (constant) the last 14 pieces, from `thmx` to `gz)$` |
| Validator.BlockedExtensions | scraper.py:108-116 | (constant) the 64 words the regular expression's alternatives match, with `jpe?g` and `tiff?` each spelled out as two words |
| Validator.IsValid | scraper.py:82-116 | (predicate, no contract) the five checks of `is_valid` in the source's order: scheme, domain, token blacklist, repeated segments, extension pattern; its behaviour is stated by the lemmas below |
| Validator.InScope | scraper.py:91-93 | (predicate, no contract) the host contains one of `.ics.uci.edu`, `.cs.uci.edu`, `.informatics.uci.edu`, `.stat.uci.edu` as a substring |
| Validator.HasInvalidToken | scraper.py:95-100 | (predicate, no contract) some piece of the pattern string, split at its bar characters, occurs literally in the lower-cased path or query |
| Validator.PathSegments | scraper.py:103-104 | (function, no contract) the path up to its first `.`, split at `/` |
| Validator.IsTrap | scraper.py:105 | (predicate, no contract) the segments number at least two more than the distinct segments |
| Validator.HasBlockedSuffix | scraper.py:108-116 | (predicate, no contract) the lower-cased path ends in `.` and a listed extension with no line break before it |
| Validator.SchemeOutsideWebRejected | scraper.py:88-89 | a scheme other than `http` and `https` is rejected |
| Validator.EmbeddedDomainInScope | scraper.py:91-93 | any host containing `.ics.uci.edu`, whatever surrounds it, passes the domain test |
| Validator.ApexHostOutOfScope | scraper.py:91-93 | the bare host `ics.uci.edu` fails the domain test |
| Validator.InvalidTokenRejected | scraper.py:95-100 | a token of the split pattern string found in the lower-cased path or query rejects the URL |
| Validator.InvalidTokensAreLong | scraper.py:96-97 | every token of the split pattern string has at least two characters |
| Validator.ShortPartsHaveNoToken | scraper.py:95-100 | a path and a query of at most one character each contain no token |
| Validator.AboutHasNoToken | scraper.py:95-100 | the path `/about` with an empty query contains no token |
| Validator.RepeatedSegmentRejected | scraper.py:102-106 | a path segment, taken before the first `.`, that occurs three times or more makes the URL a rejected trap |
| Validator.SegmentsOfJoinedPath | scraper.py:103-104 | the segments of a `.`-free path are the pieces it was joined from |
| Validator.ThriceRepeatedPathRejected | scraper.py:102-106 | `/x/x/x` is rejected for every segment `x` |
| Validator.AlternatingPathRejected | scraper.py:102-106 | `/x/y/x/y` is rejected for all segments `x` and `y` |
| Validator.RootPathIsNoTrap | scraper.py:102-106 | the root path `/` is not a trap |
| Validator.AboutIsNoTrap | scraper.py:102-106 | the path `/about` is not a trap |
| Validator.BlockedExtensionRejected | scraper.py:108-116 | a lower-cased path ending in `.` and a listed extension, with no line break before it, is rejected |
| Validator.NoDotNoSuffix | scraper.py:108-116 | a path without `.` never matches the extension pattern |
| Validator.UpperCasePdfRejected | scraper.py:108-116 | a path ending in `.PDF` is rejected: the extension test ignores letter case |
| Validator.RootPageAccepted | scraper.py:86-116 | a web URL in scope whose path is `/` and whose query is empty passes every check |
| Validator.AboutPageAccepted | scraper.py:86-116 | a web URL in scope whose path is `/about` and whose query is empty passes every check |
| Robots.FindBlock | scraper.py:139-142 | the block starts at the first `User-agent: *` line and ends at the first empty line after it; a missing start line and a missing empty line after the first start line are the two `ValueError`s |
| Robots.RuleBlock | scraper.py:136-142 | the rules are the lines strictly between the block's start and end lines, and reading fails exactly when the block cannot be found |
| Robots.MarkerHasColon | scraper.py:146-147 | a line holding `Disallow:` has a colon, so `rule.index(":")` does not raise |
| Robots.DisallowValue | scraper.py:147 | the value is the rest of the rule from two characters after its first colon, and empty when that lies past the end |
| Robots.RuleDenies | scraper.py:146-148 | (predicate, no contract) the rule holds `Disallow:` and its value occurs in the URL |
| Robots.Denies | scraper.py:145-149 | (predicate, no contract) some rule of the block denies the URL |
| Robots.CanCrawl | scraper.py:132-152 | a failed fetch allows; an unreadable block is an error; otherwise crawling is allowed exactly when no rule denies the URL |
| Robots.ScanRules | scraper.py:145-152 | the early-return loop allows exactly when no rule of the block denies the URL |
| Robots.LinesOfBody | scraper.py:136 | a text built from break-free lines splits back into those lines |
| Robots.DisallowValueOfRule | scraper.py:147 | the rule `Disallow: v` has value `v` for every `v` |
| Robots.BareDisallowIsEmpty | scraper.py:146-147 | the rule `Disallow:` has the empty value |
| Robots.EmptyValueDeniesEverything | scraper.py:145-149 | a block with a `Disallow:` rule whose value is empty denies every URL |
| Robots.RuleHasMarker | scraper.py:146 | a `Disallow: v` line carries the marker |
| Robots.OneRuleDenies | scraper.py:145-149 | a block of one rule denies exactly what that rule denies |
| Robots.SingleRuleBlock | scraper.py:136-142 | `User-agent: *`, one rule and a blank line give a block of that one rule |
| Robots.SingleRuleVerdict | scraper.py:136-152 | with the single rule `Disallow: v`, crawling a URL is allowed exactly when `v` does not occur in it |
| Robots.UnterminatedBlockRaises | scraper.py:141 | a block that runs to the end of the text without an empty line raises |
| Robots.FinalLineBreakClosesBlock | scraper.py:136-142 | a line break after the last rule is enough to close the block, since splitting yields a final empty line |
| Statistics.AddCount | scraper.py:69-72 | the counter of a key grows by exactly `n`, starting from 0 when absent; the key is added; every other counter is unchanged |
| Statistics.MergeCounts | scraper.py:43-47 | the total of each word becomes its old total plus its count on the page; the keys are the union, so none is removed |
| Statistics.AccumulateFrequencies | scraper.py:43-47 | the word-by-word loop gives every word its old total plus its count on the page |
| Statistics.MergeOrderIrrelevant | scraper.py:43-47 | two pages added in either order give the same totals |
| Statistics.MergeExample | scraper.py:43-47 | `{a: 2}` then `{a: 3, b: 1}` give `{a: 5, b: 1}` |
| Statistics.UpdateLongest | scraper.py:35-38 | the record is replaced, by the page, only on a strictly larger token count; a tie keeps the earlier page |
| Statistics.LongestAfterIsFirstMaximum | scraper.py:35-38 | over a run of pages the record holds the largest count and names the earliest page reaching it |
| Extractor.SubdomainLabel | scraper.py:64-68 | the label fails exactly when the URL has no `//`; otherwise it is the text from two past the first `//` up to the first `.`, empty exactly when that `.` comes no later than two past the `//`; it never holds a `.` |
| Extractor.HostLabel | scraper.py:68 | for `scheme//label.rest`, with no `/` or `.` in the scheme and no `.` in the label, the label is extracted |
| Extractor.RecordPage | scraper.py:28-47 | the page joins the distinct pages, is appended to the crawl order, may replace the longest page, and adds its word counts |
| Extractor.Unvisited | scraper.py:74-77 | the kept links are exactly the links outside the visited set, in order, each as often as it occurs |
| Extractor.NotVisited | scraper.py:76 | (function, no contract) the test `str(tag) not in uniquePages` |
| Extractor.UnvisitedSnoc | scraper.py:75-77 | one more link is appended exactly when it has not been visited |
| Extractor.CollectUnvisited | scraper.py:75-77 | the append loop returns the unvisited links |
| Extractor.ExtractNextLinks | scraper.py:22-80 | a status other than 200 yields no links and no change; a robots error leaves the state alone; every returned link is unvisited after the call and has no `#` or `?`; there are no more links than anchors |
| Extractor.ValidLinks | scraper.py:10 | the list comprehension keeps exactly the links `is_valid` accepts, in order, each valid link as often as it occurs |
| Extractor.Scraper | scraper.py:8-10 | the state, whether the call raises and the error raised are those of the extraction; on return the links are the extraction's links filtered by `is_valid` |
| Extractor.ScraperKeepsValidLinks | scraper.py:8-10 | the returned links all pass `is_valid`, form a subsequence of the extracted links, and every valid extracted link appears as often as it was extracted |
| Extractor.Accepted | scraper.py:22 | (predicate, no contract) the page is processed when its status is 200 and robots.txt allows it |
| Extractor.RefusedPageChangesNothing | scraper.py:22 | a status other than 200, or a robots.txt that disallows the page, gives no links and leaves every global untouched |
| Extractor.RobotsErrorChangesNothing | scraper.py:22 | a robots.txt `ValueError` propagates before any global is touched |
| Extractor.MissingRobotsAccepts | scraper.py:132-133 | without a robots.txt every page with status 200 is processed |
| Extractor.AcceptedPageRecorded | scraper.py:28-47 | a processed page is added to the distinct pages and to the end of the crawl order, the longest page and the word totals are updated, and the call raises only for an ics.uci.edu URL without `//`, keeping those updates |
| Extractor.SubdomainCounted | scraper.py:64-72 | an ics.uci.edu page adds its number of anchors to its subdomain's counter and changes no other counter |
| Extractor.OtherDomainNotCounted | scraper.py:66 | a page outside ics.uci.edu leaves the subdomain counters untouched |
| Extractor.LinksAreNewNormalisedAnchors | scraper.py:29-77 | the links are the normalised anchors that were neither visited before nor the page itself, in the anchors' order; a link is returned exactly when it is such an anchor, as often as it occurs among the anchors |
| Extractor.ExtractPreservesWellformed | scraper.py:28-72 | the distinct pages stay the set of the crawl order; the longest page stays a visited page; every counted subdomain stays the label of a visited page, also when the call raises |
| Extractor.ExtractIsMonotone | scraper.py:28-72 | no page is forgotten, the crawl order only grows at its end, and no count decreases |

## Left out

- The network: the robots.txt request and `raise_for_status` (lines 125-133) are not modelled. Their outcome is an input: `None` for an `HTTPError`, `Some(text)` for a body. Other exceptions of `requests`, such as a connection failure, escape `canCrawl` in the source and are not modelled.
- HTML parsing (lines 25-26 and 50): BeautifulSoup's decoding, `get_text` and `find_all` are a library. The page's anchors come in as input.
- `urljoin` (line 52) resolves links by section 5.2 of RFC 3986 in a library. The anchors come in already resolved.
- `urlparse` (lines 87 and 124) is a library. `is_valid` is stated over the already split scheme, network location, path and query, and `scraper` takes the splitting as a function parameter.
- Extractor.Scraper: does not model the `ValueError` that `urljoin` (line 52) or `urlparse` (lines 87 and 124) raise on a malformed URL, such as a host with an unbalanced `[`. In the source that error escapes `scraper`, and after line 52 it escapes with the updates of lines 29-47 already made. The model's resolved anchors and total `parse` cannot fail, so its "raises exactly when the extraction raises" holds only for URLs those library calls accept.
- The tokenizer (`tokenizeString`, `removeStopwords`, `computeWordFrequencies`) lives in a module that is not part of this model. The page's token count and its frequency table come in as input.
- The module-level globals and their initial values are not part of this model. They are an explicit `CrawlState` passed in and returned.
- Text.ToLower: lower-cases ASCII letters only, because Python's full Unicode case mapping is not modelled.
- Validator.BlockedExtensionRejected: does not model the case where `$` matches before a final line break, because that quirk of Python's `re` concerns paths ending in a newline, which URLs do not carry.
- The `except TypeError` branch of `is_valid` (lines 118-120) only prints and re-raises an error that the string-typed model cannot produce.
- `extract_next_links` takes a `url` parameter that it never reads. The model drops it.
- Concurrency: the source has none of its own.
