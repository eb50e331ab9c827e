/** The crawl-eligibility predicate `is_valid` of scraper.py (lines 82-116),
    stated over a URL that is already split into scheme, network location,
    path and query (the split itself is done by `urlparse`, outside this model). */
module Validator {
  import opened Results
  import opened Text
  import opened Sequences

  /** The parts of a URL that `is_valid` looks at. */
  datatype ParsedUrl = ParsedUrl(scheme: string, netloc: string, path: string, query: string)

  /** The pieces of the pattern string of line 96 split at `|`. The pattern's
      parentheses, `?` and `$` stay inside the pieces, which are then looked
      up as plain substrings. */
  const InvalidTokens: seq<string> := TokensA + TokensB + TokensC + TokensD

  /** The tokens in four runs of the pattern's order, of at most 16 each, so
      that a quantifier over one run stays small for the solver. */
  const TokensA: seq<string> :=
      ["(css", "js", "bmp", "gif", "jpe?g", "ico", "png", "tiff?", "mid", "mp2", "mp3", "mp4", "wav", "avi", "mov", "mpeg"]
  const TokensB: seq<string> :=
      ["ram", "m4v", "mkv", "ogg", "ogv", "pdf", "ps", "eps", "tex", "ppt", "pptx", "doc", "docx", "xls", "xlsx", "names"]
  const TokensC: seq<string> :=
      ["data", "dat", "exe", "bz2", "tar", "msi", "bin", "7z", "psd", "dmg", "iso", "epub", "dll", "cnf", "tgz", "sha1"]
  const TokensD: seq<string> :=
      ["thmx", "mso", "arff", "rtf", "jar", "csv", "rm", "smil", "wmv", "swf", "wma", "zip", "rar", "gz)$"]

  /** The alternatives of the regular expression of lines 108-116, with
      `jpe?g` and `tiff?` spelled out as the two words each one matches. */
  const BlockedExtensions: seq<string> := [
    "css", "js", "bmp", "gif", "jpg", "jpeg", "ico", "png", "tif", "tiff", "mid", "mp2", "mp3",
    "mp4", "wav", "avi", "mov", "mpeg", "ram", "m4v", "mkv", "ogg", "ogv", "pdf", "ps", "eps",
    "tex", "ppt", "pptx", "doc", "docx", "xls", "xlsx", "names", "data", "dat", "exe", "bz2",
    "tar", "msi", "bin", "7z", "psd", "dmg", "iso", "epub", "dll", "cnf", "tgz", "sha1", "thmx",
    "mso", "arff", "rtf", "jar", "csv", "rm", "smil", "wmv", "swf", "wma", "zip", "rar", "gz"]

  /** Line 88: only the two web schemes are crawled. */
  predicate SchemeAllowed(scheme: string)
  {
    scheme == "http" || scheme == "https"
  }

  /** Line 92: a plain substring test, so a host that merely contains one of
      the domains somewhere (not only as its suffix) is in scope. */
  predicate InScope(netloc: string)
  {
    Contains(netloc, ".ics.uci.edu") || Contains(netloc, ".cs.uci.edu")
    || Contains(netloc, ".informatics.uci.edu") || Contains(netloc, ".stat.uci.edu")
  }

  /** Lines 97-100: some token occurs in the lower-cased path or query. */
  predicate HasInvalidToken(path: string, query: string)
  {
    exists t | t in InvalidTokens :: Contains(ToLower(path), t) || Contains(ToLower(query), t)
  }

  /** Lines 103-104: the part of the path before its first `.`, split at `/`. */
  function PathSegments(path: string): seq<string>
  {
    Split(Split(path, '.')[0], '/')
  }

  /** Line 105: at least two more segments than distinct segments. */
  predicate IsTrap(path: string)
  {
    var segments := PathSegments(path);
    |segments| >= |Distinct(segments)| + 2
  }

  /** Lines 108-116: `re.match(".*\.(...)$", lowerPath)` succeeds. The `.*`
      does not match a line break, so no `\n` may precede the final `.ext`. */
  predicate HasBlockedSuffix(lowerPath: string)
  {
    exists e | e in BlockedExtensions ::
      EndsWith(lowerPath, "." + e) && '\n' !in lowerPath[..|lowerPath| - |e| - 1]
  }

  /** `is_valid`: the checks of lines 88-116, in the source's order. */
  predicate IsValid(u: ParsedUrl)
  {
    if !SchemeAllowed(u.scheme) then false
    else if !InScope(u.netloc) then false
    else if HasInvalidToken(u.path, u.query) then false
    else if IsTrap(u.path) then false
    else !HasBlockedSuffix(ToLower(u.path))
  }

  /** A scheme other than `http` and `https` is rejected. */
  lemma SchemeOutsideWebRejected(u: ParsedUrl)
    requires u.scheme != "http" && u.scheme != "https"
    ensures !IsValid(u)
  {
  }

  /** The scope test is containment, not a suffix match: a host that
      embeds `.ics.uci.edu` anywhere, even followed by a foreign domain, is in scope. */
  lemma EmbeddedDomainInScope(before: string, after: string)
    ensures InScope(before + ".ics.uci.edu" + after)
  {
    var host := before + ".ics.uci.edu" + after;
    assert host[|before|..|before| + 12] == ".ics.uci.edu";
    assert OccursAt(".ics.uci.edu", host, |before|);
  }

  /** The bare apex host `ics.uci.edu` contains none of the four dotted domains. */
  lemma ApexHostOutOfScope()
    ensures !InScope("ics.uci.edu")
  {
    var apex := "ics.uci.edu";
    assert |apex| == 11;
    assert !Contains(apex, ".ics.uci.edu");
    assert apex[0..11][0] == 'i' != ".cs.uci.edu"[0];
    assert !Contains(apex, ".cs.uci.edu");
    assert !Contains(apex, ".informatics.uci.edu");
    assert !Contains(apex, ".stat.uci.edu");
  }

  /** Any one token found, literally, in the lower-cased path or query rejects the URL. */
  lemma InvalidTokenRejected(u: ParsedUrl, t: string)
    requires t in InvalidTokens
    requires Contains(ToLower(u.path), t) || Contains(ToLower(u.query), t)
    ensures !IsValid(u)
  {
  }

  /** A path ending in `.` and a listed extension, in any letter case, is rejected. */
  lemma BlockedExtensionRejected(u: ParsedUrl, stem: string, e: string)
    requires e in BlockedExtensions
    requires ToLower(u.path) == stem + "." + e
    requires '\n' !in stem
    ensures !IsValid(u)
  {
    var lowerPath := ToLower(u.path);
    assert lowerPath[|lowerPath| - |"." + e|..] == "." + e;
    assert lowerPath[..|lowerPath| - |e| - 1] == stem;
    assert HasBlockedSuffix(lowerPath);
  }

  /** A path segment (before the first `.`) that occurs three or more times
      makes the URL a trap, so it is rejected. */
  lemma RepeatedSegmentRejected(u: ParsedUrl, segment: string)
    requires multiset(PathSegments(u.path))[segment] >= 3
    ensures !IsValid(u)
  {
    DistinctPlusMultiplicity(PathSegments(u.path), segment);
    assert IsTrap(u.path);
  }

  /** Every token is at least two characters long. */
  lemma InvalidTokensAreLong()
    ensures forall t | t in InvalidTokens :: |t| >= 2
  {
  }

  /** No token fits in a path or query of at most one character. */
  lemma ShortPartsHaveNoToken(path: string, query: string)
    requires |path| <= 1 && |query| <= 1
    ensures !HasInvalidToken(path, query)
  {
    InvalidTokensAreLong();
  }

  /** The root path `/` splits into two empty segments, which is no trap.
      The literal comes in through a `requires` on a parameter, which keeps the
      solver from unfolding the definitions on it eagerly. */
  lemma RootPathIsNoTrap(path: string)
    requires path == "/"
    ensures !IsTrap(path)
  {
    assert FirstIndex(path, '.') == None;
    assert Split(path, '.') == [path];
    var segments := ["", ""];
    assert Join(segments, '/') == path;
    SplitJoin(segments, '/');
    assert Distinct(segments) == {""};
  }

  /** The root page of an in-scope host is crawlable. */
  lemma RootPageAccepted(u: ParsedUrl)
    requires SchemeAllowed(u.scheme) && InScope(u.netloc)
    requires u.path == "/" && u.query == ""
    ensures IsValid(u)
  {
    ShortPartsHaveNoToken(u.path, u.query);
    RootPathIsNoTrap(u.path);
    assert ToLower(u.path) == u.path;
    assert !HasBlockedSuffix(u.path);
  }

  /** The segments of a `.`-free path built by joining `segments` with `/`
      are those segments. */
  lemma SegmentsOfJoinedPath(path: string, segments: seq<string>)
    requires |segments| >= 1
    requires forall k :: 0 <= k < |segments| ==> '/' !in segments[k]
    requires Join(segments, '/') == path && '.' !in path
    ensures PathSegments(path) == segments
  {
    assert FirstIndex(path, '.') == None;
    assert Split(path, '.') == [path];
    SplitJoin(segments, '/');
  }

  /** `/x/x/x`: a segment repeated three times, for any segment `x`. */
  lemma ThriceRepeatedPathRejected(u: ParsedUrl, x: string)
    requires '/' !in x && '.' !in x
    requires u.path == "/" + x + "/" + x + "/" + x
    ensures !IsValid(u)
  {
    var segments := ["", x, x, x];
    assert segments[1..] == [x, x, x] && segments[2..] == [x, x] && segments[3..] == [x];
    assert Join([x, x], '/') == x + "/" + x;
    assert Join([x, x, x], '/') == x + "/" + (x + "/" + x);
    assert Join(segments, '/') == "" + "/" + (x + "/" + (x + "/" + x));
    SegmentsOfJoinedPath(u.path, segments);
    assert multiset(segments)[x] >= 3;
    RepeatedSegmentRejected(u, x);
  }

  /** The segments of `/x/y/x/y`, joined back. */
  lemma AlternatingJoin(path: string, segments: seq<string>, x: string, y: string)
    requires segments == ["", x, y, x, y]
    requires path == "/" + x + "/" + y + "/" + x + "/" + y
    ensures Join(segments, '/') == path
  {
    assert segments[1..] == [x, y, x, y] && segments[2..] == [y, x, y];
    assert segments[3..] == [x, y] && segments[4..] == [y];
    assert Join([x, y], '/') == x + "/" + y;
    assert Join([y, x, y], '/') == y + "/" + (x + "/" + y);
    assert Join([x, y, x, y], '/') == x + "/" + (y + "/" + (x + "/" + y));
    assert Join(segments, '/') == "" + "/" + (x + "/" + (y + "/" + (x + "/" + y)));
  }

  /** `/x/y/x/y`: two segments each repeated, for any two segments. */
  lemma AlternatingPathRejected(u: ParsedUrl, x: string, y: string)
    requires '/' !in x && '.' !in x && '/' !in y && '.' !in y
    requires u.path == "/" + x + "/" + y + "/" + x + "/" + y
    ensures !IsValid(u)
  {
    var segments := ["", x, y, x, y];
    AlternatingJoin(u.path, segments, x, y);
    SegmentsOfJoinedPath(u.path, segments);
    assert Distinct(segments) == {"", x, y};
    assert |Distinct(segments)| <= 3;
    assert IsTrap(u.path);
  }

  /** `ToLower` works character by character, so it distributes over concatenation. */
  lemma ToLowerAppend(a: string, b: string)
    ensures ToLower(a + b) == ToLower(a) + ToLower(b)
  {
  }

  /** Lower-casing the upper-case extension `.PDF`.
      The literal comes in through a `requires` on a parameter, which keeps the
      solver from unfolding the definitions on it eagerly. */
  lemma LowerPdf(ext: string)
    requires ext == ".PDF"
    ensures ToLower(ext) == ".pdf"
  {
    var low := ToLower(ext);
    assert low[0] == LowerChar(ext[0]) == '.';
    assert low[1] == LowerChar(ext[1]) == 'p';
    assert low[2] == LowerChar(ext[2]) == 'd';
    assert low[3] == LowerChar(ext[3]) == 'f';
  }

  /** Lower-casing creates no line break. */
  lemma LowerKeepsNoNewline(s: string)
    requires '\n' !in s
    ensures '\n' !in ToLower(s)
  {
    forall k | 0 <= k < |s|
      ensures ToLower(s)[k] != '\n'
    {
      assert s[k] != '\n';
    }
  }

  /** `/file.PDF`: the extension test ignores letter case. */
  lemma UpperCasePdfRejected(u: ParsedUrl, stem: string)
    requires u.path == stem + ".PDF" && '\n' !in stem
    ensures !IsValid(u)
  {
    var ext := ".PDF";
    ToLowerAppend(stem, ext);
    LowerPdf(ext);
    LowerKeepsNoNewline(stem);
    assert BlockedExtensions[23] == "pdf";
    var lowerStem := ToLower(stem);
    assert ToLower(u.path) == lowerStem + "." + "pdf";
    BlockedExtensionRejected(u, lowerStem, "pdf");
  }

  /** The characters of the path `/about`. */
  predicate AboutChar(c: char)
  {
    c == '/' || c == 'a' || c == 'b' || c == 'o' || c == 'u' || c == 't'
  }

  /** One of the first three characters of `t` is not an `AboutChar`. */
  predicate LeavesAbout(t: string)
  {
    (|t| > 0 && !AboutChar(t[0])) || (|t| > 1 && !AboutChar(t[1])) || (|t| > 2 && !AboutChar(t[2]))
  }

  lemma TokensALeaveAbout()
    ensures forall t | t in TokensA :: LeavesAbout(t)
  {
  }

  lemma TokensBLeaveAbout()
    ensures forall t | t in TokensB :: LeavesAbout(t)
  {
  }

  lemma TokensCLeaveAbout()
    ensures forall t | t in TokensC :: LeavesAbout(t)
  {
  }

  lemma TokensDLeaveAbout()
    ensures forall t | t in TokensD :: LeavesAbout(t)
  {
  }

  /** Every token needs a character that `/about` lacks. */
  lemma TokensLeaveAbout()
    ensures forall t | t in InvalidTokens :: LeavesAbout(t)
  {
    TokensALeaveAbout();
    TokensBLeaveAbout();
    TokensCLeaveAbout();
    TokensDLeaveAbout();
  }

  /** A text made only of `AboutChar`s contains no text that leaves them early. */
  lemma NoTokenWithinAboutChars(s: string, t: string)
    requires forall k | 0 <= k < |s| :: AboutChar(s[k])
    requires LeavesAbout(t)
    ensures !Contains(s, t)
  {
    if Contains(s, t) {
      var k := if |t| > 0 && !AboutChar(t[0]) then 0 else if |t| > 1 && !AboutChar(t[1]) then 1 else 2;
      ContainedCharsOccur(s, t, k);
    }
  }

  /** A lower-cased path of `AboutChar`s and an empty query hold no token. */
  lemma AboutCharsHaveNoToken(path: string, query: string)
    requires forall k | 0 <= k < |ToLower(path)| :: AboutChar(ToLower(path)[k])
    requires query == ""
    ensures !HasInvalidToken(path, query)
  {
    TokensLeaveAbout();
    InvalidTokensAreLong();
    forall t | t in InvalidTokens
      ensures !Contains(ToLower(path), t) && !Contains(ToLower(query), t)
    {
      NoTokenWithinAboutChars(ToLower(path), t);
    }
  }

  /** `/about` is already lower case.
      The literal comes in through a `requires` on a parameter, which keeps the
      solver from unfolding the definitions on it eagerly. */
  lemma AboutIsLower(path: string)
    requires path == "/about"
    ensures ToLower(path) == path
  {
    var low := ToLower(path);
    forall k | 0 <= k < |path|
      ensures low[k] == path[k]
    {
      assert AboutChar(path[k]);
    }
  }

  /** No token occurs in the path `/about` or in an empty query. */
  lemma AboutHasNoToken(path: string, query: string)
    requires path == "/about" && query == ""
    ensures !HasInvalidToken(path, query)
  {
    AboutIsLower(path);
    assert forall k | 0 <= k < |path| :: AboutChar(path[k]);
    AboutCharsHaveNoToken(path, query);
  }

  /** A lower-cased path without `.` has no blocked suffix. */
  lemma NoDotNoSuffix(lowerPath: string)
    requires '.' !in lowerPath
    ensures !HasBlockedSuffix(lowerPath)
  {
    forall e | e in BlockedExtensions
      ensures !EndsWith(lowerPath, "." + e)
    {
      assert ("." + e)[0] == '.';
    }
  }

  /** The page `/about` of an in-scope host is crawlable. */
  lemma AboutPageAccepted(u: ParsedUrl)
    requires SchemeAllowed(u.scheme) && InScope(u.netloc)
    requires u.path == "/about" && u.query == ""
    ensures IsValid(u)
  {
    AboutHasNoToken(u.path, u.query);
    AboutIsNoTrap(u.path);
    AboutIsLower(u.path);
    assert '.' !in u.path;
    NoDotNoSuffix(u.path);
  }

  /** `/about` splits into an empty segment and `about`: no trap.
      The literal comes in through a `requires` on a parameter, which keeps the
      solver from unfolding the definitions on it eagerly. */
  lemma AboutIsNoTrap(path: string)
    requires path == "/about"
    ensures !IsTrap(path)
  {
    var segments := ["", "about"];
    assert segments[1..] == ["about"];
    assert Join(segments, '/') == path;
    assert '.' !in path;
    SegmentsOfJoinedPath(path, segments);
    assert |Distinct(segments)| >= 1 by {
      assert "" in Distinct(segments);
    }
  }
}
