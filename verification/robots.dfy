/** The robots.txt reading of `canCrawl` in scraper.py (lines 122-152).
    The fetch itself is not modelled: its outcome comes in as an
    `Option<string>`, where `None` stands for a fetch that ended in an
    `HTTPError` and `Some(text)` for the body of a successful response. */
module Robots {
  import opened Results
  import opened Text

  /** The line that opens the block of rules for every crawler. */
  const UserAgentLine: string := "User-agent: *"

  /** The marker of a rule line. */
  const DisallowMarker: string := "Disallow:"

  /** The two `ValueError`s of `list.index` at lines 139 and 141. */
  datatype RobotsError =
    | NoUserAgentLine   // no line equals "User-agent: *"
    | NoBlankLine       // no empty line at or after it

  /** Where the block of rules lies in the lines: the first line equal to
      `User-agent: *` and the first empty line after it. */
  function FindBlock(lines: seq<string>): (r: Result<(nat, nat), RobotsError>)
    ensures r == Failure(NoUserAgentLine) <==> UserAgentLine !in lines
    ensures r.Success? ==>
      var (start, end) := r.value;
      && start < end < |lines|
      && lines[start] == UserAgentLine && UserAgentLine !in lines[..start]
      && lines[end] == "" && "" !in lines[start..end]
    ensures r == Failure(NoBlankLine) ==>
      exists start :: 0 <= start < |lines| && lines[start] == UserAgentLine && UserAgentLine !in lines[..start]
        && "" !in lines[start..]
  {
    match FirstIndex(lines, UserAgentLine)
    case None => Failure(NoUserAgentLine)
    case Some(start) =>
      var rest := lines[start..];
      match FirstIndex(rest, "")
      case None => Failure(NoBlankLine)
      case Some(offset) =>
        assert rest[0] == UserAgentLine != "";
        assert rest[..offset] == lines[start..start + offset];
        Success((start, start + offset))
  }

  /** Lines 136-142: the lines strictly between the first `User-agent: *`
      line and the next empty line. */
  function RuleBlock(body: string): (r: Result<seq<string>, RobotsError>)
    ensures r.Success? ==> UserAgentLine in Split(body, '\n')
    ensures r.Failure? <==> FindBlock(Split(body, '\n')).Failure?
    ensures r.Success? ==>
      var (start, end) := FindBlock(Split(body, '\n')).value;
      r.value == Split(body, '\n')[start + 1..end]
  {
    var lines := Split(body, '\n');
    match FindBlock(lines)
    case Failure(e) => Failure(e)
    case Success((start, end)) => Success(lines[start + 1..end])
  }

  lemma MarkerHasColon(rule: string)
    requires Contains(rule, DisallowMarker)
    ensures ':' in rule
  {
    var i :| OccursAt(DisallowMarker, rule, i);
    assert rule[i..i + 9][8] == ':';
  }

  /** Line 147: `rule[rule.index(":") + 2:]`, the text two characters after
      the first colon, empty when that is past the end. */
  function DisallowValue(rule: string): (r: string)
    requires ':' in rule
    ensures |r| <= |rule|
    ensures r == rule[|rule| - |r|..]
    ensures |r| > 0 ==> |r| + 2 <= |rule| && rule[|rule| - |r| - 2] == ':' && ':' !in rule[..|rule| - |r| - 2]
    ensures |r| == 0 ==> ':' !in rule[..if |rule| >= 2 then |rule| - 2 else 0]
  {
    var colon := FirstIndex(rule, ':').value;
    assert colon + 2 <= |rule| ==> rule[..colon] == rule[..|rule| - |rule[colon + 2..]| - 2];
    Slice(rule, colon + 2, |rule|)
  }

  /** One rule line denies `url` when it holds the marker and its value
      occurs anywhere in the URL (not only as a path prefix). */
  predicate RuleDenies(rule: string, url: string)
  {
    Contains(rule, DisallowMarker) && (MarkerHasColon(rule); Contains(url, DisallowValue(rule)))
  }

  /** Some rule of the block denies `url`. */
  predicate Denies(rules: seq<string>, url: string)
  {
    exists k :: 0 <= k < |rules| && RuleDenies(rules[k], url)
  }

  /** `canCrawl(url)` given the outcome of the robots.txt fetch. */
  function CanCrawl(robots: Option<string>, url: string): (r: Result<bool, RobotsError>)
    ensures robots.None? ==> r == Success(true)
    ensures robots.Some? ==> (r.Failure? <==> RuleBlock(robots.value).Failure?)
    ensures robots.Some? && r.Success? ==> (r.value <==> !Denies(RuleBlock(robots.value).value, url))
  {
    match robots
    case None => Success(true)
    case Some(body) =>
      match RuleBlock(body)
      case Failure(e) => Failure(e)
      case Success(rules) => Success(!Denies(rules, url))
  }

  /** The loop of lines 145-149, returning at the first denying rule. */
  method ScanRules(rules: seq<string>, url: string) returns (allowed: bool)
    ensures allowed <==> forall k :: 0 <= k < |rules| ==> !RuleDenies(rules[k], url)
  {
    var i := 0;
    while i < |rules|
      invariant 0 <= i <= |rules|
      invariant forall k :: 0 <= k < i ==> !RuleDenies(rules[k], url)
    {
      var rule := rules[i];
      if Contains(rule, DisallowMarker) {
        MarkerHasColon(rule);
        var badPath := DisallowValue(rule);
        if Contains(url, badPath) {
          assert RuleDenies(rules[i], url);
          return false;
        }
      }
      i := i + 1;
    }
    return true;
  }

  /** A body made of lines without line breaks splits back into those lines. */
  lemma LinesOfBody(body: string, lines: seq<string>)
    requires |lines| >= 1
    requires forall k :: 0 <= k < |lines| ==> '\n' !in lines[k]
    requires Join(lines, '\n') == body
    ensures Split(body, '\n') == lines
  {
    SplitJoin(lines, '\n');
  }

  /** A rule `Disallow: v` has value `v`, whatever `v` holds. */
  lemma DisallowValueOfRule(v: string)
    ensures ':' in "Disallow: " + v
    ensures DisallowValue("Disallow: " + v) == v
  {
    var rule := "Disallow: " + v;
    assert rule[8] == ':';
    assert ':' !in rule[..8];
    FirstIndexUnique(rule, ':', 8);
    assert rule[10..] == v;
  }

  /** A bare `Disallow:` line has the empty value. */
  lemma BareDisallowIsEmpty()
    ensures ':' in "Disallow:"
    ensures DisallowValue("Disallow:") == ""
  {
    var rule := "Disallow:";
    assert rule[8] == ':';
    assert ':' !in rule[..8];
    FirstIndexUnique(rule, ':', 8);
  }

  /** A rule with an empty value denies every URL. */
  lemma EmptyValueDeniesEverything(rules: seq<string>, k: nat, url: string)
    requires k < |rules| && Contains(rules[k], DisallowMarker)
    requires (MarkerHasColon(rules[k]); DisallowValue(rules[k]) == "")
    ensures Denies(rules, url)
  {
    assert OccursAt("", url, 0);
    assert RuleDenies(rules[k], url);
  }

  /** The lines `User-agent: *`, `rule`, blank, blank form a block holding only `rule`.
      The literal comes in through a `requires` on a parameter, which keeps the
      solver from unfolding the definitions on it eagerly. */
  lemma SingleRuleLines(lines: seq<string>, rule: string)
    requires rule != "" && lines == [UserAgentLine, rule, "", ""]
    ensures FindBlock(lines) == Success((0, 2))
  {
    FirstIndexUnique(lines, UserAgentLine, 0);
    assert lines[0..] == lines;
    assert lines[..2] == [UserAgentLine, rule];
    FirstIndexUnique(lines, "", 2);
  }

  /** The text of those lines, joined with line breaks.
      The literal comes in through a `requires` on a parameter, which keeps the
      solver from unfolding the definitions on it eagerly. */
  lemma SingleRuleText(body: string, lines: seq<string>, rule: string)
    requires lines == [UserAgentLine, rule, "", ""]
    requires body == UserAgentLine + "\n" + rule + "\n\n"
    ensures Join(lines, '\n') == body
  {
    assert lines[1..] == [rule, "", ""] && lines[2..] == ["", ""] && lines[3..] == [""];
    assert Join(["", ""], '\n') == "\n";
    assert Join([rule, "", ""], '\n') == rule + "\n" + "\n";
    assert Join(lines, '\n') == UserAgentLine + "\n" + (rule + "\n" + "\n");
  }

  /** A rule line between the `User-agent: *` line and a blank line forms the whole block. */
  lemma SingleRuleBlock(body: string, rule: string)
    requires '\n' !in rule && rule != ""
    requires body == UserAgentLine + "\n" + rule + "\n\n"
    ensures RuleBlock(body) == Success([rule])
  {
    var lines := [UserAgentLine, rule, "", ""];
    SingleRuleText(body, lines, rule);
    LinesOfBody(body, lines);
    SingleRuleLines(lines, rule);
    assert lines[1..2] == [rule];
  }

  /** `Disallow: v` carries the marker. */
  lemma RuleHasMarker(v: string)
    ensures Contains("Disallow: " + v, DisallowMarker)
  {
    assert "Disallow: " + v == "" + DisallowMarker + (" " + v);
    ContainsMiddle("", DisallowMarker, " " + v);
  }

  /** A block of one rule denies what that rule denies. */
  lemma OneRuleDenies(rules: seq<string>, url: string)
    requires |rules| == 1
    ensures Denies(rules, url) <==> RuleDenies(rules[0], url)
  {
    if RuleDenies(rules[0], url) {
      assert 0 <= 0 < |rules| && RuleDenies(rules[0], url);
    }
  }

  /** The robots.txt `User-agent: *`, `Disallow: v`, blank line: its one
      rule denies exactly the URLs that contain `v`, anywhere in them. */
  lemma SingleRuleVerdict(body: string, v: string, url: string)
    requires '\n' !in v
    requires body == UserAgentLine + "\n" + "Disallow: " + v + "\n\n"
    ensures CanCrawl(Some(body), url) == Success(!Contains(url, v))
  {
    var rule := "Disallow: " + v;
    assert '\n' !in rule;
    assert rule[0] == 'D';
    assert body == UserAgentLine + "\n" + rule + "\n\n";
    SingleRuleBlock(body, rule);
    DisallowValueOfRule(v);
    RuleHasMarker(v);
    OneRuleDenies([rule], url);
  }

  /** A block that runs to the end of the text without a blank line makes
      the second `index` call raise; the `ValueError` propagates out of
      `extract_next_links`. */
  lemma UnterminatedBlockRaises(body: string, rule: string, url: string)
    requires '\n' !in rule && rule != ""
    requires body == UserAgentLine + "\n" + rule
    ensures CanCrawl(Some(body), url) == Failure(NoBlankLine)
  {
    var lines := [UserAgentLine, rule];
    assert lines[1..] == [rule];
    assert Join(lines, '\n') == body;
    LinesOfBody(body, lines);
    FirstIndexUnique(lines, UserAgentLine, 0);
    assert lines[0..] == lines;
  }

  /** The lines `User-agent: *`, `rule` and one empty line, joined.
      The literal comes in through a `requires` on a parameter, which keeps the
      solver from unfolding the definitions on it eagerly. */
  lemma FinalLineBreakText(body: string, lines: seq<string>, rule: string)
    requires lines == [UserAgentLine, rule, ""]
    requires body == UserAgentLine + "\n" + rule + "\n"
    ensures Join(lines, '\n') == body
  {
    assert lines[1..] == [rule, ""] && lines[2..] == [""];
    assert Join([""], '\n') == "";
    assert Join([rule, ""], '\n') == rule + "\n";
    assert Join(lines, '\n') == UserAgentLine + "\n" + (rule + "\n");
  }

  /** In those lines the block runs from the first line to the last.
      The literal comes in through a `requires` on a parameter, which keeps the
      solver from unfolding the definitions on it eagerly. */
  lemma FinalLineBreakLines(lines: seq<string>, rule: string)
    requires rule != "" && lines == [UserAgentLine, rule, ""]
    ensures FindBlock(lines) == Success((0, 2))
  {
    FirstIndexUnique(lines, UserAgentLine, 0);
    assert lines[0..] == lines;
    assert lines[..2] == [UserAgentLine, rule];
    FirstIndexUnique(lines, "", 2);
  }

  /** With a line break after the rule, the end of the text closes the block. */
  lemma FinalLineBreakClosesBlock(body: string, rule: string)
    requires '\n' !in rule && rule != ""
    requires body == UserAgentLine + "\n" + rule + "\n"
    ensures RuleBlock(body) == Success([rule])
  {
    var lines := [UserAgentLine, rule, ""];
    FinalLineBreakText(body, lines, rule);
    LinesOfBody(body, lines);
    FinalLineBreakLines(lines, rule);
    assert lines[1..2] == [rule];
  }
}
