/**
 * `extract_config_sections` and its three platform extractors: each platform has a
 * table of patterns; every pattern is searched in the whole configuration text
 * (`re.findall`) and all matches, in table order and then in text order, are
 * joined with newlines.
 *
 * The tables use two regular-expression shapes only, matched here by hand:
 *   - `Greedy(kw)` is `kw.*` under DOTALL: from the first occurrence of `kw` to
 *     the end of the whole text;
 *   - `Lazy(kw, stops)` is `kw.*?(?=\n<alt>|...|\Z)`: from each occurrence of
 *     `kw` to the nearest later position where one of the alternatives holds or
 *     the text ends, the search resuming where the previous match ended.
 */
module Extractor {
  import opened Wrappers
  import opened Text

  /** The literal a pattern starts with; never empty. */
  type Keyword = s: string | |s| > 0 witness "a"

  /** One alternative of a lookahead: `\n` followed by a literal, or `\n[a-z]`. */
  datatype Boundary = NewlineThen(prefix: string) | NewlineLower

  /** The two pattern shapes of the tables. */
  datatype Pattern = Greedy(keyword: Keyword) | Lazy(keyword: Keyword, stops: seq<Boundary>)

  /** The platforms that have an extraction table. */
  datatype Platform = Cisco | H3C | Huawei

  // ------------------------------------------------------------ the tables

  /** Alternatives `\nline|\n[a-z]` of the `line ...` patterns. */
  const LineStops: seq<Boundary> := [NewlineThen("line"), NewlineLower]

  /** Alternatives `\nuser-interface|\n[a-z]` of the Huawei `user-interface ...` patterns. */
  const UserInterfaceStops: seq<Boundary> := [NewlineThen("user-interface"), NewlineLower]

  const CiscoPatterns: seq<Pattern> := [
    Greedy("service password-encryption"),
    Lazy("banner login", [NewlineLower, NewlineThen("!")]),
    Lazy("line con 0", LineStops),
    Lazy("line vty", LineStops),
    Greedy("snmp-server community"),
    Greedy("tacacs-server host")
  ]

  const H3cPatterns: seq<Pattern> := [
    Lazy("header login", [NewlineLower, NewlineThen("#")]),
    Lazy("line aux", LineStops),
    Lazy("line vty", LineStops),
    Greedy("hwtacacs scheme"),
    Greedy("snmp-agent community")
  ]

  const HuaweiPatterns: seq<Pattern> := [
    Lazy("user-interface console", UserInterfaceStops),
    Lazy("user-interface vty", UserInterfaceStops),
    Greedy("hwtacacs-server"),
    Greedy("snmp-agent community")
  ]

  /** The platform whose table `extract_config_sections` uses for a `network_os` value. */
  function PlatformOf(networkOs: string): Option<Platform>
  {
    if networkOs in ["ios", "nxos", "eos"] then Some(Cisco)
    else if networkOs == "comware" then Some(H3C)
    else if networkOs == "ce" then Some(Huawei)
    else None
  }

  // ------------------------------------------------------------ matching

  /** `kw` occurs in `text` at position `i`. */
  predicate KeywordAt(text: string, kw: string, i: nat)
  {
    i + |kw| <= |text| && text[i..i + |kw|] == kw
  }

  /** The first occurrence of `kw` at or after `from`. */
  function FindKeyword(text: string, kw: Keyword, from: nat): (r: Option<nat>)
    requires from <= |text|
    ensures r.Some? ==> from <= r.value && KeywordAt(text, kw, r.value)
    ensures r.Some? ==> forall i :: from <= i < r.value ==> !KeywordAt(text, kw, i)
    ensures r.None? ==> forall i :: from <= i ==> !KeywordAt(text, kw, i)
    decreases |text| - from
  {
    if from + |kw| > |text| then None
    else if KeywordAt(text, kw, from) then Some(from)
    else FindKeyword(text, kw, from + 1)
  }

  /** The lookahead alternative `b` holds at position `x`. */
  predicate BoundaryAt(text: string, b: Boundary, x: nat)
  {
    match b
    case NewlineThen(prefix) => KeywordAt(text, "\n" + prefix, x)
    case NewlineLower => x + 1 < |text| && text[x] == '\n' && 'a' <= text[x + 1] <= 'z'
  }

  /** The lookahead `(?=alt|...|\Z)` holds at position `x`. */
  predicate StopAt(text: string, stops: seq<Boundary>, x: nat)
  {
    x == |text| || exists k :: 0 <= k < |stops| && BoundaryAt(text, stops[k], x)
  }

  /** The nearest position at or after `x` where the lookahead holds. */
  function NextStop(text: string, stops: seq<Boundary>, x: nat): (e: nat)
    requires x <= |text|
    ensures x <= e <= |text| && StopAt(text, stops, e)
    ensures forall y :: x <= y < e ==> !StopAt(text, stops, y)
    decreases |text| - x
  {
    if StopAt(text, stops, x) then x else NextStop(text, stops, x + 1)
  }

  /** Where a match of `p` that starts at `start` ends. */
  function MatchEnd(p: Pattern, text: string, start: nat): (e: nat)
    requires KeywordAt(text, p.keyword, start)
    ensures start + |p.keyword| <= e <= |text|
    ensures p.Greedy? ==> e == |text|
    ensures p.Lazy? ==> StopAt(text, p.stops, e)
    ensures p.Lazy? ==> forall y :: start + |p.keyword| <= y < e ==> !StopAt(text, p.stops, y)
  {
    match p
    case Greedy(_) => |text|
    case Lazy(kw, stops) => NextStop(text, stops, start + |kw|)
  }

  /** A match as the positions `[start, end)` of the text. */
  datatype Span = Span(start: nat, end: nat)

  /** The matches `re.findall` finds when it scans from `from`. */
  function SpansFrom(p: Pattern, text: string, from: nat): (spans: seq<Span>)
    requires from <= |text|
    ensures forall k :: 0 <= k < |spans| ==>
      from <= spans[k].start && KeywordAt(text, p.keyword, spans[k].start)
      && spans[k].end == MatchEnd(p, text, spans[k].start)
    ensures forall k :: 0 <= k < |spans| - 1 ==> spans[k].end <= spans[k + 1].start
    decreases |text| - from
  {
    match FindKeyword(text, p.keyword, from)
    case None => []
    case Some(start) =>
      var end := MatchEnd(p, text, start);
      [Span(start, end)] + SpansFrom(p, text, end)
  }

  function Spans(p: Pattern, text: string): seq<Span>
  {
    SpansFrom(p, text, 0)
  }

  /** `re.findall(pattern, text, re.MULTILINE | re.DOTALL)` for a table pattern. */
  function FindAll(p: Pattern, text: string): (matches: seq<string>)
  {
    var spans := Spans(p, text);
    seq(|spans|, k requires 0 <= k < |spans| => text[spans[k].start..spans[k].end])
  }

  /** The matches of the patterns, in table order and then in text order. */
  function AllMatches(patterns: seq<Pattern>, text: string): seq<string>
  {
    if patterns == [] then []
    else AllMatches(patterns[..|patterns| - 1], text) + FindAll(patterns[|patterns| - 1], text)
  }

  /** What a platform extractor returns for `config`; absent or empty configuration gives `""`. */
  function Extraction(patterns: seq<Pattern>, config: Option<string>): string
  {
    if config.None? || config.value == "" then ""
    else Join(AllMatches(patterns, config.value), "\n")
  }

  lemma AllMatchesStep(patterns: seq<Pattern>, text: string, k: nat)
    requires k < |patterns|
    ensures AllMatches(patterns[..k + 1], text) == AllMatches(patterns[..k], text) + FindAll(patterns[k], text)
  {
    var ps := patterns[..k + 1];
    assert ps[..|ps| - 1] == patterns[..k];
  }

  // ------------------------------------------------------------ the extractors

  /** The loop shared by `_extract_cisco_sections`, `_extract_h3c_sections` and `_extract_huawei_sections`. */
  method ExtractSections(patterns: seq<Pattern>, config: Option<string>) returns (joined: string)
    ensures joined == Extraction(patterns, config)
  {
    if config.None? || config.value == "" {
      return "";
    }
    var text := config.value;
    var extracted: seq<string> := [];
    for k := 0 to |patterns|
      invariant extracted == AllMatches(patterns[..k], text)
    {
      var matches := FindAll(patterns[k], text);
      AllMatchesStep(patterns, text, k);
      if matches != [] {
        extracted := extracted + matches;
      }
    }
    assert patterns[..|patterns|] == patterns;
    joined := Join(extracted, "\n");
  }

  method ExtractCiscoSections(config: Option<string>) returns (joined: string)
    ensures joined == Extraction(CiscoPatterns, config)
  {
    joined := ExtractSections(CiscoPatterns, config);
  }

  method ExtractH3cSections(config: Option<string>) returns (joined: string)
    ensures joined == Extraction(H3cPatterns, config)
  {
    joined := ExtractSections(H3cPatterns, config);
  }

  method ExtractHuaweiSections(config: Option<string>) returns (joined: string)
    ensures joined == Extraction(HuaweiPatterns, config)
  {
    joined := ExtractSections(HuaweiPatterns, config);
  }

  /** `extract_config_sections`: dispatch on `network_os`; an unknown platform gets the input back. */
  method ExtractConfigSections(runningConfig: Option<string>, networkOs: string) returns (out: Option<string>)
    ensures networkOs in ["ios", "nxos", "eos"] ==> out == Some(Extraction(CiscoPatterns, runningConfig))
    ensures networkOs == "comware" ==> out == Some(Extraction(H3cPatterns, runningConfig))
    ensures networkOs == "ce" ==> out == Some(Extraction(HuaweiPatterns, runningConfig))
    ensures networkOs !in ["ios", "nxos", "eos", "comware", "ce"] ==> out == runningConfig
  {
    match PlatformOf(networkOs)
    case Some(Cisco) =>
      var joined := ExtractCiscoSections(runningConfig);
      out := Some(joined);
    case Some(H3C) =>
      var joined := ExtractH3cSections(runningConfig);
      out := Some(joined);
    case Some(Huawei) =>
      var joined := ExtractHuaweiSections(runningConfig);
      out := Some(joined);
    case None =>
      out := runningConfig;
  }

  // ------------------------------------------------------------ properties

  /** `findall` misses no occurrence: each one after `from` lies inside some match. */
  lemma {:induction false} SpansCover(p: Pattern, text: string, from: nat, i: nat)
    requires from <= i && from <= |text| && KeywordAt(text, p.keyword, i)
    ensures exists k :: (0 <= k < |SpansFrom(p, text, from)|
      && SpansFrom(p, text, from)[k].start <= i < SpansFrom(p, text, from)[k].end)
    decreases |text| - from
  {
    var spans := SpansFrom(p, text, from);
    var start := FindKeyword(text, p.keyword, from).value;
    var end := MatchEnd(p, text, start);
    assert spans == [Span(start, end)] + SpansFrom(p, text, end);
    if i >= end {
      SpansCover(p, text, end, i);
      var k :| 0 <= k < |SpansFrom(p, text, end)| &&
        SpansFrom(p, text, end)[k].start <= i < SpansFrom(p, text, end)[k].end;
      assert spans[k + 1] == SpansFrom(p, text, end)[k];
    } else {
      assert 0 < |spans| && spans[0] == Span(start, end);
      assert start <= i;
    }
  }

  /** A `kw.*` pattern under DOTALL yields at most one match: the rest of the text from the first occurrence. */
  lemma GreedyMatchesRest(kw: Keyword, text: string)
    ensures FindKeyword(text, kw, 0).None? ==> FindAll(Greedy(kw), text) == []
    ensures FindKeyword(text, kw, 0).Some? ==>
      FindAll(Greedy(kw), text) == [text[FindKeyword(text, kw, 0).value..]]
  {
    assert FindKeyword(text, kw, |text|).None?;
    assert SpansFrom(Greedy(kw), text, |text|) == [];
    match FindKeyword(text, kw, 0)
    case None =>
    case Some(start) =>
      assert Spans(Greedy(kw), text) == [Span(start, |text|)];
      assert FindAll(Greedy(kw), text)[0] == text[start..|text|] == text[start..];
  }

  /** Each match is a non-empty piece of the text that begins with the pattern's keyword. */
  lemma FindAllAreSections(p: Pattern, text: string)
    ensures forall m :: m in FindAll(p, text) ==> m != [] && StartsWith(m, p.keyword) && IsInfix(m, text)
  {
    var spans := Spans(p, text);
    var ms := FindAll(p, text);
    forall k | 0 <= k < |ms|
      ensures ms[k] != [] && StartsWith(ms[k], p.keyword) && IsInfix(ms[k], text)
    {
      var span := spans[k];
      assert ms[k] == text[span.start..span.end];
      assert ms[k][..|p.keyword|] == text[span.start..span.start + |p.keyword|];
    }
  }

  /** `findall` finds something exactly when the keyword occurs. */
  lemma FindAllEmptyIff(p: Pattern, text: string)
    ensures FindAll(p, text) == [] <==> forall i :: !KeywordAt(text, p.keyword, i)
  {
    if i :| KeywordAt(text, p.keyword, i) {
      SpansCover(p, text, 0, i);
    }
  }

  /** Every extracted section is a non-empty piece of the text that begins with one of the table's keywords. */
  lemma {:induction false} AllMatchesAreSections(patterns: seq<Pattern>, text: string, m: string)
    requires m in AllMatches(patterns, text)
    ensures m != [] && IsInfix(m, text)
    ensures exists k :: 0 <= k < |patterns| && StartsWith(m, patterns[k].keyword)
  {
    var init := patterns[..|patterns| - 1];
    var last := patterns[|patterns| - 1];
    if m in AllMatches(init, text) {
      AllMatchesAreSections(init, text, m);
      var k :| 0 <= k < |init| && StartsWith(m, init[k].keyword);
      assert patterns[k] == init[k];
    } else {
      FindAllAreSections(last, text);
    }
  }

  /** No section is found exactly when no keyword of the table occurs in the text. */
  lemma {:induction false} AllMatchesEmptyIff(patterns: seq<Pattern>, text: string)
    ensures AllMatches(patterns, text) == []
      <==> forall k, i :: 0 <= k < |patterns| ==> !KeywordAt(text, patterns[k].keyword, i)
  {
    if patterns != [] {
      var init := patterns[..|patterns| - 1];
      var last := patterns[|patterns| - 1];
      AllMatchesEmptyIff(init, text);
      FindAllEmptyIff(last, text);
      if forall k, i :: 0 <= k < |patterns| ==> !KeywordAt(text, patterns[k].keyword, i) {
        forall k, i | 0 <= k < |init|
          ensures !KeywordAt(text, init[k].keyword, i)
        {
          assert init[k] == patterns[k];
        }
      }
    }
  }

  /** A platform extractor returns `""` exactly when the configuration is absent, empty or holds no keyword of its table. */
  lemma ExtractionEmptyIff(patterns: seq<Pattern>, config: Option<string>)
    ensures Extraction(patterns, config) == ""
      <==> config.None? || forall k, i :: 0 <= k < |patterns| ==> !KeywordAt(config.value, patterns[k].keyword, i)
  {
    if config.Some? {
      var text := config.value;
      AllMatchesEmptyIff(patterns, text);
      var ms := AllMatches(patterns, text);
      if ms != [] {
        AllMatchesAreSections(patterns, text, ms[0]);
        assert Join(ms, "\n")[0] == ms[0][0];
      }
    }
  }

  /** The extractor invents nothing: every line of its output is a contiguous piece of the configuration. */
  lemma ExtractedLinesAreInfixes(patterns: seq<Pattern>, config: string, k: nat)
    requires k < |SplitLines(Extraction(patterns, Some(config)))|
    ensures IsInfix(SplitLines(Extraction(patterns, Some(config)))[k], config)
  {
    var ms := AllMatches(patterns, config);
    forall i | 0 <= i < |ms|
      ensures IsInfix(ms[i], config)
    {
      AllMatchesAreSections(patterns, config, ms[i]);
    }
    if config == "" {
      assert SplitLines("") == [[]];
      assert config[0..0] == SplitLines("")[k];
    } else {
      JoinedLinesAreInfixes(ms, config, k);
    }
  }
}
