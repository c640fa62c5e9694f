/**
 * `compare_with_baseline`: for each baseline line, decide whether the running
 * configuration holds it verbatim, holds another line of the same command family
 * (same first token), or lacks it; report the last two outcomes and a summary.
 */
module Comparator {
  import opened Wrappers
  import opened Text

  /** One `{'baseline': ..., 'running': ...}` entry of `different_configs`. */
  datatype ConfigPair = ConfigPair(baseline: string, running: string)

  /** The dictionary `compare_with_baseline` returns. */
  datatype DiffResult = DiffResult(
    hasDifferences: bool,
    missingConfigs: seq<string>,
    extraConfigs: seq<string>,
    differentConfigs: seq<ConfigPair>,
    summary: string)

  /** `_is_similar_config`: both lines start with the same command keyword. */
  predicate IsSimilarConfig(baselineLine: string, runningLine: string)
  {
    FirstToken(baselineLine) == FirstToken(runningLine)
  }

  /** The index of the first running line at or after `from` in the same command family as `line`. */
  function FirstSimilarFrom(line: string, running: seq<string>, from: nat): (r: Option<nat>)
    requires from <= |running|
    ensures r.Some? ==> from <= r.value < |running| && IsSimilarConfig(line, running[r.value])
    ensures r.Some? ==> forall j :: from <= j < r.value ==> !IsSimilarConfig(line, running[j])
    ensures r.None? ==> forall j :: from <= j < |running| ==> !IsSimilarConfig(line, running[j])
    decreases |running| - from
  {
    if from == |running| then None
    else if IsSimilarConfig(line, running[from]) then Some(from)
    else FirstSimilarFrom(line, running, from + 1)
  }

  lemma FirstSimilarSkip(line: string, running: seq<string>, j: nat)
    requires j < |running| && !IsSimilarConfig(line, running[j])
    ensures FirstSimilarFrom(line, running, j) == FirstSimilarFrom(line, running, j + 1)
  {
  }

  /** The index of the first running line in the same command family as `line`, if any. */
  function FirstSimilar(line: string, running: seq<string>): Option<nat>
  {
    FirstSimilarFrom(line, running, 0)
  }

  /** What happens to one baseline line. */
  datatype Outcome = Present | Altered(running: string) | Missing

  function Classify(line: string, running: seq<string>): Outcome
  {
    if line in running then Present
    else match FirstSimilar(line, running)
      case Some(i) => Altered(running[i])
      case None => Missing
  }

  /** What one baseline line adds to `missing_configs`. */
  function MissingStep(line: string, running: seq<string>): seq<string>
  {
    if Classify(line, running) == Missing then [line] else []
  }

  /** What one baseline line adds to `different_configs`. */
  function DifferentStep(line: string, running: seq<string>): seq<ConfigPair>
  {
    match Classify(line, running)
    case Altered(r) => if line != r then [ConfigPair(line, r)] else []
    case _ => []
  }

  /** `missing_configs` after the loop has seen `baseline`. */
  function MissingOf(running: seq<string>, baseline: seq<string>): seq<string>
  {
    if baseline == [] then []
    else MissingOf(running, baseline[..|baseline| - 1]) + MissingStep(baseline[|baseline| - 1], running)
  }

  /** `different_configs` after the loop has seen `baseline`. */
  function DifferentOf(running: seq<string>, baseline: seq<string>): seq<ConfigPair>
  {
    if baseline == [] then []
    else DifferentOf(running, baseline[..|baseline| - 1]) + DifferentStep(baseline[|baseline| - 1], running)
  }

  /** Both outputs of the comparison after baseline line `i` has been processed. */
  lemma CompareStep(running: seq<string>, baseline: seq<string>, i: nat)
    requires i < |baseline|
    ensures MissingOf(running, baseline[..i + 1]) == MissingOf(running, baseline[..i]) + MissingStep(baseline[i], running)
    ensures DifferentOf(running, baseline[..i + 1]) == DifferentOf(running, baseline[..i]) + DifferentStep(baseline[i], running)
  {
    var b := baseline[..i + 1];
    assert b[..|b| - 1] == baseline[..i];
  }

  /** `"Missing N baseline configuration(s)"`. */
  function MissingClause(n: nat): string
  {
    "Missing " + NatToString(n) + " baseline configuration(s)"
  }

  /** `"Found N configuration difference(s)"`. */
  function FoundClause(n: nat): string
  {
    "Found " + NatToString(n) + " configuration difference(s)"
  }

  const MatchesBaseline: string := "Configuration matches baseline"

  /** The summary text for the given numbers of missing and altered lines. */
  function SummaryText(missingCount: nat, differentCount: nat): string
  {
    if missingCount == 0 && differentCount == 0 then MatchesBaseline
    else if differentCount == 0 then MissingClause(missingCount)
    else if missingCount == 0 then FoundClause(differentCount)
    else MissingClause(missingCount) + "; " + FoundClause(differentCount)
  }

  /** `_generate_summary`; `extra` is accepted and never reported. */
  method GenerateSummary(missing: seq<string>, extra: seq<string>, different: seq<ConfigPair>)
    returns (summary: string)
    ensures summary == SummaryText(|missing|, |different|)
  {
    var parts: seq<string> := [];
    if |missing| > 0 {
      parts := parts + ["Missing " + NatToString(|missing|) + " baseline configuration(s)"];
    }
    if |different| > 0 {
      parts := parts + ["Found " + NatToString(|different|) + " configuration difference(s)"];
    }
    if parts == [] {
      return "Configuration matches baseline";
    }
    summary := Join(parts, "; ");
    assert |parts| == 2 ==> summary == parts[0] + "; " + parts[1] by {
      if |parts| == 2 {
        assert Join(parts[1..], "; ") == parts[1];
      }
    }
  }

  /**
   * One pass of the outer loop of `compare_with_baseline`: what `line` adds to
   * `missing_configs` and to `different_configs`.
   */
  method CompareLine(line: string, running: seq<string>)
    returns (missingStep: seq<string>, differentStep: seq<ConfigPair>)
    ensures missingStep == MissingStep(line, running)
    ensures differentStep == DifferentStep(line, running)
  {
    missingStep, differentStep := [], [];
    if line !in running {
      var partial := false;
      var j := 0;
      while j < |running|
        invariant j <= |running|
        invariant !partial
        invariant FirstSimilar(line, running) == FirstSimilarFrom(line, running, j)
      {
        if IsSimilarConfig(line, running[j]) {
          partial := true;
          if line != running[j] {
            differentStep := [ConfigPair(line, running[j])];
          }
          break;
        }
        FirstSimilarSkip(line, running, j);
        j := j + 1;
      }
      if !partial {
        missingStep := [line];
      }
    }
  }

  /** `compare_with_baseline`; absent line lists count as empty. */
  method CompareWithBaseline(runningLines: Option<seq<string>>, baselineLines: Option<seq<string>>)
    returns (result: DiffResult)
    ensures var running, baseline := runningLines.GetOr([]), baselineLines.GetOr([]);
      && result.missingConfigs == MissingOf(running, baseline)
      && result.differentConfigs == DifferentOf(running, baseline)
    ensures result.extraConfigs == []
    ensures result.hasDifferences <==> result.missingConfigs != [] || result.differentConfigs != []
    ensures result.summary == SummaryText(|result.missingConfigs|, |result.differentConfigs|)
  {
    var running := if runningLines.Some? then runningLines.value else [];
    var baseline := if baselineLines.Some? then baselineLines.value else [];
    var missing: seq<string> := [];
    var different: seq<ConfigPair> := [];
    for i := 0 to |baseline|
      invariant missing == MissingOf(running, baseline[..i])
      invariant different == DifferentOf(running, baseline[..i])
    {
      var line := baseline[i];
      var missingStep, differentStep := CompareLine(line, running);
      CompareStep(running, baseline, i);
      missing := missing + missingStep;
      different := different + differentStep;
    }
    assert baseline[..|baseline|] == baseline;
    var summary := GenerateSummary(missing, [], different);
    result := DiffResult(missing != [] || different != [], missing, [], different, summary);
  }

  /** The baseline lines, in order, that the running lines do not hold verbatim. */
  function Absent(running: seq<string>, baseline: seq<string>): seq<string>
  {
    if baseline == [] then []
    else
      var line := baseline[|baseline| - 1];
      Absent(running, baseline[..|baseline| - 1]) + (if line in running then [] else [line])
  }

  /** A family match is never the baseline line itself, so the `baseline_line != running_line` guard always holds. */
  lemma AlteredDiffers(line: string, running: seq<string>)
    ensures Classify(line, running).Altered? ==> Classify(line, running).running != line
    ensures |MissingStep(line, running)| + |DifferentStep(line, running)| == if line in running then 0 else 1
  {
    if line !in running {
      match FirstSimilar(line, running)
      case Some(i) => assert running[i] in running;
      case None =>
    }
  }

  /** Every baseline line not held verbatim contributes exactly one entry, missing or different. */
  lemma {:induction false} PartitionCount(running: seq<string>, baseline: seq<string>)
    ensures |MissingOf(running, baseline)| + |DifferentOf(running, baseline)| == |Absent(running, baseline)|
  {
    if baseline != [] {
      PartitionCount(running, baseline[..|baseline| - 1]);
      AlteredDiffers(baseline[|baseline| - 1], running);
    }
  }

  lemma {:induction false} AbsentMembers(running: seq<string>, baseline: seq<string>, x: string)
    ensures x in Absent(running, baseline) <==> x in baseline && x !in running
  {
    if baseline != [] {
      var init := baseline[..|baseline| - 1];
      AbsentMembers(running, init, x);
      assert baseline == init + [baseline[|baseline| - 1]];
    }
  }

  /** `has_differences` holds exactly when some baseline line is not held verbatim by the running lines. */
  lemma HasDifferencesIff(running: seq<string>, baseline: seq<string>)
    ensures MissingOf(running, baseline) != [] || DifferentOf(running, baseline) != []
      <==> exists x :: x in baseline && x !in running
  {
    PartitionCount(running, baseline);
    if x :| x in baseline && x !in running {
      AbsentMembers(running, baseline, x);
    } else if Absent(running, baseline) != [] {
      AbsentMembers(running, baseline, Absent(running, baseline)[0]);
    }
  }

  /** `r` is the first running line whose command keyword equals that of `line`. */
  ghost predicate FirstOfFamily(line: string, running: seq<string>, r: string)
  {
    exists i :: 0 <= i < |running| && running[i] == r && IsSimilarConfig(line, r)
      && forall j :: 0 <= j < i ==> !IsSimilarConfig(line, running[j])
  }

  lemma FirstSimilarIsFirstOfFamily(line: string, running: seq<string>, r: string)
    ensures (exists i :: FirstSimilar(line, running) == Some(i) && running[i] == r) <==> FirstOfFamily(line, running, r)
  {
    if FirstOfFamily(line, running, r) {
      var i :| 0 <= i < |running| && running[i] == r && IsSimilarConfig(line, r)
        && forall j :: 0 <= j < i ==> !IsSimilarConfig(line, running[j]);
      assert FirstSimilar(line, running) == Some(i);
    }
  }

  lemma LastMembers(s: seq<string>)
    requires s != []
    ensures forall x :: x in s <==> x in s[..|s| - 1] || x == s[|s| - 1]
  {
    assert s == s[..|s| - 1] + [s[|s| - 1]];
  }

  /** One baseline line is reported missing exactly when it is absent and no running line shares its keyword. */
  lemma MissingStepMembers(line: string, running: seq<string>, x: string)
    ensures x in MissingStep(line, running)
      <==> x == line && x !in running && forall r :: r in running ==> !IsSimilarConfig(x, r)
  {
    if line !in running && FirstSimilar(line, running).Some? {
      assert running[FirstSimilar(line, running).value] in running;
    }
  }

  /** A baseline line is reported missing exactly when it is absent and no running line shares its keyword. */
  lemma {:induction false} MissingMembers(running: seq<string>, baseline: seq<string>, x: string)
    ensures x in MissingOf(running, baseline)
      <==> x in baseline && x !in running && forall r :: r in running ==> !IsSimilarConfig(x, r)
  {
    if baseline != [] {
      var init := baseline[..|baseline| - 1];
      var line := baseline[|baseline| - 1];
      MissingMembers(running, init, x);
      LastMembers(baseline);
      MissingStepMembers(line, running, x);
    }
  }

  /** One baseline line yields pair `p` exactly when it is absent and `p.running` is the first of its family. */
  lemma DifferentStepMembers(line: string, running: seq<string>, p: ConfigPair)
    ensures p in DifferentStep(line, running)
      <==> p.baseline == line && line !in running && FirstOfFamily(line, running, p.running)
    ensures p in DifferentStep(line, running) ==> p.baseline != p.running
  {
    FirstSimilarIsFirstOfFamily(line, running, p.running);
    AlteredDiffers(line, running);
  }

  /**
   * A pair is reported exactly when its baseline line is absent and its running line
   * is the first of the same family; the two lines of a pair always differ.
   */
  lemma {:induction false} DifferentMembers(running: seq<string>, baseline: seq<string>, p: ConfigPair)
    ensures p in DifferentOf(running, baseline)
      <==> p.baseline in baseline && p.baseline !in running && FirstOfFamily(p.baseline, running, p.running)
    ensures p in DifferentOf(running, baseline) ==> p.baseline != p.running
  {
    if baseline != [] {
      var init := baseline[..|baseline| - 1];
      var line := baseline[|baseline| - 1];
      DifferentMembers(running, init, p);
      LastMembers(baseline);
      DifferentStepMembers(line, running, p);
    }
  }

  /** `_is_similar_config` compares the first words of `split()`, an empty list giving `""`. */
  lemma SimilarIsSplitTest(baselineLine: string, runningLine: string)
    ensures IsSimilarConfig(baselineLine, runningLine) <==> SplitFirst(baselineLine) == SplitFirst(runningLine)
  {
    FirstTokenIsFirstWord(baselineLine);
    FirstTokenIsFirstWord(runningLine);
  }

  /** Two lines that each start with a keyword after optional indentation are similar exactly when the keywords agree. */
  lemma SimilarByKeyword(a: string, w: string, b: string, a': string, w': string, b': string)
    requires AllSpace(a) && w != [] && NoSpace(w) && (b == [] || IsSpace(b[0]))
    requires AllSpace(a') && w' != [] && NoSpace(w') && (b' == [] || IsSpace(b'[0]))
    ensures IsSimilarConfig(a + w + b, a' + w' + b') <==> w == w'
  {
    FirstTokenOf(a, w, b);
    FirstTokenOf(a', w', b');
  }

  /** A blank or whitespace-only line is similar exactly to the other blank or whitespace-only lines. */
  lemma BlankSimilar(blank: string, other: string)
    requires AllSpace(blank)
    ensures IsSimilarConfig(blank, other) <==> AllSpace(other)
  {
    FirstTokenBlank(blank);
    FirstTokenBlank(other);
  }

  /** The summary is the match message exactly when nothing is missing or different. */
  lemma SummaryMatchesIff(missingCount: nat, differentCount: nat)
    ensures SummaryText(missingCount, differentCount) == MatchesBaseline
      <==> missingCount == 0 && differentCount == 0
  {
    var s := SummaryText(missingCount, differentCount);
    if missingCount > 0 {
      assert s[0] == MissingClause(missingCount)[0] == 'M';
    } else if differentCount > 0 {
      assert s[0] == 'F';
    }
  }
}
