/**
 * `normalize_config`: split a configuration into lines, strip each one, and keep the
 * lines that are neither empty nor `!`/`#` comments, in their original order.
 */
module Normalizer {
  import opened Wrappers
  import opened Text

  /** A line worth comparing: non-empty and not a `!` or `#` comment. */
  predicate IsConfigLine(line: string)
  {
    line != [] && line[0] != '!' && line[0] != '#'
  }

  /** The loop body's contribution for one raw line: its stripped form, unless that is noise. */
  function KeepOne(raw: string): seq<string>
  {
    var line := Strip(raw);
    if IsConfigLine(line) then [line] else []
  }

  /** The stripped lines of `lines` that are configuration lines, in order. */
  function Kept(lines: seq<string>): seq<string>
  {
    if lines == [] then [] else KeepOne(lines[0]) + Kept(lines[1..])
  }

  /** What `normalize_config` returns for `config` (absent or empty text gives no lines). */
  function Normalized(config: Option<string>): seq<string>
  {
    if config.None? || config.value == [] then [] else Kept(SplitLines(config.value))
  }

  method NormalizeConfig(config: Option<string>) returns (lines: seq<string>)
    ensures lines == Normalized(config)
  {
    if config.None? || config.value == [] {
      return [];
    }
    var parts := SplitLines(config.value);
    lines := [];
    for k := 0 to |parts|
      invariant lines == Kept(parts[..k])
    {
      var line := Strip(parts[k]);
      if IsConfigLine(line) {
        lines := lines + [line];
      }
      assert parts[..k + 1] == parts[..k] + [parts[k]];
      KeptSnoc(parts[..k], parts[k]);
    }
    assert parts[..|parts|] == parts;
  }

  /** Filtering distributes over concatenation: the kept lines of a text keep their order. */
  lemma {:induction false} KeptConcat(xs: seq<string>, ys: seq<string>)
    ensures Kept(xs + ys) == Kept(xs) + Kept(ys)
  {
    if xs == [] {
      assert xs + ys == ys;
    } else {
      assert (xs + ys)[1..] == xs[1..] + ys;
      KeptConcat(xs[1..], ys);
    }
  }

  /** Appending one raw line appends that line's contribution. */
  lemma KeptSnoc(xs: seq<string>, raw: string)
    ensures Kept(xs + [raw]) == Kept(xs) + KeepOne(raw)
  {
    KeptConcat(xs, [raw]);
    assert Kept([raw]) == KeepOne(raw) + Kept([]);
  }

  /** A line is kept exactly when it is the stripped form of some input line and is not noise. */
  lemma {:induction false} KeptMembers(lines: seq<string>, x: string)
    ensures x in Kept(lines) <==> IsConfigLine(x) && exists i :: 0 <= i < |lines| && Strip(lines[i]) == x
  {
    if lines != [] {
      var rest := lines[1..];
      KeptMembers(rest, x);
      assert Kept(lines) == KeepOne(lines[0]) + Kept(rest);
      if x in Kept(lines) {
        if x !in KeepOne(lines[0]) {
          var i :| 0 <= i < |rest| && Strip(rest[i]) == x;
          assert Strip(lines[i + 1]) == x;
        }
      }
      if IsConfigLine(x) && exists i :: 0 <= i < |lines| && Strip(lines[i]) == x {
        var i :| 0 <= i < |lines| && Strip(lines[i]) == x;
        if i > 0 {
          assert Strip(rest[i - 1]) == x;
        }
      }
    }
  }

  /** Every kept line is already normal: stripped, not noise, and free of line breaks. */
  lemma {:induction false} KeptAreNormal(lines: seq<string>)
    requires forall i :: 0 <= i < |lines| ==> '\n' !in lines[i]
    ensures forall j :: 0 <= j < |Kept(lines)| ==>
      IsConfigLine(Kept(lines)[j]) && Strip(Kept(lines)[j]) == Kept(lines)[j] && '\n' !in Kept(lines)[j]
  {
    if lines != [] {
      KeptAreNormal(lines[1..]);
      StripIdempotent(lines[0]);
      StripKeepsOut(lines[0], '\n');
    }
  }

  /** Lines that are already normal are kept as they are. */
  lemma {:induction false} KeptOfNormal(lines: seq<string>)
    requires forall j :: 0 <= j < |lines| ==> IsConfigLine(lines[j]) && Strip(lines[j]) == lines[j]
    ensures Kept(lines) == lines
  {
    if lines != [] {
      KeptOfNormal(lines[1..]);
      assert lines == [lines[0]] + lines[1..];
    }
  }

  /** The early return for empty text agrees with filtering its single empty line. */
  lemma NormalizedIsKept(config: string)
    ensures Normalized(Some(config)) == Kept(SplitLines(config))
  {
    if config == [] {
      var lines := SplitLines(config);
      assert lines == [[]];
      assert Kept(lines) == KeepOne([]) + Kept([]);
    }
  }

  /** `normalize_config` returns exactly the stripped non-noise lines of its input. */
  lemma NormalizedMembers(config: string, x: string)
    ensures var lines := SplitLines(config);
      x in Normalized(Some(config)) <==> IsConfigLine(x) && exists i :: 0 <= i < |lines| && Strip(lines[i]) == x
  {
    NormalizedIsKept(config);
    KeptMembers(SplitLines(config), x);
  }

  /** Every normalised line is stripped, not noise, and holds no line break. */
  lemma NormalizedAreNormal(config: Option<string>)
    ensures forall j :: 0 <= j < |Normalized(config)| ==>
      IsConfigLine(Normalized(config)[j]) && Strip(Normalized(config)[j]) == Normalized(config)[j]
      && '\n' !in Normalized(config)[j]
  {
    if config.Some? && config.value != [] {
      KeptAreNormal(SplitLines(config.value));
    }
  }

  /** Normalising the joined output of a normalisation gives that output back. */
  lemma NormalizeIdempotent(config: Option<string>)
    ensures Normalized(Some(Join(Normalized(config), "\n"))) == Normalized(config)
  {
    var lines := Normalized(config);
    if lines != [] {
      NormalizedAreNormal(config);
      SplitLinesOfJoin(lines);
      KeptOfNormal(lines);
    }
  }
}
