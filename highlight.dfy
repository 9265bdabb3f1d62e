/**
 Highlighting one line: the scan of every rule, the exchange sort of the
 accepted spans, and the output built from them. `Highlight` is the
 specification, `HighlightLine` the step-by-step procedure proved equal to it.
 */
module Highlighting {
  import opened Text
  import opened Colors
  import opened WordTable
  import opened Matching
  import opened Rendering

  /** The copy of the line the keys are searched in: the line itself, or its lower-cased copy. */
  function SearchLine(line: string, caseSensitive: bool): (sl: string)
    ensures |sl| == |line|
  {
    if caseSensitive then line else Lower(line)
  }

  /** The accepted spans of the line, sorted by start. */
  function SortedSpans(line: string, configs: seq<WordConfig>, caseSensitive: bool, wholeWord: bool): seq<Replacement>
    requires NonEmptyKeys(configs)
  {
    ExchangeSorted(ScanConfigs(line, SearchLine(line, caseSensitive), configs, wholeWord).reps)
  }

  /** The sorted spans are disjoint, in ascending order and chained along the line. */
  lemma SortedSpansChained(line: string, configs: seq<WordConfig>, caseSensitive: bool, wholeWord: bool)
    requires NonEmptyKeys(configs)
    ensures var rs := SortedSpans(line, configs, caseSensitive, wholeWord);
      && Spans(rs, |line|)
      && (forall i, j :: 0 <= i < j < |rs| ==> rs[i].end <= rs[j].start)
      && Chained(rs, 0, |line|)
  {
    var reps := ScanConfigs(line, SearchLine(line, caseSensitive), configs, wholeWord).reps;
    var rs := ExchangeSorted(reps);
    ScanConfigsConsistent(line, SearchLine(line, caseSensitive), configs, wholeWord);
    ExchangeSortedSpans(reps, |line|);
    ExchangeSortedSpec(reps);
    forall i, j | 0 <= i < j < |rs|
      ensures rs[i].end <= rs[j].start
    {
      assert Disjoint(rs[i], rs[j]);
    }
    SpansChained(rs, 0, |line|);
  }

  /** The highlighted line: unchanged without rules or without accepted spans, otherwise rebuilt from the sorted spans. */
  function Highlight(line: string, configs: seq<WordConfig>, caseSensitive: bool, wholeWord: bool): string
    requires NonEmptyKeys(configs)
  {
    if configs == [] then line
    else if ScanConfigs(line, SearchLine(line, caseSensitive), configs, wholeWord).reps == [] then line
    else
      SortedSpansChained(line, configs, caseSensitive, wholeWord);
      Render(line, SortedSpans(line, configs, caseSensitive, wholeWord), 0)
  }

  // ---------------------------------------------------------------------------
  // The procedure

  /**
   One hit of the search loop: the span is stretched to the end of the word
   in whole-word mode, checked against the mask, and when all its bytes are
   free they are coloured and the painted span is recorded.
   */
  method ConsiderHit(line: string, cfg: WordConfig, wholeWord: bool, colored: array<bool>, reps: seq<Replacement>, idx: nat)
    returns (reps': seq<Replacement>)
    requires colored.Length == |line| && idx + |cfg.search| <= |line|
    modifies colored
    ensures ScanState(colored[..], reps') == Consider(line, cfg, wholeWord, ScanState(old(colored[..]), reps), idx)
  {
    var endIdx := idx + |cfg.search|;
    if wholeWord {
      while endIdx < |line| && line[endIdx] != ' ' && line[endIdx] != '\n' && line[endIdx] != '\t'
        invariant idx + |cfg.search| <= endIdx <= |line|
        invariant WordEnd(line, endIdx) == WordEnd(line, idx + |cfg.search|)
        decreases |line| - endIdx
      {
        endIdx := endIdx + 1;
      }
    }
    assert endIdx == Candidate(line, cfg, wholeWord, idx).end;
    ghost var before := colored[..];
    var alreadyColored := false;
    var i := idx;
    while i < endIdx
      invariant idx <= i <= endIdx
      invariant forall p :: idx <= p < i ==> !colored[p]
    {
      if colored[i] {
        alreadyColored := true;
        break;
      }
      i := i + 1;
    }
    assert alreadyColored <==> !Free(before, idx, endIdx);
    reps' := reps;
    if !alreadyColored {
      for k := idx to endIdx
        invariant forall p :: 0 <= p < colored.Length ==> colored[p] == (before[p] || idx <= p < k)
      {
        colored[k] := true;
      }
      assert colored[..] == Mark(before, idx, endIdx);
      var matchedText := line[idx..endIdx];
      var coloredText := cfg.color + matchedText + Reset;
      reps' := reps + [Replacement(idx, endIdx, coloredText)];
    }
  }

  /**
   The search loop of rule `cfg`: find the next hit from `pos`, consider it,
   resume one byte after it, until the key is not found again.
   */
  method ScanRule(line: string, searchLine: string, cfg: WordConfig, wholeWord: bool, colored: array<bool>, reps: seq<Replacement>)
    returns (reps': seq<Replacement>)
    requires colored.Length == |line| && |searchLine| == |line| && cfg.search != ""
    modifies colored
    ensures ScanState(colored[..], reps') == ScanWord(line, searchLine, cfg, wholeWord, 0, ScanState(old(colored[..]), reps))
  {
    ghost var entry := ScanState(colored[..], reps);
    ghost var st := entry;
    reps' := reps;
    var pos := 0;
    var found := true;
    while found
      invariant pos <= |line| && |st.colored| == |line|
      invariant st == ScanState(colored[..], reps')
      invariant found ==> ScanWord(line, searchLine, cfg, wholeWord, pos, st) == ScanWord(line, searchLine, cfg, wholeWord, 0, entry)
      invariant !found ==> st == ScanWord(line, searchLine, cfg, wholeWord, 0, entry)
      decreases |line| - pos, found
    {
      found, reps', pos, st := NextHit(line, searchLine, cfg, wholeWord, colored, reps', pos, st);
    }
  }

  /**
   One turn of the search loop: look for the key from `pos` on; when it is
   found, consider the hit and move `pos` one byte past its start.
   */
  method NextHit(line: string, searchLine: string, cfg: WordConfig, wholeWord: bool, colored: array<bool>, reps: seq<Replacement>,
                 pos: nat, ghost st: ScanState)
    returns (found: bool, reps': seq<Replacement>, pos': nat, ghost st': ScanState)
    requires colored.Length == |line| && |searchLine| == |line| && cfg.search != "" && pos <= |line|
    requires st == ScanState(colored[..], reps)
    modifies colored
    ensures pos' <= |line| && |st'.colored| == |line|
    ensures st' == ScanState(colored[..], reps')
    ensures found ==> pos < pos' && ScanWord(line, searchLine, cfg, wholeWord, pos, st) == ScanWord(line, searchLine, cfg, wholeWord, pos', st')
    ensures !found ==> pos' == pos && st' == st && ScanWord(line, searchLine, cfg, wholeWord, pos, st) == st
  {
    var idx := Index(searchLine[pos..], cfg.search);
    if idx == -1 {
      ScanWordMiss(line, searchLine, cfg, wholeWord, pos, st);
      return false, reps, pos, st;
    }
    ghost var i := idx;
    idx := idx + pos;
    ScanWordTake(line, searchLine, cfg, wholeWord, pos, i, idx, st);
    reps' := ConsiderHit(line, cfg, wholeWord, colored, reps, idx);
    st' := Consider(line, cfg, wholeWord, st, idx);
    pos' := idx + 1;
    found := true;
  }

  /** The output built from spans chained along the line: the bytes between spans copied, each span replaced by its text. */
  method Build(line: string, a: array<Replacement>) returns (out: string)
    requires Chained(a[..], 0, |line|)
    ensures out == Render(line, a[..], 0)
  {
    var result := "";
    var lastPos: nat := 0;
    assert a[0..] == a[..];
    for k := 0 to a.Length
      invariant Chained(a[k..], lastPos, |line|)
      invariant result + Render(line, a[k..], lastPos) == Render(line, a[..], 0)
    {
      var r := a[k];
      assert a[k..][0] == r && a[k..][1..] == a[k + 1..];
      RenderHead(line, a[k..], lastPos, result);
      result := result + line[lastPos..r.start];
      result := result + r.text;
      lastPos := r.end;
    }
    out := result + line[lastPos..];
  }

  /** The highlighter's procedure for one line, equal to `Highlight`. */
  method HighlightLine(line: string, configs: seq<WordConfig>, caseSensitive: bool, wholeWord: bool) returns (out: string)
    requires NonEmptyKeys(configs)
    ensures out == Highlight(line, configs, caseSensitive, wholeWord)
  {
    if |configs| == 0 {
      return line;
    }
    var searchLine := line;
    if !caseSensitive {
      searchLine := Lower(line);
    }
    assert searchLine == SearchLine(line, caseSensitive);
    var colored := new bool[|line|](_ => false);
    assert colored[..] == Blank(|line|);
    var reps: seq<Replacement> := [];
    for ci := 0 to |configs|
      invariant ScanState(colored[..], reps) == ScanConfigs(line, searchLine, configs[..ci], wholeWord)
    {
      assert configs[..ci + 1][..ci] == configs[..ci];
      reps := ScanRule(line, searchLine, configs[ci], wholeWord, colored, reps);
    }
    assert configs[..|configs|] == configs;
    if |reps| == 0 {
      return line;
    }
    var a := new Replacement[|reps|](k requires 0 <= k < |reps| => reps[k]);
    assert a[..] == reps;
    ExchangeSort(a);
    SortedSpansChained(line, configs, caseSensitive, wholeWord);
    out := Build(line, a);
  }

  // ---------------------------------------------------------------------------
  // What the output is

  /** A line in which no rule's key occurs (in particular any line, with no rules) comes out unchanged. */
  lemma NoHitPassthrough(line: string, configs: seq<WordConfig>, caseSensitive: bool, wholeWord: bool)
    requires NonEmptyKeys(configs)
    requires forall j, i :: 0 <= j < |configs| ==> !OccursAt(SearchLine(line, caseSensitive), configs[j].search, i)
    ensures Highlight(line, configs, caseSensitive, wholeWord) == line
  {
    if ScanConfigs(line, SearchLine(line, caseSensitive), configs, wholeWord).reps != [] {
      SpanHasHit(line, configs, caseSensitive, wholeWord);
      assert false;
    }
  }

  /** When the scan accepts a span, some rule's key occurs in the searched line. */
  lemma SpanHasHit(line: string, configs: seq<WordConfig>, caseSensitive: bool, wholeWord: bool)
    requires NonEmptyKeys(configs)
    requires ScanConfigs(line, SearchLine(line, caseSensitive), configs, wholeWord).reps != []
    ensures exists j, i :: 0 <= j < |configs| && OccursAt(SearchLine(line, caseSensitive), configs[j].search, i)
  {
    var sl := SearchLine(line, caseSensitive);
    var reps := ScanConfigs(line, sl, configs, wholeWord).reps;
    ScanConfigsOrigin(line, sl, configs, wholeWord);
    var j :| 0 <= j < |configs| && IsCandidate(line, sl, configs[j], wholeWord, reps[0]);
    assert OccursAt(sl, configs[j].search, reps[0].start);
  }

  /**
   Every sorted span is the candidate of some rule for a hit of its key, so
   its text is the matched bytes painted in that rule's colour.
   */
  lemma SortedSpansFromRules(line: string, configs: seq<WordConfig>, caseSensitive: bool, wholeWord: bool)
    requires NonEmptyKeys(configs)
    ensures FromRules(line, SearchLine(line, caseSensitive), configs, wholeWord, SortedSpans(line, configs, caseSensitive, wholeWord))
  {
    var sl := SearchLine(line, caseSensitive);
    var reps := ScanConfigs(line, sl, configs, wholeWord).reps;
    var rs := SortedSpans(line, configs, caseSensitive, wholeWord);
    ExchangeSortedSpec(reps);
    ScanConfigsOrigin(line, sl, configs, wholeWord);
    forall k | 0 <= k < |rs|
      ensures exists j :: 0 <= j < |configs| && IsCandidate(line, sl, configs[j], wholeWord, rs[k])
    {
      assert rs[k] in multiset(reps);
      var m :| 0 <= m < |reps| && reps[m] == rs[k];
    }
  }

  /** The output is the line with the sorted spans replaced by their texts. */
  lemma HighlightRenders(line: string, configs: seq<WordConfig>, caseSensitive: bool, wholeWord: bool)
    requires NonEmptyKeys(configs)
    ensures Chained(SortedSpans(line, configs, caseSensitive, wholeWord), 0, |line|)
    ensures Highlight(line, configs, caseSensitive, wholeWord) == Render(line, SortedSpans(line, configs, caseSensitive, wholeWord), 0)
  {
    SortedSpansChained(line, configs, caseSensitive, wholeWord);
    if ScanConfigs(line, SearchLine(line, caseSensitive), configs, wholeWord).reps == [] {
      assert SortedSpans(line, configs, caseSensitive, wholeWord) == [];
    }
  }

  /**
   Nothing but the spans changes: with the texts of the sorted spans put back
   to the bytes they cover, the same construction gives the line again.
   */
  lemma HighlightKeepsRest(line: string, configs: seq<WordConfig>, caseSensitive: bool, wholeWord: bool)
    requires NonEmptyKeys(configs)
    ensures var rs := SortedSpans(line, configs, caseSensitive, wholeWord);
      && Spans(rs, |line|)
      && Chained(Unpainted(line, rs), 0, |line|)
      && Render(line, Unpainted(line, rs), 0) == line
  {
    SortedSpansChained(line, configs, caseSensitive, wholeWord);
    RenderUnpainted(line, SortedSpans(line, configs, caseSensitive, wholeWord), 0);
  }

  /** A key that occurs exactly once gives exactly one span: the candidate of that hit. */
  lemma SingleScan(line: string, sl: string, cfg: WordConfig, wholeWord: bool, idx: nat)
    requires |sl| == |line| && cfg.search != ""
    requires OccursAt(sl, cfg.search, idx)
    requires forall i :: OccursAt(sl, cfg.search, i) ==> i == idx
    ensures ScanConfigs(line, sl, [cfg], wholeWord).reps == [Candidate(line, cfg, wholeWord, idx)]
  {
    var key := cfg.search;
    var st0 := ScanState(Blank(|line|), []);
    assert [cfg][..0] == [];
    assert ScanConfigs(line, sl, [cfg], wholeWord) == ScanWord(line, sl, cfg, wholeWord, 0, st0);
    assert sl[0..] == sl;
    assert Index(sl[0..], key) == idx;
    assert ScanWord(line, sl, cfg, wholeWord, 0, st0) == ScanHit(line, sl, cfg, wholeWord, idx, st0);
    var c := Candidate(line, cfg, wholeWord, idx);
    var st1 := Consider(line, cfg, wholeWord, st0, idx);
    assert Free(st0.colored, c.start, c.end);
    assert st1.reps == [c];
    OccursInSuffix(sl, key, idx + 1, Index(sl[idx + 1..], key));
    assert ScanWord(line, sl, cfg, wholeWord, idx + 1, st1) == st1;
  }

  /** When the scan accepts exactly one span, the output is the line with that span replaced by its text. */
  lemma OneSpanOutput(line: string, configs: seq<WordConfig>, caseSensitive: bool, wholeWord: bool, c: Replacement)
    requires NonEmptyKeys(configs) && configs != []
    requires ScanConfigs(line, SearchLine(line, caseSensitive), configs, wholeWord).reps == [c]
    requires c.start <= c.end <= |line|
    ensures Highlight(line, configs, caseSensitive, wholeWord) == line[..c.start] + c.text + line[c.end..]
  {
    assert Pass([c], 0, 1) == [c];
    assert Sweep([c], 1) == [c];
    assert Sweep([c], 0) == Sweep(Pass([c], 0, 1), 1);
    assert SortedSpans(line, configs, caseSensitive, wholeWord) == [c];
    assert [c][1..] == [];
    assert Chained([c], 0, |line|);
    assert Render(line, [c], 0) == line[0..c.start] + c.text + line[c.end..];
  }

  /**
   Single match: with one rule whose key occurs exactly once in the searched
   line, the output is the line with that hit's span painted.
   */
  lemma SingleHit(line: string, cfg: WordConfig, caseSensitive: bool, wholeWord: bool, idx: nat)
    requires cfg.search != ""
    requires OccursAt(SearchLine(line, caseSensitive), cfg.search, idx)
    requires forall i :: OccursAt(SearchLine(line, caseSensitive), cfg.search, i) ==> i == idx
    ensures idx + |cfg.search| <= |line|
    ensures var e := MatchEnd(line, idx, |cfg.search|, wholeWord);
      Highlight(line, [cfg], caseSensitive, wholeWord) == line[..idx] + Paint(cfg.color, line[idx..e]) + line[e..]
  {
    SingleScan(line, SearchLine(line, caseSensitive), cfg, wholeWord, idx);
    OneSpanOutput(line, [cfg], caseSensitive, wholeWord, Candidate(line, cfg, wholeWord, idx));
  }

  // ---------------------------------------------------------------------------
  // Rules with an empty key

  /**
   The search loop of one rule as the source writes it: true when it ends
   because the key is no longer found, false when the next slice of the
   searched line would start past its end (a run-time panic).
   */
  function SearchLoopEnds(searchLine: string, key: string, pos: nat): bool
    decreases |searchLine| + 1 - pos
  {
    if pos > |searchLine| then false
    else
      var i := Index(searchLine[pos..], key);
      if i == -1 then true else SearchLoopEnds(searchLine, key, pos + i + 1)
  }

  /** With a non-empty key the search loop always ends normally. */
  lemma {:induction false} SearchLoopEndsForKey(searchLine: string, key: string, pos: nat)
    requires key != "" && pos <= |searchLine|
    ensures SearchLoopEnds(searchLine, key, pos)
    decreases |searchLine| - pos
  {
    var i := Index(searchLine[pos..], key);
    if i != -1 {
      SearchLoopEndsForKey(searchLine, key, pos + i + 1);
    }
  }

  /** With an empty key every search hits at once, so the loop walks one byte at a time past the end of the line. */
  lemma {:induction false} EmptyKeyPanics(searchLine: string, pos: nat)
    requires pos <= |searchLine| + 1
    ensures !SearchLoopEnds(searchLine, "", pos)
    decreases |searchLine| + 1 - pos
  {
    if pos <= |searchLine| {
      assert OccursAt(searchLine[pos..], "", 0);
      EmptyKeyPanics(searchLine, pos + 1);
    }
  }

  /** An argument starting with "::" gives a rule with an empty word and an empty search key. */
  lemma EmptyWordArg(c: string, caseSensitive: bool)
    ensures var configs := BuildConfigs([Separator + c], caseSensitive);
      |configs| == 1 && configs[0].original == "" && configs[0].search == ""
  {
    SplitHead("", c);
    assert "" + Separator + c == Separator + c;
    BuildConfigsSpec([Separator + c], caseSensitive);
  }

  /** The rules with a non-empty search key, in table order. */
  function NonEmptyRules(configs: seq<WordConfig>): (r: seq<WordConfig>)
    ensures NonEmptyKeys(r)
    ensures forall i :: 0 <= i < |r| ==> r[i] in configs
    ensures forall i :: 0 <= i < |configs| && configs[i].search != "" ==> configs[i] in r
    ensures NonEmptyKeys(configs) ==> r == configs
  {
    if configs == [] then []
    else if configs[0].search == "" then NonEmptyRules(configs[1..])
    else [configs[0]] + NonEmptyRules(configs[1..])
  }

  /** Filtering a table cut in two filters each part: the kept rules stay in table order. */
  lemma {:induction false} NonEmptyRulesAppend(a: seq<WordConfig>, b: seq<WordConfig>)
    ensures NonEmptyRules(a + b) == NonEmptyRules(a) + NonEmptyRules(b)
  {
    if a == [] {
      assert a + b == b;
    } else {
      assert (a + b)[0] == a[0];
      assert (a + b)[1..] == a[1..] + b;
      NonEmptyRulesAppend(a[1..], b);
    }
  }

  /** The highlighter with rules whose key is empty skipped, defined for every table. */
  function HighlightSkipping(line: string, configs: seq<WordConfig>, caseSensitive: bool, wholeWord: bool): (out: string)
    ensures NonEmptyKeys(configs) ==> out == Highlight(line, configs, caseSensitive, wholeWord)
  {
    Highlight(line, NonEmptyRules(configs), caseSensitive, wholeWord)
  }

  /** Words that are all empty highlight nothing: the line comes out unchanged instead of the search loop running off its end. */
  lemma EmptyRulesSkipped(line: string, configs: seq<WordConfig>, caseSensitive: bool, wholeWord: bool)
    requires forall i :: 0 <= i < |configs| ==> configs[i].search == ""
    ensures HighlightSkipping(line, configs, caseSensitive, wholeWord) == line
  {
    NoNonEmptyRules(configs);
  }

  /** A table whose keys are all empty keeps no rule. */
  lemma {:induction false} NoNonEmptyRules(configs: seq<WordConfig>)
    requires forall i :: 0 <= i < |configs| ==> configs[i].search == ""
    ensures NonEmptyRules(configs) == []
  {
    if configs != [] {
      NoNonEmptyRules(configs[1..]);
    }
  }
}
