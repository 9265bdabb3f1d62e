/**
 The scan of one line: every rule's search key is looked for in the searched
 copy of the line (lower-cased unless matching is case-sensitive), rule by rule
 in table order and left to right within a rule, restarting one byte after each
 hit. A hit becomes a candidate span that, in whole-word mode, is stretched
 forward to the next space, tab or newline. A candidate that touches a byte
 already coloured is dropped whole; otherwise its bytes are coloured and it is
 recorded with its painted text.
 */
module Matching {
  import opened Text
  import opened Colors
  import opened WordTable

  /** One accepted span `[start, end)` of the line and the text that replaces it. */
  datatype Replacement = Replacement(start: nat, end: nat, text: string)

  /** The scan's state: which bytes are coloured, and the spans accepted so far, in acceptance order. */
  datatype ScanState = ScanState(colored: seq<bool>, reps: seq<Replacement>)

  /** Every rule has a non-empty search key; the scan only terminates under this condition. */
  predicate NonEmptyKeys(configs: seq<WordConfig>) {
    forall i :: 0 <= i < |configs| ==> configs[i].search != ""
  }

  /** The bytes that end a word in whole-word mode. */
  predicate IsSeparator(c: char) {
    c == ' ' || c == '\n' || c == '\t'
  }

  /** The first space, tab or newline at or after `from`, or the end of the line. */
  function WordEnd(line: string, from: nat): (e: nat)
    requires from <= |line|
    ensures from <= e <= |line|
    ensures e == |line| || IsSeparator(line[e])
    ensures forall p :: from <= p < e ==> !IsSeparator(line[p])
    decreases |line| - from
  {
    if from == |line| || IsSeparator(line[from]) then from else WordEnd(line, from + 1)
  }

  /** The word end is the first separator at or after `from`. */
  lemma {:induction false} WordEndAt(line: string, from: nat, e: nat)
    requires from <= e <= |line|
    requires e == |line| || IsSeparator(line[e])
    requires forall p :: from <= p < e ==> !IsSeparator(line[p])
    ensures WordEnd(line, from) == e
    decreases e - from
  {
    if from < e {
      WordEndAt(line, from + 1, e);
    }
  }

  /** Where the candidate span of a hit of length `n` at `start` ends. */
  function MatchEnd(line: string, start: nat, n: nat, wholeWord: bool): (e: nat)
    requires start + n <= |line|
    ensures start + n <= e <= |line|
  {
    if wholeWord then WordEnd(line, start + n) else start + n
  }

  /** A span's text painted: the colour escape, the text, the reset escape. */
  function Paint(color: string, text: string): string {
    color + text + Reset
  }

  /** No byte of `[s, e)` is coloured yet. */
  predicate Free(colored: seq<bool>, s: nat, e: nat)
    requires s <= e <= |colored|
  {
    forall p :: s <= p < e ==> !colored[p]
  }

  /** The mask with the bytes of `[s, e)` coloured as well. */
  function Mark(colored: seq<bool>, s: nat, e: nat): (m: seq<bool>)
    ensures |m| == |colored|
  {
    seq(|colored|, p requires 0 <= p < |colored| => colored[p] || s <= p < e)
  }

  /** The mask of a line with nothing coloured. */
  function Blank(n: nat): (m: seq<bool>)
    ensures |m| == n
  {
    seq(n, p => false)
  }

  /** The span that rule `cfg` proposes for its hit at `idx`, with its painted text. */
  function Candidate(line: string, cfg: WordConfig, wholeWord: bool, idx: nat): (r: Replacement)
    requires idx + |cfg.search| <= |line|
    ensures r.start == idx && idx + |cfg.search| <= r.end <= |line|
  {
    var e := MatchEnd(line, idx, |cfg.search|, wholeWord);
    Replacement(idx, e, Paint(cfg.color, line[idx..e]))
  }

  /** The candidate of rule `cfg` for its hit at `idx`: accepted when all its bytes are free, dropped otherwise. */
  function Consider(line: string, cfg: WordConfig, wholeWord: bool, st: ScanState, idx: nat): (st': ScanState)
    requires |st.colored| == |line| && idx + |cfg.search| <= |line|
    ensures |st'.colored| == |line|
    ensures st.reps <= st'.reps
  {
    var c := Candidate(line, cfg, wholeWord, idx);
    if Free(st.colored, c.start, c.end) then
      ScanState(Mark(st.colored, c.start, c.end), st.reps + [c])
    else st
  }

  /** The scan for one rule from byte `pos` of the searched line on. */
  function ScanWord(line: string, searchLine: string, cfg: WordConfig, wholeWord: bool, pos: nat, st: ScanState): (st': ScanState)
    requires |searchLine| == |line| && |st.colored| == |line| && pos <= |line| && cfg.search != ""
    ensures |st'.colored| == |line|
    ensures st.reps <= st'.reps
    decreases |line| - pos, 1
  {
    var i := Index(searchLine[pos..], cfg.search);
    if i == -1 then st
    else
      OccursInSuffix(searchLine, cfg.search, pos, i);
      ScanHit(line, searchLine, cfg, wholeWord, pos + i, st)
  }

  /** The scan for one rule at a hit at `idx`: the candidate is considered, and the search resumes one byte later. */
  function ScanHit(line: string, searchLine: string, cfg: WordConfig, wholeWord: bool, idx: nat, st: ScanState): (st': ScanState)
    requires |searchLine| == |line| && |st.colored| == |line| && idx + |cfg.search| <= |line| && cfg.search != ""
    ensures |st'.colored| == |line|
    ensures st.reps <= st'.reps
    decreases |line| - idx, 0
  {
    ScanWord(line, searchLine, cfg, wholeWord, idx + 1, Consider(line, cfg, wholeWord, st, idx))
  }

  /** The state after scanning for the rules of `configs`, in order, from a blank mask. */
  function ScanConfigs(line: string, searchLine: string, configs: seq<WordConfig>, wholeWord: bool): (st: ScanState)
    requires |searchLine| == |line| && NonEmptyKeys(configs)
    ensures |st.colored| == |line|
  {
    if configs == [] then ScanState(Blank(|line|), [])
    else
      var n := |configs| - 1;
      ScanWord(line, searchLine, configs[n], wholeWord, 0, ScanConfigs(line, searchLine, configs[..n], wholeWord))
  }

  // ---------------------------------------------------------------------------
  // The invariant of the mask and the accepted spans

  /** Two spans share no byte. */
  predicate Disjoint(a: Replacement, b: Replacement) {
    a.end <= b.start || b.end <= a.start
  }

  /** A span and `[s, e)` share a byte. */
  predicate Overlaps(r: Replacement, s: nat, e: nat) {
    r.start < e && s < r.end
  }

  /** Byte `p` lies in one of the spans. */
  predicate Covers(reps: seq<Replacement>, p: nat) {
    exists k :: 0 <= k < |reps| && reps[k].start <= p < reps[k].end
  }

  /** Each span is a non-empty piece of a line of length `n`, and no two spans share a byte. */
  predicate Spans(reps: seq<Replacement>, n: nat) {
    && (forall k :: 0 <= k < |reps| ==> reps[k].start < reps[k].end <= n)
    && (forall k, l :: 0 <= k < l < |reps| ==> Disjoint(reps[k], reps[l]))
  }

  /** The mask of a line of length `n` with exactly the bytes of the spans coloured, painted span by span. */
  function CoverMask(reps: seq<Replacement>, n: nat): (m: seq<bool>)
    ensures |m| == n
  {
    if reps == [] then Blank(n)
    else
      var k := |reps| - 1;
      Mark(CoverMask(reps[..k], n), reps[k].start, reps[k].end)
  }

  /** A byte is coloured in the cover mask exactly when a span covers it. */
  lemma {:induction false} CoverMaskCovers(reps: seq<Replacement>, n: nat, p: nat)
    requires p < n
    ensures CoverMask(reps, n)[p] <==> Covers(reps, p)
  {
    if reps != [] {
      var k := |reps| - 1;
      CoverMaskCovers(reps[..k], n, p);
      if Covers(reps[..k], p) {
        var j :| 0 <= j < k && reps[..k][j].start <= p < reps[..k][j].end;
        assert reps[j] == reps[..k][j];
      }
      if Covers(reps, p) && !(reps[k].start <= p < reps[k].end) {
        var j :| 0 <= j < |reps| && reps[j].start <= p < reps[j].end;
        assert reps[..k][j] == reps[j];
      }
    }
  }

  /** The mask and the spans agree: the spans are disjoint pieces of the line, and the mask is their cover. */
  predicate Consistent(line: string, st: ScanState) {
    && Spans(st.reps, |line|)
    && st.colored == CoverMask(st.reps, |line|)
  }

  /** When the mask and the spans agree, a byte is coloured exactly when a span covers it. */
  lemma ConsistentCovers(line: string, st: ScanState, p: nat)
    requires Consistent(line, st) && p < |line|
    ensures p < |st.colored| && (st.colored[p] <==> Covers(st.reps, p))
  {
    CoverMaskCovers(st.reps, |line|, p);
  }

  /** Considering a candidate keeps the mask and the spans in agreement. */
  lemma ConsiderConsistent(line: string, cfg: WordConfig, wholeWord: bool, st: ScanState, idx: nat)
    requires Consistent(line, st) && idx + |cfg.search| <= |line| && cfg.search != ""
    ensures Consistent(line, Consider(line, cfg, wholeWord, st, idx))
  {
    var r := Candidate(line, cfg, wholeWord, idx);
    var e := r.end;
    if Free(st.colored, idx, e) {
      var reps' := st.reps + [r];
      forall k | 0 <= k < |st.reps|
        ensures Disjoint(st.reps[k], r)
      {
        var q := st.reps[k];
        var p := if q.start < idx then idx else q.start;
        if p < q.end && p < e {
          ConsistentCovers(line, st, p);
          assert Covers(st.reps, p);
        }
      }
      assert reps'[..|st.reps|] == st.reps;
      assert CoverMask(reps', |line|) == Mark(st.colored, idx, e);
    }
  }

  /** The scan for one rule from `pos` goes on at the first hit from `pos` on, when there is one. */
  lemma ScanWordHit(line: string, searchLine: string, cfg: WordConfig, wholeWord: bool, pos: nat, st: ScanState) returns (h: nat)
    requires |searchLine| == |line| && |st.colored| == |line| && pos <= |line| && cfg.search != ""
    requires Index(searchLine[pos..], cfg.search) != -1
    ensures h == pos + Index(searchLine[pos..], cfg.search) && OccursAt(searchLine, cfg.search, h)
    ensures ScanWord(line, searchLine, cfg, wholeWord, pos, st) == ScanHit(line, searchLine, cfg, wholeWord, h, st)
  {
    h := HitAhead(searchLine, cfg.search, pos);
    ScanWordAtHit(line, searchLine, cfg, wholeWord, pos, st, h);
  }

  /** The scan for one rule from `pos` ends there when the key does not occur from `pos` on. */
  lemma ScanWordMiss(line: string, searchLine: string, cfg: WordConfig, wholeWord: bool, pos: nat, st: ScanState)
    requires |searchLine| == |line| && |st.colored| == |line| && pos <= |line| && cfg.search != ""
    requires Index(searchLine[pos..], cfg.search) == -1
    ensures ScanWord(line, searchLine, cfg, wholeWord, pos, st) == st
  {
  }

  /** The scan for one rule from `pos` over `st` ends where the scan from `next` over `st'` ends. */
  predicate Resumes(line: string, searchLine: string, cfg: WordConfig, wholeWord: bool, pos: nat, st: ScanState, next: nat, st': ScanState)
    requires |searchLine| == |line| && |st.colored| == |line| && |st'.colored| == |line| && pos <= |line| && next <= |line| && cfg.search != ""
  {
    ScanWord(line, searchLine, cfg, wholeWord, pos, st) == ScanWord(line, searchLine, cfg, wholeWord, next, st')
  }

  /** The scan for one rule from `pos`, whose first hit lies `i` bytes ahead, considers that hit and resumes one byte after it. */
  lemma ScanWordTake(line: string, searchLine: string, cfg: WordConfig, wholeWord: bool, pos: nat, i: int, idx: nat, st: ScanState)
    requires |searchLine| == |line| && |st.colored| == |line| && pos <= |line| && cfg.search != ""
    requires i == Index(searchLine[pos..], cfg.search) && i != -1 && idx == i + pos
    ensures idx + |cfg.search| <= |line|
    ensures Resumes(line, searchLine, cfg, wholeWord, pos, st, idx + 1, Consider(line, cfg, wholeWord, st, idx))
  {
    var h := HitAhead(searchLine, cfg.search, pos);
    ScanWordAtHit(line, searchLine, cfg, wholeWord, pos, st, h);
    var st' := ScanHitStep(line, searchLine, cfg, wholeWord, h, st);
  }

  /** The first hit at or after `pos`, as an index into the whole searched line. */
  lemma HitAhead(searchLine: string, key: string, pos: nat) returns (h: nat)
    requires pos <= |searchLine| && Index(searchLine[pos..], key) != -1
    ensures h == pos + Index(searchLine[pos..], key) && OccursAt(searchLine, key, h)
  {
    var i := Index(searchLine[pos..], key);
    OccursFromSuffix(searchLine, key, pos, i);
    h := pos + i;
  }

  /** The scan from `pos` goes straight to its first hit `h`. */
  lemma ScanWordAtHit(line: string, searchLine: string, cfg: WordConfig, wholeWord: bool, pos: nat, st: ScanState, h: nat)
    requires |searchLine| == |line| && |st.colored| == |line| && pos <= |line| && cfg.search != ""
    requires Index(searchLine[pos..], cfg.search) != -1
    requires h == pos + Index(searchLine[pos..], cfg.search) && OccursAt(searchLine, cfg.search, h)
    ensures ScanWord(line, searchLine, cfg, wholeWord, pos, st) == ScanHit(line, searchLine, cfg, wholeWord, h, st)
  {
  }


  /** One hit of the scan for one rule: the span list grows by at most the hit's candidate, and the scan resumes one byte later. */
  lemma ScanHitStep(line: string, searchLine: string, cfg: WordConfig, wholeWord: bool, h: nat, st: ScanState) returns (st': ScanState)
    requires |searchLine| == |line| && |st.colored| == |line| && h + |cfg.search| <= |line| && cfg.search != ""
    ensures |st'.colored| == |line|
    ensures st'.reps == st.reps || st'.reps == st.reps + [Candidate(line, cfg, wholeWord, h)]
    ensures ScanHit(line, searchLine, cfg, wholeWord, h, st) == ScanWord(line, searchLine, cfg, wholeWord, h + 1, st')
  {
    st' := Consider(line, cfg, wholeWord, st, h);
  }

  /** A hit of the scan for one rule over agreeing mask and spans: they still agree afterwards, the hit is settled, and the scan resumes one byte later. */
  lemma ScanHitSettles(line: string, searchLine: string, cfg: WordConfig, wholeWord: bool, h: nat, st: ScanState) returns (st': ScanState)
    requires |searchLine| == |line| && h + |cfg.search| <= |line| && cfg.search != "" && Consistent(line, st)
    ensures Consistent(line, st') && Settled(line, cfg, wholeWord, h, st.reps, st'.reps)
    ensures st'.reps == st.reps || st'.reps == st.reps + [Candidate(line, cfg, wholeWord, h)]
    ensures ScanHit(line, searchLine, cfg, wholeWord, h, st) == ScanWord(line, searchLine, cfg, wholeWord, h + 1, st')
  {
    ConsiderConsistent(line, cfg, wholeWord, st, h);
    ConsiderSettles(line, cfg, wholeWord, st, h);
    st' := Consider(line, cfg, wholeWord, st, h);
  }

  /** `mid` extends `before` by at most one span, starting at `h`. */
  predicate GrowsAt(before: seq<Replacement>, mid: seq<Replacement>, h: nat) {
    before <= mid && |mid| <= |before| + 1 && (|mid| > |before| ==> mid[|before|].start == h)
  }

  /** The scan for one rule from `pos`, when a hit lies ahead: the first hit `h` is considered, and the scan resumes at `h + 1`. */
  lemma ScanWordNext(line: string, searchLine: string, cfg: WordConfig, wholeWord: bool, pos: nat, st: ScanState) returns (h: nat, st': ScanState)
    requires |searchLine| == |line| && |st.colored| == |line| && pos <= |line| && cfg.search != ""
    requires Index(searchLine[pos..], cfg.search) != -1
    ensures h == pos + Index(searchLine[pos..], cfg.search) && OccursAt(searchLine, cfg.search, h)
    ensures |st'.colored| == |line|
    ensures st.reps <= st'.reps && NewCandidates(line, searchLine, cfg, wholeWord, st'.reps, |st.reps|, pos)
    ensures ScanWord(line, searchLine, cfg, wholeWord, pos, st) == ScanWord(line, searchLine, cfg, wholeWord, h + 1, st')
  {
    h := ScanWordHit(line, searchLine, cfg, wholeWord, pos, st);
    st' := ScanHitStep(line, searchLine, cfg, wholeWord, h, st);
    HitOrigin(line, searchLine, cfg, wholeWord, st.reps, st'.reps, h, pos);
  }

  /** The same step over agreeing mask and spans: they still agree afterwards. */
  lemma ScanWordNextConsistent(line: string, searchLine: string, cfg: WordConfig, wholeWord: bool, pos: nat, st: ScanState) returns (h: nat, st': ScanState)
    requires |searchLine| == |line| && pos <= |line| && cfg.search != "" && Consistent(line, st)
    requires Index(searchLine[pos..], cfg.search) != -1
    ensures h == pos + Index(searchLine[pos..], cfg.search) && OccursAt(searchLine, cfg.search, h)
    ensures Consistent(line, st') && GrowsAt(st.reps, st'.reps, h)
    ensures ScanWord(line, searchLine, cfg, wholeWord, pos, st) == ScanWord(line, searchLine, cfg, wholeWord, h + 1, st')
  {
    h := ScanWordHit(line, searchLine, cfg, wholeWord, pos, st);
    st' := ScanHitSettles(line, searchLine, cfg, wholeWord, h, st);
  }

  /** The scan for one rule keeps the mask and the spans in agreement. */
  lemma {:induction false} ScanWordConsistent(line: string, searchLine: string, cfg: WordConfig, wholeWord: bool, pos: nat, st: ScanState)
    requires |searchLine| == |line| && pos <= |line| && cfg.search != "" && Consistent(line, st)
    ensures Consistent(line, ScanWord(line, searchLine, cfg, wholeWord, pos, st))
    decreases |line| - pos
  {
    if Index(searchLine[pos..], cfg.search) != -1 {
      var h, st' := ScanWordNextConsistent(line, searchLine, cfg, wholeWord, pos, st);
      ScanWordConsistent(line, searchLine, cfg, wholeWord, h + 1, st');
    }
  }

  /** After the whole scan the mask and the accepted spans agree, and the spans are pairwise disjoint. */
  lemma {:induction false} ScanConfigsConsistent(line: string, searchLine: string, configs: seq<WordConfig>, wholeWord: bool)
    requires |searchLine| == |line| && NonEmptyKeys(configs)
    ensures Consistent(line, ScanConfigs(line, searchLine, configs, wholeWord))
  {
    if configs != [] {
      var n := |configs| - 1;
      ScanConfigsConsistent(line, searchLine, configs[..n], wholeWord);
      ScanWordConsistent(line, searchLine, configs[n], wholeWord, 0, ScanConfigs(line, searchLine, configs[..n], wholeWord));
    }
  }

  // ---------------------------------------------------------------------------
  // Where the accepted spans come from

  /** `r` is the candidate that rule `cfg` proposes for a hit of its key at `r.start`. */
  predicate IsCandidate(line: string, searchLine: string, cfg: WordConfig, wholeWord: bool, r: Replacement) {
    && |searchLine| == |line|
    && OccursAt(searchLine, cfg.search, r.start)
    && r == Candidate(line, cfg, wholeWord, r.start)
  }

  /** The spans of `reps` from index `from` on are candidates of rule `cfg` for hits at or after `pos`. */
  predicate NewCandidates(line: string, searchLine: string, cfg: WordConfig, wholeWord: bool, reps: seq<Replacement>, from: nat, pos: nat) {
    forall k :: from <= k < |reps| ==> IsCandidate(line, searchLine, cfg, wholeWord, reps[k]) && pos <= reps[k].start
  }

  /** A hit at or after `pos` that adds at most its own candidate adds only new candidates. */
  lemma HitOrigin(line: string, searchLine: string, cfg: WordConfig, wholeWord: bool, before: seq<Replacement>, mid: seq<Replacement>, h: nat, pos: nat)
    requires |searchLine| == |line| && pos <= h && OccursAt(searchLine, cfg.search, h)
    requires mid == before || mid == before + [Candidate(line, cfg, wholeWord, h)]
    ensures NewCandidates(line, searchLine, cfg, wholeWord, mid, |before|, pos)
  {
  }

  /** New candidates after `from` up to `mid`, and after `mid`, are new candidates after `from`. */
  lemma NewCandidatesJoin(line: string, searchLine: string, cfg: WordConfig, wholeWord: bool, mid: seq<Replacement>, reps: seq<Replacement>, from: nat, pos: nat, pos': nat)
    requires mid <= reps && from <= |mid| && pos <= pos'
    requires NewCandidates(line, searchLine, cfg, wholeWord, mid, from, pos)
    requires NewCandidates(line, searchLine, cfg, wholeWord, reps, |mid|, pos')
    ensures NewCandidates(line, searchLine, cfg, wholeWord, reps, from, pos)
  {
    forall k | from <= k < |mid|
      ensures reps[k] == mid[k]
    {
    }
  }

  /** Every span the scan for one rule adds is that rule's candidate for a hit at or after `pos`. */
  lemma {:induction false} ScanWordOrigin(line: string, searchLine: string, cfg: WordConfig, wholeWord: bool, pos: nat, st: ScanState)
    requires |searchLine| == |line| && |st.colored| == |line| && pos <= |line| && cfg.search != ""
    ensures NewCandidates(line, searchLine, cfg, wholeWord, ScanWord(line, searchLine, cfg, wholeWord, pos, st).reps, |st.reps|, pos)
    decreases |line| - pos, 1
  {
    if Index(searchLine[pos..], cfg.search) != -1 {
      ScanWordOriginHit(line, searchLine, cfg, wholeWord, pos, st);
    }
  }

  /** The same when a hit lies ahead: the spans of the first hit, then those of the scan after it. */
  lemma {:induction false} ScanWordOriginHit(line: string, searchLine: string, cfg: WordConfig, wholeWord: bool, pos: nat, st: ScanState)
    requires |searchLine| == |line| && |st.colored| == |line| && pos <= |line| && cfg.search != ""
    requires Index(searchLine[pos..], cfg.search) != -1
    ensures NewCandidates(line, searchLine, cfg, wholeWord, ScanWord(line, searchLine, cfg, wholeWord, pos, st).reps, |st.reps|, pos)
    decreases |line| - pos, 0
  {
    var h, mid := ScanWordNext(line, searchLine, cfg, wholeWord, pos, st);
    ScanWordOrigin(line, searchLine, cfg, wholeWord, h + 1, mid);
    NewCandidatesJoin(line, searchLine, cfg, wholeWord, mid.reps, ScanWord(line, searchLine, cfg, wholeWord, h + 1, mid).reps, |st.reps|, pos, h + 1);
  }

  /** Every span of `reps` is the candidate of some rule of `configs`. */
  predicate FromRules(line: string, searchLine: string, configs: seq<WordConfig>, wholeWord: bool, reps: seq<Replacement>) {
    forall k :: 0 <= k < |reps| ==>
      exists j :: 0 <= j < |configs| && IsCandidate(line, searchLine, configs[j], wholeWord, reps[k])
  }

  /** Every accepted span is the candidate of some rule of the table for a hit of its key. */
  lemma {:induction false} ScanConfigsOrigin(line: string, searchLine: string, configs: seq<WordConfig>, wholeWord: bool)
    requires |searchLine| == |line| && NonEmptyKeys(configs)
    ensures FromRules(line, searchLine, configs, wholeWord, ScanConfigs(line, searchLine, configs, wholeWord).reps)
  {
    if configs != [] {
      var n := |configs| - 1;
      var before := ScanConfigs(line, searchLine, configs[..n], wholeWord);
      ScanConfigsOrigin(line, searchLine, configs[..n], wholeWord);
      ScanWordOrigin(line, searchLine, configs[n], wholeWord, 0, before);
      var st := ScanConfigs(line, searchLine, configs, wholeWord);
      assert st == ScanWord(line, searchLine, configs[n], wholeWord, 0, before);
      forall k | 0 <= k < |st.reps|
        ensures exists j :: 0 <= j < |configs| && IsCandidate(line, searchLine, configs[j], wholeWord, st.reps[k])
      {
        if k < |before.reps| {
          var j :| 0 <= j < |configs[..n]| && IsCandidate(line, searchLine, configs[..n][j], wholeWord, before.reps[k]);
          assert configs[..n][j] == configs[j];
          assert st.reps[k] == before.reps[k];
        } else {
          assert IsCandidate(line, searchLine, configs[n], wholeWord, st.reps[k]);
        }
      }
    }
  }

  // ---------------------------------------------------------------------------
  // Which candidates win

  /**
   The candidate of rule `cfg` for its hit at `idx` was either accepted, or
   dropped because it touches a span accepted before it: one already in
   `before` when the rule's scan began, or one of the same rule at an earlier hit.
   */
  predicate Settled(line: string, cfg: WordConfig, wholeWord: bool, idx: nat, before: seq<Replacement>, reps: seq<Replacement>)
    requires idx + |cfg.search| <= |line|
  {
    var c := Candidate(line, cfg, wholeWord, idx);
    c in reps ||
    exists k :: 0 <= k < |reps| && Overlaps(reps[k], c.start, c.end) && (k < |before| || reps[k].start < idx)
  }

  /** Extending the accepted spans keeps a settled candidate settled. */
  lemma SettledGrows(line: string, cfg: WordConfig, wholeWord: bool, idx: nat, before: seq<Replacement>, reps: seq<Replacement>, reps': seq<Replacement>)
    requires idx + |cfg.search| <= |line| && reps <= reps'
    requires Settled(line, cfg, wholeWord, idx, before, reps)
    ensures Settled(line, cfg, wholeWord, idx, before, reps')
  {
    var c := Candidate(line, cfg, wholeWord, idx);
    if c in reps {
      var k :| 0 <= k < |reps| && reps[k] == c;
      assert reps'[k] == c;
    } else {
      var k :| 0 <= k < |reps| && Overlaps(reps[k], c.start, c.end) && (k < |before| || reps[k].start < idx);
      assert reps'[k] == reps[k];
    }
  }

  /** Considering a candidate settles it. */
  lemma ConsiderSettles(line: string, cfg: WordConfig, wholeWord: bool, st: ScanState, h: nat)
    requires Consistent(line, st) && h + |cfg.search| <= |line| && cfg.search != ""
    ensures Settled(line, cfg, wholeWord, h, st.reps, Consider(line, cfg, wholeWord, st, h).reps)
  {
    var c := Candidate(line, cfg, wholeWord, h);
    var mid := Consider(line, cfg, wholeWord, st, h);
    if Free(st.colored, h, c.end) {
      assert mid.reps[|st.reps|] == c;
    } else {
      var p :| h <= p < c.end && st.colored[p];
      ConsistentCovers(line, st, p);
      var k :| 0 <= k < |st.reps| && st.reps[k].start <= p < st.reps[k].end;
      assert mid.reps[k] == st.reps[k];
    }
  }

  /** A hit after `h` settled against the spans after considering `h` is settled against the spans before it. */
  lemma SettledAfterHit(line: string, cfg: WordConfig, wholeWord: bool, before: seq<Replacement>, mid: seq<Replacement>, h: nat, idx: nat, reps: seq<Replacement>)
    requires h < idx && idx + |cfg.search| <= |line| && h + |cfg.search| <= |line|
    requires GrowsAt(before, mid, h)
    requires Settled(line, cfg, wholeWord, idx, mid, reps) && mid <= reps
    ensures Settled(line, cfg, wholeWord, idx, before, reps)
  {
    var c' := Candidate(line, cfg, wholeWord, idx);
    if c' !in reps {
      var k :| 0 <= k < |reps| && Overlaps(reps[k], c'.start, c'.end) && (k < |mid| || reps[k].start < idx);
      if |before| <= k < |mid| {
        assert reps[k] == mid[k];
      }
    }
  }

  /** The same step settles the hit. */
  lemma ScanWordNextSettled(line: string, searchLine: string, cfg: WordConfig, wholeWord: bool, pos: nat, st: ScanState) returns (h: nat, st': ScanState)
    requires |searchLine| == |line| && pos <= |line| && cfg.search != "" && Consistent(line, st)
    requires Index(searchLine[pos..], cfg.search) != -1
    ensures h == pos + Index(searchLine[pos..], cfg.search) && h + |cfg.search| <= |line|
    ensures |st'.colored| == |line| && Settled(line, cfg, wholeWord, h, st.reps, st'.reps)
    ensures ScanWord(line, searchLine, cfg, wholeWord, pos, st) == ScanWord(line, searchLine, cfg, wholeWord, h + 1, st')
  {
    h := ScanWordHit(line, searchLine, cfg, wholeWord, pos, st);
    st' := ScanHitSettles(line, searchLine, cfg, wholeWord, h, st);
  }

  /** The scan for one rule from `pos` settles the first hit from `pos` on. */
  lemma ScanWordSettlesFirst(line: string, searchLine: string, cfg: WordConfig, wholeWord: bool, pos: nat, st: ScanState)
    requires |searchLine| == |line| && pos <= |line| && cfg.search != "" && Consistent(line, st)
    requires Index(searchLine[pos..], cfg.search) != -1
    ensures pos + Index(searchLine[pos..], cfg.search) + |cfg.search| <= |line|
    ensures Settled(line, cfg, wholeWord, pos + Index(searchLine[pos..], cfg.search), st.reps, ScanWord(line, searchLine, cfg, wholeWord, pos, st).reps)
  {
    var h, st' := ScanWordNextSettled(line, searchLine, cfg, wholeWord, pos, st);
    SettledGrows(line, cfg, wholeWord, h, st.reps, st'.reps, ScanWord(line, searchLine, cfg, wholeWord, h + 1, st').reps);
  }

  /** A search from `pos` finds a hit, at or before any occurrence at or after `pos`. */
  lemma FirstHitBefore(s: string, k: string, pos: nat, idx: nat)
    requires pos <= idx && OccursAt(s, k, idx)
    ensures Index(s[pos..], k) != -1 && pos + Index(s[pos..], k) <= idx
  {
    OccursInSuffix(s, k, pos, idx - pos);
  }

  /** The scan for one rule settles every hit of its key at or after `pos`. */
  lemma {:induction false} ScanWordSettles(line: string, searchLine: string, cfg: WordConfig, wholeWord: bool, pos: nat, st: ScanState, idx: nat)
    requires |searchLine| == |line| && pos <= |line| && cfg.search != "" && Consistent(line, st)
    requires pos <= idx && OccursAt(searchLine, cfg.search, idx)
    ensures Settled(line, cfg, wholeWord, idx, st.reps, ScanWord(line, searchLine, cfg, wholeWord, pos, st).reps)
    decreases |line| - pos, 1
  {
    FirstHitBefore(searchLine, cfg.search, pos, idx);
    if pos + Index(searchLine[pos..], cfg.search) == idx {
      ScanWordSettlesFirst(line, searchLine, cfg, wholeWord, pos, st);
    } else {
      ScanWordSettlesLater(line, searchLine, cfg, wholeWord, pos, st, idx);
    }
  }

  /** A hit after the first hit from `pos` on is settled by the scan from one byte after that first hit. */
  lemma {:induction false} ScanWordSettlesLater(line: string, searchLine: string, cfg: WordConfig, wholeWord: bool, pos: nat, st: ScanState, idx: nat)
    requires |searchLine| == |line| && pos <= |line| && cfg.search != "" && Consistent(line, st)
    requires OccursAt(searchLine, cfg.search, idx)
    requires Index(searchLine[pos..], cfg.search) != -1 && pos + Index(searchLine[pos..], cfg.search) < idx
    ensures Settled(line, cfg, wholeWord, idx, st.reps, ScanWord(line, searchLine, cfg, wholeWord, pos, st).reps)
    decreases |line| - pos, 0
  {
    var h, st' := ScanWordNextConsistent(line, searchLine, cfg, wholeWord, pos, st);
    ScanWordSettlesAfter(line, searchLine, cfg, wholeWord, h, st.reps, st', idx);
  }

  /** After a hit `h` before `idx`, the rest of the scan settles `idx` relative to the spans before the hit. */
  lemma {:induction false} ScanWordSettlesAfter(line: string, searchLine: string, cfg: WordConfig, wholeWord: bool, h: nat, before: seq<Replacement>, st': ScanState, idx: nat)
    requires |searchLine| == |line| && h < idx && cfg.search != "" && Consistent(line, st')
    requires OccursAt(searchLine, cfg.search, idx) && h + |cfg.search| <= |line|
    requires GrowsAt(before, st'.reps, h)
    ensures Settled(line, cfg, wholeWord, idx, before, ScanWord(line, searchLine, cfg, wholeWord, h + 1, st').reps)
    decreases |line| - (h + 1), 2
  {
    ScanWordSettles(line, searchLine, cfg, wholeWord, h + 1, st', idx);
    SettledAfterHit(line, cfg, wholeWord, before, st'.reps, h, idx, ScanWord(line, searchLine, cfg, wholeWord, h + 1, st').reps);
  }

  /** The scans of the first rules are a prefix of the whole scan: later rules never displace earlier spans. */
  lemma {:induction false} ScanConfigsPrefix(line: string, searchLine: string, configs: seq<WordConfig>, wholeWord: bool, j: nat)
    requires |searchLine| == |line| && NonEmptyKeys(configs) && j <= |configs|
    ensures ScanConfigs(line, searchLine, configs[..j], wholeWord).reps <= ScanConfigs(line, searchLine, configs, wholeWord).reps
    decreases |configs| - j
  {
    if j < |configs| {
      var n := |configs| - 1;
      assert configs[..n][..j] == configs[..j];
      ScanConfigsPrefix(line, searchLine, configs[..n], wholeWord, j);
      assert configs == configs[..n] + [configs[n]];
    } else {
      assert configs[..j] == configs;
    }
  }

  /**
   Priority: every hit of every rule's key is either accepted whole, or
   dropped because its candidate touches a span accepted earlier: one of an
   earlier rule, or one of the same rule at an earlier hit. The spans of the
   rules up to rule `j` are a prefix of the final spans, so later rules
   never take the place of what was accepted.
   */
  lemma ScanConfigsSettles(line: string, searchLine: string, configs: seq<WordConfig>, wholeWord: bool, j: nat, idx: nat)
    requires |searchLine| == |line| && NonEmptyKeys(configs) && j < |configs|
    requires OccursAt(searchLine, configs[j].search, idx)
    ensures Settled(line, configs[j], wholeWord, idx,
      ScanConfigs(line, searchLine, configs[..j], wholeWord).reps,
      ScanConfigs(line, searchLine, configs[..j + 1], wholeWord).reps)
    ensures ScanConfigs(line, searchLine, configs[..j + 1], wholeWord).reps <= ScanConfigs(line, searchLine, configs, wholeWord).reps
    ensures Settled(line, configs[j], wholeWord, idx,
      ScanConfigs(line, searchLine, configs[..j], wholeWord).reps,
      ScanConfigs(line, searchLine, configs, wholeWord).reps)
  {
    var before := ScanConfigs(line, searchLine, configs[..j], wholeWord);
    var after := ScanConfigs(line, searchLine, configs[..j + 1], wholeWord);
    assert configs[..j + 1][..j] == configs[..j];
    assert after == ScanWord(line, searchLine, configs[j], wholeWord, 0, before);
    ScanConfigsConsistent(line, searchLine, configs[..j], wholeWord);
    ScanWordSettles(line, searchLine, configs[j], wholeWord, 0, before, idx);
    ScanConfigsPrefix(line, searchLine, configs, wholeWord, j + 1);
    SettledGrows(line, configs[j], wholeWord, idx, before.reps, after.reps, ScanConfigs(line, searchLine, configs, wholeWord).reps);
  }
}
