/** The worked examples of the highlighter's behaviour, on concrete lines. */
module Examples {
  import opened Text
  import opened Colors
  import opened WordTable
  import opened Matching
  import opened Rendering
  import opened Highlighting

  /** A key whose first byte occurs in `s` only at `j` can only occur at `j`. */
  lemma FirstByteOnlyAt(s: string, k: string, j: nat)
    requires |k| > 0
    requires forall i :: 0 <= i < |s| && s[i] == k[0] ==> i == j
    ensures forall i :: OccursAt(s, k, i) ==> i == j
  {
    forall i | OccursAt(s, k, i)
      ensures i == j
    {
      assert s[i] == s[i..i + |k|][0];
    }
  }

  lemma HelloOnce(line: string)
    requires line == "hello world"
    ensures Lower(line) == line
    ensures OccursAt(line, "world", 6)
    ensures forall i :: OccursAt(line, "world", i) ==> i == 6
  {
    LowerNoUpper(line);
    FirstByteOnlyAt(line, "world", 6);
    assert line[6..11] == "world";
  }

  /** The single-match example: in "hello world" only "world" is painted. */
  lemma HelloWorld(line: string, c: string)
    requires line == "hello world"
    ensures Highlight(line, [WordConfig("world", "world", c)], false, false) == "hello " + c + "world" + Reset
  {
    HelloOnce(line);
    SingleHit(line, WordConfig("world", "world", c), false, false, 6);
    assert line[..6] == "hello " && line[6..11] == "world" && line[11..] == "";
  }

  /** "::" does not start anywhere in `10:30` followed by ':', so `10:30` is a word of its own before "::". */
  lemma TimeWordHead()
    ensures HeadWord("10:30")
  {
    var p := "10:30" + ":";
    forall i | 0 <= i <= |p|
      ensures !OccursAt(p, Separator, i)
    {
      if i + 2 <= |p| {
        assert p[i..i + 2] == [p[i], p[i + 1]];
      }
    }
  }

  /** A word may hold single colons: `10:30::red` asks for "10:30" in red. */
  lemma ColonWordNamed()
    ensures ReadArg("10:30::red") == Request("10:30", NamedCodes[0])
  {
    var w, arg := "10:30", "10:30::red";
    assert arg == w + Separator + "red";
    TimeWordHead();
    RedNameLower();
    ReadNamedArg(w, "red", 0);
  }

  /** `10:30::` asks for "10:30" with no colour. */
  lemma ColonWordNoColor()
    ensures ReadArg("10:30::") == Request("10:30", "")
  {
    var w, arg := "10:30", "10:30::";
    assert arg == w + Separator;
    TimeWordHead();
    ReadEmptyColorArg(w);
  }

  lemma BackupOnce(line: string)
    requires line == "backup_13344.zip started"
    ensures Lower(line) == line
    ensures OccursAt(line, "back", 0)
    ensures forall i :: OccursAt(line, "back", i) ==> i == 0
    ensures WordEnd(line, 4) == 16
  {
    BackupLower(line);
    BackupHits(line);
    BackupWordEnd(line);
  }

  lemma BackupLower(line: string)
    requires line == "backup_13344.zip started"
    ensures Lower(line) == line
  {
    LowerNoUpper(line);
  }

  lemma BackupHits(line: string)
    requires line == "backup_13344.zip started"
    ensures OccursAt(line, "back", 0)
    ensures forall i :: OccursAt(line, "back", i) ==> i == 0
  {
    FirstByteOnlyAt(line, "back", 0);
    assert line[0..4] == "back";
  }

  lemma BackupWordEnd(line: string)
    requires line == "backup_13344.zip started"
    ensures WordEnd(line, 4) == 16
  {
    assert IsSeparator(line[16]);
    assert forall p :: 4 <= p < 16 ==> !IsSeparator(line[p]);
    WordEndAt(line, 4, 16);
  }

  /** The whole-word example: the hit "back" is stretched forward to the whole token before the space. */
  lemma WholeWordBackup(line: string, c: string)
    requires line == "backup_13344.zip started"
    ensures Highlight(line, [WordConfig("back", "back", c)], false, true) == Paint(c, "backup_13344.zip") + " started"
  {
    BackupOnce(line);
    var cfg := WordConfig("back", "back", c);
    SingleHit(line, cfg, false, true, 0);
    assert MatchEnd(line, 0, |cfg.search|, true) == 16;
    PaintFromStart(line, c, 16);
    BackupParts(line);
  }

  /** A span painted from the first byte leaves nothing before it. */
  lemma PaintFromStart(line: string, c: string, e: nat)
    requires e <= |line|
    ensures line[..0] + Paint(c, line[0..e]) + line[e..] == Paint(c, line[..e]) + line[e..]
  {
    assert line[..0] == [] && line[0..e] == line[..e];
  }

  lemma BackupParts(line: string)
    requires line == "backup_13344.zip started"
    ensures line[..16] == "backup_13344.zip" && line[16..] == " started"
  {
  }

  lemma OverlapOnce(line: string)
    requires line == "xabcx"
    ensures Lower(line) == line
    ensures OccursAt(line, "ab", 1) && OccursAt(line, "bc", 2)
    ensures forall i :: OccursAt(line, "ab", i) ==> i == 1
    ensures forall i :: OccursAt(line, "bc", i) ==> i == 2
  {
    LowerNoUpper(line);
    FirstByteOnlyAt(line, "ab", 1);
    FirstByteOnlyAt(line, "bc", 2);
    assert line[1..3] == "ab" && line[2..4] == "bc";
  }

  /**
   Declaration order wins: "ab" claims the "b" first, so the hit of the later
   rule "bc" on the same byte is dropped whole.
   */
  lemma RuleOrderExample(line: string, c1: string, c2: string)
    requires line == "xabcx"
    ensures Highlight(line, [WordConfig("ab", "ab", c1), WordConfig("bc", "bc", c2)], false, false) == "x" + Paint(c1, "ab") + "cx"
  {
    OverlapOnce(line);
    var ab := WordConfig("ab", "ab", c1);
    var bc := WordConfig("bc", "bc", c2);
    var configs := [ab, bc];
    assert SearchLine(line, false) == line;
    SingleScan(line, line, ab, false, 1);
    assert configs[..1] == [ab];
    var st1 := ScanConfigs(line, line, [ab], false);
    ScanConfigsConsistent(line, line, [ab], false);
    var r := Candidate(line, ab, false, 1);
    assert st1.reps == [r];
    assert st1.colored[2] by {
      assert r.start == 1 && r.end == 3 && st1.reps[0] == r;
      assert Covers(st1.reps, 2);
      ConsistentCovers(line, st1, 2);
    }
    assert ScanConfigs(line, line, configs, false) == ScanWord(line, line, bc, false, 0, st1);
    assert line[0..] == line;
    assert ScanWord(line, line, bc, false, 0, st1) == ScanHit(line, line, bc, false, 2, st1);
    assert Consider(line, bc, false, st1, 2) == st1;
    OccursInSuffix(line, "bc", 3, Index(line[3..], "bc"));
    assert ScanWord(line, line, bc, false, 3, st1) == st1;
    OneSpanOutput(line, configs, false, false, r);
    assert line[..1] == "x" && line[1..3] == "ab" && line[3..] == "cx";
  }
}
