/**
 The word table: each `word` or `word::color` argument becomes one rule holding
 the word as typed, the key to search for and the escape to paint it with.
 Palette entries named by a valid explicit colour anywhere in the arguments are
 reserved first; the other arguments then draw the unreserved entries in
 palette order.
 */
module WordTable {
  import opened Text
  import opened Colors

  /** One highlight rule. */
  datatype WordConfig = WordConfig(original: string, search: string, color: string)

  // ---------------------------------------------------------------------------
  // Reading one argument

  /** The word: the part of the argument before the first "::". */
  function Word(arg: string): (w: string)
    ensures |w| <= |arg| && w == arg[..|w|]
    ensures w == arg <==> Index(arg, Separator) == -1
  {
    Split(arg)[0]
  }

  /** The colour token: present when the argument splits into exactly two parts and the second is not empty. */
  function ColorToken(arg: string): (token: Option<string>)
    ensures token.Some? ==> token.value != "" && Index(token.value, Separator) == -1
    ensures token.Some? ==> arg == Word(arg) + Separator + token.value
  {
    var parts := Split(arg);
    SplitJoin(arg);
    SplitPartsFree(arg);
    if |parts| == 2 && parts[1] != "" then
      assert parts[1..] == [parts[1]];
      Some(parts[1])
    else None
  }

  /** The escape the argument asks for, or "" when it names no colour or an invalid one. */
  function ExplicitColor(arg: string): string {
    match ColorToken(arg)
    case None => ""
    case Some(token) => ParseColor(token)
  }

  /** The key searched for: the word itself, or its lower-cased copy. */
  function SearchKey(word: string, caseSensitive: bool): string {
    if caseSensitive then word else Lower(word)
  }

  /** What one argument asks for: its word, and the escape of its valid explicit colour or "". */
  datatype Request = Request(word: string, color: string)

  function ReadArg(arg: string): Request {
    Request(Word(arg), ExplicitColor(arg))
  }

  /** What each argument asks for, in order. */
  function ReadArgs(args: seq<string>): (reqs: seq<Request>)
    ensures |reqs| == |args|
  {
    if args == [] then [] else [ReadArg(args[0])] + ReadArgs(args[1..])
  }

  /** The `j`-th request is what the `j`-th argument asks for. */
  lemma {:induction false} ReadArgsAt(args: seq<string>, j: nat)
    requires j < |args|
    ensures ReadArgs(args)[j] == ReadArg(args[j])
  {
    if j > 0 {
      ReadArgsAt(args[1..], j - 1);
    }
  }

  /** An argument without "::" is a bare word and asks for no colour. */
  lemma ReadPlainArg(w: string)
    requires Index(w, Separator) == -1
    ensures ReadArg(w) == Request(w, "")
  {
  }

  /**
   The condition under which `w` is the word of `w::…`: "::" occurs nowhere in
   `w`, not even across its last byte and the separator's first ':'.
   */
  predicate HeadWord(w: string) {
    Index(w + ":", Separator) == -1
  }

  /** `word::` with an empty colour part asks for no colour. */
  lemma ReadEmptyColorArg(w: string)
    requires HeadWord(w)
    ensures ReadArg(w + Separator) == Request(w, "")
  {
    SplitHead(w, "");
    assert w + Separator == w + Separator + "";
  }

  /** `word::name` with a palette name in any letter case asks for that entry's escape. */
  lemma ReadNamedArg(w: string, c: string, i: nat)
    requires HeadWord(w)
    requires i < PaletteSize && Lower(c) == PresetOrder[i]
    ensures ReadArg(w + Separator + c) == Request(w, NamedCodes[i])
  {
    SplitHead(w, c);
    PresetNameNoColon(c, i);
    SplitNoColon(c);
    ParseColorNamed(c, i);
  }

  /** No palette name holds ':'. */
  lemma PresetNamesNoColon(i: nat)
    requires i < PaletteSize
    ensures NoColon(PresetOrder[i])
  {
    var name := PresetOrder[i];
    assert name == "red" || name == "green" || name == "orange" || name == "blue" || name == "pink" || name == "purple";
  }

  /** A token that lower-cases to a palette name holds no ':'. */
  lemma PresetNameNoColon(c: string, i: nat)
    requires i < PaletteSize && Lower(c) == PresetOrder[i]
    ensures NoColon(c)
  {
    PresetNamesNoColon(i);
    forall k | 0 <= k < |c|
      ensures c[k] != ':'
    {
      assert Lower(c)[k] == LowerChar(c[k]);
    }
  }

  /**
   `word::token` with a token parseColor rejects asks for no colour; so does a
   token holding a further "::", whose argument has three parts.
   */
  lemma ReadRejectedColorArg(w: string, c: string)
    requires HeadWord(w) && c != ""
    requires Lower(c) !in PresetOrder && |TrimHash(c)| != 6
    ensures ReadArg(w + Separator + c) == Request(w, "")
  {
    SplitHead(w, c);
    if Index(c, Separator) == -1 {
      assert Split(c) == [c];
      ParseColorUnnamed(c);
    } else {
      SplitMore(c);
      ExplicitColorAbsent(w + Separator + c);
    }
  }

  /** An argument with a second "::" has more than two parts, so its colour is ignored. */
  lemma ReadExtraSeparatorArg(w: string, x: string, c: string)
    requires HeadWord(w)
    ensures ReadArg(w + Separator + x + Separator + c) == Request(w, "")
  {
    ExtraSeparatorParts(w, x, c);
    ExplicitColorAbsent(w + Separator + x + Separator + c);
  }

  /** The parts of `w::x::c`: `w`, then at least two more. */
  lemma ExtraSeparatorParts(w: string, x: string, c: string)
    requires HeadWord(w)
    ensures var parts := Split(w + Separator + x + Separator + c);
      |parts| > 2 && parts[0] == w
  {
    var rest := x + Separator + c;
    assert w + Separator + x + Separator + c == w + Separator + rest;
    SplitHead(w, rest);
    assert rest[|x|..|x| + 2] == Separator;
    assert OccursAt(rest, Separator, |x|);
    SplitMore(rest);
  }

  /** A string holding "::" splits into at least two parts. */
  lemma SplitMore(s: string)
    requires Index(s, Separator) != -1
    ensures |Split(s)| >= 2
  {
  }

  /** Without a colour token the argument asks for no colour. */
  lemma ExplicitColorAbsent(arg: string)
    requires |Split(arg)| != 2
    ensures ExplicitColor(arg) == ""
  {
  }

  // ---------------------------------------------------------------------------
  // Handing out palette colours

  /** The palette slot that a valid explicit colour claims, as a set of at most one slot. */
  function Claims(code: string): set<nat> {
    if code == "" then {}
    else match SlotOf(code)
      case None => {}
      case Some(i) => {i}
  }

  /** The slot an explicit colour claims is the palette entry with that escape. */
  lemma ClaimsExactly(code: string)
    ensures forall i: nat :: i in Claims(code) <==> i < PaletteSize && code == NamedCodes[i]
  {
    forall i: nat | i < PaletteSize && code == NamedCodes[i]
      ensures i in Claims(code)
    {
      SlotOfNamedCode(i);
    }
  }

  /** The slots reserved by the first pass over the arguments. */
  function Reserved(reqs: seq<Request>): set<nat> {
    if reqs == [] then {} else Reserved(reqs[..|reqs| - 1]) + Claims(reqs[|reqs| - 1].color)
  }

  /** Some argument names palette entry `i` by a valid explicit colour. */
  predicate SomeRequestNames(reqs: seq<Request>, i: nat)
    requires i < PaletteSize
  {
    exists j :: 0 <= j < |reqs| && reqs[j].color == NamedCodes[i]
  }

  /**
   A palette slot is reserved exactly when some argument, wherever it stands,
   names that entry's colour explicitly and validly.
   */
  lemma {:induction false} ReservedExactly(reqs: seq<Request>)
    ensures forall i: nat :: i in Reserved(reqs) <==> i < PaletteSize && SomeRequestNames(reqs, i)
  {
    if reqs != [] {
      var init, last := reqs[..|reqs| - 1], reqs[|reqs| - 1];
      ReservedExactly(init);
      ClaimsExactly(last.color);
      forall i: nat | i < PaletteSize
        ensures SomeRequestNames(reqs, i) <==> SomeRequestNames(init, i) || last.color == NamedCodes[i]
      {
        if SomeRequestNames(init, i) {
          var j :| 0 <= j < |init| && init[j].color == NamedCodes[i];
          assert reqs[j] == init[j];
        }
        if SomeRequestNames(reqs, i) {
          var j :| 0 <= j < |reqs| && reqs[j].color == NamedCodes[i];
          if j < |init| {
            assert reqs[j] == init[j];
          }
        }
      }
    }
  }

  /** The first slot at or after `from`, in palette order, that is not in `used`; PaletteSize when there is none. */
  function FirstFree(used: set<nat>, from: nat): (i: nat)
    requires from <= PaletteSize
    ensures from <= i <= PaletteSize
    ensures i < PaletteSize ==> i !in used
    ensures forall j :: from <= j < i ==> j in used
    decreases PaletteSize - from
  {
    if from == PaletteSize || from !in used then from else FirstFree(used, from + 1)
  }

  /**
   The colour handed to an argument without a usable explicit colour, and the
   slots in use afterwards: the first unused palette entry, now marked used;
   when all six are used, red, with nothing marked.
   */
  function NextAvailable(used: set<nat>): (r: (string, set<nat>))
    ensures used <= r.1
  {
    var i := FirstFree(used, 0);
    if i < PaletteSize then (NamedCodes[i], used + {i}) else (NamedCodes[0], used)
  }

  /** The unclaimed palette slots at or after `from`, in palette order. */
  function FreeFrom(used: set<nat>, from: nat): (free: seq<nat>)
    requires from <= PaletteSize
    ensures forall k :: 0 <= k < |free| ==> from <= free[k] < PaletteSize && free[k] !in used
    decreases PaletteSize - from
  {
    if from == PaletteSize then []
    else if from in used then FreeFrom(used, from + 1)
    else [from] + FreeFrom(used, from + 1)
  }

  /** The unclaimed palette slots, in the order in which they are handed out. */
  function FreeSlots(used: set<nat>): seq<nat> {
    FreeFrom(used, 0)
  }

  /** The free list starts at the first free slot. */
  lemma {:induction false} FreeFromHead(used: set<nat>, from: nat)
    requires from <= PaletteSize
    ensures var f := FirstFree(used, from);
      FreeFrom(used, from) == if f == PaletteSize then [] else [f] + FreeFrom(used, f + 1)
    decreases PaletteSize - from
  {
    if from < PaletteSize && from in used {
      FreeFromHead(used, from + 1);
    }
  }

  /** Claiming a slot before `from` does not change the free list from `from` on. */
  lemma {:induction false} FreeFromIgnores(used: set<nat>, x: nat, from: nat)
    requires x < from <= PaletteSize
    ensures FreeFrom(used + {x}, from) == FreeFrom(used, from)
    decreases PaletteSize - from
  {
    if from < PaletteSize {
      FreeFromIgnores(used, x, from + 1);
    }
  }

  /** Claiming the first free slot at or after `from` drops it from the free list. */
  lemma {:induction false} FreeFromClaim(used: set<nat>, from: nat)
    requires from <= PaletteSize
    requires FirstFree(used, from) < PaletteSize
    ensures var f := FirstFree(used, from);
      FreeFrom(used + {f}, from) == FreeFrom(used, f + 1)
    decreases PaletteSize - from
  {
    var f := FirstFree(used, from);
    if from == f {
      FreeFromIgnores(used, f, f + 1);
    } else {
      FreeFromClaim(used, from + 1);
    }
  }

  /**
   Handing out an auto colour takes the head of the free list and leaves its
   tail; with nothing free it gives red and leaves the list empty.
   */
  lemma NextAvailableFree(used: set<nat>)
    ensures var (code, used') := NextAvailable(used);
      var free := FreeSlots(used);
      if free == [] then code == NamedCodes[0] && used' == used
      else code == NamedCodes[free[0]] && used' == used + {free[0]} && FreeSlots(used') == free[1..]
  {
    FreeFromHead(used, 0);
    if FirstFree(used, 0) < PaletteSize {
      FreeFromClaim(used, 0);
    }
  }

  /** The lowest unclaimed palette slot is handed out and becomes claimed; nothing else changes. */
  lemma NextAvailableFirst(used: set<nat>, i: nat)
    requires i < PaletteSize && i !in used
    requires forall j :: 0 <= j < i ==> j in used
    ensures NextAvailable(used) == (NamedCodes[i], used + {i})
  {
    assert FirstFree(used, 0) == i;
  }

  /** With all six slots claimed, red is handed out and the claimed slots stay as they are. */
  lemma NextAvailableAllUsed(used: set<nat>)
    requires forall j :: 0 <= j < PaletteSize ==> j in used
    ensures NextAvailable(used) == (NamedCodes[0], used)
  {
    assert FirstFree(used, 0) == PaletteSize;
  }

  /** Slot `i` is in the free list from `from` exactly when it is an unclaimed palette slot at or after `from`. */
  lemma {:induction false} FreeFromExactly(used: set<nat>, from: nat, i: nat)
    requires from <= PaletteSize
    ensures i in FreeFrom(used, from) <==> from <= i < PaletteSize && i !in used
    decreases PaletteSize - from
  {
    if from < PaletteSize {
      FreeFromExactly(used, from + 1, i);
      var rest := FreeFrom(used, from + 1);
      if from !in used {
        assert FreeFrom(used, from) == [from] + rest;
      }
    }
  }

  /** The free list is in strictly ascending palette order. */
  lemma {:induction false} FreeFromAscending(used: set<nat>, from: nat)
    requires from <= PaletteSize
    ensures var free := FreeFrom(used, from);
      forall p, q :: 0 <= p < q < |free| ==> free[p] < free[q]
    decreases PaletteSize - from
  {
    if from < PaletteSize {
      FreeFromAscending(used, from + 1);
      FreeFromStep(used, from);
    }
  }

  /** The set of claimed palette slots, which the source keeps in a map updated in place. */
  class ColorPool {
    var used: set<nat>

    constructor ()
      ensures used == {}
    {
      used := {};
    }

    /** Marks one slot as claimed. */
    method Claim(slot: nat)
      modifies this
      ensures used == old(used) + {slot}
    {
      used := used + {slot};
    }

    /** Hands out the first unclaimed palette colour and claims it; red once all are claimed. */
    method NextAvailableColor() returns (code: string)
      modifies this
      ensures (code, used) == NextAvailable(old(used))
    {
      var i := 0;
      while i < PaletteSize
        invariant 0 <= i <= PaletteSize
        invariant used == old(used)
        invariant forall j :: 0 <= j < i ==> j in used
      {
        if i !in used {
          used := used + {i};
          return NamedCodes[i];
        }
        i := i + 1;
      }
      code := NamedCodes[0];
    }
  }

  // ---------------------------------------------------------------------------
  // Building the table

  /** The colour of one argument in the second pass, and the slots in use afterwards. */
  function ColorFor(req: Request, used: set<nat>): (string, set<nat>) {
    if req.color != "" then (req.color, used) else NextAvailable(used)
  }

  /** The second pass: one rule per argument, in order, starting from the claimed slots `used`. */
  function Assign(reqs: seq<Request>, used: set<nat>, caseSensitive: bool): (configs: seq<WordConfig>)
    ensures |configs| == |reqs|
  {
    if reqs == [] then []
    else
      var choice := ColorFor(reqs[0], used);
      [WordConfig(reqs[0].word, SearchKey(reqs[0].word, caseSensitive), choice.0)]
        + Assign(reqs[1..], choice.1, caseSensitive)
  }

  /** The second pass on a non-empty list: the first rule, then the pass over the rest from the slots in use afterwards. */
  lemma AssignCons(reqs: seq<Request>, used: set<nat>, caseSensitive: bool)
    requires reqs != []
    ensures var choice := ColorFor(reqs[0], used);
      Assign(reqs, used, caseSensitive)
        == [WordConfig(reqs[0].word, SearchKey(reqs[0].word, caseSensitive), choice.0)] + Assign(reqs[1..], choice.1, caseSensitive)
  {
  }

  /** The second pass over `reqs[k..]`: the rule for `reqs[k]`, then the pass over the rest. */
  lemma AssignFrom(reqs: seq<Request>, k: nat, used: set<nat>, caseSensitive: bool)
    requires k < |reqs|
    ensures var choice := ColorFor(reqs[k], used);
      Assign(reqs[k..], used, caseSensitive)
        == [WordConfig(reqs[k].word, SearchKey(reqs[k].word, caseSensitive), choice.0)] + Assign(reqs[k + 1..], choice.1, caseSensitive)
  {
    AssignCons(reqs[k..], used, caseSensitive);
    assert reqs[k..][1..] == reqs[k + 1..];
  }

  /** Moving one element from the front of the tail to the end of the head. */
  lemma AppendStep<T>(head: seq<T>, x: T, tail: seq<T>, whole: seq<T>)
    requires [x] + tail == whole
    ensures (head + [x]) + tail == head + whole
  {
  }

  /** The table built from the arguments: the second pass starts from the reserved slots. */
  function BuildConfigs(args: seq<string>, caseSensitive: bool): seq<WordConfig> {
    var reqs := ReadArgs(args);
    Assign(reqs, Reserved(reqs), caseSensitive)
  }

  /** How many of the requests carry no usable explicit colour. */
  function AutoCount(reqs: seq<Request>): nat {
    if reqs == [] then 0 else (if reqs[0].color == "" then 1 else 0) + AutoCount(reqs[1..])
  }

  /** The colour of the `k`-th auto-coloured argument: the `k`-th free slot, or red once none is left. */
  function AutoColor(free: seq<nat>, k: nat): string
    requires forall i :: 0 <= i < |free| ==> free[i] < PaletteSize
  {
    if k < |free| then NamedCodes[free[k]] else NamedCodes[0]
  }

  /** The second pass keeps every argument's word and explicit colour, one rule per argument in order. */
  lemma {:induction false} AssignShape(reqs: seq<Request>, used: set<nat>, caseSensitive: bool)
    ensures var configs := Assign(reqs, used, caseSensitive);
      |configs| == |reqs| &&
      forall j :: 0 <= j < |reqs| ==>
        configs[j].original == reqs[j].word &&
        configs[j].search == SearchKey(reqs[j].word, caseSensitive) &&
        (reqs[j].color != "" ==> configs[j].color == reqs[j].color) &&
        configs[j].color != ""
  {
    if reqs != [] {
      var choice := ColorFor(reqs[0], used);
      var rest := Assign(reqs[1..], choice.1, caseSensitive);
      AssignShape(reqs[1..], choice.1, caseSensitive);
      var configs := Assign(reqs, used, caseSensitive);
      AssignCons(reqs, used, caseSensitive);
      if reqs[0].color == "" {
        NamedCodesNonEmpty();
      }
      forall j | 1 <= j < |reqs|
        ensures configs[j] == rest[j - 1] && reqs[j] == reqs[1..][j - 1]
      {
      }
    }
  }

  /**
   The `k`-th argument without a usable explicit colour, counting from 0,
   gets the `k`-th slot that was free when the second pass began.
   */
  lemma {:induction false} AssignAutoColor(reqs: seq<Request>, used: set<nat>, caseSensitive: bool, j: nat)
    requires j < |reqs| && reqs[j].color == ""
    ensures j < |Assign(reqs, used, caseSensitive)|
    ensures Assign(reqs, used, caseSensitive)[j].color == AutoColor(FreeSlots(used), AutoCount(reqs[..j]))
  {
    if j == 0 {
      assert reqs[..0] == [];
      AssignAutoHead(reqs, used, caseSensitive);
    } else {
      AssignAutoColor(reqs[1..], ColorFor(reqs[0], used).1, caseSensitive, j - 1);
      AssignAutoStep(reqs, used, caseSensitive, j);
    }
  }

  /** The inductive step: the colour of a later auto-coloured rule, read off the pass over the tail. */
  lemma AssignAutoStep(reqs: seq<Request>, used: set<nat>, caseSensitive: bool, j: nat)
    requires 0 < j < |reqs|
    requires var after := ColorFor(reqs[0], used).1;
      Assign(reqs[1..], after, caseSensitive)[j - 1].color == AutoColor(FreeSlots(after), AutoCount(reqs[1..][..j - 1]))
    ensures Assign(reqs, used, caseSensitive)[j].color == AutoColor(FreeSlots(used), AutoCount(reqs[..j]))
  {
    AssignAt(reqs, used, caseSensitive, j);
    AutoColorShift(reqs, used, j);
  }

  /** The free list seen by the pass over the tail, indexed by its own count, gives the colour of the whole pass. */
  lemma AutoColorShift(reqs: seq<Request>, used: set<nat>, j: nat)
    requires 0 < j <= |reqs|
    ensures AutoColor(FreeSlots(ColorFor(reqs[0], used).1), AutoCount(reqs[1..][..j - 1]))
      == AutoColor(FreeSlots(used), AutoCount(reqs[..j]))
  {
    AutoCountSplit(reqs, j);
    AutoColorAfter(reqs[0], used, AutoCount(reqs[1..][..j - 1]), AutoCount(reqs[..j]));
  }

  /** An auto-coloured first argument gets the first free slot. */
  lemma AssignAutoHead(reqs: seq<Request>, used: set<nat>, caseSensitive: bool)
    requires reqs != [] && reqs[0].color == ""
    ensures Assign(reqs, used, caseSensitive)[0].color == AutoColor(FreeSlots(used), 0)
  {
    AssignCons(reqs, used, caseSensitive);
    NextAvailableFree(used);
  }

  /** A later rule of the second pass is the rule of the pass over the tail, from the slots the first argument leaves. */
  lemma AssignAt(reqs: seq<Request>, used: set<nat>, caseSensitive: bool, j: nat)
    requires 0 < j < |reqs|
    ensures Assign(reqs, used, caseSensitive)[j] == Assign(reqs[1..], ColorFor(reqs[0], used).1, caseSensitive)[j - 1]
  {
    AssignCons(reqs, used, caseSensitive);
  }

  /** After an auto-coloured argument the free list has moved on by one slot. */
  lemma AutoColorAfter(req: Request, used: set<nat>, k: nat, n: nat)
    requires n == (if req.color == "" then 1 else 0) + k
    ensures AutoColor(FreeSlots(ColorFor(req, used).1), k) == AutoColor(FreeSlots(used), n)
  {
    if req.color == "" {
      var after := NextAvailable(used).1;
      assert ColorFor(req, used).1 == after;
      NextAvailableFree(used);
      var free := FreeSlots(used);
      if free == [] {
        assert after == used;
      } else {
        assert FreeSlots(after) == free[1..];
        AutoColorTail(free, k);
      }
    } else {
      assert ColorFor(req, used).1 == used;
    }
  }

  /** Dropping the head of a free list shifts the count by one. */
  lemma AutoColorTail(free: seq<nat>, k: nat)
    requires free != [] && forall i :: 0 <= i < |free| ==> free[i] < PaletteSize
    ensures AutoColor(free[1..], k) == AutoColor(free, k + 1)
  {
  }

  /** Counting the auto-coloured arguments of a prefix: the first one, then the rest. */
  lemma AutoCountSplit(reqs: seq<Request>, j: nat)
    requires 0 < j <= |reqs|
    ensures AutoCount(reqs[..j]) == (if reqs[0].color == "" then 1 else 0) + AutoCount(reqs[1..][..j - 1])
  {
    assert reqs[..j][1..] == reqs[1..][..j - 1];
  }

  /**
   The table built from the arguments: one rule per argument, in order, holding
   the word before "::", its search key and either the argument's valid
   explicit colour or, for the `k`-th argument without one, the `k`-th palette
   slot that no explicit colour anywhere in the arguments reserved (red once
   they run out).
   */
  lemma BuildConfigsSpec(args: seq<string>, caseSensitive: bool)
    ensures var reqs := ReadArgs(args);
      var configs := BuildConfigs(args, caseSensitive);
      |configs| == |args| &&
      forall j :: 0 <= j < |args| ==>
        configs[j].original == Word(args[j]) &&
        configs[j].search == SearchKey(Word(args[j]), caseSensitive) &&
        configs[j].color == if reqs[j].color != "" then reqs[j].color
                            else AutoColor(FreeSlots(Reserved(reqs)), AutoCount(reqs[..j]))
  {
    var reqs := ReadArgs(args);
    AssignShape(reqs, Reserved(reqs), caseSensitive);
    forall j | 0 <= j < |args|
      ensures reqs[j] == ReadArg(args[j])
    {
      ReadArgsAt(args, j);
    }
    forall j | 0 <= j < |args| && reqs[j].color == ""
      ensures BuildConfigs(args, caseSensitive)[j].color == AutoColor(FreeSlots(Reserved(reqs)), AutoCount(reqs[..j]))
    {
      AssignAutoColor(reqs, Reserved(reqs), caseSensitive, j);
    }
  }

  /** One step of the free list. */
  lemma FreeFromStep(used: set<nat>, from: nat)
    requires from < PaletteSize
    ensures FreeFrom(used, from) == (if from in used then [] else [from]) + FreeFrom(used, from + 1)
  {
  }

  /** With only red and green claimed, the free list is orange, blue, pink, purple. */
  lemma FreeAfterRedGreen(used: set<nat>)
    requires used == {0, 1}
    ensures FreeSlots(used) == [2, 3, 4, 5]
  {
    FreeFromStep(used, 5);
    assert 5 !in used;
    assert FreeFrom(used, 5) == [5];
    FreeFromStep(used, 4);
    assert 4 !in used;
    assert FreeFrom(used, 4) == [4, 5];
    FreeFromStep(used, 3);
    assert 3 !in used;
    assert FreeFrom(used, 3) == [3, 4, 5];
    FreeFromStep(used, 2);
    assert 2 !in used;
    assert FreeFrom(used, 2) == [2, 3, 4, 5];
    FreeFromStep(used, 1);
    FreeFromStep(used, 0);
  }

  /** Requests coloured red, none, green, none reserve exactly red and green. */
  lemma ExampleReserved(reqs: seq<Request>)
    requires |reqs| == 4 && reqs[0].color == NamedCodes[0] && reqs[1].color == ""
    requires reqs[2].color == NamedCodes[1] && reqs[3].color == ""
    ensures Reserved(reqs) == {0, 1}
  {
    ReservedExactly(reqs);
    NamedCodesDistinct();
    NamedCodesNonEmpty();
    assert 0 in Reserved(reqs);
    assert 1 in Reserved(reqs);
    forall i: nat | i in Reserved(reqs)
      ensures i in {0, 1}
    {
      var j :| 0 <= j < |reqs| && reqs[j].color == NamedCodes[i];
    }
  }

  /**
   Reservation looks ahead: for arguments read as `a::red b c::green d`
   (see ReadNamedArg and ReadPlainArg), green is reserved before `b` is
   coloured, so `b` gets orange and `d` gets blue.
   */
  lemma ReservationExample(reqs: seq<Request>, caseSensitive: bool)
    requires |reqs| == 4 && reqs[0].color == NamedCodes[0] && reqs[1].color == ""
    requires reqs[2].color == NamedCodes[1] && reqs[3].color == ""
    ensures var configs := Assign(reqs, Reserved(reqs), caseSensitive);
      |configs| == 4 &&
      configs[0].color == NamedCodes[0] && configs[1].color == NamedCodes[2] &&
      configs[2].color == NamedCodes[1] && configs[3].color == NamedCodes[3]
  {
    ExampleReserved(reqs);
    var used := Reserved(reqs);
    FreeAfterRedGreen(used);
    AssignShape(reqs, used, caseSensitive);
    AssignAutoColor(reqs, used, caseSensitive, 1);
    AssignAutoColor(reqs, used, caseSensitive, 3);
    assert AutoCount(reqs[..1]) == 0 by { assert reqs[..1] == [reqs[0]]; }
    assert AutoCount(reqs[..3]) == 1 by {
      NamedCodesNonEmpty();
      var p := reqs[..3];
      assert p[1..][1..][1..] == [];
      assert AutoCount(p[1..][1..]) == 0;
      assert AutoCount(p[1..]) == 1;
    }
  }

  /** The requests read from `a b::red`. */
  lemma LookAheadRequests(a: string, b: string)
    requires Index(a, Separator) == -1 && HeadWord(b)
    ensures ReadArgs([a, b + Separator + "red"]) == [Request(a, ""), Request(b, NamedCodes[0])]
  {
    var args := [a, b + Separator + "red"];
    ReadArgsAt(args, 0);
    ReadArgsAt(args, 1);
    ReadPlainArg(a);
    RedNameLower();
    ReadNamedArg(b, "red", 0);
  }

  /** Requests coloured none, red: the first one gets green. */
  lemma LookAheadAssign(reqs: seq<Request>, caseSensitive: bool)
    requires |reqs| == 2 && reqs[0].color == "" && reqs[1].color == NamedCodes[0]
    ensures var configs := Assign(reqs, Reserved(reqs), caseSensitive);
      |configs| == 2 && configs[0].color == NamedCodes[1] && configs[1].color == NamedCodes[0]
  {
    var used := Reserved(reqs);
    assert used == {0} by {
      ReservedExactly(reqs);
      NamedCodesDistinct();
      NamedCodesNonEmpty();
      assert 0 in used;
      forall i: nat | i in used
        ensures i == 0
      {
        var j :| 0 <= j < |reqs| && reqs[j].color == NamedCodes[i];
      }
    }
    assert FreeSlots(used) == [1, 2, 3, 4, 5] by {
      FreeFromStep(used, 5);
      FreeFromStep(used, 4);
      FreeFromStep(used, 3);
      FreeFromStep(used, 2);
      FreeFromStep(used, 1);
      FreeFromStep(used, 0);
    }
    AssignShape(reqs, used, caseSensitive);
    AssignAutoColor(reqs, used, caseSensitive, 0);
    assert reqs[..0] == [];
  }

  /** Look-ahead on the arguments themselves: in `a b::red`, `a` gets green because `b` reserved red. */
  lemma LookAheadExample(a: string, b: string, caseSensitive: bool)
    requires Index(a, Separator) == -1 && HeadWord(b)
    ensures var configs := BuildConfigs([a, b + Separator + "red"], caseSensitive);
      |configs| == 2 && configs[0].color == NamedCodes[1] && configs[1].color == NamedCodes[0]
  {
    LookAheadRequests(a, b);
    LookAheadAssign([Request(a, ""), Request(b, NamedCodes[0])], caseSensitive);
  }

  /** Claims the palette entry that one argument names by a valid explicit colour, if any. */
  method ReserveOne(pool: ColorPool, arg: string)
    modifies pool
    ensures pool.used == old(pool.used) + Claims(ReadArg(arg).color)
  {
    var parts := Split(arg);
    if |parts| == 2 && parts[1] != "" {
      var color := ParseColor(parts[1]);
      if color != "" {
        ClaimNamed(pool, color);
      }
    }
  }

  /** Claims the palette entry whose escape is `color`, when there is one: the search over the named colours. */
  method ClaimNamed(pool: ColorPool, color: string)
    modifies pool
    ensures pool.used == old(pool.used) + Claims(color)
  {
    var i := 0;
    while i < PaletteSize
      invariant 0 <= i <= PaletteSize
      invariant pool.used == old(pool.used)
      invariant forall j :: 0 <= j < i ==> NamedCodes[j] != color
    {
      if color == NamedCodes[i] {
        SlotOfNamedCode(i);
        pool.Claim(i);
        return;
      }
      i := i + 1;
    }
  }

  /** The first pass: claims every palette entry named by a valid explicit colour. */
  method ReserveExplicitColors(pool: ColorPool, args: seq<string>)
    modifies pool
    ensures pool.used == old(pool.used) + Reserved(ReadArgs(args))
  {
    ghost var reqs := ReadArgs(args);
    for k := 0 to |args|
      invariant pool.used == old(pool.used) + Reserved(reqs[..k])
    {
      assert reqs[..k + 1][..k] == reqs[..k];
      ReadArgsAt(args, k);
      ReserveOne(pool, args[k]);
    }
    assert reqs[..|args|] == reqs;
  }

  /**
   The rule for one argument: its word, its search key, and its explicit colour
   or the next free one from the pool; it heads the second pass over the
   argument and the ones after it.
   */
  method ConfigFor(pool: ColorPool, arg: string, caseSensitive: bool, ghost reqs: seq<Request>, ghost k: nat) returns (cfg: WordConfig)
    requires k < |reqs| && reqs[k] == ReadArg(arg)
    modifies pool
    ensures var choice := ColorFor(reqs[k], old(pool.used));
      cfg == WordConfig(reqs[k].word, SearchKey(reqs[k].word, caseSensitive), choice.0) && pool.used == choice.1
    ensures [cfg] + Assign(reqs[k + 1..], pool.used, caseSensitive) == Assign(reqs[k..], old(pool.used), caseSensitive)
  {
    AssignFrom(reqs, k, pool.used, caseSensitive);
    var parts := Split(arg);
    var word := parts[0];
    var color: string;
    if |parts| == 2 && parts[1] != "" {
      color := ParseColor(parts[1]);
      if color == "" {
        color := pool.NextAvailableColor();
      }
    } else {
      color := pool.NextAvailableColor();
    }
    var search := word;
    if !caseSensitive {
      search := Lower(word);
    }
    cfg := WordConfig(word, search, color);
  }

  /** The second pass: one rule per argument, in order, drawing auto colours from the pool. */
  method AssignColors(pool: ColorPool, args: seq<string>, caseSensitive: bool, ghost reqs: seq<Request>) returns (configs: seq<WordConfig>)
    requires |reqs| == |args| && forall k :: 0 <= k < |args| ==> reqs[k] == ReadArg(args[k])
    modifies pool
    ensures configs == Assign(reqs, old(pool.used), caseSensitive)
  {
    configs := [];
    for k := 0 to |args|
      invariant configs + Assign(reqs[k..], pool.used, caseSensitive) == Assign(reqs, old(pool.used), caseSensitive)
    {
      ghost var used := pool.used;
      var cfg := ConfigFor(pool, args[k], caseSensitive, reqs, k);
      AppendStep(configs, cfg, Assign(reqs[k + 1..], pool.used, caseSensitive), Assign(reqs[k..], used, caseSensitive));
      configs := configs + [cfg];
    }
  }

  /** Builds the table: the reservation pass, then the assignment pass. */
  method ParseArgs(args: seq<string>, caseSensitive: bool) returns (configs: seq<WordConfig>)
    ensures configs == BuildConfigs(args, caseSensitive)
  {
    var pool := new ColorPool();
    ReserveExplicitColors(pool, args);
    assert pool.used == Reserved(ReadArgs(args));
    ghost var reqs := ReadArgs(args);
    forall k | 0 <= k < |args|
      ensures reqs[k] == ReadArg(args[k])
    {
      ReadArgsAt(args, k);
    }
    configs := AssignColors(pool, args, caseSensitive, reqs);
  }
}
