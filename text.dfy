/**
 Byte-string helpers used by the highlighter: the Option wrapper, ASCII
 lower-casing, substring search (the behaviour of Go's strings.Index), splitting
 on the "::" separator (Go's strings.Split with a non-empty separator) and
 decimal formatting (the %d verb). A `char` stands for one byte of a Go string.
 */
module Text {

  datatype Option<+T> = None | Some(value: T)

  // ---------------------------------------------------------------------------
  // Lower-casing

  /** ASCII lower-casing of one byte; every other byte is left alone. */
  function LowerChar(c: char): char {
    if 'A' <= c <= 'Z' then (c as int + 32) as char else c
  }

  /** Byte-for-byte lower-casing: the length never changes. */
  function Lower(s: string): (r: string)
    ensures |r| == |s|
    ensures forall i :: 0 <= i < |s| ==> r[i] == LowerChar(s[i])
  {
    if s == [] then [] else [LowerChar(s[0])] + Lower(s[1..])
  }

  // ---------------------------------------------------------------------------
  // Substring search

  /** `k` occurs in `s` starting at byte `i`. */
  predicate OccursAt(s: string, k: string, i: int) {
    0 <= i && i + |k| <= |s| && s[i..i + |k|] == k
  }

  /**
   The index of the first occurrence of `k` in `s`, or -1 when there is none
   (an empty `k` occurs at 0).
   */
  function Index(s: string, k: string): (r: int)
    ensures r == -1 || OccursAt(s, k, r)
    ensures r == -1 ==> forall i :: 0 <= i <= |s| ==> !OccursAt(s, k, i)
    ensures r != -1 ==> forall i :: 0 <= i < r ==> !OccursAt(s, k, i)
    decreases |s|
  {
    if OccursAt(s, k, 0) then 0
    else if s == [] then -1
    else
      var j := Index(s[1..], k);
      OccursInTail(s, k);
      if j == -1 then -1 else j + 1
  }

  lemma OccursInTail(s: string, k: string)
    requires s != []
    ensures forall i :: 0 < i <= |s| ==> (OccursAt(s, k, i) <==> OccursAt(s[1..], k, i - 1))
  {
    forall i | 0 < i <= |s|
      ensures OccursAt(s, k, i) <==> OccursAt(s[1..], k, i - 1)
    {
      OccursInSuffix(s, k, 1, i - 1);
    }
  }

  /** Searching a suffix finds the occurrences of the whole string, shifted. */
  lemma OccursInSuffix(s: string, k: string, pos: nat, j: int)
    requires pos <= |s|
    ensures OccursAt(s[pos..], k, j) <==> (0 <= j && OccursAt(s, k, pos + j))
  {
    if 0 <= j && j + |k| <= |s| - pos {
      assert s[pos..][j..j + |k|] == s[pos + j..pos + j + |k|];
    }
  }

  /** An occurrence found in a suffix is an occurrence in the whole string, shifted. */
  lemma OccursFromSuffix(s: string, k: string, pos: nat, j: int)
    requires pos <= |s| && OccursAt(s[pos..], k, j)
    ensures OccursAt(s, k, pos + j)
  {
    OccursInSuffix(s, k, pos, j);
  }

  // ---------------------------------------------------------------------------
  // Splitting on "::"

  const Separator: string := "::"

  /**
   The parts of `s` between the occurrences of "::", found left to right
   without overlap, as strings.Split does; a string without "::" is one part.
   */
  function Split(s: string): (parts: seq<string>)
    ensures |parts| >= 1
    decreases |s|
  {
    var i := Index(s, Separator);
    if i == -1 then [s] else [s[..i]] + Split(s[i + 2..])
  }

  /** The inverse of Split: the parts glued back together with "::". */
  function Join(parts: seq<string>): (s: string)
    requires |parts| >= 1
  {
    if |parts| == 1 then parts[0] else parts[0] + Separator + Join(parts[1..])
  }

  /** Joining the parts gives back the argument. */
  lemma {:induction false} SplitJoin(s: string)
    ensures Join(Split(s)) == s
    decreases |s|
  {
    var i := Index(s, Separator);
    if i != -1 {
      SplitJoin(s[i + 2..]);
      SplitAtFirst(s);
      JoinCons(s[..i], Split(s[i + 2..]));
    }
  }

  /** A string with "::" in it is cut at the first one. */
  lemma SplitAtFirst(s: string)
    requires Index(s, Separator) != -1
    ensures var i := Index(s, Separator);
      && Split(s) == [s[..i]] + Split(s[i + 2..])
      && s == s[..i] + Separator + s[i + 2..]
  {
    OccursSplit(s, Separator, Index(s, Separator));
  }

  /** A string is the part before an occurrence, the occurrence and the part after it. */
  lemma OccursSplit(s: string, k: string, i: int)
    requires OccursAt(s, k, i)
    ensures s == s[..i] + k + s[i + |k|..]
  {
    assert s == s[..i] + s[i..i + |k|] + s[i + |k|..];
  }

  /** Joining a part in front of more parts puts "::" between them. */
  lemma JoinCons(p: string, rest: seq<string>)
    requires |rest| >= 1
    ensures Join([p] + rest) == p + Separator + Join(rest)
  {
    assert ([p] + rest)[1..] == rest;
  }

  /** A prefix ending before the first occurrence of `k` holds no occurrence of `k`. */
  lemma PrefixBeforeFirst(s: string, k: string, i: nat)
    requires i <= |s|
    requires forall j :: 0 <= j < i ==> !OccursAt(s, k, j)
    ensures Index(s[..i], k) == -1 || |k| == 0
  {
    var r := Index(s[..i], k);
    if r != -1 && |k| > 0 {
      OccursInPrefix(s, k, i, r);
    }
  }

  /** An occurrence inside a prefix is an occurrence in the whole string. */
  lemma OccursInPrefix(s: string, k: string, i: nat, r: int)
    requires i <= |s| && OccursAt(s[..i], k, r)
    ensures OccursAt(s, k, r) && r + |k| <= i
  {
    assert s[..i][r..r + |k|] == s[r..r + |k|];
  }

  /** No part that Split returns holds "::". */
  lemma {:induction false} SplitPartsFree(s: string)
    ensures forall p :: p in Split(s) ==> Index(p, Separator) == -1
    decreases |s|
  {
    var i := Index(s, Separator);
    if i != -1 {
      SplitPartsFree(s[i + 2..]);
      PrefixBeforeFirst(s, Separator, i);
    }
  }

  /** A string without ':' holds no "::". */
  predicate NoColon(s: string) {
    forall i :: 0 <= i < |s| ==> s[i] != ':'
  }

  /** A string without ':' is a single part. */
  lemma SplitNoColon(s: string)
    requires NoColon(s)
    ensures Index(s, Separator) == -1 && Split(s) == [s]
  {
    forall i | 0 <= i <= |s|
      ensures !OccursAt(s, Separator, i)
    {
      if i + 2 <= |s| {
        assert s[i..i + 2][0] == s[i];
      }
    }
  }

  /**
   A first part in which "::" occurs nowhere, not even across its last byte and
   the separator's first ':', is cut off at the first "::" and the rest is split
   on its own.
   */
  lemma SplitHead(w: string, rest: string)
    requires Index(w + ":", Separator) == -1
    ensures Split(w + Separator + rest) == [w] + Split(rest)
  {
    var s := w + Separator + rest;
    var p := w + ":";
    assert s[..|w| + 1] == p;
    assert s[|w|..|w| + 2] == Separator;
    assert OccursAt(s, Separator, |w|);
    forall i | 0 <= i < |w|
      ensures !OccursAt(s, Separator, i)
    {
      assert s[i..i + 2] == p[i..i + 2];
      assert !OccursAt(p, Separator, i);
    }
    assert Index(s, Separator) == |w|;
    assert s[..|w|] == w;
    assert s[|w| + 2..] == rest;
  }

  /** A string without upper-case ASCII letters is its own lower-cased copy. */
  lemma LowerNoUpper(s: string)
    requires forall i :: 0 <= i < |s| ==> !('A' <= s[i] <= 'Z')
    ensures Lower(s) == s
  {
  }

  // ---------------------------------------------------------------------------
  // Decimal numbers

  predicate IsDigit(c: char) { '0' <= c <= '9' }

  function DigitChar(d: nat): (c: char)
    requires d < 10
    ensures IsDigit(c)
  {
    ('0' as int + d) as char
  }

  function DigitValue(c: char): (d: nat)
    requires IsDigit(c)
    ensures d < 10
  {
    c as int - '0' as int
  }

  /** The decimal form of `n` without leading zeros, as Go's %d prints it. */
  function Decimal(n: nat): (r: string)
    ensures |r| > 0
    ensures forall i :: 0 <= i < |r| ==> IsDigit(r[i])
    ensures |r| > 1 ==> r[0] != '0'
    decreases n
  {
    if n < 10 then [DigitChar(n)] else Decimal(n / 10) + [DigitChar(n % 10)]
  }

  /** Reads a string of decimal digits back into a number. */
  function ParseDecimal(s: string): nat
    requires forall i :: 0 <= i < |s| ==> IsDigit(s[i])
  {
    if s == [] then 0 else ParseDecimal(s[..|s| - 1]) * 10 + DigitValue(s[|s| - 1])
  }

  /** Reading back what Decimal prints gives the number again. */
  lemma {:induction false} DecimalRoundTrip(n: nat)
    ensures ParseDecimal(Decimal(n)) == n
    decreases n
  {
    if n >= 10 {
      DecimalRoundTrip(n / 10);
      var d := Decimal(n);
      assert d[..|d| - 1] == Decimal(n / 10);
    }
  }
}
