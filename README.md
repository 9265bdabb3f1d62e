# ch — a verified model of the line highlighter

`ch` reads lines and paints every occurrence of the words given on its command
line with a 24-bit ANSI foreground colour. Each argument is `word` or
`word::color`. The colour is a palette name (red, green, orange, blue, pink,
purple, in any letter case) or six hex digits with an optional `#`. This
project models the core of `main.go` in Dafny and proves what it does:

- **Colour resolution** (`Colors`): the palette, the escape
  `ESC[38;2;R;G;Bm`, and `parseColor`.
- **The word table** (`WordTable`): `parseArgs` and `getNextAvailableColor`.
  - The first pass reserves every palette entry that some argument names by a
    valid explicit colour.
  - The second pass builds one rule per argument. An argument without a usable
    colour gets the next unreserved palette entry, in palette order, or red
    once none is left.
  - The claimed-colour map is the class `ColorPool`, whose set of slots the
    methods update in place.
- **Line highlighting** (`Matching`, `Rendering`, `Highlighting`):
  `highlightLine`.
  - The line is searched (lower-cased unless case-sensitive) rule by rule,
    restarting one byte after each hit.
  - In whole-word mode a hit is stretched forward to the next space, tab or
    newline.
  - A candidate touching an already coloured byte is dropped whole.
  - The accepted spans are exchange-sorted by start in place. The output is the
    line with each span replaced by `color + text + Reset`.
  - The procedure is written as methods over a `bool` array (the mask) and an
    array of spans (the sort), with loop invariants. It is proved equal to the
    pure specification `Highlight`.

`Text` holds the pieces of Go's standard library that the core uses:
- `strings.Index` (first occurrence, or -1);
- `strings.Split` on `::`;
- ASCII `strings.ToLower`;
- `%d`.

A Dafny `char` stands for one byte of a Go string. `Examples` works through the
concrete examples of the tool's behaviour.

Two behaviours of the code are worth spelling out, because a reader could
expect otherwise:
- **Whole-word mode extends only forward** (main.go:155-159). The `-w` flag is
  described as "extend match to whole word (until space or EOL)"
  (main.go:221): the end of a hit is pushed to the next space, tab or newline,
  and its start never moves back to the beginning of the word.
- **An empty word is not skipped.** `parseArgs` builds a rule with an empty
  search key from an argument such as `::red`. `strings.Index` then finds that
  key at every position, and the search loop advances one byte per hit until
  it slices `searchLine[pos:]` past the end of the line (main.go:146, 186), a
  run-time panic (see Findings).

## Model

| member | source | states |
|---|---|---|
| Text.Lower | main.go:126-129 | lower-casing keeps the length and maps each byte through ASCII lower-casing, so positions in the searched copy are positions in the line |
| Text.Index | main.go:146 | the result is -1 exactly when the key occurs nowhere, and otherwise an occurrence with none before it |
| Text.OccursInSuffix | main.go:146-150 | an occurrence in `s[pos:]` at `j` is an occurrence in `s` at `pos + j`, and back |
| Text.Split | main.go:59 | at least one part; its meaning is fixed by SplitJoin, SplitPartsFree and SplitHead: the parts joined with "::" give back the argument, no part holds "::", and the first part ends at the leftmost "::" |
| Text.SplitJoin | main.go:59 | joining the parts that Split returns with "::" gives back the argument |
| Text.SplitPartsFree | main.go:59 | no part that Split returns contains "::" |
| Text.SplitHead | main.go:59 | a word in which "::" does not occur, even across its last byte and the separator's first ':', is split off as the first part and the rest is split on its own; single colons in the word, as in `10:30`, are allowed |
| Text.Decimal | main.go:50 | `%d` prints only digits, at least one, with no leading zero |
| Text.DecimalRoundTrip | main.go:50 | reading back the digits that `%d` prints gives the number |
| Colors.NamedCodesAreForeground | main.go:17-24 | each literal escape of the palette table is the foreground escape of that entry's RGB triple |
| Colors.NamedCodesDistinct | main.go:17-24 | no two palette entries share an escape, so the reservation loop's match is unique whatever the map order |
| Colors.NamedCodesNonEmpty | main.go:17-24 | every palette escape is non-empty, so it is never taken for "no colour" |
| Colors.PresetOrderDistinct | main.go:27 | the six palette names are pairwise distinct |
| Colors.LookupName | main.go:37 | a palette position is found exactly for a palette name, and it is that name's position |
| Colors.Foreground | main.go:50 | the escape starts with ESC; ForegroundDigits spells it out as `ESC[38;2;R;G;Bm` with the decimal digits of each component, and NamedCodesAreForeground ties each palette literal to it |
| Colors.SlotOf | main.go:64-69 | the slot found for an escape is a palette entry with that escape; none is found only when no entry has it |
| Colors.SlotOfNamedCode | main.go:64-69 | the escape of entry `i` is found at slot `i` |
| Colors.ScanTriple | main.go:48-49 | under this model's approximation of `fmt.Sscanf` (pairs of hex digits read left to right, the rest 0), the three components are bytes; Go's `%x` also reads a sign, which the approximation does not |
| Colors.ScanTripleHex | main.go:48-49 | scanning the six hex digits of a colour, in either letter case, gives the colour back |
| Colors.TrimHash | main.go:42 | exactly one leading '#' is dropped, and only when present |
| Colors.ParseColor | main.go:35-51 | a non-empty result comes only from a palette name or from a token six bytes long once one leading '#' is dropped, and it starts with ESC; the partner lemmas below state the result case by case |
| Colors.ParseColorNamed | main.go:37-39 | a token whose lower-cased form is a palette name resolves to that entry's escape, in any letter case |
| Colors.ParseColorUnnamed | main.go:42-46 | any other token resolves to "" exactly when it is not six bytes long after dropping one leading '#' |
| Colors.ParseColorIsForeground | main.go:35-51 | a palette name or a token of six hex digits resolves to a non-empty escape, the foreground escape of a byte triple |
| Colors.HexTokenIsNoName | main.go:37 | six hex digits, with or without '#', never match a palette name, whatever their letter case |
| Colors.ParseColorHex | main.go:42-50 | six hex digits in any mix of letter cases, with or without '#', resolve to the escape of the three bytes the digit pairs spell |
| Colors.ParseColorHexRoundTrip | main.go:42-50 | a colour written as six hex digits, in either letter case and with or without '#', parses to `ESC[38;2;R;G;Bm` of that colour |
| WordTable.Word | main.go:76-77 | the word is a prefix of the argument, and the whole argument exactly when it holds no "::" |
| WordTable.ColorToken | main.go:80 | a colour token is non-empty, holds no "::", and the argument is the word, "::" and the token |
| WordTable.ExplicitColor | main.go:80-82 | the escape asked for; ReadPlainArg, ReadEmptyColorArg, ReadNamedArg, ReadRejectedColorArg and ReadExtraSeparatorArg state it for each shape of argument |
| WordTable.ReadArg | main.go:76-82 | the word and the escape one argument asks for, stated per shape by the same lemmas |
| WordTable.ReadArgs | main.go:58-59 | one request per argument |
| WordTable.ReadArgsAt | main.go:75-76 | the `j`-th request is read from the `j`-th argument |
| WordTable.ReadPlainArg | main.go:87-90 | an argument without "::" asks for no colour and its word is the whole argument |
| WordTable.ReadEmptyColorArg | main.go:80-90 | `word::` with an empty colour part asks for no colour, for every word that ends before the leftmost "::" (single colons allowed) |
| WordTable.ReadNamedArg | main.go:76-82 | `word::name` asks for the named entry's escape, in any letter case of the name, for every word that ends before the leftmost "::" (so `10:30::red` asks for red) |
| WordTable.ReadRejectedColorArg | main.go:80-86 | `word::token` asks for no colour when parseColor rejects the token (such as `x:y`), and also when the token holds a further "::" so that there are three parts |
| WordTable.ReadExtraSeparatorArg | main.go:76-80 | `word::x::c`, whatever `x` and `c` are, has more than two parts, so no colour is asked for and the word is the text before the leftmost "::" |
| WordTable.Claims | main.go:62-69 | the slot claimed by one explicit colour; ClaimsExactly states that it is exactly the slot whose escape the colour is |
| WordTable.Reserved | main.go:57-72 | the slots claimed by the first pass; ReservedExactly states that a slot is in it exactly when some argument names it |
| WordTable.ClaimsExactly | main.go:62-69 | an explicit colour claims slot `i` exactly when it is entry `i`'s escape |
| WordTable.ReservedExactly | main.go:57-72 | a slot is reserved exactly when some argument, wherever it stands, names that entry by a valid explicit colour |
| WordTable.FirstFree | main.go:109-114 | the slot found is unclaimed, and every slot before it is claimed |
| WordTable.NextAvailable | main.go:107-119 | the claimed set never shrinks |
| WordTable.NextAvailableFirst | main.go:109-113 | when slot `i` is the lowest unclaimed slot, its escape is handed out and exactly `i` is added to the claimed set |
| WordTable.NextAvailableAllUsed | main.go:116-118 | with all six slots claimed, red is handed out and the claimed set is unchanged |
| WordTable.FreeFrom | main.go:109-114 | every slot in the free list is unclaimed and in the palette |
| WordTable.FreeFromExactly | main.go:109-114 | a slot is in the free list exactly when it is an unclaimed palette slot |
| WordTable.FreeFromAscending | main.go:109 | the free list is in strictly ascending palette order, the order of presetColorOrder |
| WordTable.NextAvailableFree | main.go:107-119 | handing out a colour takes the head of the free list and leaves its tail; with nothing free it gives red and claims nothing |
| WordTable.ColorPool.constructor | main.go:55 | the pool starts with nothing claimed |
| WordTable.ColorPool.Claim | main.go:66 | exactly the given slot is added to the claimed set |
| WordTable.ColorPool.NextAvailableColor | main.go:107-119 | the escape returned and the new claimed set are those of NextAvailable on the old claimed set |
| WordTable.ColorFor | main.go:79-90 | one argument's colour: an explicit escape is kept with the claimed set unchanged, otherwise NextAvailable decides; AssignShape and AssignAutoColor state the outcome over the whole pass |
| WordTable.Assign | main.go:74-102 | the second pass yields one rule per request |
| WordTable.AssignShape | main.go:74-102 | rule `j` keeps argument `j`'s word, its search key is the word lower-cased unless case-sensitive, an explicit colour is kept, and no rule is left without a colour |
| WordTable.AssignAutoColor | main.go:80-90 | the `k`-th argument without a usable colour gets the `k`-th slot that was free when the second pass began, or red once the free slots run out |
| WordTable.BuildConfigsSpec | main.go:53-105 | the table has one rule per argument, in order: the word before "::", its search key, and the explicit colour or else the `k`-th unreserved slot for the `k`-th argument without one |
| WordTable.BuildConfigs | main.go:53-105 | the table: the second pass over the requests from the reserved slots; BuildConfigsSpec states each rule in terms of the arguments alone |
| WordTable.ExampleReserved | main.go:57-72 | arguments coloured red, none, green, none reserve exactly red and green |
| WordTable.FreeAfterRedGreen | main.go:109-114 | with red and green claimed, the free slots are orange, blue, pink, purple in that order |
| WordTable.ReservationExample | main.go:57-90 | for `a::red b c::green d`, `b` gets orange and `d` blue, because green was reserved before `b` was coloured |
| WordTable.LookAheadRequests | main.go:58-61 | `a b::red` reads as a request without colour and a request for red |
| WordTable.LookAheadAssign | main.go:57-90 | requests for no colour and for red give green and red |
| WordTable.LookAheadExample | main.go:53-105 | for the arguments `a b::red`, `a` gets green because `b` reserved red |
| WordTable.ReserveOne | main.go:59-70 | one argument of the first pass claims exactly the slot its valid explicit colour names, if any |
| WordTable.ClaimNamed | main.go:64-69 | the search over the palette claims exactly the slot whose escape is the colour, if any |
| WordTable.ReserveExplicitColors | main.go:57-72 | the first pass adds exactly the reserved slots of all arguments to the claimed set |
| WordTable.ConfigFor | main.go:75-101 | the rule built for one argument is the head of the second pass from the current claimed set, and the pool moves on as the pass does |
| WordTable.AssignColors | main.go:74-102 | the rules appended in the second loop are the second pass from the claimed set it starts with |
| WordTable.ParseArgs | main.go:53-105 | the table built is BuildConfigs of the arguments |
| Matching.WordEnd | main.go:155-159 | the word end is the first space, tab or newline at or after the hit's end, or the end of the line |
| Matching.WordEndAt | main.go:155-159 | a position that is the end or a separator, with no separator before it, is the word end |
| Matching.MatchEnd | main.go:152-159 | a candidate ends no earlier than the end of the hit and within the line |
| Matching.Candidate | main.go:152-183 | the candidate starts at the hit, covers at least the key, and stays within the line |
| Matching.Consider | main.go:161-184 | considering a candidate only ever appends to the accepted spans |
| Matching.ScanWord | main.go:143-187 | the scan for one rule only ever appends to the accepted spans |
| Matching.ScanConfigs | main.go:143-188 | the mask covers the whole line |
| Matching.CoverMaskCovers | main.go:172-174 | a byte is coloured in the mask built from the spans exactly when some span covers it |
| Matching.ConsistentCovers | main.go:163-168 | when mask and spans agree, a byte is coloured exactly when an accepted span covers it |
| Matching.ConsiderConsistent | main.go:161-184 | accepting or dropping a candidate keeps the spans disjoint and the mask equal to their union |
| Matching.ScanWordConsistent | main.go:145-187 | the scan for one rule keeps the spans disjoint and the mask equal to their union |
| Matching.ScanConfigsConsistent | main.go:143-188 | after the whole scan the accepted spans are pairwise disjoint non-empty pieces of the line, and the mask is exactly their union |
| Matching.HitAhead | main.go:146-150 | the index found in the slice from `pos`, shifted by `pos`, is an occurrence in the searched line |
| Matching.ScanWordHit | main.go:146-150 | the scan from `pos` goes on at the first hit from `pos` on |
| Matching.ScanWordTake | main.go:146-186 | the scan from `pos`, whose first hit lies `i` bytes ahead at `idx = i + pos`, fits the key inside the line, considers the hit at `idx` and then resumes at `idx + 1` |
| Matching.ScanWordMiss | main.go:146-149 | the scan for one rule stops, leaving the state unchanged, when the key does not occur from `pos` on |
| Matching.ScanHit | main.go:150-186 | the scan at a hit only appends spans and keeps the mask's length; ScanWordTake and NextHit tie it to one turn of the search loop |
| Matching.ScanWordOrigin | main.go:146-183 | every span added by the scan for one rule is that rule's candidate for an occurrence of its key at or after `pos` |
| Matching.ScanConfigsOrigin | main.go:143-188 | every accepted span is the candidate of some rule for an occurrence of its key |
| Matching.SettledGrows | main.go:170-184 | a later span never undoes the acceptance or the rejection of a candidate |
| Matching.ConsiderSettles | main.go:161-184 | a considered candidate is accepted whole, or touches a span accepted before it |
| Matching.FirstHitBefore | main.go:146 | a search from `pos` finds a hit no later than any occurrence at or after `pos` |
| Matching.ScanWordSettles | main.go:145-187 | every occurrence of the key at or after `pos` has its candidate accepted, or dropped for touching an earlier rule's span or one of the same rule at an earlier hit |
| Matching.ScanConfigsPrefix | main.go:143-188 | later rules never displace the spans of earlier rules |
| Matching.ScanConfigsSettles | main.go:143-188 | declaration-order priority: each occurrence of rule `j`'s key is accepted whole, or dropped because it touches a span accepted by an earlier rule or by rule `j` at an earlier hit, judged against the spans once rule `j` is done; those spans are a prefix of the final ones |
| Rendering.Swap | main.go:204 | the exchange keeps the length; SwapPermutes and SwapSpans state that it only rearranges and keeps disjoint spans disjoint |
| Rendering.Step | main.go:203-205 | one comparison keeps the length; StepPermutes, StepOrders and StepSpans state what it keeps and orders |
| Rendering.Pass | main.go:202-206 | the inner loop keeps the length; PassPermutes, PassKeepsPrefix, PassOrders and PassSpans state the rest |
| Rendering.Sweep | main.go:201-207 | the outer loop keeps the length; SweepSorts, SweepPermutes and SweepSpans state that it sorts by start and only rearranges |
| Rendering.ExchangeSorted | main.go:201-207 | the sorted spans; ExchangeSortedSpec and ExchangeSortedSpans state sortedness, permutation and strictly ascending starts |
| Rendering.SwapPermutes | main.go:204 | exchanging two spans only rearranges them |
| Rendering.StepPermutes | main.go:203-205 | one comparison only rearranges the spans |
| Rendering.PassPermutes | main.go:202-206 | an inner pass only rearranges the spans |
| Rendering.PassKeepsPrefix | main.go:202-206 | an inner pass leaves the positions before `i` alone |
| Rendering.StepOrders | main.go:203-205 | a comparison keeps at `i` a span starting no later than any compared with it |
| Rendering.PassOrders | main.go:202-206 | after the inner pass for `i`, the span at `i` starts no later than any later one |
| Rendering.PassExtendsSorted | main.go:201-207 | each outer iteration extends the sorted prefix by one |
| Rendering.SweepSorts | main.go:201-207 | the outer loop sorts the spans by start |
| Rendering.SweepPermutes | main.go:201-207 | the outer loop only rearranges the spans |
| Rendering.ExchangeSortedSpec | main.go:201-207 | the exchange sort leaves the spans in ascending order of start and a permutation of the input |
| Rendering.SwapSpans | main.go:204 | exchanging two spans keeps disjoint spans disjoint |
| Rendering.StepSpans | main.go:203-205 | a comparison keeps disjoint spans disjoint |
| Rendering.PassSpans | main.go:202-206 | an inner pass keeps disjoint spans disjoint |
| Rendering.SweepSpans | main.go:201-207 | the outer loop keeps disjoint spans disjoint |
| Rendering.ExchangeSortedSpans | main.go:201-207 | sorted disjoint spans stay disjoint and their starts are strictly ascending |
| Rendering.ExchangeSort | main.go:201-207 | the array after the in-place swap sort is the exchange-sorted sequence of what it held |
| Rendering.SpansChained | main.go:209-213 | disjoint spans sorted by start each begin at or after the previous one's end, so every slice the builder takes is valid |
| Rendering.RenderHead | main.go:210-212 | one builder step appends the gap before the span and its text, and the rest is rendered from the span's end |
| Rendering.Render | main.go:209-214 | the builder's output; RenderHead states one step of it and RenderUnpainted that removing the paint gives back the line |
| Rendering.Unpainted | main.go:177 | one unpainted span per span |
| Rendering.RenderUnpainted | main.go:209-214 | with each span's text put back to the bytes it covers, the builder gives back the line |
| Highlighting.SearchLine | main.go:126-129 | the searched copy has the line's length |
| Highlighting.SortedSpansChained | main.go:195-207 | the sorted spans are disjoint pieces of the line, in strictly increasing order, each starting at or after the previous one's end |
| Highlighting.ConsiderHit | main.go:152-184 | one hit of the search loop leaves the mask and spans that the specification's step gives |
| Highlighting.ScanRule | main.go:144-187 | the search loop of one rule leaves the mask and spans of the specification's scan for that rule |
| Highlighting.NextHit | main.go:146-186 | one turn of the search loop: when the key is not found from `pos` the state is unchanged and the specification's scan ends there; otherwise `pos` moves past the hit and the scan from the old `pos` equals the scan from the new one |
| Highlighting.Build | main.go:197-216 | the builder loop produces the line with each span replaced by its text |
| Highlighting.Highlight | main.go:121-217 | the highlighted line; HighlightRenders, HighlightKeepsRest and NoHitPassthrough state the output, and HighlightLine is proved equal to it |
| Highlighting.HighlightLine | main.go:121-217 | the procedure returns Highlight of its inputs |
| Highlighting.NoHitPassthrough | main.go:121-193 | a line where no rule's key occurs, in particular any line with no rules, comes out unchanged |
| Highlighting.SpanHasHit | main.go:190-193 | an accepted span means some rule's key occurs in the searched line |
| Highlighting.SortedSpansFromRules | main.go:176-183 | every span in the output is some rule's candidate for an occurrence of its key, painted in that rule's colour |
| Highlighting.HighlightRenders | main.go:195-216 | the output is the line with the sorted spans replaced by their texts |
| Highlighting.HighlightKeepsRest | main.go:209-216 | nothing but the spans changes: with their texts put back to the covered bytes, the same construction gives the line |
| Highlighting.SingleScan | main.go:143-188 | a key occurring exactly once gives exactly that hit's candidate |
| Highlighting.OneSpanOutput | main.go:195-216 | with one accepted span the output is the line with that span replaced |
| Highlighting.SingleHit | main.go:121-217 | one rule whose key occurs once: the output is the line with that hit's span, stretched in whole-word mode, painted |
| Highlighting.SearchLoopEnds | main.go:144-187 | the search loop as written, empty key included; SearchLoopEndsForKey and EmptyKeyPanics state when it ends normally and when it panics |
| Highlighting.SearchLoopEndsForKey | main.go:145-187 | with a non-empty key the search loop ends normally |
| Highlighting.EmptyKeyPanics | main.go:145-187 | with an empty key the search loop slices past the end of the searched line |
| Highlighting.EmptyWordArg | main.go:76-95 | an argument `::c` gives a rule whose word and search key are empty |
| Highlighting.NonEmptyRules | main.go:143 | the rules kept all have non-empty keys, come from the table, include every rule with a non-empty key, and are the whole table when no key is empty |
| Highlighting.NonEmptyRulesAppend | main.go:143 | filtering a table cut in two is filtering each part and concatenating, so the kept rules stay in table order, which decides priority |
| Highlighting.HighlightSkipping | main.go:121-217 | defined for every table, and equal to Highlight whenever no key is empty |
| Highlighting.NoNonEmptyRules | main.go:143 | a table whose keys are all empty keeps no rule |
| Highlighting.EmptyRulesSkipped | main.go:121-124 | words that are all empty leave the line unchanged |
| Examples.HelloWorld | main.go:121-217 | in "hello world" with the rule "world", only "world" is painted |
| Examples.ColonWordNamed | main.go:76-82 | `10:30::red` asks for the word "10:30" in red |
| Examples.ColonWordNoColor | main.go:76-90 | `10:30::` asks for the word "10:30" with no colour |
| Examples.WholeWordBackup | main.go:155-159 | in whole-word mode the hit "back" in "backup_13344.zip started" paints the whole token "backup_13344.zip" and nothing before it |
| Examples.RuleOrderExample | main.go:161-170 | in "xabcx" with the rules "ab" then "bc", "ab" wins and the overlapping "bc" is dropped whole |

## Left out

- `main` (main.go:219-252) is not part of this model. That covers flag parsing, the usage banner, the exit, and the loop that reads standard input and prints each highlighted line. It is I/O only.
- The warning printed to standard error for an invalid colour (main.go:84) is left out. Only the fallback colour it accompanies is modelled.
- `strings.ToLower` is modelled as ASCII lower-casing, one byte at a time. Unicode case mapping can change a string's length, which the source's mask indexing does not allow for.
- Colors.ScanTriple: `fmt.Sscanf` on six bytes that are not all hex digits is approximated. The pairs are read left to right, the scan stops at the first pair that is not two hex digits, and the rest are 0. The bound "each component is a byte" holds for this approximation only: Go's `%x` also accepts a sign, so a token such as `-1ffff` gives a negative component in Go. Only six valid hex digits are proved about (ParseColorHex).
- Colors.ParseColorIsForeground: stated only for palette names and six-hex-digit tokens. For other six-byte tokens the result depends on the Sscanf approximation above, so the model promises nothing about them.
- The Go map of claimed colour names is modelled as a set of palette positions. Its iteration order in the reservation loop does not matter, because the palette escapes are distinct (NamedCodesDistinct).
- `strings.Builder` is modelled as string concatenation. The replacement slice is modelled as a sequence, copied into an array for the in-place sort.
- Highlighting.HighlightLine: requires every search key to be non-empty. The source has no such check and panics on an empty key (see Findings); the corrected behaviour is HighlightSkipping.

## Findings

| source | as written | input that shows it | evidently intended | confidence | as-written member | corrected member |
|---|---|---|---|---|---|---|
| main.go:145-187 | an empty word gives a rule with an empty search key. `strings.Index` then finds it at every position, and the loop advances one byte per hit until `searchLine[pos:]` is sliced past the end of the line, a run-time panic | arguments `["::red"]`, then any input line | a rule with an empty word is skipped, and the line comes out unchanged or highlighted by the other rules | not executed | Highlighting.EmptyKeyPanics, Highlighting.EmptyWordArg | Highlighting.HighlightSkipping, Highlighting.EmptyRulesSkipped |
