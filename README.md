# cpp-projects in Dafny

This project models five small C++ projects: a string-set registry, a currency wallet, a
space battle, a citation graph and a ternary search tree. It proves what their code and their
header comments promise. Each project keeps the form of its source: pure code becomes
datatypes, functions and lemmas, and code that changes state becomes classes and methods
proved against specification functions.

- **Citation graph** (`5_graf_cytowan`): modules `Ownership` and `CitationGraph`.
  - `CitationGraph.CitationGraph` is a class. It holds a map from publication ids to node
    handles, a map from handles to nodes (an owning `children` set and a non-owning `parents`
    set each), and a handle counter.
  - A node lives while the graph holds it (the root) or a live node lists it as a child.
  - The destructor cascade is the worklist loop `Reclaim`. It erases any non-root node that no
    live node holds, until none is left.
  - `Ownership` proves what such a loop removes and keeps:
    - a set of nodes that supports itself survives, and so does everything on a path from the
      root, cycles included;
    - a node that nobody holds is removed;
    - a stable graph is left unchanged.
  - Handles are never reused. A weak reference to a destroyed node therefore stays expired,
    even after a node with the same publication id is created.
- **Ternary search tree** (`7_tst`): module `Tst`.
  - The tree is a persistent datatype, with insertion, search, longest prefix, fold and size.
  - Words are C strings: the character `'\0'` ends a word.
- **String-set registry** (`2_strset`): modules `SetOrder` and `Strset`.
  - `Strset.Registry` holds the map from ids to sets, the id counter and the lazily created
    "42" set.
  - Each entry point is tied to a specification function on a `State` value.
  - `SetOrder` gives the lexicographic comparison of the ascending element sequences.
- **Wallet** (`3_wallet`): modules `WalletText` and `WalletModel`.
  - `WalletText` states the decimal grammar as a datatype of its groups, with a renderer and a
    scanner that are each other's inverse. It also holds the binary parser and the printing of
    a balance.
  - `WalletModel.Wallet` holds a balance and its history.
  - The static `existing_units` is the field of a `Circulation` object, and its uint64
    arithmetic is written out modulo 2^64.
- **Space battle** (`4_starwars`): modules `Fleet` and `Battle`.
  - Ships are records, and the battle's tuple is a sequence of them.
  - `Battle.SpaceBattle` holds the ships, the two size_t counters and the clock.
  - Its loops are proved against the functions `Strike`, `Volley`, `Assault` and `TickState`.

The attack schedule follows the code of `howMuchSquares` and not its comment. The comment
says the squares are at most t1. The code stops at the first n with n² ≥ t1, so a time equal
to t1 is never attacked on.

## Model

| member | source | states |
|---|---|---|
| Tst.IsEmpty | 7_tst/src/tst.h:111-113 | a tree is empty exactly when its character is the terminator |
| Tst.Value | 7_tst/src/tst.h:76-78 | fails with "value_error" exactly on an empty tree, otherwise gives the stored non-terminator character |
| Tst.Word | 7_tst/src/tst.h:83-85 | fails with "word_error" exactly on an empty tree, otherwise gives the end-of-word flag |
| Tst.Left | 7_tst/src/tst.h:90-92 | fails with "left_error" exactly on an empty tree, otherwise gives the node's left subtree, which is strictly smaller |
| Tst.Center | 7_tst/src/tst.h:97-99 | fails with "center_error" exactly on an empty tree, otherwise gives the node's centre subtree, which is strictly smaller |
| Tst.Right | 7_tst/src/tst.h:104-106 | fails with "right_error" exactly on an empty tree, otherwise gives the node's right subtree, which is strictly smaller |
| Tst.PrefixLength | 7_tst/src/tst.h:40-44 | the count never exceeds the word and covers only non-terminator characters |
| Tst.Prefix | 7_tst/src/tst.h:132-134 | the result is always a prefix of the argument and holds no terminator; that it is the longest one shared with a stored word is Tst.PrefixIsLongestShared |
| Tst.FoldSeqAppend | 7_tst/src/tst.h:8-11 | folding a concatenation folds the second part from the result of the first |
| Tst.FoldSeq | 7_tst/src/tst.h:9-10 | Detail::fold; no contract of its own, characterised by Tst.FoldSeqAppend and Tst.FoldSeqCounts |
| Tst.Fold | 7_tst/src/tst.h:137-138 | fold; no contract of its own, characterised by Tst.FoldVisitsChars as Detail::fold over right, centre, left, node |
| Tst.Size | 7_tst/src/tst.h:144-148 | size is the number of non-empty nodes |
| Tst.FoldVisitsChars | 7_tst/src/tst.h:136-139 | fold visits the right subtree, the centre, the left subtree, then the node |
| Tst.FoldSeqCounts | 7_tst/src/tst.h:144-148 | folding "add one" over a sequence adds its length |
| Tst.CharsCount | 7_tst/src/tst.h:136-139 | fold visits every non-empty node exactly once |
| Tst.SizeCountsNodes | 7_tst/src/tst.h:144-148 | size is the number of non-empty nodes |
| Tst.FromStringShape | 7_tst/src/tst.h:52-57 | TST(s) for a non-empty word is a centre chain with one node per character, the last one marked |
| Tst.FromString | 7_tst/src/tst.h:52-57 | TST(str); no contract of its own, characterised by Tst.FromStringShape, Tst.FromStringHoldsExactly and Tst.FromStringPaths |
| Tst.Insert | 7_tst/src/tst.h:66-70 | operator+; no contract of its own, characterised by Tst.ExistAfterInsert, Tst.InsertReaches and Tst.InsertNewPaths |
| Tst.Exist | 7_tst/src/tst.h:115-120 | exist; no contract of its own, characterised by Tst.ExistAfterInsert, Tst.FromStringHoldsExactly and Tst.ExistReaches |
| Tst.FromStringHoldsExactly | 7_tst/src/tst.h:52-57 | TST(s) holds s and no other word, and its size is the length of s |
| Tst.InsertTrivialCases | 7_tst/src/tst.h:66-67 | inserting "" changes nothing; inserting into the empty tree gives TST(s) |
| Tst.ExistAfterInsert | 7_tst/src/tst.h:66-71 | after inserting s, a word w is present exactly when it is s, or it was present and is not a proper prefix of s |
| Tst.InsertedWordExists | 7_tst/src/tst.h:66-71 | a word is present right after it is inserted |
| Tst.InsertUnmarksPrefix | 7_tst/src/tst.h:68 | inserting "ab" after "a" makes "a" absent |
| Tst.ExistTrivialCases | 7_tst/src/tst.h:115-120 | the empty word is never present and the empty tree holds nothing |
| Tst.ExistReaches | 7_tst/src/tst.h:115-120 | a present word is a path of the tree, so search follows the insertion order |
| Tst.ReachesPrefix | 7_tst/src/tst.h:115-120 | every non-empty prefix of a path is a path |
| Tst.PrefixLengthIsLongest | 7_tst/src/tst.h:40-44 | prefixHelper gives the longest prefix that is a path: one more character is not |
| Tst.ReachesFullPrefix | 7_tst/src/tst.h:132-134 | prefix(w) is w for any word the tree holds as a path |
| Tst.InsertReaches | 7_tst/src/tst.h:66-71 | insertion makes the word a path and keeps every earlier path |
| Tst.FromStringReaches | 7_tst/src/tst.h:52-57 | TST(s) holds s as a path |
| Tst.PrefixOfInsertedWord | 7_tst/src/tst.h:132-134 | prefix(s) is s once s was inserted, whatever is inserted later |
| Tst.InsertsKeepPath | 7_tst/src/tst.h:66-71 | a sequence of insertions keeps every path |
| Tst.SharedIsPath | 7_tst/src/tst.h:115-120 | a non-empty prefix of a word exist() finds is a path of the tree |
| Tst.FromStringPaths | 7_tst/src/tst.h:52-57 | the one-word tree has no path but the prefixes of its word |
| Tst.InsertNewPaths | 7_tst/src/tst.h:66-71 | the only paths an insertion adds are prefixes of the inserted word |
| Tst.InsertKeepsPathsLeadToWords | 7_tst/src/tst.h:66-71 | after an insertion every path still begins a stored word, although line 68 may unmark one |
| Tst.BuiltPathsLeadToWords | 7_tst/src/tst.h:66-71 | any sequence of insertions keeps every path leading to a stored word |
| Tst.PrefixIsLongestShared | 7_tst/src/tst.h:129-134 | in a tree built by insertions, prefix(s) begins a word the tree holds and one more character of s begins none: the longest prefix shared with a stored word |
| SetOrder.StrCompare | 2_strset/src/strset.cc:60-96 | string comparison gives 0, -1 or 1 exactly for equal, smaller or larger |
| SetOrder.StrLessIrreflexive | 2_strset/src/strset.cc:60-96 | no string is smaller than itself |
| SetOrder.StrLessAsymmetric | 2_strset/src/strset.cc:60-96 | two strings are never each smaller than the other |
| SetOrder.StrLessTotal | 2_strset/src/strset.cc:60-96 | two different strings are always ordered |
| SetOrder.StrLessTransitive | 2_strset/src/strset.cc:60-96 | the string order is transitive |
| SetOrder.MinExists | 2_strset/src/strset.cc:60-96 | every non-empty set has a least element |
| SetOrder.MinUnique | 2_strset/src/strset.cc:60-96 | the least element is unique |
| SetOrder.Sorted | 2_strset/src/strset.cc:60-96 | the iteration order of a std::set: the same elements, each once, ascending |
| SetOrder.AscendingHead | 2_strset/src/strset.cc:60-96 | an ascending listing starts with the least element |
| SetOrder.AscendingTail | 2_strset/src/strset.cc:60-96 | the rest of an ascending listing lists the rest of the set |
| SetOrder.SortedUnique | 2_strset/src/strset.cc:60-96 | a set has exactly one ascending listing |
| SetOrder.CompareSeqs | 2_strset/src/strset.cc:60-96 | the comparison of two listings is -1, 0 or 1 |
| SetOrder.CompareSets | 2_strset/src/strset.cc:60-96 | the comparison of two sets is -1, 0 or 1 |
| SetOrder.CompareSeqsAntisymmetric | 2_strset/src/strset.cc:60-96 | swapping the listings negates the result, and 0 means equal |
| SetOrder.CompareSetsAntisymmetric | 2_strset/src/strset.cc:60-96 | comp(a,b) = -comp(b,a), and 0 exactly for equal sets |
| SetOrder.CompareSeqsIsLexicographic | 2_strset/src/strset.h:68-81 | -1 exactly when the first listing is lexicographically smaller, a proper prefix counting as smaller |
| SetOrder.CompareAsWritten | 2_strset/src/strset.cc:75 | the three-iterator mismatch reads past the second set exactly when it is a proper prefix of the first, and otherwise agrees with the comparison |
| SetOrder.CompareAsWrittenReadsPastEnd | 2_strset/src/strset.cc:75 | {"a","b"} against {"a"} reads past the end, while the documented result is 1 |
| Strset.NewSpec | 2_strset/src/strset.cc:188-199 | the new id is the old counter, unused before; it maps to an empty set, the counter grows by one and nothing else changes |
| Strset.With42 | 2_strset/src/strsetconst.cc:32-46 | after strset42 the 42 set exists and is {"42"}; a second call changes nothing |
| Strset.FortyTwoBuilt | 2_strset/src/strsetconst.cc:36-39 | the flag is set before the insert, so inserting "42" into the fresh set is what strset42 leaves |
| Strset.DeleteSpec | 2_strset/src/strset.cc:201-217 | a missing id changes nothing; the set goes exactly when it is not the 42 set; other sets keep their contents |
| Strset.InsertSpec | 2_strset/src/strset.cc:234-265 | a null value or a missing set changes nothing; the value is added to an ordinary set; other sets keep their contents |
| Strset.RemoveSpec | 2_strset/src/strset.cc:267-298 | a null value or a missing set changes nothing; the value is taken out of an ordinary set; other sets keep their contents |
| Strset.ClearSpec | 2_strset/src/strset.cc:326-344 | a missing id changes nothing; an ordinary set becomes empty; other sets keep their contents |
| Strset.Registry.constructor | 2_strset/src/strset.cc:24-30 | the registry starts with no sets, counter 0 and no 42 set |
| Strset.Registry.New | 2_strset/src/strset.cc:188-199 | strset_new performs NewSpec |
| Strset.Registry.Strset42 | 2_strset/src/strsetconst.cc:32-46 | strset42 performs With42 and returns the id of an existing set |
| Strset.Registry.Delete | 2_strset/src/strset.cc:201-217 | strset_delete performs DeleteSpec |
| Strset.Registry.Size | 2_strset/src/strset.cc:219-232 | the number of elements, 0 for a missing set |
| Strset.Registry.Insert | 2_strset/src/strset.cc:234-265 | strset_insert performs InsertSpec |
| Strset.Registry.Remove | 2_strset/src/strset.cc:267-298 | strset_remove performs RemoveSpec |
| Strset.Registry.Test | 2_strset/src/strset.cc:300-324 | 1 exactly when the value is non-null and in the existing set, else 0 |
| Strset.Registry.Clear | 2_strset/src/strset.cc:326-344 | strset_clear performs ClearSpec |
| Strset.Registry.Comp | 2_strset/src/strset.cc:346-369 | missing sets count as empty; 0 exactly for equal sets, -1 exactly when the first listing is lexicographically smaller |
| Strset.InsertIdempotent | 2_strset/src/strset.h:32-40 | inserting a value twice is inserting it once |
| Strset.InsertThenRemove | 2_strset/src/strset.h:32-48 | removing a value just inserted into an ordinary set that lacked it restores the set |
| Strset.InsertThenTest | 2_strset/src/strset.h:32-58 | an inserted value is then present, and the size grows by one exactly when it was new |
| Strset.FortyTwoSetIsFixed | 2_strset/src/strsetconst.h:10-15 | once created, the 42 set stays {"42"} under every entry point, and strset42 returns it unchanged |
| Strset.FirstFortyTwo | 2_strset/src/strsetconst.cc:32-46 | the first strset42 on a fresh registry creates set 0 = {"42"}, and repeating it changes nothing |
| Strset.EntryPointsCanAllocate | 2_strset/src/strset.cc:210 | strset_delete on the existing set 0 calls strset42() before its check, which creates the 42 set as id 1, so the next strset_new returns 2 |
| WalletText.Pow10 | 3_wallet/src/wallet.cc:80 | every power of ten is at least 1 |
| WalletText.DigitsValue | 3_wallet/src/wallet.cc:75 | the value of k digits is below 10^k |
| WalletText.NatToString | 3_wallet/src/wallet.cc:24 | printing gives at least one digit and no leading zero |
| WalletText.SpanSpaces | 3_wallet/src/wallet.cc:70 | the longest run of leading spaces |
| WalletText.SpanDigits | 3_wallet/src/wallet.cc:70 | the longest run of leading digits |
| WalletText.WholeLength | 3_wallet/src/wallet.cc:70 | the whole-part group, when the pattern accepts it, is "0" or one to eight digits without a leading zero |
| WalletText.Value | 3_wallet/src/wallet.cc:75-84 | an inscription stands for fewer than 10^16 units |
| WalletText.UnitsFromString | 3_wallet/src/wallet.cc:66-106 | an accepted string is a well-formed inscription, and the result is its value, below 10^16 |
| WalletText.UnitsFromStringAccepts | 3_wallet/src/wallet.cc:70-73 | a string is accepted exactly when it is a well-formed inscription |
| WalletText.ScanRender | 3_wallet/src/wallet.cc:70 | every well-formed inscription is recognised with its own groups |
| WalletText.RenderScan | 3_wallet/src/wallet.cc:70 | whatever is recognised is well formed and renders back to the input |
| WalletText.Scan | 3_wallet/src/wallet.cc:70-73 | the regex_match; no contract of its own, characterised by WalletText.ScanRender and WalletText.RenderScan |
| WalletText.RenderInjective | 3_wallet/src/wallet.cc:70 | distinct well-formed inscriptions are distinct strings, so the groups are unambiguous |
| WalletText.FractionBound | 3_wallet/src/wallet.cc:78-82 | the fractional digits stand for less than one B |
| WalletText.SpanBits | 3_wallet/src/wallet.cc:139 | the longest run of leading binary digits |
| WalletText.ParseBinary | 3_wallet/src/wallet.cc:130-147 | an accepted string starts with a non-space and gives a value within int |
| WalletText.ParseMagnitude | 3_wallet/src/wallet.cc:139-146 | accepts exactly one or more binary digits with no trailing character whose signed value fits int, and reads them as that value |
| WalletText.BitsRoundTrip | 3_wallet/src/wallet.cc:139 | reading the binary digits of n gives n |
| WalletText.ParseBinaryExact | 3_wallet/src/wallet.cc:130-149 | for every string: accepted exactly when it starts with no space and, after an optional sign, is one or more binary digits whose signed value fits int; the result is that value, so trailing characters and overflow are always refused |
| WalletText.AllBitsSpanIff | 3_wallet/src/wallet.cc:139 | stoi's binary digits reach the end of the string exactly when every character is a bit |
| WalletText.ParseSignedBits | 3_wallet/src/wallet.cc:139 | a sign and binary digits whose value fits int are read as the signed value |
| WalletText.ParseBinaryRoundTrip | 3_wallet/src/wallet.cc:130-149 | every int Wallet(int) accepts is read back from its binary digits, with or without a sign |
| WalletText.ParseBinaryExamples | 3_wallet/src/wallet.cc:135-146 | an empty string, a leading space and a trailing non-bit are refused; "101" is 5 |
| WalletText.UnitsRepresentation | 3_wallet/src/wallet.cc:18-27 | the printed form of a balance below 10^16 is accepted by the parser |
| WalletText.RepresentationScans | 3_wallet/src/wallet.cc:18-27 | the printed form is recognised with its own groups |
| WalletText.RepresentationWellFormed | 3_wallet/src/wallet.cc:18-27 | the printed form of a balance below 10^16 fits the grammar |
| WalletText.RepresentationOf | 3_wallet/src/wallet.cc:18-27 | the groups the balance prints as; no contract of its own, characterised by WalletText.RepresentationWellFormed and WalletText.RepresentationDigits |
| WalletText.RepresentationReadsBack | 3_wallet/src/wallet.cc:18-27 | the printed form reads back as the balance exactly when its fractional units are 0 or have eight digits |
| WalletText.ValueReadsBack | 3_wallet/src/wallet.cc:18-27 | the printed groups stand for the balance exactly when no padding is missing |
| WalletText.FractionReadsBack | 3_wallet/src/wallet.cc:24 | unpadded fractional digits keep their value exactly when there are eight of them, or the value is 0 |
| WalletText.RepresentationValue | 3_wallet/src/wallet.cc:18-27 | the printed form reads back as the value of its own groups |
| WalletText.RepresentationDigits | 3_wallet/src/wallet.cc:18-27 | the printed groups stand for the whole part plus the unpadded digits scaled to eight places |
| WalletText.SingleDigitFractionMisread | 3_wallet/src/wallet.cc:24 | a single fractional digit d reads back as d·10^7 units, not d |
| WalletText.OneUnitPrints | 3_wallet/src/wallet.cc:24 | one unit prints as "0,1" |
| WalletText.PaddedFraction | 3_wallet/src/wallet.cc:24 | the padded fraction has eight digits and keeps its value |
| WalletText.PaddedRepresentationReadsBack | 3_wallet/src/wallet.cc:18-27 | with padding, every balance below 10^16 reads back as itself |
| WalletModel.Wrap | 3_wallet/src/wallet.cc:115 | uint64 arithmetic: the result is below 2^64 and equal to the value when that fits |
| WalletModel.Headroom | 3_wallet/src/wallet.cc:111 | the headroom is the cap minus the circulation while the cap holds |
| WalletModel.CapCheckExact | 3_wallet/src/wallet.cc:39-40 | the guard headroom / n < w holds exactly when adding w·n units would pass the cap |
| WalletModel.NegativeFactorGuard | 3_wallet/src/wallet.cc:303-304 | for a negative factor the guard throws exactly when the balance is not 0 |
| WalletModel.JoinCirculation | 3_wallet/src/wallet.cc:111-115 | the string constructors' guard throws exactly when the cap would be passed, and otherwise the sum does not wrap |
| WalletModel.ScaleWithinCap | 3_wallet/src/wallet.cc:303-309 | scaling after the guard keeps the circulation within the cap |
| WalletModel.MergedHistory | 3_wallet/src/wallet.h:32-38 | both histories, each kept in order, then one entry with the sum |
| WalletModel.Zeros | 3_wallet/src/wallet.cc:56 | k default entries of 0 units |
| WalletModel.MergedHistoryAsWritten | 3_wallet/src/wallet.cc:54-61 | the buffer of 2·\|h1\| entries overflows exactly when h2 is longer than h1 |
| WalletModel.MergedHistoryAsWrittenDiffers | 3_wallet/src/wallet.cc:56 | the code and the documented history agree exactly when the histories have the same length |
| WalletModel.MergeLeavesStrayEntry | 3_wallet/src/wallet.cc:56 | merging a two-entry history with a one-entry history leaves a stray 0 entry, and the reverse order overflows |
| WalletModel.Circulation.constructor | 3_wallet/src/wallet.cc:16 | the circulation starts at 0, within the cap |
| WalletModel.Wallet.constructor | 3_wallet/src/wallet.cc:29-31 | 0 units and a one-entry history |
| WalletModel.Wallet.FromInt | 3_wallet/src/wallet.cc:33-45 | throws for a negative n or a passed cap, exactly; otherwise n B and one entry, joining the circulation, which stays within the cap |
| WalletModel.Wallet.Admit | 3_wallet/src/wallet.cc:110-116 | throws exactly when the cap would be passed; otherwise the units join the circulation |
| WalletModel.Wallet.FromString | 3_wallet/src/wallet.cc:108-128 | refuses a bad inscription and a passed cap, exactly; otherwise holds the inscription's units |
| WalletModel.Wallet.FromBinary | 3_wallet/src/wallet.cc:130-149 | refuses a bad or negative binary inscription; a non-negative one is refused exactly when it would take the circulation past the cap, and otherwise the wallet holds that many B, which join the circulation |
| WalletModel.Wallet.MoveFrom | 3_wallet/src/wallet.cc:47-52 | takes the balance and the history plus one entry; the source is emptied and no unit is lost |
| WalletModel.Wallet.Merge | 3_wallet/src/wallet.cc:54-64 | the sum of both balances with the documented merged history; both wallets emptied; no unit lost |
| WalletModel.Wallet.Destroy | 3_wallet/src/wallet.cc:151-153 | the balance leaves the circulation, in uint64 arithmetic |
| WalletModel.Wallet.MoveAssign | 3_wallet/src/wallet.cc:155-165 | self-assignment changes nothing; otherwise rhs's balance and history plus one entry, rhs emptied |
| WalletModel.Wallet.Plus | 3_wallet/src/wallet.cc:167-188 | both balances in a new wallet, both operands emptied, a named rhs gains an entry; for distinct operands the total is kept |
| WalletModel.Wallet.Minus | 3_wallet/src/wallet.cc:190-217 | throws, changing nothing, exactly when lhs < rhs; otherwise the difference, rhs doubled, lhs emptied; for distinct operands the total is kept, and one wallet on both sides ends at 0 with an entry of 0 when named |
| WalletModel.Wallet.AddAssign | 3_wallet/src/wallet.cc:219-237 | lhs gains rhs's balance, rhs emptied, one entry each; for distinct operands the total is kept, and `w += w` leaves w at 0 |
| WalletModel.Wallet.SubAssign | 3_wallet/src/wallet.cc:239-263 | throws, changing nothing, exactly when lhs < rhs; otherwise lhs loses rhs's balance and rhs doubles, one entry each |
| WalletModel.Wallet.Times | 3_wallet/src/wallet.cc:265-299 | throws exactly when w·n would pass the cap; otherwise w·n units join the circulation and w is untouched |
| WalletModel.Wallet.TimesAssign | 3_wallet/src/wallet.cc:301-311 | the circulation changes by w·(n-1); never throws for n = 0 or 1, which skip the guard; for n >= 2 throws exactly when that would pass the cap, and for a negative n exactly on a non-empty wallet |
| WalletModel.ComparedByBalance | 3_wallet/src/wallet.cc:313-319 | == and < order wallets totally, by balance only |
| WalletModel.Wallet.Equal | 3_wallet/src/wallet.cc:313-315 | operator==; no contract of its own, characterised by WalletModel.ComparedByBalance |
| WalletModel.Wallet.Less | 3_wallet/src/wallet.cc:317-319 | operator<; no contract of its own, characterised by WalletModel.ComparedByBalance |
| Fleet.SpeedRanges | 4_starwars/src/rebelfleet.h:10-52 | StarCruiser speeds are [99999, 299795]; Explorer and XWing speeds are [299796, 2997960] |
| Fleet.MinSpeed | 4_starwars/src/rebelfleet.h:27-40 | minSpeed; no contract of its own, characterised by Fleet.SpeedRanges |
| Fleet.MaxSpeed | 4_starwars/src/rebelfleet.h:42-52 | maxSpeed; no contract of its own, characterised by Fleet.SpeedRanges |
| Fleet.CanCounterAttack | 4_starwars/src/rebelfleet.h:98-100 | canCounterAttack; no contract of its own, characterised by Fleet.NewExplorer and Fleet.ArmedRebel |
| Fleet.ArmedRebel | 4_starwars/src/rebelfleet.h:66-69 | a StarCruiser or XWing within its speed range, able to counter-attack |
| Fleet.NewExplorer | 4_starwars/src/rebelfleet.h:71-74 | an Explorer within its speed range, without attack power, unable to counter-attack |
| Fleet.Lowered | 4_starwars/src/rebelfleet.h:91-93 | the shield never rises, reaches 0 exactly when the damage is at least the shield, and otherwise drops by the damage |
| Fleet.LoweredTwice | 4_starwars/src/imperialfleet.h:38-40 | two hits in a row do what one hit with their sum does |
| Fleet.LoweredMonotone | 4_starwars/src/imperialfleet.h:38-40 | more damage never leaves more shield |
| Fleet.TakeDamage | 4_starwars/src/rebelfleet.h:91-93 | only the shield changes, and it does not rise |
| Fleet.Attack | 4_starwars/src/imperialfleet.h:49-55 | the rebel loses the imperial's attack power; the imperial is hit back only by a rebel that can counter-attack, even one just destroyed |
| Battle.Wrap | 4_starwars/src/battle.h:60-63 | size_t arithmetic: below 2^64, and the value itself when it fits |
| Battle.Standing | 4_starwars/src/battle.h:28-44 | the number of standing ships of one side is at most the number of ships |
| Battle.StandingUpdate | 4_starwars/src/battle.h:54-63 | replacing one ship changes the count by what that ship contributes |
| Battle.OutcomeOf | 4_starwars/src/battle.h:143-149 | a draw, an imperial win, a rebel win or nothing, exactly by which counters are 0 |
| Battle.SquaresFrom | 4_starwars/src/battle.h:91-99 | the least k from n on whose square reaches t1 |
| Battle.HowMuchSquares | 4_starwars/src/battle.h:91-99 | the least k whose square reaches t1: every smaller square is below t1 |
| Battle.Schedule | 4_starwars/src/battle.h:104-111 | squaresTable; no contract of its own, characterised by Battle.ScheduleIsSquaresBelow |
| Battle.SquareMonotone | 4_starwars/src/battle.h:104-111 | squares grow with their roots |
| Battle.ScheduleIsSquaresBelow | 4_starwars/src/battle.h:89-111 | a time is in the schedule exactly when it is a square strictly below t1 |
| Battle.SquaresTable | 4_starwars/src/battle.h:104-111 | the table holds the schedule |
| Battle.Strike | 4_starwars/src/battle.h:54-64 | one attack keeps the number of ships, the attacker imperial, the clock and the size_t range of the imperial counter |
| Battle.Volley | 4_starwars/src/battle.h:49-69 | a volley keeps the same |
| Battle.Assault | 4_starwars/src/battle.h:74-86 | an assault keeps the number of ships, the clock and the counter's range |
| Battle.TickState | 4_starwars/src/battle.h:141-157 | the clock becomes (time + step) mod (t1 + 1), so it stays within [0, t1] |
| Battle.WeakenedTransitive | 4_starwars/src/battle.h:141-157 | damage composes |
| Battle.StrikeKeeps | 4_starwars/src/battle.h:54-64 | one attack raises no shield, changes nothing else, and keeps the rebel counter equal to the standing rebels |
| Battle.VolleyKeeps | 4_starwars/src/battle.h:49-69 | a volley keeps the same |
| Battle.AssaultKeeps | 4_starwars/src/battle.h:74-86 | an assault keeps the same |
| Battle.TickKeeps | 4_starwars/src/battle.h:141-157 | no tick raises a shield, and the rebel counter stays exact |
| Battle.ImperialCounterWraps | 4_starwars/src/battle.h:62-63 | a fighter destroyed by the first of two XWings is counted down twice, and the counter wraps to 2^64 - 1 |
| Battle.InitializeCounters | 4_starwars/src/battle.h:28-44 | the counters are the numbers of standing rebel and imperial ships |
| Battle.SpaceBattle.constructor | 4_starwars/src/battle.h:115-121 | the clock starts at t0 and the counters count the standing ships |
| Battle.SpaceBattle.AttackAt | 4_starwars/src/imperialfleet.h:49-55 | the two ships are replaced by the result of the attack, counters untouched |
| Battle.SpaceBattle.RebelsGetAttacked | 4_starwars/src/battle.h:49-69 | rebelsGetAttacked performs Volley |
| Battle.SpaceBattle.ImperiumAttacks | 4_starwars/src/battle.h:74-86 | imperiumAttacks performs Assault |
| Battle.SpaceBattle.Tick | 4_starwars/src/battle.h:141-157 | reports the outcome of the counters before attacking, performs TickState and keeps the battle valid |
| Battle.SpaceBattle.CountRebelFleet | 4_starwars/src/battle.h:133-135 | the rebel counter is the number of standing rebel ships |
| Battle.SpaceBattle.CountImperialFleet | 4_starwars/src/battle.h:126-128 | the imperial counter is a size_t value |
| Ownership.SupportedSurvive | 5_graf_cytowan/src/citation_graph.h:58-65 | no node of a set that supports itself is destroyed |
| Ownership.SupportedAreLive | 5_graf_cytowan/src/citation_graph.h:58-65 | a set that supports itself is entirely live after reclamation |
| Ownership.UnheldIsReclaimed | 5_graf_cytowan/src/citation_graph.h:58-65 | once reclamation is over, a non-root node that nobody holds is gone |
| Ownership.StableKept | 5_graf_cytowan/src/citation_graph.h:58-65 | reclamation destroys nothing in a graph where every non-root node is held |
| Ownership.ReachableSurvive | 5_graf_cytowan/src/citation_graph.h:41 | every node on an owning path from the root survives |
| Ownership.CyclesSurvive | 5_graf_cytowan/src/citation_graph.h:41 | two live nodes that own each other survive together |
| CitationGraph.HandlesOf | 5_graf_cytowan/src/citation_graph.h:227-228 | the handles of the listed parents, duplicates collapsed |
| CitationGraph.HandlesOfSnoc | 5_graf_cytowan/src/citation_graph.h:227-238 | one more parent adds its handle |
| CitationGraph.Attached | 5_graf_cytowan/src/citation_graph.h:233-238 | each parent gains the new node as a child and no other node changes |
| CitationGraph.AttachedOne | 5_graf_cytowan/src/citation_graph.h:237 | adding one parent's child edge |
| CitationGraph.Attach | 5_graf_cytowan/src/citation_graph.h:225-241 | a new node takes the next handle |
| CitationGraph.AttachKeeps | 5_graf_cytowan/src/citation_graph.h:225-241 | attaching keeps the graph consistent; with parents nothing is due for reclamation, and without parents only the new node is |
| CitationGraph.AttachIndexed | 5_graf_cytowan/src/citation_graph.h:240-241 | the id map still names every live node exactly once |
| CitationGraph.AttachStable | 5_graf_cytowan/src/citation_graph.h:233-238 | with parents every non-root node is held |
| CitationGraph.AttachOwned | 5_graf_cytowan/src/citation_graph.h:227-238 | every child edge has its matching parent entry |
| CitationGraph.AttachAlone | 5_graf_cytowan/src/citation_graph.h:225 | a node created without parents is held by nobody |
| CitationGraph.LoneNodeReclaimed | 5_graf_cytowan/src/citation_graph.h:225-249 | a node created without parents is destroyed on return, and the graph is as before |
| CitationGraph.StableSupports | 5_graf_cytowan/src/citation_graph.h:58-65 | the live nodes of a stable graph support themselves |
| CitationGraph.LiveAgain | 5_graf_cytowan/src/citation_graph.h:58-65 | reclaiming exactly the added node restores the prior map |
| CitationGraph.SurvivorsDropNew | 5_graf_cytowan/src/citation_graph.h:58-61 | the entry of a destroyed new node is erased and the rest of the id map kept |
| CitationGraph.AttachedKept | 5_graf_cytowan/src/citation_graph.h:225-249 | a node created with parents survives the return, and the graph is the attached one |
| CitationGraph.Detached | 5_graf_cytowan/src/citation_graph.h:289-290 | every node drops the removed node from its children |
| CitationGraph.DetachedFrom | 5_graf_cytowan/src/citation_graph.h:289-290 | the listed parents drop the removed node from their children |
| CitationGraph.DetachedFromParents | 5_graf_cytowan/src/citation_graph.h:289-290 | detaching from the recorded parents detaches from every owner |
| CitationGraph.DetachedFromOne | 5_graf_cytowan/src/citation_graph.h:290 | one more live parent drops the edge |
| CitationGraph.DetachedFromMissing | 5_graf_cytowan/src/citation_graph.h:290 | an expired parent changes nothing |
| CitationGraph.DetachKeeps | 5_graf_cytowan/src/citation_graph.h:289-290 | detaching keeps the graph consistent and leaves the removed node without an owner |
| CitationGraph.EraseKeeps | 5_graf_cytowan/src/citation_graph.h:58-65 | destroying an unheld node keeps the graph consistent and erases its id entry |
| CitationGraph.SurvivorsAll | 5_graf_cytowan/src/citation_graph.h:58-61 | while nothing is destroyed, the id map is unchanged |
| CitationGraph.ReclaimStart | 5_graf_cytowan/src/citation_graph.h:58-65 | the cascade invariant holds before anything is destroyed |
| CitationGraph.ReclaimStep | 5_graf_cytowan/src/citation_graph.h:58-65 | destroying an unheld node keeps the cascade invariant and shrinks the graph |
| CitationGraph.ReclaimDone | 5_graf_cytowan/src/citation_graph.h:58-65 | when no node is unheld, the graph is valid and the destruction order is a reclamation order |
| CitationGraph.OrderExtends | 5_graf_cytowan/src/citation_graph.h:58-65 | appending an unheld node extends a reclamation order |
| CitationGraph.AddEdgeKeeps | 5_graf_cytowan/src/citation_graph.h:260-276 | a new citation keeps the graph valid, cycles included |
| CitationGraph.AddEdgeLinked | 5_graf_cytowan/src/citation_graph.h:268-271 | a new citation keeps both edge directions consistent |
| CitationGraph.AddEdgeStable | 5_graf_cytowan/src/citation_graph.h:271 | a new citation leaves every non-root node held |
| CitationGraph.AddEdgeIdempotent | 5_graf_cytowan/src/citation_graph.h:259-276 | repeating add_citation on the same pair changes nothing, as the edges are sets |
| CitationGraph.CitationGraph.constructor | 5_graf_cytowan/src/citation_graph.h:118-124 | a fresh graph holds only the root, under the stem id |
| CitationGraph.CitationGraph.RootId | 5_graf_cytowan/src/citation_graph.h:147-149 | the root's id exists and names the root |
| CitationGraph.CitationGraph.Publication | 5_graf_cytowan/src/citation_graph.h:185-212 | fails with PublicationNotFound exactly for an absent or expired id |
| CitationGraph.Exists | 5_graf_cytowan/src/citation_graph.h:185-199 | exists; no contract of its own, the condition on which the methods' error clauses turn |
| CitationGraph.CitationGraph.Children | 5_graf_cytowan/src/citation_graph.h:152-163 | fails exactly for an absent id; otherwise the ids of the node's children |
| CitationGraph.CitationGraph.Parents | 5_graf_cytowan/src/citation_graph.h:166-179 | fails exactly for an absent id; otherwise the ids of the node's live parents, expired ones omitted |
| CitationGraph.CitationGraph.Reclaim | 5_graf_cytowan/src/citation_graph.h:58-65 | the cascade leaves a valid graph, destroys nodes in a reclamation order, and erases exactly their id entries |
| CitationGraph.CitationGraph.Insert | 5_graf_cytowan/src/citation_graph.h:225-241 | the node is attached under its parents |
| CitationGraph.CitationGraph.Create | 5_graf_cytowan/src/citation_graph.h:215-249 | each failure exactly when its check fails, changing nothing; with parents the node is attached, without them the graph is unchanged |
| CitationGraph.CitationGraph.CreateWithParent | 5_graf_cytowan/src/citation_graph.h:252-257 | create with one parent: PublicationAlreadyCreated exactly for a live id, otherwise PublicationNotFound exactly for a missing parent, otherwise success, which attaches the node under its parent; a failure changes nothing |
| CitationGraph.CitationGraph.AddCitation | 5_graf_cytowan/src/citation_graph.h:260-276 | fails exactly when either id is absent, changing nothing; otherwise both edge directions are added, with no cycle check |
| CitationGraph.CitationGraph.Remove | 5_graf_cytowan/src/citation_graph.h:279-291 | each failure exactly when its check fails, changing nothing; otherwise the node is gone and the cascade runs |
| CitationGraph.CitingOneBuilt | 5_graf_cytowan/src/citation_graph.h:225-241 | publication 1 citing the root gives the expected graph |
| CitationGraph.CitingBothBuilt | 5_graf_cytowan/src/citation_graph.h:225-241 | publication 2 citing the root and 1 gives the expected graph |
| CitationGraph.ExpiredParentKept | 5_graf_cytowan/src/citation_graph.h:60-64 | after 1 is removed, 2 still records it as a parent, so removing 2 would lock an expired parent |
| CitationGraph.ExpiredParentScenario | 5_graf_cytowan/src/citation_graph.h:279-291 | create 1 under the root, create 2 under the root and 1, then remove 1: removing 2 as written dereferences null |
| CitationGraph.CitingBothGraph | 5_graf_cytowan/src/citation_graph.h:215-249 | the calls that build the two-citation graph |
| CitationGraph.CitingOneGraph | 5_graf_cytowan/src/citation_graph.h:215-249 | the calls that build the one-citation graph |

## Left out

- Logging and printing: the debug output of the string sets, the output operators of the
  wallet, and the outcome that `tick` writes to standard output, which is returned instead.
- Timestamps of wallet operations, their comparison, and the time order in which
  `Wallet(w1, w2)` merges the two histories. The model concatenates the histories.
- `std::regex`, `std::stoi` and `pow` are restated as a grammar and integer arithmetic.
- The binary prefix "0b" that some C libraries accept with base 2 is not modelled.
- The wallet accessors `getUnits`, `opSize` and `operator[]`, and the `Empty()` wallet, only
  read state. `Wallet::Operation` is reduced to the balance it records.
- WalletModel.Wallet.TimesAssign: requires n > INT_MIN, because n - 1 overflows int there.
- WalletModel.Wallet.Plus: the sum of two balances is a natural number. A uint64 wrap of the
  sum cannot happen while the circulation stays within the cap.
- WalletModel.Wallet.Plus, WalletModel.Wallet.Minus, WalletModel.Wallet.AddAssign: with one
  wallet on both sides the total is not kept, as in the source: `std::move(w) + std::move(w)`
  doubles the balance into the result, and `std::move(w) - w` and `w += w` leave w at 0. The
  contracts state those aliased outcomes; the conservation clause holds for distinct operands only.
- WalletModel.Wallet.AddAssign: the sum at wallet.cc:221 is a natural number, for the same reason.
- WalletModel.Wallet.Minus: `2 * rhs.units` at wallet.cc:197 is a natural number, not wrapped in uint64.
- WalletModel.Wallet.SubAssign: `2 * rhs.getUnits()` at wallet.cc:246 is a natural number, not wrapped in uint64.
- WalletModel.Wallet.Merge: the sum of two balances is a natural number, for the same reason.
- The deleted constructors and `boost::ordered_field_operators` are compile-time only.
- The smart-pointer mechanics are not modelled: shared_ptr and weak_ptr control blocks,
  `owner_less` ordering and stored map iterators.
- The citation graph's move constructor and move assignment are not modelled.
- The rollback blocks of `create` and `add_citation` are not modelled. They only run when
  allocation fails.
- The publication payload is reduced to its id, and ids are natural numbers.
- The order of children and parents is pointer order and is not modelled: both are sets.
- Template machinery is replaced by runtime sequences and preconditions: the tuple recursion,
  `static_assert`, `enable_if` and the `constexpr` table.
- Shield, speed and attack power are natural numbers.
- An Explorer's attack power, which the source leaves uninitialised and never reads, is 0.
- Negative time steps are not modelled.
- Battle.SpaceBattle.Tick: `currentTime + timeStep` is not wrapped in T's width.
- The unsigned wrap-around of `next_id`, of set sizes and of handle counters is not modelled.
  The imperial counter, whose wrap is kept, is the exception.
- Characters are compared by code point, as `std::string` compares `char` values; this is
  right for the string sets, whose `char_traits` compare as `unsigned char`.
- Tst.Insert, Tst.Exist, Tst.PrefixLength: tst.h:43, 69 and 119 compare raw `char` values with
  the built-in `<`, and `char` is signed on common platforms, so bytes 0x80-0xFF sort before
  ASCII there; the model orders by code point. For such input the tree's shape and the order
  in which Tst.Fold visits characters differ from the program; membership, prefix and size do not.

## Findings

| source | as written | input that shows it | evidently intended | confidence | as-written member | corrected member |
|---|---|---|---|---|---|---|
| 5_graf_cytowan/src/citation_graph.h:289-290 | `remove` locks every recorded parent and calls through the result. The destructor never erases parent entries, because `Node` inherits `enable_shared_from_this` privately (line 33). | create 1 with parent root, create 2 with parents root and 1, remove 1, then remove 2: parent 1 has expired and the lock yields null | skip expired parents | not executed | CitationGraph.ExpiredParentScenario | CitationGraph.CitationGraph.Remove |
| 3_wallet/src/wallet.cc:56 | `Wallet(w1, w2)` sizes the merged history as 2·\|w1 history\| | w1 with two entries and w2 with one gives a stray default entry; the reverse writes past the buffer | \|w1 history\| + \|w2 history\| entries, then the new one | not executed | WalletModel.MergeLeavesStrayEntry | WalletModel.Wallet.Merge |
| 2_strset/src/strset.cc:75 | three-iterator `std::mismatch` reads the second set past its end | {"a","b"} compared with {"a"} | the documented result 1 for a longer first set | not executed | SetOrder.CompareAsWrittenReadsPastEnd | SetOrder.CompareSetsAntisymmetric |
| 3_wallet/src/wallet.cc:24 | the units after the comma are printed without zero padding | one unit prints as "0,1", which reads back as 10^7 units | eight digits after the comma | not executed | WalletText.SingleDigitFractionMisread | WalletText.PaddedRepresentationReadsBack |
