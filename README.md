# Chomsky grammar classifier and grammar constructors

This project models the non-interactive core of `main.cpp`, together with proofs about it.

A grammar has these parts:
- a list of nonterminal names;
- a list of terminal names;
- a list of production rules, each a `(lhs, rhs)` pair of strings;
- a start symbol.

The reserved string `|` stands for the empty word; the table below writes it ε.

The program has two halves.

The first half classifies a grammar in the Chomsky hierarchy (Type3, Type2, Type1, Type0, or TypeNULL for a grammar without rules):
- It reads each rule side left to right and turns it into a *pattern*: one `N` or `T` per symbol, or `E` for the empty word.
- It runs three per-rule checks (IsType3, IsType2, IsType1) on each pattern pair.
- It folds the rules into a running type. The type starts at Type3, only moves down, and stops at Type0.

The second half builds new grammars from old ones: the union, the product and the Kleene closure of grammars. Each construction does three things:
- It merges the alphabets, adding apostrophes to nonterminals whose names collide. It writes the same apostrophe into the rule texts and follows the start symbol.
- It mints fresh `S'…` and `X'…` symbols.
- It adds the bridging rules of the construction.

Modules, one file each:
- `strings.dfy`: Option; `std::string::find` and its relatives as functions on `seq<char>`.
- `grammar.dfy`: the grammar value, the grammar types and the failure values.
- `pattern.dfy`: the rule-pattern builder inlined in FindGrammarType.
- `ruletypes.dfy`: IsType3, IsType2 and IsType1.
- `classifier.dfy`: FindGrammarType.
- `alphabet.dfy`: AddTerminals, the AddNonTerminals* functions and the fresh-name loops.
- `constructors.dfy`: the AddProductionRules* functions and the three CreateGrammarFrom* functions.
- `scenarios.dfy`: small grammars that are classified, combined and classified again.

How the C++ maps to Dafny:
- Each C++ function that changes a `Grammar&` in place is a Dafny `method`. The method loops the way the source does and returns the updated grammar, so arguments are copied in and copied out. Its `ensures` equates the result with a specification function.
- The properties are proved about those functions.
- A pure computation in the source is a Dafny `function`.

Where the code behaves differently from what its documentation describes, the model follows the code:
- **Shortest match.** The pattern builder grows a prefix until the prefix names a symbol and takes it at once. It takes the *shortest* matching name, not the longest, and nonterminal names are tried before terminal names.
- **Renamed names are unreadable.** Once `S` has been renamed to `S'` while `S` is still a name, the prefix `S` is matched and the apostrophe after it names nothing. The builder then runs past the end of the string; the model returns `UnknownSymbol` (`Patterns.RenamedNameUnreadable`).
  - The union of two grammars that share `S` is therefore unreadable. So is the closure of a context-free grammar whose start is `S`, because its new start is `S'`. Neither is classified Type3 or Type2 (`Scenarios.UnionOfRegularAndSingleUnreadable`, `Scenarios.ClosureOfContextFreeUnreadable`).
- **`find` used as a boolean.** The empty-word checks in IsType3 and IsType1 use the result of `find` as a boolean. The test is false only when the text is found at position 0. As a result, a rule `X -> |` fails IsType3 and, whenever the start symbol is not the empty word, IsType1 as well.
- **Duplicate nonterminals.** The first AddNonTerminalsUnion call of a union checks clashes only against the other grammar's terminals. It neither follows the first grammar's start symbol nor looks at its own earlier names. So the merged nonterminal list can hold one name twice (`Scenarios.UnionMayRepeatName`).
- **A nonterminal can take a terminal's name.** The second AddNonTerminalsUnion call of a union checks the second grammar's nonterminals against the terminals of the grammar being built. That list is still empty at that point. So a nonterminal of the second grammar keeps a name that is a terminal of the first, and the pattern builder then reads that name as a nonterminal everywhere (`Scenarios.UnionMayNameTerminal`).
- **The last diverging occurrence wins.** When IsType1 looks for the rewritten symbol among repeated occurrences, its comment says the first occurrence whose prefix differs is taken. The loop overwrites its candidate on every divergence, so the last one is kept (`RuleTypes.RepeatedPivotKeepsLast`, with the instance `RuleTypes.PivotTakesLastDivergence`).
- **The closure of an empty grammar.** For a grammar without rules (TypeNULL) the closure is the empty grammar, which has no empty-word rule.

## Model

| member | source | states |
|---|---|---|
| Strings.FindFrom | main.cpp:51 | result is the first position at or after `from` where the text occurs; none exactly when it occurs nowhere from there |
| Strings.FindLast | main.cpp:60 | result is the last index holding the character, none only when it is absent (find_last_of) |
| Strings.FindIsZeroIffPrefix | main.cpp:51 | `find` returns 0 exactly when the string starts with the text, so the boolean test is false only for a prefix |
| Strings.FirstEqualsLastIffSingle | main.cpp:60-62 | find_first_of equals find_last_of exactly when the character occurs once |
| Strings.FindCharNone | main.cpp:47 | `find` reports npos only when the character is absent |
| Strings.FindCharSome | main.cpp:47 | `find` reports a position only when the character is present |
| Grammars.Contains | main.cpp:181-193 | the compare loop reports true exactly when the name is in the list |
| Patterns.MatchLength | main.cpp:179-199 | the prefix grown from length `k` stops at the shortest length that names a symbol; none exactly when no length up to the end names one |
| Patterns.Lookup | main.cpp:181-193 | the tag is `N` when the candidate is a nonterminal (searched first), `T` when it is only a terminal, none otherwise |
| Patterns.BuildPattern | main.cpp:171-200 | the push_back loops build exactly the shortest-match pattern; ε resets it to `E`; a side that no prefix reads gives none |
| Patterns.PatternTokens | main.cpp:171-231 | a readable side without ε is the concatenation of minimal symbol names, one per tag, whose tags spell the pattern |
| Patterns.ScanTokens | main.cpp:179-199 | from any position, the scanned tail splits into minimal names whose tags are appended to the pattern so far |
| Patterns.PatternShape | main.cpp:171-231 | a pattern is no longer than its side, holds only `N`, `T`, `E`, has `E` only first, and has no `E` unless the side holds ε |
| Patterns.SymbolPattern | main.cpp:171-200 | a side that is one minimal name reads as its single tag |
| Patterns.MinimalMatch | main.cpp:179-199 | a side starting with a minimal name matches exactly that name's length |
| Patterns.MatchFirstNamed | main.cpp:179-199 | the first named length at or after `k` is the one the scan returns |
| Patterns.ReadSymbol | main.cpp:179-199 | reading a minimal name advances the scan by its length and appends its tag |
| Patterns.RenamedNameUnreadable | main.cpp:195-198 | `b'` cannot be read when `b` is a minimal name and `'` names nothing |
| RuleTypes.AllRhsStartWith | main.cpp:50-54 | the loop passes exactly when every right side starts with the searched text |
| RuleTypes.IsType3 | main.cpp:42-70 | accepts exactly: at most one left tag; a right pattern without `N` (for `E`, only when every right side starts with the left tag); or a single `N` with no `T` at both ends |
| RuleTypes.Occurrences | main.cpp:104-114 | the count is the number of occurrences of the character |
| RuleTypes.FindRepeatedPivot | main.cpp:118-132 | the occurrence loop yields RepeatedPivot from the first occurrence, which RepeatedPivotKeepsLast characterises |
| RuleTypes.RepeatedPivotKeepsLast | main.cpp:118-132 | for all inputs: out_of_range exactly when some comparison starts past the right side's end; otherwise the start of the last diverging comparison, or the left side's last index when none diverges |
| RuleTypes.RepeatedPivotChain | main.cpp:118-132 | the same characterisation from any state of the loop, over the comparisons still to come |
| RuleTypes.ChainSplit | main.cpp:118-127 | the comparisons still to come are the one at the previous occurrence against the next, then only comparisons that start at that occurrence or further right |
| RuleTypes.RepeatedPivotStep | main.cpp:120-128 | one turn of the occurrence loop moves to the next occurrence and records a divergence |
| RuleTypes.PivotTakesLastDivergence | main.cpp:116-128 | on `AAA -> BBAA` the prefixes differ already at the first occurrence of `A`, yet the pivot is the second occurrence |
| RuleTypes.FindPivot | main.cpp:95-136 | the pivot search yields Pivot, which PivotIsFirstAbsent and PivotAtFirstRepeat characterise |
| RuleTypes.PivotSkipsSingles | main.cpp:96-100 | the scan passes over characters that occur on the right side and once on the left |
| RuleTypes.PivotIsFirstAbsent | main.cpp:96-99 | after characters found on the right and single on the left, the first character missing from the right side is the pivot; with none, the scan ends at the left side's length |
| RuleTypes.PivotAtFirstRepeat | main.cpp:100-135 | at the first character found on the right and repeated on the left, the occurrence loop decides when the two sides count it differently, and otherwise that character's position is the pivot |
| RuleTypes.Contexts | main.cpp:138-147 | the left context is the text before the pivot and the right context the text after it |
| RuleTypes.IsType1 | main.cpp:77-163 | equals the Type1 verdict; rejects a rule whose left pattern is longer than its right; rejects `E` unless the raw left side is the start symbol; none where `compare` throws |
| RuleTypes.EpsilonRuleNotType3 | main.cpp:47-54 | a one-tag rule `X -> ε` fails IsType3, because its own right side does not start with the tag |
| RuleTypes.EpsilonRuleNotType1 | main.cpp:82-91 | a rule `X -> ε` fails IsType1 whenever the start symbol is not empty and not ε |
| RuleTypes.Type1KeepsContexts | main.cpp:138-159 | an accepted rule with context has a pivot; the right side keeps the left context as a prefix and, when there is a right context, keeps it exactly at the same length |
| Classifier.FindGrammarType | main.cpp:165-253 | the scan over the rules returns exactly Classify (the fold from Type3, or TypeNULL, down to Type0, with the failures) |
| Classifier.ClassifyFromMonotone | main.cpp:233-249 | the running type never rises |
| Classifier.NullIffNoRules | main.cpp:166 | TypeNULL comes back exactly for a grammar without rules |
| Classifier.ClassifyFromBound | main.cpp:168-250 | from any point, the result is no stricter than any later rule allows on its own |
| Classifier.ClassifyBound | main.cpp:168-250 | the class is no stricter than any one rule allows on its own |
| Classifier.MultiTagLhsNotContextFree | main.cpp:239-243 | a rule with several left tags leaves the grammar Type1 or Type0 |
| Classifier.FirstRuleType0Decides | main.cpp:168 | once the first rule gives Type0 the scan stops, whatever the later rules hold |
| Classifier.Type3Iff | main.cpp:166-237 | Type3 exactly when there are rules and every rule reads and passes IsType3 |
| Classifier.AllType3From | main.cpp:233-237 | rules that all pass IsType3 keep the running type at Type3 |
| Classifier.ReachesEveryRule | main.cpp:168 | a scan that stays above Type0 reads every rule |
| Classifier.ContextFree | main.cpp:233-243 | rules that all read with one left tag give Type2 or Type3; conversely Type2/Type3 means every rule reads and passes IsType3 or IsType2 |
| Classifier.AllType2From | main.cpp:238-243 | one-left-tag rules keep a Type2/Type3 running type in Type2/Type3 |
| Classifier.EpsilonRuleBlocksType3 | main.cpp:47-54 | a grammar with a one-tag rule `X -> ε` is never Type3 |
| Alphabet.MergeTerminals | main.cpp:257-270 | the old terminals stay a prefix, only absent terminals of the other grammar are appended, all of them end up present, no duplicate is introduced |
| Alphabet.AddTerminals | main.cpp:257-270 | only the terminals change, to the merged list |
| Alphabet.SpliceSide | main.cpp:292-302 | one rule side is rewritten as specified by the splice |
| Alphabet.SpliceRules | main.cpp:291-317 | the splice keeps the number of rules |
| Alphabet.SpliceAllRules | main.cpp:291-317 | every rule's two sides are spliced |
| Alphabet.SpliceAppendsApostrophe | main.cpp:295-301 | for a name that is one character plus apostrophes, the splice appends an apostrophe to its first occurrence |
| Alphabet.ApostrophesCommute | main.cpp:295-301 | a run of apostrophes with one more in front equals the run with one more at the end |
| Alphabet.SpliceRegroup | main.cpp:295-301 | regrouping the splice's pieces gives the same string |
| Alphabet.SpliceBreaksLongerName | main.cpp:295-301 | for the longer name `AB` the splice writes `A'B` rather than `AB'` |
| Alphabet.MaxLength | main.cpp:344-404 | bounds the length of every name, the measure that ends the apostrophe loops |
| Alphabet.PrimedStep | main.cpp:286 | a name primed from `b'` is primed from `b` |
| Alphabet.RenameFrom | main.cpp:277-319 | the final name is the incoming name plus apostrophes and clashes with nothing; the followed start moves with the name and only with it; a name that is already free is unchanged |
| Alphabet.RenameSymbol | main.cpp:344-404 | the do-while loop yields the specified renaming against nonterminals, then terminals |
| Alphabet.SeedFrom | main.cpp:276-321 | appends one name per remaining nonterminal and otherwise changes only the names and the rules |
| Alphabet.MergeFrom | main.cpp:342-406 | appends one name per remaining nonterminal and otherwise changes only the names and the rules |
| Alphabet.SeedNonTerminals | main.cpp:276-321 | the loop yields the specified first-branch merge |
| Alphabet.MergeNonTerminals | main.cpp:342-406 | the loop yields the specified second-branch merge |
| Alphabet.FreshName | main.cpp:323-339 | the fresh symbol is the base plus apostrophes and absent from the list |
| Alphabet.MintFresh | main.cpp:323-339 | the do-while loop yields that fresh symbol |
| Alphabet.AddNonTerminalsUnion | main.cpp:273-408 | the method yields the specified two-branch merge and fresh start |
| Alphabet.AddNonTerminalsProduct3 | main.cpp:434-557 | the method yields the specified merge, which follows the start symbols of the two global grammars |
| Alphabet.AppendNonTerminals | main.cpp:678-680 | only the nonterminals change, extended by the incoming ones |
| Alphabet.AddNonTerminalsClosure23 | main.cpp:677-699 | the incoming nonterminals, then a fresh start |
| Alphabet.AddNonTerminalsClosure01 | main.cpp:619-658 | the incoming nonterminals, a fresh start, then a fresh helper `X` |
| Alphabet.SeedAvoids | main.cpp:276-321 | the first branch keeps the existing names, appends each incoming name primed and outside the given terminals, and writes it back into the other grammar |
| Alphabet.AppendedFreshCons | main.cpp:342-406 | appending one fresh primed name extends a fresh run |
| Alphabet.MergeShape | main.cpp:342-406 | the second branch keeps the existing names as a prefix and appends exactly the renamed incoming names |
| Alphabet.MergeAppendsFresh | main.cpp:342-406 | each appended name is primed from its source and, when appended, differs from every nonterminal and terminal already present |
| Alphabet.MergeFollowsStart | main.cpp:366-368 | the followed start is unchanged or one of the appended names; a start that is among the incoming nonterminals ends on an appended name |
| Alphabet.SeedFollowsStart | main.cpp:476-488 | the followed start is unchanged or one of the appended names; a start that is among the incoming nonterminals ends on an appended name |
| Alphabet.AppendedFreshDistinct | main.cpp:342-406 | fresh appended names keep a duplicate-free list duplicate-free and avoid the terminals |
| Alphabet.MergeKeepsNamesDistinct | main.cpp:342-406 | the second branch keeps the nonterminals duplicate-free and never appends a terminal's name |
| Constructors.AppendRules | main.cpp:411-413 | appends the rules in order |
| Constructors.AddProductionRulesUnion | main.cpp:410-416 | the rules, then the bridge from the new start |
| Constructors.CreateGrammarFromUnion | main.cpp:418-431 | the method yields the specified union |
| Constructors.MergedTerminals | main.cpp:424-425 | the union's terminals are duplicate-free and are exactly the two grammars' terminals |
| Constructors.UnionAlphabet | main.cpp:418-431 | the union's nonterminals are the first grammar's primed names (avoiding the second's terminals), the fresh start, then the second's names appended fresh; its terminals are the merged list |
| Constructors.UnionParts | main.cpp:421-425 | the union's names come from the second call's merge; the first call leaves the terminals empty |
| Constructors.UnionFirstAlphabet | main.cpp:276-339 | the first call gives one primed name per nonterminal, then a fresh `S…` start absent from them |
| Constructors.SeedIntoEmpty | main.cpp:276-321 | seeding an empty grammar gives one primed name per nonterminal, each outside the given terminals |
| Constructors.UnionSecondAlphabet | main.cpp:422 | the second call keeps the first call's names and appends the second grammar's names fresh |
| Constructors.UnionRuleLayout | main.cpp:427-428 | the renamed first grammar's rules, the bridge to the first grammar's unrenamed start, then the second grammar's rules and a bridge from the new start |
| Constructors.UnionRulesConcat | main.cpp:427-428 | the union's rule list is the two renamed lists, each followed by its bridge |
| Constructors.UnionFollowsSecondStart | main.cpp:342-416 | the final bridge targets one of the second grammar's appended names |
| Constructors.AddProductionRulesProduct012 | main.cpp:559-568 | both rule lists, then one rule from the new start to both starts |
| Constructors.HasNonTerminal | main.cpp:572-577 | the search with `break` reports exactly whether a right side mentions a nonterminal |
| Constructors.Bridged | main.cpp:570-590 | each exit rule has the start appended and every other rule is kept |
| Constructors.AddProductionRulesProduct3 | main.cpp:570-590 | the method yields the specified rules, and the first grammar's rules are left bridged in place |
| Constructors.CreateGrammarFromProduct | main.cpp:592-617 | the method yields the specified product |
| Constructors.ProductSkipsSecondClassification | main.cpp:596 | when the first grammar is not Type3 the second is never classified, and the union form is built |
| Constructors.ProductFailure | main.cpp:595-596 | the product fails exactly when a classification it performs fails |
| Constructors.ProductByUnionMatchesUnion | main.cpp:604-613 | the non-regular product shares the union's alphabet and rules, and joins the two bridges into one rule |
| Constructors.RegularProductLayout | main.cpp:597-603 | the regular product has both name lists and rule lists; its exits are extended by the second grammar's unrenamed start; its start is the followed global one; this holds for every first grammar, one without nonterminals included |
| Constructors.RegularProductStartIsOwn | main.cpp:434-489 | when the first global start is one of the first grammar's nonterminals, the product's start is one of the names that grammar contributed |
| Constructors.RegularProductBridgesToStaleStart | main.cpp:570-590 | for two one-rule grammars over `S`, the bridge goes to `S`, the first grammar's own start, instead of the renamed `S'`, so the product derives no terminal word |
| Constructors.StaleTerminals | main.cpp:600-601 | the terminal merge of that example |
| Constructors.StaleBridge | main.cpp:571-585 | the bridge of that example |
| Constructors.StaleFirstGrammar | main.cpp:434-489 | the first call of that example |
| Constructors.StaleSecondGrammar | main.cpp:490-556 | the second call of that example |
| Constructors.TerminalRules | main.cpp:671-674 | two rules per terminal, in order |
| Constructors.TerminalRulesSnoc | main.cpp:671-674 | one more terminal adds its two rules at the end |
| Constructors.AddProductionRulesClosure01 | main.cpp:660-675 | the method yields the specified Type0/Type1 closure rules |
| Constructors.AddProductionRulesClosure2 | main.cpp:701-708 | the method yields the incoming rules, `S -> S start` and `S -> ε` |
| Constructors.ExitCopies | main.cpp:715-728 | at most one copy per rule |
| Constructors.ExitCopiesExactly | main.cpp:715-728 | the copies are exactly the exit rules with the start appended |
| Constructors.ExitCopiesSnoc | main.cpp:715-728 | one more rule adds its copy when it is an exit |
| Constructors.AddProductionRulesClosure3 | main.cpp:710-732 | the method yields the specified Type3 closure rules, and the incoming rules are left bridged in place |
| Constructors.CreateGrammarFromClosure | main.cpp:734-766 | the method yields the construction the classification picks |
| Constructors.Closure01Layout | main.cpp:619-675 | a fresh `S…` and then a fresh `X…` are added; the rules are kept as a prefix, then come exactly 3 + 2·(number of terminals) new rules |
| Constructors.Closure01Names | main.cpp:619-658 | the two fresh names differ from each other and from the old nonterminals |
| Constructors.Closure01RuleList | main.cpp:660-675 | the rules are kept as a prefix, followed by exactly the three start rules and two rules per terminal |
| Constructors.Closure2Layout | main.cpp:677-708 | a fresh start, the rules kept, then exactly `S -> S start` and `S -> ε` |
| Constructors.Closure3Layout | main.cpp:677-732 | a fresh start; the rules kept; one copy of each exit extended by the start; then `S -> start` and `S -> ε` |
| Constructors.ClosureAddsEmptyWord | main.cpp:734-766 | the closure fails exactly when classification fails; TypeNULL gives the empty grammar; otherwise there is a fresh start, an empty-word rule and the original rules as a prefix |
| Scenarios.RegularIsType3 | main.cpp:165-253 | `S -> aA, A -> b` is Type3 |
| Scenarios.ContextFreeIsType2 | main.cpp:165-253 | `S -> AB, A -> aA, A -> a, B -> bB, B -> b` is Type2 |
| Scenarios.UnionOfRegularAndSingle | main.cpp:418-431 | the union of the regular grammar with `X -> x` is computed in full |
| Scenarios.UnionMayRepeatName | main.cpp:275-321 | a union whose merged nonterminal list holds `A'` twice |
| Scenarios.UnionMayNameTerminal | main.cpp:342-406 | a union in which `x` is both a nonterminal and a terminal, and reads as a nonterminal |
| Scenarios.UnionOfRegularAndSingleUnreadable | main.cpp:195-198 | that union cannot be classified: the left side `S'` of rule 2 cannot be read |
| Scenarios.ClosureOfContextFree | main.cpp:734-766 | the closure of the context-free grammar is computed in full |
| Scenarios.ClosureOfContextFreeUnreadable | main.cpp:195-198 | that closure cannot be classified: the left side `S'` of rule 5 cannot be read |

## Left out

- PrintGrammar, ReadGrammar, RunMenu and the menu loop of `main` (main.cpp:23-40, 770-969) are console I/O and are not modelled. The grammars in `scenarios.dfy` are small, hand-written values, not the demonstration grammars of `main`.
- The global grammars `gram1`/`gram2` are not modelled as globals. AddNonTerminalsProduct3 reads and writes their start symbols, so the model passes those start symbols in and out as an explicit `Globals` value. CreateGrammarFromProduct takes that value as well, because `main` calls it on the globals themselves.
- Update in place through `Grammar&` is modelled as value in, value out. In the source no two reference arguments alias each other, so nothing is lost.
- The undefined behaviour of a pattern scan that runs past the end of a rule side (main.cpp:195-198, 226-229) is modelled as the error `UnknownSymbol(rule, side)`. The `std::out_of_range` that `compare` throws inside IsType1 is modelled as `OutOfRange(rule)`. Nothing beyond the error value is modelled.
- Integer widths are not modelled. The source's `size_t` and `int` counters never come near their limits on grammars that fit in memory.
- Derivation and recognition of strings are not modelled, because the source has neither.
- RuleTypes.EpsilonRuleNotType1: requires the start symbol to be neither empty nor `|`. With such a start, `find` can return 0 on every right side, and the rule passes.

