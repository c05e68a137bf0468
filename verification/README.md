# Syntax analysis lab: a Dafny model

This project models the four grammar algorithms of the syntax-analysis lab and proves properties of them:

- **Left-recursion elimination** (`elimination_left_recur.py`) over token-list productions. The model is module `LeftRecursion`.
- **Left factoring** (`left_factor.py`) over production strings. The model is module `LeftFactoring`.
- **FIRST and FOLLOW sets** (`first_and_follow_set.py`, and the near-copy in `ll1_parser.py`) over single-character symbols. The models are modules `CharGrammar`, `FirstSets` and `FollowSets`.
- **The predictive parsing table and the table-driven parser** (`ll1_parser.py`). The model is module `LL1`.

Three further modules hold concrete examples:

- `FollowExamples` holds a grammar on which the two FOLLOW implementations go wrong.
- `LL1Demo` holds the grammar and input of `ll1_parser.py`'s `main`.
- `Common` holds the fresh-name allocator shared by both transformers: append `'` until the name is free.

Every algorithm is a pure function over sequences, maps and sets.

- The grow-until-stable loops terminate by an explicit measure: the pairs (key, symbol) not yet present within a finite bound.
- FIRST is the least fixed point of the per-production rule of `get_first`.
- FOLLOW has three variants:
  - `StopAtTerminal` is `first_and_follow_set.py`.
  - `SkipTerminal` is `ll1_parser.py`.
  - `Textbook` is the definition both evidently intend.
- The parser is a step function driven by fuel.

Symbols are characters. A symbol is a nonterminal exactly when it is an ASCII upper-case letter, so `ε` and `$` are not nonterminals. The code's quirks are modelled as written:

- A non-recursive `ε` alternative becomes `ε Ai'` after left-recursion elimination.
- The whole `ε` group of left factoring emits a single `ε`.
- The fresh name of left factoring is checked only against the results produced so far, so it can coincide with a left-hand side not yet processed. `LeftFactoring.FreshNameCollides` shows the two rules merging.
- In the LL(1) table, a later production overwrites an earlier one in the same cell.

Where the code and the usual definitions disagree, the model follows the code and proves the disagreement; see "Findings".

## Model

| member | source | states |
|---|---|---|
| Common.FreshFrom | left_factor.py:62-64 | the `while` loop that appends `'` from a given primed candidate: the result is the base plus primes, not taken, no shorter than the candidate, and every primed name shorter than it was taken (the same loop is elimination_left_recur.py:59-61) |
| Common.FreshName | elimination_left_recur.py:59-61 | the allocated name is the base followed by one or more primes and is not among the taken names |
| Common.FreshNameFirst | left_factor.py:62-64 | every shorter primed name was taken, so the allocator returns the first free one |
| Common.PrimedIsBasePlusPrimes | elimination_left_recur.py:59-61 | a primed name is exactly the base followed by as many `'` as its extra length |
| LeftRecursion.FromDeclarations | elimination_left_recur.py:11-17 | no ensures; the grammar after reading the declarations in order, stated by FromDeclarationsOrder and FromDeclarationsAlternatives |
| LeftRecursion.AddProduction | elimination_left_recur.py:11-17 | the new alternatives are appended after the existing ones; a nonterminal is listed once, at its first declaration; every other entry is unchanged |
| LeftRecursion.FromDeclarationsOrder | elimination_left_recur.py:11-17 | declaring a sequence of rules lists each nonterminal once, in order of first declaration, with keys and list in agreement |
| LeftRecursion.FromDeclarationsAlternatives | elimination_left_recur.py:15-17 | the productions of a nonterminal are all its declared alternatives, across repeated declarations, in order |
| LeftRecursion.NonterminalSet | elimination_left_recur.py:25-26 | the set holds exactly the listed nonterminals and, with no repeats, has as many elements |
| LeftRecursion.PrependEach | elimination_left_recur.py:39-41 | one new production per finalised production of `Aj`, each that production followed by the tail |
| LeftRecursion.Substitute | elimination_left_recur.py:35-44 | without any production led by `Aj` the list is unchanged; non-empty replacements keep every production non-empty |
| LeftRecursion.SubstituteOrigin | elimination_left_recur.py:36-43 | every resulting production is a kept one not led by `Aj`, or `delta + tail` of a production led by `Aj` |
| LeftRecursion.SubstituteLeads | elimination_left_recur.py:33-44 | when no production of `Aj` begins with a symbol x, no production after substituting `Aj` begins with x, provided x is `Aj` or no old production began with x |
| LeftRecursion.SubstituteAppend | elimination_left_recur.py:36-43 | substitution works production by production, so it distributes over concatenation and keeps order |
| LeftRecursion.SubstituteOne | elimination_left_recur.py:36-43 | a production not led by `Aj` is kept in place; one led by `Aj` is replaced, in place, by `delta + tail` for every finalised delta in order; with SubstituteAppend this fixes the whole result |
| LeftRecursion.SubstituteComplete | elimination_left_recur.py:36-43 | every production not led by `Aj` survives, and every `delta + tail` of a production led by `Aj` appears: the converse of SubstituteOrigin |
| LeftRecursion.RecursiveTails | elimination_left_recur.py:50-54 | alpha holds exactly the tails of the productions led by `Ai`, and is empty exactly when none is |
| LeftRecursion.NonRecursive | elimination_left_recur.py:50-56 | beta holds exactly the productions not led by `Ai`; alpha and beta together have as many entries as the productions |
| LeftRecursion.RecursiveTailsAppend | elimination_left_recur.py:52-54 | alpha is built production by production, so it distributes over concatenation |
| LeftRecursion.NonRecursiveAppend | elimination_left_recur.py:52-56 | beta is built production by production, so it distributes over concatenation |
| LeftRecursion.SplitOne | elimination_left_recur.py:52-56 | one production led by `Ai` contributes its tail to alpha and nothing to beta; any other contributes itself to beta and nothing to alpha; with the two Append lemmas this fixes alpha and beta in source order, repeats included |
| LeftRecursion.AppendEach | elimination_left_recur.py:64-68 | each production gets the fresh name appended, in order |
| LeftRecursion.PrimeFor | elimination_left_recur.py:59-61 | no ensures; the name allocated for `Ai`, checked against both `self.productions` and `new_productions`; stated by Common.FreshName and RemoveDirectSplit (primed from `Ai`, in neither map) |
| LeftRecursion.RemoveDirectLeftRecursion | elimination_left_recur.py:49-71 | without direct recursion the productions are finalised unchanged and no name is added; with it one fresh name is listed and finalised with `Ai`; other finalised entries are untouched |
| LeftRecursion.RemoveDirectSplit | elimination_left_recur.py:57-69 | the fresh name is `Ai` plus primes and is new; `Ai` gets `b + [Ai']` for each `b` of beta; `Ai'` gets `a + [Ai']` for each `a` of alpha and then `ε`, index by index (beta and alpha follow the source order by NonRecursiveAppend, RecursiveTailsAppend and SplitOne) |
| LeftRecursion.RemoveDirectLeads | elimination_left_recur.py:49-71 | the finalised productions of `Ai` are non-empty and none begins with `Ai`, nor with a symbol none of them began with before |
| LeftRecursion.SubstituteEarlier | elimination_left_recur.py:33-44 | the `for j in range(i)` loop: substituting every earlier finalised `Aj` in turn keeps every production non-empty; its ordering effect is stated by SubstituteEarlierLeads |
| LeftRecursion.EliminationStep | elimination_left_recur.py:31-46 | no ensures; one iteration of the `for i` loop, stated by StepLeadsNew, StepFrame, StepLeads and StepNames |
| LeftRecursion.SubstituteEarlierLeads | elimination_left_recur.py:31-44 | after the substitutions for all earlier `Aj`, no production of `Ai` begins with any of them |
| LeftRecursion.StepLeadsNew | elimination_left_recur.py:31-46 | after processing `Ai`, no production of `Ai` begins with any `Aj` for j ≤ i |
| LeftRecursion.StepFrame | elimination_left_recur.py:31-46 | processing `Ai` leaves every earlier finalised nonterminal's productions unchanged |
| LeftRecursion.StepLeads | elimination_left_recur.py:31-46 | the ordering property for all processed nonterminals is preserved by processing the next one |
| LeftRecursion.StepNames | elimination_left_recur.py:31-62 | after processing `Ai` the list of names is duplicate-free, starts with the declared names, and continues only with finalised primed names that are not declared |
| LeftRecursion.PrimeRowNonEmpty | elimination_left_recur.py:66-69 | the fresh nonterminal always has at least its `ε` production |
| LeftRecursion.EliminateFrom | elimination_left_recur.py:31-46 | processing the remaining nonterminals keeps every name, ordering and non-emptiness property up to the last nonterminal |
| LeftRecursion.FinishedGrammar | elimination_left_recur.py:47 | the finalised productions form a consistent grammar holding every original nonterminal |
| LeftRecursion.ListedFinished | elimination_left_recur.py:47 | every listed nonterminal has finalised productions |
| LeftRecursion.FinishedListed | elimination_left_recur.py:62 | every finalised nonterminal is listed |
| LeftRecursion.EliminateLeftRecursion | elimination_left_recur.py:28-47 | original nonterminals keep their places and keys, fresh ones are appended primed names of them; no production of the i-th original nonterminal begins with the j-th for j ≤ i; productions stay non-empty |
| LeftRecursion.GetAllTerminals | elimination_left_recur.py:73-81 | the terminals are exactly the production symbols that are neither listed nonterminals (primes included) nor `ε`; productions and list unchanged |
| LeftFactoring.GroupKey | left_factor.py:6-9 | no ensures; the key of a production, stated by EpsilonGroups and FilterMembers |
| LeftFactoring.Groups | left_factor.py:3-11 | `find_common_prefix_groups`: the groups' keys are pairwise distinct; their members are stated by GroupsMembers and GroupsCover |
| LeftFactoring.FilterMembers | left_factor.py:3-11 | a group holds exactly the productions with its key |
| LeftFactoring.AddToGroups | left_factor.py:4-10 | a production joins the group of its key at the end, or opens a new last group; other groups unchanged; keys stay distinct |
| LeftFactoring.GroupsMembers | left_factor.py:3-11 | every group is non-empty and holds exactly the productions with its key, in input order |
| LeftFactoring.GroupsCover | left_factor.py:3-11 | every production's key has a group |
| LeftFactoring.GroupsOfDistinct | left_factor.py:3-11 | productions with pairwise distinct keys form one singleton group each, in order |
| LeftFactoring.GroupsOneKey | left_factor.py:3-11 | productions sharing one key form a single group in input order |
| LeftFactoring.EpsilonGroups | left_factor.py:6-7 | `ε` and the empty string fall into one group keyed `ε` |
| LeftFactoring.MinLength | left_factor.py:20 | the result is the length of the shortest string |
| LeftFactoring.CommonLength | left_factor.py:21-24 | the strings agree on every index up to the result, and disagree at it unless the shortest string ends there |
| LeftFactoring.LongestCommonPrefix | left_factor.py:13-24 | empty for no strings, the string itself for one, a prefix of every string, and maximal: the shortest string is used up or the strings disagree right after it |
| LeftFactoring.LongestCommonPrefixGreatest | left_factor.py:13-24 | every common prefix is a prefix of the result |
| LeftFactoring.LongestCommonPrefixNonEmpty | left_factor.py:60-61 | strings that all start with one character have a non-empty common prefix, so the branch at lines 77-78 is dead for real-character groups |
| LeftFactoring.Remainders | left_factor.py:70-73 | one remainder per production, in order: what follows the prefix, with `ε` for nothing |
| LeftFactoring.Remainder | left_factor.py:72-73 | no ensures; one remainder, stated by RemainderRestores |
| LeftFactoring.RemainderRestores | left_factor.py:70-73 | prefix plus remainder gives back the production |
| LeftFactoring.RemaindersLighter | left_factor.py:70-76 | the remainders of a factored group are strictly lighter than the group, so the recursion terminates |
| LeftFactoring.Emit | left_factor.py:52-67 | no ensures; appending to `result[symbol]` on the `defaultdict`, stated by EmitOnto and ProductionsConfined |
| LeftFactoring.ProcessGroups | left_factor.py:50-78 | the `for prefix, group` loop keeps every key and, with at least one group, gives the symbol a key; what it appends is stated by ProductionsEmits |
| LeftFactoring.ProcessGroup | left_factor.py:51-78 | one group keeps every key and gives the symbol a key; the `ε` group emits `ε`, a singleton its member, a larger group prefix plus fresh name, as ProductionsEmits states |
| LeftFactoring.ProcessFactored | left_factor.py:60-76 | a factored group keeps every key and gives the symbol a key; the fresh name and its productions are stated by FactoredNewSymbol and FactoredConfined |
| LeftFactoring.ProcessProductions | left_factor.py:43-78 | processing adds the symbol as a key and keeps every existing key |
| LeftFactoring.ProductionsConfined | left_factor.py:43-78 | processing a symbol only appends to entries already present, and changes no entry other than the symbol's and those of its primed names |
| LeftFactoring.ProductionsEmits | left_factor.py:50-78 | the symbol's new productions are, group by group in order, `ε` for the `ε` group, the single member of a singleton group, and prefix plus fresh name for a larger group |
| LeftFactoring.FactoredNewSymbol | left_factor.py:60-76 | a larger group emits prefix plus a primed name not yet in the result, and that name's productions are the processed remainders |
| LeftFactoring.FactoredConfined | left_factor.py:62-76 | factoring a group appends exactly prefix plus fresh name to the symbol |
| LeftFactoring.ProcessProductionsFactored | left_factor.py:50-78 | one call leaves the symbol with productions whose first characters are pairwise distinct, with `ε` only as the text `ε` |
| LeftFactoring.FactoredUnchanged | left_factor.py:50-57 | productions that are already factored are emitted unchanged and in order |
| LeftFactoring.FactoringIdempotent | left_factor.py:43-78 | factoring the output of one call again changes nothing |
| LeftFactoring.AddRule | left_factor.py:37 | no ensures; `grammar[lhs].extend(...)`, stated by AddRuleShape |
| LeftFactoring.ReadGrammar | left_factor.py:31-39 | no ensures; the `grammar` dictionary built from the lines, stated by ReadGrammarMerges and ReadGrammarCovers |
| LeftFactoring.AddRuleShape | left_factor.py:37 | a line with a new left-hand side opens a new last entry; a line with a known one appends its alternatives to that entry, and nothing else changes |
| LeftFactoring.FirstDeclaredMembers | left_factor.py:31-39 | the left-hand sides in order of first declaration are duplicate-free and are exactly the declared ones |
| LeftFactoring.ReadGrammarMerges | left_factor.py:31-39 | reading the lines gives one entry per left-hand side, in order of first declaration, holding every alternative declared for it on any line, in order |
| LeftFactoring.ReadGrammarCovers | left_factor.py:31-39 | the read grammar's left-hand sides are distinct and declared, and every line's left-hand side has an entry at least as long as the line's alternatives |
| LeftFactoring.ExtractFirst | left_factor.py:81-84 | the result after the first n entries gives each of their left-hand sides with alternatives a key |
| LeftFactoring.FactorRules | left_factor.py:81-84 | processing the entries in order gives every left-hand side with alternatives a key |
| LeftFactoring.ExtractLeftFactoring | left_factor.py:26-84 | lines are merged by left-hand side before factoring; every left-hand side with alternatives becomes a key of the result |
| LeftFactoring.ExtractKeys | left_factor.py:81-84 | every key of the result is a left-hand side or a primed left-hand side |
| LeftFactoring.ExtractFactored | left_factor.py:26-84 | when no left-hand side is a primed form of another, every left-hand side ends up factored, including one declared on several lines |
| LeftFactoring.FactorOneGroup | left_factor.py:60-76 | a rule whose alternatives share a first character becomes prefix plus `X'`, with `X'` deriving the remainders |
| LeftFactoring.FreshNameCollides | left_factor.py:62-64 | a later left-hand side `X'` is not seen when `X'` is allocated, so its productions are appended to the remainders |
| LeftFactoring.ExampleFreshNameCollides | left_factor.py:62-64 | the alternatives `ab`, `ac` of `S` followed by a declared `S' -> x` leave `S'` with `b`, `c`, `x`: the invented and the declared `S'` share one entry |
| LeftFactoring.ExampleFactorsCommonLetter | left_factor.py:90 | the alternatives `ab`, `ac`, `ad` of `X` become `aX'`, and `X'` gets `b`, `c`, `d` |
| LeftFactoring.ExampleRepeatedLhs | left_factor.py:37 | the lines `X -> ab` and `X -> ac` are merged, and factor as one line holding both alternatives does, into `aX'` and `X'` with `b`, `c` |
| LeftFactoring.ExampleEpsilonGroup | left_factor.py:51-53 | the alternatives `ε`, `b`, empty, `ε` give just `ε` and `b` |
| CharGrammar.IsNonTerminal | first_and_follow_set.py:81-83 | no ensures; `symbol.isupper()` on ASCII letters (also ll1_parser.py:57-58), stated by SpecialsAreNotNonTerminals |
| CharGrammar.SpecialsAreNotNonTerminals | first_and_follow_set.py:81-83 | neither `ε` nor `$` counts as a nonterminal |
| CharGrammar.Add | first_and_follow_set.py:65 | no ensures; `set.update` on one entry of a table, stated by AddGrows |
| CharGrammar.AddGrows | first_and_follow_set.py:65 | an update only adds to the updated set and leaves the others alone |
| CharGrammar.GrowthShrinksRoom | first_and_follow_set.py:53-75 | a strict growth within the bound shrinks the room left, the loops' termination measure |
| FirstSets.ScanFirst | first_and_follow_set.py:31-38 | no ensures; the left-to-right scan of one production, stated by ScanFirstMembers |
| FirstSets.FirstOfBody | ll1_parser.py:76-88 | no ensures; `get_first_of_production`, and one production's share of `get_first`, stated by FirstOfBodyMembers and FirstOfTerminalStart |
| FirstSets.ScanFirstMembers | first_and_follow_set.py:31-38 | the scan yields a symbol exactly when some position reached after only nullable nonterminals holds it as a non-nonterminal, or as a non-`ε` member of a nonterminal's FIRST set |
| FirstSets.FirstOfBodyMembers | ll1_parser.py:76-88 | FIRST of a production is the scan's result plus `ε` exactly when every symbol is a nullable nonterminal |
| FirstSets.FirstOfTerminalStart | ll1_parser.py:78-81 | a production starting with a non-nonterminal `t` has FIRST exactly `{t}` |
| FirstSets.FirstOfBodyMonotone | ll1_parser.py:76-88 | larger FIRST tables give larger FIRST sets of productions |
| FirstSets.RuleFirst | first_and_follow_set.py:30-43 | no ensures; the union over a head's productions, stated by RuleFirstMembers |
| FirstSets.RuleFirstMembers | first_and_follow_set.py:30-43 | a head's new FIRST set is the union over its productions |
| FirstSets.FirstStep | first_and_follow_set.py:30-46 | no ensures; the rule of `get_first` applied to every head, stated by FirstStepMonotone, and its least fixed point by FirstOfGrammarLeast and FirstOfGrammarMembers |
| FirstSets.FirstStepMonotone | first_and_follow_set.py:22-46 | one application of the rule to all heads is monotone |
| FirstSets.ScanFirstBounded | first_and_follow_set.py:31-38 | FIRST sets never hold a symbol outside the production symbols and the sets read |
| FirstSets.Iterate | first_and_follow_set.py:22-46 | iterating the rule from below reaches a table the rule leaves unchanged, within the bound |
| FirstSets.FirstOfGrammar | first_and_follow_set.py:16-20 | the FIRST table has an entry for exactly the heads and is a fixed point of the per-production rule |
| FirstSets.FirstOfGrammarLeast | first_and_follow_set.py:22-46 | the FIRST table lies below every table on the heads that the rule does not enlarge |
| FirstSets.FirstOfGrammarMembers | first_and_follow_set.py:29-46 | a symbol is in FIRST(X) exactly when it is in FIRST of some production of X |
| FirstSets.FirstReaches | first_and_follow_set.py:31-38 | a symbol reached after only nullable nonterminals, or a non-`ε` member of such a nonterminal's FIRST, is in FIRST(X) |
| FirstSets.FirstNullable | first_and_follow_set.py:41-43 | a production of only nullable nonterminals puts `ε` in FIRST(X) |
| FollowSets.NextFirst | first_and_follow_set.py:68 | no ensures; FIRST of the next symbol read from the FIRST table (also ll1_parser.py:49), or of the whole rest in the `Textbook` variant; stated by StopBelowSkip and LL1Demo.DemoNextFirst |
| FollowSets.UpdateAt | first_and_follow_set.py:61-75 | no ensures; the update at one nonterminal position, stated by UpdateGrows, UpdateFixed and UpdateBelow |
| FollowSets.UpdateGrows | first_and_follow_set.py:61-72 | an update at one position only adds to FOLLOW sets |
| FollowSets.UpdateFixed | first_and_follow_set.py:61-75 | an update that changes nothing means the position's inclusions already hold |
| FollowSets.UpdateBelow | first_and_follow_set.py:61-72 | an update never carries a table above any table closed at that position |
| FollowSets.ScanBody | first_and_follow_set.py:59-77 | no ensures; the right-to-left walk, stopping at a terminal only in the `StopAtTerminal` variant, stated by ScanFixed and ScanBelow |
| FollowSets.ScanFixed | first_and_follow_set.py:59-77 | an unchanged right-to-left walk means every position the walk reaches is closed |
| FollowSets.ScanBelow | first_and_follow_set.py:59-77 | a walk stays below any table closed at the positions it reaches |
| FollowSets.PassBodies | first_and_follow_set.py:57-77 | no ensures; the walks over one head's productions, stated through RulesGrows, RulesFixed and RulesBelow |
| FollowSets.PassRules | first_and_follow_set.py:56-77 | no ensures; one pass of the `while changed` loop over every head, stated by RulesGrows, RulesFixed and RulesBelow |
| FollowSets.RulesGrows | first_and_follow_set.py:56-77 | a pass over all productions only adds to FOLLOW sets |
| FollowSets.RulesFixed | first_and_follow_set.py:53-77 | a pass with no change means every reached position of every production is closed |
| FollowSets.RulesBelow | first_and_follow_set.py:56-77 | a pass stays below any closed table above its input |
| FollowSets.FollowKeys | first_and_follow_set.py:12-14 | no ensures; the keys of the FOLLOW table: every head, the start symbol and every nonterminal used in a body; on a closed grammar exactly the heads, as FollowKeysOfClosed states |
| FollowSets.FollowKeysOfClosed | first_and_follow_set.py:12-14 | on a grammar whose nonterminals and start all have entries, FOLLOW has exactly the heads as keys |
| FollowSets.UpdateWithin | first_and_follow_set.py:61-72 | updates never leave the finite bound, so the loop terminates |
| FollowSets.Initial | first_and_follow_set.py:50 | no ensures; empty sets except `$` in FOLLOW(start), stated by FollowHasEndMarker |
| FollowSets.FollowLoop | first_and_follow_set.py:53-77 | the loop ends at a table a full pass leaves unchanged |
| FollowSets.FollowLoopGrows | first_and_follow_set.py:53-77 | the loop only adds to its starting table |
| FollowSets.Follow | first_and_follow_set.py:48-79 | FOLLOW has entries for the heads, the start and every used nonterminal, and a further pass changes nothing |
| FollowSets.FollowHasEndMarker | first_and_follow_set.py:50 | `$` is in FOLLOW(start) |
| FollowSets.FollowClosed | first_and_follow_set.py:53-77 | every reached position's inclusions hold in the result |
| FollowSets.FollowLeast | first_and_follow_set.py:48-79 | FOLLOW lies below every closed table with `$` in its start entry |
| FollowSets.FollowNoEpsilon | first_and_follow_set.py:50-72 | no FOLLOW set ever holds `ε` |
| FollowSets.StopBelowSkip | first_and_follow_set.py:76-77 | stopping at terminals gives FOLLOW sets no larger than stepping over them as `ll1_parser.py` does |
| FollowExamples.SampleFirstOfB | first_and_follow_set.py:22-46 | in the sample grammar FIRST(B) is `{b, ε}` and a terminal has no FIRST entry |
| FollowExamples.StopSample | first_and_follow_set.py:59-77 | in the sample grammar FOLLOW(A) is empty |
| FollowExamples.SkipMissesTerminal | ll1_parser.py:49-50 | in the sample grammar the terminal after `B` never reaches FOLLOW(A) |
| FollowExamples.SkipAddsEndMarker | ll1_parser.py:51-52 | in the sample grammar `$` reaches FOLLOW(A) because B alone is nullable |
| FollowExamples.SkipSample | ll1_parser.py:42-54 | in the sample grammar FOLLOW(A) holds `$` and misses the terminal `c` |
| FollowExamples.TextbookSample | ll1_parser.py:49-52 | with FIRST of the whole rest of the production, FOLLOW(A) is exactly `{b, c}` |
| LL1.Productions | ll1_parser.py:62-63 | no ensures; the productions in table-building order, stated by ProductionsOf and ProductionsMembers |
| LL1.ProductionsOf | ll1_parser.py:62-63 | one production per body of a head, in order |
| LL1.ProductionsMembers | ll1_parser.py:62-63 | the productions are exactly the pairs of a head and one of its bodies |
| LL1.Cells | ll1_parser.py:64-73 | no ensures; the columns a production is written into, FIRST without `ε` and, when FIRST holds `ε`, FOLLOW of the head; stated through FillLookup and NoEpsilonColumn |
| LL1.Claim | ll1_parser.py:67-73 | no ensures; writing one production into its columns, overwriting, stated by FillLast |
| LL1.Fill | ll1_parser.py:62-73 | no ensures; the two loops over productions, stated by FillLast, FillEmpty, FillLastClaimant and FillLookup |
| LL1.BuildTable | ll1_parser.py:60-74 | no ensures; `build_parsing_table`, stated by FillLookup, UniqueClaim and TableEntriesFromGrammar |
| LL1.ParsingTable | ll1_parser.py:60-74 | no ensures; the table from FIRST and a FOLLOW variant, stated by NoEpsilonColumn and LL1Demo.DemoTable |
| LL1.FillLast | ll1_parser.py:63-73 | the last production overwrites every cell it claims and leaves the others as before |
| LL1.FillEmpty | ll1_parser.py:63-73 | a cell is empty exactly when no production claims it |
| LL1.FillLastClaimant | ll1_parser.py:63-73 | a filled cell holds the body of the last production that claims it |
| LL1.FillLookup | ll1_parser.py:60-74 | a cell is empty exactly when unclaimed, and otherwise holds its last claimant |
| LL1.UniqueClaim | ll1_parser.py:63-73 | without conflicts, a claimed cell holds its one claimant |
| LL1.TableEntriesFromGrammar | ll1_parser.py:62-73 | row `A` only ever holds productions of `A` |
| LL1.NoEpsilonColumn | ll1_parser.py:65-73 | no column is `ε` |
| LL1.Pushed | ll1_parser.py:132-134 | no ensures; the symbols pushed for an entry, stated by PushedReads and StepExpand |
| LL1.PushedReads | ll1_parser.py:132-134 | popping what an expansion pushes gives the production's symbols without `ε`, leftmost first |
| LL1.Step | ll1_parser.py:116-140 | no ensures; one iteration of `while stack`, stated by StepMatch, StepExpand and StepErrors |
| LL1.StepMatch | ll1_parser.py:123-125 | a match pops one stack symbol and consumes one input symbol |
| LL1.StepExpand | ll1_parser.py:126-134 | an expansion replaces the top with the production's non-`ε` symbols, leftmost on top, and consumes nothing |
| LL1.StepErrors | ll1_parser.py:118-140 | a step fails exactly on an empty input, a nonterminal without an entry, or a top that is neither the current symbol nor a nonterminal |
| LL1.Run | ll1_parser.py:116-147 | no ensures; the loop and the final check with a fuel bound, stated by RunNeverAccepts and RunLift, and on `main`'s example by LL1Demo.DemoRun |
| LL1.Parse | ll1_parser.py:111-147 | no ensures; `parse`, stated by ParseNeverAccepts and LL1Demo.DemoParse |
| LL1.NoEndMarkerTable | ll1_parser.py:60-74 | a grammar without `$` in any production gives a table without `$` in any entry |
| LL1.RunNeverAccepts | ll1_parser.py:116-147 | while `$` is in the input but not on the stack, the run never accepts |
| LL1.ParseNeverAccepts | ll1_parser.py:111-147 | if no table entry contains `$`, parsing never succeeds |
| LL1.ParseWithEndMarker | ll1_parser.py:111-147 | no ensures; `parse` with `$` pushed below the start symbol, the corrected start; stated by EndMarkerAccepts and LL1Demo.DemoParse |
| LL1.LiftOutcome | ll1_parser.py:142-147 | no ensures; how an outcome reads once `$` is below the stack, stated through RunLift |
| LL1.StepLift | ll1_parser.py:116-140 | a `$` at the bottom of the stack does not change any step above it |
| LL1.RunLift | ll1_parser.py:116-147 | with `$` below the stack, a run that ends within the fuel ends within one more step, with LiftOutcome of the original outcome: `Accept` becomes `OutOfInput`; `Unconsumed` of nothing becomes `OutOfInput`; `Unconsumed` of input not starting with `$` becomes `Mismatch`; `Unconsumed` of just `$` becomes `Accept`; `Unconsumed` of `$` followed by more input `r` becomes `Unconsumed` of `r`; `NoEntry`, `Mismatch` and `OutOfInput` stay as they are |
| LL1.EndMarkerAccepts | ll1_parser.py:112-113 | with `$` pushed below the start symbol, parsing accepts exactly when the original parser stops with only `$` unread |
| LL1Demo.DemoFirstSets | ll1_parser.py:151-160 | for `S -> AB`, `A -> aA`, `A -> ε`, `B -> b`: FIRST(S) = {a, b}, FIRST(A) = {a, ε}, FIRST(B) = {b} |
| LL1Demo.DemoFollowSets | ll1_parser.py:161 | FOLLOW(S) = {$}, FOLLOW(A) = {b}, FOLLOW(B) = {$}, the same for the textbook rule |
| LL1Demo.DemoTable | ll1_parser.py:166-167 | (S, a) and (S, b) hold AB, (A, a) holds aA, (A, b) holds ε, (B, b) holds b |
| LL1Demo.DemoRun | ll1_parser.py:116-140 | on `ab` the parser expands S, expands A to aA, matches a, expands A to ε, expands B, matches b, and stops with the stack empty |
| LL1Demo.DemoParse | ll1_parser.py:169-171 | `parse("ab")` stops with `$` unread, while the corrected parser accepts |

## Left out

- Printing: `print_sets`, `print_parsing_table`, `print_grammar` and the trace output of `parse`.
- The key order of `new_productions`, an `OrderedDict` (elimination_left_recur.py:29, 47): `LeftRecursion` keeps finalised productions in a map. Only `print_grammar` (elimination_left_recur.py:83-99) reads that order; the order of `self.nonterminals` is modelled.
- The `main` functions and reading stdin. The model starts from the grammar as a value, not as text.
- Text parsing of grammars: the `->` and `|` splitting (left_factor.py:28-36, 38-39, elimination_left_recur.py:110-120) and the token regex `parse_production` (elimination_left_recur.py:19-23).
  `LeftFactoring` starts from the lines already split into a left-hand side and its alternatives. Merging lines that share a left-hand side (left_factor.py:37) is modelled by `LeftFactoring.ReadGrammar`.
- LeftRecursion.EliminateLeftRecursion: requires every production to be non-empty. The source reads `production[0]` and fails on an empty production; the failure is not modelled.
- The nonterminal test is an ASCII upper-case test, not Python's Unicode `str.isupper`.
- FirstSets.FirstOfGrammar: computes the least fixed point of `get_first`'s rule. The source's memoised recursion does not terminate on left-recursive or cyclically nullable grammars, and that non-termination is not modelled. Where the recursion terminates, the two agree.
- The `KeyError` of `first_and_follow_set.py` for an undeclared start symbol or nonterminal reads as an empty set, as a missing entry does in `ll1_parser.py`'s `defaultdict`.
- The `KeyError` of `get_first` for an undeclared nonterminal also reads as an empty set.
- Entries that `defaultdict` creates by reading (ll1_parser.py:49, 61, 128) are left out; they only change what is printed.
- `parse` rebuilds the table on every step (ll1_parser.py:127). The model builds it once, which gives the same table.
- LL1.Run: takes fuel and returns `None` when the fuel runs out. A parse that does not terminate is therefore not distinguished from one cut short.
- `parse`'s `True`/`False` result is the `Outcome`: `Accept` is `True`; `NoEntry`, `Mismatch` and `Unconsumed` are `False`. `OutOfInput` stands for the `IndexError` that `input_list[0]` raises on an empty input list (ll1_parser.py:118); the exception itself is not modelled.
- The sorted output order of `left_factor.py`'s test code (left_factor.py:96-97) is left out.

## Findings

| source | as written | input that shows it | evidently intended | confidence | as-written member | corrected member |
|---|---|---|---|---|---|---|
| first_and_follow_set.py:76-77 | the right-to-left walk stops at the first terminal, so a nonterminal to the left of any terminal gains nothing from that production | grammar `S -> ABc`, `A -> a`, `B -> b`, `B -> ε`, start `S`: FOLLOW(A) is empty | FOLLOW(A) = {b, c}, FIRST of the rest of the production without `ε` | not executed | FollowExamples.StopSample | FollowExamples.TextbookSample |
| ll1_parser.py:49-52 | the update reads FIRST of the next symbol only, from a table without terminals, and adds FOLLOW(head) whenever that one symbol is nullable | the same grammar: FOLLOW(A) is {b, $} | FOLLOW(A) = {b, c} | not executed | FollowExamples.SkipSample | FollowExamples.TextbookSample |
| ll1_parser.py:112-113 | `$` is appended to the input but never pushed, so the stack empties with `$` unread and `parse` never returns `True` when no production contains `$` | `main`'s grammar and input `ab`: "Input not fully consumed" | the stack starts as `$` below the start symbol, and `ab` is accepted | not executed | LL1.ParseNeverAccepts | LL1.EndMarkerAccepts |

The corrected FOLLOW is `FollowSets.Follow` with variant `Textbook`. It is proved closed and least by `FollowSets.FollowClosed` and `FollowSets.FollowLeast`. The corrected parser is `LL1.ParseWithEndMarker` on `LL1.ParsingTable` built with that FOLLOW. `LL1Demo.DemoParse` runs both the as-written and the corrected pipeline on `main`'s example.
