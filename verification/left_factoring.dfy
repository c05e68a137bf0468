/**
  Left factoring over production strings (`left_factor.py`).

  Productions are plain strings and the work is done character by
  character: the alternatives of a nonterminal are grouped by their first
  character, each group of two or more is replaced by its longest common
  prefix followed by a fresh nonterminal, and the procedure recurses on what
  is left of each alternative.  The text `"ε"` and the empty string both
  stand for the empty production.
 */
module LeftFactoring {
  import opened Common

  const Epsilon: char := 'ε'
  const EpsilonText: string := "ε"

  // ---------------------------------------------------------------------
  // Grouping by first character (`find_common_prefix_groups`)

  /** The group a production falls into: its first character, `ε` for `""` and `"ε"`. */
  function GroupKey(prod: string): char
  {
    if prod == "" || prod == EpsilonText then Epsilon else prod[0]
  }

  datatype Group = Group(key: char, members: seq<string>)

  /** The productions with the given key, in input order: the reference for a group's members. */
  function Filter(prods: seq<string>, key: char): seq<string>
  {
    if |prods| == 0 then []
    else
      var last := prods[|prods| - 1];
      Filter(prods[..|prods| - 1], key) + (if GroupKey(last) == key then [last] else [])
  }

  lemma {:induction false} FilterMembers(prods: seq<string>, key: char)
    ensures forall p :: p in Filter(prods, key) <==> p in prods && GroupKey(p) == key
  {
    if |prods| > 0 {
      FilterMembers(prods[..|prods| - 1], key);
      assert prods == prods[..|prods| - 1] + [prods[|prods| - 1]];
    }
  }

  predicate DistinctKeys(gs: seq<Group>)
  {
    forall i, j | 0 <= i < j < |gs| :: gs[i].key != gs[j].key
  }

  /** Adds `p` to the group with its key, or opens a new group at the end. */
  function AddToGroups(gs: seq<Group>, p: string): (r: seq<Group>)
    requires DistinctKeys(gs)
    ensures DistinctKeys(r)
    ensures |r| == |gs| || (|r| == |gs| + 1 && r[|gs|] == Group(GroupKey(p), [p]))
    ensures forall i | 0 <= i < |gs| ::
              r[i] == if gs[i].key == GroupKey(p) then gs[i].(members := gs[i].members + [p]) else gs[i]
    ensures |r| == |gs| + 1 <==> forall i | 0 <= i < |gs| :: gs[i].key != GroupKey(p)
  {
    if |gs| == 0 then [Group(GroupKey(p), [p])]
    else if gs[0].key == GroupKey(p) then [gs[0].(members := gs[0].members + [p])] + gs[1..]
    else [gs[0]] + AddToGroups(gs[1..], p)
  }

  /** `find_common_prefix_groups`: the groups in order of their key's first occurrence. */
  function Groups(prods: seq<string>): (r: seq<Group>)
    ensures DistinctKeys(r)
  {
    if |prods| == 0 then []
    else AddToGroups(Groups(prods[..|prods| - 1]), prods[|prods| - 1])
  }

  /** A group holds exactly the productions with its key, in input order, and is never empty. */
  lemma {:induction false} GroupsMembers(prods: seq<string>)
    ensures forall i | 0 <= i < |Groups(prods)| ::
              && Groups(prods)[i].members == Filter(prods, Groups(prods)[i].key)
              && |Groups(prods)[i].members| > 0
  {
    if |prods| > 0 {
      var init := prods[..|prods| - 1];
      var last := prods[|prods| - 1];
      GroupsMembers(init);
      GroupsCover(init);
      AddMembers(init, last, Groups(init));
    }
  }

  /** Adding `last` to the groups of `init` keeps each group equal to its filter. */
  lemma AddMembers(init: seq<string>, last: string, gs: seq<Group>)
    requires DistinctKeys(gs)
    requires forall i | 0 <= i < |gs| :: gs[i].members == Filter(init, gs[i].key) && |gs[i].members| > 0
    requires forall q | q in init :: exists i | 0 <= i < |gs| :: gs[i].key == GroupKey(q)
    ensures forall i | 0 <= i < |AddToGroups(gs, last)| ::
              && AddToGroups(gs, last)[i].members
                 == Filter(init, AddToGroups(gs, last)[i].key) + (if GroupKey(last) == AddToGroups(gs, last)[i].key then [last] else [])
              && |AddToGroups(gs, last)[i].members| > 0
  {
    var r := AddToGroups(gs, last);
    if |r| == |gs| + 1 {
      forall q | q in init ensures GroupKey(q) != GroupKey(last) {
        var i :| 0 <= i < |gs| && gs[i].key == GroupKey(q);
      }
      FilterNone(init, GroupKey(last));
    }
  }

  lemma {:induction false} FilterNone(prods: seq<string>, key: char)
    requires forall q | q in prods :: GroupKey(q) != key
    ensures Filter(prods, key) == []
  {
    if |prods| > 0 {
      FilterNone(prods[..|prods| - 1], key);
    }
  }

  /** Every production falls into a group with its key (exactly one, as keys are distinct). */
  lemma GroupsCover(prods: seq<string>)
    ensures forall p | p in prods :: exists i | 0 <= i < |Groups(prods)| :: Groups(prods)[i].key == GroupKey(p)
  {
    forall p | p in prods ensures exists i | 0 <= i < |Groups(prods)| :: Groups(prods)[i].key == GroupKey(p) {
      GroupOf(prods, p);
    }
  }

  lemma {:induction false} GroupOf(prods: seq<string>, p: string)
    requires p in prods
    ensures exists i | 0 <= i < |Groups(prods)| :: Groups(prods)[i].key == GroupKey(p)
  {
    var init := prods[..|prods| - 1];
    var last := prods[|prods| - 1];
    var gs := Groups(init);
    var r := Groups(prods);
    if p != last {
      assert prods == init + [last];
      GroupOf(init, p);
      var i :| 0 <= i < |gs| && gs[i].key == GroupKey(p);
      assert r[i].key == GroupKey(p);
    } else if |r| == |gs| {
      var i :| 0 <= i < |gs| && gs[i].key == GroupKey(p);
      assert r[i].key == GroupKey(p);
    } else {
      assert r[|gs|].key == GroupKey(p);
    }
  }

  // ---------------------------------------------------------------------
  // Longest common prefix (`find_longest_common_prefix`)

  /** The length of the shortest string (`min_len`). */
  function MinLength(strings: seq<string>): (r: nat)
    requires |strings| > 0
    ensures forall s | s in strings :: r <= |s|
    ensures exists s | s in strings :: |s| == r
  {
    if |strings| == 1 then |strings[0]|
    else
      var m := MinLength(strings[1..]);
      if |strings[0]| < m then |strings[0]| else m
  }

  /** Every string has the first string's character at index `i`. */
  predicate AgreeAt(strings: seq<string>, i: nat)
    requires |strings| > 0 && i < MinLength(strings)
  {
    forall s | s in strings :: s[i] == strings[0][i]
  }

  /** The `for i in range(min_len)` scan: the first index from `i` where the strings disagree. */
  function CommonLength(strings: seq<string>, i: nat): (r: nat)
    requires |strings| > 0 && i <= MinLength(strings)
    ensures i <= r <= MinLength(strings)
    ensures forall k | i <= k < r :: AgreeAt(strings, k)
    ensures r < MinLength(strings) ==> !AgreeAt(strings, r)
    decreases MinLength(strings) - i
  {
    if i == MinLength(strings) || !AgreeAt(strings, i) then i else CommonLength(strings, i + 1)
  }

  /** `find_longest_common_prefix`. */
  function LongestCommonPrefix(strings: seq<string>): (r: string)
    ensures |strings| == 0 ==> r == ""
    ensures |strings| == 1 ==> r == strings[0]
    ensures forall s | s in strings :: r <= s
    ensures forall k | 0 <= k < |strings| :: r <= strings[k]
    // maximal: the shortest string is used up, or the strings disagree right after the prefix
    ensures |strings| >= 2 ==> |r| == MinLength(strings) || (|r| < MinLength(strings) && !AgreeAt(strings, |r|))
  {
    if |strings| == 0 then ""
    else if |strings| == 1 then strings[0]
    else
      var n := CommonLength(strings, 0);
      var r := strings[0][..n];
      forall s | s in strings ensures r <= s {
        forall k | 0 <= k < n ensures r[k] == s[k] {
          assert AgreeAt(strings, k);
        }
      }
      assert forall k | 0 <= k < |strings| :: strings[k] in strings;
      r
  }

  /** Every common prefix of a non-empty list is a prefix of the longest one. */
  lemma LongestCommonPrefixGreatest(strings: seq<string>, c: string)
    requires |strings| > 0
    requires forall s | s in strings :: c <= s
    ensures c <= LongestCommonPrefix(strings)
  {
    assert strings[0] in strings;
    if |strings| >= 2 {
      var r := LongestCommonPrefix(strings);
      var w :| w in strings && |w| == MinLength(strings);
      assert |c| <= MinLength(strings) by { assert c <= w; }
      forall k | 0 <= k < |c| && k < MinLength(strings) ensures AgreeAt(strings, k) {
        forall s | s in strings ensures s[k] == strings[0][k] {
          assert s[k] == c[k];
        }
      }
      assert |c| <= |r|;
      assert c == strings[0][..|c|];
    }
  }

  /**
    Strings that all begin with the same character share a non-empty prefix,
    so a group keyed by a real character always factors (the `else` branch at
    the end of `process_productions` is never taken for such a group).
   */
  lemma LongestCommonPrefixNonEmpty(strings: seq<string>, ch: char)
    requires |strings| > 0
    requires forall s | s in strings :: |s| > 0 && s[0] == ch
    ensures |LongestCommonPrefix(strings)| > 0
  {
    LongestCommonPrefixGreatest(strings, [ch]);
  }

  // ---------------------------------------------------------------------
  // Remainders and the termination measure

  /** What is left of `prod` after the common prefix, `"ε"` when nothing is left. */
  function Remainder(prod: string, n: nat): string
    requires n <= |prod|
  {
    if prod[n..] == "" then EpsilonText else prod[n..]
  }

  /** The remainders of a group, in order. */
  function Remainders(group: seq<string>, cp: string): (r: seq<string>)
    requires forall k | 0 <= k < |group| :: cp <= group[k]
    ensures |r| == |group|
    ensures forall k | 0 <= k < |group| :: r[k] == Remainder(group[k], |cp|)
  {
    if |group| == 0 then []
    else
      Remainders(group[..|group| - 1], cp) + [Remainder(group[|group| - 1], |cp|)]
  }

  /** Prefix and remainder read back as the production, `"ε"` read as nothing. */
  function Restore(cp: string, rem: string): string
  {
    cp + (if rem == EpsilonText then "" else rem)
  }

  /**
    Splitting off the prefix loses nothing, except that a production that
    ends in a literal `"ε"` right after the prefix reads back without it.
   */
  lemma RemainderRestores(prod: string, n: nat)
    requires n <= |prod| && prod[n..] != EpsilonText
    ensures Restore(prod[..n], Remainder(prod, n)) == prod
  {
    assert prod == prod[..n] + prod[n..];
  }

  /** The size a production contributes to the termination measure; `ε` productions count nothing. */
  function Weight(prod: string): nat
  {
    if GroupKey(prod) == Epsilon then 0 else |prod|
  }

  function TotalWeight(prods: seq<string>): nat
  {
    if |prods| == 0 then 0 else TotalWeight(prods[..|prods| - 1]) + Weight(prods[|prods| - 1])
  }

  function GroupsWeight(gs: seq<Group>): nat
  {
    if |gs| == 0 then 0 else TotalWeight(gs[0].members) + GroupsWeight(gs[1..])
  }

  lemma {:induction false} AddToGroupsWeight(gs: seq<Group>, p: string)
    requires DistinctKeys(gs)
    ensures GroupsWeight(AddToGroups(gs, p)) == GroupsWeight(gs) + Weight(p)
  {
    var r := AddToGroups(gs, p);
    if |gs| == 0 {
      assert r == [Group(GroupKey(p), [p])];
      assert [p][..0] == [] && r[1..] == [];
      assert TotalWeight([p]) == Weight(p);
    } else if gs[0].key == GroupKey(p) {
      assert (gs[0].members + [p])[..|gs[0].members|] == gs[0].members;
      assert r[1..] == gs[1..];
    } else {
      AddToGroupsWeight(gs[1..], p);
      assert r[1..] == AddToGroups(gs[1..], p);
    }
  }

  /** Grouping neither adds nor loses weight. */
  lemma {:induction false} GroupsWeightTotal(prods: seq<string>)
    ensures GroupsWeight(Groups(prods)) == TotalWeight(prods)
  {
    if |prods| > 0 {
      GroupsWeightTotal(prods[..|prods| - 1]);
      AddToGroupsWeight(Groups(prods[..|prods| - 1]), prods[|prods| - 1]);
    }
  }

  /** A group whose members all carry its key, and which is not empty. */
  predicate WellKeyed(g: Group)
  {
    |g.members| > 0 && forall p | p in g.members :: GroupKey(p) == g.key
  }

  lemma GroupsWellKeyed(prods: seq<string>)
    ensures forall i | 0 <= i < |Groups(prods)| :: WellKeyed(Groups(prods)[i])
  {
    GroupsMembers(prods);
    forall i | 0 <= i < |Groups(prods)| ensures WellKeyed(Groups(prods)[i]) {
      FilterMembers(prods, Groups(prods)[i].key);
    }
  }

  /** Each remainder is shorter than its production by at least one: the recursion terminates. */
  lemma {:induction false} RemaindersLighter(group: seq<string>, cp: string, key: char)
    requires key != Epsilon && |cp| > 0
    requires forall k | 0 <= k < |group| :: GroupKey(group[k]) == key && cp <= group[k]
    ensures TotalWeight(Remainders(group, cp)) + |group| <= TotalWeight(group)
  {
    if |group| > 0 {
      var init := group[..|group| - 1];
      var last := group[|group| - 1];
      RemaindersLighter(init, cp, key);
      assert Remainders(group, cp)[..|group| - 1] == Remainders(init, cp);
      assert Weight(last) == |last|;
    }
  }

  // ---------------------------------------------------------------------
  // `process_productions`

  /** `result`: the factored alternatives of each nonterminal, as text. */
  type Result = map<string, seq<string>>

  /** `result[k]` of the `defaultdict(list)`: no entry reads as no alternatives. */
  function Lookup(res: Result, k: string): seq<string>
  {
    if k in res then res[k] else []
  }

  /** `result[symbol].append(...)` / `.extend(...)`. */
  function Emit(res: Result, symbol: string, items: seq<string>): Result
  {
    res[symbol := Lookup(res, symbol) + items]
  }

  /**
    The one alternative a group contributes to its nonterminal: `"ε"` for
    the `ε` group, the member itself for a group of one, and otherwise the
    longest common prefix followed by a name primed from the nonterminal.
   */
  predicate Emitted(symbol: string, g: Group, e: string)
  {
    if g.key == Epsilon then e == EpsilonText
    else if |g.members| == 1 then e == g.members[0]
    else
      var cp := LongestCommonPrefix(g.members);
      cp <= e && IsPrimed(e[|cp|..], symbol)
  }

  /** `after` is `before` followed by one emitted alternative per group, in group order. */
  ghost predicate EmitsAll(symbol: string, gs: seq<Group>, before: seq<string>, after: seq<string>)
  {
    && |after| == |before| + |gs|
    && before <= after
    && forall i | 0 <= i < |gs| :: Emitted(symbol, gs[i], after[|before| + i])
  }

  /**
    Processing `symbol` only appends to existing entries, and changes no
    entry other than `symbol`'s and those of names primed from `symbol`.
   */
  ghost predicate Confined(res: Result, r: Result, symbol: string)
  {
    && (forall k | k in res :: k in r && res[k] <= r[k])
    && (forall k | k in r && k != symbol && !IsPrimed(k, symbol) :: k in res && r[k] == res[k])
  }

  lemma ConfinedTrans(a: Result, b: Result, c: Result, symbol: string)
    requires Confined(a, b, symbol) && Confined(b, c, symbol)
    ensures Confined(a, c, symbol)
  {
  }

  /** Work on a name primed from `symbol`, after appending to `symbol`, stays confined to `symbol`. */
  lemma ConfinedNested(res: Result, mid: Result, r: Result, symbol: string, newSymbol: string)
    requires IsPrimed(newSymbol, symbol)
    requires symbol in mid && Lookup(res, symbol) <= mid[symbol]
    requires forall k | k in mid && k != symbol :: k in res && mid[k] == res[k]
    requires forall k | k in res :: k in mid
    requires Confined(mid, r, newSymbol)
    ensures Confined(res, r, symbol)
    ensures symbol in r && r[symbol] == mid[symbol]
  {
    forall k | k in r && k != symbol && !IsPrimed(k, symbol) ensures k in res && r[k] == res[k] {
      if IsPrimed(k, newSymbol) {
        PrimedTransitive(k, newSymbol, symbol);
      }
    }
    assert !IsPrimed(symbol, newSymbol);
  }

  lemma EmitsAllCons(symbol: string, gs: seq<Group>, before: seq<string>, mid: seq<string>, after: seq<string>)
    requires |gs| > 0
    requires EmitsAll(symbol, [gs[0]], before, mid)
    requires EmitsAll(symbol, gs[1..], mid, after)
    ensures EmitsAll(symbol, gs, before, after)
  {
    assert |mid| == |before| + 1;
    forall i | 0 <= i < |gs| ensures Emitted(symbol, gs[i], after[|before| + i]) {
      if i == 0 {
        assert [gs[0]][0] == gs[0] && mid[|before| + 0] == after[|before|];
      } else {
        assert gs[1..][i - 1] == gs[i] && |mid| + (i - 1) == |before| + i;
      }
    }
  }

  /**
    `process_productions(symbol, productions)`, on the state `res` of
    `result`.  What it appends, and where, is stated by the lemmas below.
   */
  function ProcessProductions(symbol: string, prods: seq<string>, res: Result): (r: Result)
    ensures res.Keys <= r.Keys
    ensures |prods| > 0 ==> symbol in r
    decreases TotalWeight(prods), 2, 0
  {
    if |prods| == 0 then res
    else
      GroupsWellKeyed(prods);
      GroupsWeightTotal(prods);
      ProcessGroups(symbol, Groups(prods), res)
  }

  /** The `for prefix, group in prefix_groups.items()` loop. */
  function ProcessGroups(symbol: string, gs: seq<Group>, res: Result): (r: Result)
    requires forall i | 0 <= i < |gs| :: WellKeyed(gs[i])
    ensures res.Keys <= r.Keys
    ensures |gs| > 0 ==> symbol in r
    decreases GroupsWeight(gs), 1, |gs|
  {
    if |gs| == 0 then res
    else ProcessGroups(symbol, gs[1..], ProcessGroup(symbol, gs[0], res))
  }

  /** One iteration of that loop: one group of `symbol`'s alternatives. */
  function ProcessGroup(symbol: string, g: Group, res: Result): (r: Result)
    requires WellKeyed(g)
    ensures res.Keys <= r.Keys
    ensures symbol in r
    decreases TotalWeight(g.members), 0, 1
  {
    if g.key == Epsilon then Emit(res, symbol, [EpsilonText])
    else if |g.members| == 1 then Emit(res, symbol, [g.members[0]])
    else
      var cp := LongestCommonPrefix(g.members);
      LongestCommonPrefixNonEmpty(g.members, g.key);
      if |cp| > 0 then ProcessFactored(symbol, g, res)
      else
        assert false;
        Emit(res, symbol, g.members)
  }

  /**
    A group of two or more sharing a real first character: `symbol` gets
    `prefix + newSymbol` and `newSymbol` gets the factored remainders.
   */
  function ProcessFactored(symbol: string, g: Group, res: Result): (r: Result)
    requires WellKeyed(g) && g.key != Epsilon && |g.members| > 1
    ensures res.Keys <= r.Keys
    ensures symbol in r
    decreases TotalWeight(g.members), 0, 0
  {
    var cp := LongestCommonPrefix(g.members);
    FactoredLighter(g);
    var newSymbol := FreshName(symbol, res.Keys);
    ProcessProductions(newSymbol, Remainders(g.members, cp), Emit(res, symbol, [cp + newSymbol]))
  }

  /** Processing `symbol` changes only `symbol` and names primed from it, and only by appending. */
  lemma ProductionsConfined(symbol: string, prods: seq<string>, res: Result)
    ensures Confined(res, ProcessProductions(symbol, prods, res), symbol)
    decreases TotalWeight(prods), 2, 0
  {
    if |prods| > 0 {
      GroupsWellKeyed(prods);
      GroupsWeightTotal(prods);
      GroupsConfined(symbol, Groups(prods), res);
    }
  }

  lemma GroupsConfined(symbol: string, gs: seq<Group>, res: Result)
    requires forall i | 0 <= i < |gs| :: WellKeyed(gs[i])
    ensures Confined(res, ProcessGroups(symbol, gs, res), symbol)
    decreases GroupsWeight(gs), 1, |gs|
  {
    if |gs| > 0 {
      var mid := ProcessGroup(symbol, gs[0], res);
      GroupConfined(symbol, gs[0], res);
      GroupsConfined(symbol, gs[1..], mid);
      ConfinedTrans(res, mid, ProcessGroups(symbol, gs[1..], mid), symbol);
    }
  }

  lemma GroupConfined(symbol: string, g: Group, res: Result)
    requires WellKeyed(g)
    ensures Confined(res, ProcessGroup(symbol, g, res), symbol)
    decreases TotalWeight(g.members), 0, 1
  {
    if g.key != Epsilon && |g.members| > 1 {
      LongestCommonPrefixNonEmpty(g.members, g.key);
      FactoredConfined(symbol, g, res);
    }
  }

  lemma FactoredConfined(symbol: string, g: Group, res: Result)
    requires WellKeyed(g) && g.key != Epsilon && |g.members| > 1
    ensures Confined(res, ProcessFactored(symbol, g, res), symbol)
    ensures ProcessFactored(symbol, g, res)[symbol]
            == Lookup(res, symbol) + [LongestCommonPrefix(g.members) + FreshName(symbol, res.Keys)]
    decreases TotalWeight(g.members), 0, 0
  {
    var cp := LongestCommonPrefix(g.members);
    FactoredLighter(g);
    var newSymbol := FreshName(symbol, res.Keys);
    var mid := Emit(res, symbol, [cp + newSymbol]);
    ProductionsConfined(newSymbol, Remainders(g.members, cp), mid);
    ConfinedNested(res, mid, ProcessFactored(symbol, g, res), symbol, newSymbol);
  }

  /** One group emits one alternative of `symbol`, appended after what was there. */
  lemma GroupEmits(symbol: string, g: Group, res: Result)
    requires WellKeyed(g)
    ensures EmitsAll(symbol, [g], Lookup(res, symbol), ProcessGroup(symbol, g, res)[symbol])
  {
    if g.key != Epsilon && |g.members| > 1 {
      LongestCommonPrefixNonEmpty(g.members, g.key);
      FactoredConfined(symbol, g, res);
      FactoredEmits(symbol, g, Lookup(res, symbol), FreshName(symbol, res.Keys));
    } else {
      var r := ProcessGroup(symbol, g, res);
      assert r[symbol][|Lookup(res, symbol)| + 0] == r[symbol][|Lookup(res, symbol)|];
    }
  }

  lemma {:induction false} GroupsEmits(symbol: string, gs: seq<Group>, res: Result)
    requires forall i | 0 <= i < |gs| :: WellKeyed(gs[i])
    ensures EmitsAll(symbol, gs, Lookup(res, symbol), Lookup(ProcessGroups(symbol, gs, res), symbol))
  {
    if |gs| > 0 {
      var mid := ProcessGroup(symbol, gs[0], res);
      GroupEmits(symbol, gs[0], res);
      GroupsEmits(symbol, gs[1..], mid);
      var r := ProcessGroups(symbol, gs[1..], mid);
      EmitsAllCons(symbol, gs, Lookup(res, symbol), Lookup(mid, symbol), Lookup(r, symbol));
    }
  }

  /**
    `symbol`'s alternatives grow by exactly one emitted alternative per
    group, in group order.
   */
  lemma ProductionsEmits(symbol: string, prods: seq<string>, res: Result)
    requires |prods| > 0
    ensures EmitsAll(symbol, Groups(prods), Lookup(res, symbol), ProcessProductions(symbol, prods, res)[symbol])
  {
    GroupsWellKeyed(prods);
    GroupsEmits(symbol, Groups(prods), res);
  }

  lemma FactoredLighter(g: Group)
    requires WellKeyed(g) && g.key != Epsilon
    ensures var cp := LongestCommonPrefix(g.members);
      && (forall k | 0 <= k < |g.members| :: cp <= g.members[k])
      && TotalWeight(Remainders(g.members, cp)) < TotalWeight(g.members)
  {
    var cp := LongestCommonPrefix(g.members);
    LongestCommonPrefixNonEmpty(g.members, g.key);
    assert forall k | 0 <= k < |g.members| :: g.members[k] in g.members;
    RemaindersLighter(g.members, cp, g.key);
  }

  lemma FactoredEmits(symbol: string, g: Group, before: seq<string>, newSymbol: string)
    requires g.key != Epsilon && |g.members| > 1 && IsPrimed(newSymbol, symbol)
    ensures EmitsAll(symbol, [g], before, before + [LongestCommonPrefix(g.members) + newSymbol])
  {
    var cp := LongestCommonPrefix(g.members);
    assert (cp + newSymbol)[|cp|..] == newSymbol;
    assert Emitted(symbol, g, cp + newSymbol);
    assert (before + [cp + newSymbol])[|before| + 0] == cp + newSymbol;
  }

  // ---------------------------------------------------------------------
  // What one call produces

  /** Pairwise distinct group keys, and the `ε` key only on the text `"ε"` itself. */
  predicate Factored(prods: seq<string>)
  {
    && (forall i, j | 0 <= i < j < |prods| :: GroupKey(prods[i]) != GroupKey(prods[j]))
    && (forall p | p in prods && GroupKey(p) == Epsilon :: p == EpsilonText)
  }

  /** The alternative a group emits falls into that group's key. */
  lemma EmittedKey(symbol: string, g: Group, e: string)
    requires WellKeyed(g) && Emitted(symbol, g, e)
    ensures GroupKey(e) == g.key
    ensures g.key == Epsilon ==> e == EpsilonText
  {
    if g.key != Epsilon && |g.members| > 1 {
      LongestCommonPrefixNonEmpty(g.members, g.key);
      var cp := LongestCommonPrefix(g.members);
      assert g.members[0] in g.members;
      assert e[0] == cp[0] == g.members[0][0];
    } else if g.key != Epsilon {
      assert g.members[0] in g.members;
    }
  }

  /**
    The alternatives `process_productions` gives a nonterminal that had none
    are factored: no two share a first character.
   */
  lemma ProcessProductionsFactored(symbol: string, prods: seq<string>, res: Result)
    requires symbol !in res && |prods| > 0
    ensures Factored(ProcessProductions(symbol, prods, res)[symbol])
  {
    var out := ProcessProductions(symbol, prods, res)[symbol];
    ProductionsEmits(symbol, prods, res);
    assert Lookup(res, symbol) == [];
    GroupsWellKeyed(prods);
    EmitsFactored(symbol, Groups(prods), out);
  }

  /** One emitted alternative per group of distinct keys: the alternatives are factored. */
  lemma EmitsFactored(symbol: string, gs: seq<Group>, out: seq<string>)
    requires DistinctKeys(gs) && forall i | 0 <= i < |gs| :: WellKeyed(gs[i])
    requires EmitsAll(symbol, gs, [], out)
    ensures Factored(out)
  {
    forall i | 0 <= i < |out| ensures GroupKey(out[i]) == gs[i].key && (gs[i].key == Epsilon ==> out[i] == EpsilonText) {
      assert Emitted(symbol, gs[i], out[0 + i]);
      EmittedKey(symbol, gs[i], out[i]);
    }
  }

  /** One singleton group per production. */
  function Singletons(prods: seq<string>): (r: seq<Group>)
    ensures |r| == |prods|
    ensures forall i | 0 <= i < |prods| :: r[i] == Group(GroupKey(prods[i]), [prods[i]])
  {
    seq(|prods|, i requires 0 <= i < |prods| => Group(GroupKey(prods[i]), [prods[i]]))
  }

  /** With pairwise distinct keys every group is a singleton, in input order. */
  lemma {:induction false} GroupsOfDistinct(prods: seq<string>)
    requires forall i, j | 0 <= i < j < |prods| :: GroupKey(prods[i]) != GroupKey(prods[j])
    ensures Groups(prods) == Singletons(prods)
  {
    if |prods| > 0 {
      var init := prods[..|prods| - 1];
      var last := prods[|prods| - 1];
      assert forall i | 0 <= i < |init| :: init[i] == prods[i];
      GroupsOfDistinct(init);
      SingletonsSnoc(init, last);
      assert init + [last] == prods;
      AddDistinct(Singletons(init), last);
    }
  }

  lemma SingletonsSnoc(init: seq<string>, last: string)
    ensures Singletons(init + [last]) == Singletons(init) + [Group(GroupKey(last), [last])]
  {
  }

  /** A production whose key no group has opens a new group at the end. */
  lemma AddDistinct(gs: seq<Group>, p: string)
    requires DistinctKeys(gs)
    requires forall i | 0 <= i < |gs| :: gs[i].key != GroupKey(p)
    ensures AddToGroups(gs, p) == gs + [Group(GroupKey(p), [p])]
  {
    var r := AddToGroups(gs, p);
    var e := gs + [Group(GroupKey(p), [p])];
    assert |r| == |e|;
    forall i | 0 <= i < |r| ensures r[i] == e[i] {
      if i < |gs| {
        assert r[i] == gs[i];
      }
    }
  }

  lemma {:induction false} ProcessSingletons(symbol: string, prods: seq<string>, res: Result)
    requires |prods| > 0
    requires forall p | p in prods && GroupKey(p) == Epsilon :: p == EpsilonText
    ensures ProcessGroups(symbol, Singletons(prods), res) == Emit(res, symbol, prods)
  {
    var gs := Singletons(prods);
    assert prods[0] in prods;
    ProcessSingleton(symbol, prods[0], res);
    var mid := Emit(res, symbol, [prods[0]]);
    assert ProcessGroups(symbol, gs, res) == ProcessGroups(symbol, gs[1..], mid);
    if |prods| > 1 {
      assert gs[1..] == Singletons(prods[1..]);
      ProcessSingletons(symbol, prods[1..], mid);
      EmitTwice(res, symbol, [prods[0]], prods[1..]);
      assert [prods[0]] + prods[1..] == prods;
    } else {
      assert prods == [prods[0]];
    }
  }

  lemma ProcessSingleton(symbol: string, p: string, res: Result)
    requires GroupKey(p) == Epsilon ==> p == EpsilonText
    ensures ProcessGroup(symbol, Group(GroupKey(p), [p]), res) == Emit(res, symbol, [p])
  {
  }

  lemma EmitTwice(res: Result, symbol: string, a: seq<string>, b: seq<string>)
    ensures Emit(Emit(res, symbol, a), symbol, b) == Emit(res, symbol, a + b)
  {
    assert Lookup(res, symbol) + a + b == Lookup(res, symbol) + (a + b);
  }

  /**
    Idempotence: alternatives that are already factored are emitted
    unchanged and in order, and no new nonterminal is introduced.
   */
  lemma FactoredUnchanged(symbol: string, prods: seq<string>, res: Result)
    requires Factored(prods) && |prods| > 0
    ensures ProcessProductions(symbol, prods, res) == Emit(res, symbol, prods)
  {
    GroupsOfDistinct(prods);
    ProcessSingletons(symbol, prods, res);
  }

  /** Factoring twice gives what factoring once gave. */
  lemma FactoringIdempotent(symbol: string, prods: seq<string>, res: Result, other: Result)
    requires symbol !in res && |prods| > 0
    ensures var once := ProcessProductions(symbol, prods, res)[symbol];
      ProcessProductions(symbol, once, other) == Emit(other, symbol, once)
  {
    var once := ProcessProductions(symbol, prods, res)[symbol];
    ProcessProductionsFactored(symbol, prods, res);
    ProductionsEmits(symbol, prods, res);
    GroupsCover(prods);
    assert prods[0] in prods;
    FactoredUnchanged(symbol, once, other);
  }

  /**
    The fresh nonterminal of a factored group is `symbol` with primes, was
    not yet a key of `result`, and ends up with the factored remainders.
   */
  lemma FactoredNewSymbol(symbol: string, g: Group, res: Result)
    requires WellKeyed(g) && g.key != Epsilon && |g.members| > 1
    ensures var r := ProcessFactored(symbol, g, res);
      var cp := LongestCommonPrefix(g.members);
      var newSymbol := FreshName(symbol, res.Keys);
      && IsPrimed(newSymbol, symbol) && newSymbol !in res
      && r[symbol] == Lookup(res, symbol) + [cp + newSymbol]
      && newSymbol in r
      && EmitsAll(newSymbol, Groups(Remainders(g.members, cp)), [], r[newSymbol])
  {
    var cp := LongestCommonPrefix(g.members);
    FactoredLighter(g);
    var newSymbol := FreshName(symbol, res.Keys);
    var mid := Emit(res, symbol, [cp + newSymbol]);
    assert Lookup(mid, newSymbol) == [];
    FactoredConfined(symbol, g, res);
    ProductionsEmits(newSymbol, Remainders(g.members, cp), mid);
  }

  // ---------------------------------------------------------------------
  // `extract_left_factoring`

  /** One line of the grammar text: a left-hand side and its alternatives. */
  datatype Rule = Rule(lhs: string, alternatives: seq<string>)

  /**
    `grammar[lhs].extend(alternatives)` on the `defaultdict`, kept as a list
    in insertion order: the alternatives join the entry for `lhs`, or open a
    new last entry.
   */
  function AddRule(grammar: seq<Rule>, rule: Rule): seq<Rule>
  {
    if |grammar| == 0 then [rule]
    else if grammar[0].lhs == rule.lhs then [Rule(rule.lhs, grammar[0].alternatives + rule.alternatives)] + grammar[1..]
    else [grammar[0]] + AddRule(grammar[1..], rule)
  }

  /** The grammar the lines declare: one entry per left-hand side, in order of first declaration. */
  function ReadGrammar(rules: seq<Rule>): seq<Rule>
  {
    if |rules| == 0 then [] else AddRule(ReadGrammar(rules[..|rules| - 1]), rules[|rules| - 1])
  }

  /** The left-hand sides in order of first declaration, each once: the reference for the entries' order. */
  function FirstDeclared(rules: seq<Rule>): seq<string>
  {
    if |rules| == 0 then []
    else
      var init := FirstDeclared(rules[..|rules| - 1]);
      var lhs := rules[|rules| - 1].lhs;
      if lhs in init then init else init + [lhs]
  }

  /** Every alternative declared for `lhs`, across all lines, in order: the reference for an entry. */
  function DeclaredFor(rules: seq<Rule>, lhs: string): seq<string>
  {
    if |rules| == 0 then []
    else
      var last := rules[|rules| - 1];
      DeclaredFor(rules[..|rules| - 1], lhs) + (if last.lhs == lhs then last.alternatives else [])
  }

  /** Some line has `lhs` on its left. */
  predicate Declares(rules: seq<Rule>, lhs: string)
  {
    exists i | 0 <= i < |rules| :: rules[i].lhs == lhs
  }

  /** No two entries share a left-hand side, as the keys of a dictionary. */
  predicate DistinctLhs(grammar: seq<Rule>)
  {
    forall i, j | 0 <= i < |grammar| && 0 <= j < |grammar| && i != j :: grammar[i].lhs != grammar[j].lhs
  }

  /**
    A left-hand side not yet present opens a new last entry; otherwise the
    first entry for it gets the alternatives appended and nothing else
    changes.
   */
  lemma {:induction false} AddRuleShape(grammar: seq<Rule>, rule: Rule)
    ensures (forall k | 0 <= k < |grammar| :: grammar[k].lhs != rule.lhs) ==> AddRule(grammar, rule) == grammar + [rule]
    ensures forall k | 0 <= k < |grammar| && grammar[k].lhs == rule.lhs && (forall j | 0 <= j < k :: grammar[j].lhs != rule.lhs) ::
              AddRule(grammar, rule) == grammar[k := Rule(rule.lhs, grammar[k].alternatives + rule.alternatives)]
  {
    if |grammar| > 0 && grammar[0].lhs != rule.lhs {
      var tail := grammar[1..];
      AddRuleShape(tail, rule);
      if forall k | 0 <= k < |grammar| :: grammar[k].lhs != rule.lhs {
        assert forall k | 0 <= k < |tail| :: tail[k].lhs != rule.lhs by {
          forall k | 0 <= k < |tail| ensures tail[k].lhs != rule.lhs {
            assert tail[k] == grammar[k + 1];
          }
        }
        assert [grammar[0]] + (tail + [rule]) == grammar + [rule];
      }
      forall k | 0 <= k < |grammar| && grammar[k].lhs == rule.lhs && (forall j | 0 <= j < k :: grammar[j].lhs != rule.lhs)
        ensures AddRule(grammar, rule) == grammar[k := Rule(rule.lhs, grammar[k].alternatives + rule.alternatives)]
      {
        assert k > 0 && tail[k - 1] == grammar[k];
        assert forall j | 0 <= j < k - 1 :: tail[j].lhs != rule.lhs by {
          forall j | 0 <= j < k - 1 ensures tail[j].lhs != rule.lhs {
            assert tail[j] == grammar[j + 1];
          }
        }
        var e := Rule(rule.lhs, grammar[k].alternatives + rule.alternatives);
        assert [grammar[0]] + tail[k - 1 := e] == grammar[k := e];
      }
    }
  }

  /** The first declarations are duplicate-free and list exactly the declared left-hand sides. */
  lemma {:induction false} FirstDeclaredMembers(rules: seq<Rule>)
    ensures forall i, j | 0 <= i < |FirstDeclared(rules)| && 0 <= j < |FirstDeclared(rules)| && i != j ::
              FirstDeclared(rules)[i] != FirstDeclared(rules)[j]
    ensures forall x :: x in FirstDeclared(rules) <==> Declares(rules, x)
  {
    if |rules| > 0 {
      var init := rules[..|rules| - 1];
      FirstDeclaredMembers(init);
      forall x ensures Declares(rules, x) <==> Declares(init, x) || rules[|rules| - 1].lhs == x {
        if Declares(rules, x) {
          var i :| 0 <= i < |rules| && rules[i].lhs == x;
          if i < |rules| - 1 {
            assert init[i] == rules[i];
          }
        }
        if Declares(init, x) {
          var i :| 0 <= i < |init| && init[i].lhs == x;
          assert rules[i] == init[i];
        }
      }
    }
  }

  /** Nothing is declared for a left-hand side no line has. */
  lemma {:induction false} DeclaredForUndeclared(rules: seq<Rule>, lhs: string)
    requires !Declares(rules, lhs)
    ensures DeclaredFor(rules, lhs) == []
  {
    if |rules| > 0 {
      var init := rules[..|rules| - 1];
      DeclaredForUndeclared(init, lhs);
    }
  }

  /** Every line's alternatives are among those declared for its left-hand side. */
  lemma {:induction false} DeclaredForHolds(rules: seq<Rule>, i: nat)
    requires i < |rules|
    ensures |DeclaredFor(rules, rules[i].lhs)| >= |rules[i].alternatives|
  {
    var init := rules[..|rules| - 1];
    if i < |rules| - 1 {
      assert init[i] == rules[i];
      DeclaredForHolds(init, i);
    }
  }

  /**
    Reading the lines merges repeated left-hand sides: one entry per
    left-hand side, in order of first declaration, holding every
    alternative declared for it across all lines, in order.
   */
  lemma {:induction false} ReadGrammarMerges(rules: seq<Rule>)
    ensures |ReadGrammar(rules)| == |FirstDeclared(rules)|
    ensures forall j | 0 <= j < |ReadGrammar(rules)| :: ReadGrammar(rules)[j].lhs == FirstDeclared(rules)[j]
    ensures forall j | 0 <= j < |ReadGrammar(rules)| ::
              ReadGrammar(rules)[j].alternatives == DeclaredFor(rules, ReadGrammar(rules)[j].lhs)
  {
    if |rules| > 0 {
      var init := rules[..|rules| - 1];
      ReadGrammarMerges(init);
      FirstDeclaredMembers(init);
      if rules[|rules| - 1].lhs in FirstDeclared(init) {
        ReadKnownLhs(rules);
      } else {
        ReadNewLhs(rules);
      }
    }
  }

  /** The step of `ReadGrammarMerges` for a line whose left-hand side was declared before. */
  lemma ReadKnownLhs(rules: seq<Rule>)
    requires |rules| > 0
    requires var init := rules[..|rules| - 1];
      && |ReadGrammar(init)| == |FirstDeclared(init)|
      && (forall j | 0 <= j < |ReadGrammar(init)| :: ReadGrammar(init)[j].lhs == FirstDeclared(init)[j])
      && (forall j | 0 <= j < |ReadGrammar(init)| ::
            ReadGrammar(init)[j].alternatives == DeclaredFor(init, ReadGrammar(init)[j].lhs))
      && (forall i, j | 0 <= i < |FirstDeclared(init)| && 0 <= j < |FirstDeclared(init)| && i != j ::
            FirstDeclared(init)[i] != FirstDeclared(init)[j])
      && rules[|rules| - 1].lhs in FirstDeclared(init)
    ensures |ReadGrammar(rules)| == |FirstDeclared(rules)|
    ensures forall j | 0 <= j < |ReadGrammar(rules)| :: ReadGrammar(rules)[j].lhs == FirstDeclared(rules)[j]
    ensures forall j | 0 <= j < |ReadGrammar(rules)| ::
              ReadGrammar(rules)[j].alternatives == DeclaredFor(rules, ReadGrammar(rules)[j].lhs)
  {
    var init := rules[..|rules| - 1];
    var rule := rules[|rules| - 1];
    var m0 := ReadGrammar(init);
    var fd0 := FirstDeclared(init);
    var k :| 0 <= k < |fd0| && fd0[k] == rule.lhs;
    var e := Rule(rule.lhs, m0[k].alternatives + rule.alternatives);
    KnownEntry(m0, fd0, rule, k);
    var m := ReadGrammar(rules);
    assert m == m0[k := e];
    assert FirstDeclared(rules) == fd0;
    forall j | 0 <= j < |m| ensures m[j].alternatives == DeclaredFor(rules, m[j].lhs) {
      if j != k {
        assert m[j] == m0[j] && m0[j].lhs != rule.lhs;
      }
    }
  }

  /** A line whose left-hand side is the k-th of a duplicate-free grammar extends entry k. */
  lemma KnownEntry(m0: seq<Rule>, fd0: seq<string>, rule: Rule, k: nat)
    requires |m0| == |fd0| && k < |fd0| && fd0[k] == rule.lhs
    requires forall j | 0 <= j < |m0| :: m0[j].lhs == fd0[j]
    requires forall i, j | 0 <= i < |fd0| && 0 <= j < |fd0| && i != j :: fd0[i] != fd0[j]
    ensures AddRule(m0, rule) == m0[k := Rule(rule.lhs, m0[k].alternatives + rule.alternatives)]
  {
    AddRuleShape(m0, rule);
    assert m0[k].lhs == rule.lhs;
    assert forall j | 0 <= j < k :: m0[j].lhs != rule.lhs;
  }

  /** The step of `ReadGrammarMerges` for a line with a new left-hand side. */
  lemma ReadNewLhs(rules: seq<Rule>)
    requires |rules| > 0
    requires var init := rules[..|rules| - 1];
      && |ReadGrammar(init)| == |FirstDeclared(init)|
      && (forall j | 0 <= j < |ReadGrammar(init)| :: ReadGrammar(init)[j].lhs == FirstDeclared(init)[j])
      && (forall j | 0 <= j < |ReadGrammar(init)| ::
            ReadGrammar(init)[j].alternatives == DeclaredFor(init, ReadGrammar(init)[j].lhs))
      && (forall x :: x in FirstDeclared(init) <==> Declares(init, x))
      && rules[|rules| - 1].lhs !in FirstDeclared(init)
    ensures |ReadGrammar(rules)| == |FirstDeclared(rules)|
    ensures forall j | 0 <= j < |ReadGrammar(rules)| :: ReadGrammar(rules)[j].lhs == FirstDeclared(rules)[j]
    ensures forall j | 0 <= j < |ReadGrammar(rules)| ::
              ReadGrammar(rules)[j].alternatives == DeclaredFor(rules, ReadGrammar(rules)[j].lhs)
  {
    var init := rules[..|rules| - 1];
    var rule := rules[|rules| - 1];
    var m0 := ReadGrammar(init);
    var fd0 := FirstDeclared(init);
    AddRuleShape(m0, rule);
    assert forall k | 0 <= k < |m0| :: m0[k].lhs != rule.lhs by {
      forall k | 0 <= k < |m0| ensures m0[k].lhs != rule.lhs {
        assert m0[k].lhs == fd0[k] && fd0[k] in fd0;
      }
    }
    var m := ReadGrammar(rules);
    assert m == m0 + [rule];
    assert FirstDeclared(rules) == fd0 + [rule.lhs];
    DeclaredForUndeclared(init, rule.lhs);
    forall j | 0 <= j < |m| ensures m[j].alternatives == DeclaredFor(rules, m[j].lhs) {
      if j < |m0| {
        assert m[j] == m0[j] && m0[j].lhs != rule.lhs;
      } else {
        assert m[j] == rule;
      }
    }
  }

  /** The read grammar has one entry per declared left-hand side, and the entry of a line with alternatives has some. */
  lemma ReadGrammarCovers(rules: seq<Rule>)
    ensures DistinctLhs(ReadGrammar(rules))
    ensures forall j | 0 <= j < |ReadGrammar(rules)| :: Declares(rules, ReadGrammar(rules)[j].lhs)
    ensures forall i | 0 <= i < |rules| :: exists j | 0 <= j < |ReadGrammar(rules)| ::
              && ReadGrammar(rules)[j].lhs == rules[i].lhs
              && |ReadGrammar(rules)[j].alternatives| >= |rules[i].alternatives|
  {
    var m := ReadGrammar(rules);
    var fd := FirstDeclared(rules);
    ReadGrammarMerges(rules);
    FirstDeclaredMembers(rules);
    forall j | 0 <= j < |m| ensures Declares(rules, m[j].lhs) {
      assert fd[j] in fd;
    }
    forall i | 0 <= i < |rules|
      ensures exists j | 0 <= j < |m| :: m[j].lhs == rules[i].lhs && |m[j].alternatives| >= |rules[i].alternatives|
    {
      assert Declares(rules, rules[i].lhs);
      var j :| 0 <= j < |fd| && fd[j] == rules[i].lhs;
      DeclaredForHolds(rules, i);
      assert m[j].lhs == rules[i].lhs;
    }
  }

  /**
    `extract_left_factoring` after the text has been split into lines: the
    lines are merged by left-hand side, then `process_productions` runs per
    left-hand side in order of first declaration.
   */
  function ExtractLeftFactoring(rules: seq<Rule>): (r: Result)
    ensures forall i | 0 <= i < |rules| && |rules[i].alternatives| > 0 :: rules[i].lhs in r
  {
    ReadGrammarCovers(rules);
    FactorRules(ReadGrammar(rules))
  }

  /** `process_productions` per entry of a read grammar, in order. */
  function FactorRules(grammar: seq<Rule>): (r: Result)
    ensures forall i | 0 <= i < |grammar| && |grammar[i].alternatives| > 0 :: grammar[i].lhs in r
  {
    ExtractFirst(grammar, |grammar|)
  }

  /** The result after the first `n` rules. */
  function ExtractFirst(rules: seq<Rule>, n: nat): (r: Result)
    requires n <= |rules|
    ensures forall i | 0 <= i < n && |rules[i].alternatives| > 0 :: rules[i].lhs in r
  {
    if n == 0 then map[]
    else ProcessProductions(rules[n - 1].lhs, rules[n - 1].alternatives, ExtractFirst(rules, n - 1))
  }

  /** Every nonterminal of the result is a left-hand side, or one with primes. */
  lemma ExtractKeys(rules: seq<Rule>)
    ensures forall k | k in ExtractLeftFactoring(rules) ::
              exists i | 0 <= i < |rules| :: k == rules[i].lhs || IsPrimed(k, rules[i].lhs)
  {
    var m := ReadGrammar(rules);
    ReadGrammarCovers(rules);
    ExtractFirstKeys(m, |m|);
    forall k | k in ExtractLeftFactoring(rules)
      ensures exists i | 0 <= i < |rules| :: k == rules[i].lhs || IsPrimed(k, rules[i].lhs)
    {
      var j :| 0 <= j < |m| && (k == m[j].lhs || IsPrimed(k, m[j].lhs));
      assert Declares(rules, m[j].lhs);
      var i :| 0 <= i < |rules| && rules[i].lhs == m[j].lhs;
    }
  }

  lemma {:induction false} ExtractFirstKeys(rules: seq<Rule>, n: nat)
    requires n <= |rules|
    ensures forall k | k in ExtractFirst(rules, n) :: exists i | 0 <= i < n :: k == rules[i].lhs || IsPrimed(k, rules[i].lhs)
  {
    if n > 0 {
      ExtractFirstKeys(rules, n - 1);
      ExtractFirstConfined(rules, n);
      var prev := ExtractFirst(rules, n - 1);
      var r := ExtractFirst(rules, n);
      forall k | k in r ensures exists i | 0 <= i < n :: k == rules[i].lhs || IsPrimed(k, rules[i].lhs) {
        if k != rules[n - 1].lhs && !IsPrimed(k, rules[n - 1].lhs) {
          KeptByOthers(prev, r, rules[n - 1].lhs, k);
        }
      }
    }
  }

  lemma ExtractFirstConfined(rules: seq<Rule>, n: nat)
    requires 0 < n <= |rules|
    ensures Confined(ExtractFirst(rules, n - 1), ExtractFirst(rules, n), rules[n - 1].lhs)
  {
    ProductionsConfined(rules[n - 1].lhs, rules[n - 1].alternatives, ExtractFirst(rules, n - 1));
  }

  /** An entry that is neither `symbol` nor primed from it was there before and is unchanged. */
  lemma KeptByOthers(res: Result, r: Result, symbol: string, k: string)
    requires Confined(res, r, symbol) && k in r && k != symbol && !IsPrimed(k, symbol)
    ensures k in res && r[k] == res[k]
  {
  }

  /** No entry's left-hand side is another's, or another's with primes. */
  predicate Unrelated(rules: seq<Rule>)
  {
    forall i, j | 0 <= i < |rules| && 0 <= j < |rules| && i != j ::
      rules[i].lhs != rules[j].lhs && !IsPrimed(rules[i].lhs, rules[j].lhs)
  }

  /** No left-hand side is another's with primes. */
  predicate NoPrimedLhs(rules: seq<Rule>)
  {
    forall i, j | 0 <= i < |rules| && 0 <= j < |rules| :: !IsPrimed(rules[i].lhs, rules[j].lhs)
  }

  /**
    When no left-hand side collides with a name the factoring may invent,
    every nonterminal's result alternatives are factored; a left-hand side
    may be declared on several lines.
   */
  lemma ExtractFactored(rules: seq<Rule>, i: nat)
    requires NoPrimedLhs(rules)
    requires i < |rules| && |rules[i].alternatives| > 0
    ensures Factored(ExtractLeftFactoring(rules)[rules[i].lhs])
  {
    var m := ReadGrammar(rules);
    ReadGrammarCovers(rules);
    var j :| 0 <= j < |m| && m[j].lhs == rules[i].lhs && |m[j].alternatives| >= |rules[i].alternatives|;
    forall a, b | 0 <= a < |m| && 0 <= b < |m| && a != b
      ensures m[a].lhs != m[b].lhs && !IsPrimed(m[a].lhs, m[b].lhs)
    {
      assert Declares(rules, m[a].lhs) && Declares(rules, m[b].lhs);
      var ia :| 0 <= ia < |rules| && rules[ia].lhs == m[a].lhs;
      var ib :| 0 <= ib < |rules| && rules[ib].lhs == m[b].lhs;
    }
    assert Unrelated(m);
    ExtractFirstFactored(m, |m|, j);
  }

  lemma {:induction false} ExtractFirstFactored(rules: seq<Rule>, n: nat, i: nat)
    requires Unrelated(rules)
    requires i < n <= |rules| && |rules[i].alternatives| > 0
    ensures Factored(ExtractFirst(rules, n)[rules[i].lhs])
  {
    if i == n - 1 {
      NewLhsAbsent(rules, n - 1);
      ProcessProductionsFactored(rules[i].lhs, rules[i].alternatives, ExtractFirst(rules, n - 1));
    } else {
      ExtractFirstFactored(rules, n - 1, i);
      ExtractFirstConfined(rules, n);
      FactoredKept(ExtractFirst(rules, n - 1), ExtractFirst(rules, n), rules[n - 1].lhs, rules[i].lhs);
    }
  }

  /** With unrelated left-hand sides, the next rule's left-hand side has no entry yet. */
  lemma NewLhsAbsent(rules: seq<Rule>, n: nat)
    requires Unrelated(rules) && n < |rules|
    ensures rules[n].lhs !in ExtractFirst(rules, n)
  {
    ExtractFirstKeys(rules, n);
    if rules[n].lhs in ExtractFirst(rules, n) {
      var k :| 0 <= k < n && (rules[n].lhs == rules[k].lhs || IsPrimed(rules[n].lhs, rules[k].lhs));
      assert false;
    }
  }

  /** A Factored entry that is neither `symbol` nor primed from it stays so. */
  lemma FactoredKept(res: Result, r: Result, symbol: string, k: string)
    requires Confined(res, r, symbol) && k in res && k != symbol && !IsPrimed(k, symbol)
    requires Factored(res[k])
    ensures k in r && Factored(r[k])
  {
  }

  // ---------------------------------------------------------------------
  // Worked examples

  /** Productions that all fall into one group form that single group. */
  lemma {:induction false} GroupsOneKey(prods: seq<string>, key: char)
    requires |prods| > 0
    requires forall k | 0 <= k < |prods| :: GroupKey(prods[k]) == key
    ensures Groups(prods) == [Group(key, prods)]
  {
    var init := prods[..|prods| - 1];
    if |init| == 0 {
      assert Groups(init) == [];
      assert prods == [prods[0]];
    } else {
      GroupsOneKey(init, key);
      assert [Group(key, init)][1..] == [];
      assert init + [prods[|prods| - 1]] == prods;
    }
  }

  lemma ThreeLcp()
    ensures LongestCommonPrefix(["ab", "ac", "ad"]) == "a"
  {
    var prods := ["ab", "ac", "ad"];
    assert MinLength(prods[2..]) == 2 && MinLength(prods[1..]) == 2 && MinLength(prods) == 2;
    assert forall s | s in prods :: s == "ab" || s == "ac" || s == "ad";
    assert AgreeAt(prods, 0);
    assert prods[1] in prods && prods[1][1] != prods[0][1];
    assert !AgreeAt(prods, 1);
  }

  lemma ThreeRemainders()
    ensures Remainders(["ab", "ac", "ad"], "a") == ["b", "c", "d"]
  {
    var prods := ["ab", "ac", "ad"];
    assert prods[..1] == ["ab"] && prods[..2] == ["ab", "ac"];
    assert Remainders(["ab"], "a") == ["b"];
    assert Remainders(["ab", "ac"], "a") == ["b", "c"];
  }

  lemma SingleLettersFactored(ps: seq<string>)
    requires forall i | 0 <= i < |ps| :: |ps[i]| == 1 && ps[i][0] != Epsilon
    requires forall i, j | 0 <= i < j < |ps| :: ps[i][0] != ps[j][0]
    ensures Factored(ps)
  {
    assert forall i | 0 <= i < |ps| :: GroupKey(ps[i]) == ps[i][0];
  }

  lemma EmitIntoEmpty(symbol: string, e: string)
    ensures Emit(map[], symbol, [e]) == map[symbol := [e]]
  {
    assert Lookup(map[], symbol) + [e] == [e];
  }

  lemma FactoredStep(symbol: string, g: Group, res: Result, newSymbol: string, rest: seq<string>)
    requires WellKeyed(g) && g.key != Epsilon && |g.members| > 1
    requires newSymbol == FreshName(symbol, res.Keys)
    requires forall k | 0 <= k < |g.members| :: LongestCommonPrefix(g.members) <= g.members[k]
    requires rest == Remainders(g.members, LongestCommonPrefix(g.members))
    ensures ProcessFactored(symbol, g, res)
            == ProcessProductions(newSymbol, rest, Emit(res, symbol, [LongestCommonPrefix(g.members) + newSymbol]))
  {
  }

  /** A primed name gets the factored alternatives unchanged, as a new entry. */
  lemma FreshEntry(res: Result, newSymbol: string, rest: seq<string>)
    requires Factored(rest) && |rest| > 0 && newSymbol !in res
    ensures ProcessProductions(newSymbol, rest, res) == res[newSymbol := rest]
  {
    FactoredUnchanged(newSymbol, rest, res);
    assert Lookup(res, newSymbol) + rest == rest;
  }

  /** In an empty result the first primed name is free. */
  lemma FreshInEmpty(symbol: string)
    ensures FreshName(symbol, {}) == symbol + "'"
  {
    assert IsPrimed(symbol + "'", symbol);
  }

  /**
    A rule whose alternatives all start with one real character becomes
    `symbol -> prefix symbol'` and `symbol' -> remainders`, provided the
    remainders are already factored.
   */
  lemma FactorOneGroup(symbol: string, prods: seq<string>, key: char)
    requires |prods| > 1 && key != Epsilon
    requires forall k | 0 <= k < |prods| :: GroupKey(prods[k]) == key
    requires Factored(Remainders(prods, LongestCommonPrefix(prods)))
    ensures ExtractLeftFactoring([Rule(symbol, prods)])
            == map[symbol := [LongestCommonPrefix(prods) + (symbol + "'")],
                   symbol + "'" := Remainders(prods, LongestCommonPrefix(prods))]
  {
    var g := Group(key, prods);
    var empty: Result := map[];
    GroupsOneKey(prods, key);
    SingleRule(Rule(symbol, prods));
    SingleGroup(symbol, prods, g, empty);
    GroupOfTwoOrMoreFactors(symbol, g, empty);
    FactorGroupIntoEmpty(symbol, g);
  }

  /** The factoring step for a single group, starting from an empty result. */
  lemma FactorGroupIntoEmpty(symbol: string, g: Group)
    requires WellKeyed(g) && g.key != Epsilon && |g.members| > 1
    requires Factored(Remainders(g.members, LongestCommonPrefix(g.members)))
    ensures ProcessFactored(symbol, g, map[])
            == map[symbol := [LongestCommonPrefix(g.members) + (symbol + "'")],
                   symbol + "'" := Remainders(g.members, LongestCommonPrefix(g.members))]
  {
    var cp := LongestCommonPrefix(g.members);
    var rest := Remainders(g.members, cp);
    var newSymbol := symbol + "'";
    var empty: Result := map[];
    var mid := map[symbol := [cp + newSymbol]];
    FreshInEmpty(symbol);
    assert empty.Keys == {};
    FactoredStep(symbol, g, empty, newSymbol, rest);
    EmitIntoEmpty(symbol, cp + newSymbol);
    assert |newSymbol| != |symbol| && newSymbol !in mid;
    var r := ProcessFactored(symbol, g, empty);
    assert r == ProcessProductions(newSymbol, rest, mid);
    FreshEntry(mid, newSymbol, rest);
  }

  /**
    Freshness is checked against `result` only: when factoring `symbol`
    invents `symbol'` and the grammar declares its own `symbol'` later, the
    two sets of alternatives merge under one name.
   */
  lemma FreshNameCollides(symbol: string, prods: seq<string>, key: char, later: seq<string>)
    requires |prods| > 1 && key != Epsilon
    requires forall k | 0 <= k < |prods| :: GroupKey(prods[k]) == key
    requires Factored(Remainders(prods, LongestCommonPrefix(prods)))
    requires |later| > 0 && Factored(later)
    ensures ExtractLeftFactoring([Rule(symbol, prods), Rule(symbol + "'", later)])[symbol + "'"]
            == Remainders(prods, LongestCommonPrefix(prods)) + later
  {
    var rules := [Rule(symbol, prods), Rule(symbol + "'", later)];
    var newSymbol := symbol + "'";
    var rest := Remainders(prods, LongestCommonPrefix(prods));
    var first := ExtractLeftFactoring([Rule(symbol, prods)]);
    FactorOneGroup(symbol, prods, key);
    assert first[newSymbol] == rest;
    assert |newSymbol| != |symbol|;
    ExtractTwo(rules);
    FactoredUnchanged(newSymbol, later, first);
    EmitOnto(ExtractLeftFactoring(rules), first, newSymbol, later);
  }

  /** With two different left-hand sides, the second is processed on top of the first one's result. */
  lemma ExtractTwo(rules: seq<Rule>)
    requires |rules| == 2 && rules[0].lhs != rules[1].lhs
    ensures ExtractLeftFactoring(rules)
            == ProcessProductions(rules[1].lhs, rules[1].alternatives, ExtractLeftFactoring([rules[0]]))
  {
    ReadOne(rules[0]);
    assert rules[..1] == [rules[0]] && [rules[0]][1..] == [];
    assert AddRule([rules[0]], rules[1]) == [rules[0]] + AddRule([], rules[1]);
    assert ReadGrammar(rules) == [rules[0], rules[1]] == rules;
    assert ExtractFirst(rules, 0) == map[] == ExtractFirst([rules[0]], 0);
    assert ExtractFirst(rules, 1) == ExtractFirst([rules[0]], 1);
  }

  /** Emitting onto an existing entry appends to its alternatives. */
  lemma EmitOnto(r: Result, res: Result, symbol: string, items: seq<string>)
    requires symbol in res && r == Emit(res, symbol, items)
    ensures r[symbol] == res[symbol] + items
  {
  }

  lemma BcdFactored()
    ensures Factored(["b", "c", "d"])
  {
    SingleLettersFactored(["b", "c", "d"]);
  }

  lemma GroupOfTwoOrMoreFactors(symbol: string, g: Group, res: Result)
    requires WellKeyed(g) && g.key != Epsilon && |g.members| > 1
    ensures ProcessGroup(symbol, g, res) == ProcessFactored(symbol, g, res)
  {
    LongestCommonPrefixNonEmpty(g.members, g.key);
  }

  lemma SingleGroup(symbol: string, prods: seq<string>, g: Group, res: Result)
    requires |prods| > 0 && Groups(prods) == [g] && WellKeyed(g)
    ensures ProcessProductions(symbol, prods, res) == ProcessGroup(symbol, g, res)
  {
    assert ProcessGroups(symbol, [g], res) == ProcessGroups(symbol, [], ProcessGroup(symbol, g, res));
  }

  lemma ReadOne(rule: Rule)
    ensures ReadGrammar([rule]) == [rule]
  {
    assert [rule][..0] == [];
  }

  lemma SingleRule(rule: Rule)
    ensures ExtractLeftFactoring([rule]) == ProcessProductions(rule.lhs, rule.alternatives, map[])
  {
    ReadOne(rule);
    assert ExtractFirst([rule], 0) == map[];
  }

  /** `X -> ab | ac | ad` becomes `X -> aX'` and `X' -> b | c | d`, whatever the name `X`. */
  lemma ExampleFactorsCommonLetter(x: string)
    ensures ExtractLeftFactoring([Rule(x, ["ab", "ac", "ad"])]) == map[x := ["a" + (x + "'")], x + "'" := ["b", "c", "d"]]
  {
    ThreeLcp();
    ThreeRemainders();
    BcdFactored();
    FactorOneGroup(x, ["ab", "ac", "ad"], 'a');
  }

  /**
    `S -> ab | ac` followed by a declared `S' -> x`: the invented `S'` and the
    declared one share their alternatives.
   */
  lemma ExampleFreshNameCollides(x: string)
    ensures ExtractLeftFactoring([Rule(x, ["ab", "ac"]), Rule(x + "'", ["x"])])[x + "'"] == ["b", "c", "x"]
  {
    TwoLcp();
    BcFactored();
    FreshNameCollides(x, ["ab", "ac"], 'a', ["x"]);
    assert ["b", "c"] + ["x"] == ["b", "c", "x"];
  }

  /**
    `X -> ab` and `X -> ac` on separate lines are merged before factoring,
    so they give `X -> aX'` and `X' -> b | c`, as one line `X -> ab | ac` would.
   */
  lemma ExampleRepeatedLhs(x: string)
    ensures ExtractLeftFactoring([Rule(x, ["ab"]), Rule(x, ["ac"])])
            == ExtractLeftFactoring([Rule(x, ["ab", "ac"])])
            == map[x := ["a" + (x + "'")], x + "'" := ["b", "c"]]
  {
    var rules := [Rule(x, ["ab"]), Rule(x, ["ac"])];
    ReadOne(rules[0]);
    ReadOne(Rule(x, ["ab", "ac"]));
    assert rules[..1] == [rules[0]] && [rules[0]][1..] == [];
    assert ["ab"] + ["ac"] == ["ab", "ac"];
    assert ReadGrammar(rules) == [Rule(x, ["ab", "ac"])];
    TwoLcp();
    BcFactored();
    FactorOneGroup(x, ["ab", "ac"], 'a');
  }

  lemma TwoLcp()
    ensures LongestCommonPrefix(["ab", "ac"]) == "a"
    ensures Remainders(["ab", "ac"], "a") == ["b", "c"]
  {
    var prods := ["ab", "ac"];
    assert MinLength(prods[1..]) == 2 && MinLength(prods) == 2;
    assert forall s | s in prods :: s == "ab" || s == "ac";
    assert AgreeAt(prods, 0);
    assert prods[1] in prods && prods[1][1] != prods[0][1];
    assert !AgreeAt(prods, 1);
    assert prods[..1] == ["ab"];
  }

  lemma BcFactored()
    ensures Factored(["b", "c"]) && Factored(["x"])
  {
    SingleLettersFactored(["b", "c"]);
    SingleLettersFactored(["x"]);
  }

  lemma EpsilonGroups()
    ensures Groups(["ε", "b", "", "ε"]) == [Group(Epsilon, ["ε", "", "ε"]), Group('b', ["b"])]
  {
    var prods := ["ε", "b", "", "ε"];
    assert prods[..3] == ["ε", "b", ""];
    var p3 := ["ε", "b", ""];
    assert p3[..2] == ["ε", "b"];
    var p2 := ["ε", "b"];
    assert p2[..1] == ["ε"];
    assert ["ε"][..0] == [];
    var g1 := [Group(Epsilon, ["ε"])];
    assert Groups(["ε"]) == g1;
    var g2 := [Group(Epsilon, ["ε"]), Group('b', ["b"])];
    assert AddToGroups(g1[1..], "b") == [Group('b', ["b"])];
    assert Groups(["ε", "b"]) == g2;
    var g3 := [Group(Epsilon, ["ε", ""]), Group('b', ["b"])];
    assert ["ε"] + [""] == ["ε", ""];
    assert Groups(["ε", "b", ""]) == g3;
    assert ["ε", ""] + ["ε"] == ["ε", "", "ε"];
  }

  /** However many `ε` and empty alternatives there are, one `"ε"` is emitted. */
  lemma ExampleEpsilonGroup(x: string)
    ensures ExtractLeftFactoring([Rule(x, ["ε", "b", "", "ε"])]) == map[x := ["ε", "b"]]
  {
    var prods := ["ε", "b", "", "ε"];
    var g1 := Group(Epsilon, ["ε", "", "ε"]);
    var g2 := Group('b', ["b"]);
    var empty: Result := map[];
    EpsilonGroups();
    SingleRule(Rule(x, prods));
    GroupsWellKeyed(prods);
    TwoGroups(x, prods, g1, g2, empty);
    EpsilonThenLetter(x, g1, g2);
  }

  lemma EpsilonThenLetter(x: string, g1: Group, g2: Group)
    requires g1 == Group(Epsilon, ["ε", "", "ε"]) && g2 == Group('b', ["b"])
    ensures ProcessGroup(x, g2, ProcessGroup(x, g1, map[])) == map[x := ["ε", "b"]]
  {
    var empty: Result := map[];
    EmitIntoEmpty(x, EpsilonText);
    var mid := map[x := ["ε"]];
    assert ProcessGroup(x, g1, empty) == mid;
    EmitTwice(empty, x, ["ε"], ["b"]);
    assert ["ε"] + ["b"] == ["ε", "b"];
    EmitIntoEmpty(x, EpsilonText);
  }

  /** Two groups are processed one after the other. */
  lemma TwoGroups(symbol: string, prods: seq<string>, g1: Group, g2: Group, res: Result)
    requires |prods| > 0 && Groups(prods) == [g1, g2] && WellKeyed(g1) && WellKeyed(g2)
    ensures ProcessProductions(symbol, prods, res) == ProcessGroup(symbol, g2, ProcessGroup(symbol, g1, res))
  {
    var gs := [g1, g2];
    var mid := ProcessGroup(symbol, g1, res);
    assert gs[1..] == [g2] && gs[1..][1..] == [];
    assert ProcessGroups(symbol, gs[1..], mid) == ProcessGroups(symbol, [], ProcessGroup(symbol, g2, mid));
  }
}
