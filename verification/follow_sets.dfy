/**
  FOLLOW sets (`calculate_follow` of `first_and_follow_set.py` and of
  `ll1_parser.py`).

  Both files seed FOLLOW(start) with `$` and then make passes over every
  production of every head, walking each production from right to left and
  updating the FOLLOW set of each nonterminal met, until a pass changes
  nothing.  They differ in one branch: `first_and_follow_set.py` stops the
  walk at the first symbol that is not a nonterminal, `ll1_parser.py` steps
  over it.  A third variant, `Textbook`, uses the FIRST set of the whole rest
  of the production: the rule the two files evidently intend.
 */
module FollowSets {
  import opened CharGrammar
  import opened FirstSets

  datatype Variant =
    | StopAtTerminal  // first_and_follow_set.py
    | SkipTerminal    // ll1_parser.py
    | Textbook        // FIRST of the whole rest of the production

  /** `forall k :: a[k] <= b[k]` on dictionaries whose missing entries read as empty. */
  predicate GetBelow(a: SetMap, b: SetMap)
  {
    forall k :: Get(a, k) <= Get(b, k)
  }

  // ---------------------------------------------------------------------
  // One position of one production

  /**
    What the position after `i` contributes: the FIRST set of the next symbol
    read from the FIRST table (a symbol with no entry has none), or, in the
    `Textbook` variant, the FIRST set of the whole rest of the production.
   */
  function NextFirst(v: Variant, first: SetMap, body: string, i: nat): set<char>
    requires i + 1 < |body|
  {
    if v == Textbook then FirstOfBody(first, body[i + 1..]) else Get(first, body[i + 1])
  }

  /** Whether FOLLOW(head) flows past the rest of the production as well. */
  predicate NextNullable(v: Variant, first: SetMap, body: string, i: nat)
    requires i + 1 < |body|
  {
    Epsilon in NextFirst(v, first, body, i)
  }

  /** The update of FOLLOW(body[i]) made when the walk reaches nonterminal `body[i]`. */
  function UpdateAt(v: Variant, first: SetMap, head: char, body: string, i: nat, f: SetMap): SetMap
    requires i < |body|
  {
    var sym := body[i];
    if i == |body| - 1 then Add(f, sym, Get(f, head))
    else
      var f1 := Add(f, sym, NextFirst(v, first, body, i) - {Epsilon});
      if NextNullable(v, first, body, i) then Add(f1, sym, Get(f1, head)) else f1
  }

  /** The inclusions an update at position `i` establishes. */
  predicate ClosedAt(v: Variant, first: SetMap, head: char, body: string, i: nat, h: SetMap)
    requires i < |body|
  {
    if i == |body| - 1 then Get(h, head) <= Get(h, body[i])
    else
      && NextFirst(v, first, body, i) - {Epsilon} <= Get(h, body[i])
      && (NextNullable(v, first, body, i) ==> Get(h, head) <= Get(h, body[i]))
  }

  /**
    Position `i` is updated by a walk that starts below position `j`: it holds
    a nonterminal and, when the walk stops at terminals, so does every
    position between them.
   */
  predicate Processed(v: Variant, body: string, i: nat, j: nat)
    requires i < j <= |body|
  {
    && IsNonTerminal(body[i])
    && (v == StopAtTerminal ==> forall k | i < k < j :: IsNonTerminal(body[k]))
  }

  lemma UpdateGrows(v: Variant, first: SetMap, head: char, body: string, i: nat, f: SetMap)
    requires i < |body|
    ensures Below(f, UpdateAt(v, first, head, body, i, f))
  {
  }

  lemma UpdateFixed(v: Variant, first: SetMap, head: char, body: string, i: nat, f: SetMap)
    requires i < |body|
    requires UpdateAt(v, first, head, body, i, f) == f
    ensures ClosedAt(v, first, head, body, i, f)
  {
    var sym := body[i];
    if i < |body| - 1 {
      var f1 := Add(f, sym, NextFirst(v, first, body, i) - {Epsilon});
      if NextNullable(v, first, body, i) {
        BelowAntisymmetric(f, f1);
      }
    }
  }

  lemma UpdateBelow(v: Variant, first: SetMap, head: char, body: string, i: nat, f: SetMap, h: SetMap)
    requires i < |body|
    requires GetBelow(f, h) && ClosedAt(v, first, head, body, i, h)
    ensures GetBelow(UpdateAt(v, first, head, body, i, f), h)
  {
  }

  // ---------------------------------------------------------------------
  // The right-to-left walk over one production

  /** The walk over positions `j - 1` down to `0`. */
  function ScanBody(v: Variant, first: SetMap, head: char, body: string, j: nat, f: SetMap): SetMap
    requires j <= |body|
  {
    if j == 0 then f
    else if IsNonTerminal(body[j - 1]) then
      ScanBody(v, first, head, body, j - 1, UpdateAt(v, first, head, body, j - 1, f))
    else if v == StopAtTerminal then f
    else ScanBody(v, first, head, body, j - 1, f)
  }

  lemma {:induction false} ScanGrows(v: Variant, first: SetMap, head: char, body: string, j: nat, f: SetMap)
    requires j <= |body|
    ensures Below(f, ScanBody(v, first, head, body, j, f))
  {
    if j > 0 {
      if IsNonTerminal(body[j - 1]) {
        var mid := UpdateAt(v, first, head, body, j - 1, f);
        UpdateGrows(v, first, head, body, j - 1, f);
        ScanGrows(v, first, head, body, j - 1, mid);
        BelowTrans(f, mid, ScanBody(v, first, head, body, j - 1, mid));
      } else if v != StopAtTerminal {
        ScanGrows(v, first, head, body, j - 1, f);
      }
    }
  }

  lemma {:induction false} ScanFixed(v: Variant, first: SetMap, head: char, body: string, j: nat, f: SetMap)
    requires j <= |body|
    requires ScanBody(v, first, head, body, j, f) == f
    ensures forall i | 0 <= i < j && Processed(v, body, i, j) :: ClosedAt(v, first, head, body, i, f)
  {
    if j > 0 {
      if IsNonTerminal(body[j - 1]) {
        var mid := UpdateAt(v, first, head, body, j - 1, f);
        UpdateGrows(v, first, head, body, j - 1, f);
        ScanGrows(v, first, head, body, j - 1, mid);
        BelowAntisymmetric(f, mid);
        UpdateFixed(v, first, head, body, j - 1, f);
        ScanFixed(v, first, head, body, j - 1, f);
        assert forall i | 0 <= i < j - 1 && Processed(v, body, i, j) :: Processed(v, body, i, j - 1);
      } else if v != StopAtTerminal {
        ScanFixed(v, first, head, body, j - 1, f);
        assert forall i | 0 <= i < j - 1 && Processed(v, body, i, j) :: Processed(v, body, i, j - 1);
      } else {
        assert forall i | 0 <= i < j :: !Processed(v, body, i, j);
      }
    }
  }

  lemma {:induction false} ScanBelow(v: Variant, first: SetMap, head: char, body: string, j: nat, f: SetMap, h: SetMap)
    requires j <= |body|
    requires GetBelow(f, h)
    requires forall i | 0 <= i < j && Processed(v, body, i, j) :: ClosedAt(v, first, head, body, i, h)
    ensures GetBelow(ScanBody(v, first, head, body, j, f), h)
  {
    if j > 0 {
      if IsNonTerminal(body[j - 1]) {
        assert Processed(v, body, j - 1, j);
        UpdateBelow(v, first, head, body, j - 1, f, h);
        assert forall i | 0 <= i < j - 1 && Processed(v, body, i, j - 1) :: Processed(v, body, i, j);
        ScanBelow(v, first, head, body, j - 1, UpdateAt(v, first, head, body, j - 1, f), h);
      } else if v != StopAtTerminal {
        assert forall i | 0 <= i < j - 1 && Processed(v, body, i, j - 1) :: Processed(v, body, i, j);
        ScanBelow(v, first, head, body, j - 1, f, h);
      }
    }
  }

  // ---------------------------------------------------------------------
  // One pass over the grammar

  /** The walks over every production of one head, in order. */
  function PassBodies(v: Variant, first: SetMap, head: char, bodies: seq<string>, f: SetMap): SetMap
  {
    if |bodies| == 0 then f
    else PassBodies(v, first, head, bodies[1..], ScanBody(v, first, head, bodies[0], |bodies[0]|, f))
  }

  /** One pass of the `while changed` loop: every head, in dictionary order. */
  function PassRules(v: Variant, first: SetMap, rules: seq<Rule>, f: SetMap): SetMap
  {
    if |rules| == 0 then f
    else PassRules(v, first, rules[1..], PassBodies(v, first, rules[0].head, rules[0].bodies, f))
  }

  /** Every production of every rule is closed at every position its walk updates. */
  predicate Closure(v: Variant, first: SetMap, rules: seq<Rule>, h: SetMap)
  {
    forall r, b, i | r in rules && b in r.bodies && 0 <= i < |b| && Processed(v, b, i, |b|) ::
      ClosedAt(v, first, r.head, b, i, h)
  }

  lemma {:induction false} BodiesGrows(v: Variant, first: SetMap, head: char, bodies: seq<string>, f: SetMap)
    ensures Below(f, PassBodies(v, first, head, bodies, f))
  {
    if |bodies| > 0 {
      var mid := ScanBody(v, first, head, bodies[0], |bodies[0]|, f);
      ScanGrows(v, first, head, bodies[0], |bodies[0]|, f);
      BodiesGrows(v, first, head, bodies[1..], mid);
      BelowTrans(f, mid, PassBodies(v, first, head, bodies[1..], mid));
    }
  }

  lemma {:induction false} RulesGrows(v: Variant, first: SetMap, rules: seq<Rule>, f: SetMap)
    ensures Below(f, PassRules(v, first, rules, f))
  {
    if |rules| > 0 {
      var mid := PassBodies(v, first, rules[0].head, rules[0].bodies, f);
      BodiesGrows(v, first, rules[0].head, rules[0].bodies, f);
      RulesGrows(v, first, rules[1..], mid);
      BelowTrans(f, mid, PassRules(v, first, rules[1..], mid));
    }
  }

  lemma {:induction false} BodiesFixed(v: Variant, first: SetMap, head: char, bodies: seq<string>, f: SetMap)
    requires PassBodies(v, first, head, bodies, f) == f
    ensures forall b, i | b in bodies && 0 <= i < |b| && Processed(v, b, i, |b|) :: ClosedAt(v, first, head, b, i, f)
  {
    if |bodies| > 0 {
      var mid := ScanBody(v, first, head, bodies[0], |bodies[0]|, f);
      ScanGrows(v, first, head, bodies[0], |bodies[0]|, f);
      BodiesGrows(v, first, head, bodies[1..], mid);
      BelowAntisymmetric(f, mid);
      ScanFixed(v, first, head, bodies[0], |bodies[0]|, f);
      BodiesFixed(v, first, head, bodies[1..], f);
      assert forall b | b in bodies :: b == bodies[0] || b in bodies[1..];
    }
  }

  lemma {:induction false} RulesFixed(v: Variant, first: SetMap, rules: seq<Rule>, f: SetMap)
    requires PassRules(v, first, rules, f) == f
    ensures Closure(v, first, rules, f)
  {
    if |rules| > 0 {
      var mid := PassBodies(v, first, rules[0].head, rules[0].bodies, f);
      BodiesGrows(v, first, rules[0].head, rules[0].bodies, f);
      RulesGrows(v, first, rules[1..], mid);
      BelowAntisymmetric(f, mid);
      BodiesFixed(v, first, rules[0].head, rules[0].bodies, f);
      RulesFixed(v, first, rules[1..], f);
      assert forall r | r in rules :: r == rules[0] || r in rules[1..];
    }
  }

  lemma {:induction false} BodiesBelow(v: Variant, first: SetMap, head: char, bodies: seq<string>, f: SetMap, h: SetMap)
    requires GetBelow(f, h)
    requires forall b, i | b in bodies && 0 <= i < |b| && Processed(v, b, i, |b|) :: ClosedAt(v, first, head, b, i, h)
    ensures GetBelow(PassBodies(v, first, head, bodies, f), h)
  {
    if |bodies| > 0 {
      assert bodies[0] in bodies;
      ScanBelow(v, first, head, bodies[0], |bodies[0]|, f, h);
      assert forall b | b in bodies[1..] :: b in bodies;
      BodiesBelow(v, first, head, bodies[1..], ScanBody(v, first, head, bodies[0], |bodies[0]|, f), h);
    }
  }

  lemma {:induction false} RulesBelow(v: Variant, first: SetMap, rules: seq<Rule>, f: SetMap, h: SetMap)
    requires GetBelow(f, h) && Closure(v, first, rules, h)
    ensures GetBelow(PassRules(v, first, rules, f), h)
  {
    if |rules| > 0 {
      assert rules[0] in rules;
      BodiesBelow(v, first, rules[0].head, rules[0].bodies, f, h);
      assert forall r | r in rules[1..] :: r in rules;
      RulesBelow(v, first, rules[1..], PassBodies(v, first, rules[0].head, rules[0].bodies, f), h);
    }
  }

  // ---------------------------------------------------------------------
  // The bounds that make the loop terminate

  /** Nonterminals used in some production. */
  function UsedNonTerminals(g: Grammar): set<char>
  {
    set r, b, c | r in g && b in r.bodies && c in b && IsNonTerminal(c) :: c
  }

  /** The entries of the FOLLOW dictionary: every head, the start symbol and every nonterminal used. */
  function FollowKeys(g: Grammar, start: char): set<char>
  {
    Heads(g) + {start} + UsedNonTerminals(g)
  }

  /**
    On a grammar whose used nonterminals all have entries and whose start
    symbol has one, the FOLLOW dictionary has exactly the heads as keys,
    as `follow_sets` is built from the heads in `first_and_follow_set.py`.
   */
  lemma FollowKeysOfClosed(g: Grammar, start: char)
    requires Closed(g) && start in Heads(g)
    ensures FollowKeys(g, start) == Heads(g)
  {
    forall c | c in UsedNonTerminals(g)
      ensures c in Heads(g)
    {
      var r, b :| r in g && b in r.bodies && c in b && IsNonTerminal(c);
    }
  }

  /** Every element of every set of `m`. */
  function Values(m: SetMap): set<char>
  {
    set k, c | k in m && c in m[k] :: c
  }

  /** All a FOLLOW set can hold. */
  function Universe(g: Grammar, first: SetMap): set<char>
  {
    Alphabet(g) + Values(first) + {EndMarker}
  }

  lemma NextFirstBounded(v: Variant, first: SetMap, g: Grammar, r: Rule, b: string, i: nat)
    requires r in g && b in r.bodies && i + 1 < |b|
    ensures NextFirst(v, first, b, i) <= Universe(g, first)
  {
    var u := Universe(g, first);
    if v == Textbook {
      assert forall c | c in b :: c in Alphabet(g);
      assert forall c | c in b[i + 1..] :: c in b;
      assert forall k | k in first :: first[k] <= u;
      ScanFirstBounded(first, b[i + 1..], u);
    }
  }

  lemma UpdateWithin(v: Variant, first: SetMap, g: Grammar, start: char, r: Rule, b: string, i: nat, f: SetMap)
    requires r in g && b in r.bodies && i < |b| && IsNonTerminal(b[i])
    requires Within(f, FollowKeys(g, start), Universe(g, first))
    ensures Within(UpdateAt(v, first, r.head, b, i, f), FollowKeys(g, start), Universe(g, first))
  {
    assert b[i] in b;
    assert b[i] in UsedNonTerminals(g);
    if i < |b| - 1 {
      NextFirstBounded(v, first, g, r, b, i);
    }
  }

  lemma {:induction false} ScanWithin(v: Variant, first: SetMap, g: Grammar, start: char, r: Rule, b: string, j: nat, f: SetMap)
    requires r in g && b in r.bodies && j <= |b|
    requires Within(f, FollowKeys(g, start), Universe(g, first))
    ensures Within(ScanBody(v, first, r.head, b, j, f), FollowKeys(g, start), Universe(g, first))
  {
    if j > 0 {
      if IsNonTerminal(b[j - 1]) {
        UpdateWithin(v, first, g, start, r, b, j - 1, f);
        ScanWithin(v, first, g, start, r, b, j - 1, UpdateAt(v, first, r.head, b, j - 1, f));
      } else if v != StopAtTerminal {
        ScanWithin(v, first, g, start, r, b, j - 1, f);
      }
    }
  }

  lemma {:induction false} BodiesWithin(v: Variant, first: SetMap, g: Grammar, start: char, r: Rule, bodies: seq<string>, f: SetMap)
    requires r in g && forall b | b in bodies :: b in r.bodies
    requires Within(f, FollowKeys(g, start), Universe(g, first))
    ensures Within(PassBodies(v, first, r.head, bodies, f), FollowKeys(g, start), Universe(g, first))
  {
    if |bodies| > 0 {
      assert bodies[0] in bodies;
      ScanWithin(v, first, g, start, r, bodies[0], |bodies[0]|, f);
      assert forall b | b in bodies[1..] :: b in bodies;
      BodiesWithin(v, first, g, start, r, bodies[1..], ScanBody(v, first, r.head, bodies[0], |bodies[0]|, f));
    }
  }

  lemma {:induction false} RulesWithin(v: Variant, first: SetMap, g: Grammar, start: char, rules: seq<Rule>, f: SetMap)
    requires forall r | r in rules :: r in g
    requires Within(f, FollowKeys(g, start), Universe(g, first))
    ensures Within(PassRules(v, first, rules, f), FollowKeys(g, start), Universe(g, first))
  {
    if |rules| > 0 {
      assert rules[0] in rules;
      BodiesWithin(v, first, g, start, rules[0], rules[0].bodies, f);
      assert forall r | r in rules[1..] :: r in rules;
      RulesWithin(v, first, g, start, rules[1..], PassBodies(v, first, rules[0].head, rules[0].bodies, f));
    }
  }

  // ---------------------------------------------------------------------
  // The loop

  /** `while changed`: repeat the pass until it leaves every set as it was. */
  function FollowLoop(v: Variant, first: SetMap, g: Grammar, start: char, f: SetMap): (r: SetMap)
    requires Within(f, FollowKeys(g, start), Universe(g, first))
    ensures Within(r, FollowKeys(g, start), Universe(g, first))
    ensures PassRules(v, first, g, r) == r
    decreases Grid(FollowKeys(g, start), Universe(g, first)) - Pairs(f)
  {
    var next := PassRules(v, first, g, f);
    if next == f then f
    else
      RulesWithin(v, first, g, start, g, f);
      RulesGrows(v, first, g, f);
      GrowthShrinksRoom(f, next, FollowKeys(g, start), Universe(g, first));
      FollowLoop(v, first, g, start, next)
  }

  /** Empty FOLLOW sets except `$` in FOLLOW(start). */
  function Initial(g: Grammar, start: char): (r: SetMap)
  {
    map x | x in FollowKeys(g, start) :: if x == start then {EndMarker} else {}
  }

  /** `calculate_follow`, given the FIRST table it reads. */
  function Follow(v: Variant, first: SetMap, g: Grammar, start: char): (r: SetMap)
    ensures r.Keys == FollowKeys(g, start)
    ensures PassRules(v, first, g, r) == r
  {
    FollowLoop(v, first, g, start, Initial(g, start))
  }

  lemma {:induction false} FollowLoopGrows(v: Variant, first: SetMap, g: Grammar, start: char, f: SetMap)
    requires Within(f, FollowKeys(g, start), Universe(g, first))
    ensures Below(f, FollowLoop(v, first, g, start, f))
    decreases Grid(FollowKeys(g, start), Universe(g, first)) - Pairs(f)
  {
    var next := PassRules(v, first, g, f);
    if next != f {
      RulesWithin(v, first, g, start, g, f);
      RulesGrows(v, first, g, f);
      GrowthShrinksRoom(f, next, FollowKeys(g, start), Universe(g, first));
      FollowLoopGrows(v, first, g, start, next);
      BelowTrans(f, next, FollowLoop(v, first, g, start, next));
    }
  }

  lemma {:induction false} FollowLoopBelow(v: Variant, first: SetMap, g: Grammar, start: char, f: SetMap, h: SetMap)
    requires Within(f, FollowKeys(g, start), Universe(g, first))
    requires GetBelow(f, h) && Closure(v, first, g, h)
    ensures GetBelow(FollowLoop(v, first, g, start, f), h)
    decreases Grid(FollowKeys(g, start), Universe(g, first)) - Pairs(f)
  {
    var next := PassRules(v, first, g, f);
    if next != f {
      RulesWithin(v, first, g, start, g, f);
      RulesGrows(v, first, g, f);
      GrowthShrinksRoom(f, next, FollowKeys(g, start), Universe(g, first));
      RulesBelow(v, first, g, f, h);
      FollowLoopBelow(v, first, g, start, next, h);
    }
  }

  // ---------------------------------------------------------------------
  // What the result satisfies

  /** `$` is in FOLLOW(start), and the loop only ever adds to the seed. */
  lemma FollowHasEndMarker(v: Variant, first: SetMap, g: Grammar, start: char)
    ensures EndMarker in Get(Follow(v, first, g, start), start)
  {
    FollowLoopGrows(v, first, g, start, Initial(g, start));
  }

  /**
    At the end every production is closed at every position the walk
    updates: for `head -> ... B X ...` the FIRST of what follows `B`, less
    `ε`, is in FOLLOW(B), and when that can vanish FOLLOW(head) is too.
   */
  lemma FollowClosed(v: Variant, first: SetMap, g: Grammar, start: char)
    ensures Closure(v, first, g, Follow(v, first, g, start))
  {
    RulesFixed(v, first, g, Follow(v, first, g, start));
  }

  /** The result is the least such assignment: any closed one with `$` in FOLLOW(start) contains it. */
  lemma FollowLeast(v: Variant, first: SetMap, g: Grammar, start: char, h: SetMap)
    requires Closure(v, first, g, h) && EndMarker in Get(h, start)
    ensures GetBelow(Follow(v, first, g, start), h)
  {
    FollowLoopBelow(v, first, g, start, Initial(g, start), h);
  }

  /** Every set without `ε`. */
  function StripEpsilon(f: SetMap): (r: SetMap)
  {
    map x | x in f :: f[x] - {Epsilon}
  }

  lemma ClosedAtStrip(v: Variant, first: SetMap, head: char, body: string, i: nat, f: SetMap)
    requires i < |body| && ClosedAt(v, first, head, body, i, f)
    ensures ClosedAt(v, first, head, body, i, StripEpsilon(f))
  {
    var h := StripEpsilon(f);
    assert Get(h, head) == Get(f, head) - {Epsilon};
    assert Get(h, body[i]) == Get(f, body[i]) - {Epsilon};
  }

  /** `ε` is never in a FOLLOW set: only FIRST sets less `ε`, other FOLLOW sets and `$` flow in. */
  lemma FollowNoEpsilon(v: Variant, first: SetMap, g: Grammar, start: char, k: char)
    ensures Epsilon !in Get(Follow(v, first, g, start), k)
  {
    var f := Follow(v, first, g, start);
    var h := StripEpsilon(f);
    FollowClosed(v, first, g, start);
    forall r, b, i | r in g && b in r.bodies && 0 <= i < |b| && Processed(v, b, i, |b|)
      ensures ClosedAt(v, first, r.head, b, i, h)
    {
      ClosedAtStrip(v, first, r.head, b, i, f);
    }
    FollowHasEndMarker(v, first, g, start);
    assert Get(h, start) == Get(f, start) - {Epsilon};
    FollowLeast(v, first, g, start, h);
    assert Get(f, k) <= Get(h, k);
  }

  /**
    Stopping at the first terminal only drops updates: the sets of
    `first_and_follow_set.py` are contained in those of `ll1_parser.py`.
   */
  lemma StopBelowSkip(first: SetMap, g: Grammar, start: char)
    ensures GetBelow(Follow(StopAtTerminal, first, g, start), Follow(SkipTerminal, first, g, start))
  {
    var skip := Follow(SkipTerminal, first, g, start);
    FollowClosed(SkipTerminal, first, g, start);
    FollowHasEndMarker(SkipTerminal, first, g, start);
    forall r, b, i | r in g && b in r.bodies && 0 <= i < |b| && Processed(StopAtTerminal, b, i, |b|)
      ensures ClosedAt(StopAtTerminal, first, r.head, b, i, skip)
    {
      assert Processed(SkipTerminal, b, i, |b|);
    }
    FollowLeast(StopAtTerminal, first, g, start, skip);
  }
}
