/**
  FIRST sets (`calculate_first` / `get_first` of both `first_and_follow_set.py`
  and `ll1_parser.py`, and `get_first_of_production` of `ll1_parser.py`).

  The source computes FIRST by a memoised recursion that has no guard
  against cycles.  The model computes the least solution of the same
  per-production rule by iterating it from empty sets until nothing changes;
  where the recursion terminates it computes that same solution.
 */
module FirstSets {
  import opened CharGrammar

  // ---------------------------------------------------------------------
  // The per-production rule

  /**
    The left-to-right scan of one production: a symbol that is not a
    nonterminal is added and ends the scan; a nonterminal adds its FIRST set
    without `ε`, and the scan goes on only when that set holds `ε`.
   */
  function ScanFirst(f: SetMap, body: string): set<char>
  {
    if |body| == 0 then {}
    else if !IsNonTerminal(body[0]) then {body[0]}
    else (Get(f, body[0]) - {Epsilon}) + (if Epsilon in Get(f, body[0]) then ScanFirst(f, body[1..]) else {})
  }

  /** The first `i` symbols are nonterminals whose FIRST sets hold `ε`. */
  predicate NullableUpTo(f: SetMap, body: string, i: nat)
    requires i <= |body|
  {
    forall k | 0 <= k < i :: IsNonTerminal(body[k]) && Epsilon in Get(f, body[k])
  }

  /** The `all(...)` test: every symbol is a nonterminal whose FIRST set holds `ε`. */
  predicate AllNullable(f: SetMap, body: string)
  {
    NullableUpTo(f, body, |body|)
  }

  /** What a symbol reached by the scan contributes: itself, or its FIRST set without `ε`. */
  predicate Contributes(f: SetMap, s: char, c: char)
  {
    if IsNonTerminal(s) then c in Get(f, s) && c != Epsilon else c == s
  }

  /** `get_first_of_production`, and one production's share of `get_first`. */
  function FirstOfBody(f: SetMap, body: string): set<char>
  {
    ScanFirst(f, body) + (if AllNullable(f, body) then {Epsilon} else {})
  }

  lemma {:induction false} ScanFirstMembers(f: SetMap, body: string, c: char)
    ensures c in ScanFirst(f, body) <==>
            exists i | 0 <= i < |body| :: NullableUpTo(f, body, i) && Contributes(f, body[i], c)
  {
    if |body| > 0 && IsNonTerminal(body[0]) && Epsilon in Get(f, body[0]) {
      var tail := body[1..];
      ScanFirstMembers(f, tail, c);
      if c in ScanFirst(f, tail) {
        var i :| 0 <= i < |tail| && NullableUpTo(f, tail, i) && Contributes(f, tail[i], c);
        assert body[i + 1] == tail[i];
        assert NullableUpTo(f, body, i + 1);
      }
      if exists i | 0 <= i < |body| :: NullableUpTo(f, body, i) && Contributes(f, body[i], c) {
        var i :| 0 <= i < |body| && NullableUpTo(f, body, i) && Contributes(f, body[i], c);
        if i > 0 {
          assert tail[i - 1] == body[i];
          assert NullableUpTo(f, tail, i - 1);
        }
      }
    } else if |body| > 0 {
      if exists i | 0 <= i < |body| :: NullableUpTo(f, body, i) && Contributes(f, body[i], c) {
        var i :| 0 <= i < |body| && NullableUpTo(f, body, i) && Contributes(f, body[i], c);
        assert i == 0;
      }
      assert NullableUpTo(f, body, 0);
    }
  }

  /**
    The production rule, stated without the scan: `c` is in the production's
    FIRST set exactly when the production reaches, after nullable
    nonterminals only, a symbol contributing `c`; or `c` is `ε` and the whole
    production is nullable.
   */
  lemma FirstOfBodyMembers(f: SetMap, body: string, c: char)
    ensures c in FirstOfBody(f, body) <==>
            || (c == Epsilon && AllNullable(f, body))
            || exists i | 0 <= i < |body| :: NullableUpTo(f, body, i) && Contributes(f, body[i], c)
  {
    ScanFirstMembers(f, body, c);
  }

  /** A production that starts with a symbol other than a nonterminal has exactly that symbol as FIRST. */
  lemma FirstOfTerminalStart(f: SetMap, body: string)
    requires |body| > 0 && !IsNonTerminal(body[0])
    ensures FirstOfBody(f, body) == {body[0]}
  {
    assert !AllNullable(f, body);
  }

  lemma {:induction false} ScanFirstMonotone(f: SetMap, h: SetMap, body: string)
    requires Below(f, h)
    ensures ScanFirst(f, body) <= ScanFirst(h, body)
  {
    if |body| > 0 {
      ScanFirstMonotone(f, h, body[1..]);
    }
  }

  lemma FirstOfBodyMonotone(f: SetMap, h: SetMap, body: string)
    requires Below(f, h)
    ensures FirstOfBody(f, body) <= FirstOfBody(h, body)
  {
    ScanFirstMonotone(f, h, body);
  }

  // ---------------------------------------------------------------------
  // One round over the whole grammar

  /** The union of the FIRST sets of a head's productions. */
  function RuleFirst(f: SetMap, bodies: seq<string>): set<char>
  {
    if |bodies| == 0 then {}
    else RuleFirst(f, bodies[..|bodies| - 1]) + FirstOfBody(f, bodies[|bodies| - 1])
  }

  lemma {:induction false} RuleFirstMembers(f: SetMap, bodies: seq<string>, c: char)
    ensures c in RuleFirst(f, bodies) <==> exists b | b in bodies :: c in FirstOfBody(f, b)
  {
    if |bodies| > 0 {
      var init := bodies[..|bodies| - 1];
      RuleFirstMembers(f, init, c);
      assert bodies == init + [bodies[|bodies| - 1]];
    }
  }

  lemma {:induction false} RuleFirstMonotone(f: SetMap, h: SetMap, bodies: seq<string>)
    requires Below(f, h)
    ensures RuleFirst(f, bodies) <= RuleFirst(h, bodies)
  {
    if |bodies| > 0 {
      RuleFirstMonotone(f, h, bodies[..|bodies| - 1]);
      FirstOfBodyMonotone(f, h, bodies[|bodies| - 1]);
    }
  }

  /** Every head's FIRST set recomputed from `f` by the production rule. */
  function FirstStep(g: Grammar, f: SetMap): SetMap
  {
    map x | x in Heads(g) :: RuleFirst(f, BodiesOf(g, x))
  }

  lemma FirstStepMonotone(g: Grammar, f: SetMap, h: SetMap)
    requires Below(f, h)
    ensures Below(FirstStep(g, f), FirstStep(g, h))
  {
    forall x | x in Heads(g) ensures FirstStep(g, f)[x] <= FirstStep(g, h)[x] {
      RuleFirstMonotone(f, h, BodiesOf(g, x));
    }
  }

  /** Every symbol of the grammar, and `ε`: all a FIRST set can hold. */
  function Alphabet(g: Grammar): set<char>
  {
    (set r, b, c | r in g && b in r.bodies && c in b :: c) + {Epsilon}
  }

  lemma {:induction false} BodiesOfFromGrammar(g: Grammar, x: char, b: string)
    requires b in BodiesOf(g, x)
    ensures exists r | r in g :: b in r.bodies
  {
    if g[0].head != x {
      BodiesOfFromGrammar(g[1..], x, b);
      var r :| r in g[1..] && b in r.bodies;
      assert r in g;
    } else {
      assert g[0] in g;
    }
  }

  /** The scan adds only symbols of the production and elements of the sets it reads. */
  lemma {:induction false} ScanFirstBounded(f: SetMap, body: string, universe: set<char>)
    requires forall c | c in body :: c in universe
    requires forall k | k in f :: f[k] <= universe
    ensures ScanFirst(f, body) <= universe
  {
    if |body| > 0 {
      assert body[0] in body;
      assert forall c | c in body[1..] :: c in body;
      ScanFirstBounded(f, body[1..], universe);
    }
  }

  lemma {:induction false} RuleFirstWithin(g: Grammar, f: SetMap, x: char, bodies: seq<string>)
    requires forall b | b in bodies :: b in BodiesOf(g, x)
    requires forall k | k in f :: f[k] <= Alphabet(g)
    ensures RuleFirst(f, bodies) <= Alphabet(g)
  {
    if |bodies| > 0 {
      var b := bodies[|bodies| - 1];
      assert b in bodies;
      BodiesOfFromGrammar(g, x, b);
      var r :| r in g && b in r.bodies;
      assert forall c | c in b :: c in Alphabet(g);
      ScanFirstBounded(f, b, Alphabet(g));
      assert forall b' | b' in bodies[..|bodies| - 1] :: b' in bodies;
      RuleFirstWithin(g, f, x, bodies[..|bodies| - 1]);
    }
  }

  lemma FirstStepWithin(g: Grammar, f: SetMap)
    requires Within(f, Heads(g), Alphabet(g))
    ensures Within(FirstStep(g, f), Heads(g), Alphabet(g))
  {
    forall x | x in Heads(g) ensures FirstStep(g, f)[x] <= Alphabet(g) {
      RuleFirstWithin(g, f, x, BodiesOf(g, x));
    }
  }

  // ---------------------------------------------------------------------
  // The least solution

  /** Repeats the round until it changes nothing. */
  function Iterate(g: Grammar, f: SetMap): (r: SetMap)
    requires Within(f, Heads(g), Alphabet(g)) && Below(f, FirstStep(g, f))
    ensures Within(r, Heads(g), Alphabet(g))
    ensures FirstStep(g, r) == r
    decreases Grid(Heads(g), Alphabet(g)) - Pairs(f)
  {
    var next := FirstStep(g, f);
    if next == f then f
    else
      FirstStepWithin(g, f);
      FirstStepMonotone(g, f, next);
      GrowthShrinksRoom(f, next, Heads(g), Alphabet(g));
      Iterate(g, next)
  }

  /** Every head starts with the empty set (`first_sets = {nt: set() ...}`). */
  function Bottom(g: Grammar): (r: SetMap)
  {
    map x | x in Heads(g) :: {}
  }

  /** `calculate_first`: the FIRST set of every declared head. */
  function FirstOfGrammar(g: Grammar): (r: SetMap)
    ensures r.Keys == Heads(g)
    ensures FirstStep(g, r) == r
  {
    Iterate(g, Bottom(g))
  }

  /** No other solution of the production rule is smaller anywhere. */
  lemma {:induction false} IterateLeast(g: Grammar, f: SetMap, h: SetMap)
    requires Within(f, Heads(g), Alphabet(g)) && Below(f, FirstStep(g, f))
    requires Below(f, h) && Below(FirstStep(g, h), h)
    ensures Below(Iterate(g, f), h)
    decreases Grid(Heads(g), Alphabet(g)) - Pairs(f)
  {
    var next := FirstStep(g, f);
    if next != f {
      FirstStepWithin(g, f);
      FirstStepMonotone(g, f, next);
      GrowthShrinksRoom(f, next, Heads(g), Alphabet(g));
      FirstStepMonotone(g, f, h);
      BelowTrans(next, FirstStep(g, h), h);
      IterateLeast(g, next, h);
    }
  }

  /**
    FIRST is the least solution: any assignment over the heads that is
    closed under the production rule contains it.
   */
  lemma FirstOfGrammarLeast(g: Grammar, h: SetMap)
    requires h.Keys == Heads(g) && Below(FirstStep(g, h), h)
    ensures Below(FirstOfGrammar(g), h)
  {
    IterateLeast(g, Bottom(g), h);
  }

  /**
    `c` is in FIRST(x) exactly when some production of `x` contributes it:
    the equation `get_first` evaluates.
   */
  lemma FirstOfGrammarMembers(g: Grammar, x: char, c: char)
    requires x in Heads(g)
    ensures c in FirstOfGrammar(g)[x] <==> exists b | b in BodiesOf(g, x) :: c in FirstOfBody(FirstOfGrammar(g), b)
  {
    var first := FirstOfGrammar(g);
    assert first[x] == FirstStep(g, first)[x];
    RuleFirstMembers(first, BodiesOf(g, x), c);
  }

  /**
    A production of `x` that reaches symbol `i` after nullable nonterminals
    only passes that symbol's contribution into FIRST(x): the symbol itself
    when it is not a nonterminal (`ε` included), otherwise its FIRST set
    without `ε`.
   */
  lemma FirstReaches(g: Grammar, x: char, b: string, i: nat, c: char)
    requires x in Heads(g) && b in BodiesOf(g, x)
    requires i < |b| && NullableUpTo(FirstOfGrammar(g), b, i) && Contributes(FirstOfGrammar(g), b[i], c)
    ensures c in FirstOfGrammar(g)[x]
  {
    FirstOfBodyMembers(FirstOfGrammar(g), b, c);
    FirstOfGrammarMembers(g, x, c);
  }

  /** A production made only of nonterminals whose FIRST sets hold `ε` puts `ε` into FIRST(x). */
  lemma FirstNullable(g: Grammar, x: char, b: string)
    requires x in Heads(g) && b in BodiesOf(g, x) && AllNullable(FirstOfGrammar(g), b)
    ensures Epsilon in FirstOfGrammar(g)[x]
  {
    FirstOfBodyMembers(FirstOfGrammar(g), b, Epsilon);
    FirstOfGrammarMembers(g, x, Epsilon);
  }
}
