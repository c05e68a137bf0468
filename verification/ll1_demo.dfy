/**
  The grammar of `ll1_parser.py`'s `main`: `S -> AB`, `A -> aA | ε`,
  `B -> b`, parsing `ab`.  The lemmas compute its FIRST and FOLLOW sets and
  its table, follow `parse` step by step, and show that it ends with the
  stack empty and `$` unread, while the parser with `$` below the start
  symbol accepts.  They are stated for any choice of the five symbols.
 */
module LL1Demo {
  import opened Common
  import opened CharGrammar
  import opened FirstSets
  import opened FollowSets
  import opened LL1

  /** Three distinct nonterminals and two distinct terminals, neither `ε` nor `$`. */
  predicate Symbols(s: char, a: char, b: char, x: char, y: char)
  {
    && IsNonTerminal(s) && IsNonTerminal(a) && IsNonTerminal(b)
    && s != a && s != b && a != b
    && !IsNonTerminal(x) && !IsNonTerminal(y) && x != y
    && x != Epsilon && y != Epsilon && x != EndMarker && y != EndMarker
  }

  /** `s -> a b`, `a -> x a | ε`, `b -> y`. */
  function Demo(s: char, a: char, b: char, x: char, y: char): Grammar
  {
    [Rule(s, [[a, b]]), Rule(a, [[x, a], [Epsilon]]), Rule(b, [[y]])]
  }

  lemma DemoHeads(s: char, a: char, b: char, x: char, y: char)
    ensures Heads(Demo(s, a, b, x, y)) == {s, a, b}
  {
    var g := Demo(s, a, b, x, y);
    assert g[0] in g && g[1] in g && g[2] in g;
  }

  lemma DemoBodies(s: char, a: char, b: char, x: char, y: char)
    requires Symbols(s, a, b, x, y)
    ensures var g := Demo(s, a, b, x, y);
            BodiesOf(g, s) == [[a, b]] && BodiesOf(g, a) == [[x, a], [Epsilon]] && BodiesOf(g, b) == [[y]]
  {
    var g := Demo(s, a, b, x, y);
    var g1 := [Rule(a, [[x, a], [Epsilon]]), Rule(b, [[y]])];
    var g2 := [Rule(b, [[y]])];
    assert g[1..] == g1 && g1[1..] == g2;
    assert BodiesOf(g, a) == BodiesOf(g1, a) == [[x, a], [Epsilon]];
    assert BodiesOf(g, b) == BodiesOf(g1, b) == BodiesOf(g2, b) == [[y]];
  }

  // ---------------------------------------------------------------------
  // FIRST

  function DemoFirst(s: char, a: char, b: char, x: char, y: char): SetMap
  {
    map[s := {x, y}, a := {x, Epsilon}, b := {y}]
  }

  lemma DemoFirstClosed(s: char, a: char, b: char, x: char, y: char)
    requires Symbols(s, a, b, x, y)
    ensures Below(FirstStep(Demo(s, a, b, x, y), DemoFirst(s, a, b, x, y)), DemoFirst(s, a, b, x, y))
  {
    var c := DemoFirst(s, a, b, x, y);
    DemoHeads(s, a, b, x, y);
    DemoBodies(s, a, b, x, y);
    FirstOfTerminalStart(c, [x, a]);
    FirstOfTerminalStart(c, [Epsilon]);
    FirstOfTerminalStart(c, [y]);
    assert [a, b][1..] == [b];
    assert ScanFirst(c, [b]) == {y};
    assert !AllNullable(c, [a, b]) by { assert Epsilon !in Get(c, [a, b][1]); }
    assert FirstOfBody(c, [a, b]) == {x, y};
    assert [[x, a], [Epsilon]][..1] == [[x, a]] && [[x, a]][..0] == [] && [[a, b]][..0] == [] && [[y]][..0] == [];
    assert RuleFirst(c, [[a, b]]) == {x, y};
    assert RuleFirst(c, [[x, a]]) == {x};
    assert RuleFirst(c, [[x, a], [Epsilon]]) == RuleFirst(c, [[x, a]]) + FirstOfBody(c, [Epsilon]);
    assert RuleFirst(c, [[y]]) == {y};
  }

  lemma DemoFirstAbove(s: char, a: char, b: char, x: char, y: char)
    requires Symbols(s, a, b, x, y)
    ensures Below(FirstOfGrammar(Demo(s, a, b, x, y)), DemoFirst(s, a, b, x, y))
  {
    DemoHeads(s, a, b, x, y);
    DemoFirstClosed(s, a, b, x, y);
    FirstOfGrammarLeast(Demo(s, a, b, x, y), DemoFirst(s, a, b, x, y));
  }

  /** `a` and `ε` reach FIRST(A) through `A -> aA` and `A -> ε`. */
  lemma DemoFirstOfAReaches(s: char, a: char, b: char, x: char, y: char)
    requires Symbols(s, a, b, x, y)
    ensures a in FirstOfGrammar(Demo(s, a, b, x, y)) && {x, Epsilon} <= FirstOfGrammar(Demo(s, a, b, x, y))[a]
  {
    var g := Demo(s, a, b, x, y);
    var first := FirstOfGrammar(g);
    DemoHeads(s, a, b, x, y);
    DemoBodies(s, a, b, x, y);
    assert NullableUpTo(first, [x, a], 0) && NullableUpTo(first, [Epsilon], 0);
    FirstReaches(g, a, [x, a], 0, x);
    FirstReaches(g, a, [Epsilon], 0, Epsilon);
  }

  lemma DemoFirstOfA(s: char, a: char, b: char, x: char, y: char)
    requires Symbols(s, a, b, x, y)
    ensures Get(FirstOfGrammar(Demo(s, a, b, x, y)), a) == {x, Epsilon}
  {
    DemoFirstAbove(s, a, b, x, y);
    DemoFirstOfAReaches(s, a, b, x, y);
  }

  lemma DemoFirstOfB(s: char, a: char, b: char, x: char, y: char)
    requires Symbols(s, a, b, x, y)
    ensures Get(FirstOfGrammar(Demo(s, a, b, x, y)), b) == {y}
  {
    var g := Demo(s, a, b, x, y);
    var first := FirstOfGrammar(g);
    DemoFirstAbove(s, a, b, x, y);
    DemoHeads(s, a, b, x, y);
    DemoBodies(s, a, b, x, y);
    assert NullableUpTo(first, [y], 0);
    FirstReaches(g, b, [y], 0, y);
  }

  lemma DemoFirstOfParts(s: char, a: char, b: char, x: char, y: char)
    requires Symbols(s, a, b, x, y)
    ensures var first := FirstOfGrammar(Demo(s, a, b, x, y));
            Get(first, a) == {x, Epsilon} && Get(first, b) == {y}
  {
    DemoFirstOfA(s, a, b, x, y);
    DemoFirstOfB(s, a, b, x, y);
  }

  /** `a` reaches FIRST(S) through A. */
  lemma DemoFirstOfSFromA(s: char, a: char, b: char, x: char, y: char)
    requires Symbols(s, a, b, x, y)
    ensures s in FirstOfGrammar(Demo(s, a, b, x, y)) && x in FirstOfGrammar(Demo(s, a, b, x, y))[s]
  {
    var g := Demo(s, a, b, x, y);
    var first := FirstOfGrammar(g);
    DemoFirstOfA(s, a, b, x, y);
    DemoHeads(s, a, b, x, y);
    DemoBodies(s, a, b, x, y);
    assert NullableUpTo(first, [a, b], 0);
    FirstReaches(g, s, [a, b], 0, x);
  }

  /** `b` reaches FIRST(S) through B, because A is nullable. */
  lemma DemoFirstOfSFromB(s: char, a: char, b: char, x: char, y: char)
    requires Symbols(s, a, b, x, y)
    ensures s in FirstOfGrammar(Demo(s, a, b, x, y)) && y in FirstOfGrammar(Demo(s, a, b, x, y))[s]
  {
    var g := Demo(s, a, b, x, y);
    var first := FirstOfGrammar(g);
    DemoFirstOfA(s, a, b, x, y);
    DemoFirstOfB(s, a, b, x, y);
    DemoHeads(s, a, b, x, y);
    DemoBodies(s, a, b, x, y);
    assert NullableUpTo(first, [a, b], 1);
    FirstReaches(g, s, [a, b], 1, y);
  }

  lemma DemoFirstOfS(s: char, a: char, b: char, x: char, y: char)
    requires Symbols(s, a, b, x, y)
    ensures Get(FirstOfGrammar(Demo(s, a, b, x, y)), s) == {x, y}
  {
    DemoFirstAbove(s, a, b, x, y);
    DemoFirstOfSFromA(s, a, b, x, y);
    DemoFirstOfSFromB(s, a, b, x, y);
  }

  /** The FIRST sets `main` prints: S: {a, b}, A: {a, ε}, B: {b}. */
  lemma DemoFirstSets(s: char, a: char, b: char, x: char, y: char)
    requires Symbols(s, a, b, x, y)
    ensures var first := FirstOfGrammar(Demo(s, a, b, x, y));
            Get(first, s) == {x, y} && Get(first, a) == {x, Epsilon} && Get(first, b) == {y}
  {
    DemoFirstOfParts(s, a, b, x, y);
    DemoFirstOfS(s, a, b, x, y);
  }

  // ---------------------------------------------------------------------
  // FOLLOW

  function DemoFollow(s: char, a: char, b: char, y: char): SetMap
  {
    map[s := {EndMarker}, a := {y}, b := {EndMarker}]
  }

  /** The only positions the walks update are both symbols of `a b` and the `a` of `x a`. */
  lemma DemoPositions(s: char, a: char, b: char, x: char, y: char, r: Rule, w: string, i: nat)
    requires Symbols(s, a, b, x, y)
    requires r in Demo(s, a, b, x, y) && w in r.bodies && i < |w| && IsNonTerminal(w[i])
    ensures (r.head == s && w == [a, b]) || (r.head == a && w == [x, a] && i == 1)
  {
    assert w == [a, b] || w == [x, a] || w == [Epsilon] || w == [y];
  }

  /** A FIRST table with the demo's FIRST(a) and FIRST(b). */
  predicate DemoFirstTable(first: SetMap, a: char, b: char, x: char, y: char)
  {
    Get(first, a) == {x, Epsilon} && Get(first, b) == {y}
  }

  /**
    What follows the `a` of `a b`: FIRST(B) both read as the next symbol's
    set and as FIRST of the rest of the production.
   */
  lemma DemoNextFirst(v: Variant, first: SetMap, a: char, b: char, x: char, y: char)
    requires v != StopAtTerminal && DemoFirstTable(first, a, b, x, y) && IsNonTerminal(b) && y != Epsilon
    ensures NextFirst(v, first, [a, b], 0) == {y}
  {
    assert [a, b][1..] == [b];
    assert ScanFirst(first, [b]) == {y};
    assert !AllNullable(first, [b]) by { assert Epsilon !in Get(first, [b][0]); }
  }

  lemma DemoFollowClosedGiven(v: Variant, first: SetMap, s: char, a: char, b: char, x: char, y: char)
    requires v != StopAtTerminal && Symbols(s, a, b, x, y) && DemoFirstTable(first, a, b, x, y)
    ensures Closure(v, first, Demo(s, a, b, x, y), DemoFollow(s, a, b, y))
  {
    var g := Demo(s, a, b, x, y);
    var h := DemoFollow(s, a, b, y);
    DemoNextFirst(v, first, a, b, x, y);
    assert ClosedAt(v, first, s, [a, b], 0, h);
    assert ClosedAt(v, first, s, [a, b], 1, h);
    assert ClosedAt(v, first, a, [x, a], 1, h);
    forall r, w, i | r in g && w in r.bodies && 0 <= i < |w| && Processed(v, w, i, |w|)
      ensures ClosedAt(v, first, r.head, w, i, h)
    {
      DemoPositions(s, a, b, x, y, r, w, i);
    }
  }

  lemma DemoFollowClosed(v: Variant, s: char, a: char, b: char, x: char, y: char)
    requires v != StopAtTerminal && Symbols(s, a, b, x, y)
    ensures Closure(v, FirstOfGrammar(Demo(s, a, b, x, y)), Demo(s, a, b, x, y), DemoFollow(s, a, b, y))
  {
    DemoFirstOfParts(s, a, b, x, y);
    DemoFollowClosedGiven(v, FirstOfGrammar(Demo(s, a, b, x, y)), s, a, b, x, y);
  }

  lemma DemoFollowBelow(v: Variant, s: char, a: char, b: char, x: char, y: char)
    requires v != StopAtTerminal && Symbols(s, a, b, x, y)
    ensures var follow := Follow(v, FirstOfGrammar(Demo(s, a, b, x, y)), Demo(s, a, b, x, y), s);
            EndMarker in Get(follow, s) && y in Get(follow, a) && EndMarker in Get(follow, b)
  {
    var g := Demo(s, a, b, x, y);
    var first := FirstOfGrammar(g);
    var follow := Follow(v, first, g, s);
    DemoFirstOfParts(s, a, b, x, y);
    DemoNextFirst(v, first, a, b, x, y);
    FollowHasEndMarker(v, first, g, s);
    FollowClosed(v, first, g, s);
    assert g[0] in g && [a, b] in g[0].bodies;
    assert Processed(v, [a, b], 0, 2) && Processed(v, [a, b], 1, 2);
    assert ClosedAt(v, first, s, [a, b], 0, follow);
    assert ClosedAt(v, first, s, [a, b], 1, follow);
  }

  /**
    The FOLLOW sets `main` prints: S: {$}, A: {b}, B: {$}; on this grammar
    the textbook definition agrees.
   */
  lemma DemoFollowSets(v: Variant, s: char, a: char, b: char, x: char, y: char)
    requires v != StopAtTerminal && Symbols(s, a, b, x, y)
    ensures var follow := Follow(v, FirstOfGrammar(Demo(s, a, b, x, y)), Demo(s, a, b, x, y), s);
            Get(follow, s) == {EndMarker} && Get(follow, a) == {y} && Get(follow, b) == {EndMarker}
  {
    var g := Demo(s, a, b, x, y);
    var first := FirstOfGrammar(g);
    DemoFollowClosed(v, s, a, b, x, y);
    FollowLeast(v, first, g, s, DemoFollow(s, a, b, y));
    var h := DemoFollow(s, a, b, y);
    assert Get(h, s) == {EndMarker} && Get(h, a) == {y} && Get(h, b) == {EndMarker};
    DemoFollowBelow(v, s, a, b, x, y);
  }

  // ---------------------------------------------------------------------
  // The table

  lemma DemoProductions(s: char, a: char, b: char, x: char, y: char)
    ensures Productions(Demo(s, a, b, x, y)) ==
            [Production(s, [a, b]), Production(a, [x, a]), Production(a, [Epsilon]), Production(b, [y])]
  {
    var g := Demo(s, a, b, x, y);
    var g1 := [Rule(a, [[x, a], [Epsilon]]), Rule(b, [[y]])];
    var g2 := [Rule(b, [[y]])];
    assert g[1..] == g1 && g1[1..] == g2 && g2[1..] == [];
    var p0 := ProductionsOf(g[0]);
    var p1 := ProductionsOf(g1[0]);
    var p2 := ProductionsOf(g2[0]);
    assert p0 == [Production(s, [a, b])];
    assert p1 == [Production(a, [x, a]), Production(a, [Epsilon])];
    assert p2 == [Production(b, [y])];
    assert Productions(g2) == p2 + Productions([]);
    assert Productions(g1) == p1 + Productions(g2);
    assert Productions(g) == p0 + Productions(g1);
  }

  lemma DemoCellsGiven(first: SetMap, follow: SetMap, s: char, a: char, b: char, x: char, y: char)
    requires Symbols(s, a, b, x, y) && DemoFirstTable(first, a, b, x, y) && Get(follow, a) == {y}
    ensures && Cells(first, follow, Production(s, [a, b])) == {x, y}
            && Cells(first, follow, Production(a, [x, a])) == {x}
            && Cells(first, follow, Production(a, [Epsilon])) == {y}
            && Cells(first, follow, Production(b, [y])) == {y}
  {
    FirstOfTerminalStart(first, [x, a]);
    FirstOfTerminalStart(first, [Epsilon]);
    FirstOfTerminalStart(first, [y]);
    assert [a, b][1..] == [b];
    assert ScanFirst(first, [b]) == {y};
    assert !AllNullable(first, [a, b]) by { assert Epsilon !in Get(first, [a, b][1]); }
    assert FirstOfBody(first, [a, b]) == {x, y};
  }

  lemma DemoTableGiven(first: SetMap, follow: SetMap, ps: seq<Production>, s: char, a: char, b: char, x: char, y: char)
    requires Symbols(s, a, b, x, y) && DemoFirstTable(first, a, b, x, y) && Get(follow, a) == {y}
    requires ps == [Production(s, [a, b]), Production(a, [x, a]), Production(a, [Epsilon]), Production(b, [y])]
    ensures var t := Fill(first, follow, ps);
            && Lookup(t, s, x) == Some([a, b]) && Lookup(t, s, y) == Some([a, b])
            && Lookup(t, a, x) == Some([x, a]) && Lookup(t, a, y) == Some([Epsilon])
            && Lookup(t, b, y) == Some([y])
  {
    DemoCellsGiven(first, follow, s, a, b, x, y);
    assert NoConflict(first, follow, ps);
    assert Claims(first, follow, ps, 0, s, x) && Claims(first, follow, ps, 0, s, y);
    assert Claims(first, follow, ps, 1, a, x) && Claims(first, follow, ps, 2, a, y);
    assert Claims(first, follow, ps, 3, b, y);
    UniqueClaim(first, follow, ps, 0, s, x);
    UniqueClaim(first, follow, ps, 0, s, y);
    UniqueClaim(first, follow, ps, 1, a, x);
    UniqueClaim(first, follow, ps, 2, a, y);
    UniqueClaim(first, follow, ps, 3, b, y);
  }

  /** The table `main` prints: (S, a) and (S, b) hold AB, (A, a) aA, (A, b) ε, (B, b) b. */
  lemma DemoTable(v: Variant, s: char, a: char, b: char, x: char, y: char)
    requires v != StopAtTerminal && Symbols(s, a, b, x, y)
    ensures var t := ParsingTable(v, Demo(s, a, b, x, y), s);
            && Lookup(t, s, x) == Some([a, b]) && Lookup(t, s, y) == Some([a, b])
            && Lookup(t, a, x) == Some([x, a]) && Lookup(t, a, y) == Some([Epsilon])
            && Lookup(t, b, y) == Some([y])
  {
    var g := Demo(s, a, b, x, y);
    var first := FirstOfGrammar(g);
    var follow := Follow(v, first, g, s);
    DemoProductions(s, a, b, x, y);
    DemoFirstOfParts(s, a, b, x, y);
    DemoFollowSets(v, s, a, b, x, y);
    DemoTableGiven(first, follow, Productions(g), s, a, b, x, y);
  }

  // ---------------------------------------------------------------------
  // The run

  lemma RunStep(t: Table, c: Config, fuel: nat, c': Config)
    requires |c.stack| > 0 && fuel > 0 && Step(t, c) == Next(c')
    ensures Run(t, c, fuel) == Run(t, c', fuel - 1)
  {
  }

  lemma PushedOne(u: char)
    ensures Pushed([u]) == if u == Epsilon then [] else [u]
  {
    assert [u][..0] == [];
  }

  lemma PushedPair(u: char, v: char)
    requires u != Epsilon && v != Epsilon
    ensures Pushed([u, v]) == [v, u]
  {
    assert [u, v][..1] == [u];
    PushedOne(u);
  }

  /** Step 1: S on top of `a` expands to AB, leaving A on top. */
  lemma DemoStep1(t: Table, s: char, a: char, b: char, x: char, y: char, fuel: nat)
    requires Symbols(s, a, b, x, y) && fuel > 0 && Lookup(t, s, x) == Some([a, b])
    ensures Run(t, Config([s], [x, y, EndMarker]), fuel) == Run(t, Config([b, a], [x, y, EndMarker]), fuel - 1)
  {
    var c := Config([s], [x, y, EndMarker]);
    PushedPair(a, b);
    assert [s][..0] + [b, a] == [b, a];
    StepExpand(t, c, [a, b]);
    RunStep(t, c, fuel, Config([b, a], [x, y, EndMarker]));
  }

  /** Step 2: A on top of `a` expands to aA. */
  lemma DemoStep2(t: Table, s: char, a: char, b: char, x: char, y: char, fuel: nat)
    requires Symbols(s, a, b, x, y) && fuel > 0 && Lookup(t, a, x) == Some([x, a])
    ensures Run(t, Config([b, a], [x, y, EndMarker]), fuel) == Run(t, Config([b, a, x], [x, y, EndMarker]), fuel - 1)
  {
    var c := Config([b, a], [x, y, EndMarker]);
    PushedPair(x, a);
    assert [b, a][..1] + [a, x] == [b, a, x];
    StepExpand(t, c, [x, a]);
    RunStep(t, c, fuel, Config([b, a, x], [x, y, EndMarker]));
  }

  /** Step 3: `a` matches `a`. */
  lemma DemoStep3(t: Table, s: char, a: char, b: char, x: char, y: char, fuel: nat)
    requires Symbols(s, a, b, x, y) && fuel > 0
    ensures Run(t, Config([b, a, x], [x, y, EndMarker]), fuel) == Run(t, Config([b, a], [y, EndMarker]), fuel - 1)
  {
    var c := Config([b, a, x], [x, y, EndMarker]);
    assert [b, a, x][..2] == [b, a] && c.input[1..] == [y, EndMarker];
    StepMatch(t, c);
    RunStep(t, c, fuel, Config([b, a], [y, EndMarker]));
  }

  /** Step 4: A on top of `b` expands to ε and is simply popped. */
  lemma DemoStep4(t: Table, s: char, a: char, b: char, x: char, y: char, fuel: nat)
    requires Symbols(s, a, b, x, y) && fuel > 0 && Lookup(t, a, y) == Some([Epsilon])
    ensures Run(t, Config([b, a], [y, EndMarker]), fuel) == Run(t, Config([b], [y, EndMarker]), fuel - 1)
  {
    var c := Config([b, a], [y, EndMarker]);
    PushedOne(Epsilon);
    assert [b, a][..1] + [] == [b];
    StepExpand(t, c, [Epsilon]);
    RunStep(t, c, fuel, Config([b], [y, EndMarker]));
  }

  /** Step 5: B on top of `b` expands to b. */
  lemma DemoStep5(t: Table, s: char, a: char, b: char, x: char, y: char, fuel: nat)
    requires Symbols(s, a, b, x, y) && fuel > 0 && Lookup(t, b, y) == Some([y])
    ensures Run(t, Config([b], [y, EndMarker]), fuel) == Run(t, Config([y], [y, EndMarker]), fuel - 1)
  {
    var c := Config([b], [y, EndMarker]);
    PushedOne(y);
    assert [b][..0] + [y] == [y];
    StepExpand(t, c, [y]);
    RunStep(t, c, fuel, Config([y], [y, EndMarker]));
  }

  /** Step 6: `b` matches `b`, emptying the stack with `$` still unread. */
  lemma DemoStep6(t: Table, s: char, a: char, b: char, x: char, y: char, fuel: nat)
    requires Symbols(s, a, b, x, y) && fuel > 0
    ensures Run(t, Config([y], [y, EndMarker]), fuel) == Some(Unconsumed([EndMarker]))
  {
    var c := Config([y], [y, EndMarker]);
    assert [y][..0] == [] && c.input[1..] == [EndMarker];
    StepMatch(t, c);
    RunStep(t, c, fuel, Config([], [EndMarker]));
  }

  /** The six steps of `parse("ab")` on any table with the demo's entries, given fuel for six steps. */
  lemma DemoRun(t: Table, s: char, a: char, b: char, x: char, y: char, fuel: nat)
    requires Symbols(s, a, b, x, y) && fuel >= 6
    requires Lookup(t, s, x) == Some([a, b]) && Lookup(t, a, x) == Some([x, a])
    requires Lookup(t, a, y) == Some([Epsilon]) && Lookup(t, b, y) == Some([y])
    ensures Parse(t, s, [x, y], fuel) == Some(Unconsumed([EndMarker]))
  {
    assert [x, y] + [EndMarker] == [x, y, EndMarker];
    DemoStep1(t, s, a, b, x, y, fuel);
    DemoStep2(t, s, a, b, x, y, fuel - 1);
    DemoStep3(t, s, a, b, x, y, fuel - 2);
    DemoStep4(t, s, a, b, x, y, fuel - 3);
    DemoStep5(t, s, a, b, x, y, fuel - 4);
    DemoStep6(t, s, a, b, x, y, fuel - 5);
  }

  /**
    `main` parses `ab` and reports "Input not fully consumed": the stack
    empties with `$` unread.  The corrected parser, with `$` below the start
    symbol and the table built from the textbook FOLLOW sets, accepts.
   */
  lemma DemoParse(s: char, a: char, b: char, x: char, y: char, fuel: nat)
    requires Symbols(s, a, b, x, y) && fuel >= 6
    ensures Parse(ParsingTable(SkipTerminal, Demo(s, a, b, x, y), s), s, [x, y], fuel) == Some(Unconsumed([EndMarker]))
    ensures ParseWithEndMarker(ParsingTable(Textbook, Demo(s, a, b, x, y), s), s, [x, y], fuel + 1) == Some(Accept)
  {
    var written := ParsingTable(SkipTerminal, Demo(s, a, b, x, y), s);
    var corrected := ParsingTable(Textbook, Demo(s, a, b, x, y), s);
    DemoTable(SkipTerminal, s, a, b, x, y);
    DemoRun(written, s, a, b, x, y, fuel);
    DemoTable(Textbook, s, a, b, x, y);
    DemoRun(corrected, s, a, b, x, y, fuel);
    EndMarkerAccepts(corrected, s, [x, y], fuel);
  }
}
