/**
  The FOLLOW rule of both files looks only at the symbol right after a
  nonterminal, reads its FIRST set from the FIRST table (where a terminal
  has no entry), and adds FOLLOW(head) whenever that one symbol can vanish.
  For `S -> ABc`, `A -> a`, `B -> b | ε` the textbook FOLLOW(A) is `{b, c}`;
  `ll1_parser.py` computes `{b, $}` and `first_and_follow_set.py` computes
  the empty set.  The lemmas below state this for any choice of the six
  symbols.
 */
module FollowExamples {
  import opened CharGrammar
  import opened FirstSets
  import opened FollowSets

  /** Three distinct nonterminals and a production alphabet of three terminals. */
  predicate Symbols(s: char, a: char, b: char, x: char, y: char, z: char)
  {
    && IsNonTerminal(s) && IsNonTerminal(a) && IsNonTerminal(b)
    && s != a && s != b && a != b
    && !IsNonTerminal(x) && !IsNonTerminal(y) && !IsNonTerminal(z) && x != Epsilon
    && y != z && y != Epsilon && z != Epsilon && z != EndMarker
  }

  /** `s -> a b z`, `a -> x`, `b -> y | ε`. */
  function Sample(s: char, a: char, b: char, x: char, y: char, z: char): Grammar
  {
    [Rule(s, [[a, b, z]]), Rule(a, [[x]]), Rule(b, [[y], [Epsilon]])]
  }

  lemma SampleBodies(s: char, a: char, b: char, x: char, y: char, z: char)
    requires Symbols(s, a, b, x, y, z)
    ensures var g := Sample(s, a, b, x, y, z);
            BodiesOf(g, s) == [[a, b, z]] && BodiesOf(g, a) == [[x]] && BodiesOf(g, b) == [[y], [Epsilon]]
  {
    var g := Sample(s, a, b, x, y, z);
    var g1 := [Rule(a, [[x]]), Rule(b, [[y], [Epsilon]])];
    var g2 := [Rule(b, [[y], [Epsilon]])];
    assert g[1..] == g1 && g1[1..] == g2;
    assert BodiesOf(g, a) == BodiesOf(g1, a) == [[x]];
    assert BodiesOf(g, b) == BodiesOf(g1, b) == BodiesOf(g2, b) == [[y], [Epsilon]];
  }

  lemma SampleHeads(s: char, a: char, b: char, x: char, y: char, z: char)
    ensures Heads(Sample(s, a, b, x, y, z)) == {s, a, b}
  {
    var g := Sample(s, a, b, x, y, z);
    assert g[0] in g && g[1] in g && g[2] in g;
  }

  /** The FIRST table of the sample, as a candidate. */
  function SampleFirst(s: char, a: char, b: char, x: char, y: char): SetMap
  {
    map[s := {x}, a := {x}, b := {y, Epsilon}]
  }

  lemma SampleFirstClosed(s: char, a: char, b: char, x: char, y: char, z: char)
    requires Symbols(s, a, b, x, y, z)
    ensures Below(FirstStep(Sample(s, a, b, x, y, z), SampleFirst(s, a, b, x, y)), SampleFirst(s, a, b, x, y))
  {
    var g := Sample(s, a, b, x, y, z);
    var c := SampleFirst(s, a, b, x, y);
    SampleHeads(s, a, b, x, y, z);
    SampleBodies(s, a, b, x, y, z);
    FirstOfTerminalStart(c, [x]);
    FirstOfTerminalStart(c, [y]);
    FirstOfTerminalStart(c, [Epsilon]);
    assert !AllNullable(c, [a, b, z]) by { assert !IsNonTerminal([a, b, z][2]); }
    assert FirstOfBody(c, [a, b, z]) == {x};
    assert RuleFirst(c, [[a, b, z]]) == {x};
    assert RuleFirst(c, [[x]]) == {x};
    assert [[a, b, z]][..0] == [] && [[x]][..0] == [] && [[y], [Epsilon]][..1] == [[y]] && [[y]][..0] == [];
    assert RuleFirst(c, [[y], [Epsilon]]) == {y, Epsilon};
  }

  lemma SampleFirstAbove(s: char, a: char, b: char, x: char, y: char, z: char)
    requires Symbols(s, a, b, x, y, z)
    ensures Get(FirstOfGrammar(Sample(s, a, b, x, y, z)), b) <= {y, Epsilon}
    ensures z !in FirstOfGrammar(Sample(s, a, b, x, y, z))
  {
    var g := Sample(s, a, b, x, y, z);
    SampleHeads(s, a, b, x, y, z);
    SampleFirstClosed(s, a, b, x, y, z);
    FirstOfGrammarLeast(g, SampleFirst(s, a, b, x, y));
  }

  lemma SampleFirstBelow(s: char, a: char, b: char, x: char, y: char, z: char)
    requires Symbols(s, a, b, x, y, z)
    ensures {y, Epsilon} <= Get(FirstOfGrammar(Sample(s, a, b, x, y, z)), b)
  {
    var g := Sample(s, a, b, x, y, z);
    var first := FirstOfGrammar(g);
    SampleHeads(s, a, b, x, y, z);
    SampleBodies(s, a, b, x, y, z);
    assert [y] in BodiesOf(g, b) && [Epsilon] in BodiesOf(g, b);
    assert NullableUpTo(first, [y], 0);
    assert NullableUpTo(first, [Epsilon], 0);
    FirstReaches(g, b, [y], 0, y);
    FirstReaches(g, b, [Epsilon], 0, Epsilon);
  }

  /** FIRST(b) = {y, ε}: one production starts with `y`, the other is `ε`. */
  lemma SampleFirstOfB(s: char, a: char, b: char, x: char, y: char, z: char)
    requires Symbols(s, a, b, x, y, z)
    ensures Get(FirstOfGrammar(Sample(s, a, b, x, y, z)), b) == {y, Epsilon}
    ensures z !in FirstOfGrammar(Sample(s, a, b, x, y, z))
  {
    SampleFirstAbove(s, a, b, x, y, z);
    SampleFirstBelow(s, a, b, x, y, z);
  }

  lemma SampleRestLast(s: char, a: char, b: char, x: char, y: char, z: char)
    requires Symbols(s, a, b, x, y, z)
    ensures FirstOfBody(FirstOfGrammar(Sample(s, a, b, x, y, z)), [z]) == {z}
  {
    FirstOfTerminalStart(FirstOfGrammar(Sample(s, a, b, x, y, z)), [z]);
  }

  /** The rest of the sample's first production after each position a walk may update. */
  lemma SampleRests(s: char, a: char, b: char, x: char, y: char, z: char)
    requires Symbols(s, a, b, x, y, z)
    ensures var first := FirstOfGrammar(Sample(s, a, b, x, y, z));
            && FirstOfBody(first, [b, z]) == {y, z}
            && FirstOfBody(first, [z]) == {z}
  {
    var first := FirstOfGrammar(Sample(s, a, b, x, y, z));
    SampleFirstOfB(s, a, b, x, y, z);
    SampleRestLast(s, a, b, x, y, z);
    assert [b, z][1..] == [z];
    assert ScanFirst(first, [b, z]) == {y} + ScanFirst(first, [z]);
    assert !AllNullable(first, [b, z]) by { assert !IsNonTerminal([b, z][1]); }
  }

  /** A walk of `first_and_follow_set.py` over the sample updates nothing: every production ends in a terminal. */
  lemma StopProcessesNothing(s: char, a: char, b: char, x: char, y: char, z: char, r: Rule, w: string, i: nat)
    requires Symbols(s, a, b, x, y, z)
    requires r in Sample(s, a, b, x, y, z) && w in r.bodies && i < |w|
    ensures !Processed(StopAtTerminal, w, i, |w|)
  {
    assert w == [a, b, z] || w == [x] || w == [y] || w == [Epsilon];
    if w == [a, b, z] && i < 2 {
      assert !IsNonTerminal(w[2]);
    }
  }

  /** The only positions the other walks update are the two nonterminals of `s -> a b z`. */
  lemma SamplePositions(v: Variant, s: char, a: char, b: char, x: char, y: char, z: char, r: Rule, w: string, i: nat)
    requires Symbols(s, a, b, x, y, z)
    requires r in Sample(s, a, b, x, y, z) && w in r.bodies && i < |w| && IsNonTerminal(w[i])
    ensures r.head == s && w == [a, b, z] && i < 2
  {
    assert w == [a, b, z] || w == [x] || w == [y] || w == [Epsilon];
  }

  /** The sets `ll1_parser.py` computes for the sample, as a candidate. */
  function SkipCandidate(s: char, a: char, y: char): SetMap
  {
    map[s := {EndMarker}, a := {y, EndMarker}]
  }

  /** The sets the textbook rule computes for the sample, as a candidate. */
  function TextbookCandidate(s: char, a: char, b: char, y: char, z: char): SetMap
  {
    map[s := {EndMarker}, a := {y, z}, b := {z}]
  }

  lemma SkipCandidateClosed(s: char, a: char, b: char, x: char, y: char, z: char)
    requires Symbols(s, a, b, x, y, z)
    ensures Closure(SkipTerminal, FirstOfGrammar(Sample(s, a, b, x, y, z)), Sample(s, a, b, x, y, z), SkipCandidate(s, a, y))
  {
    var g := Sample(s, a, b, x, y, z);
    var first := FirstOfGrammar(g);
    var h := SkipCandidate(s, a, y);
    SampleFirstOfB(s, a, b, x, y, z);
    assert ClosedAt(SkipTerminal, first, s, [a, b, z], 0, h);
    assert ClosedAt(SkipTerminal, first, s, [a, b, z], 1, h);
    forall r, w, i | r in g && w in r.bodies && 0 <= i < |w| && Processed(SkipTerminal, w, i, |w|)
      ensures ClosedAt(SkipTerminal, first, r.head, w, i, h)
    {
      SamplePositions(SkipTerminal, s, a, b, x, y, z, r, w, i);
    }
  }

  lemma TextbookCandidateClosed(s: char, a: char, b: char, x: char, y: char, z: char)
    requires Symbols(s, a, b, x, y, z)
    ensures Closure(Textbook, FirstOfGrammar(Sample(s, a, b, x, y, z)), Sample(s, a, b, x, y, z), TextbookCandidate(s, a, b, y, z))
  {
    var g := Sample(s, a, b, x, y, z);
    var first := FirstOfGrammar(g);
    var h := TextbookCandidate(s, a, b, y, z);
    SampleRests(s, a, b, x, y, z);
    assert [a, b, z][1..] == [b, z] && [a, b, z][2..] == [z];
    assert ClosedAt(Textbook, first, s, [a, b, z], 0, h);
    assert ClosedAt(Textbook, first, s, [a, b, z], 1, h);
    forall r, w, i | r in g && w in r.bodies && 0 <= i < |w| && Processed(Textbook, w, i, |w|)
      ensures ClosedAt(Textbook, first, r.head, w, i, h)
    {
      SamplePositions(Textbook, s, a, b, x, y, z, r, w, i);
    }
  }

  /** `first_and_follow_set.py` stops at `z` and never reaches `a`: FOLLOW(a) stays empty. */
  lemma StopSample(s: char, a: char, b: char, x: char, y: char, z: char)
    requires Symbols(s, a, b, x, y, z)
    ensures Get(Follow(StopAtTerminal, FirstOfGrammar(Sample(s, a, b, x, y, z)), Sample(s, a, b, x, y, z), s), a) == {}
  {
    var g := Sample(s, a, b, x, y, z);
    var first := FirstOfGrammar(g);
    var h: SetMap := map[s := {EndMarker}];
    forall r, w, i | r in g && w in r.bodies && 0 <= i < |w|
      ensures !Processed(StopAtTerminal, w, i, |w|)
    {
      StopProcessesNothing(s, a, b, x, y, z, r, w, i);
    }
    assert Closure(StopAtTerminal, first, g, h);
    FollowLeast(StopAtTerminal, first, g, s, h);
    assert Get(h, a) == {};
  }

  /** `z` has no entry in the FIRST table, so nothing puts it into FOLLOW(a). */
  lemma SkipMissesTerminal(s: char, a: char, b: char, x: char, y: char, z: char)
    requires Symbols(s, a, b, x, y, z)
    ensures z !in Get(Follow(SkipTerminal, FirstOfGrammar(Sample(s, a, b, x, y, z)), Sample(s, a, b, x, y, z), s), a)
  {
    var g := Sample(s, a, b, x, y, z);
    var first := FirstOfGrammar(g);
    SkipCandidateClosed(s, a, b, x, y, z);
    FollowLeast(SkipTerminal, first, g, s, SkipCandidate(s, a, y));
    assert Get(SkipCandidate(s, a, y), a) == {y, EndMarker};
  }

  /** `b` can vanish, so FOLLOW(s), which holds `$`, flows into FOLLOW(a). */
  lemma SkipAddsEndMarker(s: char, a: char, b: char, x: char, y: char, z: char)
    requires Symbols(s, a, b, x, y, z)
    ensures EndMarker in Get(Follow(SkipTerminal, FirstOfGrammar(Sample(s, a, b, x, y, z)), Sample(s, a, b, x, y, z), s), a)
  {
    var g := Sample(s, a, b, x, y, z);
    var first := FirstOfGrammar(g);
    var follow := Follow(SkipTerminal, first, g, s);
    var w := [a, b, z];
    SampleFirstOfB(s, a, b, x, y, z);
    FollowClosed(SkipTerminal, first, g, s);
    FollowHasEndMarker(SkipTerminal, first, g, s);
    assert g[0] in g && w in g[0].bodies;
    assert Processed(SkipTerminal, w, 0, 3);
    assert ClosedAt(SkipTerminal, first, s, w, 0, follow);
    assert NextNullable(SkipTerminal, first, w, 0);
  }

  /**
    `ll1_parser.py` puts `$` into FOLLOW(a), because `b` can vanish, and
    misses `z`, because `z` has no entry in the FIRST table.
   */
  lemma SkipSample(s: char, a: char, b: char, x: char, y: char, z: char)
    requires Symbols(s, a, b, x, y, z)
    ensures var follow := Follow(SkipTerminal, FirstOfGrammar(Sample(s, a, b, x, y, z)), Sample(s, a, b, x, y, z), s);
            EndMarker in Get(follow, a) && z !in Get(follow, a)
  {
    SkipMissesTerminal(s, a, b, x, y, z);
    SkipAddsEndMarker(s, a, b, x, y, z);
  }

  lemma TextbookAtMost(s: char, a: char, b: char, x: char, y: char, z: char)
    requires Symbols(s, a, b, x, y, z)
    ensures Get(Follow(Textbook, FirstOfGrammar(Sample(s, a, b, x, y, z)), Sample(s, a, b, x, y, z), s), a) <= {y, z}
  {
    var g := Sample(s, a, b, x, y, z);
    TextbookCandidateClosed(s, a, b, x, y, z);
    FollowLeast(Textbook, FirstOfGrammar(g), g, s, TextbookCandidate(s, a, b, y, z));
    assert Get(TextbookCandidate(s, a, b, y, z), a) == {y, z};
  }

  lemma TextbookAtLeast(s: char, a: char, b: char, x: char, y: char, z: char)
    requires Symbols(s, a, b, x, y, z)
    ensures {y, z} <= Get(Follow(Textbook, FirstOfGrammar(Sample(s, a, b, x, y, z)), Sample(s, a, b, x, y, z), s), a)
  {
    var g := Sample(s, a, b, x, y, z);
    var first := FirstOfGrammar(g);
    var follow := Follow(Textbook, first, g, s);
    var w := [a, b, z];
    SampleRests(s, a, b, x, y, z);
    FollowClosed(Textbook, first, g, s);
    assert g[0] in g && w in g[0].bodies;
    assert Processed(Textbook, w, 0, 3);
    assert w[1..] == [b, z];
    assert ClosedAt(Textbook, first, s, w, 0, follow);
  }

  /** The textbook rule gives FOLLOW(a) = {y, z}. */
  lemma TextbookSample(s: char, a: char, b: char, x: char, y: char, z: char)
    requires Symbols(s, a, b, x, y, z)
    ensures Get(Follow(Textbook, FirstOfGrammar(Sample(s, a, b, x, y, z)), Sample(s, a, b, x, y, z), s), a) == {y, z}
  {
    TextbookAtMost(s, a, b, x, y, z);
    TextbookAtLeast(s, a, b, x, y, z);
  }
}
