/**
  Left-recursion elimination over token-list productions
  (`elimination_left_recur.py`).

  A grammar holds the productions of each nonterminal, the nonterminals in
  declaration order, and a terminal set.  Nonterminals are the declared
  left-hand sides; symbols are strings and a production is a list of symbols.
  The elimination is the classic ordered substitution: for each `Ai` in
  declaration order, productions starting with an earlier `Aj` are replaced
  using `Aj`'s finalised productions, then direct recursion is split off into
  a fresh nonterminal `Ai'`.
 */
module LeftRecursion {
  import opened Common

  type Symbol = string
  type Production = seq<Symbol>

  const Epsilon: Symbol := "ε"

  datatype Grammar = Grammar(
    productions: map<Symbol, seq<Production>>,
    nonterminals: seq<Symbol>,
    terminals: set<Symbol>)

  const EmptyGrammar := Grammar(map[], [], {})

  predicate Distinct<T(==)>(s: seq<T>)
  {
    forall i, j | 0 <= i < j < |s| :: s[i] != s[j]
  }

  /**
    What `add_production` maintains: every declared nonterminal is listed
    exactly once, and the listed ones are exactly the keys of the productions.
   */
  predicate Consistent(g: Grammar)
  {
    && Distinct(g.nonterminals)
    && (forall a | a in g.nonterminals :: a in g.productions)
    && (forall a | a in g.productions :: a in g.nonterminals)
  }

  function ProductionsOf(g: Grammar, a: Symbol): seq<Production>
  {
    if a in g.productions then g.productions[a] else []
  }

  // ---------------------------------------------------------------------
  // Building a grammar

  /** `Grammar.add_production`, with the alternatives already tokenised. */
  function AddProduction(g: Grammar, nonterminal: Symbol, alternatives: seq<Production>): (r: Grammar)
    ensures Consistent(g) ==> Consistent(r)
    ensures nonterminal in r.productions
    ensures r.productions[nonterminal] == ProductionsOf(g, nonterminal) + alternatives
    ensures r.nonterminals ==
              if nonterminal in g.productions then g.nonterminals else g.nonterminals + [nonterminal]
    ensures forall a | a in g.productions && a != nonterminal ::
              a in r.productions && r.productions[a] == g.productions[a]
    ensures r.productions.Keys == g.productions.Keys + {nonterminal}
  {
    if nonterminal in g.productions then
      g.(productions := g.productions[nonterminal := g.productions[nonterminal] + alternatives])
    else
      Grammar(g.productions[nonterminal := alternatives], g.nonterminals + [nonterminal], g.terminals)
  }

  /** One `LHS -> alt | alt ...` line of the input, already tokenised. */
  datatype Declaration = Declaration(lhs: Symbol, alternatives: seq<Production>)

  function FromDeclarations(decls: seq<Declaration>): Grammar
  {
    if |decls| == 0 then EmptyGrammar
    else
      var last := decls[|decls| - 1];
      AddProduction(FromDeclarations(decls[..|decls| - 1]), last.lhs, last.alternatives)
  }

  /** The left-hand sides in order of first declaration, each once. */
  function FirstDeclared(decls: seq<Declaration>): seq<Symbol>
  {
    if |decls| == 0 then []
    else
      var prev := FirstDeclared(decls[..|decls| - 1]);
      var lhs := decls[|decls| - 1].lhs;
      if lhs in prev then prev else prev + [lhs]
  }

  /** Every alternative declared for `a`, across all lines, in input order. */
  function DeclaredAlternatives(decls: seq<Declaration>, a: Symbol): seq<Production>
  {
    if |decls| == 0 then []
    else
      DeclaredAlternatives(decls[..|decls| - 1], a)
      + (if decls[|decls| - 1].lhs == a then decls[|decls| - 1].alternatives else [])
  }

  /**
    A grammar built from declarations lists each left-hand side once, at its
    first declaration.
   */
  lemma {:induction false} FromDeclarationsOrder(decls: seq<Declaration>)
    ensures Consistent(FromDeclarations(decls))
    ensures FromDeclarations(decls).nonterminals == FirstDeclared(decls)
  {
    if |decls| > 0 {
      FromDeclarationsOrder(decls[..|decls| - 1]);
    }
  }

  /** ... and holds all alternatives of each, across lines, in input order. */
  lemma {:induction false} FromDeclarationsAlternatives(decls: seq<Declaration>, a: Symbol)
    ensures ProductionsOf(FromDeclarations(decls), a) == DeclaredAlternatives(decls, a)
  {
    if |decls| > 0 {
      FromDeclarationsAlternatives(decls[..|decls| - 1], a);
    }
  }

  /** `get_nonterminals_set`. */
  function NonterminalSet(g: Grammar): (r: set<Symbol>)
    ensures forall a :: a in r <==> a in g.nonterminals
    ensures Consistent(g) ==> |r| == |g.nonterminals|
  {
    var r := set a | a in g.nonterminals;
    DistinctCard(g.nonterminals);
    r
  }

  lemma {:induction false} DistinctCard(s: seq<Symbol>)
    ensures Distinct(s) ==> |set a | a in s| == |s|
  {
    if |s| > 0 && Distinct(s) {
      var init := s[..|s| - 1];
      DistinctCard(init);
      assert (set a | a in s) == (set a | a in init) + {s[|s| - 1]};
      assert s[|s| - 1] !in (set a | a in init);
    }
  }

  // ---------------------------------------------------------------------
  // Substitution of an earlier nonterminal

  predicate NonEmpty(ps: seq<Production>)
  {
    forall p | p in ps :: |p| > 0
  }

  /** No production of `ps` begins with `x`. */
  predicate NoneLeadWith(ps: seq<Production>, x: Symbol)
  {
    forall p | p in ps && |p| > 0 :: p[0] != x
  }

  /** Each delta followed by the same tail, in order. */
  function PrependEach(deltas: seq<Production>, tail: Production): (r: seq<Production>)
    ensures |r| == |deltas|
    ensures forall k | 0 <= k < |r| :: r[k] == deltas[k] + tail
  {
    if |deltas| == 0 then [] else [deltas[0] + tail] + PrependEach(deltas[1..], tail)
  }

  /**
    One pass of the inner `for j` loop: every production starting with `aj`
    is replaced, in place, by `delta + tail` for each finalised `delta`.
   */
  function Substitute(ps: seq<Production>, aj: Symbol, deltas: seq<Production>): (r: seq<Production>)
    requires NonEmpty(ps)
    ensures NoneLeadWith(ps, aj) ==> r == ps
    ensures NonEmpty(deltas) ==> NonEmpty(r)
  {
    if |ps| == 0 then []
    else
      var p := ps[0];
      var rest := Substitute(ps[1..], aj, deltas);
      if p[0] == aj then PrependEach(deltas, p[1..]) + rest else [p] + rest
  }

  /**
    Every production after substitution is either an original one not
    starting with `aj`, or some `delta` followed by the tail of an original
    production that started with `aj`.
   */
  lemma {:induction false} SubstituteOrigin(ps: seq<Production>, aj: Symbol, deltas: seq<Production>, q: Production)
    requires NonEmpty(ps)
    requires q in Substitute(ps, aj, deltas)
    ensures || (q in ps && q[0] != aj)
            || (exists p, d | p in ps && d in deltas :: p[0] == aj && q == d + p[1..])
  {
    var p := ps[0];
    var rest := Substitute(ps[1..], aj, deltas);
    if q in rest {
      SubstituteOrigin(ps[1..], aj, deltas, q);
      if q in ps[1..] && q[0] != aj {
      } else {
        var p', d :| p' in ps[1..] && d in deltas && p'[0] == aj && q == d + p'[1..];
        assert p' in ps;
      }
    } else if p[0] == aj {
      var here := PrependEach(deltas, p[1..]);
      var k :| 0 <= k < |here| && here[k] == q;
      assert deltas[k] in deltas && q == deltas[k] + p[1..];
    }
  }

  /**
    Substitution never introduces a leading symbol that neither the
    productions (other than `aj`) nor the deltas lead with.
   */
  lemma SubstituteLeads(ps: seq<Production>, aj: Symbol, deltas: seq<Production>, x: Symbol)
    requires NonEmpty(ps) && NonEmpty(deltas)
    requires x == aj || NoneLeadWith(ps, x)
    requires NoneLeadWith(deltas, x)
    ensures NoneLeadWith(Substitute(ps, aj, deltas), x)
  {
    var r := Substitute(ps, aj, deltas);
    forall q | q in r && |q| > 0 ensures q[0] != x {
      SubstituteOrigin(ps, aj, deltas, q);
      if !(q in ps && q[0] != aj) {
        var p, d :| p in ps && d in deltas && p[0] == aj && q == d + p[1..];
        assert q[0] == d[0];
      }
    }
  }

  /** Substitution works production by production, so it distributes over `+`. */
  lemma {:induction false} SubstituteAppend(a: seq<Production>, b: seq<Production>, aj: Symbol, deltas: seq<Production>)
    requires NonEmpty(a) && NonEmpty(b)
    ensures Substitute(a + b, aj, deltas) == Substitute(a, aj, deltas) + Substitute(b, aj, deltas)
  {
    if |a| > 0 {
      assert (a + b)[1..] == a[1..] + b;
      SubstituteAppend(a[1..], b, aj, deltas);
    } else {
      assert a + b == b;
    }
  }

  /**
    One production: kept in place when it does not begin with `aj`, and
    otherwise replaced by `delta + tail` for every delta, in order.  With
    `SubstituteAppend` this fixes the whole result.
   */
  lemma SubstituteOne(p: Production, aj: Symbol, deltas: seq<Production>)
    requires |p| > 0
    ensures Substitute([p], aj, deltas) == if p[0] == aj then PrependEach(deltas, p[1..]) else [p]
  {
    assert [p][1..] == [];
  }

  /**
    The converse of `SubstituteOrigin`: every production not led by `aj`
    survives, and every `delta + tail` of a production led by `aj` appears.
   */
  lemma {:induction false} SubstituteComplete(ps: seq<Production>, aj: Symbol, deltas: seq<Production>)
    requires NonEmpty(ps)
    ensures forall p | p in ps && p[0] != aj :: p in Substitute(ps, aj, deltas)
    ensures forall p, d | p in ps && p[0] == aj && d in deltas :: d + p[1..] in Substitute(ps, aj, deltas)
  {
    if |ps| > 0 {
      SubstituteComplete(ps[1..], aj, deltas);
      var r := Substitute(ps, aj, deltas);
      var rest := Substitute(ps[1..], aj, deltas);
      assert r == (if ps[0][0] == aj then PrependEach(deltas, ps[0][1..]) else [ps[0]]) + rest;
      forall p, d | p in ps && p[0] == aj && d in deltas ensures d + p[1..] in r {
        if p == ps[0] {
          var k :| 0 <= k < |deltas| && deltas[k] == d;
          assert PrependEach(deltas, p[1..])[k] == d + p[1..];
        } else {
          assert p in ps[1..];
        }
      }
      forall p | p in ps && p[0] != aj ensures p in r {
        if p != ps[0] {
          assert p in ps[1..];
        }
      }
    }
  }

  // ---------------------------------------------------------------------
  // Direct left recursion

  /** The tails `α` of the directly recursive productions `ai α`, in order (`alpha`). */
  function RecursiveTails(ps: seq<Production>, ai: Symbol): (r: seq<Production>)
    requires NonEmpty(ps)
    ensures forall t | t in r :: exists p | p in ps :: p[0] == ai && t == p[1..]
    ensures forall p | p in ps && p[0] == ai :: p[1..] in r
    ensures |r| == 0 <==> NoneLeadWith(ps, ai)
  {
    if |ps| == 0 then []
    else (if ps[0][0] == ai then [ps[0][1..]] else []) + RecursiveTails(ps[1..], ai)
  }

  /** The productions not starting with `ai`, in order (`beta`). */
  function NonRecursive(ps: seq<Production>, ai: Symbol): (r: seq<Production>)
    requires NonEmpty(ps)
    ensures forall p | p in r :: p in ps && p[0] != ai
    ensures forall p | p in ps && p[0] != ai :: p in r
    ensures |r| + |RecursiveTails(ps, ai)| == |ps|
  {
    if |ps| == 0 then []
    else (if ps[0][0] != ai then [ps[0]] else []) + NonRecursive(ps[1..], ai)
  }

  /** The split works production by production, so alpha distributes over `+`. */
  lemma {:induction false} RecursiveTailsAppend(a: seq<Production>, b: seq<Production>, ai: Symbol)
    requires NonEmpty(a) && NonEmpty(b)
    ensures RecursiveTails(a + b, ai) == RecursiveTails(a, ai) + RecursiveTails(b, ai)
  {
    if |a| == 0 {
      assert a + b == b;
    } else {
      var p, t := a[0], a[1..];
      ConsSplit(a, b);
      RecursiveTailsAppend(t, b, ai);
      RecursiveTailsCons(p, t + b, ai);
      RecursiveTailsCons(p, t, ai);
      Associate(if p[0] == ai then [p[1..]] else [], RecursiveTails(t, ai), RecursiveTails(b, ai));
    }
  }

  lemma RecursiveTailsCons(p: Production, t: seq<Production>, ai: Symbol)
    requires |p| > 0 && NonEmpty(t)
    ensures RecursiveTails([p] + t, ai) == (if p[0] == ai then [p[1..]] else []) + RecursiveTails(t, ai)
  {
    assert ([p] + t)[1..] == t;
  }

  /** The split works production by production, so beta distributes over `+`. */
  lemma {:induction false} NonRecursiveAppend(a: seq<Production>, b: seq<Production>, ai: Symbol)
    requires NonEmpty(a) && NonEmpty(b)
    ensures NonRecursive(a + b, ai) == NonRecursive(a, ai) + NonRecursive(b, ai)
  {
    if |a| == 0 {
      assert a + b == b;
    } else {
      var p, t := a[0], a[1..];
      ConsSplit(a, b);
      NonRecursiveAppend(t, b, ai);
      NonRecursiveCons(p, t + b, ai);
      NonRecursiveCons(p, t, ai);
      Associate(if p[0] != ai then [p] else [], NonRecursive(t, ai), NonRecursive(b, ai));
    }
  }

  lemma ConsSplit<T>(a: seq<T>, b: seq<T>)
    requires |a| > 0
    ensures a == [a[0]] + a[1..] && a + b == [a[0]] + (a[1..] + b)
  {
  }

  lemma Associate<T>(x: seq<T>, y: seq<T>, z: seq<T>)
    ensures x + (y + z) == (x + y) + z
  {
  }

  lemma NonRecursiveCons(p: Production, t: seq<Production>, ai: Symbol)
    requires |p| > 0 && NonEmpty(t)
    ensures NonRecursive([p] + t, ai) == (if p[0] != ai then [p] else []) + NonRecursive(t, ai)
  {
    assert ([p] + t)[1..] == t;
  }

  /**
    One production goes to alpha as its tail when it begins with `ai`, and
    to beta unchanged otherwise.  With the two `Append` lemmas this fixes
    alpha and beta, order and repeats included.
   */
  lemma SplitOne(p: Production, ai: Symbol)
    requires |p| > 0
    ensures RecursiveTails([p], ai) == if p[0] == ai then [p[1..]] else []
    ensures NonRecursive([p], ai) == if p[0] == ai then [] else [p]
  {
    assert [p][1..] == [];
  }

  /** Each production followed by the symbol `x`. */
  function AppendEach(ps: seq<Production>, x: Symbol): (r: seq<Production>)
    ensures |r| == |ps|
    ensures forall k | 0 <= k < |ps| :: r[k] == ps[k] + [x]
  {
    seq(|ps|, k requires 0 <= k < |ps| => ps[k] + [x])
  }

  /**
    The state of `eliminate_left_recursion`: `current` is `self.productions`
    (rewritten in place for the nonterminal being processed), `finished` is
    `new_productions`, and `nonterminals` is `self.nonterminals`, to which
    fresh names are appended.
   */
  datatype Elimination = Elimination(
    current: map<Symbol, seq<Production>>,
    finished: map<Symbol, seq<Production>>,
    nonterminals: seq<Symbol>)

  /** The name `remove_direct_left_recursion` allocates for `ai`. */
  function PrimeFor(st: Elimination, ai: Symbol): Symbol
  {
    FreshName(ai, st.current.Keys + st.finished.Keys)
  }

  /** `remove_direct_left_recursion`. */
  function RemoveDirectLeftRecursion(st: Elimination, ai: Symbol): (r: Elimination)
    requires ai in st.current && NonEmpty(st.current[ai])
    ensures r.current == st.current
    ensures ai in r.finished
    ensures forall a | a in st.finished && a != ai :: a in r.finished && r.finished[a] == st.finished[a]
    // without direct recursion the productions are finalised unchanged
    ensures NoneLeadWith(st.current[ai], ai) ==>
              && r.finished == st.finished[ai := st.current[ai]]
              && r.nonterminals == st.nonterminals
    // with it, one fresh name is allocated and finished alongside `ai`
    ensures !NoneLeadWith(st.current[ai], ai) ==>
              && r.nonterminals == st.nonterminals + [PrimeFor(st, ai)]
              && r.finished.Keys == st.finished.Keys + {ai, PrimeFor(st, ai)}
  {
    var ps := st.current[ai];
    var alpha := RecursiveTails(ps, ai);
    var beta := NonRecursive(ps, ai);
    if |alpha| > 0 then
      var prime := PrimeFor(st, ai);
      Elimination(
        st.current,
        st.finished[ai := AppendEach(beta, prime)][prime := AppendEach(alpha, prime) + [[Epsilon]]],
        st.nonterminals + [prime])
    else
      Elimination(st.current, st.finished[ai := ps], st.nonterminals)
  }

  /**
    With direct recursion present, `ai -> β ai'` for every non-recursive β
    in order, and `ai' -> α ai'` for every recursive tail α in order, then
    `ai' -> ε` last; `ai'` is `ai` with primes and is a new name.
   */
  lemma RemoveDirectSplit(st: Elimination, ai: Symbol)
    requires ai in st.current && NonEmpty(st.current[ai])
    requires !NoneLeadWith(st.current[ai], ai)
    ensures var r := RemoveDirectLeftRecursion(st, ai);
      var prime := PrimeFor(st, ai);
      var ps := st.current[ai];
      var beta := NonRecursive(ps, ai);
      var alpha := RecursiveTails(ps, ai);
      && IsPrimed(prime, ai)
      && prime !in st.current && prime !in st.finished
      && |r.finished[ai]| == |beta|
      && (forall k | 0 <= k < |beta| :: r.finished[ai][k] == beta[k] + [prime])
      && |r.finished[prime]| == |alpha| + 1
      && (forall k | 0 <= k < |alpha| :: r.finished[prime][k] == alpha[k] + [prime])
      && r.finished[prime][|alpha|] == [Epsilon]
  {
  }

  /**
    After `remove_direct_left_recursion`, no production of `ai` begins with
    `ai`, and no production begins with a symbol none began with before.
   */
  lemma RemoveDirectLeads(st: Elimination, ai: Symbol, x: Symbol)
    requires ai in st.current && NonEmpty(st.current[ai])
    requires x == ai || NoneLeadWith(st.current[ai], x)
    ensures var r := RemoveDirectLeftRecursion(st, ai);
      && NonEmpty(r.finished[ai])
      && NoneLeadWith(r.finished[ai], x)
  {
    var ps := st.current[ai];
    var r := RemoveDirectLeftRecursion(st, ai);
    if !NoneLeadWith(ps, ai) {
      var prime := PrimeFor(st, ai);
      var beta := NonRecursive(ps, ai);
      var rules := r.finished[ai];
      forall q | q in rules ensures |q| > 0 && q[0] != x {
        var k :| 0 <= k < |rules| && rules[k] == q;
        assert beta[k] in beta;
        assert q[0] == beta[k][0];
      }
    }
  }

  // ---------------------------------------------------------------------
  // The elimination loop

  /** Substitutes `order[0]`, ..., `order[j-1]` in turn into `ps` (the `for j in range(i)` loop). */
  function SubstituteEarlier(ps: seq<Production>, order: seq<Symbol>, j: nat, finished: map<Symbol, seq<Production>>): (r: seq<Production>)
    requires j <= |order| && NonEmpty(ps)
    requires forall k | 0 <= k < j :: order[k] in finished && NonEmpty(finished[order[k]])
    ensures NonEmpty(r)
  {
    if j == 0 then ps
    else Substitute(SubstituteEarlier(ps, order, j - 1, finished), order[j - 1], finished[order[j - 1]])
  }

  /**
    When no finalised `order[k]` leads with any of `order[0..k]`, the
    substitution passes leave no production leading with `order[0..j-1]`.
   */
  lemma {:induction false} SubstituteEarlierLeads(ps: seq<Production>, order: seq<Symbol>, j: nat, finished: map<Symbol, seq<Production>>, m: nat)
    requires j <= |order| && NonEmpty(ps)
    requires forall k | 0 <= k < j :: order[k] in finished && NonEmpty(finished[order[k]])
    requires forall k, n | 0 <= n <= k < j :: NoneLeadWith(finished[order[k]], order[n])
    requires m < j
    ensures NoneLeadWith(SubstituteEarlier(ps, order, j, finished), order[m])
  {
    var prev := SubstituteEarlier(ps, order, j - 1, finished);
    if m < j - 1 {
      SubstituteEarlierLeads(ps, order, j - 1, finished, m);
    }
    SubstituteLeads(prev, order[j - 1], finished[order[j - 1]], order[m]);
  }

  /** Shape of the elimination state: `current` keeps its keys, nothing is empty. */
  ghost predicate ShapeInvariant(g: Grammar, i: nat, st: Elimination)
  {
    && Consistent(g)
    && i <= |g.nonterminals|
    && st.current.Keys == g.productions.Keys
    && (forall a | a in st.current :: NonEmpty(st.current[a]))
    && (forall a | a in st.finished :: NonEmpty(st.finished[a]))
  }

  /**
    Names in the elimination state: the first `i` nonterminals are finished,
    and every appended name is finished, fresh and primed from one of them.
   */
  ghost predicate NameInvariant(g: Grammar, i: nat, st: Elimination)
  {
    var order := g.nonterminals;
    && i <= |order|
    && |order| <= |st.nonterminals| && st.nonterminals[..|order|] == order
    && Distinct(st.nonterminals)
    && (forall k | 0 <= k < i :: order[k] in st.finished)
    && (forall a | a in st.finished :: a in order[..i] || a in st.nonterminals[|order|..])
    && (forall a | a in st.nonterminals[|order|..] ::
          && a in st.finished && a !in g.productions
          && exists k | 0 <= k < i :: IsPrimed(a, order[k]))
  }

  /** No finished `order[k]` leads with any of `order[0..k]`. */
  ghost predicate LeadInvariant(g: Grammar, i: nat, st: Elimination)
  {
    && i <= |g.nonterminals|
    && (forall k | 0 <= k < i :: g.nonterminals[k] in st.finished)
    && (forall k, n | 0 <= n <= k < i :: NoneLeadWith(st.finished[g.nonterminals[k]], g.nonterminals[n]))
  }

  ghost predicate Invariant(g: Grammar, i: nat, st: Elimination)
  {
    ShapeInvariant(g, i, st) && NameInvariant(g, i, st) && LeadInvariant(g, i, st)
  }

  /** One iteration of the outer `for i` loop: substitute, then remove direct recursion. */
  function EliminationStep(order: seq<Symbol>, i: nat, st: Elimination): Elimination
    requires i < |order| && order[i] in st.current && NonEmpty(st.current[order[i]])
    requires forall k | 0 <= k < i :: order[k] in st.finished && NonEmpty(st.finished[order[k]])
  {
    var ai := order[i];
    var ps := SubstituteEarlier(st.current[ai], order, i, st.finished);
    RemoveDirectLeftRecursion(st.(current := st.current[ai := ps]), ai)
  }

  /** The nonterminal being processed is not finished yet. */
  lemma NotYetFinished(g: Grammar, i: nat, st: Elimination)
    requires Consistent(g) && NameInvariant(g, i, st) && i < |g.nonterminals|
    ensures g.nonterminals[i] !in st.finished
  {
  }

  /** Every production of the fresh nonterminal is non-empty: `α ai'` or `ε`. */
  lemma PrimeRowNonEmpty(st: Elimination, ai: Symbol)
    requires ai in st.current && NonEmpty(st.current[ai])
    requires !NoneLeadWith(st.current[ai], ai)
    ensures var r := RemoveDirectLeftRecursion(st, ai);
      PrimeFor(st, ai) in r.finished && NonEmpty(r.finished[PrimeFor(st, ai)])
  {
    var r := RemoveDirectLeftRecursion(st, ai);
    var prime := PrimeFor(st, ai);
    RemoveDirectSplit(st, ai);
    var alpha := RecursiveTails(st.current[ai], ai);
    forall p | p in r.finished[prime] ensures |p| > 0 {
      var k :| 0 <= k < |r.finished[prime]| && r.finished[prime][k] == p;
      if k < |alpha| {
        assert p == alpha[k] + [prime];
      }
    }
  }

  /** A map update that only touches `changed` keys, each non-empty, keeps every row non-empty. */
  lemma NonEmptyAfterUpdate(before: map<Symbol, seq<Production>>, after: map<Symbol, seq<Production>>, changed: set<Symbol>)
    requires forall a | a in before :: NonEmpty(before[a])
    requires forall a | a in after && a !in changed :: a in before && after[a] == before[a]
    requires forall a | a in changed :: a in after && NonEmpty(after[a])
    ensures forall a | a in after :: NonEmpty(after[a])
  {
  }

  lemma RemoveDirectNonEmpty(st: Elimination, ai: Symbol)
    requires ai in st.current && NonEmpty(st.current[ai])
    requires forall a | a in st.finished :: NonEmpty(st.finished[a])
    ensures var r := RemoveDirectLeftRecursion(st, ai);
      forall a | a in r.finished :: NonEmpty(r.finished[a])
  {
    var r := RemoveDirectLeftRecursion(st, ai);
    RemoveDirectLeads(st, ai, ai);
    if NoneLeadWith(st.current[ai], ai) {
      NonEmptyAfterUpdate(st.finished, r.finished, {ai});
    } else {
      PrimeRowNonEmpty(st, ai);
      NonEmptyAfterUpdate(st.finished, r.finished, {ai, PrimeFor(st, ai)});
    }
  }

  lemma StepShape(g: Grammar, i: nat, st: Elimination)
    requires ShapeInvariant(g, i, st) && i < |g.nonterminals|
    requires forall k | 0 <= k < i :: g.nonterminals[k] in st.finished
    ensures ShapeInvariant(g, i + 1, EliminationStep(g.nonterminals, i, st))
  {
    var order := g.nonterminals;
    var ai := order[i];
    var ps := SubstituteEarlier(st.current[ai], order, i, st.finished);
    var st1 := st.(current := st.current[ai := ps]);
    RemoveDirectNonEmpty(st1, ai);
  }

  /** The row finalised in step `i` leads with none of `order[0..i]`. */
  lemma StepLeadsNew(g: Grammar, i: nat, st: Elimination, n: nat)
    requires ShapeInvariant(g, i, st) && LeadInvariant(g, i, st) && n <= i < |g.nonterminals|
    ensures var r := EliminationStep(g.nonterminals, i, st);
      g.nonterminals[i] in r.finished && NoneLeadWith(r.finished[g.nonterminals[i]], g.nonterminals[n])
  {
    var order := g.nonterminals;
    var ai := order[i];
    var ps := SubstituteEarlier(st.current[ai], order, i, st.finished);
    var st1 := st.(current := st.current[ai := ps]);
    if n < i {
      SubstituteEarlierLeads(st.current[ai], order, i, st.finished, n);
    }
    RemoveDirectLeads(st1, ai, order[n]);
  }

  /** Step `i` leaves every row finished before it untouched. */
  lemma StepFrame(g: Grammar, i: nat, st: Elimination)
    requires ShapeInvariant(g, i, st) && i < |g.nonterminals|
    requires forall k | 0 <= k < i :: g.nonterminals[k] in st.finished
    requires g.nonterminals[i] !in st.finished
    ensures var r := EliminationStep(g.nonterminals, i, st);
      forall a | a in st.finished :: a in r.finished && r.finished[a] == st.finished[a]
  {
  }

  /** The lead invariant, from the frame and the new row alone. */
  lemma LeadsAfterStep(g: Grammar, i: nat, st: Elimination, r: Elimination)
    requires LeadInvariant(g, i, st) && i < |g.nonterminals|
    requires forall a | a in st.finished :: a in r.finished && r.finished[a] == st.finished[a]
    requires g.nonterminals[i] in r.finished
    requires forall n | 0 <= n <= i :: NoneLeadWith(r.finished[g.nonterminals[i]], g.nonterminals[n])
    ensures LeadInvariant(g, i + 1, r)
  {
    var order := g.nonterminals;
    forall k, n | 0 <= n <= k < i + 1 ensures NoneLeadWith(r.finished[order[k]], order[n]) {
      if k < i {
        assert r.finished[order[k]] == st.finished[order[k]];
      }
    }
  }

  lemma StepLeads(g: Grammar, i: nat, st: Elimination)
    requires ShapeInvariant(g, i, st) && LeadInvariant(g, i, st) && i < |g.nonterminals|
    requires g.nonterminals[i] !in st.finished
    ensures LeadInvariant(g, i + 1, EliminationStep(g.nonterminals, i, st))
  {
    var r := EliminationStep(g.nonterminals, i, st);
    StepFrame(g, i, st);
    StepLeadsNew(g, i, st, i);
    forall n | 0 <= n <= i
      ensures NoneLeadWith(r.finished[g.nonterminals[i]], g.nonterminals[n])
    {
      StepLeadsNew(g, i, st, n);
    }
    LeadsAfterStep(g, i, st, r);
  }

  /** The name invariant, from the keys and names of the new state alone. */
  lemma NamesAfterPlainStep(g: Grammar, i: nat, st: Elimination, r: Elimination)
    requires NameInvariant(g, i, st) && i < |g.nonterminals|
    requires r.nonterminals == st.nonterminals
    requires r.finished.Keys == st.finished.Keys + {g.nonterminals[i]}
    ensures NameInvariant(g, i + 1, r)
  {
    var order := g.nonterminals;
    var ai := order[i];
    assert order[..i + 1] == order[..i] + [ai];
    forall a | a in r.finished ensures a in order[..i + 1] || a in r.nonterminals[|order|..] {
      if a != ai {
        assert a in st.finished;
      }
    }
    forall a | a in r.nonterminals[|order|..]
      ensures a in r.finished && a !in g.productions && exists k | 0 <= k < i + 1 :: IsPrimed(a, order[k])
    {
      var k :| 0 <= k < i && IsPrimed(a, order[k]);
    }
  }

  /** Without direct recursion only `ai` is added to the finished names. */
  lemma StepNamesPlain(g: Grammar, i: nat, st: Elimination, st1: Elimination)
    requires NameInvariant(g, i, st) && i < |g.nonterminals|
    requires g.nonterminals[i] in st1.current && NonEmpty(st1.current[g.nonterminals[i]])
    requires NoneLeadWith(st1.current[g.nonterminals[i]], g.nonterminals[i])
    requires st1.finished == st.finished && st1.nonterminals == st.nonterminals
    ensures NameInvariant(g, i + 1, RemoveDirectLeftRecursion(st1, g.nonterminals[i]))
  {
    var r := RemoveDirectLeftRecursion(st1, g.nonterminals[i]);
    NamesAfterPlainStep(g, i, st, r);
  }

  /** With direct recursion, `ai` and its fresh name are added. */
  lemma StepNamesPrimed(g: Grammar, i: nat, st: Elimination, st1: Elimination)
    requires Consistent(g) && NameInvariant(g, i, st) && i < |g.nonterminals|
    requires st1.current.Keys == g.productions.Keys
    requires g.nonterminals[i] in st1.current && NonEmpty(st1.current[g.nonterminals[i]])
    requires !NoneLeadWith(st1.current[g.nonterminals[i]], g.nonterminals[i])
    requires st1.finished == st.finished && st1.nonterminals == st.nonterminals
    requires g.nonterminals[i] !in st.finished
    ensures NameInvariant(g, i + 1, RemoveDirectLeftRecursion(st1, g.nonterminals[i]))
  {
    var r := RemoveDirectLeftRecursion(st1, g.nonterminals[i]);
    var prime := PrimeFor(st1, g.nonterminals[i]);
    PrimedDistinct(g, i, st, r, prime);
    PrimedTail(g, i, st, r, prime);
    forall a | a in r.finished ensures a in g.nonterminals[..i + 1] || a in r.nonterminals[|g.nonterminals|..] {
      PrimedKeyCovered(g, i, st, r, prime, a);
    }
  }

  /** The facts about a step with direct recursion that the name invariant needs. */
  ghost predicate PrimedStep(g: Grammar, i: nat, st: Elimination, r: Elimination, prime: Symbol)
    requires i < |g.nonterminals|
  {
    && r.nonterminals == st.nonterminals + [prime]
    && r.finished.Keys == st.finished.Keys + {g.nonterminals[i], prime}
    && IsPrimed(prime, g.nonterminals[i])
    && prime !in g.productions && prime !in st.finished
  }

  lemma PrimedKeyCovered(g: Grammar, i: nat, st: Elimination, r: Elimination, prime: Symbol, a: Symbol)
    requires NameInvariant(g, i, st) && i < |g.nonterminals|
    requires PrimedStep(g, i, st, r, prime)
    requires a in r.finished
    ensures a in g.nonterminals[..i + 1] || a in r.nonterminals[|g.nonterminals|..]
  {
    var order := g.nonterminals;
    var tail := r.nonterminals[|order|..];
    assert tail == st.nonterminals[|order|..] + [prime];
    if a == prime {
      assert tail[|tail| - 1] == prime;
    } else if a == order[i] {
      assert order[..i + 1][i] == a;
    } else {
      assert a in st.finished;
      if a in order[..i] {
        assert order[..i] == order[..i + 1][..i];
      } else {
        assert a in st.nonterminals[|order|..];
      }
    }
  }

  lemma PrimedDistinct(g: Grammar, i: nat, st: Elimination, r: Elimination, prime: Symbol)
    requires Consistent(g) && NameInvariant(g, i, st) && i < |g.nonterminals|
    requires PrimedStep(g, i, st, r, prime)
    ensures Distinct(r.nonterminals)
    ensures r.nonterminals[..|g.nonterminals|] == g.nonterminals
  {
    var order := g.nonterminals;
    forall x | x in st.nonterminals ensures x != prime {
      var k :| 0 <= k < |st.nonterminals| && st.nonterminals[k] == x;
      if k < |order| {
        assert x == order[k];
      } else {
        assert x in st.nonterminals[|order|..];
      }
    }
  }

  lemma PrimedTail(g: Grammar, i: nat, st: Elimination, r: Elimination, prime: Symbol)
    requires NameInvariant(g, i, st) && i < |g.nonterminals|
    requires PrimedStep(g, i, st, r, prime)
    ensures forall k | 0 <= k < i + 1 :: g.nonterminals[k] in r.finished
    ensures forall a | a in r.nonterminals[|g.nonterminals|..] ::
              && a in r.finished && a !in g.productions
              && exists k | 0 <= k < i + 1 :: IsPrimed(a, g.nonterminals[k])
  {
    var order := g.nonterminals;
    assert r.nonterminals[|order|..] == st.nonterminals[|order|..] + [prime];
    forall a | a in r.nonterminals[|order|..]
      ensures a in r.finished && a !in g.productions && exists k | 0 <= k < i + 1 :: IsPrimed(a, order[k])
    {
      if a == prime {
        assert IsPrimed(a, order[i]);
      } else {
        assert a in st.nonterminals[|order|..];
        var k :| 0 <= k < i && IsPrimed(a, order[k]);
      }
    }
  }

  lemma StepNames(g: Grammar, i: nat, st: Elimination)
    requires ShapeInvariant(g, i, st) && NameInvariant(g, i, st) && i < |g.nonterminals|
    requires forall k | 0 <= k < i :: NonEmpty(st.finished[g.nonterminals[k]])
    requires g.nonterminals[i] !in st.finished
    ensures NameInvariant(g, i + 1, EliminationStep(g.nonterminals, i, st))
  {
    var order := g.nonterminals;
    var ai := order[i];
    var ps := SubstituteEarlier(st.current[ai], order, i, st.finished);
    var st1 := st.(current := st.current[ai := ps]);
    assert ShapeInvariant(g, i, st);
    if NoneLeadWith(ps, ai) {
      StepNamesPlain(g, i, st, st1);
    } else {
      StepNamesPrimed(g, i, st, st1);
    }
  }

  function EliminateFrom(g: Grammar, i: nat, st: Elimination): (r: Elimination)
    requires Invariant(g, i, st)
    ensures Invariant(g, |g.nonterminals|, r)
    decreases |g.nonterminals| - i
  {
    if i == |g.nonterminals| then st
    else
      NotYetFinished(g, i, st);
      StepShape(g, i, st);
      StepNames(g, i, st);
      StepLeads(g, i, st);
      EliminateFrom(g, i + 1, EliminationStep(g.nonterminals, i, st))
  }

  /** The finished state, read as a grammar, is consistent and keeps every original nonterminal. */
  lemma FinishedGrammar(g: Grammar, st: Elimination)
    requires Invariant(g, |g.nonterminals|, st)
    ensures Consistent(Grammar(st.finished, st.nonterminals, g.terminals))
    ensures forall a | a in g.productions :: a in st.finished
  {
    FinishedListed(g, st);
    ListedFinished(g, st);
    forall a | a in g.productions ensures a in st.finished {
      var k :| 0 <= k < |g.nonterminals| && g.nonterminals[k] == a;
    }
  }

  lemma FinishedListed(g: Grammar, st: Elimination)
    requires NameInvariant(g, |g.nonterminals|, st)
    ensures forall a | a in st.finished :: a in st.nonterminals
  {
    var order := g.nonterminals;
    assert order[..|order|] == order;
    forall a | a in st.finished ensures a in st.nonterminals {
      InPrefixOrTail(st.nonterminals, |order|, a);
    }
  }

  /** What is in a prefix or the rest of a sequence is in the sequence. */
  lemma InPrefixOrTail(s: seq<Symbol>, n: nat, a: Symbol)
    requires n <= |s| && (a in s[..n] || a in s[n..])
    ensures a in s
  {
    assert s == s[..n] + s[n..];
  }

  lemma ListedFinished(g: Grammar, st: Elimination)
    requires NameInvariant(g, |g.nonterminals|, st)
    ensures forall a | a in st.nonterminals :: a in st.finished
  {
    var order := g.nonterminals;
    forall a | a in st.nonterminals ensures a in st.finished {
      var k :| 0 <= k < |st.nonterminals| && st.nonterminals[k] == a;
      if k >= |order| {
        assert a == st.nonterminals[|order|..][k - |order|];
      } else {
        assert a == order[k];
      }
    }
  }

  /**
    `eliminate_left_recursion`.  The source reads `production[0]` of every
    production, so every production must be non-empty.
   */
  function EliminateLeftRecursion(g: Grammar): (r: Grammar)
    requires Consistent(g)
    requires forall a | a in g.productions :: NonEmpty(g.productions[a])
    ensures Consistent(r)
    ensures r.terminals == g.terminals
    ensures forall a | a in r.productions :: NonEmpty(r.productions[a])
    // every original nonterminal keeps its place; fresh ones are appended
    ensures |g.nonterminals| <= |r.nonterminals| && r.nonterminals[..|g.nonterminals|] == g.nonterminals
    ensures forall a | a in g.productions :: a in r.productions
    ensures forall a | a in r.nonterminals[|g.nonterminals|..] ::
              a !in g.productions && exists k | 0 <= k < |g.nonterminals| :: IsPrimed(a, g.nonterminals[k])
    // no production of the i-th original nonterminal begins with the j-th, j <= i
    ensures forall i, j | 0 <= j <= i < |g.nonterminals| ::
              NoneLeadWith(r.productions[g.nonterminals[i]], g.nonterminals[j])
  {
    var st := EliminateFrom(g, 0, Elimination(g.productions, map[], g.nonterminals));
    FinishedGrammar(g, st);
    Grammar(st.finished, st.nonterminals, g.terminals)
  }

  // ---------------------------------------------------------------------
  // Terminals

  /** `t` appears in some production, is not a nonterminal and is not `ε`. */
  ghost predicate IsTerminalOf(g: Grammar, t: Symbol)
  {
    && t !in g.nonterminals
    && t != Epsilon
    && exists a, p | a in g.productions && p in g.productions[a] :: t in p
  }

  /** `get_all_terminals`: recomputes the terminal set from the productions. */
  method GetAllTerminals(g: Grammar) returns (r: Grammar)
    ensures r.productions == g.productions && r.nonterminals == g.nonterminals
    ensures forall t :: t in r.terminals <==> IsTerminalOf(g, t)
  {
    var nonterminals := NonterminalSet(g);
    var terminals: set<Symbol> := {};
    var todo := g.productions.Keys;
    while todo != {}
      invariant todo <= g.productions.Keys
      invariant forall t | t in terminals :: IsTerminalOf(g, t)
      invariant forall a, p, t | a in g.productions && a !in todo && p in g.productions[a] && t in p ::
                  t in g.nonterminals || t == Epsilon || t in terminals
      decreases todo
    {
      var a :| a in todo;
      var prods := g.productions[a];
      var j := 0;
      while j < |prods|
        invariant j <= |prods|
        invariant forall t | t in terminals :: IsTerminalOf(g, t)
        invariant forall a, p, t | a in g.productions && a !in todo && p in g.productions[a] && t in p ::
                    t in g.nonterminals || t == Epsilon || t in terminals
        invariant forall k, t | 0 <= k < j && t in prods[k] :: t in g.nonterminals || t == Epsilon || t in terminals
      {
        var prod := prods[j];
        var n := 0;
        while n < |prod|
          invariant n <= |prod|
          invariant forall t | t in terminals :: IsTerminalOf(g, t)
          invariant forall a, p, t | a in g.productions && a !in todo && p in g.productions[a] && t in p ::
                      t in g.nonterminals || t == Epsilon || t in terminals
          invariant forall k, t | 0 <= k < j && t in prods[k] :: t in g.nonterminals || t == Epsilon || t in terminals
          invariant forall m | 0 <= m < n :: prod[m] in g.nonterminals || prod[m] == Epsilon || prod[m] in terminals
        {
          var symbol := prod[n];
          if symbol !in nonterminals && symbol != Epsilon {
            assert prods[j] in g.productions[a] && symbol in prods[j];
            terminals := terminals + {symbol};
          }
          n := n + 1;
        }
        assert forall t | t in prod :: t in g.nonterminals || t == Epsilon || t in terminals;
        j := j + 1;
      }
      assert forall p | p in prods :: exists k | 0 <= k < |prods| :: p == prods[k];
      todo := todo - {a};
    }
    r := g.(terminals := terminals);
  }
}
