/**
  The grammar representation shared by `first_and_follow_set.py` and
  `ll1_parser.py`: every symbol is one character, a symbol is a nonterminal
  exactly when it is an upper-case letter, and the grammar is the
  `productions` dictionary from a head to its production strings.
 */
module CharGrammar {

  const Epsilon: char := 'ε'
  const EndMarker: char := '$'

  /** `is_non_terminal`: `symbol.isupper()`, on ASCII letters. */
  predicate IsNonTerminal(c: char)
  {
    'A' <= c <= 'Z'
  }

  lemma SpecialsAreNotNonTerminals()
    ensures !IsNonTerminal(Epsilon) && !IsNonTerminal(EndMarker)
  {
  }

  /** One entry of the `productions` dictionary. */
  datatype Rule = Rule(head: char, bodies: seq<string>)

  /** The dictionary, in insertion order. */
  type Grammar = seq<Rule>

  /** A dictionary has each key once. */
  predicate DistinctHeads(g: Grammar)
  {
    forall i, j | 0 <= i < j < |g| :: g[i].head != g[j].head
  }

  function Heads(g: Grammar): set<char>
  {
    set r | r in g :: r.head
  }

  /** `productions[x]`; no entry reads as no productions. */
  function BodiesOf(g: Grammar, x: char): seq<string>
  {
    if |g| == 0 then []
    else if g[0].head == x then g[0].bodies
    else BodiesOf(g[1..], x)
  }

  /**
    Every nonterminal used in a body has an entry: otherwise the lookup
    `productions[symbol]` in `get_first` fails.
   */
  predicate Closed(g: Grammar)
  {
    forall r, b, c | r in g && b in r.bodies && c in b :: IsNonTerminal(c) ==> c in Heads(g)
  }

  predicate WellFormed(g: Grammar)
  {
    DistinctHeads(g) && Closed(g)
  }

  /** A dictionary from symbols to sets of symbols (`first_sets`, `follow_sets`). */
  type SetMap = map<char, set<char>>

  /** `m[c]` of a `defaultdict(set)`: no entry reads as the empty set. */
  function Get(m: SetMap, c: char): set<char>
  {
    if c in m then m[c] else {}
  }

  /** `m[k].update(s)`. */
  function Add(m: SetMap, k: char, s: set<char>): (r: SetMap)
  {
    m[k := Get(m, k) + s]
  }

  /** Pointwise inclusion: `b` holds every key and every element of `a`. */
  predicate Below(a: SetMap, b: SetMap)
  {
    a.Keys <= b.Keys && forall k | k in a :: a[k] <= b[k]
  }

  lemma BelowTrans(a: SetMap, b: SetMap, c: SetMap)
    requires Below(a, b) && Below(b, c)
    ensures Below(a, c)
  {
  }

  lemma BelowAntisymmetric(a: SetMap, b: SetMap)
    requires Below(a, b) && Below(b, a)
    ensures a == b
  {
    assert a.Keys == b.Keys;
    assert forall k | k in a :: a[k] == b[k];
  }

  lemma AddGrows(m: SetMap, k: char, s: set<char>)
    ensures Below(m, Add(m, k, s))
    ensures Get(m, k) + s == Get(Add(m, k, s), k)
  {
  }

  /** All (key, element) pairs: the size measure of the grow-until-stable loops. */
  function Pairs(m: SetMap): set<(char, char)>
  {
    set k, c | k in m && c in m[k] :: (k, c)
  }

  /** The pairs a map with keys in `keys` and elements in `universe` can hold. */
  function Grid(keys: set<char>, universe: set<char>): set<(char, char)>
  {
    set k, c | k in keys && c in universe :: (k, c)
  }

  predicate Within(m: SetMap, keys: set<char>, universe: set<char>)
  {
    m.Keys == keys && forall k | k in m :: m[k] <= universe
  }

  /**
    A map that grew without changing its keys, and changed, has lost some of
    the room left in the grid: the loops that grow such maps terminate.
   */
  lemma GrowthShrinksRoom(a: SetMap, b: SetMap, keys: set<char>, universe: set<char>)
    requires Within(a, keys, universe) && Within(b, keys, universe)
    requires Below(a, b) && a != b
    ensures Grid(keys, universe) - Pairs(b) < Grid(keys, universe) - Pairs(a)
  {
    var k :| k in a && a[k] != b[k];
    var c :| c in b[k] && c !in a[k];
    assert (k, c) in Pairs(b) && (k, c) !in Pairs(a);
    assert (k, c) in Grid(keys, universe);
  }
}
