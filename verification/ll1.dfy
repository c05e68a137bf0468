/**
  The predictive parsing table and the table-driven parser of
  `ll1_parser.py` (`build_parsing_table`, `parse`).

  The stack is a string whose last character is the top.  The parser is
  given fuel, one unit per step, because on a left-recursive grammar it
  expands forever.
 */
module LL1 {
  import opened Common
  import opened CharGrammar
  import opened FirstSets
  import opened FollowSets

  // ---------------------------------------------------------------------
  // Productions in dictionary order

  datatype Production = Production(head: char, body: string)

  function ProductionsOf(r: Rule): (ps: seq<Production>)
    ensures |ps| == |r.bodies|
    ensures forall i | 0 <= i < |ps| :: ps[i] == Production(r.head, r.bodies[i])
  {
    seq(|r.bodies|, i requires 0 <= i < |r.bodies| => Production(r.head, r.bodies[i]))
  }

  /** Every production of every head, in the order `build_parsing_table` visits them. */
  function Productions(g: Grammar): seq<Production>
  {
    if |g| == 0 then [] else ProductionsOf(g[0]) + Productions(g[1..])
  }

  lemma {:induction false} ProductionsMembers(g: Grammar, p: Production)
    ensures p in Productions(g) <==> exists r | r in g :: r.head == p.head && p.body in r.bodies
  {
    if |g| > 0 {
      ProductionsMembers(g[1..], p);
      var ps := ProductionsOf(g[0]);
      if p in ps {
        var i :| 0 <= i < |ps| && ps[i] == p;
        assert g[0] in g && g[0].bodies[i] == p.body;
      }
      if exists r | r in g :: r.head == p.head && p.body in r.bodies {
        var r :| r in g && r.head == p.head && p.body in r.bodies;
        if r == g[0] {
          var i :| 0 <= i < |r.bodies| && r.bodies[i] == p.body;
          assert ps[i] == p;
        } else {
          assert r in g[1..];
        }
      }
      assert forall r | r in g[1..] :: r in g;
    }
  }

  // ---------------------------------------------------------------------
  // The table

  type Table = map<char, map<char, string>>

  /** `table[nt][c]`, or nothing when `c in table[nt]` fails. */
  function Lookup(t: Table, nt: char, c: char): Option<string>
  {
    if nt in t && c in t[nt] then Some(t[nt][c]) else None
  }

  /**
    The columns a production is written into: its FIRST set without `ε`,
    and, when that set holds `ε`, FOLLOW of its head.
   */
  function Cells(first: SetMap, follow: SetMap, p: Production): set<char>
  {
    var fp := FirstOfBody(first, p.body);
    (fp - {Epsilon}) + (if Epsilon in fp then Get(follow, p.head) else {})
  }

  /** Writes one production into its columns, overwriting what was there. */
  function Claim(t: Table, p: Production, cells: set<char>): Table
  {
    var row := if p.head in t then t[p.head] else map[];
    t[p.head := row + map c | c in cells :: p.body]
  }

  function Fill(first: SetMap, follow: SetMap, ps: seq<Production>): Table
  {
    if |ps| == 0 then map[]
    else
      var last := ps[|ps| - 1];
      Claim(Fill(first, follow, ps[..|ps| - 1]), last, Cells(first, follow, last))
  }

  /** `build_parsing_table`. */
  function BuildTable(g: Grammar, first: SetMap, follow: SetMap): Table
  {
    Fill(first, follow, Productions(g))
  }

  /**
    The table `parse` consults, from FIRST and FOLLOW; `ll1_parser.py`
    computes FOLLOW as the `SkipTerminal` variant.
   */
  function ParsingTable(v: Variant, g: Grammar, start: char): Table
  {
    var first := FirstOfGrammar(g);
    BuildTable(g, first, Follow(v, first, g, start))
  }

  /** Production `i` wants to be in row `nt`, column `c`. */
  predicate Claims(first: SetMap, follow: SetMap, ps: seq<Production>, i: nat, nt: char, c: char)
    requires i < |ps|
  {
    ps[i].head == nt && c in Cells(first, follow, ps[i])
  }

  /** The last production claims its columns; every other cell is as before. */
  lemma FillLast(first: SetMap, follow: SetMap, ps: seq<Production>, nt: char, c: char)
    requires |ps| > 0
    ensures Lookup(Fill(first, follow, ps), nt, c) ==
            if Claims(first, follow, ps, |ps| - 1, nt, c) then Some(ps[|ps| - 1].body)
            else Lookup(Fill(first, follow, ps[..|ps| - 1]), nt, c)
  {
  }

  /** A cell is empty exactly when no production claims it. */
  lemma {:induction false} FillEmpty(first: SetMap, follow: SetMap, ps: seq<Production>, nt: char, c: char)
    ensures Lookup(Fill(first, follow, ps), nt, c).None? <==>
            forall i | 0 <= i < |ps| :: !Claims(first, follow, ps, i, nt, c)
  {
    if |ps| > 0 {
      var n := |ps| - 1;
      var init := ps[..n];
      FillEmpty(first, follow, init, nt, c);
      FillLast(first, follow, ps, nt, c);
      assert forall i | 0 <= i < n :: Claims(first, follow, ps, i, nt, c) == Claims(first, follow, init, i, nt, c);
    }
  }

  /** Production `i` claims the cell and no later production does. */
  predicate LastClaimant(first: SetMap, follow: SetMap, ps: seq<Production>, i: nat, nt: char, c: char)
    requires i < |ps|
  {
    Claims(first, follow, ps, i, nt, c) && forall j | i < j < |ps| :: !Claims(first, follow, ps, j, nt, c)
  }

  lemma LastClaimantOfInit(first: SetMap, follow: SetMap, ps: seq<Production>, i: nat, nt: char, c: char)
    requires i < |ps| - 1
    requires LastClaimant(first, follow, ps[..|ps| - 1], i, nt, c)
    requires !Claims(first, follow, ps, |ps| - 1, nt, c)
    ensures LastClaimant(first, follow, ps, i, nt, c)
  {
    var init := ps[..|ps| - 1];
    assert Claims(first, follow, ps, i, nt, c) == Claims(first, follow, init, i, nt, c);
    forall j | i < j < |ps| ensures !Claims(first, follow, ps, j, nt, c) {
      if j < |ps| - 1 {
        assert Claims(first, follow, ps, j, nt, c) == Claims(first, follow, init, j, nt, c);
      }
    }
  }

  /** A cell that is not empty holds the body of the last production that claims it. */
  lemma {:induction false} FillLastClaimant(first: SetMap, follow: SetMap, ps: seq<Production>, nt: char, c: char, b: string)
    requires Lookup(Fill(first, follow, ps), nt, c) == Some(b)
    ensures exists i | 0 <= i < |ps| :: LastClaimant(first, follow, ps, i, nt, c) && ps[i].body == b
  {
    var n := |ps| - 1;
    FillLast(first, follow, ps, nt, c);
    if Claims(first, follow, ps, n, nt, c) {
      assert LastClaimant(first, follow, ps, n, nt, c);
    } else {
      var init := ps[..n];
      FillLastClaimant(first, follow, init, nt, c, b);
      var i :| 0 <= i < n && LastClaimant(first, follow, init, i, nt, c) && init[i].body == b;
      LastClaimantOfInit(first, follow, ps, i, nt, c);
    }
  }

  /**
    A cell is empty exactly when no production claims it; otherwise it holds
    the body of the last production that claims it.
   */
  lemma FillLookup(first: SetMap, follow: SetMap, ps: seq<Production>, nt: char, c: char)
    ensures Lookup(Fill(first, follow, ps), nt, c).None? <==>
            forall i | 0 <= i < |ps| :: !Claims(first, follow, ps, i, nt, c)
    ensures Lookup(Fill(first, follow, ps), nt, c).Some? ==>
            exists i | 0 <= i < |ps| ::
              LastClaimant(first, follow, ps, i, nt, c) && ps[i].body == Lookup(Fill(first, follow, ps), nt, c).value
  {
    FillEmpty(first, follow, ps, nt, c);
    if Lookup(Fill(first, follow, ps), nt, c).Some? {
      FillLastClaimant(first, follow, ps, nt, c, Lookup(Fill(first, follow, ps), nt, c).value);
    }
  }

  /** No two productions of one head share a column. */
  predicate NoConflict(first: SetMap, follow: SetMap, ps: seq<Production>)
  {
    forall i, j | 0 <= i < j < |ps| && ps[i].head == ps[j].head ::
      Cells(first, follow, ps[i]) !! Cells(first, follow, ps[j])
  }

  /** Without conflicts the cell holds the one production that claims it. */
  lemma UniqueClaim(first: SetMap, follow: SetMap, ps: seq<Production>, i: nat, nt: char, c: char)
    requires NoConflict(first, follow, ps)
    requires i < |ps| && Claims(first, follow, ps, i, nt, c)
    ensures Lookup(Fill(first, follow, ps), nt, c) == Some(ps[i].body)
  {
    FillLookup(first, follow, ps, nt, c);
    var k :| 0 <= k < |ps| && LastClaimant(first, follow, ps, k, nt, c)
             && ps[k].body == Lookup(Fill(first, follow, ps), nt, c).value;
    assert i == k;
  }

  /** Every entry of the table is a production of its row's head. */
  lemma TableEntriesFromGrammar(g: Grammar, first: SetMap, follow: SetMap, nt: char, c: char)
    requires Lookup(BuildTable(g, first, follow), nt, c).Some?
    ensures exists r | r in g :: r.head == nt && Lookup(BuildTable(g, first, follow), nt, c).value in r.bodies
  {
    var ps := Productions(g);
    FillLookup(first, follow, ps, nt, c);
    var i :| 0 <= i < |ps| && LastClaimant(first, follow, ps, i, nt, c)
             && ps[i].body == Lookup(BuildTable(g, first, follow), nt, c).value;
    assert ps[i] in ps;
    ProductionsMembers(g, ps[i]);
  }

  /**
    Since FOLLOW sets never hold `ε`, no production is written into an `ε`
    column of the table `parse` consults.
   */
  lemma NoEpsilonColumn(v: Variant, g: Grammar, start: char, nt: char)
    ensures Lookup(ParsingTable(v, g, start), nt, Epsilon) == None
  {
    var first := FirstOfGrammar(g);
    var follow := Follow(v, first, g, start);
    var ps := Productions(g);
    forall i | 0 <= i < |ps| ensures !Claims(first, follow, ps, i, nt, Epsilon) {
      FollowNoEpsilon(v, first, g, start, ps[i].head);
    }
    FillLookup(first, follow, ps, nt, Epsilon);
  }

  // ---------------------------------------------------------------------
  // The parser

  /** The parser's state: the stack (top last) and the remaining input. */
  datatype Config = Config(stack: string, input: string)

  datatype Outcome =
    | Accept              // stack and input both empty: "Parsing successful"
    | NoEntry             // no table entry for the top and the current symbol
    | Mismatch            // a top that is neither the current symbol nor a nonterminal
    | Unconsumed(rest: string) // stack empty, input left: "Input not fully consumed"
    | OutOfInput          // `input_list[0]` on an empty list

  datatype StepResult = Next(config: Config) | Halt(outcome: Outcome)

  /** The symbols of a body other than `ε`, in order. */
  function Visible(p: string): (r: string)
  {
    if |p| == 0 then [] else (if p[0] == Epsilon then [] else [p[0]]) + Visible(p[1..])
  }

  function Reverse(s: string): (r: string)
    ensures |r| == |s|
  {
    if |s| == 0 then [] else Reverse(s[1..]) + [s[0]]
  }

  /** What `for symbol in reversed(production)` appends to the stack, bottom first. */
  function Pushed(p: string): (r: string)
  {
    if |p| == 0 then []
    else (if p[|p| - 1] == Epsilon then [] else [p[|p| - 1]]) + Pushed(p[..|p| - 1])
  }

  lemma {:induction false} ReverseAppend(s: string, u: string)
    ensures Reverse(s + u) == Reverse(u) + Reverse(s)
  {
    if |s| > 0 {
      assert (s + u)[1..] == s[1..] + u;
      ReverseAppend(s[1..], u);
    } else {
      assert s + u == u;
    }
  }

  lemma {:induction false} VisibleSnoc(p: string)
    requires |p| > 0
    ensures Visible(p) == Visible(p[..|p| - 1]) + (if p[|p| - 1] == Epsilon then [] else [p[|p| - 1]])
  {
    if |p| > 1 {
      VisibleSnoc(p[1..]);
      assert p[1..][..|p| - 2] == p[..|p| - 1][1..];
    }
  }

  /** Read from the top down, the pushed symbols are the body's symbols other than `ε`, in order. */
  lemma {:induction false} PushedReads(p: string)
    ensures Reverse(Pushed(p)) == Visible(p)
  {
    if |p| > 0 {
      var n := |p| - 1;
      var tail: string := if p[n] == Epsilon then [] else [p[n]];
      PushedReads(p[..n]);
      ReverseAppend(tail, Pushed(p[..n]));
      VisibleSnoc(p);
      assert Reverse(tail) == tail;
    }
  }

  /** One iteration of `while stack`. */
  function Step(t: Table, c: Config): StepResult
    requires |c.stack| > 0
  {
    var top := c.stack[|c.stack| - 1];
    var rest := c.stack[..|c.stack| - 1];
    if |c.input| == 0 then Halt(OutOfInput)
    else if top == c.input[0] then Next(Config(rest, c.input[1..]))
    else if IsNonTerminal(top) then
      match Lookup(t, top, c.input[0])
      case None => Halt(NoEntry)
      case Some(p) => Next(Config(rest + Pushed(p), c.input))
    else Halt(Mismatch)
  }

  /** A top equal to the current symbol is popped and the symbol consumed. */
  lemma StepMatch(t: Table, c: Config)
    requires |c.stack| > 0 && |c.input| > 0 && c.stack[|c.stack| - 1] == c.input[0]
    ensures Step(t, c) == Next(Config(c.stack[..|c.stack| - 1], c.input[1..]))
  {
  }

  /**
    A nonterminal top with a table entry for the current symbol is replaced
    by the entry's symbols, first symbol on top; the input is untouched.
   */
  lemma StepExpand(t: Table, c: Config, p: string)
    requires |c.stack| > 0 && |c.input| > 0
    requires c.stack[|c.stack| - 1] != c.input[0] && IsNonTerminal(c.stack[|c.stack| - 1])
    requires Lookup(t, c.stack[|c.stack| - 1], c.input[0]) == Some(p)
    ensures Step(t, c) == Next(Config(c.stack[..|c.stack| - 1] + Pushed(p), c.input))
    ensures Reverse(Pushed(p)) == Visible(p)
  {
    PushedReads(p);
  }

  /**
    The three ways a step fails: no current symbol at all, a nonterminal
    top without a table entry, and a top that is neither the current
    symbol nor a nonterminal.
   */
  lemma StepErrors(t: Table, c: Config)
    requires |c.stack| > 0
    ensures var top := c.stack[|c.stack| - 1];
            && (Step(t, c) == Halt(OutOfInput) <==> |c.input| == 0)
            && (Step(t, c) == Halt(NoEntry) <==>
                  |c.input| > 0 && top != c.input[0] && IsNonTerminal(top) && Lookup(t, top, c.input[0]).None?)
            && (Step(t, c) == Halt(Mismatch) <==>
                  |c.input| > 0 && top != c.input[0] && !IsNonTerminal(top))
            && (Step(t, c).Halt? ==> Step(t, c).outcome == OutOfInput || Step(t, c).outcome == NoEntry || Step(t, c).outcome == Mismatch)
  {
  }

  /** The loop and the final check, with at most `fuel` steps; `None` when the fuel runs out. */
  function Run(t: Table, c: Config, fuel: nat): Option<Outcome>
    decreases fuel
  {
    if |c.stack| == 0 then Some(if |c.input| == 0 then Accept else Unconsumed(c.input))
    else if fuel == 0 then None
    else match Step(t, c)
      case Halt(o) => Some(o)
      case Next(c') => Run(t, c', fuel - 1)
  }

  /** `parse`: the stack holds only the start symbol, the input gets `$` appended. */
  function Parse(t: Table, start: char, w: string, fuel: nat): Option<Outcome>
  {
    Run(t, Config([start], w + [EndMarker]), fuel)
  }

  // ---------------------------------------------------------------------
  // The end marker is never matched

  /** No table entry contains `$`. */
  predicate NoEndMarkerEntries(t: Table)
  {
    forall nt, c | nt in t && c in t[nt] :: EndMarker !in t[nt][c]
  }

  /** No production of the grammar contains `$`. */
  predicate NoEndMarkerBodies(g: Grammar)
  {
    forall r, b | r in g && b in r.bodies :: EndMarker !in b
  }

  lemma NoEndMarkerTable(g: Grammar, first: SetMap, follow: SetMap)
    requires NoEndMarkerBodies(g)
    ensures NoEndMarkerEntries(BuildTable(g, first, follow))
  {
    var t := BuildTable(g, first, follow);
    forall nt, c | nt in t && c in t[nt] ensures EndMarker !in t[nt][c] {
      TableEntriesFromGrammar(g, first, follow, nt, c);
    }
  }

  lemma {:induction false} VisibleKeeps(p: string, s: char)
    ensures s in Visible(p) ==> s in p
  {
    if |p| > 0 {
      VisibleKeeps(p[1..], s);
    }
  }

  lemma PushedKeeps(p: string, s: char)
    ensures s in Pushed(p) ==> s in p
  {
    PushedReads(p);
    VisibleKeeps(p, s);
    if s in Pushed(p) {
      ReverseKeeps(Pushed(p), s);
    }
  }

  lemma {:induction false} ReverseKeeps(u: string, s: char)
    requires s in u
    ensures s in Reverse(u)
  {
    if u[0] != s {
      ReverseKeeps(u[1..], s);
    }
  }

  /** `$` is not on the stack, and the input still ends with it. */
  predicate EndMarkerPending(c: Config)
  {
    EndMarker !in c.stack && |c.input| > 0 && c.input[|c.input| - 1] == EndMarker
  }

  lemma {:induction false} RunNeverAccepts(t: Table, c: Config, fuel: nat)
    requires NoEndMarkerEntries(t) && EndMarkerPending(c)
    ensures Run(t, c, fuel) != Some(Accept)
    decreases fuel
  {
    if |c.stack| > 0 && fuel > 0 {
      var top := c.stack[|c.stack| - 1];
      assert top in c.stack;
      var rest := c.stack[..|c.stack| - 1];
      assert forall s | s in rest :: s in c.stack;
      match Step(t, c)
      case Halt(o) =>
      case Next(c') =>
        if top == c.input[0] {
          assert |c.input| > 1;
          RunNeverAccepts(t, c', fuel - 1);
        } else {
          var p := Lookup(t, top, c.input[0]).value;
          PushedKeeps(p, EndMarker);
          RunNeverAccepts(t, c', fuel - 1);
        }
    }
  }

  /**
    `parse` never succeeds when no table entry contains `$` and the start
    symbol is not `$`: it appends `$` to the input, but only a `$` on the
    stack could consume it.
   */
  lemma ParseNeverAccepts(t: Table, start: char, w: string, fuel: nat)
    requires NoEndMarkerEntries(t) && start != EndMarker
    ensures Parse(t, start, w, fuel) != Some(Accept)
  {
    RunNeverAccepts(t, Config([start], w + [EndMarker]), fuel);
  }

  // ---------------------------------------------------------------------
  // The parser with `$` below the start symbol

  /** The textbook start: `$` at the bottom of the stack, under the start symbol. */
  function ParseWithEndMarker(t: Table, start: char, w: string, fuel: nat): Option<Outcome>
  {
    Run(t, Config([EndMarker, start], w + [EndMarker]), fuel)
  }

  function Lift(c: Config): Config
  {
    Config([EndMarker] + c.stack, c.input)
  }

  /** What the run with `$` below reports where the run without it reports `o`. */
  function LiftOutcome(o: Outcome): Outcome
  {
    match o
    case Accept => OutOfInput
    case Unconsumed(rest) =>
      if |rest| == 0 then OutOfInput
      else if rest[0] != EndMarker then Mismatch
      else if |rest| == 1 then Accept
      else Unconsumed(rest[1..])
    case _ => o
  }

  /** While the original stack is not empty the two runs take the same step. */
  lemma StepLift(t: Table, c: Config)
    requires |c.stack| > 0
    ensures Step(t, Lift(c)) == match Step(t, c) case Halt(o) => Halt(o) case Next(c') => Next(Lift(c'))
  {
    var s := c.stack;
    var ls := [EndMarker] + s;
    assert ls[|ls| - 1] == s[|s| - 1];
    assert ls[..|ls| - 1] == [EndMarker] + s[..|s| - 1];
    if |c.input| > 0 && Lookup(t, s[|s| - 1], c.input[0]).Some? {
      var p := Pushed(Lookup(t, s[|s| - 1], c.input[0]).value);
      assert ls[..|ls| - 1] + p == [EndMarker] + (s[..|s| - 1] + p);
    }
  }

  lemma {:induction false} RunLift(t: Table, c: Config, fuel: nat)
    requires Run(t, c, fuel).Some?
    ensures Run(t, Lift(c), fuel + 1) == Some(LiftOutcome(Run(t, c, fuel).value))
    decreases fuel
  {
    if |c.stack| == 0 {
      assert Lift(c).stack == [EndMarker];
      if |c.input| > 0 && c.input[0] == EndMarker {
        assert Step(t, Lift(c)) == Next(Config([], c.input[1..]));
      }
    } else {
      StepLift(t, c);
      match Step(t, c)
      case Halt(o) =>
      case Next(c') =>
        RunLift(t, c', fuel - 1);
    }
  }

  lemma {:induction false} RunLiftAccepts(t: Table, c: Config, fuel: nat)
    requires Run(t, Lift(c), fuel + 1) == Some(Accept)
    ensures Run(t, c, fuel) == Some(Unconsumed([EndMarker]))
    decreases fuel
  {
    if |c.stack| == 0 {
      assert Lift(c).stack == [EndMarker];
      if |c.input| > 0 && c.input[0] == EndMarker {
        assert Step(t, Lift(c)) == Next(Config([], c.input[1..]));
        assert c.input == [EndMarker];
      }
    } else {
      StepLift(t, c);
      match Step(t, c)
      case Halt(o) =>
      case Next(c') =>
        if fuel > 0 {
          RunLiftAccepts(t, c', fuel - 1);
        }
    }
  }

  /**
    With `$` below the start symbol the parser accepts exactly when `parse`
    would stop with the stack empty and only `$` left: the check it makes at
    the end is one the textbook parser makes by matching `$`.
   */
  lemma EndMarkerAccepts(t: Table, start: char, w: string, fuel: nat)
    ensures ParseWithEndMarker(t, start, w, fuel + 1) == Some(Accept) <==>
            Parse(t, start, w, fuel) == Some(Unconsumed([EndMarker]))
  {
    var c := Config([start], w + [EndMarker]);
    assert Lift(c) == Config([EndMarker, start], w + [EndMarker]);
    if Parse(t, start, w, fuel) == Some(Unconsumed([EndMarker])) {
      RunLift(t, c, fuel);
    }
    if ParseWithEndMarker(t, start, w, fuel + 1) == Some(Accept) {
      RunLiftAccepts(t, c, fuel);
    }
  }
}
