/** The three grammar constructors: union (main.cpp:410-431), product (main.cpp:559-617) and Kleene
    closure (main.cpp:660-766). Each builds a new grammar from a default-constructed one. */
module Constructors {
  import opened Wrappers
  import opened Strings
  import opened Grammars
  import opened Classifier
  import opened Alphabet

  /** The push_back loop that copies a rule list onto the end of another. */
  method AppendRules(rules: seq<Rule>, more: seq<Rule>) returns (r: seq<Rule>)
    ensures r == rules + more
  {
    r := rules;
    for j := 0 to |more|
      invariant r == rules + more[..j]
    {
      r := r + [more[j]];
      assert more[..j + 1] == more[..j] + [more[j]];
    }
    assert more[..|more|] == more;
  }

  // ---------------------------------------------------------------- union

  /** AddProductionRulesUnion (main.cpp:410-416): the incoming rules, then a bridge from the new
      start symbol to the incoming start symbol. */
  function UnionRules(newGram: Grammar, other: Grammar): Grammar {
    newGram.(rules := newGram.rules + other.rules + [Rule(newGram.start, other.start)])
  }

  method AddProductionRulesUnion(newGram: Grammar, other: Grammar) returns (r: Grammar)
    ensures r == UnionRules(newGram, other)
  {
    var rules := AppendRules(newGram.rules, other.rules);
    r := newGram.(rules := rules + [Rule(newGram.start, other.start)]);
  }

  /** CreateGrammarFromUnion (main.cpp:418-431). Both nonterminal calls are handed the second
      grammar's terminals; only the first uses them. */
  function Union(g1: Grammar, g2: Grammar): Grammar {
    var p1 := NonTerminalsUnion(EmptyGrammar, g1, g2.terminals);
    var p2 := NonTerminalsUnion(p1.0, g2, g2.terminals);
    var t1 := p2.0.(terminals := MergeTerminals(p2.0.terminals, p1.1.terminals));
    var t2 := t1.(terminals := MergeTerminals(t1.terminals, p2.1.terminals));
    UnionRules(UnionRules(t2, p1.1), p2.1)
  }

  method CreateGrammarFromUnion(g1: Grammar, g2: Grammar) returns (r: Grammar)
    ensures r == Union(g1, g2)
  {
    var newGram, gram1 := AddNonTerminalsUnion(EmptyGrammar, g1, g2.terminals);
    var gram2;
    newGram, gram2 := AddNonTerminalsUnion(newGram, g2, g2.terminals);
    newGram := AddTerminals(newGram, gram1);
    newGram := AddTerminals(newGram, gram2);
    newGram := AddProductionRulesUnion(newGram, gram1);
    r := AddProductionRulesUnion(newGram, gram2);
  }

  /** The terminals both constructors that merge alphabets end with: those of the first grammar, then
      the new ones of the second, without duplicates. */
  lemma MergedTerminals(g1: Grammar, g2: Grammar)
    ensures var ts := MergeTerminals(MergeTerminals([], g1.terminals), g2.terminals);
      NoDuplicates(ts) && (forall t <- g1.terminals + g2.terminals :: t in ts) &&
      (forall t <- ts :: t in g1.terminals || t in g2.terminals)
  {
    var ts1 := MergeTerminals([], g1.terminals);
    var ts := MergeTerminals(ts1, g2.terminals);
    forall t | t in ts ensures t in g1.terminals || t in g2.terminals {
      var k :| 0 <= k < |ts| && ts[k] == t;
      if k < |ts1| {
        assert ts[..|ts1|][k] == t;
      }
    }
    forall t | t in g1.terminals + g2.terminals ensures t in ts {
      if t in g1.terminals {
        assert t in ts[..|ts1|];
      }
    }
  }

  /** The alphabet of the union: the first grammar's nonterminals renamed away from the second
      grammar's terminals, the new start symbol, then the second grammar's nonterminals renamed away
      from all of those; the merged terminals. */
  lemma UnionAlphabet(g1: Grammar, g2: Grammar)
    ensures var u := Union(g1, g2);
      var n := |g1.nonTerminals|;
      |u.nonTerminals| == n + 1 + |g2.nonTerminals| &&
      (forall k :: 0 <= k < n ==> u.nonTerminals[k] !in g2.terminals && Primed(g1.nonTerminals[k], u.nonTerminals[k])) &&
      u.nonTerminals[n] == u.start && u.start !in u.nonTerminals[..n] && Primed("S", u.start) &&
      AppendedFresh(u.nonTerminals[..n + 1], [], u.nonTerminals[n + 1..], g2.nonTerminals) &&
      u.terminals == MergeTerminals(MergeTerminals([], g1.terminals), g2.terminals)
  {
    var p1 := NonTerminalsUnion(EmptyGrammar, g1, g2.terminals);
    UnionParts(g1, g2);
    UnionFirstAlphabet(g1, g2.terminals);
    UnionSecondAlphabet(g1, g2);
    var nts := p1.0.nonTerminals;
    var u := Union(g1, g2);
    var n := |g1.nonTerminals|;
    assert u.nonTerminals[..n] == nts[..n];
    forall k | 0 <= k < n
      ensures u.nonTerminals[k] !in g2.terminals && Primed(g1.nonTerminals[k], u.nonTerminals[k])
    {
      assert u.nonTerminals[k] == nts[k];
    }
    assert u.nonTerminals[n] == nts[n];
  }

  /** The second call keeps what the first built and appends the second grammar's nonterminals,
      each fresh. */
  lemma UnionSecondAlphabet(g1: Grammar, g2: Grammar)
    ensures var p1 := NonTerminalsUnion(EmptyGrammar, g1, g2.terminals);
      var u := Union(g1, g2);
      var n := |p1.0.nonTerminals|;
      |u.nonTerminals| == n + |g2.nonTerminals| && u.nonTerminals[..n] == p1.0.nonTerminals &&
      AppendedFresh(p1.0.nonTerminals, [], u.nonTerminals[n..], g2.nonTerminals)
  {
    var p1 := NonTerminalsUnion(EmptyGrammar, g1, g2.terminals);
    UnionParts(g1, g2);
    MergeShape(p1.0, g2, g2.start, 0);
    MergeAppendsFresh(p1.0, g2, g2.start, 0);
    assert g2.nonTerminals[0..] == g2.nonTerminals;
  }

  /** What the union keeps of each call: the nonterminals and start symbol of the second call, and
      the terminals of the two incoming grammars. */
  lemma UnionParts(g1: Grammar, g2: Grammar)
    ensures var p1 := NonTerminalsUnion(EmptyGrammar, g1, g2.terminals);
      var u := Union(g1, g2);
      u.nonTerminals == MergeFrom(p1.0, g2, g2.start, 0).newGram.nonTerminals &&
      u.start == p1.0.start && p1.0.terminals == [] &&
      u.terminals == MergeTerminals(MergeTerminals([], g1.terminals), g2.terminals)
  {
    var p1 := NonTerminalsUnion(EmptyGrammar, g1, g2.terminals);
    var m1 := SeedFrom(EmptyGrammar, g1, g2.terminals, g1.start, 0);
    assert p1.1.terminals == g1.terminals;
    assert p1.0.terminals == [];
    var p2 := NonTerminalsUnion(p1.0, g2, g2.terminals);
    assert p1.0.nonTerminals != [];
    assert p2.0 == MergeFrom(p1.0, g2, g2.start, 0).newGram;
    assert p2.1.terminals == g2.terminals;
  }

  /** The first call: the first grammar's nonterminals renamed away from `ts`, then the new start
      symbol, primed from `S` and different from all of them. */
  lemma UnionFirstAlphabet(g1: Grammar, ts: seq<string>)
    ensures var p1 := NonTerminalsUnion(EmptyGrammar, g1, ts);
      var n := |g1.nonTerminals|;
      var nts := p1.0.nonTerminals;
      |nts| == n + 1 && nts[n] == p1.0.start && p1.0.start !in nts[..n] && Primed("S", p1.0.start) &&
      forall k :: 0 <= k < n ==> nts[k] !in ts && Primed(g1.nonTerminals[k], nts[k])
  {
    var m1 := SeedFrom(EmptyGrammar, g1, ts, g1.start, 0);
    var seeded := m1.newGram.nonTerminals;
    var n := |g1.nonTerminals|;
    SeedIntoEmpty(g1, ts);
    assert m1.newGram.start == "";
    assert "" + "S" == "S";
    var s := FreshName("S", seeded);
    var p1 := NonTerminalsUnion(EmptyGrammar, g1, ts);
    assert p1.0.nonTerminals == seeded + [s] && p1.0.start == s;
    assert (seeded + [s])[..n] == seeded;
  }

  /** Seeding into the default grammar renames each nonterminal away from `ts`. */
  lemma SeedIntoEmpty(g1: Grammar, ts: seq<string>)
    ensures var seeded := SeedFrom(EmptyGrammar, g1, ts, g1.start, 0).newGram.nonTerminals;
      |seeded| == |g1.nonTerminals| &&
      forall k :: 0 <= k < |seeded| ==> seeded[k] !in ts && Primed(g1.nonTerminals[k], seeded[k])
  {
    SeedAvoids(EmptyGrammar, g1, ts, g1.start, 0);
  }

  /** The rules of the union: the first grammar's rules, the bridge to its start symbol, the second
      grammar's rules and the bridge to its (followed) start symbol. The first bridge targets the
      first grammar's start symbol as given: the first branch of the renamer does not follow it. */
  lemma UnionRuleLayout(g1: Grammar, g2: Grammar)
    ensures var u := Union(g1, g2);
      var n1 := |g1.rules|;
      |u.rules| == n1 + |g2.rules| + 2 &&
      u.rules[n1] == Rule(u.start, g1.start) && u.rules[|u.rules| - 1].lhs == u.start &&
      (forall k :: 0 <= k < n1 ==> u.rules[k] == NonTerminalsUnion(EmptyGrammar, g1, g2.terminals).1.rules[k])
  {
    var p1 := NonTerminalsUnion(EmptyGrammar, g1, g2.terminals);
    var p2 := NonTerminalsUnion(p1.0, g2, g2.terminals);
    UnionRulesConcat(g1, g2);
    var u := Union(g1, g2);
    assert u.rules[..|g1.rules|] == p1.1.rules;
  }

  /** The second bridge targets the second grammar's start symbol as renamed: when that start symbol
      is one of its nonterminals, the bridge leads to one of the names the second call appended. */
  lemma UnionFollowsSecondStart(g1: Grammar, g2: Grammar)
    requires g2.start in g2.nonTerminals
    ensures var u := Union(g1, g2);
      |u.rules| > 0 && u.rules[|u.rules| - 1].rhs in u.nonTerminals[|g1.nonTerminals| + 1..]
  {
    var p1 := NonTerminalsUnion(EmptyGrammar, g1, g2.terminals);
    var p2 := NonTerminalsUnion(p1.0, g2, g2.terminals);
    UnionRulesConcat(g1, g2);
    UnionParts(g1, g2);
    UnionFirstAlphabet(g1, g2.terminals);
    var m2 := MergeFrom(p1.0, g2, g2.start, 0);
    assert p1.0.nonTerminals != [];
    assert p2.1.start == m2.tracked;
    assert g2.nonTerminals[0..] == g2.nonTerminals;
    MergeFollowsStart(p1.0, g2, g2.start, 0);
  }

  /** The rule list of the union, as one concatenation. */
  lemma UnionRulesConcat(g1: Grammar, g2: Grammar)
    ensures var p1 := NonTerminalsUnion(EmptyGrammar, g1, g2.terminals);
      var p2 := NonTerminalsUnion(p1.0, g2, g2.terminals);
      var u := Union(g1, g2);
      u.start == p1.0.start && |p1.1.rules| == |g1.rules| && |p2.1.rules| == |g2.rules| &&
      u.rules == p1.1.rules + [Rule(u.start, g1.start)] + p2.1.rules + [Rule(u.start, p2.1.start)]
  {
    var p1 := NonTerminalsUnion(EmptyGrammar, g1, g2.terminals);
    var p2 := NonTerminalsUnion(p1.0, g2, g2.terminals);
    assert p1.0.rules == [] && p1.1.start == g1.start && |p1.1.rules| == |g1.rules| by {
      var m1 := SeedFrom(EmptyGrammar, g1, g2.terminals, g1.start, 0);
      assert p1.1 == m1.other;
    }
    assert p2.0.rules == [] && p2.0.start == p1.0.start && |p2.1.rules| == |g2.rules| by {
      assert p1.0.nonTerminals != [];
      var m2 := MergeFrom(p1.0, g2, g2.start, 0);
      assert p2.0 == m2.newGram;
    }
    assert [] + p1.1.rules == p1.1.rules;
  }

  // ---------------------------------------------------------------- product

  /** AddProductionRulesProduct012 (main.cpp:559-568): both rule lists, then one rule from the new
      start symbol to the two start symbols side by side. */
  function Product012Rules(newGram: Grammar, g1: Grammar, g2: Grammar): Grammar {
    newGram.(rules := newGram.rules + g1.rules + g2.rules + [Rule(newGram.start, g1.start + g2.start)])
  }

  method AddProductionRulesProduct012(newGram: Grammar, g1: Grammar, g2: Grammar) returns (r: Grammar)
    ensures r == Product012Rules(newGram, g1, g2)
  {
    var rules := AppendRules(newGram.rules, g1.rules);
    rules := AppendRules(rules, g2.rules);
    r := newGram.(rules := rules + [Rule(newGram.start, g1.start + g2.start)]);
  }

  /** A right side in which no nonterminal of `nts` occurs: the rule ends a derivation. */
  predicate IsExit(rhs: string, nts: seq<string>) {
    forall nt <- nts :: Find(rhs, nt).None?
  }

  /** The nonterminal search with `break` of main.cpp:572-577 and main.cpp:716-721. */
  method HasNonTerminal(rhs: string, nts: seq<string>) returns (found: bool)
    ensures found <==> !IsExit(rhs, nts)
  {
    found := false;
    var i := 0;
    while i < |nts| && !found
      invariant 0 <= i <= |nts|
      invariant found <==> exists j :: 0 <= j < i && Find(rhs, nts[j]).Some?
    {
      var at := Find(rhs, nts[i]);
      if at.Some? {
        found := true;
      }
      i := i + 1;
    }
  }

  /** A rule, with `s` appended to its right side when that side is an exit. */
  function BridgeOne(q: Rule, nts: seq<string>, s: string): Rule {
    if IsExit(q.rhs, nts) then Rule(q.lhs, q.rhs + s) else q
  }

  /** Each rule bridged, in place. */
  function Bridged(rules: seq<Rule>, nts: seq<string>, s: string): (r: seq<Rule>)
    ensures |r| == |rules|
    ensures forall k :: 0 <= k < |rules| ==> r[k] == BridgeOne(rules[k], nts, s)
  {
    if rules == [] then []
    else [BridgeOne(rules[0], nts, s)] + Bridged(rules[1..], nts, s)
  }

  /** AddProductionRulesProduct3 (main.cpp:570-590): the first grammar's rules, each exit extended by
      the second grammar's start symbol, then the second grammar's rules. The extension is made in
      the first grammar's own list too. */
  function Product3Rules(newGram: Grammar, g1: Grammar, g2: Grammar): Grammar {
    newGram.(rules := newGram.rules + Bridged(g1.rules, g1.nonTerminals, g2.start) + g2.rules)
  }

  method AddProductionRulesProduct3(newGram: Grammar, g1: Grammar, g2: Grammar) returns (r: Grammar, g1': Grammar)
    ensures r == Product3Rules(newGram, g1, g2)
    ensures g1' == g1.(rules := Bridged(g1.rules, g1.nonTerminals, g2.start))
  {
    var rules := newGram.rules;
    var own := g1.rules;
    for j := 0 to |g1.rules|
      invariant |own| == |g1.rules| && |rules| == |newGram.rules| + j
      invariant forall k :: 0 <= k < j ==> own[k] == BridgeOne(g1.rules[k], g1.nonTerminals, g2.start)
      invariant forall k :: j <= k < |own| ==> own[k] == g1.rules[k]
      invariant rules[..|newGram.rules|] == newGram.rules
      invariant forall k :: 0 <= k < j ==> rules[|newGram.rules| + k] == own[k]
    {
      var found := HasNonTerminal(own[j].rhs, g1.nonTerminals);
      if !found {
        own := own[j := Rule(own[j].lhs, own[j].rhs + g2.start)];
      }
      rules := rules + [own[j]];
    }
    assert own == Bridged(g1.rules, g1.nonTerminals, g2.start);
    assert rules == newGram.rules + own;
    rules := AppendRules(rules, g2.rules);
    r := newGram.(rules := rules);
    g1' := g1.(rules := own);
  }

  /** The product of two grammars that are not both regular: the union's alphabet construction with
      the product's rules (main.cpp:604-613). */
  function ProductByUnion(g1: Grammar, g2: Grammar): Grammar {
    var p1 := NonTerminalsUnion(EmptyGrammar, g1, g2.terminals);
    var p2 := NonTerminalsUnion(p1.0, g2, g2.terminals);
    var t1 := p2.0.(terminals := MergeTerminals(p2.0.terminals, p1.1.terminals));
    var t2 := t1.(terminals := MergeTerminals(t1.terminals, p2.1.terminals));
    Product012Rules(t2, p1.1, p2.1)
  }

  /** The product of two regular grammars (main.cpp:596-603). The start symbols the renamer follows are
      the global grammars' (`globals`); the rules are bridged with the second argument's own start
      symbol, which the renamer left as it was. */
  function ProductOfRegular(g1: Grammar, g2: Grammar, globals: Globals): (Grammar, Globals) {
    var p1 := NonTerminalsProduct3(EmptyGrammar, g1, g2.terminals, globals);
    var p2 := NonTerminalsProduct3(p1.0, g2, g2.terminals, p1.2);
    var t1 := p2.0.(terminals := MergeTerminals(p2.0.terminals, p1.1.terminals));
    var t2 := t1.(terminals := MergeTerminals(t1.terminals, p2.1.terminals));
    (Product3Rules(t2, p1.1, p2.1), p2.2)
  }

  /** CreateGrammarFromProduct (main.cpp:592-617): the second grammar is classified only when the
      first is regular; a failed classification is the constructor's failure. */
  function Product(g1: Grammar, g2: Grammar, globals: Globals): Result<(Grammar, Globals)> {
    match Classify(g1)
    case Err(e) => Err(e)
    case Ok(t1) =>
      if t1 != Type3 then Ok((ProductByUnion(g1, g2), globals))
      else match Classify(g2)
        case Err(e) => Err(e)
        case Ok(t2) => Ok(if t2 == Type3 then ProductOfRegular(g1, g2, globals) else (ProductByUnion(g1, g2), globals))
  }

  method CreateGrammarFromProduct(g1: Grammar, g2: Grammar, globals: Globals) returns (r: Result<(Grammar, Globals)>)
    ensures r == Product(g1, g2, globals)
  {
    var newGram := EmptyGrammar;
    var gram1, gram2 := g1, g2;
    var type1 := FindGrammarType(gram1);
    if type1.Err? {
      return Err(type1.failure);
    }
    var regular := false;
    if type1.value == Type3 {
      var type2 := FindGrammarType(gram2);
      if type2.Err? {
        return Err(type2.failure);
      }
      regular := type2.value == Type3;
    }
    var gl := globals;
    if regular {
      newGram, gram1, gl := AddNonTerminalsProduct3(newGram, gram1, gram2.terminals, gl);
      newGram, gram2, gl := AddNonTerminalsProduct3(newGram, gram2, gram2.terminals, gl);
      newGram := AddTerminals(newGram, gram1);
      newGram := AddTerminals(newGram, gram2);
      newGram, gram1 := AddProductionRulesProduct3(newGram, gram1, gram2);
    } else {
      newGram, gram1 := AddNonTerminalsUnion(newGram, gram1, gram2.terminals);
      newGram, gram2 := AddNonTerminalsUnion(newGram, gram2, gram2.terminals);
      newGram := AddTerminals(newGram, gram1);
      newGram := AddTerminals(newGram, gram2);
      newGram := AddProductionRulesProduct012(newGram, gram1, gram2);
    }
    return Ok((newGram, gl));
  }

  /** A first grammar that classifies below Type3 decides the outcome alone: the second grammar is
      never classified, so the product exists even when the second grammar cannot be read. */
  lemma ProductSkipsSecondClassification(g1: Grammar, g2: Grammar, globals: Globals)
    requires Classify(g1).Ok? && Classify(g1).value != Type3
    ensures Product(g1, g2, globals) == Ok((ProductByUnion(g1, g2), globals))
  {
  }

  /** The product fails exactly when a grammar it classifies fails. */
  lemma ProductFailure(g1: Grammar, g2: Grammar, globals: Globals)
    ensures Product(g1, g2, globals).Err? <==> Classify(g1).Err? || (Classify(g1) == Ok(Type3) && Classify(g2).Err?)
  {
  }

  /** The non-regular product has the union's alphabet and start symbol; its rules replace the union's
      two bridges by one rule to the two start symbols side by side. */
  lemma ProductByUnionMatchesUnion(g1: Grammar, g2: Grammar)
    ensures var p := ProductByUnion(g1, g2);
      var u := Union(g1, g2);
      var n1 := |g1.rules|;
      var n2 := |g2.rules|;
      p.nonTerminals == u.nonTerminals && p.terminals == u.terminals && p.start == u.start &&
      |p.rules| == n1 + n2 + 1 && |u.rules| == n1 + n2 + 2 &&
      p.rules[..n1] == u.rules[..n1] && p.rules[n1..n1 + n2] == u.rules[n1 + 1..n1 + 1 + n2] &&
      p.rules[n1 + n2] == Rule(u.start, u.rules[n1].rhs + u.rules[n1 + n2 + 1].rhs)
  {
    var p1 := NonTerminalsUnion(EmptyGrammar, g1, g2.terminals);
    var p2 := NonTerminalsUnion(p1.0, g2, g2.terminals);
    assert p2.0.rules == [] && p2.0.start == p1.0.start;
    assert |p1.1.rules| == |g1.rules| && |p2.1.rules| == |g2.rules|;
  }

  /** The regular product: the nonterminals of both grammars and no fresh start symbol; the start
      symbol is the first grammar's, followed through its renaming; the first grammar's rules with
      every exit extended by the second grammar's start symbol as given, then the second grammar's
      renamed rules. */
  lemma RegularProductLayout(g1: Grammar, g2: Grammar, globals: Globals)
    ensures var (p, gl) := ProductOfRegular(g1, g2, globals);
      var o1 := NonTerminalsProduct3(EmptyGrammar, g1, g2.terminals, globals).1;
      var n1 := |g1.rules|;
      |p.nonTerminals| == |g1.nonTerminals| + |g2.nonTerminals| && p.start == gl.start1 &&
      |p.rules| == n1 + |g2.rules| &&
      (forall k :: 0 <= k < n1 ==>
        (p.rules[k].lhs == o1.rules[k].lhs &&
         p.rules[k].rhs == if IsExit(o1.rules[k].rhs, o1.nonTerminals) then o1.rules[k].rhs + g2.start else o1.rules[k].rhs)) &&
      p.terminals == MergeTerminals(MergeTerminals([], g1.terminals), g2.terminals)
  {
    var p1 := NonTerminalsProduct3(EmptyGrammar, g1, g2.terminals, globals);
    var p2 := NonTerminalsProduct3(p1.0, g2, g2.terminals, p1.2);
    if g1.nonTerminals == [] {
      // Nothing was appended, so the second call takes the first branch again.
      assert p1.0.nonTerminals == [] && p2.0.rules == [] && p2.0.start == p2.2.start1;
    } else {
      assert p2.0.rules == [] && p2.0.start == p1.0.start && p1.0.start == p1.2.start1 && p2.2.start1 == p1.2.start1;
    }
    assert p2.1.start == g2.start;
  }

  /** When the first global start symbol is one of the first grammar's nonterminals, the regular
      product's start symbol is one of the names that grammar contributed: the renamer follows it. */
  lemma RegularProductStartIsOwn(g1: Grammar, g2: Grammar, globals: Globals)
    requires globals.start1 in g1.nonTerminals
    ensures var (p, gl) := ProductOfRegular(g1, g2, globals);
      p.start in p.nonTerminals[..|g1.nonTerminals|]
  {
    var p1 := NonTerminalsProduct3(EmptyGrammar, g1, g2.terminals, globals);
    var m1 := SeedFrom(EmptyGrammar, g1, g2.terminals, globals.start1, 0);
    SeedFollowsStart(EmptyGrammar, g1, g2.terminals, globals.start1, 0);
    assert g1.nonTerminals[0..] == g1.nonTerminals;
    assert m1.newGram.nonTerminals[0..] == m1.newGram.nonTerminals;
    assert p1.0.nonTerminals == m1.newGram.nonTerminals && p1.0.nonTerminals != [];
    assert p1.2.start1 in p1.0.nonTerminals;
    var m2 := MergeFrom(p1.0, g2, p1.2.start2, 0);
    MergeShape(p1.0, g2, p1.2.start2, 0);
    var (p, gl) := ProductOfRegular(g1, g2, globals);
    assert p.nonTerminals == m2.newGram.nonTerminals && gl.start1 == p1.2.start1;
    RegularProductLayout(g1, g2, globals);
    assert p.nonTerminals[..|g1.nonTerminals|] == p1.0.nonTerminals;
  }

  /** Two one-rule grammars sharing the start symbol `S`: the second grammar's `S` becomes `S'` and the
      second global start follows it, but the first grammar's exit is bridged to `S`, its own start
      symbol. The product's only rule from its start `S` is `S -> aS`, which keeps an `S` in every
      sentential form, so the product derives no terminal word at all instead of `ab`. */
  lemma RegularProductBridgesToStaleStart()
    ensures var g1 := Grammar(["S"], ["a"], [Rule("S", "a")], "S");
      var g2 := Grammar(["S"], ["b"], [Rule("S", "b")], "S");
      ProductOfRegular(g1, g2, Globals("S", "S")) ==
        (Grammar(["S", "S'"], ["a", "b"], [Rule("S", "aS"), Rule("S'", "b")], "S"), Globals("S", "S'"))
  {
    var g1 := Grammar(["S"], ["a"], [Rule("S", "a")], "S");
    StaleFirstGrammar();
    StaleSecondGrammar();
    StaleTerminals();
    StaleBridge();
    var g2 := Grammar(["S"], ["b"], [Rule("S", "b")], "S");
    var p1 := NonTerminalsProduct3(EmptyGrammar, g1, g2.terminals, Globals("S", "S"));
    var p2 := NonTerminalsProduct3(p1.0, g2, g2.terminals, p1.2);
    assert p2.0 == Grammar(["S", "S'"], [], [], "S");
    var t1 := p2.0.(terminals := MergeTerminals(p2.0.terminals, p1.1.terminals));
    assert t1 == Grammar(["S", "S'"], ["a"], [], "S");
    var t2 := t1.(terminals := MergeTerminals(t1.terminals, p2.1.terminals));
    assert t2 == Grammar(["S", "S'"], ["a", "b"], [], "S");
    assert p1.1 == g1 && p2.1.start == "S" && p2.1.rules == [Rule("S'", "b")] && p2.2 == Globals("S", "S'");
    assert t2.rules + Bridged(g1.rules, g1.nonTerminals, "S") + p2.1.rules == [Rule("S", "aS"), Rule("S'", "b")];
    assert ProductOfRegular(g1, g2, Globals("S", "S")) == (Product3Rules(t2, p1.1, p2.1), p2.2);
  }

  lemma StaleTerminals()
    ensures MergeTerminals([], ["a"]) == ["a"] && MergeTerminals(["a"], ["b"]) == ["a", "b"]
  {
    assert "b" != "a";
    assert ["b"][1..] == [] && ["a"][1..] == [];
  }

  /** The exit `S -> a` is bridged to `S`. */
  lemma StaleBridge()
    ensures Bridged([Rule("S", "a")], ["S"], "S") == [Rule("S", "aS")]
  {
    FindOneInOne('a', 'S');
    assert IsExit("a", ["S"]);
    assert "a" + "S" == "aS" && [Rule("S", "a")][1..] == [];
    assert Bridged([Rule("S", "a")], ["S"], "S") == [Rule("S", "aS")] + Bridged([], ["S"], "S");
  }

  lemma StaleFirstGrammar()
    ensures var g1 := Grammar(["S"], ["a"], [Rule("S", "a")], "S");
      NonTerminalsProduct3(EmptyGrammar, g1, ["b"], Globals("S", "S")) == (Grammar(["S"], [], [], "S"), g1, Globals("S", "S"))
  {
    var g1 := Grammar(["S"], ["a"], [Rule("S", "a")], "S");
    assert "S" !in ["b"] by { assert "S" != "b"; }
    assert RenameFrom("S", ["b"], g1.rules, "S") == Renaming("S", g1.rules, "S");
    assert [] + ["S"] == ["S"] && g1.nonTerminals[0 := "S"] == ["S"];
    var s1 := SeedFrom(EmptyGrammar, g1, ["b"], "S", 0);
    assert s1 == SeedFrom(Grammar(["S"], [], [], ""), g1, ["b"], "S", 1);
  }

  lemma StaleSecondGrammar()
    ensures var g2 := Grammar(["S"], ["b"], [Rule("S", "b")], "S");
      NonTerminalsProduct3(Grammar(["S"], [], [], "S"), g2, ["b"], Globals("S", "S")) ==
        (Grammar(["S", "S'"], [], [], "S"), Grammar(["S'"], ["b"], [Rule("S'", "b")], "S"), Globals("S", "S'"))
  {
    var g2 := Grammar(["S"], ["b"], [Rule("S", "b")], "S");
    FindOneInOne('S', 'S');
    FindOneInOne('b', 'S');
    var once := Renaming("S'", [Rule("S'", "b")], "S'");
    assert Splice("S", "S") == "S'";
    assert Splice("b", "S") == "b";
    assert SpliceRules(g2.rules, "S") == [Rule("S'", "b")];
    assert "S'" !in ["S"] + [] by { assert "S'" != "S"; }
    assert RenameFrom("S'", ["S"] + [], [Rule("S'", "b")], "S'") == once;
    assert RenameFrom("S", ["S"] + [], g2.rules, "S") == once;
    assert ["S"] + ["S'"] == ["S", "S'"] && g2.nonTerminals[0 := "S'"] == ["S'"];
    var s2 := MergeFrom(Grammar(["S"], [], [], "S"), g2, "S", 0);
    assert s2 == MergeFrom(Grammar(["S", "S'"], [], [], "S"), Grammar(["S'"], ["b"], [Rule("S'", "b")], "S"), "S'", 1);
  }

  // ---------------------------------------------------------------- closure

  /** The two rules added per terminal by AddProductionRulesClosure01 (the loop of main.cpp:671-674). */
  function TerminalRules(x: string, s: string, ts: seq<string>): (r: seq<Rule>)
    ensures |r| == 2 * |ts|
    ensures forall i :: 0 <= i < |ts| ==> r[2 * i] == Rule(x + ts[i], s + ts[i]) && r[2 * i + 1] == Rule(x + ts[i], x + s + ts[i])
  {
    if ts == [] then []
    else
      var rest := TerminalRules(x, s, ts[1..]);
      var r := [Rule(x + ts[0], s + ts[0]), Rule(x + ts[0], x + s + ts[0])] + rest;
      assert forall i :: 1 <= i < |ts| ==> ts[i] == ts[1..][i - 1];
      assert forall i :: 1 <= i < |ts| ==> r[2 * i] == rest[2 * (i - 1)];
      assert forall i :: 1 <= i < |ts| ==> r[2 * i + 1] == rest[2 * (i - 1) + 1];
      r
  }

  /** AddProductionRulesClosure01 (main.cpp:660-676): the incoming rules; from the fresh start symbol
      the incoming start symbol, the empty word and the helper followed by the incoming start; for
      each incoming terminal `t`, `Xt -> St` and `Xt -> XSt`. The helper is the last nonterminal. */
  function Closure01Rules(newGram: Grammar, other: Grammar): Grammar
    requires |newGram.nonTerminals| > 0
  {
    var x := newGram.nonTerminals[|newGram.nonTerminals| - 1];
    newGram.(rules := newGram.rules + other.rules +
      [Rule(newGram.start, other.start), Rule(newGram.start, EmptyWord), Rule(newGram.start, x + other.start)] +
      TerminalRules(x, other.start, other.terminals))
  }

  method AddProductionRulesClosure01(newGram: Grammar, other: Grammar) returns (r: Grammar)
    requires |newGram.nonTerminals| > 0
    ensures r == Closure01Rules(newGram, other)
  {
    var rules := AppendRules(newGram.rules, other.rules);
    var x := newGram.nonTerminals[|newGram.nonTerminals| - 1];
    rules := rules + [Rule(newGram.start, other.start), Rule(newGram.start, EmptyWord), Rule(newGram.start, x + other.start)];
    var prefix := rules;
    for j := 0 to |other.terminals|
      invariant rules == prefix + TerminalRules(x, other.start, other.terminals[..j])
    {
      var t := other.terminals[j];
      rules := rules + [Rule(x + t, other.start + t), Rule(x + t, x + other.start + t)];
      TerminalRulesSnoc(x, other.start, other.terminals[..j], t);
      assert other.terminals[..j + 1] == other.terminals[..j] + [t];
    }
    assert other.terminals[..|other.terminals|] == other.terminals;
    r := newGram.(rules := rules);
  }

  lemma {:induction false} TerminalRulesSnoc(x: string, s: string, ts: seq<string>, t: string)
    ensures TerminalRules(x, s, ts + [t]) == TerminalRules(x, s, ts) + [Rule(x + t, s + t), Rule(x + t, x + s + t)]
  {
    if ts != [] {
      assert (ts + [t])[1..] == ts[1..] + [t];
      TerminalRulesSnoc(x, s, ts[1..], t);
    } else {
      assert [] + [t] == [t];
    }
  }

  /** AddProductionRulesClosure2 (main.cpp:701-708): the incoming rules, `S -> S start` and `S -> |`. */
  function Closure2Rules(newGram: Grammar, other: Grammar): Grammar {
    newGram.(rules := newGram.rules + other.rules +
      [Rule(newGram.start, newGram.start + other.start), Rule(newGram.start, EmptyWord)])
  }

  method AddProductionRulesClosure2(newGram: Grammar, other: Grammar) returns (r: Grammar)
    ensures r == Closure2Rules(newGram, other)
  {
    var rules := AppendRules(newGram.rules, other.rules);
    r := newGram.(rules := rules + [Rule(newGram.start, newGram.start + other.start), Rule(newGram.start, EmptyWord)]);
  }

  /** The exits of `rules`, in order, each with `s` appended to its right side. */
  function ExitCopies(rules: seq<Rule>, nts: seq<string>, s: string): (r: seq<Rule>)
    ensures |r| <= |rules|
  {
    if rules == [] then []
    else
      var q := rules[0];
      (if IsExit(q.rhs, nts) then [Rule(q.lhs, q.rhs + s)] else []) + ExitCopies(rules[1..], nts, s)
  }

  /** The copies are exactly the exits, each extended by `s`. */
  lemma {:induction false} ExitCopiesExactly(rules: seq<Rule>, nts: seq<string>, s: string)
    ensures forall c <- ExitCopies(rules, nts, s) :: exists q <- rules :: IsExit(q.rhs, nts) && c == Rule(q.lhs, q.rhs + s)
    ensures forall q <- rules :: IsExit(q.rhs, nts) ==> Rule(q.lhs, q.rhs + s) in ExitCopies(rules, nts, s)
  {
    if rules != [] {
      var q := rules[0];
      ExitCopiesExactly(rules[1..], nts, s);
      assert forall p <- rules[1..] :: p in rules;
      assert forall p <- rules :: p == q || p in rules[1..];
    }
  }

  /** AddProductionRulesClosure3 (main.cpp:710-732): the incoming rules, a copy of each exit extended by
      the incoming start symbol (the extension is also made in the incoming grammar's own list), then
      `S -> start` and `S -> |`. */
  function Closure3Rules(newGram: Grammar, other: Grammar): Grammar {
    newGram.(rules := newGram.rules + other.rules + ExitCopies(other.rules, other.nonTerminals, other.start) +
      [Rule(newGram.start, other.start), Rule(newGram.start, EmptyWord)])
  }

  method AddProductionRulesClosure3(newGram: Grammar, other: Grammar) returns (r: Grammar, other': Grammar)
    ensures r == Closure3Rules(newGram, other)
    ensures other' == other.(rules := Bridged(other.rules, other.nonTerminals, other.start))
  {
    var rules := AppendRules(newGram.rules, other.rules);
    var prefix := rules;
    var own := other.rules;
    for j := 0 to |other.rules|
      invariant |own| == |other.rules|
      invariant forall k :: 0 <= k < j ==> own[k] == BridgeOne(other.rules[k], other.nonTerminals, other.start)
      invariant forall k :: j <= k < |own| ==> own[k] == other.rules[k]
      invariant rules == prefix + ExitCopies(other.rules[..j], other.nonTerminals, other.start)
    {
      var found := HasNonTerminal(own[j].rhs, other.nonTerminals);
      ExitCopiesSnoc(other.rules[..j], other.rules[j], other.nonTerminals, other.start);
      assert other.rules[..j + 1] == other.rules[..j] + [other.rules[j]];
      if !found {
        own := own[j := Rule(own[j].lhs, own[j].rhs + other.start)];
        rules := rules + [own[j]];
      }
    }
    assert other.rules[..|other.rules|] == other.rules;
    assert own == Bridged(other.rules, other.nonTerminals, other.start);
    r := newGram.(rules := rules + [Rule(newGram.start, other.start), Rule(newGram.start, EmptyWord)]);
    other' := other.(rules := own);
  }

  lemma {:induction false} ExitCopiesSnoc(rules: seq<Rule>, q: Rule, nts: seq<string>, s: string)
    ensures ExitCopies(rules + [q], nts, s) ==
      ExitCopies(rules, nts, s) + (if IsExit(q.rhs, nts) then [Rule(q.lhs, q.rhs + s)] else [])
  {
    if rules != [] {
      assert (rules + [q])[1..] == rules[1..] + [q];
      ExitCopiesSnoc(rules[1..], q, nts, s);
    } else {
      assert [] + [q] == [q];
    }
  }

  /** Closure of a Type0 or Type1 grammar (main.cpp:739-746). */
  function Closure01(g: Grammar): Grammar {
    var n := NonTerminalsClosure01(EmptyGrammar, g);
    Closure01Rules(n.(terminals := MergeTerminals(n.terminals, g.terminals)), g)
  }

  /** Closure of a Type2 grammar (main.cpp:747-753). */
  function Closure2(g: Grammar): Grammar {
    var n := NonTerminalsClosure23(EmptyGrammar, g);
    Closure2Rules(n.(terminals := MergeTerminals(n.terminals, g.terminals)), g)
  }

  /** Closure of a Type3 grammar (main.cpp:754-761). */
  function Closure3(g: Grammar): Grammar {
    var n := NonTerminalsClosure23(EmptyGrammar, g);
    Closure3Rules(n.(terminals := MergeTerminals(n.terminals, g.terminals)), g)
  }

  /** CreateGrammarFromClosure (main.cpp:734-766): the construction the classification picks; a
      grammar without rules gives the default-constructed grammar. */
  function Closure(g: Grammar): Result<Grammar> {
    match Classify(g)
    case Err(e) => Err(e)
    case Ok(t) =>
      Ok(match t
         case TypeNull => EmptyGrammar
         case Type0 => Closure01(g)
         case Type1 => Closure01(g)
         case Type2 => Closure2(g)
         case Type3 => Closure3(g))
  }

  method CreateGrammarFromClosure(g: Grammar) returns (r: Result<Grammar>)
    ensures r == Closure(g)
  {
    var t := FindGrammarType(g);
    if t.Err? {
      return Err(t.failure);
    }
    var newGram := EmptyGrammar;
    match t.value {
      case TypeNull =>
      case Type0 =>
        newGram := AddNonTerminalsClosure01(newGram, g);
        newGram := AddTerminals(newGram, g);
        newGram := AddProductionRulesClosure01(newGram, g);
      case Type1 =>
        newGram := AddNonTerminalsClosure01(newGram, g);
        newGram := AddTerminals(newGram, g);
        newGram := AddProductionRulesClosure01(newGram, g);
      case Type2 =>
        newGram := AddNonTerminalsClosure23(newGram, g);
        newGram := AddTerminals(newGram, g);
        newGram := AddProductionRulesClosure2(newGram, g);
      case Type3 =>
        newGram := AddNonTerminalsClosure23(newGram, g);
        newGram := AddTerminals(newGram, g);
        var gram;
        newGram, gram := AddProductionRulesClosure3(newGram, g);
    }
    return Ok(newGram);
  }

  /** The Type0/Type1 closure: the nonterminals are the incoming ones, then a fresh start symbol `S`
      and a fresh helper `X`, both primed until new; the incoming rules come first, then the three
      rules from `S` and two rules per terminal. */
  lemma Closure01Layout(g: Grammar)
    ensures var c := Closure01(g);
      var n := |g.rules|;
      var x := c.nonTerminals[|c.nonTerminals| - 1];
      c.nonTerminals == g.nonTerminals + [c.start, x] &&
      c.start !in g.nonTerminals && Primed("S", c.start) && x !in g.nonTerminals && x != c.start && Primed("X", x) &&
      |c.rules| == n + 3 + 2 * |g.terminals| && c.rules[..n] == g.rules &&
      c.rules[n] == Rule(c.start, g.start) && c.rules[n + 1] == Rule(c.start, EmptyWord) &&
      c.rules[n + 2] == Rule(c.start, x + g.start) &&
      (forall i :: 0 <= i < |g.terminals| ==>
        c.rules[n + 3 + 2 * i] == Rule(x + g.terminals[i], g.start + g.terminals[i]) &&
        c.rules[n + 4 + 2 * i] == Rule(x + g.terminals[i], x + g.start + g.terminals[i]))
  {
    Closure01Names(g);
    var c := Closure01(g);
    var x := c.nonTerminals[|c.nonTerminals| - 1];
    Closure01RuleList(g, c.start, x);
  }

  /** The nonterminals of the Type0/Type1 closure. */
  lemma Closure01Names(g: Grammar)
    ensures var c := Closure01(g);
      var x := c.nonTerminals[|c.nonTerminals| - 1];
      c.nonTerminals == g.nonTerminals + [c.start, x] &&
      c.start !in g.nonTerminals && Primed("S", c.start) && x !in g.nonTerminals && x != c.start && Primed("X", x)
  {
    var c := Closure01(g);
    var nts := [] + g.nonTerminals;
    assert nts == g.nonTerminals;
    assert "" + "S" == "S";
    var s := FreshName("S", nts);
    var x := FreshName("X", nts + [s]);
    assert c.nonTerminals == g.nonTerminals + [s] + [x];
    assert x != s by { assert s in nts + [s]; }
    assert x !in g.nonTerminals by { assert forall y <- g.nonTerminals :: y in nts + [s]; }
  }

  /** The rules of the Type0/Type1 closure, given its start symbol `s` and helper `x`. */
  lemma Closure01RuleList(g: Grammar, s: string, x: string)
    requires var c := Closure01(g);
      c.start == s && c.nonTerminals[|c.nonTerminals| - 1] == x
    ensures var c := Closure01(g);
      var n := |g.rules|;
      |c.rules| == n + 3 + 2 * |g.terminals| && c.rules[..n] == g.rules &&
      c.rules[n] == Rule(s, g.start) && c.rules[n + 1] == Rule(s, EmptyWord) &&
      c.rules[n + 2] == Rule(s, x + g.start) &&
      (forall i :: 0 <= i < |g.terminals| ==>
        c.rules[n + 3 + 2 * i] == Rule(x + g.terminals[i], g.start + g.terminals[i]) &&
        c.rules[n + 4 + 2 * i] == Rule(x + g.terminals[i], x + g.start + g.terminals[i]))
  {
    var c := Closure01(g);
    var n := |g.rules|;
    var tail := TerminalRules(x, g.start, g.terminals);
    assert c.rules == [] + g.rules + [Rule(s, g.start), Rule(s, EmptyWord), Rule(s, x + g.start)] + tail;
    forall i | 0 <= i < |g.terminals|
      ensures c.rules[n + 3 + 2 * i] == Rule(x + g.terminals[i], g.start + g.terminals[i]) &&
        c.rules[n + 4 + 2 * i] == Rule(x + g.terminals[i], x + g.start + g.terminals[i])
    {
      assert c.rules[n + 3 + 2 * i] == tail[2 * i];
      assert c.rules[n + 4 + 2 * i] == tail[2 * i + 1];
    }
  }

  /** The Type2 closure: one fresh start symbol `S`, and `S -> S start` and `S -> |` after the
      incoming rules. */
  lemma Closure2Layout(g: Grammar)
    ensures var c := Closure2(g);
      c.nonTerminals == g.nonTerminals + [c.start] && c.start !in g.nonTerminals && Primed("S", c.start) &&
      c.rules == g.rules + [Rule(c.start, c.start + g.start), Rule(c.start, EmptyWord)]
  {
    assert [] + g.nonTerminals == g.nonTerminals;
    assert "" + "S" == "S";
    assert [] + g.rules == g.rules;
  }

  /** The Type3 closure: one fresh start symbol `S`; after the incoming rules, a copy of every exit
      rule extended by the incoming start symbol and nothing else, then `S -> start` and `S -> |`. */
  lemma Closure3Layout(g: Grammar)
    ensures var c := Closure3(g);
      var n := |g.rules|;
      var copies := c.rules[n..|c.rules| - 2];
      c.nonTerminals == g.nonTerminals + [c.start] && c.start !in g.nonTerminals && Primed("S", c.start) &&
      n + 2 <= |c.rules| <= 2 * n + 2 && c.rules[..n] == g.rules
    ensures var c := Closure3(g);
      c.rules[|c.rules| - 2..] == [Rule(c.start, g.start), Rule(c.start, EmptyWord)]
    ensures var c := Closure3(g);
      var n := |g.rules|;
      var copies := c.rules[n..|c.rules| - 2];
      (forall q <- copies :: exists p <- g.rules :: IsExit(p.rhs, g.nonTerminals) && q == Rule(p.lhs, p.rhs + g.start)) &&
      (forall p <- g.rules :: IsExit(p.rhs, g.nonTerminals) ==> Rule(p.lhs, p.rhs + g.start) in copies)
  {
    var c := Closure3(g);
    var n := |g.rules|;
    assert [] + g.nonTerminals == g.nonTerminals;
    assert "" + "S" == "S";
    var e := ExitCopies(g.rules, g.nonTerminals, g.start);
    ExitCopiesExactly(g.rules, g.nonTerminals, g.start);
    assert c.rules == g.rules + e + [Rule(c.start, g.start), Rule(c.start, EmptyWord)];
    assert c.rules[..n] == g.rules;
    assert c.rules[n..|c.rules| - 2] == e;
    assert c.rules[|c.rules| - 2..] == [Rule(c.start, g.start), Rule(c.start, EmptyWord)];
  }

  /** Every closure of a grammar with rules starts from a symbol new to the grammar and derives the
      empty word from it in one step; a grammar without rules gives the empty grammar; the closure
      fails exactly when the classification does. */
  lemma ClosureAddsEmptyWord(g: Grammar)
    ensures Closure(g).Err? <==> Classify(g).Err?
    ensures g.rules == [] ==> Closure(g) == Ok(EmptyGrammar)
    ensures g.rules != [] && Closure(g).Ok? ==>
      var c := Closure(g).value;
      c.start !in g.nonTerminals && c.start in c.nonTerminals && Rule(c.start, EmptyWord) in c.rules &&
      g.rules <= c.rules
  {
    NullIffNoRules(g);
    if g.rules != [] && Closure(g).Ok? {
      var c := Closure(g).value;
      match Classify(g).value
      case Type0 =>
        Closure01Layout(g);
        assert c.rules[|g.rules| + 1] == Rule(c.start, EmptyWord);
      case Type1 =>
        Closure01Layout(g);
        assert c.rules[|g.rules| + 1] == Rule(c.start, EmptyWord);
      case Type2 =>
        Closure2Layout(g);
        assert c.rules[|c.rules| - 1] == Rule(c.start, EmptyWord);
      case Type3 =>
        Closure3Layout(g);
        assert c.rules[|c.rules| - 2..][1] == Rule(c.start, EmptyWord);
      case TypeNull =>
    }
  }
}
