/** Worked examples: two of the demonstration-sized grammars, classified, and what the union and the
    closure turn them into. */
module Scenarios {
  import opened Wrappers
  import opened Grammars
  import opened Patterns
  import opened RuleTypes
  import opened Classifier
  import opened Alphabet
  import opened Constructors

  /** Nonterminals S and A, terminals a and b, rules S -> aA and A -> b. */
  const Regular := Grammar(["S", "A"], ["a", "b"], [Rule("S", "aA"), Rule("A", "b")], "S")

  /** Nonterminals S, A and B, terminals a and b, rules S -> AB, A -> aA | a, B -> bB | b. */
  const ContextFree := Grammar(["S", "A", "B"], ["a", "b"],
    [Rule("S", "AB"), Rule("A", "aA"), Rule("A", "a"), Rule("B", "bB"), Rule("B", "b")], "S")

  /** Nonterminal X, terminal x, rule X -> x. */
  const Single := Grammar(["X"], ["x"], [Rule("X", "x")], "X")

  /** The one-character names of a grammar read as themselves. */
  predicate Reads(g: Grammar, nts: seq<char>, ts: seq<char>) {
    (forall c <- nts :: Tag(g, [c]) == Some('N')) && (forall c <- ts :: Tag(g, [c]) == Some('T'))
  }

  /** Pattern of a one-symbol side. */
  lemma One(g: Grammar, a: char)
    requires Named(g, [a]) && a != '|'
    ensures Pattern(g, [a]) == Some([Tag(g, [a]).value])
  {
    assert [a][0..1] == [a];
    ReadSymbol(g, [a], 0, "", [a]);
    assert "" + [Tag(g, [a]).value] == [Tag(g, [a]).value];
  }

  /** Pattern of a two-symbol side. */
  lemma Two(g: Grammar, a: char, b: char)
    requires Named(g, [a]) && Named(g, [b]) && a != '|' && b != '|'
    ensures Pattern(g, [a, b]) == Some([Tag(g, [a]).value, Tag(g, [b]).value])
  {
    var s := [a, b];
    var ta := Tag(g, [a]).value;
    assert s[0..1] == [a] && s[1..2] == [b];
    ReadSymbol(g, s, 0, "", [a]);
    assert "" + [ta] == [ta];
    ReadSymbol(g, s, 1, [ta], [b]);
    assert [ta] + [Tag(g, [b]).value] == [ta, Tag(g, [b]).value];
  }

  /** One turn of the classification loop. */
  lemma Turn(g: Grammar, i: nat, t: GrammarType, l: string, r: string, t': GrammarType)
    requires i < |g.rules| && t != Type0
    requires Pattern(g, g.rules[i].lhs) == Some(l) && Pattern(g, g.rules[i].rhs) == Some(r)
    requires Step(g, i, Format(l, r), t) == Ok(t')
    ensures ClassifyFrom(g, i, t) == ClassifyFrom(g, i + 1, t')
  {
  }

  /** A rule `X -> aY` or `X -> a` read as N -> TN or N -> T keeps the grammar regular. */
  lemma RegularTurn(g: Grammar, i: nat, r: string)
    requires i < |g.rules| && (r == "TN" || r == "T")
    requires Pattern(g, g.rules[i].lhs) == Some("N") && Pattern(g, g.rules[i].rhs) == Some(r)
    ensures ClassifyFrom(g, i, Type3) == ClassifyFrom(g, i + 1, Type3)
  {
    if r == "TN" {
      assert multiset(r)['N'] == 1;
    } else {
      assert 'N' !in r;
    }
    assert IsType3(Format("N", r), g.rules);
    Turn(g, i, Type3, "N", r, Type3);
  }

  /** A rule with one symbol on the left keeps a context-free grammar context-free. */
  lemma ContextFreeTurn(g: Grammar, i: nat, r: string)
    requires i < |g.rules|
    requires Pattern(g, g.rules[i].lhs) == Some("N") && Pattern(g, g.rules[i].rhs) == Some(r)
    ensures ClassifyFrom(g, i, Type2) == ClassifyFrom(g, i + 1, Type2)
  {
    Turn(g, i, Type2, "N", r, Type2);
  }

  /** The two rules of `Regular`, at the head of any grammar that reads S, A as nonterminals and a, b
      as terminals, keep it regular. */
  lemma RegularHead(g: Grammar)
    requires |g.rules| >= 2 && g.rules[0] == Rule("S", "aA") && g.rules[1] == Rule("A", "b")
    requires Reads(g, "SA", "ab")
    ensures ClassifyFrom(g, 0, Type3) == ClassifyFrom(g, 2, Type3)
  {
    assert Tag(g, "S") == Some('N') && Tag(g, "A") == Some('N') && Tag(g, "a") == Some('T') && Tag(g, "b") == Some('T');
    One(g, 'S');
    One(g, 'A');
    One(g, 'b');
    Two(g, 'a', 'A');
    assert "aA" == ['a', 'A'];
    RegularTurn(g, 0, "TN");
    RegularTurn(g, 1, "T");
  }

  /** `Regular` is a regular grammar. */
  lemma RegularIsType3()
    ensures Classify(Regular) == Ok(Type3)
  {
    assert Reads(Regular, "SA", "ab");
    RegularHead(Regular);
  }

  /** The first rule of `ContextFree`, S -> AB, has two nonterminals on the right: a grammar that
      reads S, A, B as nonterminals drops to Type2 on it. */
  lemma ContextFreeFirst(g: Grammar)
    requires |g.rules| >= 1 && g.rules[0] == Rule("S", "AB") && Reads(g, "SAB", "ab")
    ensures ClassifyFrom(g, 0, Type3) == ClassifyFrom(g, 1, Type2)
  {
    assert Tag(g, "S") == Some('N') && Tag(g, "A") == Some('N') && Tag(g, "B") == Some('N');
    One(g, 'S');
    Two(g, 'A', 'B');
    assert "AB" == ['A', 'B'];
    assert !IsType3(Format("N", "NN"), g.rules) by {
      assert multiset("NN")['N'] == 2;
    }
    Turn(g, 0, Type3, "N", "NN", Type2);
  }

  /** A rule `X -> aX` read as N -> TN. */
  lemma ContextFreeLoop(g: Grammar, i: nat, x: char, a: char)
    requires i < |g.rules| && g.rules[i] == Rule([x], [a, x]) && x != '|' && a != '|'
    requires Tag(g, [x]) == Some('N') && Tag(g, [a]) == Some('T')
    ensures ClassifyFrom(g, i, Type2) == ClassifyFrom(g, i + 1, Type2)
  {
    One(g, x);
    Two(g, a, x);
    ContextFreeTurn(g, i, "TN");
  }

  /** A rule `X -> a` read as N -> T. */
  lemma ContextFreeLeaf(g: Grammar, i: nat, x: char, a: char)
    requires i < |g.rules| && g.rules[i] == Rule([x], [a]) && x != '|' && a != '|'
    requires Tag(g, [x]) == Some('N') && Tag(g, [a]) == Some('T')
    ensures ClassifyFrom(g, i, Type2) == ClassifyFrom(g, i + 1, Type2)
  {
    One(g, x);
    One(g, a);
    ContextFreeTurn(g, i, "T");
  }

  /** The other four rules of `ContextFree` have one nonterminal on the left. */
  lemma ContextFreeRest(g: Grammar)
    requires |g.rules| >= 5
    requires g.rules[1] == Rule("A", "aA") && g.rules[2] == Rule("A", "a")
    requires g.rules[3] == Rule("B", "bB") && g.rules[4] == Rule("B", "b")
    requires Tag(g, "A") == Some('N') && Tag(g, "B") == Some('N') && Tag(g, "a") == Some('T') && Tag(g, "b") == Some('T')
    ensures ClassifyFrom(g, 1, Type2) == ClassifyFrom(g, 5, Type2)
  {
    ContextFreeLoop(g, 1, 'A', 'a');
    ContextFreeLeaf(g, 2, 'A', 'a');
    ContextFreeLoop(g, 3, 'B', 'b');
    ContextFreeLeaf(g, 4, 'B', 'b');
  }

  /** The five rules of `ContextFree` drive any grammar that reads S, A, B as nonterminals and a, b as
      terminals to Type2. */
  lemma ContextFreeHead(g: Grammar)
    requires |g.rules| >= 5 && g.rules[..5] == ContextFree.rules
    requires Reads(g, "SAB", "ab")
    ensures ClassifyFrom(g, 0, Type3) == ClassifyFrom(g, 5, Type2)
  {
    assert g.rules[0] == g.rules[..5][0] && g.rules[1] == g.rules[..5][1] && g.rules[2] == g.rules[..5][2];
    assert g.rules[3] == g.rules[..5][3] && g.rules[4] == g.rules[..5][4];
    ContextFreeFirst(g);
    assert Tag(g, "A") == Some('N') && Tag(g, "B") == Some('N') && Tag(g, "a") == Some('T') && Tag(g, "b") == Some('T');
    ContextFreeRest(g);
  }

  lemma ContextFreeNames()
    ensures Reads(ContextFree, "SAB", "ab")
  {
  }

  /** `ContextFree` is context-free and not regular. */
  lemma ContextFreeIsType2()
    ensures Classify(ContextFree) == Ok(Type2)
  {
    ContextFreeNames();
    assert ContextFree.rules[..5] == ContextFree.rules;
    ContextFreeHead(ContextFree);
  }

  /** The union of `Regular` and `Single`, as the constructor builds it. */
  const RegularOrSingle := Grammar(["S", "A", "S'", "X"], ["a", "b", "x"],
    [Rule("S", "aA"), Rule("A", "b"), Rule("S'", "S"), Rule("X", "x"), Rule("S'", "X")], "S'")

  /** The closure of `ContextFree`, as the constructor builds it. */
  const ContextFreeStar := Grammar(["S", "A", "B", "S'"], ["a", "b"],
    ContextFree.rules + [Rule("S'", "S'S"), Rule("S'", "|")], "S'")

  /** A nonterminal no terminal spells is seeded into the new grammar under its own name. */
  lemma SeedKeeps(newGram: Grammar, other: Grammar, terminals: seq<string>, tracked: string, j: nat)
    requires j < |other.nonTerminals| && other.nonTerminals[j] !in terminals
    ensures SeedFrom(newGram, other, terminals, tracked, j) ==
      SeedFrom(newGram.(nonTerminals := newGram.nonTerminals + [other.nonTerminals[j]]), other, terminals, tracked, j + 1)
  {
    assert other.nonTerminals[j := other.nonTerminals[j]] == other.nonTerminals;
    assert other.(nonTerminals := other.nonTerminals, rules := other.rules) == other;
  }

  /** A nonterminal the new grammar does not yet spell is merged under its own name. */
  lemma MergeKeeps(newGram: Grammar, other: Grammar, tracked: string, j: nat)
    requires j < |other.nonTerminals| && other.nonTerminals[j] !in newGram.nonTerminals + newGram.terminals
    requires tracked != ""
    ensures MergeFrom(newGram, other, tracked, j) ==
      MergeFrom(newGram.(nonTerminals := newGram.nonTerminals + [other.nonTerminals[j]]), other, tracked, j + 1)
  {
    assert other.nonTerminals[j := other.nonTerminals[j]] == other.nonTerminals;
    assert other.(nonTerminals := other.nonTerminals, rules := other.rules) == other;
  }

  /** `Regular` is seeded into the empty grammar unchanged, and the fresh start symbol is `S'`. */
  lemma UnionFirstCall()
    ensures NonTerminalsUnion(EmptyGrammar, Regular, ["x"]) == (Grammar(["S", "A", "S'"], [], [], "S'"), Regular)
  {
    SeedKeeps(EmptyGrammar, Regular, ["x"], "S", 0);
    assert [] + ["S"] == ["S"];
    SeedKeeps(Grammar(["S"], [], [], ""), Regular, ["x"], "S", 1);
    assert ["S"] + ["A"] == ["S", "A"];
    var m := SeedFrom(EmptyGrammar, Regular, ["x"], "S", 0);
    assert m == Merge(Grammar(["S", "A"], [], [], ""), Regular, "S");
    assert "" + "S" == "S" && "S" + "'" == "S'";
    assert "S'" !in ["S", "A"] by { assert "S'" != "S" && "S'" != "A"; }
    assert FreshName("S", ["S", "A"]) == "S'";
    assert ["S", "A"] + ["S'"] == ["S", "A", "S'"];
  }

  /** `Single` is merged unchanged. */
  lemma UnionSecondCall()
    ensures NonTerminalsUnion(Grammar(["S", "A", "S'"], [], [], "S'"), Single, ["x"]) ==
      (Grammar(["S", "A", "S'", "X"], [], [], "S'"), Single)
  {
    var g := Grammar(["S", "A", "S'"], [], [], "S'");
    assert "X" !in g.nonTerminals + g.terminals by { assert g.nonTerminals + g.terminals == ["S", "A", "S'"]; }
    MergeKeeps(g, Single, "X", 0);
    assert ["S", "A", "S'"] + ["X"] == ["S", "A", "S'", "X"];
  }

  lemma TerminalsAB()
    ensures MergeTerminals([], ["a", "b"]) == ["a", "b"]
  {
    assert ["a", "b"][1..] == ["b"] && ["b"][1..] == [];
    assert [] + ["a"] == ["a"] && ["a"] + ["b"] == ["a", "b"];
    assert "b" !in ["a"];
    assert MergeTerminals([], ["a", "b"]) == MergeTerminals(["a"], ["b"]);
  }

  lemma TerminalsABX()
    ensures MergeTerminals(["a", "b"], ["x"]) == ["a", "b", "x"]
  {
    assert "x" !in ["a", "b"];
    assert ["x"][1..] == [];
    assert ["a", "b"] + ["x"] == ["a", "b", "x"];
  }

  /** The union of `Regular` and `Single`. Its fresh start symbol is `S'` because `S` is taken. */
  lemma UnionOfRegularAndSingle()
    ensures Union(Regular, Single) == RegularOrSingle
  {
    var p1 := NonTerminalsUnion(EmptyGrammar, Regular, Single.terminals);
    UnionFirstCall();
    assert p1.0 == Grammar(["S", "A", "S'"], [], [], "S'") && p1.1 == Regular;
    var p2 := NonTerminalsUnion(p1.0, Single, Single.terminals);
    UnionSecondCall();
    assert p2.0 == Grammar(["S", "A", "S'", "X"], [], [], "S'") && p2.1 == Single;
    var t1 := p2.0.(terminals := MergeTerminals(p2.0.terminals, p1.1.terminals));
    TerminalsAB();
    assert t1 == Grammar(["S", "A", "S'", "X"], ["a", "b"], [], "S'");
    var t2 := t1.(terminals := MergeTerminals(t1.terminals, p2.1.terminals));
    TerminalsABX();
    assert t2 == Grammar(["S", "A", "S'", "X"], ["a", "b", "x"], [], "S'");
    assert Union(Regular, Single) == UnionRules(UnionRules(t2, Regular), Single);
    UnionBridges();
  }

  /** The rules of `Regular`, the bridge to its start, the rules of `Single`, the bridge to its start. */
  lemma UnionBridges()
    ensures UnionRules(UnionRules(Grammar(["S", "A", "S'", "X"], ["a", "b", "x"], [], "S'"), Regular), Single) == RegularOrSingle
  {
    assert [] + Regular.rules + [Rule("S'", "S")] == [Rule("S", "aA"), Rule("A", "b"), Rule("S'", "S")];
    assert [Rule("S", "aA"), Rule("A", "b"), Rule("S'", "S")] + Single.rules + [Rule("S'", "X")] == RegularOrSingle.rules;
  }

  /** The union can repeat a nonterminal: renaming `A` away from the second grammar's terminal `A`
      yields `A'`, which the first grammar already has, and the first branch checks the terminals
      only. */
  lemma UnionMayRepeatName()
    ensures var u := Union(Grammar(["A", "A'"], [], [], "A"), Grammar(["B"], ["A"], [], "B"));
      u.nonTerminals == ["A'", "A'", "S", "B"] && !NoDuplicates(u.nonTerminals)
  {
    var g1 := Grammar(["A", "A'"], [], [], "A");
    var g2 := Grammar(["B"], ["A"], [], "B");
    var p1 := NonTerminalsUnion(EmptyGrammar, g1, g2.terminals);
    RepeatFirstCall();
    var p2 := NonTerminalsUnion(p1.0, g2, g2.terminals);
    assert "B" !in p1.0.nonTerminals + p1.0.terminals by {
      assert p1.0.nonTerminals + p1.0.terminals == ["A'", "A'", "S"];
    }
    MergeKeeps(p1.0, g2, "B", 0);
    assert ["A'", "A'", "S"] + ["B"] == ["A'", "A'", "S", "B"];
    assert p2.0.nonTerminals == ["A'", "A'", "S", "B"];
    var u := Union(g1, g2);
    assert u.nonTerminals == p2.0.nonTerminals;
    assert u.nonTerminals[0] == u.nonTerminals[1];
  }

  /** The union can spell a terminal as a nonterminal: the second call renames against the
      terminals of the grammar being built, which are still empty, so the second grammar's
      nonterminal `x` is kept although `x` is a terminal of the first grammar; the pattern builder
      then reads every `x` as a nonterminal. */
  lemma UnionMayNameTerminal()
    ensures var u := Union(Grammar(["A"], ["x"], [], "A"), Grammar(["x"], [], [], "x"));
      u.nonTerminals == ["A", "S", "x"] && u.terminals == ["x"] && Tag(u, "x") == Some('N')
  {
    var g1 := Grammar(["A"], ["x"], [], "A");
    var g2 := Grammar(["x"], [], [], "x");
    var p1 := NonTerminalsUnion(EmptyGrammar, g1, g2.terminals);
    SeedKeeps(EmptyGrammar, g1, [], "A", 0);
    assert [] + ["A"] == ["A"];
    assert SeedFrom(EmptyGrammar, g1, [], "A", 0).newGram == Grammar(["A"], [], [], "");
    assert "" + "S" == "S" && "S" !in ["A"];
    assert ["A"] + ["S"] == ["A", "S"];
    assert p1 == (Grammar(["A", "S"], [], [], "S"), g1);
    assert "x" !in p1.0.nonTerminals + p1.0.terminals by {
      assert p1.0.nonTerminals + p1.0.terminals == ["A", "S"];
    }
    MergeKeeps(p1.0, g2, "x", 0);
    assert ["A", "S"] + ["x"] == ["A", "S", "x"];
    var p2 := NonTerminalsUnion(p1.0, g2, g2.terminals);
    assert p2.0 == Grammar(["A", "S", "x"], [], [], "S");
    assert MergeTerminals([], ["x"]) == ["x"] by { assert ["x"][1..] == [] && [] + ["x"] == ["x"]; }
    var u := Union(g1, g2);
    assert u.nonTerminals == ["A", "S", "x"] && u.terminals == ["x"];
    assert "x" in u.nonTerminals;
  }

  lemma RepeatFirstCall()
    ensures NonTerminalsUnion(EmptyGrammar, Grammar(["A", "A'"], [], [], "A"), ["A"]).0 ==
      Grammar(["A'", "A'", "S"], [], [], "S")
  {
    var g1 := Grammar(["A", "A'"], [], [], "A");
    assert "A" + "'" == "A'" && "A'" !in ["A"];
    assert SpliceRules([], "A") == [];
    assert RenameFrom("A", ["A"], [], "A") == Renaming("A'", [], "A'");
    var g1' := g1.(nonTerminals := ["A'", "A'"]);
    assert g1.nonTerminals[0 := "A'"] == ["A'", "A'"];
    assert [] + ["A'"] == ["A'"];
    var m := SeedFrom(EmptyGrammar, g1, ["A"], "A", 0);
    assert m == SeedFrom(Grammar(["A'"], [], [], ""), g1', ["A"], "A'", 1);
    SeedKeeps(Grammar(["A'"], [], [], ""), g1', ["A"], "A'", 1);
    assert ["A'"] + ["A'"] == ["A'", "A'"];
    assert m.newGram == Grammar(["A'", "A'"], [], [], "");
    assert "" + "S" == "S" && "S" !in ["A'", "A'"];
    assert ["A'", "A'"] + ["S"] == ["A'", "A'", "S"];
  }

  /** The union cannot be classified: its bridge rule `S' -> S` has a left side the pattern builder
      reads as `S` followed by a lone apostrophe. */
  lemma UnionOfRegularAndSingleUnreadable()
    ensures Classify(Union(Regular, Single)) == Err(UnknownSymbol(2, true))
  {
    UnionOfRegularAndSingle();
    RegularOrSingleUnreadable();
  }

  lemma RegularOrSingleNames()
    ensures Reads(RegularOrSingle, "SA", "ab") && MinimalName(RegularOrSingle, "S") && !Named(RegularOrSingle, "'")
  {
  }

  lemma RegularOrSingleUnreadable()
    ensures Classify(RegularOrSingle) == Err(UnknownSymbol(2, true))
  {
    var u := RegularOrSingle;
    RegularOrSingleNames();
    RegularHead(u);
    assert Pattern(u, u.rules[2].lhs) == None by {
      assert u.rules[2].lhs == "S" + "'";
      RenamedNameUnreadable(u, "S");
    }
    assert ClassifyFrom(u, 2, Type3) == Err(UnknownSymbol(2, true));
  }

  /** The closure of `ContextFree`: its fresh start symbol is `S'`. */
  lemma ClosureOfContextFree()
    ensures Closure(ContextFree) == Ok(ContextFreeStar)
  {
    ContextFreeIsType2();
    assert Closure(ContextFree) == Ok(Closure2(ContextFree));
    Closure2OfContextFree();
  }

  lemma ContextFreeClosureNames()
    ensures NonTerminalsClosure23(EmptyGrammar, ContextFree) == Grammar(["S", "A", "B", "S'"], [], [], "S'")
  {
    assert [] + ContextFree.nonTerminals == ["S", "A", "B"];
    assert "" + "S" == "S" && "S" + "'" == "S'";
    assert "S'" !in ["S", "A", "B"] by { assert "S'" != "S" && "S'" != "A" && "S'" != "B"; }
    assert FreshName("S", ["S", "A", "B"]) == "S'";
    assert ["S", "A", "B"] + ["S'"] == ["S", "A", "B", "S'"];
  }

  lemma Closure2OfContextFree()
    ensures Closure2(ContextFree) == ContextFreeStar
  {
    ContextFreeClosureNames();
    TerminalsAB();
    assert "S'" + "S" == "S'S";
    assert [] + ContextFree.rules == ContextFree.rules;
  }

  /** The closure of a context-free grammar need not classify as context-free: here it cannot be
      classified at all, because its new rules begin with the unreadable `S'`. */
  lemma ClosureOfContextFreeUnreadable()
    ensures Closure(ContextFree).Ok? && Classify(Closure(ContextFree).value) == Err(UnknownSymbol(5, true))
  {
    ClosureOfContextFree();
    ContextFreeStarUnreadable();
  }

  lemma ContextFreeStarNames()
    ensures Reads(ContextFreeStar, "SAB", "ab") && MinimalName(ContextFreeStar, "S") && !Named(ContextFreeStar, "'")
  {
  }

  lemma ContextFreeStarUnreadable()
    ensures Classify(ContextFreeStar) == Err(UnknownSymbol(5, true))
  {
    var c := ContextFreeStar;
    ContextFreeStarNames();
    assert c.rules[..5] == ContextFree.rules;
    ContextFreeHead(c);
    assert Pattern(c, c.rules[5].lhs) == None by {
      assert c.rules[5].lhs == "S" + "'";
      RenamedNameUnreadable(c, "S");
    }
    assert ClassifyFrom(c, 5, Type2) == Err(UnknownSymbol(5, true));
  }
}
