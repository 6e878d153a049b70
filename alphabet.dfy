/** Alphabet merging and renaming: AddTerminals (main.cpp:257-270), AddNonTerminalsUnion
    (main.cpp:273-408), AddNonTerminalsProduct3 (main.cpp:434-557) and the fresh-symbol loops of the
    closure (main.cpp:619-658, 677-699). */
module Alphabet {
  import opened Wrappers
  import opened Strings
  import opened Grammars

  /** `r` is `base` followed by zero or more apostrophes. */
  predicate Primed(base: string, r: string) {
    |base| <= |r| && r[..|base|] == base && forall j :: |base| <= j < |r| ==> r[j] == '\''
  }

  /** The terminal list after AddTerminals: each terminal of `other`, in order, appended unless the
      list already holds it. */
  function MergeTerminals(acc: seq<string>, other: seq<string>): (r: seq<string>)
    decreases |other|
    ensures |acc| <= |r| && r[..|acc|] == acc
    ensures forall t <- other :: t in r
    ensures forall j :: |acc| <= j < |r| ==> r[j] in other && r[j] !in acc
    ensures NoDuplicates(acc) ==> NoDuplicates(r)
  {
    if other == [] then acc
    else
      var acc' := if other[0] in acc then acc else acc + [other[0]];
      var r := MergeTerminals(acc', other[1..]);
      assert forall t <- other :: t == other[0] || t in other[1..];
      assert r[..|acc|] == acc by { assert r[..|acc'|][..|acc|] == acc; }
      assert other[0] in r by { assert other[0] in r[..|acc'|]; }
      r
  }

  /** AddTerminals (main.cpp:257-270). */
  method AddTerminals(newGram: Grammar, other: Grammar) returns (r: Grammar)
    ensures r == newGram.(terminals := MergeTerminals(newGram.terminals, other.terminals))
  {
    var ts := newGram.terminals;
    for j := 0 to |other.terminals|
      invariant MergeTerminals(ts, other.terminals[j..]) == MergeTerminals(newGram.terminals, other.terminals)
    {
      assert other.terminals[j..][1..] == other.terminals[j + 1..];
      var alreadyFound := Contains(ts, other.terminals[j]);
      if !alreadyFound {
        ts := ts + [other.terminals[j]];
      }
    }
    return newGram.(terminals := ts);
  }

  /** The splice of main.cpp:291-316: an apostrophe inserted after the first character of the first
      occurrence of `found`. Reading index `size()` of a std::string yields '\0', which is what the
      splice copies when an empty `found` is found in an empty side. */
  function Splice(s: string, found: string): string {
    match Find(s, found)
    case None => s
    case Some(k) => if k < |s| then s[..k + 1] + "'" + s[k + 1..] else s + ['\0', '\'']
  }

  /** One rule side rewritten by the splice loops of main.cpp:292-302. */
  method SpliceSide(s: string, found: string) returns (r: string)
    ensures r == Splice(s, found)
  {
    var at := Find(s, found);
    if at.None? {
      return s;
    }
    var k := at.value;
    assert k <= |s| by { assert OccursAt(s, found, k); }
    r := "";
    for i := 0 to k + 1
      invariant r == (s + ['\0'])[..i]
    {
      r := r + [if i < |s| then s[i] else '\0'];
    }
    r := r + "'";
    var i := k + 1;
    while i < |s|
      invariant k + 1 <= i <= |s| || (i == k + 1 && k == |s|)
      invariant r == (s + ['\0'])[..k + 1] + "'" + (if k < |s| then s[k + 1..i] else "")
    {
      r := r + [s[i]];
      i := i + 1;
    }
    if k < |s| {
      assert (s + ['\0'])[..k + 1] == s[..k + 1];
    }
  }

  /** Every rule with both sides spliced (the loop of main.cpp:291-317). */
  function SpliceRules(rules: seq<Rule>, found: string): (r: seq<Rule>)
    ensures |r| == |rules|
  {
    seq(|rules|, j requires 0 <= j < |rules| => Rule(Splice(rules[j].lhs, found), Splice(rules[j].rhs, found)))
  }

  method SpliceAllRules(rules: seq<Rule>, found: string) returns (r: seq<Rule>)
    ensures r == SpliceRules(rules, found)
  {
    r := rules;
    for j := 0 to |rules|
      invariant |r| == |rules|
      invariant forall i :: 0 <= i < j ==> r[i] == SpliceRules(rules, found)[i]
      invariant forall i :: j <= i < |rules| ==> r[i] == rules[i]
    {
      var lhs := SpliceSide(r[j].lhs, found);
      var rhs := SpliceSide(r[j].rhs, found);
      r := r[j := Rule(lhs, rhs)];
    }
  }

  /** For a name made of one character and apostrophes, the splice renames its first occurrence:
      the apostrophe lands right after the name. */
  lemma SpliceAppendsApostrophe(s: string, found: string)
    requires |found| > 0 && Find(s, found).Some?
    requires forall j :: 1 <= j < |found| ==> found[j] == '\''
    ensures var k := Find(s, found).value;
      Splice(s, found) == s[..k] + found + "'" + s[k + |found|..]
  {
    var k := Find(s, found).value;
    assert OccursAt(s, found, k);
    var tail := found[1..];
    assert s[..k + 1] == s[..k] + found[..1] && s[k + 1..] == tail + s[k + |found|..] by {
      assert s[k..k + |found|] == found;
      assert s[k + 1..k + |found|] == tail;
    }
    ApostrophesCommute(tail);
    assert found == found[..1] + tail;
    SpliceRegroup(s[..k], found[..1], tail, s[k + |found|..]);
  }

  /** A run of apostrophes followed by one more is one more followed by the run. */
  lemma ApostrophesCommute(t: string)
    requires forall j :: 0 <= j < |t| ==> t[j] == '\''
    ensures "'" + t == t + "'"
  {
  }

  lemma SpliceRegroup(a: string, c: string, t: string, b: string)
    requires "'" + t == t + "'"
    ensures (a + c) + "'" + (t + b) == a + (c + t) + "'" + b
  {
    assert "'" + (t + b) == t + "'" + b;
    assert (a + c) + "'" + (t + b) == (a + c) + ("'" + (t + b));
    assert (a + c) + (t + "'" + b) == a + (c + t) + "'" + b;
  }

  /** For a longer name the splice breaks it: `AB` becomes `A'B`, not `AB'`. */
  lemma SpliceBreaksLongerName()
    ensures Splice("AB", "AB") == "A'B"
  {
    assert OccursAt("AB", "AB", 0);
  }

  /** The longest name in a list. */
  function MaxLength(names: seq<string>): (m: nat)
    ensures forall n <- names :: |n| <= m
  {
    if names == [] then 0
    else
      var t := MaxLength(names[1..]);
      assert forall n <- names :: n == names[0] || n in names[1..];
      if |names[0]| > t then |names[0]| else t
  }

  /** A name primed from `base + "'"` is primed from `base`. */
  lemma PrimedStep(base: string, r: string)
    ensures Primed(base + "'", r) ==> Primed(base, r)
  {
    if Primed(base + "'", r) {
      assert r[..|base|] == (base + "'")[..|base|];
    }
  }

  /** The state of one renaming: the incoming name after it, the incoming rules, and the start symbol
      that follows the renamed name. */
  datatype Renaming = Renaming(name: string, rules: seq<Rule>, tracked: string)

  /** The do-while loop of main.cpp:277-319 (and main.cpp:343-404): while `name` clashes with one of
      `taken`, splice an apostrophe into the rules, append one to the name, and move `tracked` with
      it when it equals the clashing name. */
  function RenameFrom(name: string, taken: seq<string>, rules: seq<Rule>, tracked: string): (r: Renaming)
    decreases MaxLength(taken) - |name|
    ensures r.name !in taken && Primed(name, r.name) && |r.rules| == |rules|
    ensures tracked == name ==> r.tracked == r.name
    ensures !Primed(name, tracked) ==> r.tracked == tracked
    ensures r.tracked == tracked || r.tracked == r.name
    ensures name !in taken ==> r == Renaming(name, rules, tracked)
  {
    if name in taken then
      var r := RenameFrom(name + "'", taken, SpliceRules(rules, name), if tracked == name then name + "'" else tracked);
      PrimedStep(name, r.name);
      PrimedStep(name, tracked);
      r
    else Renaming(name, rules, tracked)
  }

  /** The do-while loop itself: `first` is searched, then `second` when `first` has no clash. */
  method RenameSymbol(name: string, first: seq<string>, second: seq<string>, rules: seq<Rule>, tracked: string)
    returns (r: Renaming)
    ensures r == RenameFrom(name, first + second, rules, tracked)
  {
    var n, rs, t := name, rules, tracked;
    var taken := first + second;
    var alreadyExists := true;
    while alreadyExists
      invariant RenameFrom(n, taken, rs, t) == RenameFrom(name, taken, rules, tracked)
      invariant !alreadyExists ==> n !in taken
      decreases if |n| <= MaxLength(taken) then MaxLength(taken) + 1 - |n| else 0, if alreadyExists then 1 else 0
    {
      alreadyExists := Contains(first, n);
      if !alreadyExists {
        alreadyExists := Contains(second, n);
      }
      if alreadyExists {
        var foundString := n;
        n := n + "'";
        rs := SpliceAllRules(rs, foundString);
        if t == foundString {
          t := n;
        }
      }
    }
    return Renaming(n, rs, t);
  }

  /** The outcome of renaming all incoming nonterminals: the grammar being built, the incoming
      grammar with its nonterminals and rules renamed in place, and the followed start symbol. */
  datatype Merge = Merge(newGram: Grammar, other: Grammar, tracked: string)

  /** The branch taken when the grammar being built has no nonterminals yet (main.cpp:276-321): each
      incoming nonterminal from index `j` on is renamed against `terminals` only and appended. */
  function SeedFrom(newGram: Grammar, other: Grammar, terminals: seq<string>, tracked: string, j: nat): (r: Merge)
    requires j <= |other.nonTerminals|
    decreases |other.nonTerminals| - j
    ensures |r.newGram.nonTerminals| == |newGram.nonTerminals| + |other.nonTerminals| - j
    ensures |r.other.nonTerminals| == |other.nonTerminals|
    ensures r.newGram == newGram.(nonTerminals := r.newGram.nonTerminals)
    ensures r.other == other.(nonTerminals := r.other.nonTerminals, rules := r.other.rules)
    ensures |r.other.rules| == |other.rules|
  {
    if j == |other.nonTerminals| then Merge(newGram, other, tracked)
    else
      var rn := RenameFrom(other.nonTerminals[j], terminals, other.rules, tracked);
      SeedFrom(newGram.(nonTerminals := newGram.nonTerminals + [rn.name]),
               other.(nonTerminals := other.nonTerminals[j := rn.name], rules := rn.rules),
               terminals, rn.tracked, j + 1)
  }

  /** The branch taken otherwise (main.cpp:342-406): each incoming nonterminal is renamed against the
      nonterminals (those appended so far included) and the terminals of the grammar being built. In
      the last, clash-free turn of the do-while loop the clashing name is still empty, so an empty
      followed start symbol becomes the incoming name (main.cpp:366-368). */
  function MergeFrom(newGram: Grammar, other: Grammar, tracked: string, j: nat): (r: Merge)
    requires j <= |other.nonTerminals|
    decreases |other.nonTerminals| - j
    ensures |r.newGram.nonTerminals| == |newGram.nonTerminals| + |other.nonTerminals| - j
    ensures |r.other.nonTerminals| == |other.nonTerminals|
    ensures r.newGram == newGram.(nonTerminals := r.newGram.nonTerminals)
    ensures r.other == other.(nonTerminals := r.other.nonTerminals, rules := r.other.rules)
    ensures |r.other.rules| == |other.rules|
  {
    if j == |other.nonTerminals| then Merge(newGram, other, tracked)
    else
      var rn := RenameFrom(other.nonTerminals[j], newGram.nonTerminals + newGram.terminals, other.rules, tracked);
      MergeFrom(newGram.(nonTerminals := newGram.nonTerminals + [rn.name]),
                other.(nonTerminals := other.nonTerminals[j := rn.name], rules := rn.rules),
                if rn.tracked == "" then rn.name else rn.tracked, j + 1)
  }

  /** The loop of main.cpp:276-321. */
  method SeedNonTerminals(newGram: Grammar, other: Grammar, terminals: seq<string>, tracked: string) returns (m: Merge)
    ensures m == SeedFrom(newGram, other, terminals, tracked, 0)
  {
    var ng, og, t := newGram, other, tracked;
    for j := 0 to |other.nonTerminals|
      invariant |og.nonTerminals| == |other.nonTerminals|
      invariant SeedFrom(ng, og, terminals, t, j) == SeedFrom(newGram, other, terminals, tracked, 0)
    {
      var rn := RenameSymbol(og.nonTerminals[j], terminals, [], og.rules, t);
      assert terminals + [] == terminals;
      var og' := og.(nonTerminals := og.nonTerminals[j := rn.name], rules := rn.rules);
      var ng' := ng.(nonTerminals := ng.nonTerminals + [rn.name]);
      assert SeedFrom(ng, og, terminals, t, j) == SeedFrom(ng', og', terminals, rn.tracked, j + 1);
      og, ng, t := og', ng', rn.tracked;
    }
    return Merge(ng, og, t);
  }

  /** The loop of main.cpp:342-406. */
  method MergeNonTerminals(newGram: Grammar, other: Grammar, tracked: string) returns (m: Merge)
    ensures m == MergeFrom(newGram, other, tracked, 0)
  {
    var ng, og, t := newGram, other, tracked;
    for j := 0 to |other.nonTerminals|
      invariant |og.nonTerminals| == |other.nonTerminals|
      invariant MergeFrom(ng, og, t, j) == MergeFrom(newGram, other, tracked, 0)
    {
      var rn := RenameSymbol(og.nonTerminals[j], ng.nonTerminals, ng.terminals, og.rules, t);
      var og' := og.(nonTerminals := og.nonTerminals[j := rn.name], rules := rn.rules);
      var ng' := ng.(nonTerminals := ng.nonTerminals + [rn.name]);
      var t' := if rn.tracked == "" then rn.name else rn.tracked;
      assert MergeFrom(ng, og, t, j) == MergeFrom(ng', og', t', j + 1);
      og, ng, t := og', ng', t';
    }
    return Merge(ng, og, t);
  }

  /** The do-while loops that mint a fresh symbol (main.cpp:323-339, 624-657, 682-698): apostrophes
      are appended to `base` until no name in `names` equals it. */
  function FreshName(base: string, names: seq<string>): (r: string)
    decreases MaxLength(names) - |base|
    ensures r !in names && Primed(base, r)
  {
    if base in names then
      var r := FreshName(base + "'", names);
      assert r[..|base|] == (base + "'")[..|base|];
      r
    else base
  }

  method MintFresh(base: string, names: seq<string>) returns (r: string)
    ensures r == FreshName(base, names)
  {
    r := base;
    var alreadyExists := true;
    while alreadyExists
      invariant FreshName(r, names) == FreshName(base, names)
      invariant !alreadyExists ==> r !in names
      decreases if |r| <= MaxLength(names) then MaxLength(names) + 1 - |r| else 0, if alreadyExists then 1 else 0
    {
      alreadyExists := Contains(names, r);
      if alreadyExists {
        r := r + "'";
      }
    }
  }

  /** AddNonTerminalsUnion (main.cpp:273-408): the first branch renames against the given terminals,
      does not follow the incoming start symbol, and mints the new start symbol; the second renames
      against the grammar being built and follows the incoming start symbol. */
  function NonTerminalsUnion(newGram: Grammar, other: Grammar, terminals: seq<string>): (Grammar, Grammar) {
    if newGram.nonTerminals == [] then
      var m := SeedFrom(newGram, other, terminals, other.start, 0);
      var s := FreshName(m.newGram.start + "S", m.newGram.nonTerminals);
      (m.newGram.(start := s, nonTerminals := m.newGram.nonTerminals + [s]), m.other)
    else
      var m := MergeFrom(newGram, other, other.start, 0);
      (m.newGram, m.other.(start := m.tracked))
  }

  method AddNonTerminalsUnion(newGram: Grammar, other: Grammar, terminals: seq<string>)
    returns (newGram': Grammar, other': Grammar)
    ensures (newGram', other') == NonTerminalsUnion(newGram, other, terminals)
  {
    if newGram.nonTerminals == [] {
      var m := SeedNonTerminals(newGram, other, terminals, other.start);
      var s := MintFresh(m.newGram.start + "S", m.newGram.nonTerminals);
      newGram' := m.newGram.(start := s, nonTerminals := m.newGram.nonTerminals + [s]);
      other' := m.other;
    } else {
      var m := MergeNonTerminals(newGram, other, other.start);
      newGram' := m.newGram;
      other' := m.other.(start := m.tracked);
    }
  }

  /** The two start symbols AddNonTerminalsProduct3 reads and writes: the source uses the global
      grammars' `startingPoint` (main.cpp:480-488, 515-516, 549-550), not its arguments'. */
  datatype Globals = Globals(start1: string, start2: string)

  /** AddNonTerminalsProduct3 (main.cpp:434-557): the first branch follows and installs the first
      global start symbol; the second follows the second global start symbol. */
  function NonTerminalsProduct3(newGram: Grammar, other: Grammar, terminals: seq<string>, globals: Globals): (Grammar, Grammar, Globals) {
    if newGram.nonTerminals == [] then
      var m := SeedFrom(newGram, other, terminals, globals.start1, 0);
      (m.newGram.(start := m.tracked), m.other, globals.(start1 := m.tracked))
    else
      var m := MergeFrom(newGram, other, globals.start2, 0);
      (m.newGram, m.other, globals.(start2 := m.tracked))
  }

  method AddNonTerminalsProduct3(newGram: Grammar, other: Grammar, terminals: seq<string>, globals: Globals)
    returns (newGram': Grammar, other': Grammar, globals': Globals)
    ensures (newGram', other', globals') == NonTerminalsProduct3(newGram, other, terminals, globals)
  {
    if newGram.nonTerminals == [] {
      var m := SeedNonTerminals(newGram, other, terminals, globals.start1);
      newGram', other', globals' := m.newGram.(start := m.tracked), m.other, globals.(start1 := m.tracked);
    } else {
      var m := MergeNonTerminals(newGram, other, globals.start2);
      newGram', other', globals' := m.newGram, m.other, globals.(start2 := m.tracked);
    }
  }

  /** AddNonTerminalsClosure23 (main.cpp:677-699): the incoming nonterminals, then a fresh start. */
  function NonTerminalsClosure23(newGram: Grammar, other: Grammar): Grammar {
    var nts := newGram.nonTerminals + other.nonTerminals;
    var s := FreshName(newGram.start + "S", nts);
    newGram.(nonTerminals := nts + [s], start := s)
  }

  /** AddNonTerminalsClosure01 (main.cpp:619-658): as Closure23, then a fresh helper `X`. */
  function NonTerminalsClosure01(newGram: Grammar, other: Grammar): Grammar {
    var g := NonTerminalsClosure23(newGram, other);
    g.(nonTerminals := g.nonTerminals + [FreshName("X", g.nonTerminals)])
  }

  method AppendNonTerminals(newGram: Grammar, other: Grammar) returns (r: Grammar)
    ensures r == newGram.(nonTerminals := newGram.nonTerminals + other.nonTerminals)
  {
    var nts := newGram.nonTerminals;
    for j := 0 to |other.nonTerminals|
      invariant nts == newGram.nonTerminals + other.nonTerminals[..j]
    {
      nts := nts + [other.nonTerminals[j]];
      assert other.nonTerminals[..j + 1] == other.nonTerminals[..j] + [other.nonTerminals[j]];
    }
    assert other.nonTerminals[..|other.nonTerminals|] == other.nonTerminals;
    r := newGram.(nonTerminals := nts);
  }

  method AddNonTerminalsClosure23(newGram: Grammar, other: Grammar) returns (r: Grammar)
    ensures r == NonTerminalsClosure23(newGram, other)
  {
    r := AppendNonTerminals(newGram, other);
    var s := MintFresh(r.start + "S", r.nonTerminals);
    r := r.(start := s, nonTerminals := r.nonTerminals + [s]);
  }

  method AddNonTerminalsClosure01(newGram: Grammar, other: Grammar) returns (r: Grammar)
    ensures r == NonTerminalsClosure01(newGram, other)
  {
    r := AddNonTerminalsClosure23(newGram, other);
    var x := MintFresh("X", r.nonTerminals);
    r := r.(nonTerminals := r.nonTerminals + [x]);
  }

  /** The first branch keeps the names the grammar being built had; each name it appends is the
      matching incoming nonterminal primed until it is none of `terminals`, and the incoming
      nonterminals are renamed in place to those names. */
  lemma {:induction false} SeedAvoids(newGram: Grammar, other: Grammar, terminals: seq<string>, tracked: string, j: nat)
    requires j <= |other.nonTerminals|
    decreases |other.nonTerminals| - j
    ensures var m := SeedFrom(newGram, other, terminals, tracked, j);
      var n := |newGram.nonTerminals|;
      m.newGram.nonTerminals[..n] == newGram.nonTerminals &&
      m.other.nonTerminals[..j] == other.nonTerminals[..j] &&
      forall k :: n <= k < |m.newGram.nonTerminals| ==>
        m.newGram.nonTerminals[k] !in terminals && m.other.nonTerminals[k - n + j] == m.newGram.nonTerminals[k] &&
        Primed(other.nonTerminals[k - n + j], m.newGram.nonTerminals[k])
  {
    if j < |other.nonTerminals| {
      var rn := RenameFrom(other.nonTerminals[j], terminals, other.rules, tracked);
      var ng := newGram.(nonTerminals := newGram.nonTerminals + [rn.name]);
      var og := other.(nonTerminals := other.nonTerminals[j := rn.name], rules := rn.rules);
      SeedAvoids(ng, og, terminals, rn.tracked, j + 1);
      var m := SeedFrom(ng, og, terminals, rn.tracked, j + 1);
      assert m == SeedFrom(newGram, other, terminals, tracked, j);
      var n := |newGram.nonTerminals|;
      var nts := m.newGram.nonTerminals;
      assert nts[..n] == ng.nonTerminals[..n];
      assert nts[n] == nts[..n + 1][n];
      assert m.other.nonTerminals[..j] == m.other.nonTerminals[..j + 1][..j];
      assert m.other.nonTerminals[j] == m.other.nonTerminals[..j + 1][j];
    }
  }

  /** `added` are the names appended after `nts`, each primed from its source, and each differs from
      every name of `nts`, of the names appended before it and of `ts`. */
  predicate AppendedFresh(nts: seq<string>, ts: seq<string>, added: seq<string>, sources: seq<string>) {
    |added| == |sources| &&
    forall k :: 0 <= k < |added| ==> added[k] !in nts + added[..k] && added[k] !in ts && Primed(sources[k], added[k])
  }

  lemma AppendedFreshCons(nts: seq<string>, ts: seq<string>, name: string, added: seq<string>, sources: seq<string>, source: string)
    requires name !in nts + ts && Primed(source, name)
    requires AppendedFresh(nts + [name], ts, added, sources)
    ensures AppendedFresh(nts, ts, [name] + added, [source] + sources)
  {
    var all := [name] + added;
    forall k | 0 <= k < |all|
      ensures all[k] !in nts + all[..k] && all[k] !in ts && Primed(([source] + sources)[k], all[k])
    {
      if k == 0 {
        assert nts + all[..0] == nts;
      } else {
        assert all[k] == added[k - 1];
        assert nts + [name] + added[..k - 1] == nts + all[..k];
      }
    }
  }

  /** The second branch keeps the names the grammar being built had, and renames the incoming
      nonterminals in place to exactly the names it appends. */
  lemma {:induction false} MergeShape(newGram: Grammar, other: Grammar, tracked: string, j: nat)
    requires j <= |other.nonTerminals|
    decreases |other.nonTerminals| - j
    ensures var m := MergeFrom(newGram, other, tracked, j);
      m.newGram.nonTerminals[..|newGram.nonTerminals|] == newGram.nonTerminals &&
      m.other.nonTerminals[..j] == other.nonTerminals[..j] &&
      m.other.nonTerminals[j..] == m.newGram.nonTerminals[|newGram.nonTerminals|..]
  {
    if j < |other.nonTerminals| {
      var rn := RenameFrom(other.nonTerminals[j], newGram.nonTerminals + newGram.terminals, other.rules, tracked);
      var ng := newGram.(nonTerminals := newGram.nonTerminals + [rn.name]);
      var og := other.(nonTerminals := other.nonTerminals[j := rn.name], rules := rn.rules);
      var t := if rn.tracked == "" then rn.name else rn.tracked;
      MergeShape(ng, og, t, j + 1);
      var m := MergeFrom(ng, og, t, j + 1);
      assert m == MergeFrom(newGram, other, tracked, j);
      ShapeStep(newGram.nonTerminals, rn.name, m.newGram.nonTerminals, other.nonTerminals, m.other.nonTerminals, j);
    }
  }

  /** The sequence bookkeeping of one step of MergeShape. */
  lemma ShapeStep(names: seq<string>, x: string, nts: seq<string>, before: seq<string>, after: seq<string>, j: nat)
    requires j < |before| && |after| == |before|
    requires |names| + 1 <= |nts| && nts[..|names| + 1] == names + [x]
    requires after[..j + 1] == before[j := x][..j + 1]
    requires after[j + 1..] == nts[|names| + 1..]
    ensures nts[..|names|] == names && after[..j] == before[..j] && after[j..] == nts[|names|..]
  {
    assert nts[..|names|] == nts[..|names| + 1][..|names|];
    assert after[..j] == after[..j + 1][..j];
    assert after[j] == after[..j + 1][j];
    assert nts[|names|] == nts[..|names| + 1][|names|];
    assert after[j..] == [after[j]] + after[j + 1..];
    assert nts[|names|..] == [nts[|names|]] + nts[|names| + 1..];
  }

  /** The sequence bookkeeping of one step of MergeAppendsFresh. */
  lemma FreshStep(names: seq<string>, x: string, nts: seq<string>, before: seq<string>, j: nat)
    requires j < |before| && |names| + 1 <= |nts| && nts[..|names| + 1] == names + [x]
    ensures nts[|names|..] == [x] + nts[|names| + 1..]
    ensures before[j..] == [before[j]] + before[j := x][j + 1..]
  {
    assert nts[|names|] == nts[..|names| + 1][|names|];
    assert before[j := x][j + 1..] == before[j + 1..];
  }

  /** Each nonterminal the second branch appends differs from every name the grammar being built
      holds when it is appended, the nonterminals appended before it included. */
  lemma {:induction false} MergeAppendsFresh(newGram: Grammar, other: Grammar, tracked: string, j: nat)
    requires j <= |other.nonTerminals|
    decreases |other.nonTerminals| - j
    ensures var m := MergeFrom(newGram, other, tracked, j);
      AppendedFresh(newGram.nonTerminals, newGram.terminals, m.newGram.nonTerminals[|newGram.nonTerminals|..], other.nonTerminals[j..])
  {
    if j < |other.nonTerminals| {
      var rn := RenameFrom(other.nonTerminals[j], newGram.nonTerminals + newGram.terminals, other.rules, tracked);
      var ng := newGram.(nonTerminals := newGram.nonTerminals + [rn.name]);
      var og := other.(nonTerminals := other.nonTerminals[j := rn.name], rules := rn.rules);
      var t := if rn.tracked == "" then rn.name else rn.tracked;
      MergeAppendsFresh(ng, og, t, j + 1);
      MergeShape(ng, og, t, j + 1);
      var m := MergeFrom(ng, og, t, j + 1);
      assert m == MergeFrom(newGram, other, tracked, j);
      var nts := m.newGram.nonTerminals;
      var rest := nts[|ng.nonTerminals|..];
      var sources := og.nonTerminals[j + 1..];
      FreshStep(newGram.nonTerminals, rn.name, nts, other.nonTerminals, j);
      AppendedFreshCons(newGram.nonTerminals, newGram.terminals, rn.name, rest, sources, other.nonTerminals[j]);
    } else {
      assert MergeFrom(newGram, other, tracked, j).newGram == newGram;
    }
  }

  /** The second branch follows the start symbol: the symbol it ends up tracking is the one it began
      with or one of the names it appended, and it is an appended name whenever the start symbol it
      began with is one of the incoming nonterminals still to come. */
  lemma {:induction false} MergeFollowsStart(newGram: Grammar, other: Grammar, tracked: string, j: nat)
    requires j <= |other.nonTerminals|
    decreases |other.nonTerminals| - j
    ensures var m := MergeFrom(newGram, other, tracked, j);
      m.tracked == tracked || m.tracked in m.newGram.nonTerminals[|newGram.nonTerminals|..]
    ensures var m := MergeFrom(newGram, other, tracked, j);
      tracked in other.nonTerminals[j..] ==> m.tracked in m.newGram.nonTerminals[|newGram.nonTerminals|..]
  {
    if j < |other.nonTerminals| {
      var rn := RenameFrom(other.nonTerminals[j], newGram.nonTerminals + newGram.terminals, other.rules, tracked);
      var ng := newGram.(nonTerminals := newGram.nonTerminals + [rn.name]);
      var og := other.(nonTerminals := other.nonTerminals[j := rn.name], rules := rn.rules);
      var t := if rn.tracked == "" then rn.name else rn.tracked;
      MergeFollowsStart(ng, og, t, j + 1);
      MergeShape(ng, og, t, j + 1);
      var m := MergeFrom(ng, og, t, j + 1);
      assert m == MergeFrom(newGram, other, tracked, j);
      var nts := m.newGram.nonTerminals;
      FreshStep(newGram.nonTerminals, rn.name, nts, other.nonTerminals, j);
      var later := nts[|ng.nonTerminals|..];
      assert nts[|newGram.nonTerminals|..] == [rn.name] + later;
      assert forall y <- later :: y in [rn.name] + later;
      assert t == tracked || t == rn.name;
      assert other.nonTerminals[j..] == [other.nonTerminals[j]] + og.nonTerminals[j + 1..];
    }
  }

  /** The first branch follows the start symbol it is given (the first global start symbol, in the
      product): the symbol it ends up tracking is the one it began with or one of the names it
      appended, and it is an appended name whenever the start symbol it began with is one of the
      incoming nonterminals still to come. */
  lemma {:induction false} SeedFollowsStart(newGram: Grammar, other: Grammar, terminals: seq<string>, tracked: string, j: nat)
    requires j <= |other.nonTerminals|
    decreases |other.nonTerminals| - j
    ensures var m := SeedFrom(newGram, other, terminals, tracked, j);
      m.tracked == tracked || m.tracked in m.newGram.nonTerminals[|newGram.nonTerminals|..]
    ensures var m := SeedFrom(newGram, other, terminals, tracked, j);
      tracked in other.nonTerminals[j..] ==> m.tracked in m.newGram.nonTerminals[|newGram.nonTerminals|..]
  {
    if j < |other.nonTerminals| {
      var rn := RenameFrom(other.nonTerminals[j], terminals, other.rules, tracked);
      var ng := newGram.(nonTerminals := newGram.nonTerminals + [rn.name]);
      var og := other.(nonTerminals := other.nonTerminals[j := rn.name], rules := rn.rules);
      SeedFollowsStart(ng, og, terminals, rn.tracked, j + 1);
      SeedAvoids(ng, og, terminals, rn.tracked, j + 1);
      var m := SeedFrom(ng, og, terminals, rn.tracked, j + 1);
      assert m == SeedFrom(newGram, other, terminals, tracked, j);
      var nts := m.newGram.nonTerminals;
      FreshStep(newGram.nonTerminals, rn.name, nts, other.nonTerminals, j);
      var later := nts[|ng.nonTerminals|..];
      assert nts[|newGram.nonTerminals|..] == [rn.name] + later;
      assert forall y <- later :: y in [rn.name] + later;
      assert other.nonTerminals[j..] == [other.nonTerminals[j]] + og.nonTerminals[j + 1..];
    }
  }

  /** Names appended fresh keep a duplicate-free list free of duplicates. */
  lemma AppendedFreshDistinct(nts: seq<string>, ts: seq<string>, added: seq<string>, sources: seq<string>)
    requires NoDuplicates(nts) && AppendedFresh(nts, ts, added, sources)
    ensures NoDuplicates(nts + added) && forall x <- added :: x !in ts
  {
    var all := nts + added;
    var n := |nts|;
    forall a, b | 0 <= a < b < |all| ensures all[a] != all[b] {
      if b >= n {
        var k := b - n;
        assert all[b] == added[k];
        assert added[k] !in nts + added[..k];
        assert all[a] == (nts + added[..k])[a];
      }
    }
  }

  /** Without a duplicate among the nonterminals of the grammar being built, the second branch
      introduces none, nor a name that is also one of its terminals. */
  lemma MergeKeepsNamesDistinct(newGram: Grammar, other: Grammar, tracked: string)
    requires NoDuplicates(newGram.nonTerminals)
    ensures var m := MergeFrom(newGram, other, tracked, 0);
      NoDuplicates(m.newGram.nonTerminals) &&
      forall k :: |newGram.nonTerminals| <= k < |m.newGram.nonTerminals| ==> m.newGram.nonTerminals[k] !in newGram.terminals
  {
    var m := MergeFrom(newGram, other, tracked, 0);
    var n := |newGram.nonTerminals|;
    var nts := m.newGram.nonTerminals;
    MergeShape(newGram, other, tracked, 0);
    assert nts == newGram.nonTerminals + nts[n..] by {
      assert nts == nts[..n] + nts[n..];
    }
    forall k | n <= k < |nts| ensures nts[k] in nts[n..] {
      assert nts[k] == nts[n..][k - n];
    }
    MergeAppendsFresh(newGram, other, tracked, 0);
    AppendedFreshDistinct(newGram.nonTerminals, newGram.terminals, nts[n..], other.nonTerminals);
  }
}
