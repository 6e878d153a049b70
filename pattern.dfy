/** The rule-pattern builder inlined twice in FindGrammarType (main.cpp:171-231): a rule side is
    read left to right, one symbol at a time, and each symbol becomes the tag `N` (nonterminal) or
    `T` (terminal); the empty-word marker turns the whole pattern into "E". */
module Patterns {
  import opened Wrappers
  import opened Strings
  import opened Grammars

  /** The tag of a symbol name. Nonterminals are searched first, so a name in both alphabets is `N`. */
  function Tag(g: Grammar, name: string): Option<char> {
    if name in g.nonTerminals then Some('N')
    else if name in g.terminals then Some('T')
    else None
  }

  predicate Named(g: Grammar, name: string) {
    Tag(g, name).Some?
  }

  /** A name none of whose shorter non-empty prefixes is a name: the builder reads it as one symbol. */
  predicate MinimalName(g: Grammar, name: string) {
    Named(g, name) && forall m :: 1 <= m < |name| ==> !Named(g, name[..m])
  }

  /** `s[i..i + m]` is a name. */
  predicate NameAt(g: Grammar, s: string, i: nat, m: nat) {
    i + m <= |s| && Named(g, s[i..i + m])
  }

  /** The shortest length, at least `k`, of a name starting at position `i` of `s`. The builder grows
      its candidate one character at a time from length 1; None is where it would run off the end. */
  function MatchLength(g: Grammar, s: string, i: nat, k: nat): (r: Option<nat>)
    requires 1 <= k && i + k <= |s|
    decreases |s| - i - k
    ensures r.Some? ==> k <= r.value && i + r.value <= |s| && Named(g, s[i..i + r.value])
    ensures r.Some? ==> forall m :: k <= m < r.value ==> !NameAt(g, s, i, m)
    ensures r.None? ==> forall m :: k <= m ==> !NameAt(g, s, i, m)
  {
    if Named(g, s[i..i + k]) then Some(k)
    else if i + k == |s| then None
    else MatchLength(g, s, i, k + 1)
  }

  /** The pattern of `s[i..]` appended to `acc`; the marker `|` replaces the pattern so far by "E". */
  function ScanFrom(g: Grammar, s: string, i: nat, acc: string): Option<string>
    requires i <= |s|
    decreases |s| - i
  {
    if i == |s| then Some(acc)
    else if s[i] == '|' then ScanFrom(g, s, i + 1, "E")
    else match MatchLength(g, s, i, 1)
      case None => None
      case Some(k) => ScanFrom(g, s, i + k, acc + [Tag(g, s[i..i + k]).value])
  }

  /** The pattern of a whole rule side; None where no alphabet prefix matches. */
  function Pattern(g: Grammar, s: string): Option<string> {
    ScanFrom(g, s, 0, "")
  }

  /** Looks a candidate name up: the nonterminal loop, then the terminal loop (main.cpp:181-193). */
  method Lookup(g: Grammar, name: string) returns (tag: Option<char>)
    ensures tag == Tag(g, name)
  {
    var found := Contains(g.nonTerminals, name);
    if found {
      return Some('N');
    }
    found := Contains(g.terminals, name);
    if found {
      return Some('T');
    }
    return None;
  }

  /** One side's pattern, built by push_back as the source does (main.cpp:171-200). */
  method BuildPattern(g: Grammar, s: string) returns (format: Option<string>)
    ensures format == Pattern(g, s)
  {
    var acc := "";
    var i := 0;
    while i < |s|
      invariant 0 <= i <= |s|
      invariant ScanFrom(g, s, i, acc) == Pattern(g, s)
      decreases |s| - i
    {
      if s[i] == '|' {
        acc := "E";
        i := i + 1;
        continue;
      }
      var k := 1;
      var tag := Lookup(g, s[i..i + 1]);
      while tag.None?
        invariant 1 <= k && i + k <= |s|
        invariant tag == Tag(g, s[i..i + k])
        invariant MatchLength(g, s, i, k) == MatchLength(g, s, i, 1)
        decreases |s| - i - k
      {
        if i + k == |s| {
          return None;
        }
        k := k + 1;
        tag := Lookup(g, s[i..i + k]);
      }
      acc := acc + [tag.value];
      i := i + k;
    }
    return Some(acc);
  }

  /** Concatenation of a sequence of names. */
  function Concat(ws: seq<string>): string {
    if ws == [] then "" else ws[0] + Concat(ws[1..])
  }

  /** Without the marker, a pattern has one tag per symbol: the side splits into names, each read
      as the shortest name its position allows, whose tags are the pattern. */
  lemma {:induction false} PatternTokens(g: Grammar, s: string) returns (ws: seq<string>)
    requires Pattern(g, s).Some? && '|' !in s
    ensures Concat(ws) == s && |ws| == |Pattern(g, s).value|
    ensures forall j :: 0 <= j < |ws| ==> MinimalName(g, ws[j]) && Tag(g, ws[j]) == Some(Pattern(g, s).value[j])
  {
    var rest, tags := ScanTokens(g, s, 0, "");
    ws := rest;
  }

  lemma {:induction false} ScanTokens(g: Grammar, s: string, i: nat, acc: string) returns (ws: seq<string>, tags: string)
    requires i <= |s| && ScanFrom(g, s, i, acc).Some? && '|' !in s[i..]
    decreases |s| - i
    ensures ScanFrom(g, s, i, acc).value == acc + tags
    ensures Concat(ws) == s[i..] && |ws| == |tags|
    ensures forall j :: 0 <= j < |ws| ==> MinimalName(g, ws[j]) && Tag(g, ws[j]) == Some(tags[j])
  {
    if i == |s| {
      ws, tags := [], "";
    } else {
      assert s[i] in s[i..];
      var k := MatchLength(g, s, i, 1).value;
      var t := Tag(g, s[i..i + k]).value;
      assert ScanFrom(g, s, i, acc) == ScanFrom(g, s, i + k, acc + [t]);
      TailHasNoMarker(s, i, k);
      var ws', tags' := ScanTokens(g, s, i + k, acc + [t]);
      ws, tags := [s[i..i + k]] + ws', [t] + tags';
      ScanTokensStep(g, s, i, acc, k, t, ws', tags', ws, tags);
    }
  }

  /** One symbol in front of the tokens of the rest of the side. */
  lemma ScanTokensStep(g: Grammar, s: string, i: nat, acc: string, k: nat, t: char, ws': seq<string>, tags': string,
                       ws: seq<string>, tags: string)
    requires i + 1 <= |s| && MatchLength(g, s, i, 1) == Some(k) && t == Tag(g, s[i..i + k]).value
    requires ScanFrom(g, s, i, acc) == ScanFrom(g, s, i + k, acc + [t])
    requires ScanFrom(g, s, i + k, acc + [t]).Some? && ScanFrom(g, s, i + k, acc + [t]).value == acc + [t] + tags'
    requires Concat(ws') == s[i + k..] && |ws'| == |tags'|
    requires forall j :: 0 <= j < |ws'| ==> MinimalName(g, ws'[j]) && Tag(g, ws'[j]) == Some(tags'[j])
    requires ws == [s[i..i + k]] + ws' && tags == [t] + tags'
    ensures ScanFrom(g, s, i, acc).value == acc + tags
    ensures Concat(ws) == s[i..] && |ws| == |tags|
    ensures forall j :: 0 <= j < |ws| ==> MinimalName(g, ws[j]) && Tag(g, ws[j]) == Some(tags[j])
  {
    assert acc + [t] + tags' == acc + tags;
    MatchIsMinimal(g, s, i, k);
    ConcatCons(s[i..i + k], ws', s, i);
    TokensCons(g, s[i..i + k], t, ws', tags');
  }

  lemma TokensCons(g: Grammar, w: string, t: char, ws: seq<string>, tags: string)
    requires MinimalName(g, w) && Tag(g, w) == Some(t) && |ws| == |tags|
    requires forall j :: 0 <= j < |ws| ==> MinimalName(g, ws[j]) && Tag(g, ws[j]) == Some(tags[j])
    ensures forall j :: 0 <= j < |ws| + 1 ==> MinimalName(g, ([w] + ws)[j]) && Tag(g, ([w] + ws)[j]) == Some(([t] + tags)[j])
  {
    forall j | 0 <= j < |ws| + 1 ensures MinimalName(g, ([w] + ws)[j]) && Tag(g, ([w] + ws)[j]) == Some(([t] + tags)[j]) {
      if j > 0 {
        assert ([w] + ws)[j] == ws[j - 1] && ([t] + tags)[j] == tags[j - 1];
      }
    }
  }

  lemma TailHasNoMarker(s: string, i: nat, k: nat)
    requires i + k <= |s| && '|' !in s[i..]
    ensures '|' !in s[i + k..]
  {
    assert forall c :: c in s[i + k..] ==> c in s[i..];
  }

  /** The shortest match is a minimal name. */
  lemma MatchIsMinimal(g: Grammar, s: string, i: nat, k: nat)
    requires i + 1 <= |s| && MatchLength(g, s, i, 1) == Some(k)
    ensures MinimalName(g, s[i..i + k])
  {
    var w := s[i..i + k];
    forall m | 1 <= m < |w| ensures !Named(g, w[..m]) {
      assert w[..m] == s[i..i + m];
      assert !NameAt(g, s, i, m);
    }
  }

  lemma ConcatCons(w: string, ws: seq<string>, s: string, i: nat)
    requires i + |w| <= |s| && w == s[i..i + |w|] && Concat(ws) == s[i + |w|..]
    ensures Concat([w] + ws) == s[i..]
  {
    assert ([w] + ws)[0] == w && ([w] + ws)[1..] == ws;
    assert s[i..] == w + s[i + |w|..];
  }

  /** A pattern is made of the tags N, T and E, is no longer than its side, and holds E only at its
      head; a side without the marker yields no E at all. */
  lemma {:induction false} PatternShape(g: Grammar, s: string)
    requires Pattern(g, s).Some?
    ensures var p := Pattern(g, s).value;
      |p| <= |s| && (forall j :: 0 <= j < |p| ==> p[j] in "NTE") &&
      (forall j :: 0 < j < |p| ==> p[j] != 'E') && ('|' !in s ==> 'E' !in p)
  {
    ScanShape(g, s, 0, "");
  }

  lemma {:induction false} ScanShape(g: Grammar, s: string, i: nat, acc: string)
    requires i <= |s| && ScanFrom(g, s, i, acc).Some?
    requires forall j :: 0 <= j < |acc| ==> acc[j] in "NTE"
    requires forall j :: 0 < j < |acc| ==> acc[j] != 'E'
    decreases |s| - i
    ensures var p := ScanFrom(g, s, i, acc).value;
      |p| <= |acc| + |s| - i && (forall j :: 0 <= j < |p| ==> p[j] in "NTE") &&
      (forall j :: 0 < j < |p| ==> p[j] != 'E') && ('|' !in s[i..] && 'E' !in acc ==> 'E' !in p)
  {
    if i == |s| {
    } else if s[i] == '|' {
      ScanShape(g, s, i + 1, "E");
      assert s[i] in s[i..];
    } else {
      var k := MatchLength(g, s, i, 1).value;
      var t := Tag(g, s[i..i + k]).value;
      ScanShape(g, s, i + k, acc + [t]);
      assert forall c :: c in s[i + k..] ==> c in s[i..];
    }
  }

  /** A minimal name not starting with the marker reads as exactly one symbol. */
  lemma SymbolPattern(g: Grammar, name: string)
    requires MinimalName(g, name) && |name| > 0 && name[0] != '|'
    ensures Pattern(g, name) == Some([Tag(g, name).value])
  {
    assert name[0..|name|] == name;
    MinimalMatch(g, name, name);
    assert "" + [Tag(g, name[0..|name|]).value] == [Tag(g, name).value];
    assert Pattern(g, name) == ScanFrom(g, name, |name|, [Tag(g, name).value]);
  }

  /** Reading a side that starts with a minimal name takes exactly that name as its first symbol. */
  lemma MinimalMatch(g: Grammar, s: string, name: string)
    requires MinimalName(g, name) && |name| > 0 && StartsWith(s, name)
    ensures MatchLength(g, s, 0, 1) == Some(|name|)
  {
    assert s[0..|name|] == name;
    forall m | 1 <= m < |name| ensures !NameAt(g, s, 0, m) {
      assert s[0..m] == name[..m];
    }
    assert NameAt(g, s, 0, |name|);
    MatchFirstNamed(g, s, 0, 1, |name|);
  }

  /** The search stops at the first length that names a symbol. */
  lemma {:induction false} MatchFirstNamed(g: Grammar, s: string, i: nat, k: nat, n: nat)
    requires 1 <= k <= n && NameAt(g, s, i, n)
    requires forall m :: k <= m < n ==> !NameAt(g, s, i, m)
    decreases n - k
    ensures MatchLength(g, s, i, k) == Some(n)
  {
    if k < n {
      assert !NameAt(g, s, i, k);
      MatchFirstNamed(g, s, i, k + 1, n);
    }
  }

  /** A minimal name at position `i` is read as one symbol: the scan moves past it and appends its tag. */
  lemma ReadSymbol(g: Grammar, s: string, i: nat, acc: string, name: string)
    requires i + |name| <= |s| && s[i..i + |name|] == name
    requires MinimalName(g, name) && |name| > 0 && name[0] != '|'
    ensures ScanFrom(g, s, i, acc) == ScanFrom(g, s, i + |name|, acc + [Tag(g, name).value])
  {
    assert s[i] == name[0];
    forall m | 1 <= m < |name| ensures !NameAt(g, s, i, m) {
      assert s[i..i + m] == name[..m];
    }
    MatchFirstNamed(g, s, i, 1, |name|);
  }

  /** The renamer's names are unreadable while their base is still a name: `b'` is read as `b`
      followed by a lone apostrophe, which names nothing, so the builder runs off the end. */
  lemma RenamedNameUnreadable(g: Grammar, b: string)
    requires MinimalName(g, b) && |b| > 0 && b[0] != '|' && !Named(g, "'")
    ensures Pattern(g, b + "'") == None
  {
    var s := b + "'";
    MinimalMatch(g, s, b);
    assert s[0..|b|] == b;
    assert s[0] == b[0];
    assert "" + [Tag(g, s[0..|b|]).value] == [Tag(g, b).value];
    assert Pattern(g, s) == ScanFrom(g, s, |b|, [Tag(g, b).value]);
    assert s[|b|..|b| + 1] == "'";
    assert MatchLength(g, s, |b|, 1) == None;
  }
}
