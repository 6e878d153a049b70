/** The per-rule predicates IsType3, IsType2 and IsType1 (main.cpp:42-163). They read a rule's
    pattern pair and, for the empty-word and context checks, the raw rule text. */
module RuleTypes {
  import opened Wrappers
  import opened Strings
  import opened Grammars

  /** A rule's pattern pair, the source's `format`: tags of the left and of the right side. */
  datatype Format = Format(lhs: string, rhs: string)

  /** The loops of main.cpp:50-54 and main.cpp:87-91 test `find(p)` as a boolean, which is false only
      when `p` is found at position 0: they pass exactly when every right side starts with `p`. */
  function AllRhsStartWith(rules: seq<Rule>, p: string): (ok: bool)
    ensures ok <==> forall r <- rules :: StartsWith(r.rhs, p)
  {
    if rules == [] then true
    else
      FindIsZeroIffPrefix(rules[0].rhs, p);
      assert forall r <- rules :: r == rules[0] || r in rules[1..];
      Find(rules[0].rhs, p) == Some(0) && AllRhsStartWith(rules[1..], p)
  }

  /** IsType3 (main.cpp:42-70). It accepts a rule whose left pattern has at most one tag and whose
      right pattern either has no N (and, when it is exactly "E", every rule's right side starts with
      the left tag string), or has exactly one N and does not both start and end with a T. */
  function IsType3(f: Format, rules: seq<Rule>): (ok: bool)
    ensures ok <==> (|f.lhs| <= 1 &&
      if 'N' !in f.rhs then (f.rhs == "E" ==> forall r <- rules :: StartsWith(r.rhs, f.lhs))
      else multiset(f.rhs)['N'] == 1 && !(f.rhs[0] == 'T' && f.rhs[|f.rhs| - 1] == 'T'))
  {
    if |f.lhs| > 1 then false
    else if FindChar(f.rhs, 'N', 0).None? then
      FindCharNone(f.rhs, 'N');
      f.rhs == "E" ==> AllRhsStartWith(rules, f.lhs)
    else
      FindCharSome(f.rhs, 'N');
      FirstEqualsLastIffSingle(f.rhs, 'N');
      if FindChar(f.rhs, 'N', 0) != FindLast(f.rhs, 'N') then false
      else
        assert FindChar(f.rhs, 'T', 0) == Some(0) <==> f.rhs[0] == 'T' by {
          assert f.rhs[0..1] == [f.rhs[0]];
        }
        !(FindChar(f.rhs, 'T', 0) == Some(0) && FindLast(f.rhs, 'T') == Some(|f.rhs| - 1))
  }

  /** IsType2 (main.cpp:72-75): exactly one tag on the left. */
  function IsType2(f: Format): bool {
    |f.lhs| == 1
  }

  /** The offset of the symbol the rule rewrites, as the loop of main.cpp:96-136 finds it, scanning
      the raw left side from character `i`: the first character missing from the right side; or,
      at the first character that occurs twice on the left, the offset of RepeatedPivot when its
      occurrence counts on the two sides differ, and that character's own offset when they agree.
      None is where the source throws std::out_of_range. */
  function PivotFrom(lhs: string, rhs: string, i: nat): (r: Option<nat>)
    requires i <= |lhs|
    decreases |lhs| - i
    ensures r.Some? ==> r.value <= |lhs|
  {
    if i == |lhs| then Some(i)
    else
      var c := lhs[i];
      if FindChar(rhs, c, 0).None? then Some(i)
      else if FindChar(lhs, c, 0) != FindLast(lhs, c) then
        if multiset(lhs)[c] as int - multiset(rhs)[c] as int != 0 then
          assert OccursAt(lhs, [c], i);
          RepeatedPivot(lhs, rhs, c, FindChar(lhs, c, 0), 0, None)
        else Some(i)
      else PivotFrom(lhs, rhs, i + 1)
  }

  function Pivot(lhs: string, rhs: string): (r: Option<nat>)
    ensures r.Some? ==> r.value <= |lhs|
  {
    PivotFrom(lhs, rhs, 0)
  }

  /** `rule.first.compare(prev, n, rule.second, prev, n) != 0` (main.cpp:121). */
  predicate Diverges(lhs: string, rhs: string, prev: nat, n: nat)
    requires prev <= |lhs| && prev <= |rhs|
  {
    Substr(lhs, prev, n) != Substr(rhs, prev, n)
  }

  /** The while loop of main.cpp:118-132 over the occurrences `offset` of `c` on the left side: each
      time the substrings of length `offset` starting at the previous occurrence differ between the
      two sides, the previous occurrence becomes the candidate (`diverged`, the last one wins);
      without any, the last character of the left side. None: `prev` is past the right side's end,
      where std::string::compare throws. */
  function RepeatedPivot(lhs: string, rhs: string, c: char, offset: Option<nat>, prev: nat, diverged: Option<nat>): (r: Option<nat>)
    requires 0 < |lhs| && prev < |lhs|
    requires offset.Some? ==> offset.value < |lhs|
    requires diverged.Some? ==> diverged.value < |lhs|
    decreases if offset.Some? then |lhs| - offset.value else 0
    ensures r.Some? ==> r.value < |lhs|
  {
    match offset
    case None => Some(if diverged.Some? then diverged.value else |lhs| - 1)
    case Some(o) =>
      if prev > |rhs| then None
      else
        var diverged' := if Diverges(lhs, rhs, prev, o) then Some(prev) else diverged;
        var next := FindChar(lhs, c, o + 1);
        assert next.Some? ==> OccursAt(lhs, [c], next.value);
        RepeatedPivot(lhs, rhs, c, next, o, diverged')
  }

  /** The context checks of main.cpp:138-159 around the pivot `off`: the left context `lhs[..off]`
      must be what the right side holds in its first `off` characters, and the right context must
      be exactly what follows position `off` of the right side. None: std::out_of_range. */
  function ContextCheck(lhs: string, rhs: string, off: nat): Option<bool>
    requires off <= |lhs|
  {
    var left := lhs[..off];
    var right := if off + 1 <= |lhs| then lhs[off + 1..] else "";
    if |left| > 0 && Substr(rhs, 0, off) != left then Some(false)
    else if |right| > 0 then (if off + 1 > |rhs| then None else Some(rhs[off + 1..] == right))
    else Some(true)
  }

  /** The verdict of IsType1 (main.cpp:77-163); None where the source throws std::out_of_range. */
  function Type1Verdict(f: Format, rule: Rule, rules: seq<Rule>, start: string): Option<bool> {
    if |f.lhs| > |f.rhs| then Some(false)
    else if f.rhs == "E" && (rule.lhs != start || !AllRhsStartWith(rules, start)) then Some(false)
    else if |f.lhs| <= 1 then Some(true)
    else match Pivot(rule.lhs, rule.rhs)
      case None => None
      case Some(off) => ContextCheck(rule.lhs, rule.rhs, off)
  }

  /** The number of occurrences of `c` in `s`, counted by the loops of main.cpp:104-114. */
  method Occurrences(s: string, c: char) returns (n: nat)
    ensures n == multiset(s)[c]
  {
    n := 0;
    for j := 0 to |s|
      invariant n == multiset(s[..j])[c]
    {
      assert s[..j + 1] == s[..j] + [s[j]];
      if s[j] == c {
        n := n + 1;
      }
    }
    assert s[..|s|] == s;
  }

  /** The while loop of main.cpp:118-132, from the first occurrence of `c`. */
  method FindRepeatedPivot(lhs: string, rhs: string, c: char) returns (r: Option<nat>)
    requires c in lhs
    ensures r == RepeatedPivot(lhs, rhs, c, FindChar(lhs, c, 0), 0, None)
  {
    var i :| 0 <= i < |lhs| && lhs[i] == c;
    assert OccursAt(lhs, [c], i);
    var offset := FindChar(lhs, c, 0);
    var prev: nat := 0;
    var found := false;
    var off: nat := 0;
    ghost var diverged: Option<nat> := None;
    while offset.Some?
      invariant prev < |lhs| && (offset.Some? ==> offset.value < |lhs|)
      invariant found <==> diverged.Some?
      invariant found ==> off == diverged.value < |lhs|
      invariant RepeatedPivot(lhs, rhs, c, offset, prev, diverged)
             == RepeatedPivot(lhs, rhs, c, FindChar(lhs, c, 0), 0, None)
      decreases if offset.Some? then |lhs| - offset.value else 0
    {
      var o := offset.value;
      if prev > |rhs| {
        return None;
      }
      ghost var before_prev, before_div := prev, diverged;
      if Diverges(lhs, rhs, prev, o) {
        found := true;
        off := prev;
        diverged := Some(prev);
      }
      prev := o;
      offset := FindChar(lhs, c, o + 1);
      assert offset.Some? ==> OccursAt(lhs, [c], offset.value);
      RepeatedPivotStep(lhs, rhs, c, o, before_prev, before_div);
    }
    if !found {
      off := |lhs| - 1;
    }
    return Some(off);
  }

  /** One turn of the loop of main.cpp:120-128. */
  lemma RepeatedPivotStep(lhs: string, rhs: string, c: char, o: nat, prev: nat, diverged: Option<nat>)
    requires 0 < |lhs| && prev < |lhs| && o < |lhs| && prev <= |rhs|
    requires diverged.Some? ==> diverged.value < |lhs|
    ensures var diverged' := if Diverges(lhs, rhs, prev, o) then Some(prev) else diverged;
      RepeatedPivot(lhs, rhs, c, Some(o), prev, diverged) == RepeatedPivot(lhs, rhs, c, FindChar(lhs, c, o + 1), o, diverged')
  {
    var next := FindChar(lhs, c, o + 1);
    assert next.Some? ==> OccursAt(lhs, [c], next.value);
  }

  /** The occurrence loop keeps the last diverging occurrence, not the first: on `AAA -> BBAA` the
      prefixes already differ at the first occurrence of `A`, yet the pivot is the second one. */
  lemma PivotTakesLastDivergence()
    ensures Diverges("AAA", "BBAA", 0, 1) && Pivot("AAA", "BBAA") == Some(1)
  {
    PivotEntersLoop();
    LoopKeepsLast();
  }

  /** On `AAA -> BBAA` the first character repeats and its counts differ, so the loop decides. */
  lemma PivotEntersLoop()
    ensures Pivot("AAA", "BBAA") == RepeatedPivot("AAA", "BBAA", 'A', Some(0), 0, None)
  {
    RepeatedA();
    CountsDiffer();
    assert FindChar("BBAA", 'A', 0).Some? by { assert OccursAt("BBAA", ['A'], 2); }
  }

  /** Two substrings at `prev` differ when their first characters do. */
  lemma DivergesAtFirst(lhs: string, rhs: string, prev: nat, n: nat)
    requires 0 < n && prev + n <= |lhs| && prev + n <= |rhs| && lhs[prev] != rhs[prev]
    ensures Diverges(lhs, rhs, prev, n)
  {
    assert Substr(lhs, prev, n)[0] == lhs[prev] && Substr(rhs, prev, n)[0] == rhs[prev];
  }

  /** `find(c, i)` returns `i` when `c` is at `i`. */
  lemma FindCharHere(s: string, c: char, i: nat)
    requires i < |s| && s[i] == c
    ensures FindChar(s, c, i) == Some(i)
  {
    assert s[i..i + 1] == [c];
  }

  lemma RepeatedA()
    ensures FindChar("AAA", 'A', 0) == Some(0) && FindLast("AAA", 'A') == Some(2)
  {
    FindCharHere("AAA", 'A', 0);
  }

  lemma CountsDiffer()
    ensures multiset("AAA")['A'] == 3 && multiset("BBAA")['A'] == 2
  {
    assert "AAA" == ['A'] + ['A'] + ['A'];
    assert "BBAA" == ['B'] + ['B'] + ['A'] + ['A'];
  }

  lemma LoopKeepsLast()
    ensures Diverges("AAA", "BBAA", 0, 1) && RepeatedPivot("AAA", "BBAA", 'A', Some(0), 0, None) == Some(1)
  {
    var lhs, rhs := "AAA", "BBAA";
    assert !Diverges(lhs, rhs, 0, 0);
    DivergesAtFirst(lhs, rhs, 0, 1);
    DivergesAtFirst(lhs, rhs, 1, 2);
    FindCharHere(lhs, 'A', 1);
    FindCharHere(lhs, 'A', 2);
    assert FindChar(lhs, 'A', 3) == None;
    RepeatedPivotStep(lhs, rhs, 'A', 0, 0, None);
    RepeatedPivotStep(lhs, rhs, 'A', 1, 0, None);
    RepeatedPivotStep(lhs, rhs, 'A', 2, 1, Some(0));
  }

  /** The comparisons the loop of main.cpp:118-128 makes for the repeated character `c`:
      `compare(p, o, ...)` where `o` is the first occurrence of `c` and `p` is 0, or `o` is the
      occurrence of `c` that follows the occurrence `p`. */
  predicate Compared(lhs: string, c: char, p: nat, o: nat) {
    p < |lhs| && ((p == 0 && FindChar(lhs, c, 0) == Some(o)) || (lhs[p] == c && FindChar(lhs, c, p + 1) == Some(o)))
  }

  /** Some comparison whose occurrence is at or after `from` finds the two sides different. */
  ghost predicate AnyDivergence(lhs: string, rhs: string, c: char, from: nat) {
    exists p: nat, o: nat :: Compared(lhs, c, p, o) && from <= o && p <= |rhs| && Diverges(lhs, rhs, p, o)
  }

  /** `d` starts a comparison (at or after `from`) that diverges, and no comparison starting
      further right does. */
  ghost predicate LastDivergence(lhs: string, rhs: string, c: char, from: nat, d: nat) {
    (exists o: nat :: Compared(lhs, c, d, o) && from <= o && d <= |rhs| && Diverges(lhs, rhs, d, o)) &&
    forall p: nat, o: nat :: Compared(lhs, c, p, o) && from <= o && d < p <= |rhs| ==> !Diverges(lhs, rhs, p, o)
  }

  /** The occurrence loop of main.cpp:118-132 for all inputs: it fails (std::out_of_range) exactly
      when some comparison starts past the end of the right side; otherwise its result is the start
      of the last comparison that finds the sides different, and the last character of the left
      side when none does. */
  lemma RepeatedPivotKeepsLast(lhs: string, rhs: string, c: char)
    requires c in lhs
    ensures var r := RepeatedPivot(lhs, rhs, c, FindChar(lhs, c, 0), 0, None);
      (r.Some? <==> forall p: nat, o: nat :: Compared(lhs, c, p, o) ==> p <= |rhs|) &&
      (r.Some? && AnyDivergence(lhs, rhs, c, 0) ==> LastDivergence(lhs, rhs, c, 0, r.value)) &&
      (r.Some? && !AnyDivergence(lhs, rhs, c, 0) ==> r.value == |lhs| - 1)
  {
    FindCharIs(lhs, c, 0);
    RepeatedPivotChain(lhs, rhs, c, FindChar(lhs, c, 0), 0, None, 0);
  }

  /** RepeatedPivotKeepsLast from any state of the loop: `from` is where the search for the next
      occurrence started, `prev` the occurrence before it (0 before the first turn). */
  lemma {:induction false} RepeatedPivotChain(lhs: string, rhs: string, c: char, offset: Option<nat>, prev: nat, diverged: Option<nat>, from: nat)
    requires 0 < |lhs| && prev < |lhs| && (diverged.Some? ==> diverged.value < |lhs|)
    requires offset == FindChar(lhs, c, from) && (offset.Some? ==> offset.value < |lhs|)
    requires (from == 0 && prev == 0) || (from == prev + 1 && lhs[prev] == c)
    decreases |lhs| - from
    ensures var r := RepeatedPivot(lhs, rhs, c, offset, prev, diverged);
      (r.Some? <==> forall p: nat, o: nat :: Compared(lhs, c, p, o) && from <= o ==> p <= |rhs|) &&
      (r.Some? && AnyDivergence(lhs, rhs, c, from) ==> LastDivergence(lhs, rhs, c, from, r.value)) &&
      (r.Some? && !AnyDivergence(lhs, rhs, c, from) ==> r.value == if diverged.Some? then diverged.value else |lhs| - 1)
  {
    match offset
    case None =>
      ChainEnd(lhs, c, from);
    case Some(o) =>
      ChainSplit(lhs, c, from, prev, o);
      ChainFitsSplit(lhs, rhs, c, from, prev, o);
      if prev <= |rhs| {
        var diverged' := if Diverges(lhs, rhs, prev, o) then Some(prev) else diverged;
        var next := FindChar(lhs, c, o + 1);
        FindCharIs(lhs, c, o + 1);
        RepeatedPivotChain(lhs, rhs, c, next, o, diverged', o + 1);
        RepeatedPivotStep(lhs, rhs, c, o, prev, diverged);
        ChainDivergenceSplit(lhs, rhs, c, from, prev, o);
        var r := RepeatedPivot(lhs, rhs, c, next, o, diverged');
        if r.Some? && AnyDivergence(lhs, rhs, c, o + 1) {
          LastDivergenceExtends(lhs, rhs, c, from, prev, o, r.value);
        } else if r.Some? && Diverges(lhs, rhs, prev, o) {
          LastDivergenceHere(lhs, rhs, c, from, prev, o);
        }
      }
  }

  /** The comparisons from `from` all start within the right side exactly when the one at `prev`
      does and those from `o + 1` on do. */
  lemma ChainFitsSplit(lhs: string, rhs: string, c: char, from: nat, prev: nat, o: nat)
    requires from <= o && Compared(lhs, c, prev, o)
    requires forall p: nat, q: nat :: Compared(lhs, c, p, q) && from <= q ==> (p == prev && q == o) || (o < q && o <= p)
    ensures (forall p: nat, q: nat :: Compared(lhs, c, p, q) && from <= q ==> p <= |rhs|) <==>
      prev <= |rhs| && forall p: nat, q: nat :: Compared(lhs, c, p, q) && o + 1 <= q ==> p <= |rhs|
  {
  }

  /** Some comparison from `from` diverges exactly when the one at `prev` does or one from `o + 1`
      on does. */
  lemma ChainDivergenceSplit(lhs: string, rhs: string, c: char, from: nat, prev: nat, o: nat)
    requires from <= o && Compared(lhs, c, prev, o) && prev <= |rhs|
    requires forall p: nat, q: nat :: Compared(lhs, c, p, q) && from <= q ==> (p == prev && q == o) || (o < q && o <= p)
    ensures AnyDivergence(lhs, rhs, c, from) <==> Diverges(lhs, rhs, prev, o) || AnyDivergence(lhs, rhs, c, o + 1)
  {
    if AnyDivergence(lhs, rhs, c, from) && !Diverges(lhs, rhs, prev, o) {
      var p: nat, q: nat :| Compared(lhs, c, p, q) && from <= q && p <= |rhs| && Diverges(lhs, rhs, p, q);
      assert o + 1 <= q;
    }
  }

  /** The last divergence from `o + 1` on is also the last one from `from`. */
  lemma LastDivergenceExtends(lhs: string, rhs: string, c: char, from: nat, prev: nat, o: nat, d: nat)
    requires from <= o && Compared(lhs, c, prev, o) && prev <= o
    requires forall p: nat, q: nat :: Compared(lhs, c, p, q) && from <= q ==> (p == prev && q == o) || (o < q && o <= p)
    requires LastDivergence(lhs, rhs, c, o + 1, d)
    ensures LastDivergence(lhs, rhs, c, from, d)
  {
    var q: nat :| Compared(lhs, c, d, q) && o + 1 <= q && d <= |rhs| && Diverges(lhs, rhs, d, q);
    assert o <= d;
  }

  /** A diverging comparison at `prev` with none diverging from `o + 1` on is the last divergence. */
  lemma LastDivergenceHere(lhs: string, rhs: string, c: char, from: nat, prev: nat, o: nat)
    requires from <= o && Compared(lhs, c, prev, o) && prev <= |rhs| && Diverges(lhs, rhs, prev, o)
    requires forall p: nat, q: nat :: Compared(lhs, c, p, q) && from <= q ==> (p == prev && q == o) || (o < q && o <= p)
    requires !AnyDivergence(lhs, rhs, c, o + 1)
    ensures LastDivergence(lhs, rhs, c, from, prev)
  {
  }

  /** With no occurrence of `c` at or after `from`, no comparison is left. */
  lemma ChainEnd(lhs: string, c: char, from: nat)
    requires FindChar(lhs, c, from).None?
    ensures forall p: nat, o: nat :: Compared(lhs, c, p, o) ==> o < from
  {
    FindCharIs(lhs, c, from);
    forall p: nat, o: nat | Compared(lhs, c, p, o)
      ensures o < from
    {
      FindCharIs(lhs, c, 0);
      FindCharIs(lhs, c, p + 1);
    }
  }

  /** The comparisons at or after `from` are the one at `prev` against the next occurrence `o`,
      then those the loop makes from `o + 1` on, which all start at `o` or further right. */
  lemma ChainSplit(lhs: string, c: char, from: nat, prev: nat, o: nat)
    requires FindChar(lhs, c, from) == Some(o) && prev < |lhs|
    requires (from == 0 && prev == 0) || (from == prev + 1 && lhs[prev] == c)
    ensures from <= o < |lhs| && lhs[o] == c && prev <= o
    ensures Compared(lhs, c, prev, o)
    ensures forall p: nat, q: nat :: Compared(lhs, c, p, q) && from <= q ==> (p == prev && q == o) || (o < q && o <= p)
  {
    FindCharIs(lhs, c, from);
    FindCharIs(lhs, c, 0);
    forall p: nat, q: nat | Compared(lhs, c, p, q) && from <= q
      ensures (p == prev && q == o) || (o < q && o <= p)
    {
      FindCharIs(lhs, c, p + 1);
    }
  }

  /** The scan of main.cpp:96-100 passes over characters that occur on the right side and only once
      on the left. */
  lemma {:induction false} PivotSkipsSingles(lhs: string, rhs: string, k: nat, i: nat)
    requires k <= i <= |lhs|
    requires forall j :: k <= j < i ==> lhs[j] in rhs && multiset(lhs)[lhs[j]] == 1
    decreases i - k
    ensures PivotFrom(lhs, rhs, k) == PivotFrom(lhs, rhs, i)
  {
    if k < i {
      var c := lhs[k];
      FindCharIs(rhs, c, 0);
      FirstEqualsLastIffSingle(lhs, c);
      PivotSkipsSingles(lhs, rhs, k + 1, i);
    }
  }

  /** The pivot is the first left character missing from the right side (main.cpp:97), when every
      character before it occurs on the right and only once on the left; with no such character,
      the scan ends at the length of the left side. */
  lemma PivotIsFirstAbsent(lhs: string, rhs: string, i: nat)
    requires i <= |lhs| && (i < |lhs| ==> lhs[i] !in rhs)
    requires forall j :: 0 <= j < i ==> lhs[j] in rhs && multiset(lhs)[lhs[j]] == 1
    ensures Pivot(lhs, rhs) == Some(i)
  {
    PivotSkipsSingles(lhs, rhs, 0, i);
    if i < |lhs| {
      FindCharIs(rhs, lhs[i], 0);
    }
  }

  /** At the first left character that occurs on the right and more than once on the left
      (main.cpp:100-135): the occurrence loop decides when the two sides count it differently, and
      otherwise the pivot is that character's own position. */
  lemma PivotAtFirstRepeat(lhs: string, rhs: string, i: nat)
    requires i < |lhs| && lhs[i] in rhs && multiset(lhs)[lhs[i]] > 1
    requires forall j :: 0 <= j < i ==> lhs[j] in rhs && multiset(lhs)[lhs[j]] == 1
    ensures var c := lhs[i];
      Pivot(lhs, rhs) == if multiset(lhs)[c] != multiset(rhs)[c] then RepeatedPivot(lhs, rhs, c, FindChar(lhs, c, 0), 0, None) else Some(i)
  {
    PivotSkipsSingles(lhs, rhs, 0, i);
    var c := lhs[i];
    FindCharIs(rhs, c, 0);
    FindCharIs(lhs, c, 0);
    FirstEqualsLastIffSingle(lhs, c);
    assert OccursAt(lhs, [c], i) by { assert lhs[i..i + 1] == [c]; }
  }

  /** The pivot search loop of main.cpp:95-136. */
  method FindPivot(lhs: string, rhs: string) returns (r: Option<nat>)
    ensures r == Pivot(lhs, rhs)
  {
    var off := 0;
    var stop := false;
    r := Some(0);
    while off < |lhs| && !stop
      invariant 0 <= off <= |lhs|
      invariant !stop ==> PivotFrom(lhs, rhs, off) == Pivot(lhs, rhs)
      invariant stop ==> r == Pivot(lhs, rhs)
      decreases |lhs| - off, if stop then 0 else 1
    {
      var c := lhs[off];
      if FindChar(rhs, c, 0).None? {
        r, stop := Some(off), true;
      } else if FindChar(lhs, c, 0) != FindLast(lhs, c) {
        var inLhs := Occurrences(lhs, c);
        var inRhs := Occurrences(rhs, c);
        if inLhs as int - inRhs as int != 0 {
          r := FindRepeatedPivot(lhs, rhs, c);
        } else {
          r := Some(off);
        }
        stop := true;
      } else {
        off := off + 1;
      }
    }
    if !stop {
      r := Some(off);
    }
  }

  /** The left and right contexts of the pivot, built character by character (main.cpp:138-147). */
  method Contexts(lhs: string, off: nat) returns (left: string, right: string)
    requires off <= |lhs|
    ensures left == lhs[..off]
    ensures right == if off + 1 <= |lhs| then lhs[off + 1..] else ""
  {
    left, right := "", "";
    for j := 0 to |lhs|
      invariant left == lhs[..if j < off then j else off]
      invariant right == lhs[if j < off + 1 then j else off + 1..j]
    {
      if j < off {
        left := left + [lhs[j]];
      } else if j > off {
        right := right + [lhs[j]];
      }
    }
  }

  /** IsType1 (main.cpp:77-163): a contracting rule fails, an empty-word rule fails unless its raw
      left side is the start symbol, and a rule with several symbols on the left must keep the
      contexts of its pivot. */
  method IsType1(f: Format, rule: Rule, rules: seq<Rule>, start: string) returns (r: Option<bool>)
    ensures r == Type1Verdict(f, rule, rules, start)
    ensures |f.lhs| > |f.rhs| ==> r == Some(false)
    ensures f.rhs == "E" && rule.lhs != start ==> r == Some(false)
  {
    if |f.lhs| > |f.rhs| {
      return Some(false);
    }
    if f.rhs == "E" {
      if rule.lhs != start {
        return Some(false);
      }
      for j := 0 to |rules|
        invariant forall q <- rules[..j] :: StartsWith(q.rhs, start)
      {
        FindIsZeroIffPrefix(rules[j].rhs, start);
        if Find(rules[j].rhs, start) != Some(0) {
          return Some(false);
        }
        assert rules[..j + 1] == rules[..j] + [rules[j]];
      }
      assert rules[..|rules|] == rules;
    }
    if |f.lhs| > 1 {
      var lhs, rhs := rule.lhs, rule.rhs;
      var pivot := FindPivot(lhs, rhs);
      if pivot.None? {
        return None;
      }
      var off := pivot.value;
      var left, right := Contexts(lhs, off);
      if |left| > 0 && Substr(rhs, 0, off) != left {
        return Some(false);
      }
      if |right| > 0 {
        if off + 1 > |rhs| {
          return None;
        }
        if rhs[off + 1..] != right {
          return Some(false);
        }
      }
    }
    return Some(true);
  }

  /** Because of the boolean `find` test, a rule whose right side is exactly the marker fails IsType3
      whenever its left pattern is one tag: the rule's own right side does not start with it. */
  lemma EpsilonRuleNotType3(f: Format, rule: Rule, rules: seq<Rule>)
    requires rule in rules && rule.rhs == EmptyWord && f.rhs == "E"
    requires f.lhs == "N" || f.lhs == "T"
    ensures !IsType3(f, rules)
  {
    assert rule.rhs[..1] == EmptyWord;
  }

  /** The same test makes every rule `S -> |` fail IsType1, contrary to the exception the check is
      meant to allow for the start symbol. */
  lemma EpsilonRuleNotType1(f: Format, rule: Rule, rules: seq<Rule>, start: string)
    requires rule in rules && rule.rhs == EmptyWord && f.rhs == "E"
    requires start != "" && start != EmptyWord
    ensures Type1Verdict(f, rule, rules, start) == Some(false)
  {
  }

  /** A rule accepted by IsType1 with several symbols on the left keeps the left context of its pivot
      as a prefix of the right side; when there is a right context, the right side must have the
      left side's exact character length, so only one character is ever rewritten. */
  lemma {:induction false} Type1KeepsContexts(f: Format, rule: Rule, rules: seq<Rule>, start: string)
    requires Type1Verdict(f, rule, rules, start) == Some(true) && |f.lhs| > 1
    ensures Pivot(rule.lhs, rule.rhs).Some?
    ensures var off := Pivot(rule.lhs, rule.rhs).value;
      StartsWith(rule.rhs, rule.lhs[..off]) &&
      (off + 1 < |rule.lhs| ==> |rule.rhs| == |rule.lhs| && rule.rhs[off + 1..] == rule.lhs[off + 1..])
  {
    var off := Pivot(rule.lhs, rule.rhs).value;
    var lhs, rhs := rule.lhs, rule.rhs;
    if off > 0 {
      assert Substr(rhs, 0, off) == lhs[..off];
      assert |rhs| >= off;
    }
  }
}
