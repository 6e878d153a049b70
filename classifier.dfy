/** FindGrammarType (main.cpp:165-253): a fold over the rules that starts at Type3 (TypeNULL when
    there are none), can only move down through Type2 and Type1 to Type0, and stops at Type0. */
module Classifier {
  import opened Wrappers
  import opened Grammars
  import opened Patterns
  import opened RuleTypes

  /** The pattern pair of rule `i`, the left side read first; a side that no alphabet prefix reads
      fails with UnknownSymbol. */
  function RuleFormat(g: Grammar, i: nat): Result<Format>
    requires i < |g.rules|
  {
    match Pattern(g, g.rules[i].lhs)
    case None => Err(UnknownSymbol(i, true))
    case Some(l) =>
      match Pattern(g, g.rules[i].rhs)
      case None => Err(UnknownSymbol(i, false))
      case Some(r) => Ok(Format(l, r))
  }

  /** One turn of the rule loop (main.cpp:233-249): a failed check moves the running type one class
      down and hands the same rule to the next check. */
  function Step(g: Grammar, i: nat, f: Format, t: GrammarType): Result<GrammarType>
    requires i < |g.rules|
  {
    var t3 := if t == Type3 && !IsType3(f, g.rules) then Type2 else t;
    var t2 := if t3 == Type2 && !IsType2(f) then Type1 else t3;
    if t2 != Type1 then Ok(t2)
    else match Type1Verdict(f, g.rules[i], g.rules, g.start)
      case None => Err(OutOfRange(i))
      case Some(ok) => Ok(if ok then Type1 else Type0)
  }

  /** The running type after the rules from `i` on, starting from `t`. */
  function ClassifyFrom(g: Grammar, i: nat, t: GrammarType): Result<GrammarType>
    requires i <= |g.rules|
    decreases |g.rules| - i
  {
    if i == |g.rules| || t == Type0 then Ok(t)
    else match RuleFormat(g, i)
      case Err(e) => Err(e)
      case Ok(f) =>
        match Step(g, i, f, t)
        case Err(e) => Err(e)
        case Ok(t') => ClassifyFrom(g, i + 1, t')
  }

  function Classify(g: Grammar): Result<GrammarType> {
    ClassifyFrom(g, 0, if g.rules == [] then TypeNull else Type3)
  }

  /** FindGrammarType (main.cpp:165-253). */
  method FindGrammarType(g: Grammar) returns (r: Result<GrammarType>)
    ensures r == Classify(g)
  {
    var t := if |g.rules| == 0 then TypeNull else Type3;
    var i := 0;
    while i < |g.rules| && t != Type0
      invariant 0 <= i <= |g.rules|
      invariant ClassifyFrom(g, i, t) == Classify(g)
    {
      var rule := g.rules[i];
      var lhs := BuildPattern(g, rule.lhs);
      if lhs.None? {
        return Err(UnknownSymbol(i, true));
      }
      var rhs := BuildPattern(g, rule.rhs);
      if rhs.None? {
        return Err(UnknownSymbol(i, false));
      }
      var f := Format(lhs.value, rhs.value);
      if t == Type3 {
        if !IsType3(f, g.rules) {
          t := Type2;
        }
      }
      if t == Type2 {
        if !IsType2(f) {
          t := Type1;
        }
      }
      if t == Type1 {
        var ok := IsType1(f, rule, g.rules, g.start);
        if ok.None? {
          return Err(OutOfRange(i));
        }
        if !ok.value {
          t := Type0;
        }
      }
      i := i + 1;
    }
    return Ok(t);
  }

  /** The strictest class rule `i` allows on its own, checked in the loop's order. */
  function RuleBound(g: Grammar, i: nat, f: Format): nat
    requires i < |g.rules|
  {
    if IsType3(f, g.rules) then 3
    else if IsType2(f) then 2
    else if Type1Verdict(f, g.rules[i], g.rules, g.start) == Some(true) then 1
    else 0
  }

  /** The running type never rises again. */
  lemma {:induction false} ClassifyFromMonotone(g: Grammar, i: nat, t: GrammarType)
    requires i <= |g.rules| && ClassifyFrom(g, i, t).Ok?
    decreases |g.rules| - i
    ensures Rank(ClassifyFrom(g, i, t).value) <= Rank(t)
  {
    if i < |g.rules| && t != Type0 {
      var f := RuleFormat(g, i).value;
      ClassifyFromMonotone(g, i + 1, Step(g, i, f, t).value);
    }
  }

  /** TypeNULL comes back exactly for a grammar without rules. */
  lemma NullIffNoRules(g: Grammar)
    ensures Classify(g) == Ok(TypeNull) <==> g.rules == []
  {
    if g.rules != [] && Classify(g).Ok? {
      ClassifyFromMonotone(g, 0, Type3);
    }
  }

  /** No rule lets the grammar be stricter than the rule allows on its own. */
  lemma {:induction false} ClassifyFromBound(g: Grammar, i: nat, t: GrammarType, k: nat, f: Format)
    requires i <= k < |g.rules| && RuleFormat(g, k) == Ok(f) && t != TypeNull
    requires ClassifyFrom(g, i, t).Ok?
    decreases |g.rules| - i
    ensures Rank(ClassifyFrom(g, i, t).value) <= RuleBound(g, k, f)
  {
    if t == Type0 {
    } else {
      var t' := Step(g, i, RuleFormat(g, i).value, t).value;
      if i == k {
        ClassifyFromMonotone(g, i + 1, t');
      } else {
        ClassifyFromBound(g, i + 1, t', k, f);
      }
    }
  }

  lemma ClassifyBound(g: Grammar, k: nat, f: Format)
    requires k < |g.rules| && RuleFormat(g, k) == Ok(f) && Classify(g).Ok?
    ensures Rank(Classify(g).value) <= RuleBound(g, k, f)
  {
    ClassifyFromBound(g, 0, Type3, k, f);
  }

  /** A rule with more than one tag on its left side fails IsType3 and IsType2, so the grammar is at
      best context-sensitive. */
  lemma MultiTagLhsNotContextFree(g: Grammar, k: nat)
    requires k < |g.rules| && RuleFormat(g, k).Ok? && |RuleFormat(g, k).value.lhs| > 1
    requires Classify(g).Ok?
    ensures Classify(g).value == Type1 || Classify(g).value == Type0
  {
    ClassifyBound(g, k, RuleFormat(g, k).value);
  }

  /** Once a rule drives the running type to Type0 the scan stops: when the first rule does, the
      grammar is Type0 whatever the later rules hold, even symbols no alphabet names. */
  lemma FirstRuleType0Decides(g: Grammar)
    requires |g.rules| > 0 && RuleFormat(g, 0).Ok? && RuleBound(g, 0, RuleFormat(g, 0).value) == 0
    requires Type1Verdict(RuleFormat(g, 0).value, g.rules[0], g.rules, g.start).Some?
    ensures Classify(g) == Ok(Type0)
  {
    assert ClassifyFrom(g, 0, Type3) == ClassifyFrom(g, 1, Type0);
  }

  /** A grammar is Type3 exactly when it has rules and every rule reads and passes IsType3. */
  lemma Type3Iff(g: Grammar)
    ensures Classify(g) == Ok(Type3) <==>
      g.rules != [] && forall k :: 0 <= k < |g.rules| ==> RuleFormat(g, k).Ok? && IsType3(RuleFormat(g, k).value, g.rules)
  {
    if g.rules != [] {
      if forall k :: 0 <= k < |g.rules| ==> RuleFormat(g, k).Ok? && IsType3(RuleFormat(g, k).value, g.rules) {
        AllType3From(g, 0);
      }
      if Classify(g) == Ok(Type3) {
        forall k | 0 <= k < |g.rules| ensures RuleFormat(g, k).Ok? && IsType3(RuleFormat(g, k).value, g.rules) {
          ReachesEveryRule(g, 0, Type3, k);
          ClassifyBound(g, k, RuleFormat(g, k).value);
        }
      }
    }
  }

  lemma {:induction false} AllType3From(g: Grammar, i: nat)
    requires i <= |g.rules|
    requires forall k :: i <= k < |g.rules| ==> RuleFormat(g, k).Ok? && IsType3(RuleFormat(g, k).value, g.rules)
    decreases |g.rules| - i
    ensures ClassifyFrom(g, i, Type3) == Ok(Type3)
  {
    if i < |g.rules| {
      AllType3From(g, i + 1);
    }
  }

  /** A scan that ends above Type0 has read every rule from `i` on. */
  lemma {:induction false} ReachesEveryRule(g: Grammar, i: nat, t: GrammarType, k: nat)
    requires i <= k < |g.rules| && ClassifyFrom(g, i, t).Ok? && ClassifyFrom(g, i, t).value != Type0
    decreases |g.rules| - i
    ensures RuleFormat(g, k).Ok?
  {
    if i < k {
      ReachesEveryRule(g, i + 1, Step(g, i, RuleFormat(g, i).value, t).value, k);
    }
  }

  /** A grammar all of whose rules read and have one tag on the left is at least context-free;
      conversely a context-free or regular grammar has only rules that read and pass IsType3 or IsType2. */
  lemma ContextFree(g: Grammar)
    ensures g.rules != [] && (forall k :: 0 <= k < |g.rules| ==> RuleFormat(g, k).Ok? && IsType2(RuleFormat(g, k).value))
      ==> Classify(g) == Ok(Type2) || Classify(g) == Ok(Type3)
    ensures Classify(g) == Ok(Type2) || Classify(g) == Ok(Type3) ==>
      forall k :: 0 <= k < |g.rules| ==>
        (RuleFormat(g, k).Ok? && (IsType3(RuleFormat(g, k).value, g.rules) || IsType2(RuleFormat(g, k).value)))
  {
    if g.rules != [] && (forall k :: 0 <= k < |g.rules| ==> RuleFormat(g, k).Ok? && IsType2(RuleFormat(g, k).value)) {
      AllType2From(g, 0, Type3);
    }
    if Classify(g) == Ok(Type2) || Classify(g) == Ok(Type3) {
      forall k | 0 <= k < |g.rules| ensures RuleFormat(g, k).Ok? &&
        (IsType3(RuleFormat(g, k).value, g.rules) || IsType2(RuleFormat(g, k).value))
      {
        ReachesEveryRule(g, 0, Type3, k);
        ClassifyBound(g, k, RuleFormat(g, k).value);
      }
    }
  }

  lemma {:induction false} AllType2From(g: Grammar, i: nat, t: GrammarType)
    requires i <= |g.rules| && (t == Type2 || t == Type3)
    requires forall k :: i <= k < |g.rules| ==> RuleFormat(g, k).Ok? && IsType2(RuleFormat(g, k).value)
    decreases |g.rules| - i
    ensures ClassifyFrom(g, i, t) == Ok(Type2) || ClassifyFrom(g, i, t) == Ok(Type3)
  {
    if i < |g.rules| {
      AllType2From(g, i + 1, Step(g, i, RuleFormat(g, i).value, t).value);
    }
  }

  /** A rule `X -> |` with a one-symbol left side keeps its grammar out of Type3: the empty-word
      check tests `find` as a boolean and the rule's own right side does not start with the tag. */
  lemma EpsilonRuleBlocksType3(g: Grammar, k: nat)
    requires k < |g.rules| && g.rules[k].rhs == EmptyWord
    requires Pattern(g, g.rules[k].lhs) == Some("N") || Pattern(g, g.rules[k].lhs) == Some("T")
    ensures Classify(g) != Ok(Type3)
  {
    assert Pattern(g, EmptyWord) == ScanFrom(g, EmptyWord, 1, "E");
    if Classify(g) == Ok(Type3) {
      var f := RuleFormat(g, k).value;
      EpsilonRuleNotType3(f, g.rules[k], g.rules);
      ClassifyBound(g, k, f);
    }
  }
}
