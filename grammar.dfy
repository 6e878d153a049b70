/** The grammar value shared by the classifier and the constructors (main.cpp:6-21). */
module Grammars {
  import opened Wrappers

  /** A production rule: raw left and right sides, each a concatenation of symbol names. */
  datatype Rule = Rule(lhs: string, rhs: string)

  /** Alphabets in insertion order, the production rules and the start symbol. */
  datatype Grammar = Grammar(nonTerminals: seq<string>, terminals: seq<string>, rules: seq<Rule>, start: string)

  /** A default-constructed grammar: every vector and the start symbol empty. */
  const EmptyGrammar := Grammar([], [], [], "")

  /** The reserved marker a rule side uses for the empty word. */
  const EmptyWord := "|"

  datatype GrammarType = Type0 | Type1 | Type2 | Type3 | TypeNull

  /** Position in the hierarchy, strictest last; TypeNull (no rules) sits above Type3. */
  function Rank(t: GrammarType): nat {
    match t
    case Type0 => 0
    case Type1 => 1
    case Type2 => 2
    case Type3 => 3
    case TypeNull => 4
  }

  /** How classifying a grammar can fail, with the rule it failed on. UnknownSymbol is where the
      source runs its iterator past the end of a rule side; OutOfRange is where std::string::compare
      throws std::out_of_range. */
  datatype Failure = UnknownSymbol(rule: nat, onLeft: bool) | OutOfRange(rule: nat)

  datatype Result<T> = Ok(value: T) | Err(failure: Failure)

  predicate NoDuplicates(s: seq<string>) {
    forall i, j :: 0 <= i < j < |s| ==> s[i] != s[j]
  }

  /** The linear `for (...; it != end && !found; ...)` search the source writes out for every
      membership test on an alphabet. */
  method Contains(names: seq<string>, name: string) returns (found: bool)
    ensures found <==> name in names
  {
    found := false;
    var i := 0;
    while i < |names| && !found
      invariant 0 <= i <= |names|
      invariant found <==> name in names[..i]
    {
      if names[i] == name {
        found := true;
      }
      i := i + 1;
      assert names[..i] == names[..i - 1] + [names[i - 1]];
    }
    assert !found ==> names[..i] == names;
  }
}
