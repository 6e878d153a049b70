/** The option type used for results that may be absent (std::string::npos, no match). */
module Wrappers {
  datatype Option<T> = None | Some(value: T)
}

/** The parts of std::string that the classifier and the renamer use, on `seq<char>`. */
module Strings {
  import opened Wrappers

  /** `p` occurs in `s` starting at position `i`. */
  predicate OccursAt(s: string, p: string, i: nat) {
    i + |p| <= |s| && s[i..i + |p|] == p
  }

  /** `s` begins with `p`. */
  predicate StartsWith(s: string, p: string) {
    |p| <= |s| && s[..|p|] == p
  }

  /** `s.find(p, from)`: the first position at or after `from` where `p` occurs; None is npos. */
  function FindFrom(s: string, p: string, from: nat): (r: Option<nat>)
    decreases |s| - from
    ensures r.Some? ==> from <= r.value && OccursAt(s, p, r.value)
    ensures r.Some? ==> forall j :: from <= j < r.value ==> !OccursAt(s, p, j)
    ensures r.None? ==> forall j :: from <= j ==> !OccursAt(s, p, j)
  {
    if from + |p| > |s| then None
    else if s[from..from + |p|] == p then Some(from)
    else FindFrom(s, p, from + 1)
  }

  /** `s.find(p)`. */
  function Find(s: string, p: string): Option<nat> {
    FindFrom(s, p, 0)
  }

  /** Finding a one-character string in a one-character string. */
  lemma FindOneInOne(c: char, d: char)
    ensures Find([c], [d]) == if c == d then Some(0) else None
  {
    assert [c][0..1] == [c];
    assert FindFrom([c], [d], 1) == None;
  }

  /** `s.find(c, from)` for one character. */
  function FindChar(s: string, c: char, from: nat): Option<nat> {
    FindFrom(s, [c], from)
  }

  /** A character `find` misses is absent. */
  lemma FindCharNone(s: string, c: char)
    requires FindChar(s, c, 0).None?
    ensures c !in s
  {
    forall i | 0 <= i < |s| ensures s[i] != c {
      assert !OccursAt(s, [c], i);
      assert s[i..i + 1] == [s[i]];
    }
  }

  /** A character `find` hits is present. */
  lemma FindCharSome(s: string, c: char)
    requires FindChar(s, c, 0).Some?
    ensures c in s
  {
    var i := FindChar(s, c, 0).value;
    assert s[i..i + 1] == [c];
    assert s[i] == c;
  }

  /** `s.find(c, from)` for one character, position by position: the first `c` at or after `from`,
      or npos when none is there. */
  lemma FindCharIs(s: string, c: char, from: nat)
    ensures var r := FindChar(s, c, from);
      (r.Some? ==> from <= r.value < |s| && s[r.value] == c && forall j :: from <= j < r.value ==> s[j] != c) &&
      (r.None? ==> forall j :: from <= j < |s| ==> s[j] != c)
  {
    forall j | from <= j < |s|
      ensures OccursAt(s, [c], j) <==> s[j] == c
    {
      assert s[j..j + 1] == [s[j]];
    }
  }

  /** `s.find_last_of(c)`: the last position holding `c`; None is npos. */
  function FindLast(s: string, c: char): (r: Option<nat>)
    ensures r.Some? ==> r.value < |s| && s[r.value] == c
    ensures r.Some? ==> forall j :: r.value < j < |s| ==> s[j] != c
    ensures r.None? ==> c !in s
  {
    if |s| == 0 then None
    else if s[|s| - 1] == c then Some(|s| - 1)
    else FindLast(s[..|s| - 1], c)
  }

  /** `s.substr(pos, n)`; the source only reaches it with `pos <= |s|` (otherwise it throws). */
  function Substr(s: string, pos: nat, n: nat): (r: string)
    requires pos <= |s|
  {
    if pos + n <= |s| then s[pos..pos + n] else s[pos..]
  }

  /** Reading `s.find(p)` as a C++ boolean: true unless `p` is found at position 0. */
  lemma FindIsZeroIffPrefix(s: string, p: string)
    ensures Find(s, p) == Some(0) <==> StartsWith(s, p)
  {
    if StartsWith(s, p) {
      assert OccursAt(s, p, 0);
    }
  }

  /** A character occurs once exactly when its first and last positions coincide. */
  lemma {:induction false} FirstEqualsLastIffSingle(s: string, c: char)
    requires c in s
    ensures FindChar(s, c, 0).Some? && FindLast(s, c).Some?
    ensures FindChar(s, c, 0) == FindLast(s, c) <==> multiset(s)[c] == 1
  {
    var i :| 0 <= i < |s| && s[i] == c;
    assert OccursAt(s, [c], i);
    var f := FindChar(s, c, 0).value;
    var l := FindLast(s, c).value;
    assert s[f] == c by { assert OccursAt(s, [c], f); }
    assert forall j :: 0 <= j < f ==> s[j] != c by {
      forall j | 0 <= j < f ensures s[j] != c {
        assert !OccursAt(s, [c], j);
        assert s[j..j + 1] == [s[j]];
      }
    }
    CountSplit(s, c, f, l);
  }

  /** With no `c` before `f` and none after `l` (`f <= l`), there is exactly one `c` when f == l. */
  lemma CountSplit(s: string, c: char, f: nat, l: nat)
    requires f <= l < |s| && s[f] == c && s[l] == c
    requires forall j :: 0 <= j < f ==> s[j] != c
    requires forall j :: l < j < |s| ==> s[j] != c
    ensures f == l <==> multiset(s)[c] == 1
  {
    assert s == s[..f] + [s[f]] + s[f + 1..];
    assert multiset(s[..f])[c] == 0 by { NoneCounted(s[..f], c); }
    if f == l {
      assert multiset(s[f + 1..])[c] == 0 by { NoneCounted(s[f + 1..], c); }
    } else {
      var t := s[f + 1..];
      assert t[l - f - 1] == c;
      assert c in multiset(t);
    }
  }

  lemma NoneCounted(s: string, c: char)
    requires forall j :: 0 <= j < |s| ==> s[j] != c
    ensures multiset(s)[c] == 0
  {
  }
}
