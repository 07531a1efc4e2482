/**
 * The pieces of `GetTypeName` that do not touch the module: the base name
 * derived from a service's identity, the numbered candidates tried after it,
 * case-insensitive comparison, and the counting argument that a free
 * candidate always exists.
 */
module Naming {
  import opened Wrappers
  import opened Services

  // ---------------------------------------------------------------- base name

  /** `FullName.Replace('.', '_')`: every dot becomes an underscore. */
  function Sanitize(s: string): (r: string)
    ensures |r| == |s|
    ensures forall k :: 0 <= k < |s| ==> r[k] == (if s[k] == '.' then '_' else s[k])
    ensures '.' !in r
  {
    if s == [] then []
    else [if s[0] == '.' then '_' else s[0]] + Sanitize(s[1..])
  }

  /** `serviceInfo.ServiceKey?.ToString()`: null for a null key, else the key's text (itself possibly null). */
  function KeyText(info: ServiceInfo): Option<string> {
    match info.serviceKey
    case None => None
    case Some(key) => key.text
  }

  /**
   * The base name of the factory type for `info`: the sanitized full name of
   * the service type, followed by `_` and the key's text when that text is not null.
   */
  function BaseName(info: ServiceInfo): (r: string)
    ensures KeyText(info).None? ==> |r| == |info.serviceType.fullName|
    ensures KeyText(info).Some? ==> |r| == |info.serviceType.fullName| + 1 + |KeyText(info).value|
    ensures r[..|info.serviceType.fullName|] == Sanitize(info.serviceType.fullName)
    ensures '.' !in r[..|info.serviceType.fullName|]
    ensures KeyText(info).Some? ==> r[|info.serviceType.fullName|] == '_'
    ensures KeyText(info).Some? ==> r[|info.serviceType.fullName| + 1..] == KeyText(info).value
  {
    var serviceTypeName := Sanitize(info.serviceType.fullName);
    match KeyText(info)
    case None => serviceTypeName
    case Some(keyValue) => serviceTypeName + "_" + keyValue
  }

  // ----------------------------------------------------- decimal suffix

  function Digit(d: nat): (c: char)
    requires d < 10
    ensures '0' <= c <= '9'
    ensures c as int - '0' as int == d
  {
    ('0' as int + d) as char
  }

  /** The invariant-culture text of a non-negative counter: decimal digits, no leading zero. */
  function Decimal(n: nat): (r: string)
    ensures |r| >= 1
    ensures n < 10 <==> |r| == 1
    ensures r[|r| - 1] == Digit(n % 10)
  {
    if n < 10 then [Digit(n)] else Decimal(n / 10) + [Digit(n % 10)]
  }

  /** Different counters have different decimal texts. */
  lemma {:induction false} DecimalInjective(m: nat, n: nat)
    requires Decimal(m) == Decimal(n)
    ensures m == n
  {
    var dm, dn := Decimal(m), Decimal(n);
    assert Digit(m % 10) == Digit(n % 10);
    if m >= 10 && n >= 10 {
      var pm, pn := Decimal(m / 10), Decimal(n / 10);
      assert dm == pm + [Digit(m % 10)];
      assert dn == pn + [Digit(n % 10)];
      assert pm == dm[..|dm| - 1];
      assert pn == dn[..|dn| - 1];
      DecimalInjective(m / 10, n / 10);
    }
  }

  // ----------------------------------------------- case-insensitive equality

  /** Case folding for the comparison of type names (ASCII letters only). */
  function FoldChar(c: char): char {
    if 'A' <= c <= 'Z' then (c as int + 32) as char else c
  }

  function Fold(s: string): (r: string)
    ensures |r| == |s|
  {
    if s == [] then [] else [FoldChar(s[0])] + Fold(s[1..])
  }

  /** `a.Equals(b, StringComparison.InvariantCultureIgnoreCase)`, on ASCII case. */
  predicate SameIgnoringCase(a: string, b: string) {
    Fold(a) == Fold(b)
  }

  lemma {:induction false} FoldAppend(a: string, b: string)
    ensures Fold(a + b) == Fold(a) + Fold(b)
  {
    if a == [] {
      assert a + b == b;
    } else {
      assert (a + b)[0] == a[0];
      assert (a + b)[1..] == a[1..] + b;
      FoldAppend(a[1..], b);
    }
  }

  /** Decimal digits are untouched by case folding. */
  lemma {:induction false} FoldDecimal(n: nat)
    ensures Fold(Decimal(n)) == Decimal(n)
  {
    if n >= 10 {
      FoldDecimal(n / 10);
      FoldAppend(Decimal(n / 10), [Digit(n % 10)]);
    }
  }

  /** The underscore and the digits of a suffix are untouched by case folding. */
  lemma FoldSuffix(n: nat)
    ensures Fold("_" + Decimal(n)) == "_" + Decimal(n)
  {
    FoldAppend("_", Decimal(n));
    FoldDecimal(n);
  }

  // ------------------------------------------------------------- candidates

  /** The i-th name tried for a base name: the base itself, then `base_1`, `base_2`, ... */
  function Candidate(baseName: string, i: nat): string {
    if i == 0 then baseName else baseName + "_" + Decimal(i)
  }

  lemma FoldCandidate(baseName: string, i: nat)
    requires i != 0
    ensures Fold(Candidate(baseName, i)) == Fold(baseName) + "_" + Decimal(i)
  {
    FoldAppend(baseName, "_" + Decimal(i));
    FoldSuffix(i);
    assert baseName + "_" + Decimal(i) == baseName + ("_" + Decimal(i));
  }

  /** Distinct counters give candidates that differ even ignoring case. */
  lemma {:induction false} CandidatesDistinct(baseName: string, i: nat, j: nat)
    requires SameIgnoringCase(Candidate(baseName, i), Candidate(baseName, j))
    ensures i == j
  {
    var n := |baseName|;
    if i != 0 && j != 0 {
      FoldCandidate(baseName, i);
      FoldCandidate(baseName, j);
      var fi, fj := Fold(baseName) + "_" + Decimal(i), Fold(baseName) + "_" + Decimal(j);
      assert fi == fj;
      assert fi[n + 1..] == Decimal(i);
      assert fj[n + 1..] == Decimal(j);
      DecimalInjective(i, j);
    } else if i != 0 {
      FoldCandidate(baseName, i);
    } else if j != 0 {
      FoldCandidate(baseName, j);
    }
  }

  // ---------------------------------------------------- names already in use

  /** `module.GetTypes().Any(t => t.Name.Equals(name, InvariantCultureIgnoreCase))`. */
  predicate Taken(names: seq<string>, name: string) {
    exists k :: 0 <= k < |names| && SameIgnoringCase(names[k], name)
  }

  /** No two names of the list are equal ignoring case. */
  predicate DistinctIgnoringCase(names: seq<string>) {
    forall a, b :: 0 <= a < b < |names| ==> !SameIgnoringCase(names[a], names[b])
  }

  /** `i` is the counter `GetTypeName` stops at: its candidate is free and every earlier one is taken. */
  predicate IsFirstFree(names: seq<string>, baseName: string, i: nat) {
    && !Taken(names, Candidate(baseName, i))
    && forall j :: 0 <= j < i ==> Taken(names, Candidate(baseName, j))
  }

  /** Defining a name that was free keeps the list distinct, and every earlier name stays taken. */
  lemma DefineFree(names: seq<string>, name: string)
    requires DistinctIgnoringCase(names)
    requires !Taken(names, name)
    ensures DistinctIgnoringCase(names + [name])
    ensures Taken(names + [name], name)
    ensures forall n :: Taken(names, n) ==> Taken(names + [name], n)
  {
    var grown := names + [name];
    assert grown[|names|] == name;
    forall n | Taken(names, n) ensures Taken(grown, n) {
      var k :| 0 <= k < |names| && SameIgnoringCase(names[k], n);
      assert grown[k] == names[k];
    }
  }

  // -------------------------------------------------------- counting argument

  /** The folded forms of the names in use. */
  ghost function FoldedNames(names: seq<string>): (r: set<string>)
    ensures |r| <= |names|
    ensures forall n :: Taken(names, n) ==> Fold(n) in r
  {
    if names == [] then {}
    else
      var rest := FoldedNames(names[..|names| - 1]);
      assert forall n :: Taken(names, n) ==> Taken(names[..|names| - 1], n) || SameIgnoringCase(names[|names| - 1], n) by {
        forall n | Taken(names, n)
          ensures Taken(names[..|names| - 1], n) || SameIgnoringCase(names[|names| - 1], n)
        {
          var k :| 0 <= k < |names| && SameIgnoringCase(names[k], n);
          if k < |names| - 1 {
            assert names[..|names| - 1][k] == names[k];
          }
        }
      }
      rest + {Fold(names[|names| - 1])}
  }

  /** The folded forms of the first `n` candidates. */
  ghost function FoldedCandidates(baseName: string, n: nat): set<string> {
    if n == 0 then {} else FoldedCandidates(baseName, n - 1) + {Fold(Candidate(baseName, n - 1))}
  }

  /** No candidate from the `n`-th on folds to one of the first `n`. */
  lemma {:induction false} FoldedCandidatesBelow(baseName: string, n: nat, m: nat)
    requires n <= m
    ensures Fold(Candidate(baseName, m)) !in FoldedCandidates(baseName, n)
  {
    if n > 0 {
      FoldedCandidatesBelow(baseName, n - 1, m);
      if SameIgnoringCase(Candidate(baseName, m), Candidate(baseName, n - 1)) {
        CandidatesDistinct(baseName, m, n - 1);
        assert false;
      }
    }
  }

  /** There are exactly `n` of them: distinct counters fold to distinct names. */
  lemma {:induction false} FoldedCandidatesCount(baseName: string, n: nat)
    ensures |FoldedCandidates(baseName, n)| == n
  {
    if n > 0 {
      FoldedCandidatesCount(baseName, n - 1);
      FoldedCandidatesBelow(baseName, n - 1, n - 1);
    }
  }

  /** If each of the first `n` candidates folds into `used`, all of them lie in `used`. */
  lemma {:induction false} FoldedCandidatesWithin(baseName: string, n: nat, used: set<string>)
    requires forall i :: 0 <= i < n ==> Fold(Candidate(baseName, i)) in used
    ensures FoldedCandidates(baseName, n) <= used
  {
    if n > 0 {
      FoldedCandidatesWithin(baseName, n - 1, used);
    }
  }

  /** Only finitely many names are in use, so one of the first `|names| + 1` candidates is free. */
  lemma FreeCandidateExists(names: seq<string>, baseName: string)
    ensures exists i :: 0 <= i <= |names| && !Taken(names, Candidate(baseName, i))
  {
    if forall i :: 0 <= i <= |names| ==> Taken(names, Candidate(baseName, i)) {
      var used := FoldedNames(names);
      var tried := FoldedCandidates(baseName, |names| + 1);
      FoldedCandidatesCount(baseName, |names| + 1);
      FoldedCandidatesWithin(baseName, |names| + 1, used);
      SubsetCard(tried, used);
      assert false;
    }
  }

  lemma SubsetCard<X>(a: set<X>, b: set<X>)
    requires a <= b
    ensures |a| <= |b|
  {
    assert b == a + (b - a);
  }
}
