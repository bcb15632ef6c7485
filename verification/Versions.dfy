/** The variable versions of the DART path walk, src/analysis/dart/mod.rs: fresh names for
    re-definitions, and the bookkeeping that decides which definition keeps the original name. */
module Versions {

  const DIGITS := "0123456789"

  function Digits(n: nat): string {
    if n < 10 then [DIGITS[n]] else Digits(n / 10) + [DIGITS[n % 10]]
  }

  lemma {:induction false} DigitsOnly(n: nat, i: nat)
    requires i < |Digits(n)|
    ensures Digits(n)[i] in DIGITS
  {
    if n >= 10 && i < |Digits(n)| - 1 {
      DigitsOnly(n / 10, i);
    }
  }

  lemma {:induction false} DigitsNonempty(n: nat)
    ensures |Digits(n)| > 0 && (n >= 10 ==> |Digits(n)| > 1)
  {
    if n >= 10 {
      DigitsNonempty(n / 10);
    }
  }

  lemma {:induction false} DigitsInjective(n: nat, m: nat)
    requires Digits(n) == Digits(m)
    ensures n == m
  {
    DigitsNonempty(n);
    DigitsNonempty(m);
    var last := |Digits(n)| - 1;
    assert DIGITS[n % 10] == Digits(n)[last] == Digits(m)[last] == DIGITS[m % 10];
    assert n % 10 == m % 10;
    if n >= 10 {
      assert Digits(n / 10) == Digits(n)[..last] == Digits(m)[..last] == Digits(m / 10);
      DigitsInjective(n / 10, m / 10);
    }
  }

  /** The name of the definition of `orig` at visit `visit` of node `node`. */
  function VersionName(orig: string, node: nat, visit: nat): string {
    orig + "$n" + Digits(node) + "v" + Digits(visit)
  }

  lemma AfterMark(a: string, c: char, p: string)
    ensures (a + [c] + p)[|a|] == c && forall i :: |a| < i < |a + [c] + p| ==> (a + [c] + p)[i] in p
  {
    forall i | |a| < i < |a + [c] + p| ensures (a + [c] + p)[i] in p {
      assert (a + [c] + p)[i] == p[i - |a| - 1];
    }
  }

  /** A text is determined by what precedes and what follows the last occurrence of a character. */
  lemma SplitAtLast(a: string, p: string, b: string, q: string, c: char)
    requires a + [c] + p == b + [c] + q && c !in p && c !in q
    ensures a == b && p == q
  {
    var s := a + [c] + p;
    AfterMark(a, c, p);
    AfterMark(b, c, q);
    assert a == s[..|a|] && b == (b + [c] + q)[..|b|];
    assert p == s[|a| + 1..] && q == (b + [c] + q)[|b| + 1..];
  }

  /** The version name determines variable, node and visit: no shared counter is needed. */
  lemma VersionNameInjective(orig: string, node: nat, visit: nat, orig': string, node': nat, visit': nat)
    requires VersionName(orig, node, visit) == VersionName(orig', node', visit')
    ensures orig == orig' && node == node' && visit == visit'
  {
    NotADigit('v');
    NotADigit('n');
    SplitAtLast(orig + "$n" + Digits(node), Digits(visit), orig' + "$n" + Digits(node'), Digits(visit'), 'v');
    DigitsInjective(visit, visit');
    assert orig + "$n" == orig + "$" + ['n'] && orig' + "$n" == orig' + "$" + ['n'];
    SplitAtLast(orig + "$", Digits(node), orig' + "$", Digits(node'), 'n');
    DigitsInjective(node, node');
    assert orig == (orig + "$")[..|orig|] && orig' == (orig' + "$")[..|orig'|];
  }

  lemma NotADigit(c: char)
    requires c !in DIGITS
    ensures forall n :: c !in Digits(n)
  {
    forall n, i | 0 <= i < |Digits(n)| ensures Digits(n)[i] != c {
      DigitsOnly(n, i);
    }
  }

  // ---- Bookkeeping --------------------------------------------------------------------------

  /** Which original names have a current version, and which names are defined. */
  datatype Naming = Naming(version: map<string, string>, defined: set<string>)

  predicate KeepsName(nm: Naming, orig: string, visit: nat) {
    visit == 1 && orig !in nm.defined
  }

  function NameGiven(nm: Naming, orig: string, node: nat, visit: nat): string {
    if KeepsName(nm, orig, visit) then orig else VersionName(orig, node, visit)
  }

  function Renamed(nm: Naming, orig: string, node: nat, visit: nat): Naming {
    var name := NameGiven(nm, orig, node, visit);
    Naming(if KeepsName(nm, orig, visit) then nm.version - {orig} else nm.version[orig := name],
           nm.defined + {name})
  }
}
