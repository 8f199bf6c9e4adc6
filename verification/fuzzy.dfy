/** Approximate substring search and `has_terms` of anc_cli/utils.py.

    The search itself is the `fuzzysearch` library's `find_near_matches`, which this
    model does not reimplement: callers pass it in as a NearMatcher returning how many
    near matches it reports. What the model relies on is `Faithful`: it reports at
    least one match exactly when some substring of the text is within the given
    Levenshtein distance of the pattern. */
module Fuzzy {
  import opened Chars
  import opened Strings

  function Min3(a: nat, b: nat, c: nat): (m: nat)
    ensures m <= a && m <= b && m <= c
    ensures m == a || m == b || m == c
  {
    if a <= b && a <= c then a else if b <= c then b else c
  }

  /** Levenshtein distance: insertions, deletions and substitutions each cost one. */
  function Lev(a: string, b: string): nat
    decreases |a| + |b|
  {
    if |a| == 0 then |b|
    else if |b| == 0 then |a|
    else Min3(Lev(a[1..], b) + 1, Lev(a, b[1..]) + 1,
              Lev(a[1..], b[1..]) + (if a[0] == b[0] then 0 else 1))
  }

  /** The substring t[i..j] is within distance k of p. */
  ghost predicate NearAt(p: string, t: string, k: nat, i: int, j: int) {
    0 <= i <= j <= |t| && Lev(p, t[i..j]) <= k
  }

  /** Some substring of t is within distance k of p. */
  ghost predicate NearIn(p: string, t: string, k: nat) {
    exists i, j :: NearAt(p, t, k, i, j)
  }

  /** `len(find_near_matches(pattern, text, max_l_dist=k))`. */
  type NearMatcher = (string, string, nat) -> nat

  ghost predicate Faithful(near: NearMatcher) {
    forall p, t, k :: near(p, t, k) > 0 <==> NearIn(p, t, k)
  }

  /** A string is at distance zero from itself. */
  lemma {:induction false} LevSelf(a: string)
    ensures Lev(a, a) == 0
    decreases |a|
  {
    if |a| > 0 {
      LevSelf(a[1..]);
    }
  }

  /** The number of ASCII capitals in s. */
  function Capitals(s: string): (n: nat)
    ensures n <= |s|
    decreases |s|
  {
    if |s| == 0 then 0 else (if IsAsciiUpper(s[0]) then 1 else 0) + Capitals(s[1..])
  }

  lemma {:induction false} NoCapitals(s: string)
    requires forall k :: 0 <= k < |s| ==> !IsAsciiUpper(s[k])
    ensures Capitals(s) == 0
    decreases |s|
  {
    if |s| > 0 {
      NoCapitals(s[1..]);
    }
  }

  /** Each edit removes at most one capital that b lacks: the distance is at least the
      surplus of capitals in a over b. */
  lemma {:induction false} LevCapitalBound(a: string, b: string)
    ensures Lev(a, b) + Capitals(b) >= Capitals(a)
    decreases |a| + |b|
  {
    if |a| > 0 && |b| > 0 {
      LevCapitalBound(a[1..], b);
      LevCapitalBound(a, b[1..]);
      LevCapitalBound(a[1..], b[1..]);
    }
  }

  /** The three terms of `has_terms`, as written. */
  const MatchTerms: seq<string> := ["departamento", "municipo", "DEP.INT.COM."]

  /** `has_terms(text)`: some term has a near match, within distance one, in the
      lower-cased text. The terms themselves are not lower-cased. */
  predicate HasTerms(near: NearMatcher, text: string) {
    exists i | 0 <= i < |MatchTerms| :: near(MatchTerms[i], LowerStr(text), 1) > 0
  }

  /** A pattern with two capitals is never within distance one of a piece of a text
      that has none. */
  lemma {:induction false} CapitalsKeepFar(p: string, t: string)
    requires Capitals(p) >= 2
    requires forall k :: 0 <= k < |t| ==> !IsAsciiUpper(t[k])
    ensures !NearIn(p, t, 1)
  {
    forall i, j | 0 <= i <= j <= |t|
      ensures !NearAt(p, t, 1, i, j)
    {
      NoCapitals(t[i..j]);
      LevCapitalBound(p, t[i..j]);
    }
  }

  lemma UpperTermCapitals()
    ensures Capitals("DEP.INT.COM.") >= 2
  {
    var p := "DEP.INT.COM.";
    assert p[1..][1..] == p[2..];
  }

  /** The upper-case term cannot be within distance one of any piece of a lower-cased
      text: it carries more than one capital and the text none. */
  lemma UpperTermNeverNear(text: string)
    ensures !NearIn("DEP.INT.COM.", LowerStr(text), 1)
  {
    UpperTermCapitals();
    CapitalsKeepFar("DEP.INT.COM.", LowerStr(text));
  }

  /** With a faithful matcher, `has_terms` holds exactly when "departamento" or
      "municipo" has a near match in the lower-cased text; the third term never counts. */
  lemma HasTermsMeaning(near: NearMatcher, text: string)
    requires Faithful(near)
    ensures HasTerms(near, text) <==>
      NearIn("departamento", LowerStr(text), 1) || NearIn("municipo", LowerStr(text), 1)
  {
    UpperTermNeverNear(text);
    var t := LowerStr(text);
    assert near(MatchTerms[0], t, 1) > 0 <==> NearIn("departamento", t, 1);
    assert near(MatchTerms[1], t, 1) > 0 <==> NearIn("municipo", t, 1);
    assert near(MatchTerms[2], t, 1) > 0 <==> NearIn("DEP.INT.COM.", t, 1);
  }

  /** `has_terms` with the terms lower-cased like the text. */
  predicate HasTermsLowered(near: NearMatcher, text: string) {
    exists i | 0 <= i < |MatchTerms| :: near(LowerStr(MatchTerms[i]), LowerStr(text), 1) > 0
  }

  /** A pattern that occurs verbatim has a near match at any distance. */
  lemma OccurrenceIsNear(p: string, t: string, k: nat)
    requires Contains(t, p)
    ensures NearIn(p, t, k)
  {
    var i :| 0 <= i <= |t| - |p| && OccursAt(t, p, i);
    LevSelf(p);
    assert NearAt(p, t, k, i, i + |p|);
  }

  lemma LoweredUpperTerm()
    ensures LowerStr("DEP.INT.COM.") == "dep.int.com."
  {
  }

  /** Once lower-cased, the third term is found in any text that contains it. */
  lemma LoweredTermFound(near: NearMatcher, text: string)
    requires Faithful(near)
    requires Contains(LowerStr(text), "dep.int.com.")
    ensures HasTermsLowered(near, text)
  {
    LoweredUpperTerm();
    OccurrenceIsNear("dep.int.com.", LowerStr(text), 1);
    assert near(LowerStr(MatchTerms[2]), LowerStr(text), 1) > 0;
  }
}
