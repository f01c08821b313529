/**
 * Site-specific substitutions applied to the filtered output. A rule set maps
 * URL patterns to ordered lists of (search pattern, replacement) pairs; the
 * regular-expression engine (`preg_match`, `preg_replace`) is a parameter.
 */
module SiteRules {
  import opened Wrappers
  import opened ByteStrings

  datatype Substitution = Substitution(search: Bytes, replacement: Bytes)

  /** One entry of the `filter` rules: a URL pattern and its substitutions, in declared order. */
  datatype SiteRule = SiteRule(pattern: Bytes, substitutions: seq<Substitution>)

  /** What the rule loader returns; `filter` is `None` when the key is not set. */
  datatype Rules = Rules(filter: Option<seq<SiteRule>>)

  /**
   * `preg_match(pattern, subject)` is truthy, and `preg_replace(search, replacement,
   * subject)`, which is `null` when the pattern fails.
   */
  datatype Regex = Regex(
    matches: (Bytes, Bytes) -> bool,
    replace: (Bytes, Bytes, Bytes) -> Option<Bytes>)

  /**
   * One `preg_replace`. A failure yields PHP's `null`, which every later string
   * operation reads as the empty string.
   */
  function Substitute(rx: Regex, sub: Substitution, content: Bytes): Bytes
  {
    match rx.replace(sub.search, sub.replacement, content)
    case Some(r) => r
    case None => []
  }

  /** The substitutions of subs applied to content, first to last. */
  function ApplySubstitutions(rx: Regex, subs: seq<Substitution>, content: Bytes): Bytes
    decreases |subs|
  {
    if subs == [] then content
    else Substitute(rx, subs[|subs| - 1], ApplySubstitutions(rx, subs[..|subs| - 1], content))
  }

  /** Every rule whose pattern matches path, first to last, each with all its substitutions. */
  function ApplySiteRules(rx: Regex, rules: seq<SiteRule>, path: Bytes, content: Bytes): Bytes
    decreases |rules|
  {
    if rules == [] then content
    else
      var before := ApplySiteRules(rx, rules[..|rules| - 1], path, content);
      var rule := rules[|rules| - 1];
      if rx.matches(rule.pattern, path) then ApplySubstitutions(rx, rule.substitutions, before) else before
  }

  /** The body of `filterRules` once the rules and the site's full path are known. */
  function FilterRulesSpec(rx: Regex, rules: Rules, path: Bytes, content: Bytes): Bytes
  {
    match rules.filter
    case None => content
    case Some(rs) => ApplySiteRules(rx, rs, path, content)
  }

  /** The substitutions of the matching rules, concatenated in declared order. */
  function MatchingSubstitutions(rx: Regex, rules: seq<SiteRule>, path: Bytes): seq<Substitution>
    decreases |rules|
  {
    if rules == [] then []
    else
      var rule := rules[|rules| - 1];
      MatchingSubstitutions(rx, rules[..|rules| - 1], path)
        + (if rx.matches(rule.pattern, path) then rule.substitutions else [])
  }

  /** Substitution lists compose in order. */
  lemma {:induction false} ApplySubstitutionsConcat(rx: Regex, a: seq<Substitution>, b: seq<Substitution>, content: Bytes)
    ensures ApplySubstitutions(rx, a + b, content) == ApplySubstitutions(rx, b, ApplySubstitutions(rx, a, content))
    decreases |b|
  {
    if b == [] {
      assert a + b == a;
    } else {
      assert (a + b)[..|a + b| - 1] == a + b[..|b| - 1];
      ApplySubstitutionsConcat(rx, a, b[..|b| - 1], content);
    }
  }

  /**
   * Reference semantics: the nested loops amount to one pass over the
   * substitutions of every matching rule, rules in declared order and
   * substitutions in declared order within each rule.
   */
  lemma {:induction false} SiteRulesFlatten(rx: Regex, rules: seq<SiteRule>, path: Bytes, content: Bytes)
    ensures ApplySiteRules(rx, rules, path, content)
            == ApplySubstitutions(rx, MatchingSubstitutions(rx, rules, path), content)
    decreases |rules|
  {
    if rules != [] {
      var init := rules[..|rules| - 1];
      var rule := rules[|rules| - 1];
      SiteRulesFlatten(rx, init, path, content);
      if rx.matches(rule.pattern, path) {
        ApplySubstitutionsConcat(rx, MatchingSubstitutions(rx, init, path), rule.substitutions, content);
      } else {
        assert MatchingSubstitutions(rx, init, path) + [] == MatchingSubstitutions(rx, init, path);
      }
    }
  }

  lemma {:induction false} MatchingSubstitutionsConcat(rx: Regex, a: seq<SiteRule>, b: seq<SiteRule>, path: Bytes)
    ensures MatchingSubstitutions(rx, a + b, path) == MatchingSubstitutions(rx, a, path) + MatchingSubstitutions(rx, b, path)
    decreases |b|
  {
    if b == [] {
      assert a + b == a;
    } else {
      assert (a + b)[..|a + b| - 1] == a + b[..|b| - 1];
      MatchingSubstitutionsConcat(rx, a, b[..|b| - 1], path);
    }
  }

  /** Rule sets compose in order: a later match is applied to what the earlier ones produced. */
  lemma ApplySiteRulesConcat(rx: Regex, a: seq<SiteRule>, b: seq<SiteRule>, path: Bytes, content: Bytes)
    ensures ApplySiteRules(rx, a + b, path, content)
            == ApplySiteRules(rx, b, path, ApplySiteRules(rx, a, path, content))
  {
    SiteRulesFlatten(rx, a + b, path, content);
    SiteRulesFlatten(rx, a, path, content);
    SiteRulesFlatten(rx, b, path, ApplySiteRules(rx, a, path, content));
    MatchingSubstitutionsConcat(rx, a, b, path);
    ApplySubstitutionsConcat(rx, MatchingSubstitutions(rx, a, path), MatchingSubstitutions(rx, b, path), content);
  }

  /** A rule whose pattern does not match the path contributes nothing, wherever it stands. */
  lemma NonMatchingRuleIsInert(rx: Regex, a: seq<SiteRule>, rule: SiteRule, b: seq<SiteRule>, path: Bytes, content: Bytes)
    requires !rx.matches(rule.pattern, path)
    ensures ApplySiteRules(rx, a + [rule] + b, path, content) == ApplySiteRules(rx, a + b, path, content)
  {
    SiteRulesFlatten(rx, a + [rule] + b, path, content);
    SiteRulesFlatten(rx, a + b, path, content);
    MatchingSubstitutionsConcat(rx, a + [rule], b, path);
    MatchingSubstitutionsConcat(rx, a, b, path);
    assert (a + [rule])[..|a + [rule]| - 1] == a;
    assert MatchingSubstitutions(rx, a + [rule], path) == MatchingSubstitutions(rx, a, path) + [];
    assert MatchingSubstitutions(rx, a + [rule] + b, path) == MatchingSubstitutions(rx, a + b, path);
  }

  /** A matching rule does not stop the search: every later matching rule still applies. */
  lemma MatchingRuleDoesNotStop(rx: Regex, a: seq<SiteRule>, rule: SiteRule, b: seq<SiteRule>, path: Bytes, content: Bytes)
    requires rx.matches(rule.pattern, path)
    ensures ApplySiteRules(rx, a + [rule] + b, path, content)
            == ApplySiteRules(rx, b, path, ApplySubstitutions(rx, rule.substitutions, ApplySiteRules(rx, a, path, content)))
  {
    ApplySiteRulesConcat(rx, a + [rule], b, path, content);
    assert (a + [rule])[..|a + [rule]| - 1] == a;
  }

  /** With no rule matching the path, the content comes back unchanged. */
  lemma {:induction false} NoMatchIsIdentity(rx: Regex, rules: seq<SiteRule>, path: Bytes, content: Bytes)
    requires forall i :: 0 <= i < |rules| ==> !rx.matches(rules[i].pattern, path)
    ensures ApplySiteRules(rx, rules, path, content) == content
    decreases |rules|
  {
    if rules != [] {
      NoMatchIsIdentity(rx, rules[..|rules| - 1], path, content);
    }
  }

  /** `filterRules` returns its input when the rules have no `filter` key or no pattern matches. */
  lemma FilterRulesIdentity(rx: Regex, rules: Rules, path: Bytes, content: Bytes)
    requires rules.filter == None
          || forall i :: 0 <= i < |rules.filter.value| ==> !rx.matches(rules.filter.value[i].pattern, path)
    ensures FilterRulesSpec(rx, rules, path, content) == content
  {
    if rules.filter.Some? {
      NoMatchIsIdentity(rx, rules.filter.value, path, content);
    }
  }

  /**
   * A failing substitution does not skip: its `null` result reaches the
   * remaining substitutions as the empty string.
   */
  lemma FailedSubstitutionEmptiesContent(rx: Regex, a: seq<Substitution>, sub: Substitution, b: seq<Substitution>, content: Bytes)
    requires rx.replace(sub.search, sub.replacement, ApplySubstitutions(rx, a, content)) == None
    ensures ApplySubstitutions(rx, a + [sub] + b, content) == ApplySubstitutions(rx, b, [])
  {
    ApplySubstitutionsConcat(rx, a + [sub], b, content);
    assert (a + [sub])[..|a + [sub]| - 1] == a;
  }
}
