/** `getEntityLabel` (app.js:191-276): the entity labels of a seed. The
    source tests eight fixed substring rules one after the other and then
    walks the school list; the specification below states the same
    classification as one ordered table of rules, where each school entry is
    a rule of its own, and every matching rule contributes one label. */
module Classification {
  import opened Wrappers
  import opened Records
  import opened Text

  /** The key of every classification label. */
  const Industry := "næring"

  /** A classification rule: the label value it yields, the words it looks
      for (case-sensitive substrings), and whether the description is
      searched besides the url. */
  datatype Rule = Rule(value: string, words: seq<string>, inDescription: bool)

  /** Some word of `words` occurs in `s`. */
  predicate AnyIn(s: string, words: seq<string>) {
    exists w | w in words :: Contains(s, w)
  }

  predicate Matches(rule: Rule, url: string, description: string) {
    AnyIn(url, rule.words) || (rule.inDescription && AnyIn(description, rule.words))
  }

  /** The fixed rules, in the order app.js:208-262 tests them. */
  const BlogRule := Rule("blogg", ["blog"], false)
  const NewspaperRule := Rule("avis", ["avis", "posten", "tidende", "blad"], false)
  const MunicipalityRule := Rule("kommune", ["kommune"], false)
  const TwitterRule := Rule("twitter", ["twitter"], false)
  const CountyRule := Rule("fylkeskommune", ["fylkeskommune"], true)
  const PartyRule := Rule("politisk parti", ["parti"], true)
  const TheatreRule := Rule("teater", ["teater", "theater"], true)
  const MuseumRule := Rule("museum", ["museum"], true)

  /** The first four look at the url only, the last four at the url and
      the description. */
  const UrlRules: seq<Rule> := [BlogRule, NewspaperRule, MunicipalityRule, TwitterRule]
  const TextRules: seq<Rule> := [CountyRule, PartyRule, TheatreRule, MuseumRule]
  const FixedRules: seq<Rule> := UrlRules + TextRules

  /** A school entry matches when its url occurs in the seed's url. */
  function SchoolRule(school: School): Rule {
    Rule(school.institusjon, [school.url], false)
  }

  function SchoolRules(schools: seq<School>): (rules: seq<Rule>)
    ensures |rules| == |schools|
    ensures forall i | 0 <= i < |schools| :: rules[i] == SchoolRule(schools[i])
  {
    seq(|schools|, i requires 0 <= i < |schools| => SchoolRule(schools[i]))
  }

  function LabelOf(rule: Rule): Label {
    Label(Industry, rule.value)
  }

  /** The label a single rule contributes: one when it matches, none
      otherwise. */
  function Applied(rule: Rule, url: string, description: string): (labels: seq<Label>)
    ensures |labels| <= 1
  {
    if Matches(rule, url, description) then [LabelOf(rule)] else []
  }

  /** One label per matching rule, in the order of the rules. */
  function RuleLabels(rules: seq<Rule>, url: string, description: string): (labels: seq<Label>)
    ensures |labels| <= |rules|
    ensures forall i | 0 <= i < |labels| :: labels[i].key == Industry
  {
    if rules == [] then []
    else
      var last := rules[|rules| - 1];
      RuleLabels(rules[..|rules| - 1], url, description) + Applied(last, url, description)
  }

  /** The entity labels of a seed with the given url: the provenance label,
      then one label per matching rule of the fixed table and of the school
      list. A missing or `null` description is searched as `""`. */
  function EntityLabelsOf(url: string, description: Option<string>, schools: seq<School>): (labels: seq<Label>)
    ensures |labels| >= 1 && labels[0] == Provenance
    ensures forall i | 1 <= i < |labels| :: labels[i].key == Industry
    ensures |labels| <= 1 + |FixedRules| + |schools|
  {
    [Provenance] + RuleLabels(FixedRules + SchoolRules(schools), url, description.GetOr(""))
  }

  /** `getEntityLabel`, statement by statement. `None` is the `undefined`
      returned for a seed without a url; the source writes `""` back into a
      `null` description, which here is the local `description`. */
  method EntityLabels(seed: Seed, schools: seq<School>) returns (labels: Option<seq<Label>>)
    ensures seed.url.None? ==> labels.None?
    ensures seed.url.Some? ==> labels == Some(EntityLabelsOf(seed.url.value, seed.description, schools))
  {
    if seed.url.None? {
      return None;
    }
    var url := seed.url.value;
    var description := if seed.description.None? then "" else seed.description.value;
    var ls := [Provenance];
    ls := UrlLabels(ls, url, description);
    ls := TextLabels(ls, url, description);
    ghost var fixedPart := ls;
    for i := 0 to |schools|
      invariant ls == fixedPart + RuleLabels(SchoolRules(schools[..i]), url, description)
    {
      if Contains(url, schools[i].url) {
        ls := ls + [Label(Industry, schools[i].institusjon)];
      }
      SchoolRulesSnoc(schools, i, url, description);
    }
    assert schools[..|schools|] == schools;
    EntityLabelsParts(url, seed.description, schools);
    return Some(ls);
  }

  /** The four url-only tests of `getEntityLabel` (app.js:208-233), each
      pushing its label onto `start` when one of its words occurs in the url. */
  method UrlLabels(start: seq<Label>, url: string, description: string) returns (ls: seq<Label>)
    ensures ls == start + RuleLabels(UrlRules, url, description)
  {
    ls := start;
    if Contains(url, "blog") {
      ls := ls + [Label(Industry, "blogg")];
    }
    ghost var l1 := ls;
    assert l1 == start + Applied(BlogRule, url, description) by {
      AnyInOne(url, "blog");
    }
    if Contains(url, "avis") || Contains(url, "posten") || Contains(url, "tidende") || Contains(url, "blad") {
      ls := ls + [Label(Industry, "avis")];
    }
    ghost var l2 := ls;
    assert l2 == l1 + Applied(NewspaperRule, url, description) by {
      AnyInFour(url, "avis", "posten", "tidende", "blad");
    }
    if Contains(url, "kommune") {
      ls := ls + [Label(Industry, "kommune")];
    }
    ghost var l3 := ls;
    assert l3 == l2 + Applied(MunicipalityRule, url, description) by {
      AnyInOne(url, "kommune");
    }
    if Contains(url, "twitter") {
      ls := ls + [Label(Industry, "twitter")];
    }
    assert ls == l3 + Applied(TwitterRule, url, description) by {
      AnyInOne(url, "twitter");
    }

    Chain(start, l1, l2, l3, ls,
      Applied(BlogRule, url, description),
      Applied(NewspaperRule, url, description),
      Applied(MunicipalityRule, url, description),
      Applied(TwitterRule, url, description));
    UrlRuleLabels(url, description);
  }

  /** The four tests of `getEntityLabel` that search the url and the
      description (app.js:235-262). */
  method TextLabels(start: seq<Label>, url: string, description: string) returns (ls: seq<Label>)
    ensures ls == start + RuleLabels(TextRules, url, description)
  {
    ls := start;
    if Contains(url, "fylkeskommune") || Contains(description, "fylkeskommune") {
      ls := ls + [Label(Industry, "fylkeskommune")];
    }
    ghost var l1 := ls;
    assert l1 == start + Applied(CountyRule, url, description) by {
      AnyInOne(url, "fylkeskommune");
      AnyInOne(description, "fylkeskommune");
    }
    if Contains(url, "parti") || Contains(description, "parti") {
      ls := ls + [Label(Industry, "politisk parti")];
    }
    ghost var l2 := ls;
    assert l2 == l1 + Applied(PartyRule, url, description) by {
      AnyInOne(url, "parti");
      AnyInOne(description, "parti");
    }
    if Contains(url, "teater") || Contains(url, "theater") ||
       Contains(description, "teater") || Contains(description, "theater") {
      ls := ls + [Label(Industry, "teater")];
    }
    ghost var l3 := ls;
    assert l3 == l2 + Applied(TheatreRule, url, description) by {
      AnyInTwo(url, "teater", "theater");
      AnyInTwo(description, "teater", "theater");
    }
    if Contains(url, "museum") || Contains(description, "museum") {
      ls := ls + [Label(Industry, "museum")];
    }
    assert ls == l3 + Applied(MuseumRule, url, description) by {
      AnyInOne(url, "museum");
      AnyInOne(description, "museum");
    }

    Chain(start, l1, l2, l3, ls,
      Applied(CountyRule, url, description),
      Applied(PartyRule, url, description),
      Applied(TheatreRule, url, description),
      Applied(MuseumRule, url, description));
    TextRuleLabels(url, description);
  }

  /** Walking one more school entry appends that entry's label when it
      matches. */
  lemma SchoolRulesSnoc(schools: seq<School>, i: nat, url: string, description: string)
    requires i < |schools|
    ensures RuleLabels(SchoolRules(schools[..i + 1]), url, description) ==
      RuleLabels(SchoolRules(schools[..i]), url, description) +
      (if Contains(url, schools[i].url) then [Label(Industry, schools[i].institusjon)] else [])
  {
    assert SchoolRules(schools[..i + 1]) == SchoolRules(schools[..i]) + [SchoolRule(schools[i])];
    RuleLabelsSnoc(SchoolRules(schools[..i]), SchoolRule(schools[i]), url, description);
    AnyInOne(url, schools[i].url);
  }

  /** The entity labels are the provenance label, then the labels of the
      url-only rules, of the url-and-description rules and of the school
      list, each part in table order. */
  lemma EntityLabelsParts(url: string, description: Option<string>, schools: seq<School>)
    ensures EntityLabelsOf(url, description, schools) ==
      [Provenance] + RuleLabels(UrlRules, url, description.GetOr("")) +
      RuleLabels(TextRules, url, description.GetOr("")) +
      RuleLabels(SchoolRules(schools), url, description.GetOr(""))
  {
    var d := description.GetOr("");
    RuleLabelsAppend(UrlRules, TextRules, url, d);
    RuleLabelsAppend(FixedRules, SchoolRules(schools), url, d);
  }

  /** Four pushes one after the other append the four pieces. */
  lemma Chain(start: seq<Label>, l1: seq<Label>, l2: seq<Label>, l3: seq<Label>, l4: seq<Label>,
              a1: seq<Label>, a2: seq<Label>, a3: seq<Label>, a4: seq<Label>)
    requires l1 == start + a1 && l2 == l1 + a2 && l3 == l2 + a3 && l4 == l3 + a4
    ensures l4 == start + (a1 + a2 + a3 + a4)
  {
  }

  /** The url-only table, rule by rule. */
  lemma UrlRuleLabels(url: string, description: string)
    ensures RuleLabels(UrlRules, url, description) ==
      Applied(BlogRule, url, description) + Applied(NewspaperRule, url, description) +
      Applied(MunicipalityRule, url, description) + Applied(TwitterRule, url, description)
  {
    FourRuleLabels(UrlRules, url, description);
  }

  /** The url-and-description table, rule by rule. */
  lemma TextRuleLabels(url: string, description: string)
    ensures RuleLabels(TextRules, url, description) ==
      Applied(CountyRule, url, description) + Applied(PartyRule, url, description) +
      Applied(TheatreRule, url, description) + Applied(MuseumRule, url, description)
  {
    FourRuleLabels(TextRules, url, description);
  }

  lemma FourRuleLabels(rs: seq<Rule>, url: string, description: string)
    requires |rs| == 4
    ensures RuleLabels(rs, url, description) ==
      Applied(rs[0], url, description) + Applied(rs[1], url, description) +
      Applied(rs[2], url, description) + Applied(rs[3], url, description)
  {
    assert rs == [rs[0]] + [rs[1]] + [rs[2]] + [rs[3]];
    forall r | r in rs
      ensures RuleLabels([r], url, description) == Applied(r, url, description)
    {
      assert [r][..0] == [];
    }
    RuleLabelsAppend([rs[0]], [rs[1]], url, description);
    RuleLabelsAppend([rs[0]] + [rs[1]], [rs[2]], url, description);
    RuleLabelsAppend([rs[0]] + [rs[1]] + [rs[2]], [rs[3]], url, description);
  }

  /** Classifying against two tables one after the other is classifying
      against their concatenation. */
  lemma {:induction false} RuleLabelsAppend(a: seq<Rule>, b: seq<Rule>, url: string, description: string)
    ensures RuleLabels(a + b, url, description) ==
      RuleLabels(a, url, description) + RuleLabels(b, url, description)
    decreases |b|
  {
    if b == [] {
      assert a + b == a;
    } else {
      var init := b[..|b| - 1];
      var last := b[|b| - 1];
      assert (a + b)[..|a + b| - 1] == a + init;
      RuleLabelsAppend(a, init, url, description);
    }
  }

  /** Appending a rule appends its label when it matches. */
  lemma RuleLabelsSnoc(rules: seq<Rule>, rule: Rule, url: string, description: string)
    ensures RuleLabels(rules + [rule], url, description) ==
      RuleLabels(rules, url, description) +
      Applied(rule, url, description)
  {
    assert (rules + [rule])[..|rules|] == rules;
  }

  lemma AnyInOne(s: string, a: string)
    ensures AnyIn(s, [a]) <==> Contains(s, a)
  {
  }

  lemma AnyInTwo(s: string, a: string, b: string)
    ensures AnyIn(s, [a, b]) <==> Contains(s, a) || Contains(s, b)
  {
  }

  lemma AnyInFour(s: string, a: string, b: string, c: string, d: string)
    ensures AnyIn(s, [a, b, c, d]) <==>
      Contains(s, a) || Contains(s, b) || Contains(s, c) || Contains(s, d)
  {
  }

  /** A label is produced exactly when some matching rule yields it. */
  lemma {:induction false} RuleLabelsMembers(rules: seq<Rule>, url: string, description: string, l: Label)
    ensures l in RuleLabels(rules, url, description) <==>
      exists i | 0 <= i < |rules| :: Matches(rules[i], url, description) && LabelOf(rules[i]) == l
    decreases |rules|
  {
    if rules != [] {
      var init := rules[..|rules| - 1];
      RuleLabelsMembers(init, url, description, l);
      if exists i | 0 <= i < |init| :: Matches(init[i], url, description) && LabelOf(init[i]) == l {
        var i :| 0 <= i < |init| && Matches(init[i], url, description) && LabelOf(init[i]) == l;
        assert rules[i] == init[i];
      }
      if exists i | 0 <= i < |rules| :: Matches(rules[i], url, description) && LabelOf(rules[i]) == l {
        var i :| 0 <= i < |rules| && Matches(rules[i], url, description) && LabelOf(rules[i]) == l;
        if i < |init| {
          assert init[i] == rules[i];
        }
      }
    }
  }

  /** Two matching rules yield their labels in the order of the rules. */
  lemma {:induction false} RuleLabelsInOrder(rules: seq<Rule>, i: nat, j: nat, url: string, description: string)
    requires i < j < |rules|
    requires Matches(rules[i], url, description) && Matches(rules[j], url, description)
    ensures InOrder(RuleLabels(rules, url, description), LabelOf(rules[i]), LabelOf(rules[j]))
    decreases |rules|
  {
    var init := rules[..|rules| - 1];
    var labels := RuleLabels(rules, url, description);
    var prefix := RuleLabels(init, url, description);
    assert labels == prefix + Applied(rules[|rules| - 1], url, description);
    if j == |rules| - 1 {
      RuleLabelsMembers(init, url, description, LabelOf(rules[i]));
      assert init[i] == rules[i];
      var p :| 0 <= p < |prefix| && prefix[p] == LabelOf(rules[i]);
      assert labels[p] == LabelOf(rules[i]);
      assert labels[|prefix|] == LabelOf(rules[j]);
      var q := |prefix|;
      assert 0 <= p < q < |labels| && labels[p] == LabelOf(rules[i]) && labels[q] == LabelOf(rules[j]);
    } else {
      assert init[i] == rules[i] && init[j] == rules[j];
      RuleLabelsInOrder(init, i, j, url, description);
      var p, q :| 0 <= p < q < |prefix| && prefix[p] == LabelOf(rules[i]) && prefix[q] == LabelOf(rules[j]);
      assert init[i] == rules[i] && init[j] == rules[j];
      assert labels[p] == prefix[p] && labels[q] == prefix[q];
      assert 0 <= p < q < |labels| && labels[p] == LabelOf(rules[i]) && labels[q] == LabelOf(rules[j]);
    }
  }

  /** Rules that do not look at the description give the same labels
      whatever the description is. */
  lemma {:induction false} UrlOnlyRulesIgnoreDescription(rules: seq<Rule>, url: string, d1: string, d2: string)
    requires forall i | 0 <= i < |rules| :: !rules[i].inDescription
    ensures RuleLabels(rules, url, d1) == RuleLabels(rules, url, d2)
    decreases |rules|
  {
    if rules != [] {
      UrlOnlyRulesIgnoreDescription(rules[..|rules| - 1], url, d1, d2);
    }
  }

  /** The description can change the entity labels only through the four
      rules that search it (fylkeskommune, parti, teater/theater, museum). */
  lemma DescriptionOnlyMattersForTextRules(url: string, d1: Option<string>, d2: Option<string>, schools: seq<School>)
    ensures RuleLabels(TextRules, url, d1.GetOr("")) == RuleLabels(TextRules, url, d2.GetOr("")) ==>
      EntityLabelsOf(url, d1, schools) == EntityLabelsOf(url, d2, schools)
  {
    EntityLabelsParts(url, d1, schools);
    EntityLabelsParts(url, d2, schools);
    UrlOnlyRulesIgnoreDescription(UrlRules, url, d1.GetOr(""), d2.GetOr(""));
    UrlOnlyRulesIgnoreDescription(SchoolRules(schools), url, d1.GetOr(""), d2.GetOr(""));
  }

  /** Among the labels of the eight fixed rules, each fixed rule's label is
      present exactly when that rule matches: the eight label values are
      distinct. */
  lemma FixedLabelPresent(k: nat, url: string, description: string)
    requires k < |FixedRules|
    ensures LabelOf(FixedRules[k]) in RuleLabels(FixedRules, url, description) <==>
      Matches(FixedRules[k], url, description)
  {
    RuleLabelsMembers(FixedRules, url, description, LabelOf(FixedRules[k]));
  }

  /** A url naming a county municipality also names a municipality, so it
      gets both labels, `kommune` first. */
  lemma CountyIsAlsoMunicipality(url: string, description: Option<string>, schools: seq<School>)
    requires Contains(url, "fylkeskommune")
    ensures InOrder(EntityLabelsOf(url, description, schools),
      Label(Industry, "kommune"), Label(Industry, "fylkeskommune"))
  {
    assert OccursAt("fylkeskommune", "kommune", 6);
    ContainsTransitive(url, "fylkeskommune", "kommune");
    var d := description.GetOr("");
    var rules := FixedRules + SchoolRules(schools);
    assert rules[2] == MunicipalityRule && rules[4] == CountyRule;
    AnyInOne(url, "kommune");
    AnyInOne(url, "fylkeskommune");
    RuleLabelsInOrder(rules, 2, 4, url, d);
    var ruleLabels := RuleLabels(rules, url, d);
    var p, q :| 0 <= p < q < |ruleLabels| &&
      ruleLabels[p] == LabelOf(MunicipalityRule) && ruleLabels[q] == LabelOf(CountyRule);
    LabelsAfterProvenance(url, description, schools, p, q);
  }

  /** Matching school entries yield their labels in list order, after all
      the fixed rules' labels. */
  lemma SchoolLabelsInOrder(url: string, description: Option<string>, schools: seq<School>, i: nat, j: nat)
    requires i < j < |schools|
    requires Contains(url, schools[i].url) && Contains(url, schools[j].url)
    ensures InOrder(EntityLabelsOf(url, description, schools),
      Label(Industry, schools[i].institusjon), Label(Industry, schools[j].institusjon))
  {
    var d := description.GetOr("");
    var rules := FixedRules + SchoolRules(schools);
    assert rules[|FixedRules| + i] == SchoolRule(schools[i]);
    assert rules[|FixedRules| + j] == SchoolRule(schools[j]);
    AnyInOne(url, schools[i].url);
    AnyInOne(url, schools[j].url);
    RuleLabelsInOrder(rules, |FixedRules| + i, |FixedRules| + j, url, d);
    var ruleLabels := RuleLabels(rules, url, d);
    var p, q :| 0 <= p < q < |ruleLabels| &&
      ruleLabels[p] == LabelOf(SchoolRule(schools[i])) && ruleLabels[q] == LabelOf(SchoolRule(schools[j]));
    LabelsAfterProvenance(url, description, schools, p, q);
  }

  /** Labels in order among the rule labels stay in order among the entity
      labels. */
  lemma LabelsAfterProvenance(url: string, description: Option<string>, schools: seq<School>, p: nat, q: nat)
    requires var ruleLabels := RuleLabels(FixedRules + SchoolRules(schools), url, description.GetOr(""));
      p < q < |ruleLabels|
    ensures var ruleLabels := RuleLabels(FixedRules + SchoolRules(schools), url, description.GetOr(""));
      InOrder(EntityLabelsOf(url, description, schools), ruleLabels[p], ruleLabels[q])
  {
    var labels := EntityLabelsOf(url, description, schools);
    var ruleLabels := RuleLabels(FixedRules + SchoolRules(schools), url, description.GetOr(""));
    assert labels[p + 1] == ruleLabels[p] && labels[q + 1] == ruleLabels[q];
  }

  /** Among the entity labels, a fixed rule's label is present exactly when
      that rule matches, provided no school entry carries the same label
      value; a matching school entry whose `institusjon` is, say, `kommune`
      adds that label whatever the url says. */
  lemma FixedEntityLabelPresent(k: nat, url: string, description: Option<string>, schools: seq<School>)
    requires k < |FixedRules|
    requires forall i | 0 <= i < |schools| :: schools[i].institusjon != FixedRules[k].value
    ensures LabelOf(FixedRules[k]) in EntityLabelsOf(url, description, schools) <==>
      Matches(FixedRules[k], url, description.GetOr(""))
  {
    var d := description.GetOr("");
    var l := LabelOf(FixedRules[k]);
    var schoolRules := SchoolRules(schools);
    RuleLabelsAppend(FixedRules, schoolRules, url, d);
    FixedLabelPresent(k, url, d);
    RuleLabelsMembers(schoolRules, url, d, l);
    assert l != Provenance;
  }

  /** Among the labels of the fixed rules, the municipality label depends
      on the url alone: a description naming a municipality does not
      produce it. */
  lemma MunicipalityLabelFromUrlOnly(url: string, description: string)
    ensures LabelOf(MunicipalityRule) in RuleLabels(FixedRules, url, description) <==>
      Contains(url, "kommune")
  {
    FixedLabelPresent(2, url, description);
    AnyInOne(url, "kommune");
  }

  /** Among the labels of the fixed rules, the museum label comes from the
      url or from the description. */
  lemma MuseumLabelFromUrlOrDescription(url: string, description: string)
    ensures LabelOf(MuseumRule) in RuleLabels(FixedRules, url, description) <==>
      Contains(url, "museum") || Contains(description, "museum")
  {
    FixedLabelPresent(7, url, description);
    AnyInOne(url, "museum");
    AnyInOne(description, "museum");
  }
}
