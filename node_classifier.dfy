/**
 * `classify_node_type`: a Terraform graph node's category, decided by a
 * first-match-wins list of name tests. The provider test comes first and
 * is the only one that looks inside the name; the five address prefixes
 * after it exclude one another, so among them the order does not matter.
 */
module NodeClassifier {
  import opened Strings

  datatype Category = Provider | Module | DataSource | Variable | Output | Local | Resource

  /** The category's name in the JSON report. */
  function CategoryName(c: Category): string
  {
    match c
    case Provider => "provider"
    case Module => "module"
    case DataSource => "data_source"
    case Variable => "variable"
    case Output => "output"
    case Local => "local"
    case Resource => "resource"
  }

  /** Every category, each once. */
  const AllCategories: seq<Category> := [Provider, Module, DataSource, Variable, Output, Local, Resource]

  /** The provider test: `".provider" in name or name.startswith("provider")`. */
  predicate IsProviderName(name: string)
  {
    Contains(name, ".provider") || StartsWith(name, "provider")
  }

  /** `classify_node_type(node_name)` */
  function ClassifyNode(name: string): Category
  {
    if IsProviderName(name) then Provider
    else if StartsWith(name, "module.") then Module
    else if StartsWith(name, "data.") then DataSource
    else if StartsWith(name, "var.") then Variable
    else if StartsWith(name, "output.") then Output
    else if StartsWith(name, "local.") then Local
    else Resource
  }

  /* ---------- the decision list as data ---------- */

  /** One test on a name: a substring or a prefix. */
  datatype Test = Substring(text: string) | Prefix(text: string)

  predicate Passes(t: Test, name: string)
  {
    match t
    case Substring(p) => Contains(name, p)
    case Prefix(p) => StartsWith(name, p)
  }

  /** A rule fires when any of its tests passes. */
  datatype Rule = Rule(tests: seq<Test>, category: Category)

  predicate Fires(r: Rule, name: string)
  {
    exists k :: 0 <= k < |r.tests| && Passes(r.tests[k], name)
  }

  /** The rules in priority order; a name no rule fires for is a resource. */
  const Rules: seq<Rule> := [
    Rule([Substring(".provider"), Prefix("provider")], Provider),
    Rule([Prefix("module.")], Module),
    Rule([Prefix("data.")], DataSource),
    Rule([Prefix("var.")], Variable),
    Rule([Prefix("output.")], Output),
    Rule([Prefix("local.")], Local)
  ]

  /** First match wins: the category of the first rule that fires, and the fallback when none does. */
  function FirstMatch(rules: seq<Rule>, name: string, fallback: Category): (c: Category)
    ensures (forall i :: 0 <= i < |rules| ==> !Fires(rules[i], name)) ==> c == fallback
    ensures (exists i :: 0 <= i < |rules| && Fires(rules[i], name)) ==>
              exists i :: 0 <= i < |rules| && Fires(rules[i], name) && c == rules[i].category
                && forall j :: 0 <= j < i ==> !Fires(rules[j], name)
  {
    if rules == [] then fallback
    else if Fires(rules[0], name) then rules[0].category
    else
      var c := FirstMatch(rules[1..], name, fallback);
      FiredLater(rules, rules[1..], name, c, fallback);
      c
  }

  /** A first match in the rules after a rule that does not fire is a first match in the whole list. */
  lemma FiredLater(rules: seq<Rule>, tail: seq<Rule>, name: string, c: Category, fallback: Category)
    requires |rules| > 0 && tail == rules[1..] && !Fires(rules[0], name)
    requires (forall i :: 0 <= i < |tail| ==> !Fires(tail[i], name)) ==> c == fallback
    requires (exists i :: 0 <= i < |tail| && Fires(tail[i], name)) ==>
               exists i :: 0 <= i < |tail| && Fires(tail[i], name) && c == tail[i].category
                 && forall j :: 0 <= j < i ==> !Fires(tail[j], name)
    ensures (forall i :: 0 <= i < |rules| ==> !Fires(rules[i], name)) ==> c == fallback
    ensures (exists i :: 0 <= i < |rules| && Fires(rules[i], name)) ==>
              exists i :: 0 <= i < |rules| && Fires(rules[i], name) && c == rules[i].category
                && forall j :: 0 <= j < i ==> !Fires(rules[j], name)
  {
    if forall i :: 0 <= i < |rules| ==> !Fires(rules[i], name) {
      forall i | 0 <= i < |tail| ensures !Fires(tail[i], name) {
        assert tail[i] == rules[i + 1];
      }
    }
    if exists i :: 0 <= i < |rules| && Fires(rules[i], name) {
      var k :| 0 <= k < |rules| && Fires(rules[k], name);
      assert k > 0 && tail[k - 1] == rules[k];
      var i :| 0 <= i < |tail| && Fires(tail[i], name) && c == tail[i].category
                 && forall j :: 0 <= j < i ==> !Fires(tail[j], name);
      assert rules[i + 1] == tail[i];
      forall j | 0 <= j < i + 1 ensures !Fires(rules[j], name) {
        if j > 0 {
          assert rules[j] == tail[j - 1];
        }
      }
    }
  }

  /* ---------- properties ---------- */

  /** The if-chain is the decision list `Rules` read first to last, with `Resource` as the fallback. */
  lemma ClassifyIsFirstMatch(name: string)
    ensures ClassifyNode(name) == FirstMatch(Rules, name, Resource)
  {
    var r := Rules;
    assert Fires(r[0], name) <==> IsProviderName(name) by {
      assert Passes(r[0].tests[0], name) <==> Contains(name, ".provider");
      assert Passes(r[0].tests[1], name) <==> StartsWith(name, "provider");
    }
    var tail := r[1..];
    FirstMatchStep(r, name, Resource);
    var ps, cs := AddressPrefixes, PrefixCategories;
    PrefixRulesListed();
    PrefixRules(tail, name, ps, cs);
    ChainUnfolds(name);
  }

  /** After the provider rule, each rule tests one address prefix. */
  lemma PrefixRulesListed()
    ensures |Rules[1..]| == |AddressPrefixes| == |PrefixCategories|
    ensures forall i :: 0 <= i < |Rules[1..]| ==> Rules[1..][i] == Rule([Prefix(AddressPrefixes[i])], PrefixCategories[i])
  {
    var tail, ps, cs := Rules[1..], AddressPrefixes, PrefixCategories;
    assert tail == [
      Rule([Prefix(ps[0])], cs[0]), Rule([Prefix(ps[1])], cs[1]), Rule([Prefix(ps[2])], cs[2]),
      Rule([Prefix(ps[3])], cs[3]), Rule([Prefix(ps[4])], cs[4])];
  }

  /** One step of the decision list. */
  lemma FirstMatchStep(rules: seq<Rule>, name: string, fallback: Category)
    requires |rules| > 0
    ensures FirstMatch(rules, name, fallback)
         == if Fires(rules[0], name) then rules[0].category else FirstMatch(rules[1..], name, fallback)
  {
  }

  /** The categories of the address prefixes, in the same order. */
  const PrefixCategories: seq<Category> := [Module, DataSource, Variable, Output, Local]

  lemma ChainUnfolds(name: string)
    ensures !IsProviderName(name) ==> ClassifyNode(name) == PrefixChain(name, AddressPrefixes, PrefixCategories)
  {
    var ps, cs := AddressPrefixes, PrefixCategories;
    assert ps[1..][1..][1..][1..][1..] == [];
    assert PrefixChain(name, ps[1..][1..][1..][1..], cs[1..][1..][1..][1..])
        == if StartsWith(name, "local.") then Local else Resource;
    assert PrefixChain(name, ps[1..][1..][1..], cs[1..][1..][1..])
        == if StartsWith(name, "output.") then Output
           else PrefixChain(name, ps[1..][1..][1..][1..], cs[1..][1..][1..][1..]);
    assert PrefixChain(name, ps[1..][1..], cs[1..][1..])
        == if StartsWith(name, "var.") then Variable
           else PrefixChain(name, ps[1..][1..][1..], cs[1..][1..][1..]);
    assert PrefixChain(name, ps[1..], cs[1..])
        == if StartsWith(name, "data.") then DataSource
           else PrefixChain(name, ps[1..][1..], cs[1..][1..]);
  }

  /** Rules of one prefix test each, read in order. */
  function PrefixChain(name: string, ps: seq<string>, cs: seq<Category>): Category
    requires |ps| == |cs|
  {
    if ps == [] then Resource
    else if StartsWith(name, ps[0]) then cs[0]
    else PrefixChain(name, ps[1..], cs[1..])
  }

  lemma {:induction false} PrefixRules(rules: seq<Rule>, name: string, ps: seq<string>, cs: seq<Category>)
    requires |rules| == |ps| == |cs|
    requires forall i :: 0 <= i < |rules| ==> rules[i] == Rule([Prefix(ps[i])], cs[i])
    ensures FirstMatch(rules, name, Resource) == PrefixChain(name, ps, cs)
    decreases |rules|
  {
    if rules != [] {
      assert Fires(rules[0], name) <==> Passes(rules[0].tests[0], name);
      PrefixRules(rules[1..], name, ps[1..], cs[1..]);
    }
  }

  /** The five address prefixes, in the order the if-chain tries them. */
  const AddressPrefixes: seq<string> := ["module.", "data.", "var.", "output.", "local."]

  /** No name starts with two of the address prefixes: they begin with five different letters. */
  lemma PrefixesExclusive(name: string, p: string, q: string)
    requires p in AddressPrefixes && q in AddressPrefixes
    requires StartsWith(name, p) && StartsWith(name, q)
    ensures p == q
  {
    assert name[0] == name[..|p|][0] == p[0];
    assert name[0] == name[..|q|][0] == q[0];
  }

  /**
   * The address prefixes are tried in an order that does not matter: a name
   * that is not a provider name is in the category of the one prefix it
   * starts with, whichever comes first in the list.
   */
  lemma PrefixDecides(name: string)
    requires !IsProviderName(name)
    ensures ClassifyNode(name) == Module <==> StartsWith(name, "module.")
    ensures ClassifyNode(name) == DataSource <==> StartsWith(name, "data.")
    ensures ClassifyNode(name) == Variable <==> StartsWith(name, "var.")
    ensures ClassifyNode(name) == Output <==> StartsWith(name, "output.")
    ensures ClassifyNode(name) == Local <==> StartsWith(name, "local.")
  {
    forall p, q | p in AddressPrefixes && q in AddressPrefixes && StartsWith(name, p) && StartsWith(name, q)
      ensures p == q
    {
      PrefixesExclusive(name, p, q);
    }
  }

  /** A name is a provider exactly when the provider test passes, whatever prefix it has. */
  lemma ProviderFirst(name: string)
    ensures ClassifyNode(name) == Provider <==> IsProviderName(name)
    ensures ClassifyNode(name) == Resource <==> forall i :: 0 <= i < |Rules| ==> !Fires(Rules[i], name)
  {
    ClassifyIsFirstMatch(name);
    if ClassifyNode(name) == Resource {
      forall i | 0 <= i < |Rules| ensures !Fires(Rules[i], name) {
        assert |Rules[i].tests| >= 1;
      }
    }
  }

  /** A `.provider` inside a module address wins over `module.`. */
  lemma ModuleProviderScenario()
    ensures ClassifyNode("module.vpc.provider") == Provider
  {
    assert "module.vpc.provider" == "module.vpc" + ".provider" + "";
    ContainsInside("module.vpc", ".provider", "");
  }

  /** `var.region` is a variable. */
  lemma VariableScenario()
    ensures ClassifyNode("var.region") == Variable
  {
    var s := "var.region";
    RegionNotProvider();
    assert s[..4] == "var.";
    PrefixDecides(s);
  }

  lemma RegionNotProvider()
    ensures !IsProviderName("var.region")
  {
    var s := "var.region";
    var p := ".provider";
    ShortNotContains(s[1..][1..], p);
    assert s[1..][..9][0] == 'a';
    assert !StartsWith(s[1..], p);
    assert !Contains(s[1..], p);
    assert s[..9][0] == 'v';
    assert !StartsWith(s, p);
    assert s[..8][0] == 'v';
  }
}
