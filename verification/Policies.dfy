/** Access rules: who may do what beneath which namespace. */
module Policies {
  import opened Outcomes
  import opened Text
  import opened Keys

  type Action = string

  const ACTIONS: set<Action> := {"get", "list", "watch", "put", "delete"}

  // `actions` is the key set of the source's map from actions to true.
  datatype Rule = Rule(ns: Namespace, actions: set<Action>)

  datatype RuleSpec = RuleSpec(principal: string, ns: string, actions: seq<string>)

  type Policy = map<string, seq<Rule>>

  datatype PolicyError =
    | BadNamespace(principal: string)
    | UnknownAction(principal: string, action: string)

  function RulesOf(p: Policy, principal: string): seq<Rule> {
    if principal in p then p[principal] else []
  }

  // ---- decisions ---------------------------------------------------------

  ghost predicate Grants(r: Rule, action: Action, ns: Namespace) {
    action in r.actions && r.ns.Encloses(ns)
  }

  ghost predicate Allowed(p: Policy, principal: string, action: Action, ns: Namespace) {
    exists r :: r in RulesOf(p, principal) && Grants(r, action, ns)
  }

  predicate Comparable(a: Namespace, b: Namespace) {
    a.Encloses(b) || b.Encloses(a)
  }

  ghost predicate Overlaps(p: Policy, principal: string, action: Action, ns: Namespace) {
    exists r :: r in RulesOf(p, principal) && action in r.actions && Comparable(r.ns, ns)
  }

  ghost predicate MayWatch(p: Policy, principal: string, ns: Namespace) {
    Overlaps(p, principal, "list", ns) && Overlaps(p, principal, "watch", ns)
  }

  method Allows(p: Policy, principal: string, action: Action, ns: Namespace) returns (ok: bool)
    ensures ok <==> Allowed(p, principal, action, ns)
  {
    var rules := RulesOf(p, principal);
    for i := 0 to |rules|
      invariant forall j :: 0 <= j < i ==> !Grants(rules[j], action, ns)
    {
      if action in rules[i].actions {
        var c := rules[i].ns.Contains(ns);
        if c {
          assert Grants(rules[i], action, ns);
          return true;
        }
      }
    }
    return false;
  }

  method Overlap(p: Policy, principal: string, action: Action, ns: Namespace) returns (ok: bool)
    ensures ok <==> Overlaps(p, principal, action, ns)
  {
    var rules := RulesOf(p, principal);
    for i := 0 to |rules|
      invariant forall j :: 0 <= j < i ==> !(action in rules[j].actions && Comparable(rules[j].ns, ns))
    {
      if action !in rules[i].actions {
        continue;
      }
      var above := rules[i].ns.Contains(ns);
      var below := ns.Contains(rules[i].ns);
      if above || below {
        assert rules[i] in rules;
        return true;
      }
    }
    return false;
  }

  method CanList(p: Policy, principal: string, ns: Namespace) returns (ok: bool)
    ensures ok <==> Overlaps(p, principal, "list", ns)
  {
    ok := Overlap(p, principal, "list", ns);
  }

  method CanWatch(p: Policy, principal: string, ns: Namespace) returns (ok: bool)
    ensures ok <==> MayWatch(p, principal, ns)
  {
    var l := CanList(p, principal, ns);
    if !l {
      return false;
    }
    ok := Overlap(p, principal, "watch", ns);
  }

  // ---- compilation -------------------------------------------------------

  ghost predicate WellNamed(spec: RuleSpec) {
    spec.ns == "*" || NamespaceFrom(spec.ns).Ok?
  }

  ghost predicate WellFormed(spec: RuleSpec) {
    WellNamed(spec) && forall a :: a in spec.actions ==> a in ACTIONS
  }

  // The namespace a well-named spec covers; "*" covers every namespace.
  function Covers(spec: RuleSpec): Namespace {
    if spec.ns == "*" then Namespace([])
    else match NamespaceFrom(spec.ns) case Ok(ns) => ns case Err(_) => Namespace([])
  }

  // What a list of specs promises, said without compiling anything.
  ghost predicate SpecGrants(spec: RuleSpec, principal: string, action: Action, ns: Namespace) {
    spec.principal == principal && action in spec.actions && Covers(spec).Encloses(ns)
  }

  // "*" covers every namespace; any other text covers the namespace it
  // spells and what lies beneath.
  lemma WhatSpecsCover(spec: RuleSpec, action: Action, covered: Namespace, ns: Namespace)
    requires spec.ns == "*" || (covered.Valid() && SpellsNamespace(spec.ns, covered))
    ensures SpecGrants(spec, spec.principal, action, ns)
            <==> action in spec.actions && (spec.ns == "*" || covered.Encloses(ns))
  {
    if spec.ns != "*" {
      ParseNamespaceDecides(spec.ns, covered);
    }
  }

  // The rules a principal has are exactly those of its specs, in order.
  ghost predicate Compiled(p: Policy, specs: seq<RuleSpec>) {
    forall principal :: RulesOf(p, principal) == CompiledRules(specs, principal)
  }

  ghost function RuleFor(spec: RuleSpec): Rule {
    Rule(Covers(spec), set a | a in spec.actions)
  }

  ghost function CompiledRules(specs: seq<RuleSpec>, principal: string): seq<Rule> {
    if specs == [] then []
    else
      var front := CompiledRules(specs[..|specs| - 1], principal);
      var last := specs[|specs| - 1];
      if last.principal == principal then front + [RuleFor(last)] else front
  }

  ghost predicate FirstUnknown(actions: seq<string>, a: string) {
    exists j: nat :: j < |actions| && actions[j] == a && a !in ACTIONS
                     && forall i :: 0 <= i < j ==> actions[i] in ACTIONS
  }

  method CompileActions(spec: RuleSpec) returns (r: Result<set<Action>, PolicyError>)
    ensures r.Ok? <==> forall a :: a in spec.actions ==> a in ACTIONS
    ensures r.Ok? ==> r.value == set a | a in spec.actions
    ensures r.Err? ==> r.error.UnknownAction? && r.error.principal == spec.principal
                       && FirstUnknown(spec.actions, r.error.action)
  {
    var actions: set<Action> := {};
    for j := 0 to |spec.actions|
      invariant forall i :: 0 <= i < j ==> spec.actions[i] in ACTIONS
      invariant actions == set a | a in spec.actions[..j]
    {
      var a := spec.actions[j];
      if a !in ACTIONS {
        return Err(UnknownAction(spec.principal, a));
      }
      actions := actions + {a};
      assert spec.actions[..j + 1] == spec.actions[..j] + [a];
    }
    assert spec.actions[..|spec.actions|] == spec.actions;
    return Ok(actions);
  }

  // The actions a spec may name: those the service asks about.
  lemma KnownActions(principal: string, a: string)
    ensures WellFormed(RuleSpec(principal, "*", [a]))
            <==> a == "get" || a == "list" || a == "watch" || a == "put" || a == "delete"
  {
    assert a in [a];
  }

  // What is wrong with a spec: its namespace, or else its first unknown action.
  ghost predicate Faults(spec: RuleSpec, e: PolicyError) {
    && e.principal == spec.principal
    && (e.BadNamespace? <==> !WellNamed(spec))
    && (e.UnknownAction? ==> FirstUnknown(spec.actions, e.action))
  }

  // An error is about the first bad spec.
  ghost predicate Refused(specs: seq<RuleSpec>, i: nat, e: PolicyError) {
    i < |specs| && !WellFormed(specs[i]) && (forall j :: 0 <= j < i ==> WellFormed(specs[j])) && Faults(specs[i], e)
  }

  method CompileSpec(spec: RuleSpec) returns (r: Result<Rule, PolicyError>)
    ensures r.Ok? <==> WellFormed(spec)
    ensures r.Ok? ==> r.value == RuleFor(spec)
    ensures r.Err? ==> Faults(spec, r.error)
  {
    var ns := Namespace([]);
    if spec.ns != "*" {
      var parsed := ParseNamespace(spec.ns);
      if parsed.Err? {
        return Err(BadNamespace(spec.principal));
      }
      ns := parsed.value;
    }
    var actions := CompileActions(spec);
    if actions.Err? {
      return Err(actions.error);
    }
    return Ok(Rule(ns, actions.value));
  }

  lemma RuleAdded(p: Policy, specs: seq<RuleSpec>, i: nat, rule: Rule)
    requires i < |specs| && Compiled(p, specs[..i]) && rule == RuleFor(specs[i])
    ensures Compiled(p[specs[i].principal := RulesOf(p, specs[i].principal) + [rule]], specs[..i + 1])
  {
    var q := p[specs[i].principal := RulesOf(p, specs[i].principal) + [rule]];
    assert specs[..i + 1][..i] == specs[..i];
    forall principal ensures RulesOf(q, principal) == CompiledRules(specs[..i + 1], principal) {
      assert RulesOf(p, principal) == CompiledRules(specs[..i], principal);
    }
  }

  // Fails at the first bad spec; otherwise the policy holds exactly its specs.
  method NewPolicy(specs: seq<RuleSpec>) returns (r: Result<Policy, PolicyError>)
    ensures r.Ok? <==> forall s :: s in specs ==> WellFormed(s)
    ensures r.Ok? ==> Compiled(r.value, specs)
    ensures r.Err? ==> exists i :: Refused(specs, i, r.error)
  {
    var p: Policy := map[];
    for i := 0 to |specs|
      invariant forall j :: 0 <= j < i ==> WellFormed(specs[j])
      invariant Compiled(p, specs[..i])
    {
      var spec := specs[i];
      assert spec in specs;
      var rule := CompileSpec(spec);
      if rule.Err? {
        assert Refused(specs, i, rule.error);
        return Err(rule.error);
      }
      RuleAdded(p, specs, i, rule.value);
      p := p[spec.principal := RulesOf(p, spec.principal) + [rule.value]];
    }
    assert specs[..|specs|] == specs;
    return Ok(p);
  }

  lemma {:induction false} CompiledRulesAre(specs: seq<RuleSpec>, principal: string, r: Rule)
    ensures r in CompiledRules(specs, principal)
            <==> exists s :: s in specs && s.principal == principal && RuleFor(s) == r
  {
    if specs != [] {
      var front, last := specs[..|specs| - 1], specs[|specs| - 1];
      CompiledRulesAre(front, principal, r);
      assert specs == front + [last];
    }
  }

  // A compiled policy allows exactly what some spec grants.
  lemma PolicyMeansSpecs(p: Policy, specs: seq<RuleSpec>, principal: string, action: Action, ns: Namespace)
    requires Compiled(p, specs)
    ensures Allowed(p, principal, action, ns) <==> exists s :: s in specs && SpecGrants(s, principal, action, ns)
  {
    assert RulesOf(p, principal) == CompiledRules(specs, principal);
    if Allowed(p, principal, action, ns) {
      var r :| r in RulesOf(p, principal) && Grants(r, action, ns);
      CompiledRulesAre(specs, principal, r);
      var s :| s in specs && s.principal == principal && RuleFor(s) == r;
      assert SpecGrants(s, principal, action, ns);
    }
    if s :| s in specs && SpecGrants(s, principal, action, ns) {
      CompiledRulesAre(specs, principal, RuleFor(s));
      assert Grants(RuleFor(s), action, ns);
    }
  }

  // Reordering or repeating specs changes no decision, and adding specs
  // takes no permission away.
  lemma PolicyIsMonotone(p: Policy, specs: seq<RuleSpec>, q: Policy, more: seq<RuleSpec>,
                         principal: string, action: Action, ns: Namespace)
    requires Compiled(p, specs) && Compiled(q, more)
    requires forall s :: s in specs ==> s in more
    ensures Allowed(p, principal, action, ns) ==> Allowed(q, principal, action, ns)
    ensures (forall s :: s in more ==> s in specs) ==>
              (Allowed(p, principal, action, ns) <==> Allowed(q, principal, action, ns))
  {
    PolicyMeansSpecs(p, specs, principal, action, ns);
    PolicyMeansSpecs(q, more, principal, action, ns);
  }

  // ---- subscription checks against per-key filters -----------------------

  predicate ValidOrZero(ns: Namespace) {
    ns.IsZero() || ns.Valid()
  }

  // Rules made by NewPolicy cover valid namespaces, or all of them.
  ghost predicate Sane(p: Policy) {
    forall principal, r :: r in RulesOf(p, principal) ==> ValidOrZero(r.ns)
  }

  lemma CompiledIsSane(p: Policy, specs: seq<RuleSpec>)
    requires Compiled(p, specs) && forall s :: s in specs ==> WellFormed(s)
    ensures Sane(p)
  {
    forall principal, r | r in RulesOf(p, principal) ensures ValidOrZero(r.ns) {
      assert RulesOf(p, principal) == CompiledRules(specs, principal);
      CompiledRulesAre(specs, principal, r);
      var s :| s in specs && s.principal == principal && RuleFor(s) == r;
      NamespaceFromValid(s.ns);
    }
  }

  // A key at or beneath a namespace that may be requested or covered.
  function SomeKeyUnder(ns: Namespace): Key
    requires ValidOrZero(ns)
  {
    assert Namespace(["a"]).Valid();
    if ns.IsZero() then Key(Namespace(["a"]), "A") else Key(ns, "A")
  }

  // What List's filter keeps for a request on ns.
  ghost predicate Listable(p: Policy, principal: string, ns: Namespace, k: Key) {
    ns.Encloses(k.ns) && Allowed(p, principal, "list", k.ns)
  }

  // What the event filter lets through.
  ghost predicate Visible(p: Policy, principal: string, ns: Namespace, k: Key) {
    Listable(p, principal, ns, k) && Allowed(p, principal, "watch", k.ns)
  }

  // List is permitted exactly when some key could be listed.
  lemma CanListIsExact(p: Policy, principal: string, ns: Namespace)
    requires Sane(p) && ValidOrZero(ns)
    ensures Overlaps(p, principal, "list", ns) <==> exists k: Key :: Listable(p, principal, ns, k)
  {
    if Overlaps(p, principal, "list", ns) {
      var r :| r in RulesOf(p, principal) && "list" in r.actions && Comparable(r.ns, ns);
      var k := SomeKeyUnder(if r.ns.Encloses(ns) then ns else r.ns);
      assert Grants(r, "list", k.ns);
      assert Listable(p, principal, ns, k);
    }
    if k: Key :| Listable(p, principal, ns, k) {
      var r :| r in RulesOf(p, principal) && Grants(r, "list", k.ns);
      EnclosesIsForest(r.ns, ns, k.ns);
    }
  }

  // A rule for listing and a rule for watching that meet beneath ns.
  ghost predicate RulesMeet(p: Policy, principal: string, ns: Namespace) {
    exists l, w :: l in RulesOf(p, principal) && w in RulesOf(p, principal)
                   && "list" in l.actions && "watch" in w.actions
                   && Comparable(l.ns, w.ns) && Comparable(l.ns, ns) && Comparable(w.ns, ns)
  }

  function Deeper(a: Namespace, b: Namespace): Namespace {
    if a.Encloses(b) then b else a
  }

  // Something can ever be visible exactly when a list rule and a watch rule
  // meet beneath the subscription.
  lemma VisibleIffRulesMeet(p: Policy, principal: string, ns: Namespace)
    requires Sane(p) && ValidOrZero(ns)
    ensures (exists k: Key :: Visible(p, principal, ns, k)) <==> RulesMeet(p, principal, ns)
  {
    if RulesMeet(p, principal, ns) {
      var l, w :| l in RulesOf(p, principal) && w in RulesOf(p, principal)
                  && "list" in l.actions && "watch" in w.actions
                  && Comparable(l.ns, w.ns) && Comparable(l.ns, ns) && Comparable(w.ns, ns);
      var d := Deeper(l.ns, w.ns);
      var k := SomeKeyUnder(Deeper(d, ns));
      assert Comparable(d, ns) && l.ns.Encloses(d) && w.ns.Encloses(d);
      EnclosesIsForest(l.ns, d, k.ns);
      EnclosesIsForest(w.ns, d, k.ns);
      assert Grants(l, "list", k.ns) && Grants(w, "watch", k.ns);
      assert Visible(p, principal, ns, k);
    }
    if k: Key :| Visible(p, principal, ns, k) {
      var l :| l in RulesOf(p, principal) && Grants(l, "list", k.ns);
      var w :| w in RulesOf(p, principal) && Grants(w, "watch", k.ns);
      EnclosesIsForest(l.ns, ns, k.ns);
      EnclosesIsForest(w.ns, ns, k.ns);
      EnclosesIsForest(l.ns, w.ns, k.ns);
    }
  }

  // Whoever could see a key may subscribe; and when every rule that grants
  // watch also grants list, whoever may subscribe could see a key.
  lemma CanWatchAgainstVisible(p: Policy, principal: string, ns: Namespace)
    requires Sane(p) && ValidOrZero(ns)
    ensures (exists k: Key :: Visible(p, principal, ns, k)) ==> MayWatch(p, principal, ns)
    ensures (forall r :: r in RulesOf(p, principal) && "watch" in r.actions ==> "list" in r.actions)
            ==> ((exists k: Key :: Visible(p, principal, ns, k)) <==> MayWatch(p, principal, ns))
  {
    VisibleIffRulesMeet(p, principal, ns);
    if MayWatch(p, principal, ns) {
      var w :| w in RulesOf(p, principal) && "watch" in w.actions && Comparable(w.ns, ns);
      EnclosesIsForest(w.ns, w.ns, w.ns);
      assert Comparable(w.ns, w.ns);
    }
  }

  // canWatch alone does not promise anything visible: list on one child and
  // watch on its sibling admit a subscription to their parent.
  lemma CanWatchMayShowNothing() returns (p: Policy, ns: Namespace)
    ensures Sane(p) && ns.Valid()
    ensures MayWatch(p, "alice", ns)
    ensures forall k: Key :: !Visible(p, "alice", ns, k)
  {
    ns := Namespace(["a"]);
    var l, w := Rule(Namespace(["a", "b"]), {"list"}), Rule(Namespace(["a", "c"]), {"watch"});
    p := map["alice" := [l, w]];
    assert RulesOf(p, "alice") == [l, w];
    assert Comparable(l.ns, ns) && Comparable(w.ns, ns);
    assert l in RulesOf(p, "alice") && w in RulesOf(p, "alice");
    assert l.ns.segments[1] != w.ns.segments[1];
    assert !Comparable(l.ns, w.ns) && !RulesMeet(p, "alice", ns);
    VisibleIffRulesMeet(p, "alice", ns);
  }
}
