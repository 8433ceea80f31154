/**
 Resolution of extends, resolve and flattenRules of internal/auditspec/engine.go: a depth-first
 search with cycle detection.  A policy is kept exactly when no chain of extends from it reaches
 an undefined name or comes back to a name already on the chain.
 */
module AuditResolve {
  import opened Text
  import opened AuditTypes

  type Table = map<string, Policy>

  function ResolutionFinding(env: Env, code: string, policy: Policy, message: Message): Finding {
    Finding(code, SeverityFor(env, code), Unspecified, "", policy.name, None, env.wording(message), policy.source, None)
  }

  function CycleFinding(env: Env, name: string, policy: Policy): Finding {
    ResolutionFinding(env, EXTENDS_CYCLE, policy, ExtendsCycle(name)).(policy := name)
  }

  function UndefinedFinding(env: Env, policy: Policy, parent: string): Finding {
    ResolutionFinding(env, UNKNOWN_EXTENDS, policy, ExtendsUndefined(policy.name, parent))
  }

  /** The rules of a policy with those it extends, or None, and the findings on the way. */
  datatype Flat = Flat(rules: Option<seq<Rule>>, findings: seq<Finding>)

  /** flattenRules; visiting is the chain of names being expanded. */
  function Flatten(env: Env, table: Table, name: string, visiting: set<string>): Flat
    decreases |table.Keys - visiting|, 1, 0
  {
    if name !in table then Flat(None, [])
    else if name in visiting then Flat(None, [CycleFinding(env, name, table[name])])
    else
      assert table.Keys - (visiting + {name}) < table.Keys - visiting by {
        assert name in table.Keys - visiting && name !in table.Keys - (visiting + {name});
      }
      Shrinks(table.Keys - (visiting + {name}), table.Keys - visiting);
      var all := FlattenAll(env, table, table[name], table[name].parents, visiting + {name}, []);
      if all.rules.None? then all else all.(rules := Some(all.rules.value + table[name].rules))
  }

  lemma Shrinks(a: set<string>, b: set<string>)
    requires a < b
    ensures |a| < |b|
  {
    assert b == a + (b - a);
    assert b - a != {};
  }

  /** The loop over the parents, with the rules gathered so far. */
  function FlattenAll(env: Env, table: Table, policy: Policy, parents: seq<string>, visiting: set<string>, rules: seq<Rule>): Flat
    decreases |table.Keys - visiting|, 2, |parents|
  {
    if parents == [] then Flat(Some(rules), [])
    else
      var first := Flatten(env, table, parents[0], visiting);
      if first.rules.None? then
        Flat(None, first.findings + if parents[0] !in table then [UndefinedFinding(env, policy, parents[0])] else [])
      else
        var rest := FlattenAll(env, table, policy, parents[1..], visiting, rules + first.rules.value);
        rest.(findings := first.findings + rest.findings)
  }

  // --------------------------------------------------------- when it succeeds

  /** A chain of extends. */
  predicate Chain(table: Table, path: seq<string>) {
    && path != []
    && forall i | 0 <= i < |path| - 1 :: path[i] in table && path[i + 1] in table[path[i]].parents
  }

  /** A chain from a policy that ends in an undefined name, or in one already visited or on the chain. */
  predicate BadChain(table: Table, path: seq<string>, visiting: set<string>) {
    && Chain(table, path)
    && var last := path[|path| - 1];
       last !in table || last in visiting || last in path[..|path| - 1]
  }

  /** What is reported about a bad chain of at least two names, or one that starts on a visited name. */
  function Report(env: Env, table: Table, path: seq<string>): Finding
    requires Chain(table, path) && (path[|path| - 1] in table || |path| > 1)
  {
    var last := path[|path| - 1];
    if last in table then CycleFinding(env, last, table[last])
    else UndefinedFinding(env, table[path[|path| - 2]], last)
  }

  /** Succeeding, Flatten reports nothing. */
  lemma {:induction false} FlattenQuiet(env: Env, table: Table, name: string, visiting: set<string>)
    requires Flatten(env, table, name, visiting).rules.Some?
    ensures Flatten(env, table, name, visiting).findings == []
    decreases |table.Keys - visiting|, 1, 0
  {
    Shrinks(table.Keys - (visiting + {name}), table.Keys - visiting);
    FlattenAllQuiet(env, table, table[name], table[name].parents, visiting + {name}, []);
  }

  lemma {:induction false} FlattenAllQuiet(env: Env, table: Table, policy: Policy, parents: seq<string>, visiting: set<string>, rules: seq<Rule>)
    requires FlattenAll(env, table, policy, parents, visiting, rules).rules.Some?
    ensures FlattenAll(env, table, policy, parents, visiting, rules).findings == []
    decreases |table.Keys - visiting|, 2, |parents|
  {
    if parents != [] {
      FlattenQuiet(env, table, parents[0], visiting);
      FlattenAllQuiet(env, table, policy, parents[1..], visiting, rules + Flatten(env, table, parents[0], visiting).rules.value);
    }
  }

  /** Failing, Flatten has found a bad chain and reports exactly that one. */
  lemma {:induction false} FlattenFails(env: Env, table: Table, name: string, visiting: set<string>) returns (path: seq<string>)
    requires Flatten(env, table, name, visiting).rules.None?
    ensures BadChain(table, path, visiting) && path[0] == name
    ensures name in table ==> Flatten(env, table, name, visiting).findings == [Report(env, table, path)]
    ensures name !in table ==> path == [name] && Flatten(env, table, name, visiting).findings == []
    decreases |table.Keys - visiting|, 1, 0
  {
    path := [name];
    if name in table && name !in visiting {
      Shrinks(table.Keys - (visiting + {name}), table.Keys - visiting);
      var rest := FlattenAllFails(env, table, table[name], table[name].parents, visiting + {name}, []);
      path := Longer(env, table, name, rest, visiting);
    }
  }

  /** A bad chain from a parent is a bad chain from its child. */
  lemma Longer(env: Env, table: Table, name: string, rest: seq<string>, visiting: set<string>) returns (path: seq<string>)
    requires name in table && BadChain(table, rest, visiting + {name}) && rest[0] in table[name].parents
    ensures BadChain(table, path, visiting) && path[0] == name && |path| > 1
    ensures Report(env, table, path)
            == if |rest| == 1 && rest[0] !in table then UndefinedFinding(env, table[name], rest[0]) else Report(env, table, rest)
  {
    path := [name] + rest;
    var last := rest[|rest| - 1];
    assert path[|path| - 1] == last;
    forall i | 0 <= i < |path| - 1
      ensures path[i] in table && path[i + 1] in table[path[i]].parents
    {
      if i > 0 {
        assert path[i] == rest[i - 1] && path[i + 1] == rest[i];
      }
    }
    if last in table && last !in visiting {
      if last in rest[..|rest| - 1] {
        var i :| 0 <= i < |rest| - 1 && rest[i] == last;
        assert path[..|path| - 1][i + 1] == last;
      } else {
        assert path[..|path| - 1][0] == last;
      }
    }
    if |rest| > 1 {
      assert path[|path| - 2] == rest[|rest| - 2];
    }
  }

  lemma {:induction false} FlattenAllFails(env: Env, table: Table, policy: Policy, parents: seq<string>, visiting: set<string>, rules: seq<Rule>)
    returns (path: seq<string>)
    requires FlattenAll(env, table, policy, parents, visiting, rules).rules.None?
    ensures BadChain(table, path, visiting) && path[0] in parents
    ensures FlattenAll(env, table, policy, parents, visiting, rules).findings
            == [if |path| == 1 && path[0] !in table then UndefinedFinding(env, policy, path[0]) else Report(env, table, path)]
    decreases |table.Keys - visiting|, 2, |parents|
  {
    var first := Flatten(env, table, parents[0], visiting);
    if first.rules.None? {
      path := FlattenFails(env, table, parents[0], visiting);
      assert |path| == 1 && path[0] !in table <==> parents[0] !in table;
    } else {
      FlattenQuiet(env, table, parents[0], visiting);
      path := FlattenAllFails(env, table, policy, parents[1..], visiting, rules + first.rules.value);
    }
  }

  /** And a bad chain makes it fail. */
  lemma {:induction false} BadChainFails(env: Env, table: Table, path: seq<string>, visiting: set<string>)
    requires BadChain(table, path, visiting)
    ensures Flatten(env, table, path[0], visiting).rules.None?
    decreases |path|
  {
    var name := path[0];
    if |path| > 1 && name in table && name !in visiting {
      var rest := path[1..];
      var last := path[|path| - 1];
      forall i | 0 <= i < |rest| - 1
        ensures rest[i] in table && rest[i + 1] in table[rest[i]].parents
      {
        assert rest[i] == path[i + 1] && rest[i + 1] == path[i + 2];
      }
      if last in path[..|path| - 1] && last != name {
        var i :| 0 <= i < |path| - 1 && path[i] == last;
        assert rest[..|rest| - 1][i - 1] == last;
      }
      BadChainFails(env, table, rest, visiting + {name});
      assert path[1] in table[path[0]].parents;
      ParentFails(env, table, table[name], table[name].parents, visiting + {name}, [], rest[0]);
    }
  }

  lemma {:induction false} ParentFails(env: Env, table: Table, policy: Policy, parents: seq<string>, visiting: set<string>, rules: seq<Rule>, parent: string)
    requires parent in parents && Flatten(env, table, parent, visiting).rules.None?
    ensures FlattenAll(env, table, policy, parents, visiting, rules).rules.None?
    decreases |parents|
  {
    var first := Flatten(env, table, parents[0], visiting);
    if first.rules.Some? {
      ParentFails(env, table, policy, parents[1..], visiting, rules + first.rules.value, parent);
    }
  }

  // ------------------------------------------------------- which rules it gives

  /** A smaller chain of visited names changes nothing about a success. */
  lemma {:induction false} FlattenFewer(env: Env, table: Table, name: string, visiting: set<string>, fewer: set<string>)
    requires fewer <= visiting && Flatten(env, table, name, visiting).rules.Some?
    ensures Flatten(env, table, name, fewer).rules == Flatten(env, table, name, visiting).rules
    decreases |table.Keys - visiting|, 1, 0
  {
    Shrinks(table.Keys - (visiting + {name}), table.Keys - visiting);
    FlattenAllFewer(env, table, table[name], table[name].parents, visiting + {name}, fewer + {name}, []);
  }

  lemma {:induction false} FlattenAllFewer(env: Env, table: Table, policy: Policy, parents: seq<string>, visiting: set<string>, fewer: set<string>, rules: seq<Rule>)
    requires fewer <= visiting && FlattenAll(env, table, policy, parents, visiting, rules).rules.Some?
    ensures FlattenAll(env, table, policy, parents, fewer, rules).rules == FlattenAll(env, table, policy, parents, visiting, rules).rules
    decreases |table.Keys - visiting|, 2, |parents|
  {
    if parents != [] {
      FlattenFewer(env, table, parents[0], visiting, fewer);
      FlattenAllFewer(env, table, policy, parents[1..], visiting, fewer, rules + Flatten(env, table, parents[0], visiting).rules.value);
    }
  }

  /** The rules a name contributes on its own. */
  function RulesOf(env: Env, table: Table, name: string): Option<seq<Rule>> {
    Flatten(env, table, name, {}).rules
  }

  /** The rules of several names one after the other; None as soon as one has none. */
  function RulesOfAll(env: Env, table: Table, names: seq<string>): Option<seq<Rule>> {
    if names == [] then Some([])
    else
      var first, rest := RulesOf(env, table, names[0]), RulesOfAll(env, table, names[1..]);
      if first.None? || rest.None? then None else Some(first.value + rest.value)
  }

  lemma {:induction false} FlattenAllIsConcat(env: Env, table: Table, policy: Policy, parents: seq<string>, visiting: set<string>, rules: seq<Rule>)
    requires FlattenAll(env, table, policy, parents, visiting, rules).rules.Some?
    ensures RulesOfAll(env, table, parents).Some?
    ensures FlattenAll(env, table, policy, parents, visiting, rules).rules.value == rules + RulesOfAll(env, table, parents).value
    decreases |parents|
  {
    if parents != [] {
      var first := Flatten(env, table, parents[0], visiting);
      FlattenFewer(env, table, parents[0], visiting, {});
      FlattenAllIsConcat(env, table, policy, parents[1..], visiting, rules + first.rules.value);
    }
  }

  /** No chain of extends from the policy reaches an undefined name or closes a cycle. */
  ghost predicate Sound(table: Table, name: string) {
    forall path: seq<string> :: path != [] && path[0] == name ==> !BadChain(table, path, {})
  }

  /**
   Extends resolution is exact: a name resolves if and only if no chain from it is bad, and then
   to its parents' rules in order followed by its own; a defined name that does not resolve
   leaves exactly one finding, the report of a bad chain from it.
   */
  lemma FlattenExact(env: Env, table: Table, name: string)
    ensures RulesOf(env, table, name).Some? <==> Sound(table, name)
    ensures RulesOf(env, table, name).Some? ==>
              && name in table && RulesOfAll(env, table, table[name].parents).Some?
              && RulesOf(env, table, name).value == RulesOfAll(env, table, table[name].parents).value + table[name].rules
              && Flatten(env, table, name, {}).findings == []
    ensures name in table && RulesOf(env, table, name).None? ==>
              exists path: seq<string> ::
                && BadChain(table, path, {}) && path[0] == name
                && Flatten(env, table, name, {}).findings == [Report(env, table, path)]
  {
    if RulesOf(env, table, name).Some? {
      FlattenQuiet(env, table, name, {});
      forall path: seq<string> | path != [] && path[0] == name
        ensures !BadChain(table, path, {})
      {
        if BadChain(table, path, {}) {
          BadChainFails(env, table, path, {});
        }
      }
      FlattenAllIsConcat(env, table, table[name], table[name].parents, {} + {name}, []);
    } else {
      var path := FlattenFails(env, table, name, {});
    }
  }

  /** Every rule a name resolves to is a rule of some policy in the table. */
  lemma {:induction false} RuleOrigin(env: Env, table: Table, name: string, visiting: set<string>, rule: Rule)
    requires Flatten(env, table, name, visiting).rules.Some? && rule in Flatten(env, table, name, visiting).rules.value
    ensures exists owner :: owner in table && rule in table[owner].rules
    decreases |table.Keys - visiting|, 1, 0
  {
    if rule !in table[name].rules {
      Shrinks(table.Keys - (visiting + {name}), table.Keys - visiting);
      RuleOriginAll(env, table, table[name], table[name].parents, visiting + {name}, [], rule);
    }
  }

  lemma {:induction false} RuleOriginAll(env: Env, table: Table, policy: Policy, parents: seq<string>, visiting: set<string>, rules: seq<Rule>, rule: Rule)
    requires FlattenAll(env, table, policy, parents, visiting, rules).rules.Some?
    requires rule in FlattenAll(env, table, policy, parents, visiting, rules).rules.value && rule !in rules
    ensures exists owner :: owner in table && rule in table[owner].rules
    decreases |table.Keys - visiting|, 2, |parents|
  {
    var first := Flatten(env, table, parents[0], visiting);
    if rule in first.rules.value {
      RuleOrigin(env, table, parents[0], visiting, rule);
    } else {
      RuleOriginAll(env, table, policy, parents[1..], visiting, rules + first.rules.value, rule);
    }
  }

  // ----------------------------------------------------------------- the search

  /** The search with the state it updates: the names on the chain and the findings so far. */
  class Resolver {
    const env: Env
    const table: Table
    var visiting: set<string>
    var findings: seq<Finding>

    constructor (env: Env, table: Table, findings: seq<Finding>)
      ensures this.env == env && this.table == table && visiting == {} && this.findings == findings
    {
      this.env, this.table := env, table;
      visiting, this.findings := {}, findings;
    }

    method FlattenRules(name: string) returns (rules: Option<seq<Rule>>)
      modifies this
      ensures visiting == old(visiting)
      ensures rules == Flatten(env, table, name, old(visiting)).rules
      ensures findings == old(findings) + Flatten(env, table, name, old(visiting)).findings
      decreases |table.Keys - visiting|, 0
    {
      if name !in table {
        return None;
      }
      var policy := table[name];
      if name in visiting {
        findings := findings + [CycleFinding(env, name, policy)];
        return None;
      }
      ghost var before := visiting;
      Shrinks(table.Keys - (visiting + {name}), table.Keys - visiting);
      visiting := visiting + {name};
      var gathered := FlattenParents(policy);
      visiting := visiting - {name};
      if gathered.None? {
        return None;
      }
      rules := Some(gathered.value + policy.rules);
    }

    /** The loop over the parents of the policy being expanded. */
    method FlattenParents(policy: Policy) returns (gathered: Option<seq<Rule>>)
      modifies this
      ensures visiting == old(visiting)
      ensures gathered == FlattenAll(env, table, policy, policy.parents, old(visiting), []).rules
      ensures findings == old(findings) + FlattenAll(env, table, policy, policy.parents, old(visiting), []).findings
      decreases |table.Keys - visiting|, 1
    {
      ghost var all := FlattenAll(env, table, policy, policy.parents, visiting, []);
      var rules: seq<Rule> := [];
      assert policy.parents[0..] == policy.parents;
      for i := 0 to |policy.parents|
        invariant visiting == old(visiting)
        invariant var rest := FlattenAll(env, table, policy, policy.parents[i..], visiting, rules);
                  rest.rules == all.rules && findings + rest.findings == old(findings) + all.findings
      {
        var parent := policy.parents[i];
        ParentStep(env, table, policy, policy.parents, i, visiting, rules);
        ghost var soFar := findings;
        ghost var rest := FlattenAll(env, table, policy, policy.parents[i..], visiting, rules);
        ghost var first := Flatten(env, table, parent, visiting);
        var inherited := FlattenRules(parent);
        if inherited.None? {
          if parent !in table {
            findings := findings + [UndefinedFinding(env, policy, parent)];
          }
          assert findings == soFar + rest.findings;
          return None;
        }
        ghost var later := FlattenAll(env, table, policy, policy.parents[i + 1..], visiting, rules + inherited.value);
        Regroup(soFar, first.findings, later.findings);
        rules := rules + inherited.value;
      }
      gathered := Some(rules);
    }
  }

  /** One parent more. */
  lemma ParentStep(env: Env, table: Table, policy: Policy, parents: seq<string>, i: nat, visiting: set<string>, rules: seq<Rule>)
    requires i < |parents|
    ensures var first := Flatten(env, table, parents[i], visiting);
            var all := FlattenAll(env, table, policy, parents[i..], visiting, rules);
            if first.rules.None? then
              all == Flat(None, first.findings + if parents[i] !in table then [UndefinedFinding(env, policy, parents[i])] else [])
            else
              var rest := FlattenAll(env, table, policy, parents[i + 1..], visiting, rules + first.rules.value);
              all == rest.(findings := first.findings + rest.findings)
  {
    assert parents[i..][1..] == parents[i + 1..];
  }

  // -------------------------------------------------------------------- resolve

  /** The first policy with its name. */
  predicate IsFirst(policies: seq<Policy>, i: nat)
    requires i < |policies|
  {
    forall j | 0 <= j < i :: policies[j].name != policies[i].name
  }

  /** byName: first declarations win. */
  function TableOf(policies: seq<Policy>): Table {
    if policies == [] then map[]
    else
      var before, last := TableOf(policies[..|policies| - 1]), policies[|policies| - 1];
      if last.name in before then before else before[last.name := last]
  }

  lemma {:induction false} TableFirst(policies: seq<Policy>, i: nat)
    requires i < |policies|
    ensures policies[i].name in TableOf(policies)
    ensures IsFirst(policies, i) ==> TableOf(policies)[policies[i].name] == policies[i]
  {
    var before := policies[..|policies| - 1];
    if i < |policies| - 1 {
      TableFirst(before, i);
      assert IsFirst(policies, i) ==> IsFirst(before, i);
    } else if policies[i].name in TableOf(before) {
      var j := TableFrom(before, policies[i].name);
      assert policies[j].name == policies[i].name;
    }
  }

  lemma {:induction false} TableFrom(policies: seq<Policy>, name: string) returns (i: nat)
    requires name in TableOf(policies)
    ensures i < |policies| && policies[i].name == name && IsFirst(policies, i) && TableOf(policies)[name] == policies[i]
  {
    var before, last := policies[..|policies| - 1], |policies| - 1;
    if name in TableOf(before) {
      i := TableFrom(before, name);
      assert IsFirst(policies, i);
    } else {
      i := last;
      forall j | 0 <= j < last
        ensures policies[j].name != name
      {
        TableFirst(before, j);
      }
    }
  }

  function RepeatFinding(env: Env, existing: Policy, policy: Policy): Finding {
    if existing.builtin && !policy.builtin
    then ResolutionFinding(env, BASELINE_OVERRIDE, policy, ReusesBaselineName(policy.name))
    else ResolutionFinding(env, DUPLICATE_NAME, policy, DeclaredTwice(policy.name))
  }

  function RepeatFindings(env: Env, policies: seq<Policy>): seq<Finding> {
    if policies == [] then []
    else
      var before, last := policies[..|policies| - 1], policies[|policies| - 1];
      var findings := RepeatFindings(env, before);
      if last.name in TableOf(before) then findings + [RepeatFinding(env, TableOf(before)[last.name], last)] else findings
  }

  function SelectorFindings(env: Env, policy: Policy, selectors: seq<Selector>): seq<Finding> {
    if selectors == [] then []
    else
      var findings, last := SelectorFindings(env, policy, selectors[..|selectors| - 1]), selectors[|selectors| - 1];
      if last.kind == UnknownSelector
      then findings + [ResolutionFinding(env, UNKNOWN_SELECTOR, policy, UnrecognizedSelector(policy.name, last.raw))]
      else findings
  }

  function AllSelectorFindings(env: Env, policies: seq<Policy>, n: nat): seq<Finding>
    requires n <= |policies|
  {
    if n == 0 then []
    else
      var findings := AllSelectorFindings(env, policies, n - 1);
      if IsFirst(policies, n - 1) then findings + SelectorFindings(env, policies[n - 1], policies[n - 1].selectors) else findings
  }

  /** What every name expands to. */
  type Expansion = string -> Flat

  function Expand(env: Env, table: Table): Expansion {
    name => Flatten(env, table, name, {})
  }

  /** The policies kept among the first n, each with its full rule set. */
  function Resolved(flat: Expansion, policies: seq<Policy>, n: nat): seq<Policy>
    requires n <= |policies|
  {
    if n == 0 then []
    else
      var kept, policy := Resolved(flat, policies, n - 1), policies[n - 1];
      var rules := flat(policy.name).rules;
      if IsFirst(policies, n - 1) && rules.Some? then kept + [policy.(rules := rules.value)] else kept
  }

  function FlattenFindings(flat: Expansion, policies: seq<Policy>, n: nat): seq<Finding>
    requires n <= |policies|
  {
    if n == 0 then []
    else
      var findings := FlattenFindings(flat, policies, n - 1);
      if IsFirst(policies, n - 1) then findings + flat(policies[n - 1].name).findings else findings
  }

  function ResolveFindings(env: Env, policies: seq<Policy>): seq<Finding> {
    RepeatFindings(env, policies)
    + AllSelectorFindings(env, policies, |policies|)
    + FlattenFindings(Expand(env, TableOf(policies)), policies, |policies|)
  }

  function ResolvedPolicies(env: Env, policies: seq<Policy>): seq<Policy> {
    Resolved(Expand(env, TableOf(policies)), policies, |policies|)
  }

  /** firstIndex: where each name is declared first. */
  function FirstIndex(policies: seq<Policy>): map<string, nat> {
    if policies == [] then map[]
    else
      var before, last := FirstIndex(policies[..|policies| - 1]), policies[|policies| - 1];
      if last.name in before then before else before[last.name := |policies| - 1]
  }

  /** The first pass of resolve: who is declared first under each name, and who comes too late. */
  method IndexPolicies(env: Env, policies: seq<Policy>)
    returns (byName: Table, firstIndex: map<string, nat>, findings: seq<Finding>)
    ensures byName == TableOf(policies) && firstIndex == FirstIndex(policies) && findings == RepeatFindings(env, policies)
  {
    findings, byName, firstIndex := [], map[], map[];
    for index := 0 to |policies|
      invariant byName == TableOf(policies[..index]) && firstIndex == FirstIndex(policies[..index])
      invariant findings == RepeatFindings(env, policies[..index])
    {
      var policy := policies[index];
      IndexStep(env, policies, index);
      if policy.name in byName {
        findings := findings + [RepeatFinding(env, byName[policy.name], policy)];
      } else {
        byName := byName[policy.name := policy];
        firstIndex := firstIndex[policy.name := index];
      }
    }
    assert policies[..|policies|] == policies;
  }

  lemma {:induction false} SameNames(policies: seq<Policy>)
    ensures FirstIndex(policies).Keys == TableOf(policies).Keys
  {
    if policies != [] {
      SameNames(policies[..|policies| - 1]);
    }
  }

  lemma IndexStep(env: Env, policies: seq<Policy>, n: nat)
    requires n < |policies|
    ensures var before, after, policy := TableOf(policies[..n]), TableOf(policies[..n + 1]), policies[n];
            var first, first' := FirstIndex(policies[..n]), FirstIndex(policies[..n + 1]);
            if policy.name in before then
              && after == before && first' == first
              && RepeatFindings(env, policies[..n + 1]) == RepeatFindings(env, policies[..n]) + [RepeatFinding(env, before[policy.name], policy)]
            else
              && after == before[policy.name := policy] && first' == first[policy.name := n]
              && RepeatFindings(env, policies[..n + 1]) == RepeatFindings(env, policies[..n])
  {
    assert policies[..n + 1][..n] == policies[..n];
    SameNames(policies[..n]);
  }

  lemma {:induction false} FirstIndexAt(policies: seq<Policy>, i: nat)
    requires i < |policies|
    ensures policies[i].name in FirstIndex(policies)
    ensures FirstIndex(policies)[policies[i].name] == i <==> IsFirst(policies, i)
  {
    var before := policies[..|policies| - 1];
    SameNames(before);
    if i < |before| {
      FirstIndexAt(before, i);
      assert IsFirst(policies, i) <==> IsFirst(before, i);
    } else if policies[i].name in FirstIndex(before) {
      var j := TableFrom(before, policies[i].name);
      FirstIndexAt(before, j);
      assert policies[j].name == policies[i].name;
    } else {
      forall j | 0 <= j < i
        ensures policies[j].name != policies[i].name
      {
        FirstIndexAt(before, j);
      }
    }
  }

  lemma FirstIndexes(policies: seq<Policy>)
    ensures Indexes(FirstIndex(policies), policies)
  {
    forall i | 0 <= i < |policies|
      ensures policies[i].name in FirstIndex(policies)
      ensures FirstIndex(policies)[policies[i].name] == i <==> IsFirst(policies, i)
    {
      FirstIndexAt(policies, i);
    }
  }

  method ReportSelectors(env: Env, policy: Policy) returns (findings: seq<Finding>)
    ensures findings == SelectorFindings(env, policy, policy.selectors)
  {
    findings := [];
    for i := 0 to |policy.selectors|
      invariant findings == SelectorFindings(env, policy, policy.selectors[..i])
    {
      var selector := policy.selectors[i];
      assert policy.selectors[..i + 1][..i] == policy.selectors[..i];
      if selector.kind == UnknownSelector {
        findings := findings + [ResolutionFinding(env, UNKNOWN_SELECTOR, policy, UnrecognizedSelector(policy.name, selector.raw))];
      }
    }
    assert policy.selectors[..|policy.selectors|] == policy.selectors;
  }

  /** firstIndex holds, for every policy, the position of the first one with its name. */
  ghost predicate Indexes(firstIndex: map<string, nat>, policies: seq<Policy>) {
    && (forall i | 0 <= i < |policies| :: policies[i].name in firstIndex)
    && (forall i {:trigger IsFirst(policies, i)} | 0 <= i < |policies| :: firstIndex[policies[i].name] == i <==> IsFirst(policies, i))
  }

  method ReportAllSelectors(env: Env, policies: seq<Policy>, firstIndex: map<string, nat>) returns (findings: seq<Finding>)
    requires Indexes(firstIndex, policies)
    ensures findings == AllSelectorFindings(env, policies, |policies|)
  {
    findings := [];
    for index := 0 to |policies|
      invariant findings == AllSelectorFindings(env, policies, index)
    {
      if firstIndex[policies[index].name] == index {
        var unknown := ReportSelectors(env, policies[index]);
        findings := findings + unknown;
      }
    }
  }

  method ExpandPolicies(env: Env, table: Table, policies: seq<Policy>, firstIndex: map<string, nat>, ghost flat: Expansion)
    returns (resolved: seq<Policy>, findings: seq<Finding>)
    requires Indexes(firstIndex, policies)
    requires forall name {:trigger Flatten(env, table, name, {})} :: flat(name) == Flatten(env, table, name, {})
    ensures resolved == Resolved(flat, policies, |policies|)
    ensures findings == FlattenFindings(flat, policies, |policies|)
  {
    resolved, findings := [], [];
    for index := 0 to |policies|
      invariant resolved == Resolved(flat, policies, index) && findings == FlattenFindings(flat, policies, index)
    {
      if firstIndex[policies[index].name] == index {
        resolved, findings := ExpandOne(env, table, policies[index], resolved, findings, flat);
      }
    }
  }

  /** One search, from an empty chain. */
  method ExpandOne(env: Env, table: Table, policy: Policy, resolved: seq<Policy>, findings: seq<Finding>, ghost flat: Expansion)
    returns (resolved': seq<Policy>, findings': seq<Finding>)
    requires forall name {:trigger Flatten(env, table, name, {})} :: flat(name) == Flatten(env, table, name, {})
    ensures var rules := flat(policy.name).rules;
            resolved' == if rules.Some? then resolved + [policy.(rules := rules.value)] else resolved
    ensures findings' == findings + flat(policy.name).findings
  {
    var search := new Resolver(env, table, findings);
    var rules := search.FlattenRules(policy.name);
    resolved' := if rules.Some? then resolved + [policy.(rules := rules.value)] else resolved;
    findings' := search.findings;
  }

  method Resolve(env: Env, policies: seq<Policy>) returns (resolved: seq<Policy>, findings: seq<Finding>)
    ensures resolved == ResolvedPolicies(env, policies)
    ensures findings == ResolveFindings(env, policies)
  {
    var byName, firstIndex, repeats := IndexPolicies(env, policies);
    FirstIndexes(policies);
    var unknown := ReportAllSelectors(env, policies, firstIndex);
    var failures;
    resolved, failures := ExpandPolicies(env, byName, policies, firstIndex, Expand(env, byName));
    findings := repeats + unknown + failures;
  }

  /**
   resolve keeps exactly the first-declared policies from which no chain of extends is bad, in
   their order and with their parents' rules before their own.
   */
  lemma ResolveKeeps(env: Env, policies: seq<Policy>, p: Policy)
    ensures p in ResolvedPolicies(env, policies) <==> exists i: nat :: KeptFrom(env, policies, i, p)
  {
    var flat := Expand(env, TableOf(policies));
    if p in ResolvedPolicies(env, policies) {
      var i := ResolvedFrom(flat, policies, |policies|, p);
      KeptIsResolved(env, policies, i);
    }
    if i: nat :| KeptFrom(env, policies, i, p) {
      KeptIsResolved(env, policies, i);
      ResolvedHas(flat, policies, |policies|, i);
    }
  }

  lemma KeptIsResolved(env: Env, policies: seq<Policy>, i: nat)
    requires i < |policies| && IsFirst(policies, i)
    ensures var rules := Expand(env, TableOf(policies))(policies[i].name).rules;
            && (rules.Some? <==> Sound(TableOf(policies), policies[i].name))
            && (rules.Some? ==> KeptFrom(env, policies, i, policies[i].(rules := rules.value)))
  {
    TableFirst(policies, i);
    FlattenExact(env, TableOf(policies), policies[i].name);
  }

  /** p is the i-th policy, kept, with its full rules. */
  ghost predicate KeptFrom(env: Env, policies: seq<Policy>, i: nat, p: Policy) {
    && i < |policies| && IsFirst(policies, i) && Sound(TableOf(policies), policies[i].name)
    && RulesOfAll(env, TableOf(policies), policies[i].parents).Some?
    && p == policies[i].(rules := RulesOfAll(env, TableOf(policies), policies[i].parents).value + policies[i].rules)
  }

  /** Every first-declared policy that is dropped leaves the report of a bad chain from it. */
  lemma {:induction false} DroppedIsReported(env: Env, policies: seq<Policy>, i: nat)
    requires i < |policies| && IsFirst(policies, i) && !Sound(TableOf(policies), policies[i].name)
    ensures exists path: seq<string> ::
              && BadChain(TableOf(policies), path, {}) && path[0] == policies[i].name && |path| > 1
              && Report(env, TableOf(policies), path) in ResolveFindings(env, policies)
  {
    var table := TableOf(policies);
    FlattenExact(env, table, policies[i].name);
    TableFirst(policies, i);
    var path: seq<string> :|
      && BadChain(table, path, {}) && path[0] == policies[i].name
      && Flatten(env, table, policies[i].name, {}).findings == [Report(env, table, path)];
    assert |path| > 1;
    var flat := Expand(env, table);
    FlattenFindingsKept(flat, policies, i, |policies|, Report(env, table, path));
  }

  lemma {:induction false} FlattenFindingsKept(flat: Expansion, policies: seq<Policy>, i: nat, n: nat, f: Finding)
    requires i < n <= |policies| && IsFirst(policies, i) && f in flat(policies[i].name).findings
    ensures f in FlattenFindings(flat, policies, n)
    decreases n
  {
    if i < n - 1 {
      FlattenFindingsKept(flat, policies, i, n - 1, f);
    }
  }

  // ------------------------------------------------------------ fresh findings

  lemma FlattenFresh(env: Env, table: Table, name: string)
    ensures AllFresh(env, Flatten(env, table, name, {}).findings)
  {
    ResolutionCodesPlain();
    if Flatten(env, table, name, {}).rules.Some? {
      FlattenQuiet(env, table, name, {});
    } else {
      var path := FlattenFails(env, table, name, {});
    }
  }

  lemma {:induction false} FlattenFindingsFresh(env: Env, table: Table, policies: seq<Policy>, n: nat)
    requires n <= |policies|
    ensures AllFresh(env, FlattenFindings(Expand(env, table), policies, n))
  {
    if n > 0 {
      FlattenFindingsFresh(env, table, policies, n - 1);
      FlattenFresh(env, table, policies[n - 1].name);
    }
  }

  lemma {:induction false} RepeatFindingsFresh(env: Env, policies: seq<Policy>)
    ensures AllFresh(env, RepeatFindings(env, policies))
  {
    ResolutionCodesPlain();
    if policies != [] {
      RepeatFindingsFresh(env, policies[..|policies| - 1]);
    }
  }

  lemma {:induction false} SelectorFindingsFresh(env: Env, policy: Policy, selectors: seq<Selector>)
    ensures AllFresh(env, SelectorFindings(env, policy, selectors))
  {
    ResolutionCodesPlain();
    if selectors != [] {
      SelectorFindingsFresh(env, policy, selectors[..|selectors| - 1]);
    }
  }

  lemma {:induction false} AllSelectorFindingsFresh(env: Env, policies: seq<Policy>, n: nat)
    requires n <= |policies|
    ensures AllFresh(env, AllSelectorFindings(env, policies, n))
  {
    if n > 0 {
      AllSelectorFindingsFresh(env, policies, n - 1);
      SelectorFindingsFresh(env, policies[n - 1], policies[n - 1].selectors);
    }
  }

  lemma ResolveFindingsFresh(env: Env, policies: seq<Policy>)
    ensures AllFresh(env, ResolveFindings(env, policies))
  {
    RepeatFindingsFresh(env, policies);
    AllSelectorFindingsFresh(env, policies, |policies|);
    FlattenFindingsFresh(env, TableOf(policies), policies, |policies|);
  }

  // ------------------------------------------------- where resolved rules come from

  lemma {:induction false} ResolvedFrom(flat: Expansion, policies: seq<Policy>, n: nat, p: Policy) returns (i: nat)
    requires n <= |policies| && p in Resolved(flat, policies, n)
    ensures i < n && IsFirst(policies, i) && flat(policies[i].name).rules.Some?
    ensures p == policies[i].(rules := flat(policies[i].name).rules.value)
  {
    if p in Resolved(flat, policies, n - 1) {
      i := ResolvedFrom(flat, policies, n - 1, p);
    } else {
      i := n - 1;
    }
  }

  lemma {:induction false} ResolvedHas(flat: Expansion, policies: seq<Policy>, n: nat, i: nat)
    requires i < n <= |policies| && IsFirst(policies, i) && flat(policies[i].name).rules.Some?
    ensures policies[i].(rules := flat(policies[i].name).rules.value) in Resolved(flat, policies, n)
    decreases n
  {
    if i < n - 1 {
      ResolvedHas(flat, policies, n - 1, i);
    }
  }

  /** Resolution invents no rules: each belongs to some declared policy, perhaps through extends. */
  lemma ResolvedRuleOrigin(env: Env, policies: seq<Policy>, p: Policy, rule: Rule) returns (q: Policy)
    requires p in ResolvedPolicies(env, policies) && rule in p.rules
    ensures q in policies && rule in q.rules
  {
    var table := TableOf(policies);
    var i := ResolvedFrom(Expand(env, table), policies, |policies|, p);
    RuleOrigin(env, table, policies[i].name, {}, rule);
    var owner :| owner in table && rule in table[owner].rules;
    var k := TableFrom(policies, owner);
    q := policies[k];
  }
}
