/**
 Request-time guards: runtimeGuardNames of internal/appgen/source_guards.go, and the loop of
 RunGuardsWithAuth in runtime/guard/guard.go with the native role and permission guards of
 runtime/auth/auth.go.
 */
module Guards {
  import opened Text

  /** runtimeGuardNames: everything but the public guard. */
  function RuntimeGuardNames(guards: seq<string>): seq<string> {
    if guards == [] then []
    else (if TrimSpace(guards[0]) == "public" then [] else [guards[0]]) + RuntimeGuardNames(guards[1..])
  }

  /** The guards that are not the public marker, in the order they were declared. */
  ghost predicate RuntimeNames(guards: seq<string>, names: seq<string>) {
    exists at: seq<nat> :: Places(guards, names, at)
  }

  /** Where the names stand among the guards: in increasing order, at exactly the places without the public marker. */
  ghost predicate Places(guards: seq<string>, names: seq<string>, at: seq<nat>) {
    && |at| == |names|
    && (forall k | 0 <= k < |at| :: at[k] < |guards| && names[k] == guards[at[k]])
    && (forall k, l | 0 <= k < l < |at| :: at[k] < at[l])
    && (forall i: nat {:trigger i in at} | i < |guards| :: i in at <==> TrimSpace(guards[i]) != "public")
  }

  lemma RuntimeGuardNamesAre(guards: seq<string>)
    ensures RuntimeNames(guards, RuntimeGuardNames(guards))
  {
    var at := RuntimePlaces(guards);
  }

  lemma {:induction false} RuntimePlaces(guards: seq<string>) returns (at: seq<nat>)
    ensures Places(guards, RuntimeGuardNames(guards), at)
  {
    if guards == [] {
      at := [];
    } else {
      var later := RuntimePlaces(guards[1..]);
      at := ShiftPlaces(guards, RuntimeGuardNames(guards[1..]), later);
    }
  }

  /** One guard more in front. */
  lemma ShiftPlaces(guards: seq<string>, names: seq<string>, later: seq<nat>) returns (at: seq<nat>)
    requires guards != [] && Places(guards[1..], names, later)
    ensures Places(guards, (if TrimSpace(guards[0]) == "public" then [] else [guards[0]]) + names, at)
  {
    hide TrimSpace, Places;
    ShiftedPlaces(guards, names, later);
    if TrimSpace(guards[0]) == "public" {
      at := Shifted(later);
      assert [] + names == names;
      PlacesSkip(guards, names, at);
    } else {
      at := [0] + Shifted(later);
      PlacesFirst(guards, names, Shifted(later));
    }
  }

  lemma PlacesSkip(guards: seq<string>, names: seq<string>, more: seq<nat>)
    requires guards != [] && TrimSpace(guards[0]) == "public" && Behind(guards, names, more)
    ensures Places(guards, names, more)
  {
    hide TrimSpace;
  }

  lemma PlacesFirst(guards: seq<string>, names: seq<string>, more: seq<nat>)
    requires guards != [] && TrimSpace(guards[0]) != "public" && Behind(guards, names, more)
    ensures Places(guards, [guards[0]] + names, [0] + more)
  {
    hide TrimSpace;
    var at, all := [0] + more, [guards[0]] + names;
    forall k | 0 <= k < |at|
      ensures at[k] < |guards| && all[k] == guards[at[k]]
    {
      if k > 0 {
        assert at[k] == more[k - 1] && all[k] == names[k - 1];
      }
    }
    forall k, l | 0 <= k < l < |at|
      ensures at[k] < at[l]
    {
      assert at[l] == more[l - 1];
      if k > 0 {
        assert at[k] == more[k - 1];
      }
    }
    forall i: nat | i < |guards|
      ensures i in at <==> TrimSpace(guards[i]) != "public"
    {
      assert i in at <==> i == 0 || i in more;
    }
  }

  /** As Places, for the guards behind the first. */
  ghost predicate Behind(guards: seq<string>, names: seq<string>, more: seq<nat>) {
    && |more| == |names|
    && (forall k | 0 <= k < |more| :: 0 < more[k] < |guards| && names[k] == guards[more[k]])
    && (forall k, l | 0 <= k < l < |more| :: more[k] < more[l])
    && (forall i: nat {:trigger i in more} | i < |guards| :: i in more <==> i > 0 && TrimSpace(guards[i]) != "public")
  }

  /** Places among the later guards, seen from one guard earlier. */
  lemma ShiftedPlaces(guards: seq<string>, names: seq<string>, later: seq<nat>)
    requires guards != [] && Places(guards[1..], names, later)
    ensures Behind(guards, names, Shifted(later))
  {
    hide TrimSpace;
    var more := Shifted(later);
    forall i: nat | i < |guards|
      ensures i in more <==> i > 0 && TrimSpace(guards[i]) != "public"
    {
      ShiftedPlace(guards, names, later, i);
    }
    forall k | 0 <= k < |more|
      ensures 0 < more[k] < |guards| && names[k] == guards[more[k]]
    {
      assert names[k] == guards[1..][later[k]];
    }
  }

  lemma ShiftedPlace(guards: seq<string>, names: seq<string>, later: seq<nat>, i: nat)
    requires guards != [] && Places(guards[1..], names, later) && i < |guards|
    ensures i in Shifted(later) <==> i > 0 && TrimSpace(guards[i]) != "public"
  {
    hide TrimSpace;
    ShiftedHas(later, i);
    if i > 0 {
      assert guards[i] == guards[1..][i - 1];
    }
  }

  function Shifted(at: seq<nat>): (r: seq<nat>)
    ensures |r| == |at| && forall k | 0 <= k < |at| :: r[k] == at[k] + 1
  {
    if at == [] then [] else [at[0] + 1] + Shifted(at[1..])
  }

  lemma ShiftedHas(at: seq<nat>, i: nat)
    ensures i in Shifted(at) <==> i > 0 && i - 1 in at
  {
    if i > 0 && i - 1 in at {
      var k :| 0 <= k < |at| && at[k] == i - 1;
      assert Shifted(at)[k] == i;
    }
  }

  /** Every guard but the public marker is among the runtime names, and nothing else is. */
  lemma RuntimeNamesHold(guards: seq<string>, names: seq<string>, g: string)
    requires RuntimeNames(guards, names)
    ensures g in names <==> g in guards && TrimSpace(g) != "public"
  {
    var at: seq<nat> :| Places(guards, names, at);
    if g in guards && TrimSpace(g) != "public" {
      var i: nat :| i < |guards| && guards[i] == g;
      assert i in at;
      var k :| 0 <= k < |at| && at[k] == i;
    }
    if k :| 0 <= k < |names| && names[k] == g {
      assert at[k] in at;
    }
  }

  /** Whom the auth provider reports for the request, if there is a provider and it answers. */
  datatype Provider = NoProvider | ProviderError | Anonymous | Known(roles: seq<string>, permissions: seq<string>)

  /** The registered guards of the application, and the provider native guards ask. */
  datatype Registry = Registry(registered: set<string>, provider: Provider)

  const ROLE := "role:"
  const PERMISSION := "permission:"

  predicate IsNative(name: string) {
    HasPrefix(name, ROLE) || HasPrefix(name, PERMISSION)
  }

  /** NativeRBACGuard: a known principal with the named role or permission. */
  predicate NativePasses(provider: Provider, name: string) {
    && provider.Known?
    && (if HasPrefix(name, ROLE) then
          TrimSpace(name[|ROLE|..]) != "" && TrimSpace(name[|ROLE|..]) in provider.roles
        else
          HasPrefix(name, PERMISSION) && TrimSpace(name[|PERMISSION|..]) != "" && TrimSpace(name[|PERMISSION|..]) in provider.permissions)
  }

  /** Whether a guard can let a request through at all: it is registered, or native and satisfied. */
  predicate Admits(registry: Registry, name: string) {
    name in registry.registered || (IsNative(name) && NativePasses(registry.provider, name))
  }

  /** The guard is registered, or names a role or permission the known principal has. */
  ghost predicate Lets(registry: Registry, name: string) {
    || name in registry.registered
    || (registry.provider.Known?
        && exists text :: TrimSpace(text) != ""
             && ((name == "role:" + text && TrimSpace(text) in registry.provider.roles)
                 || (name == "permission:" + text && TrimSpace(text) in registry.provider.permissions)))
  }

  lemma AdmitsIff(registry: Registry, name: string)
    ensures Admits(registry, name) <==> Lets(registry, name)
  {
    if HasPrefix(name, ROLE) {
      assert name == ROLE + name[|ROLE|..];
    } else if HasPrefix(name, PERMISSION) {
      assert name == PERMISSION + name[|PERMISSION|..];
    }
    forall text | name == "role:" + text
      ensures HasPrefix(name, ROLE) && name[|ROLE|..] == text
    {
    }
    forall text | name == "permission:" + text
      ensures HasPrefix(name, PERMISSION) && name[|PERMISSION|..] == text && !HasPrefix(name, ROLE)
    {
      assert name[0] == 'p';
    }
  }

  /** How far a run gets, and the next verdict of a registered guard to be drawn. */
  datatype GuardRun = GuardRun(passed: nat, next: nat)

  /** RunGuardsWithAuth: names in order, stopping at the first that is missing or fails. */
  function Run(registry: Registry, fails: nat -> bool, next: nat, names: seq<string>): (r: GuardRun)
    ensures r.passed <= |names|
    decreases |names|
  {
    if names == [] then GuardRun(0, next)
    else if names[0] in registry.registered then
      if fails(next) then GuardRun(0, next + 1)
      else
        var rest := Run(registry, fails, next + 1, names[1..]);
        rest.(passed := rest.passed + 1)
    else if IsNative(names[0]) && NativePasses(registry.provider, names[0]) then
      var rest := Run(registry, fails, next, names[1..]);
      rest.(passed := rest.passed + 1)
    else GuardRun(0, next)
  }

  datatype GuardError = NotRegistered(name: string) | Failed(name: string)

  method RunGuardsWithAuth(registry: Registry, fails: nat -> bool, start: nat, names: seq<string>)
    returns (error: Option<GuardError>, next: nat)
    ensures var r := Run(registry, fails, start, names);
            && next == r.next
            && (error.None? <==> r.passed == |names|)
            && (error.Some? ==> error.value.name == names[r.passed]
                                && (error.value.NotRegistered? <==> error.value.name !in registry.registered && !IsNative(error.value.name)))
  {
    next := start;
    assert names[0..] == names;
    for i := 0 to |names|
      invariant var whole, rest := Run(registry, fails, start, names), Run(registry, fails, next, names[i..]);
                whole.passed == i + rest.passed && whole.next == rest.next
    {
      var name := names[i];
      assert names[i..][1..] == names[i + 1..];
      if name in registry.registered {
        var failed := fails(next);
        next := next + 1;
        if failed {
          return Some(Failed(name)), next;
        }
      } else if IsNative(name) {
        if !NativePasses(registry.provider, name) {
          return Some(Failed(name)), next;
        }
      } else {
        return Some(NotRegistered(name)), next;
      }
    }
    error := None;
  }

  /** Every guard passed can admit the request; the one that stops the run is missing, unsatisfied or failed. */
  lemma {:induction false} RunAdmits(registry: Registry, fails: nat -> bool, next: nat, names: seq<string>)
    ensures var r := Run(registry, fails, next, names);
            && (forall i | 0 <= i < r.passed :: Admits(registry, names[i]))
            && (r.passed < |names| ==> !Admits(registry, names[r.passed]) || names[r.passed] in registry.registered)
    decreases |names|
  {
    if names != [] && Admits(registry, names[0]) {
      var next' := if names[0] in registry.registered then next + 1 else next;
      RunAdmits(registry, fails, next', names[1..]);
    }
  }

  /** How many registered guards come before a name, which is how many verdicts were drawn before its own. */
  function Drawn(registry: Registry, names: seq<string>, i: nat): nat
    requires i <= |names|
  {
    if i == 0 then 0 else (if names[0] in registry.registered then 1 else 0) + Drawn(registry, names[1..], i - 1)
  }

  /** The guard lets the request through at its turn. */
  predicate Passes(registry: Registry, fails: nat -> bool, next: nat, names: seq<string>, i: nat)
    requires i < |names|
  {
    Admits(registry, names[i]) && (names[i] in registry.registered ==> !fails(next + Drawn(registry, names, i)))
  }

  /** The run gets exactly as far as the first guard that does not let the request through. */
  lemma {:induction false} RunPassesIff(registry: Registry, fails: nat -> bool, next: nat, names: seq<string>, k: nat)
    requires k <= |names|
    ensures Run(registry, fails, next, names).passed >= k <==> forall i: nat | i < k :: Passes(registry, fails, next, names, i)
    decreases k
  {
    if k > 0 {
      var next', rest := next + Drawn(registry, names, 1), names[1..];
      assert Drawn(registry, rest, 0) == 0;
      RunPassesIff(registry, fails, next', rest, k - 1);
      if forall i: nat | i < k :: Passes(registry, fails, next, names, i) {
        forall j: nat | j < k - 1
          ensures Passes(registry, fails, next', rest, j)
        {
          OneLater(registry, fails, next, names, j);
          assert Passes(registry, fails, next, names, j + 1);
        }
        assert Passes(registry, fails, next, names, 0);
      }
      if Passes(registry, fails, next, names, 0) && forall j: nat | j < k - 1 :: Passes(registry, fails, next', rest, j) {
        forall i: nat | i < k
          ensures Passes(registry, fails, next, names, i)
        {
          if i > 0 {
            OneLater(registry, fails, next, names, i - 1);
          }
        }
      }
    }
  }

  lemma OneLater(registry: Registry, fails: nat -> bool, next: nat, names: seq<string>, j: nat)
    requires j + 1 < |names|
    ensures Passes(registry, fails, next, names, j + 1)
            <==> Passes(registry, fails, next + Drawn(registry, names, 1), names[1..], j)
  {
    assert Drawn(registry, names[1..], 0) == 0;
    assert names[j + 1] == names[1..][j];
  }

  /** Nobody passes a guard that cannot admit: the run stops at the first such name at the latest. */
  lemma RunStopsAtMissing(registry: Registry, fails: nat -> bool, next: nat, names: seq<string>, i: nat)
    requires i < |names| && !Admits(registry, names[i])
    ensures Run(registry, fails, next, names).passed <= i
  {
    RunAdmits(registry, fails, next, names);
  }
}
