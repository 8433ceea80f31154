/**
 The runtime environment contract: EnvConfig.Validate (gowdk.go) and the Go function
 validateEnvContract that internal/appgen/source_env.go emits for a generated application.
 The emitted statements are a small syntax tree with its own interpreter.
 */
module EnvContract {
  import opened Text

  type Environment = map<string, string>

  datatype EnvVar = EnvVar(name: string, required: bool, default: string)

  datatype SecretEnv = SecretEnv(name: string, required: bool, minBytes: int)

  datatype EnvConfig = EnvConfig(vars: seq<EnvVar>, secrets: seq<SecretEnv>)

  /** The sections of the configuration, for duplicate reports. */
  datatype Section = Vars | Secrets

  /** The diagnostics, one constructor per code; MessageText is what each says. */
  datatype EnvError =
    | NameRequired                                            // env_name_required
    | SecretNameRequired                                      // secret_env_name_required
    | DuplicateName(name: string, first: Section, again: Section) // duplicate_env_name
    | SecretInVars(name: string)                              // secret_env_in_vars
    | MissingEnv(name: string)                                // missing_required_env
    | MissingSecret(name: string)                             // missing_required_secret
    | ShortSecret(name: string, minBytes: nat)                // short_secret

  function SectionName(s: Section): string {
    if s.Vars? then "Vars" else "Secrets"
  }

  function RequiredMessage(name: string): string {
    name + " is required but is not set"
  }

  function ShortMessage(name: string, minBytes: nat): string {
    name + " must be at least " + Itoa(minBytes) + " bytes"
  }

  function MessageText(e: EnvError): string {
    match e
    case NameRequired => "environment variable name is required"
    case SecretNameRequired => "secret environment variable name is required"
    case DuplicateName(name, first, again) =>
      name + " is declared more than once in Env." + SectionName(first) + " and Env." + SectionName(again)
    case SecretInVars(name) => name + " looks like a secret and must be declared in Env.Secrets"
    case MissingEnv(name) => RequiredMessage(name)
    case MissingSecret(name) => RequiredMessage(name)
    case ShortSecret(name, minBytes) => ShortMessage(name, minBytes)
  }

  /** Go's len of a string: its UTF-8 size in bytes. */
  function ByteLen(s: string): nat {
    if s == "" then 0
    else
      var c := s[0] as int;
      (if c < 0x80 then 1 else if c < 0x800 then 2 else if c < 0x10000 then 3 else 4) + ByteLen(s[1..])
  }

  // --------------------------------------------------------------- Validate

  predicate SecretLike(name: string) {
    HasSuffix(name, "_SECRET") || HasSuffix(name, "_TOKEN") || HasSuffix(name, "_PASSWORD") || HasSuffix(name, "_KEY")
  }

  /** Names declared so far and the section that declared each first. */
  type Seen = map<string, Section>

  function Declare(seen: Seen, name: string, section: Section): Seen {
    if name in seen then seen else seen[name := section]
  }

  /** validateEnvDuplicate. */
  function Duplicate(seen: Seen, name: string, section: Section): seq<EnvError> {
    if name in seen then [DuplicateName(name, seen[name], section)] else []
  }

  /** The diagnostics of one variable that depend on the configuration alone. */
  function VarStructure(seen: Seen, v: EnvVar): seq<EnvError> {
    var name := TrimSpace(v.name);
    if name == "" then [NameRequired]
    else Duplicate(seen, name, Vars) + if SecretLike(name) then [SecretInVars(name)] else []
  }

  /** The diagnostics of one variable that depend on the environment. */
  function VarLookup(v: EnvVar, env: Environment): seq<EnvError> {
    var name := TrimSpace(v.name);
    if name != "" && v.required && v.default == "" && (name !in env || TrimSpace(env[name]) == "") then [MissingEnv(name)] else []
  }

  function SecretStructure(seen: Seen, s: SecretEnv): seq<EnvError> {
    var name := TrimSpace(s.name);
    if name == "" then [SecretNameRequired] else Duplicate(seen, name, Secrets)
  }

  function SecretLookup(s: SecretEnv, env: Environment): seq<EnvError> {
    var name := TrimSpace(s.name);
    var value := if name in env then TrimSpace(env[name]) else "";
    if name == "" then []
    else if s.required && (name !in env || value == "") then [MissingSecret(name)]
    else if s.minBytes > 0 && value != "" && ByteLen(value) < s.minBytes then [ShortSecret(name, s.minBytes)]
    else []
  }

  function SeenAfter(seen: Seen, rawName: string, section: Section): Seen {
    var name := TrimSpace(rawName);
    if name == "" then seen else Declare(seen, name, section)
  }

  function SeenAfterVars(vars: seq<EnvVar>): Seen {
    if vars == [] then map[] else SeenAfter(SeenAfterVars(vars[..|vars| - 1]), vars[|vars| - 1].name, Vars)
  }

  function SeenAfterSecrets(start: Seen, secrets: seq<SecretEnv>): Seen {
    if secrets == [] then start
    else SeenAfter(SeenAfterSecrets(start, secrets[..|secrets| - 1]), secrets[|secrets| - 1].name, Secrets)
  }

  /** Everything said about one variable. */
  function VarDiagnostics(seen: Seen, v: EnvVar, lookup: Option<Environment>): seq<EnvError> {
    VarStructure(seen, v) + if lookup.Some? then VarLookup(v, lookup.value) else []
  }

  function SecretDiagnostics(seen: Seen, s: SecretEnv, lookup: Option<Environment>): seq<EnvError> {
    SecretStructure(seen, s) + if lookup.Some? then SecretLookup(s, lookup.value) else []
  }

  function VarsDiagnostics(vars: seq<EnvVar>, lookup: Option<Environment>): seq<EnvError> {
    if vars == [] then []
    else
      var init, v := vars[..|vars| - 1], vars[|vars| - 1];
      VarsDiagnostics(init, lookup) + VarDiagnostics(SeenAfterVars(init), v, lookup)
  }

  function SecretsDiagnostics(start: Seen, secrets: seq<SecretEnv>, lookup: Option<Environment>): seq<EnvError> {
    if secrets == [] then []
    else
      var init, s := secrets[..|secrets| - 1], secrets[|secrets| - 1];
      SecretsDiagnostics(start, init, lookup) + SecretDiagnostics(SeenAfterSecrets(start, init), s, lookup)
  }

  /** All diagnostics in source order; lookup None checks the structure only. */
  function Diagnostics(config: EnvConfig, lookup: Option<Environment>): seq<EnvError> {
    VarsDiagnostics(config.vars, lookup)
    + SecretsDiagnostics(SeenAfterVars(config.vars), config.secrets, lookup)
  }

  /** EnvConfig.Validate: two loops sharing the table of seen names. */
  method Validate(config: EnvConfig, lookup: Option<Environment>) returns (diagnostics: seq<EnvError>)
    ensures diagnostics == Diagnostics(config, lookup)
  {
    var seen;
    diagnostics, seen := ValidateVars(config.vars, lookup);
    var more := ValidateSecrets(seen, config.secrets, lookup);
    diagnostics := diagnostics + more;
  }

  method ValidateVars(vars: seq<EnvVar>, lookup: Option<Environment>) returns (diagnostics: seq<EnvError>, seen: Seen)
    ensures diagnostics == VarsDiagnostics(vars, lookup) && seen == SeenAfterVars(vars)
  {
    diagnostics, seen := [], map[];
    for i := 0 to |vars|
      invariant seen == SeenAfterVars(vars[..i])
      invariant diagnostics == VarsDiagnostics(vars[..i], lookup)
    {
      assert vars[..i + 1][..i] == vars[..i];
      var found;
      found, seen := ValidateVar(seen, vars[i], lookup);
      diagnostics := diagnostics + found;
    }
    assert vars[..|vars|] == vars;
  }

  /** The loop body for one variable. */
  method ValidateVar(before: Seen, v: EnvVar, lookup: Option<Environment>) returns (found: seq<EnvError>, seen: Seen)
    ensures found == VarDiagnostics(before, v, lookup) && seen == SeenAfter(before, v.name, Vars)
  {
    seen := before;
    var name := TrimSpace(v.name);
    if name == "" {
      return [NameRequired], seen;
    }
    found := Duplicate(seen, name, Vars);
    seen := Declare(seen, name, Vars);
    if SecretLike(name) {
      found := found + [SecretInVars(name)];
    }
    if lookup.Some? && v.required && v.default == "" {
      var env := lookup.value;
      if name !in env || TrimSpace(env[name]) == "" {
        found := found + [MissingEnv(name)];
      }
    }
  }

  /** The loop body for one secret. */
  method ValidateSecret(before: Seen, s: SecretEnv, lookup: Option<Environment>) returns (found: seq<EnvError>, seen: Seen)
    ensures found == SecretDiagnostics(before, s, lookup) && seen == SeenAfter(before, s.name, Secrets)
  {
    seen := before;
    var name := TrimSpace(s.name);
    if name == "" {
      return [SecretNameRequired], seen;
    }
    found := Duplicate(seen, name, Secrets);
    seen := Declare(seen, name, Secrets);
    if lookup.None? {
      return;
    }
    var env := lookup.value;
    var value := if name in env then TrimSpace(env[name]) else "";
    if s.required && (name !in env || value == "") {
      found := found + [MissingSecret(name)];
      return;
    }
    if s.minBytes > 0 && value != "" && ByteLen(value) < s.minBytes {
      found := found + [ShortSecret(name, s.minBytes)];
    }
  }

  method ValidateSecrets(start: Seen, secrets: seq<SecretEnv>, lookup: Option<Environment>) returns (diagnostics: seq<EnvError>)
    ensures diagnostics == SecretsDiagnostics(start, secrets, lookup)
  {
    var seen := start;
    diagnostics := [];
    for i := 0 to |secrets|
      invariant seen == SeenAfterSecrets(start, secrets[..i])
      invariant diagnostics == SecretsDiagnostics(start, secrets[..i], lookup)
    {
      assert secrets[..i + 1][..i] == secrets[..i];
      var found;
      found, seen := ValidateSecret(seen, secrets[i], lookup);
      diagnostics := diagnostics + found;
    }
    assert secrets[..|secrets|] == secrets;
  }

  function Messages(errors: seq<EnvError>): seq<string> {
    if errors == [] then [] else Messages(errors[..|errors| - 1]) + [MessageText(errors[|errors| - 1])]
  }

  /** EnvValidationErrors.Error, or None for a nil error. */
  function ErrorText(errors: seq<EnvError>): Option<string> {
    if errors == [] then None else Some(Join(Messages(errors), "\n"))
  }

  // ----------------------------------------------------- the emitted program

  datatype Expr = Value | Literal(text: string) | Getenv(name: string) | Trim(arg: Expr)

  datatype Cond = Equal(left: Expr, right: Expr) | NotEqual(left: Expr, right: Expr) | LenLess(arg: Expr, bound: int) | And(first: Cond, second: Cond)

  /** if value := init; cond { body } else { otherwise }, and missing = append(missing, message). */
  datatype Stmt =
    | If(init: Option<Expr>, cond: Cond, body: seq<Stmt>, otherwise: seq<Stmt>)
    | AppendMissing(message: string)

  function Eval(e: Expr, value: string, env: Environment): string {
    match e
    case Value => value
    case Literal(text) => text
    case Getenv(name) => if name in env then env[name] else ""
    case Trim(arg) => TrimSpace(Eval(arg, value, env))
  }

  predicate Holds(c: Cond, value: string, env: Environment) {
    match c
    case Equal(l, r) => Eval(l, value, env) == Eval(r, value, env)
    case NotEqual(l, r) => Eval(l, value, env) != Eval(r, value, env)
    case LenLess(arg, bound) => ByteLen(Eval(arg, value, env)) < bound
    case And(first, second) => Holds(first, value, env) && Holds(second, value, env)
  }

  /** Runs statements against the list of messages collected so far. */
  function Exec(stmts: seq<Stmt>, value: string, env: Environment, missing: seq<string>): seq<string>
    decreases stmts
  {
    if stmts == [] then missing
    else
      var after :=
        match stmts[0]
        case AppendMissing(message) => missing + [message]
        case If(init, cond, body, otherwise) =>
          var value' := if init.Some? then Eval(init.value, value, env) else value;
          if Holds(cond, value', env) then Exec(body, value', env, missing) else Exec(otherwise, value', env, missing);
      Exec(stmts[1..], value, env, after)
  }

  /** The whole validateEnvContract: collect, then report the joined messages or nil. */
  function RunContract(stmts: seq<Stmt>, env: Environment): Option<string> {
    var missing := Exec(stmts, "", env, []);
    if missing == [] then None else Some(Join(missing, "\n"))
  }

  function AppendMissingEnvStmt(name: string): Stmt {
    If(Some(Getenv(name)), Equal(Trim(Value), Literal("")), [AppendMissing(RequiredMessage(name))], [])
  }

  /** appendSecretEnvStmt; None when nothing is emitted. */
  function AppendSecretEnvStmt(s: SecretEnv): Option<Stmt> {
    if s.minBytes <= 0 then
      if s.required then Some(AppendMissingEnvStmt(s.name)) else None
    else
      var getenv := Trim(Getenv(s.name));
      var tooShort := LenLess(Value, s.minBytes);
      var short := [AppendMissing(ShortMessage(s.name, s.minBytes))];
      if !s.required then Some(If(Some(getenv), And(NotEqual(Value, Literal("")), tooShort), short, []))
      else Some(If(Some(getenv), Equal(Value, Literal("")), [AppendMissing(RequiredMessage(s.name))], [If(None, tooShort, short, [])]))
  }

  function VarStmt(v: EnvVar): seq<Stmt> {
    if v.required && v.default == "" then [AppendMissingEnvStmt(v.name)] else []
  }

  function SecretStmt(s: SecretEnv): seq<Stmt> {
    var stmt := AppendSecretEnvStmt(s);
    if stmt.Some? then [stmt.value] else []
  }

  function VarStmts(vars: seq<EnvVar>): seq<Stmt> {
    if vars == [] then [] else VarStmts(vars[..|vars| - 1]) + VarStmt(vars[|vars| - 1])
  }

  function SecretStmts(secrets: seq<SecretEnv>): seq<Stmt> {
    if secrets == [] then [] else SecretStmts(secrets[..|secrets| - 1]) + SecretStmt(secrets[|secrets| - 1])
  }

  /** envRuntimeValidationRequired. */
  predicate ValidationRequired(config: EnvConfig) {
    || (exists i | 0 <= i < |config.vars| :: config.vars[i].required && config.vars[i].default == "")
    || (exists i | 0 <= i < |config.secrets| :: config.secrets[i].required || config.secrets[i].minBytes > 0)
  }

  /** validateEnvContractDecl builds its statement list in two append loops; None when nothing is emitted. */
  method ValidateEnvContractDecl(config: EnvConfig) returns (r: Option<seq<Stmt>>)
    ensures r == if ValidationRequired(config) then Some(VarStmts(config.vars) + SecretStmts(config.secrets)) else None
  {
    if !ValidationRequired(config) {
      return None;
    }
    var stmts := EmitVars(config.vars);
    stmts := EmitSecrets(config.secrets, stmts);
    r := Some(stmts);
  }

  method EmitVars(vars: seq<EnvVar>) returns (stmts: seq<Stmt>)
    ensures stmts == VarStmts(vars)
  {
    stmts := [];
    for i := 0 to |vars|
      invariant stmts == VarStmts(vars[..i])
    {
      assert vars[..i + 1][..i] == vars[..i];
      if !vars[i].required || vars[i].default != "" {
        continue;
      }
      stmts := stmts + [AppendMissingEnvStmt(vars[i].name)];
    }
    assert vars[..|vars|] == vars;
  }

  method EmitSecrets(secrets: seq<SecretEnv>, before: seq<Stmt>) returns (stmts: seq<Stmt>)
    ensures stmts == before + SecretStmts(secrets)
  {
    stmts := before;
    for i := 0 to |secrets|
      invariant stmts == before + SecretStmts(secrets[..i])
    {
      assert secrets[..i + 1][..i] == secrets[..i];
      var stmt := AppendSecretEnvStmt(secrets[i]);
      if stmt.Some? {
        stmts := stmts + [stmt.value];
      }
    }
    assert secrets[..|secrets|] == secrets;
  }

  /** What a generated application reports at startup: nothing when no contract was emitted. */
  function EmittedVerdict(config: EnvConfig, env: Environment): Option<string> {
    if ValidationRequired(config) then RunContract(VarStmts(config.vars) + SecretStmts(config.secrets), env) else None
  }

  // ------------------------------------------------------ the two agree

  /** The name of the variable is trimmed if the environment can make it say something. */
  predicate CleanVar(v: EnvVar) {
    v.required && v.default == "" ==> Trimmed(v.name)
  }

  predicate CleanSecret(s: SecretEnv) {
    s.required || s.minBytes > 1 ==> Trimmed(s.name)
  }

  predicate CleanNames(config: EnvConfig) {
    && (forall i | 0 <= i < |config.vars| :: CleanVar(config.vars[i]))
    && (forall i | 0 <= i < |config.secrets| :: CleanSecret(config.secrets[i]))
  }

  lemma {:induction false} ExecAppend(a: seq<Stmt>, b: seq<Stmt>, value: string, env: Environment, missing: seq<string>)
    ensures Exec(a + b, value, env, missing) == Exec(b, value, env, Exec(a, value, env, missing))
    decreases |a|
  {
    if a == [] {
      assert a + b == b;
    } else {
      var after :=
        match a[0]
        case AppendMissing(message) => missing + [message]
        case If(init, cond, body, otherwise) =>
          var value' := if init.Some? then Eval(init.value, value, env) else value;
          if Holds(cond, value', env) then Exec(body, value', env, missing) else Exec(otherwise, value', env, missing);
      assert (a + b)[1..] == a[1..] + b;
      ExecAppend(a[1..], b, value, env, after);
    }
  }

  lemma {:induction false} MessagesAppend(a: seq<EnvError>, b: seq<EnvError>)
    ensures Messages(a + b) == Messages(a) + Messages(b)
  {
    if b == [] {
      assert a + b == a;
    } else {
      assert (a + b)[..|a + b| - 1] == a + b[..|b| - 1];
      MessagesAppend(a, b[..|b| - 1]);
    }
  }

  lemma VarStmtAgrees(v: EnvVar, env: Environment, missing: seq<string>)
    requires CleanVar(v) && v.name != ""
    ensures Exec(VarStmt(v), "", env, missing) == missing + Messages(VarLookup(v, env))
  {
    TrimSpaceTrims(v.name);
    RequiredAgrees(v.name, env, missing);
    assert missing + [] == missing;
  }

  lemma ExecAppendMissing(message: string, value: string, env: Environment, missing: seq<string>)
    ensures Exec([AppendMissing(message)], value, env, missing) == missing + [message]
  {
    assert [AppendMissing(message)][1..] == [];
  }

  lemma ExecIf(stmt: Stmt, env: Environment, missing: seq<string>)
    requires stmt.If?
    ensures var value := if stmt.init.Some? then Eval(stmt.init.value, "", env) else "";
            Exec([stmt], "", env, missing) == Exec(if Holds(stmt.cond, value, env) then stmt.body else stmt.otherwise, value, env, missing)
  {
    assert [stmt][1..] == [];
  }

  lemma RequiredAgrees(name: string, env: Environment, missing: seq<string>)
    ensures Exec([AppendMissingEnvStmt(name)], "", env, missing)
            == missing + if name !in env || TrimSpace(env[name]) == "" then [RequiredMessage(name)] else []
  {
    assert TrimSpace("") == "";
    ExecIf(AppendMissingEnvStmt(name), env, missing);
    var value := if name in env then env[name] else "";
    assert Eval(Trim(Value), value, env) == TrimSpace(value);
    ExecAppendMissing(RequiredMessage(name), value, env, missing);
    assert missing + [] == missing;
  }

  /** The statement for a secret with a minimum length. */
  lemma MinBytesAgrees(s: SecretEnv, env: Environment, missing: seq<string>)
    requires s.minBytes > 0
    ensures var value := if s.name in env then TrimSpace(env[s.name]) else "";
            Exec(SecretStmt(s), "", env, missing)
            == if s.required && value == "" then missing + [RequiredMessage(s.name)]
               else if value != "" && ByteLen(value) < s.minBytes then missing + [ShortMessage(s.name, s.minBytes)]
               else missing
  {
    assert TrimSpace("") == "";
    var value := if s.name in env then TrimSpace(env[s.name]) else "";
    var short := ShortMessage(s.name, s.minBytes);
    ExecIf(AppendSecretEnvStmt(s).value, env, missing);
    ExecAppendMissing(short, value, env, missing);
    if s.required {
      ExecAppendMissing(RequiredMessage(s.name), value, env, missing);
      var tooShort := If(None, LenLess(Value, s.minBytes), [AppendMissing(short)], []);
      assert [tooShort][1..] == [];
    }
  }

  lemma SecretStmtAgrees(s: SecretEnv, env: Environment, missing: seq<string>)
    requires CleanSecret(s) && s.name != ""
    ensures Exec(SecretStmt(s), "", env, missing) == missing + Messages(SecretLookup(s, env))
  {
    TrimSpaceTrims(s.name);
    assert missing + [] == missing;
    assert forall value: string :: value != "" ==> ByteLen(value) >= 1;
    if s.minBytes <= 0 {
      RequiredAgrees(s.name, env, missing);
    } else {
      MinBytesAgrees(s, env, missing);
    }
  }

  /** A name that passes the structural checks is not empty. */
  lemma VarNamed(seen: Seen, v: EnvVar)
    requires VarStructure(seen, v) == []
    ensures v.name != ""
  {
    TrimSpaceTrims(v.name);
  }

  lemma SecretNamed(seen: Seen, s: SecretEnv)
    requires SecretStructure(seen, s) == []
    ensures s.name != ""
  {
    TrimSpaceTrims(s.name);
  }

  /** A structurally sound section contributes its lookups only. */
  lemma VarsStructureStep(init: seq<EnvVar>, v: EnvVar)
    requires VarsDiagnostics(init + [v], None) == []
    ensures VarsDiagnostics(init, None) == [] && VarStructure(SeenAfterVars(init), v) == []
  {
    assert (init + [v])[..|init|] == init;
  }

  lemma VarsLookupStep(init: seq<EnvVar>, v: EnvVar, env: Environment)
    requires VarStructure(SeenAfterVars(init), v) == []
    ensures VarsDiagnostics(init + [v], Some(env)) == VarsDiagnostics(init, Some(env)) + VarLookup(v, env)
  {
    assert (init + [v])[..|init|] == init;
  }

  lemma VarStmtsStep(init: seq<EnvVar>, v: EnvVar)
    ensures VarStmts(init + [v]) == VarStmts(init) + VarStmt(v)
  {
    assert (init + [v])[..|init|] == init;
  }

  lemma SecretStmtsStep(init: seq<SecretEnv>, s: SecretEnv)
    ensures SecretStmts(init + [s]) == SecretStmts(init) + SecretStmt(s)
  {
    assert (init + [s])[..|init|] == init;
  }

  lemma SecretsStructureStep(start: Seen, init: seq<SecretEnv>, s: SecretEnv)
    requires SecretsDiagnostics(start, init + [s], None) == []
    ensures SecretsDiagnostics(start, init, None) == [] && SecretStructure(SeenAfterSecrets(start, init), s) == []
  {
    assert (init + [s])[..|init|] == init;
  }

  lemma SecretsLookupStep(start: Seen, init: seq<SecretEnv>, s: SecretEnv, env: Environment)
    requires SecretStructure(SeenAfterSecrets(start, init), s) == []
    ensures SecretsDiagnostics(start, init + [s], Some(env)) == SecretsDiagnostics(start, init, Some(env)) + SecretLookup(s, env)
  {
    assert (init + [s])[..|init|] == init;
  }

  lemma {:induction false} VarsAgree(vars: seq<EnvVar>, env: Environment)
    requires forall i | 0 <= i < |vars| :: CleanVar(vars[i])
    requires VarsDiagnostics(vars, None) == []
    ensures Exec(VarStmts(vars), "", env, []) == [] + Messages(VarsDiagnostics(vars, Some(env)))
  {
    if vars != [] {
      var init, v := vars[..|vars| - 1], vars[|vars| - 1];
      assert vars == init + [v];
      VarsStructureStep(init, v);
      VarsAgree(init, env);
      VarsAgreeStep(init, v, env);
    }
  }

  lemma VarsAgreeStep(init: seq<EnvVar>, v: EnvVar, env: Environment)
    requires CleanVar(v) && VarStructure(SeenAfterVars(init), v) == []
    requires Exec(VarStmts(init), "", env, []) == [] + Messages(VarsDiagnostics(init, Some(env)))
    ensures Exec(VarStmts(init + [v]), "", env, []) == [] + Messages(VarsDiagnostics(init + [v], Some(env)))
  {
    VarsLookupStep(init, v, env);
    VarStmtsStep(init, v);
    VarNamed(SeenAfterVars(init), v);
    var before := VarsDiagnostics(init, Some(env));
    VarStmtAgrees(v, env, [] + Messages(before));
    ExecOneMore(VarStmts(init), VarStmt(v), env, [], before, VarLookup(v, env));
  }

  lemma {:induction false} SecretsAgree(start: Seen, secrets: seq<SecretEnv>, env: Environment, missing: seq<string>)
    requires forall i | 0 <= i < |secrets| :: CleanSecret(secrets[i])
    requires SecretsDiagnostics(start, secrets, None) == []
    ensures Exec(SecretStmts(secrets), "", env, missing) == missing + Messages(SecretsDiagnostics(start, secrets, Some(env)))
  {
    if secrets != [] {
      var init, s := secrets[..|secrets| - 1], secrets[|secrets| - 1];
      assert secrets == init + [s];
      SecretsStructureStep(start, init, s);
      SecretsAgree(start, init, env, missing);
      SecretsAgreeStep(start, init, s, env, missing);
    }
  }

  lemma SecretsAgreeStep(start: Seen, init: seq<SecretEnv>, s: SecretEnv, env: Environment, missing: seq<string>)
    requires CleanSecret(s) && SecretStructure(SeenAfterSecrets(start, init), s) == []
    requires Exec(SecretStmts(init), "", env, missing) == missing + Messages(SecretsDiagnostics(start, init, Some(env)))
    ensures Exec(SecretStmts(init + [s]), "", env, missing) == missing + Messages(SecretsDiagnostics(start, init + [s], Some(env)))
  {
    SecretsLookupStep(start, init, s, env);
    SecretStmtsStep(init, s);
    SecretNamed(SeenAfterSecrets(start, init), s);
    var before := SecretsDiagnostics(start, init, Some(env));
    SecretStmtAgrees(s, env, missing + Messages(before));
    ExecOneMore(SecretStmts(init), SecretStmt(s), env, missing, before, SecretLookup(s, env));
  }

  /** One more entry: its statement reports its diagnostics after those of the entries before it. */
  lemma ExecOneMore(init: seq<Stmt>, stmt: seq<Stmt>, env: Environment, missing: seq<string>, before: seq<EnvError>, found: seq<EnvError>)
    requires Exec(init, "", env, missing) == missing + Messages(before)
    requires Exec(stmt, "", env, missing + Messages(before)) == missing + Messages(before) + Messages(found)
    ensures Exec(init + stmt, "", env, missing) == missing + Messages(before + found)
  {
    ExecAppend(init, stmt, "", env, missing);
    MessagesAppend(before, found);
    assert missing + Messages(before) + Messages(found) == missing + (Messages(before) + Messages(found));
  }

  lemma {:induction false} NothingRequired(config: EnvConfig, env: Environment)
    requires !ValidationRequired(config)
    ensures VarStmts(config.vars) == [] && SecretStmts(config.secrets) == []
  {
    NoVarStmts(config.vars);
    NoSecretStmts(config.secrets);
  }

  lemma {:induction false} NoVarStmts(vars: seq<EnvVar>)
    requires forall i | 0 <= i < |vars| :: !(vars[i].required && vars[i].default == "")
    ensures VarStmts(vars) == []
  {
    if vars != [] {
      NoVarStmts(vars[..|vars| - 1]);
    }
  }

  lemma {:induction false} NoSecretStmts(secrets: seq<SecretEnv>)
    requires forall i | 0 <= i < |secrets| :: !secrets[i].required && secrets[i].minBytes <= 0
    ensures SecretStmts(secrets) == []
  {
    if secrets != [] {
      NoSecretStmts(secrets[..|secrets| - 1]);
    }
  }

  /**
   Translation preserves meaning: for every structurally sound configuration whose checked names
   are trimmed and every environment, the generated application reaches the verdict, and reports the exact
   error text, that EnvConfig.Validate gives for that environment.
   */
  lemma EmittedContractAgrees(config: EnvConfig, env: Environment)
    requires CleanNames(config) && Diagnostics(config, None) == []
    ensures EmittedVerdict(config, env) == ErrorText(Diagnostics(config, Some(env)))
  {
    var start := SeenAfterVars(config.vars);
    var vars, secrets := VarsDiagnostics(config.vars, Some(env)), SecretsDiagnostics(start, config.secrets, Some(env));
    VarsAgree(config.vars, env);
    assert [] + Messages(vars) == Messages(vars);
    SecretsAgree(start, config.secrets, env, Messages(vars));
    ExecAppend(VarStmts(config.vars), SecretStmts(config.secrets), "", env, []);
    MessagesAppend(vars, secrets);
    if !ValidationRequired(config) {
      NothingRequired(config, env);
      assert VarStmts(config.vars) + SecretStmts(config.secrets) == [];
    }
    MessagesEmpty(vars + secrets);
  }

  lemma MessagesEmpty(errors: seq<EnvError>)
    ensures Messages(errors) == [] <==> errors == []
  {
  }

  // ---------------------------------------------- only then do the two agree

  lemma {:induction false} ExecAdds(stmts: seq<Stmt>, value: string, env: Environment, missing: seq<string>)
    ensures Exec(stmts, value, env, missing) == missing + Exec(stmts, value, env, [])
    decreases stmts
  {
    if stmts != [] {
      var rest := stmts[1..];
      match stmts[0]
      case AppendMissing(message) =>
        ExecAdds(rest, value, env, missing + [message]);
        ExecAdds(rest, value, env, [] + [message]);
      case If(init, cond, body, otherwise) =>
        var value' := if init.Some? then Eval(init.value, value, env) else value;
        var chosen := if Holds(cond, value', env) then body else otherwise;
        ExecAdds(chosen, value', env, missing);
        ExecAdds(rest, value, env, missing + Exec(chosen, value', env, []));
        ExecAdds(rest, value, env, Exec(chosen, value', env, []));
    }
  }

  /** How long the messages are when each ends a line. */
  function Weight(messages: seq<string>): nat {
    if messages == [] then 0 else |messages[0]| + 1 + Weight(messages[1..])
  }

  lemma {:induction false} WeightAppend(a: seq<string>, b: seq<string>)
    ensures Weight(a + b) == Weight(a) + Weight(b)
  {
    if a == [] {
      assert a + b == b;
    } else {
      assert (a + b)[1..] == a[1..] + b;
      WeightAppend(a[1..], b);
    }
  }

  lemma {:induction false} WeightJoin(messages: seq<string>)
    requires messages != []
    ensures |Join(messages, "\n")| + 1 == Weight(messages)
  {
    if |messages| > 1 {
      WeightJoin(messages[1..]);
    }
  }

  /** What the emitted check reports in an environment. */
  function Emitted(stmts: seq<Stmt>, env: Environment): seq<string> {
    Exec(stmts, "", env, [])
  }

  lemma EmittedAppend(a: seq<Stmt>, b: seq<Stmt>, env: Environment)
    ensures Weight(Emitted(a + b, env)) == Weight(Emitted(a, env)) + Weight(Emitted(b, env))
  {
    ExecAppend(a, b, "", env, []);
    ExecAdds(b, "", env, Emitted(a, env));
    WeightAppend(Emitted(a, env), Emitted(b, env));
  }

  lemma MessagesWeight(a: seq<EnvError>, b: seq<EnvError>)
    ensures Weight(Messages(a + b)) == Weight(Messages(a)) + Weight(Messages(b))
  {
    MessagesAppend(a, b);
    WeightAppend(Messages(a), Messages(b));
  }

  lemma TrimShortens(s: string)
    ensures |TrimSpace(s)| <= |s| && (|TrimSpace(s)| == |s| <==> Trimmed(s))
  {
    hide TrimSpace;
    TrimSpaceIff(s, TrimSpace(s));
    TrimSpaceTrims(s);
    var lead, pad :| AllSpace(lead) && AllSpace(pad) && s == lead + TrimSpace(s) + pad;
    if |TrimSpace(s)| == |s| {
      assert lead == "" && pad == "";
    }
  }

  lemma OneMessage(e: EnvError)
    ensures Messages([e]) == [MessageText(e)]
  {
    assert [e][..0] == [];
  }

  /** In the empty environment a variable is reported under its name as it stands, and by Validate under the trimmed one. */
  lemma VarHeavier(v: EnvVar)
    requires TrimSpace(v.name) != ""
    ensures Weight(Emitted(VarStmt(v), map[])) >= Weight(Messages(VarLookup(v, map[])))
    ensures Weight(Emitted(VarStmt(v), map[])) == Weight(Messages(VarLookup(v, map[]))) <==> CleanVar(v)
  {
    RequiredAgrees(v.name, map[], []);
    TrimShortens(v.name);
    OneMessage(MissingEnv(TrimSpace(v.name)));
  }

  lemma SecretHeavier(s: SecretEnv)
    requires TrimSpace(s.name) != ""
    ensures Weight(Emitted(SecretStmt(s), map[])) >= Weight(Messages(SecretLookup(s, map[])))
    ensures Weight(Emitted(SecretStmt(s), map[])) == Weight(Messages(SecretLookup(s, map[]))) <==> (s.required ==> Trimmed(s.name))
  {
    TrimShortens(s.name);
    OneMessage(MissingSecret(TrimSpace(s.name)));
    if s.minBytes <= 0 {
      RequiredAgrees(s.name, map[], []);
    } else {
      MinBytesAgrees(s, map[], []);
    }
  }

  predicate CleanVars(vars: seq<EnvVar>) {
    forall i | 0 <= i < |vars| :: CleanVar(vars[i])
  }

  predicate RequiredTrimmed(secrets: seq<SecretEnv>) {
    forall i | 0 <= i < |secrets| :: secrets[i].required ==> Trimmed(secrets[i].name)
  }

  lemma CleanVarsStep(init: seq<EnvVar>, v: EnvVar)
    ensures CleanVars(init + [v]) <==> CleanVars(init) && CleanVar(v)
  {
    assert forall i | 0 <= i < |init| :: (init + [v])[i] == init[i];
    assert (init + [v])[|init|] == v;
  }

  lemma RequiredTrimmedStep(init: seq<SecretEnv>, s: SecretEnv)
    ensures RequiredTrimmed(init + [s]) <==> RequiredTrimmed(init) && (s.required ==> Trimmed(s.name))
  {
    assert forall i | 0 <= i < |init| :: (init + [s])[i] == init[i];
    assert (init + [s])[|init|] == s;
  }

  /** What one more variable adds to either side. */
  lemma VarAdds(init: seq<EnvVar>, v: EnvVar, env: Environment)
    requires VarsDiagnostics(init + [v], None) == []
    ensures VarsDiagnostics(init, None) == [] && TrimSpace(v.name) != ""
    ensures Weight(Emitted(VarStmts(init + [v]), env)) == Weight(Emitted(VarStmts(init), env)) + Weight(Emitted(VarStmt(v), env))
    ensures Weight(Messages(VarsDiagnostics(init + [v], Some(env))))
            == Weight(Messages(VarsDiagnostics(init, Some(env)))) + Weight(Messages(VarLookup(v, env)))
  {
    hide Emitted, Weight, Messages, VarStmt, VarLookup, VarStmts, VarsDiagnostics, SeenAfterVars;
    VarsStructureStep(init, v);
    VarStmtsStep(init, v);
    VarsLookupStep(init, v, env);
    EmittedAppend(VarStmts(init), VarStmt(v), env);
    MessagesWeight(VarsDiagnostics(init, Some(env)), VarLookup(v, env));
  }

  lemma SecretAdds(start: Seen, init: seq<SecretEnv>, s: SecretEnv, env: Environment)
    requires SecretsDiagnostics(start, init + [s], None) == []
    ensures SecretsDiagnostics(start, init, None) == [] && TrimSpace(s.name) != ""
    ensures Weight(Emitted(SecretStmts(init + [s]), env)) == Weight(Emitted(SecretStmts(init), env)) + Weight(Emitted(SecretStmt(s), env))
    ensures Weight(Messages(SecretsDiagnostics(start, init + [s], Some(env))))
            == Weight(Messages(SecretsDiagnostics(start, init, Some(env)))) + Weight(Messages(SecretLookup(s, env)))
  {
    hide Emitted, Weight, Messages, SecretStmt, SecretLookup, SecretStmts, SecretsDiagnostics, SeenAfterSecrets;
    SecretsStructureStep(start, init, s);
    SecretStmtsStep(init, s);
    SecretsLookupStep(start, init, s, env);
    EmittedAppend(SecretStmts(init), SecretStmt(s), env);
    MessagesWeight(SecretsDiagnostics(start, init, Some(env)), SecretLookup(s, env));
  }

  lemma {:induction false} VarsHeavier(vars: seq<EnvVar>)
    requires VarsDiagnostics(vars, None) == []
    ensures var emitted, validated := Weight(Emitted(VarStmts(vars), map[])), Weight(Messages(VarsDiagnostics(vars, Some(map[]))));
            emitted >= validated && (emitted == validated <==> CleanVars(vars))
  {
    if vars != [] {
      hide *;
      var init, v := vars[..|vars| - 1], vars[|vars| - 1];
      assert vars == init + [v];
      VarAdds(init, v, map[]);
      VarsHeavier(init);
      VarHeavier(v);
      CleanVarsStep(init, v);
    }
  }

  lemma {:induction false} SecretsHeavier(start: Seen, secrets: seq<SecretEnv>)
    requires SecretsDiagnostics(start, secrets, None) == []
    ensures var emitted, validated := Weight(Emitted(SecretStmts(secrets), map[])), Weight(Messages(SecretsDiagnostics(start, secrets, Some(map[]))));
            emitted >= validated && (emitted == validated <==> RequiredTrimmed(secrets))
  {
    if secrets != [] {
      hide *;
      var init, s := secrets[..|secrets| - 1], secrets[|secrets| - 1];
      assert secrets == init + [s];
      SecretAdds(start, init, s, map[]);
      SecretsHeavier(start, init);
      SecretHeavier(s);
      RequiredTrimmedStep(init, s);
    }
  }

  /** The environment in which only this name is set, and to one byte. */
  function Only(name: string): Environment {
    map[name := "x"]
  }

  /** An optional secret whose untrimmed name the emitted check looks up in vain. */
  lemma SecretLighter(s: SecretEnv, name: string)
    requires Trimmed(name) && TrimSpace(s.name) != "" && (s.required ==> Trimmed(s.name))
    ensures Weight(Emitted(SecretStmt(s), Only(name))) <= Weight(Messages(SecretLookup(s, Only(name))))
    ensures TrimSpace(s.name) == name && !CleanSecret(s) ==>
              Weight(Emitted(SecretStmt(s), Only(name))) < Weight(Messages(SecretLookup(s, Only(name))))
  {
    TrimSpaceTrims(s.name);
    if Trimmed(s.name) {
      SecretStmtAgrees(s, Only(name), []);
    } else {
      assert s.name !in Only(name);
      if s.minBytes > 0 {
        MinBytesAgrees(s, Only(name), []);
      }
      OneMessage(ShortSecret(TrimSpace(s.name), if s.minBytes > 0 then s.minBytes else 0));
      assert TrimSpace("x") == "x" && ByteLen("x") == 1;
    }
  }

  lemma {:induction false} SecretsLighter(start: Seen, secrets: seq<SecretEnv>, name: string)
    requires SecretsDiagnostics(start, secrets, None) == [] && Trimmed(name) && RequiredTrimmed(secrets)
    ensures var emitted, validated := Weight(Emitted(SecretStmts(secrets), Only(name))), Weight(Messages(SecretsDiagnostics(start, secrets, Some(Only(name)))));
            emitted <= validated && (forall s | s in secrets && TrimSpace(s.name) == name && !CleanSecret(s) :: emitted < validated)
  {
    if secrets != [] {
      hide *;
      var init, s := secrets[..|secrets| - 1], secrets[|secrets| - 1];
      assert secrets == init + [s];
      SecretAdds(start, init, s, Only(name));
      RequiredTrimmedStep(init, s);
      SecretsLighter(start, init, name);
      SecretLighter(s, name);
    }
  }

  /** Equal verdicts have messages of equal length. */
  lemma VerdictWeight(config: EnvConfig, env: Environment)
    requires Diagnostics(config, None) == [] && EmittedVerdict(config, env) == ErrorText(Diagnostics(config, Some(env)))
    ensures Weight(Emitted(VarStmts(config.vars), env)) + Weight(Emitted(SecretStmts(config.secrets), env))
            == Weight(Messages(VarsDiagnostics(config.vars, Some(env))))
               + Weight(Messages(SecretsDiagnostics(SeenAfterVars(config.vars), config.secrets, Some(env))))
  {
    var stmts := VarStmts(config.vars) + SecretStmts(config.secrets);
    var found := Diagnostics(config, Some(env));
    EmittedAppend(VarStmts(config.vars), SecretStmts(config.secrets), env);
    MessagesWeight(VarsDiagnostics(config.vars, Some(env)), SecretsDiagnostics(SeenAfterVars(config.vars), config.secrets, Some(env)));
    MessagesEmpty(found);
    if !ValidationRequired(config) {
      NothingRequired(config, env);
      assert stmts == [];
    }
    if found != [] {
      WeightJoin(Messages(found));
      WeightJoin(Emitted(stmts, env));
    }
  }

  /**
   Exactly when the generated check means what Validate means: for a structurally sound
   configuration, they agree in every environment if and only if every name that can be reported
   at run time is written without white space around it.
   */
  lemma AgreesIff(config: EnvConfig)
    requires Diagnostics(config, None) == []
    ensures (forall env :: EmittedVerdict(config, env) == ErrorText(Diagnostics(config, Some(env)))) <==> CleanNames(config)
  {
    if CleanNames(config) {
      forall env
        ensures EmittedVerdict(config, env) == ErrorText(Diagnostics(config, Some(env)))
      {
        EmittedContractAgrees(config, env);
      }
    }
    if forall env :: EmittedVerdict(config, env) == ErrorText(Diagnostics(config, Some(env))) {
      AgreementCleans(config);
    }
  }

  const SPACED := EnvVar(" A", true, "")

  lemma SpacedIsSound(lookup: Option<Environment>)
    requires lookup.Some? ==> "A" in lookup.value && TrimSpace(lookup.value["A"]) != ""
    ensures Diagnostics(EnvConfig([SPACED], []), lookup) == []
  {
    TrimSpacePadded("A");
    assert " " + "A" == " A";
    assert !SecretLike("A");
    assert VarDiagnostics(map[], SPACED, lookup) == [];
    assert VarsDiagnostics([SPACED], lookup) == VarsDiagnostics([], lookup) + VarDiagnostics(map[], SPACED, lookup) == [];
  }

  lemma SpacedIsMissed(env: Environment)
    requires " A" !in env
    ensures EmittedVerdict(EnvConfig([SPACED], []), env) == Some(RequiredMessage(" A"))
  {
    hide RequiredMessage;
    RequiredAgrees(" A", env, []);
    var stmt := AppendMissingEnvStmt(" A");
    assert [SPACED][..0] == [];
    assert VarStmts([SPACED]) == VarStmts([]) + VarStmt(SPACED) == [stmt];
    assert VarStmts([SPACED]) + SecretStmts([]) == [stmt];
    assert ValidationRequired(EnvConfig([SPACED], []));
  }

  /** Where they differ: the generated check looks up the name " A" as it stands. */
  lemma UntrimmedNameDiffers()
    ensures var config, env := EnvConfig([SPACED], []), map["A" := "x"];
            Diagnostics(config, None) == [] && Diagnostics(config, Some(env)) == [] && EmittedVerdict(config, env) == Some(RequiredMessage(" A"))
  {
    hide Diagnostics, EmittedVerdict, RequiredMessage;
    SpacedIsSound(None);
    assert TrimSpace("x") == "x";
    SpacedIsSound(Some(map["A" := "x"]));
    assert |" A"| != |"A"|;
    SpacedIsMissed(map["A" := "x"]);
  }

  lemma AgreementCleans(config: EnvConfig)
    requires Diagnostics(config, None) == []
    requires forall env :: EmittedVerdict(config, env) == ErrorText(Diagnostics(config, Some(env)))
    ensures CleanNames(config)
  {
    hide EmittedVerdict, ErrorText, Emitted, Weight, Messages;
    var start := SeenAfterVars(config.vars);
    VerdictWeight(config, map[]);
    VarsHeavier(config.vars);
    SecretsHeavier(start, config.secrets);
    if i :| 0 <= i < |config.secrets| && !CleanSecret(config.secrets[i]) {
      var name := TrimSpace(config.secrets[i].name);
      TrimSpaceTrims(config.secrets[i].name);
      VerdictWeight(config, Only(name));
      SecretsLighter(start, config.secrets, name);
      VarsAgree(config.vars, Only(name));
      EmittedIs(config.vars, Only(name));
      assert false;
    }
  }

  lemma EmittedIs(vars: seq<EnvVar>, env: Environment)
    requires Exec(VarStmts(vars), "", env, []) == [] + Messages(VarsDiagnostics(vars, Some(env)))
    ensures Weight(Emitted(VarStmts(vars), env)) == Weight(Messages(VarsDiagnostics(vars, Some(env))))
  {
    assert [] + Messages(VarsDiagnostics(vars, Some(env))) == Messages(VarsDiagnostics(vars, Some(env)));
  }

  // ----------------------------------------------- what the diagnostics are about

  /** The trimmed name, when there is one. */
  predicate Called(raw: string, name: string) {
    name != "" && TrimSpace(raw) == name
  }

  /** The name ends in one of the four endings that mark a secret. */
  ghost predicate SoundsSecret(name: string) {
    exists stem :: name == stem + "_SECRET" || name == stem + "_TOKEN" || name == stem + "_PASSWORD" || name == stem + "_KEY"
  }

  /** The variable is set to more than white space. */
  predicate Set(env: Environment, name: string) {
    name in env && TrimSpace(env[name]) != ""
  }

  /** A name is declared twice: within a section, or in both, and the first section to declare it is named first. */
  ghost predicate Repeats(config: EnvConfig, name: string, first: Section, again: Section) {
    && (first.Vars? && again.Vars? ==> exists i, j :: 0 <= i < j < |config.vars| && Called(config.vars[i].name, name) && Called(config.vars[j].name, name))
    && (first.Vars? && again.Secrets? ==> (exists v :: v in config.vars && Called(v.name, name)) && exists s :: s in config.secrets && Called(s.name, name))
    && (first.Secrets? ==>
        && again.Secrets? && (forall v | v in config.vars :: !Called(v.name, name))
        && exists i, j :: 0 <= i < j < |config.secrets| && Called(config.secrets[i].name, name) && Called(config.secrets[j].name, name))
  }

  /** What each diagnostic says of the configuration and the environment. */
  ghost predicate Says(config: EnvConfig, lookup: Option<Environment>, e: EnvError) {
    match e
    case NameRequired => exists v :: v in config.vars && TrimSpace(v.name) == ""
    case SecretNameRequired => exists s :: s in config.secrets && TrimSpace(s.name) == ""
    case DuplicateName(name, first, again) => Repeats(config, name, first, again)
    case SecretInVars(name) => SoundsSecret(name) && exists v :: v in config.vars && Called(v.name, name)
    case MissingEnv(name) =>
      lookup.Some? && !Set(lookup.value, name) && exists v :: v in config.vars && Called(v.name, name) && v.required && v.default == ""
    case MissingSecret(name) =>
      lookup.Some? && !Set(lookup.value, name) && exists s :: s in config.secrets && Called(s.name, name) && s.required
    case ShortSecret(name, minBytes) =>
      && lookup.Some? && Set(lookup.value, name) && ByteLen(TrimSpace(lookup.value[name])) < minBytes
      && exists s :: s in config.secrets && Called(s.name, name) && s.minBytes == minBytes
  }

  lemma SecretLikeIff(name: string)
    ensures SecretLike(name) <==> SoundsSecret(name)
  {
    SuffixIff(name, "_SECRET");
    SuffixIff(name, "_TOKEN");
    SuffixIff(name, "_PASSWORD");
    SuffixIff(name, "_KEY");
  }

  lemma SuffixIff(s: string, ending: string)
    ensures HasSuffix(s, ending) <==> exists stem :: s == stem + ending
  {
    if HasSuffix(s, ending) {
      assert s == s[..|s| - |ending|] + ending;
    }
  }

  lemma {:induction false} SeenVarsIff(vars: seq<EnvVar>, name: string)
    ensures name in SeenAfterVars(vars) <==> exists i :: 0 <= i < |vars| && Called(vars[i].name, name)
    ensures name in SeenAfterVars(vars) ==> SeenAfterVars(vars)[name] == Vars
  {
    if vars != [] {
      var init := vars[..|vars| - 1];
      SeenVarsIff(init, name);
      assert vars == init + [vars[|init|]];
    }
  }

  lemma {:induction false} SeenSecretsIff(start: Seen, secrets: seq<SecretEnv>, name: string)
    ensures name in SeenAfterSecrets(start, secrets) <==> name in start || exists i :: 0 <= i < |secrets| && Called(secrets[i].name, name)
    ensures name in SeenAfterSecrets(start, secrets) ==>
              SeenAfterSecrets(start, secrets)[name] == if name in start then start[name] else Secrets
  {
    if secrets != [] {
      var init := secrets[..|secrets| - 1];
      SeenSecretsIff(start, init, name);
      assert secrets == init + [secrets[|init|]];
    }
  }

  lemma {:induction false} VarsHas(vars: seq<EnvVar>, lookup: Option<Environment>, e: EnvError)
    ensures e in VarsDiagnostics(vars, lookup) <==>
              exists j :: 0 <= j < |vars| && e in VarDiagnostics(SeenAfterVars(vars[..j]), vars[j], lookup)
  {
    hide VarDiagnostics, SeenAfterVars;
    if vars != [] {
      var init, v := vars[..|vars| - 1], vars[|vars| - 1];
      VarsHas(init, lookup, e);
      assert forall j | 0 <= j < |init| :: vars[..j] == init[..j];
      assert vars[..|init|] == init;
    }
  }

  lemma {:induction false} SecretsHas(start: Seen, secrets: seq<SecretEnv>, lookup: Option<Environment>, e: EnvError)
    ensures e in SecretsDiagnostics(start, secrets, lookup) <==>
              exists j :: 0 <= j < |secrets| && e in SecretDiagnostics(SeenAfterSecrets(start, secrets[..j]), secrets[j], lookup)
  {
    hide SecretDiagnostics, SeenAfterSecrets;
    if secrets != [] {
      var init, s := secrets[..|secrets| - 1], secrets[|secrets| - 1];
      SecretsHas(start, init, lookup, e);
      assert forall j | 0 <= j < |init| :: secrets[..j] == init[..j];
      assert secrets[..|init|] == init;
    }
  }

  /** What is said in the section of variables. */
  ghost predicate SaidOfVars(config: EnvConfig, lookup: Option<Environment>, e: EnvError) {
    && !e.SecretNameRequired? && !e.MissingSecret? && !e.ShortSecret? && (e.DuplicateName? ==> e.again.Vars?)
    && Says(config, lookup, e)
  }

  ghost predicate SaidOfSecrets(config: EnvConfig, lookup: Option<Environment>, e: EnvError) {
    && (e.SecretNameRequired? || e.MissingSecret? || e.ShortSecret? || (e.DuplicateName? && e.again.Secrets?))
    && Says(config, lookup, e)
  }

  /** What is said about one variable after those seen. */
  ghost predicate VarSays(seen: Seen, v: EnvVar, lookup: Option<Environment>, e: EnvError) {
    match e
    case NameRequired => TrimSpace(v.name) == ""
    case DuplicateName(name, first, again) => again.Vars? && Called(v.name, name) && name in seen && seen[name] == first
    case SecretInVars(name) => Called(v.name, name) && SoundsSecret(name)
    case MissingEnv(name) => lookup.Some? && !Set(lookup.value, name) && Called(v.name, name) && v.required && v.default == ""
    case _ => false
  }

  ghost predicate SecretSays(seen: Seen, s: SecretEnv, lookup: Option<Environment>, e: EnvError) {
    match e
    case SecretNameRequired => TrimSpace(s.name) == ""
    case DuplicateName(name, first, again) => again.Secrets? && Called(s.name, name) && name in seen && seen[name] == first
    case MissingSecret(name) => lookup.Some? && !Set(lookup.value, name) && Called(s.name, name) && s.required
    case ShortSecret(name, minBytes) =>
      && lookup.Some? && Set(lookup.value, name) && ByteLen(TrimSpace(lookup.value[name])) < minBytes
      && Called(s.name, name) && s.minBytes == minBytes
    case _ => false
  }

  lemma VarSaysIff(seen: Seen, v: EnvVar, lookup: Option<Environment>, e: EnvError)
    ensures e in VarDiagnostics(seen, v, lookup) <==> VarSays(seen, v, lookup, e)
  {
    hide TrimSpace, SoundsSecret, SecretLike;
    SecretLikeIff(TrimSpace(v.name));
  }

  lemma SecretSaysIff(seen: Seen, s: SecretEnv, lookup: Option<Environment>, e: EnvError)
    ensures e in SecretDiagnostics(seen, s, lookup) <==> SecretSays(seen, s, lookup, e)
  {
    hide TrimSpace, ByteLen;
  }

  lemma VarsSay(config: EnvConfig, lookup: Option<Environment>, e: EnvError)
    ensures e in VarsDiagnostics(config.vars, lookup) <==> SaidOfVars(config, lookup, e)
  {
    hide TrimSpace, SeenAfterVars, SoundsSecret, VarDiagnostics, Called, VarsDiagnostics;
    var vars := config.vars;
    VarsHas(vars, lookup, e);
    forall j | 0 <= j < |vars|
      ensures e in VarDiagnostics(SeenAfterVars(vars[..j]), vars[j], lookup) <==> VarSays(SeenAfterVars(vars[..j]), vars[j], lookup, e)
      ensures e.DuplicateName? ==>
                (e.name in SeenAfterVars(vars[..j]) && SeenAfterVars(vars[..j])[e.name] == e.first
                 <==> e.first.Vars? && exists i :: 0 <= i < j && Called(vars[i].name, e.name))
    {
      VarSaysIff(SeenAfterVars(vars[..j]), vars[j], lookup, e);
      if e.DuplicateName? {
        SeenVarsIff(vars[..j], e.name);
      }
    }
  }

  lemma SecretsSay(config: EnvConfig, lookup: Option<Environment>, e: EnvError)
    ensures e in SecretsDiagnostics(SeenAfterVars(config.vars), config.secrets, lookup) <==> SaidOfSecrets(config, lookup, e)
  {
    hide TrimSpace, SeenAfterVars, SeenAfterSecrets, SoundsSecret, ByteLen, SecretDiagnostics, SecretsDiagnostics, Called;
    var secrets, start := config.secrets, SeenAfterVars(config.vars);
    SecretsHas(start, secrets, lookup, e);
    if e.DuplicateName? {
      SeenVarsIff(config.vars, e.name);
      assert e.name in start <==> exists v :: v in config.vars && Called(v.name, e.name);
    }
    forall j | 0 <= j < |secrets|
      ensures e in SecretDiagnostics(SeenAfterSecrets(start, secrets[..j]), secrets[j], lookup)
              <==> SecretSays(SeenAfterSecrets(start, secrets[..j]), secrets[j], lookup, e)
      ensures e.DuplicateName? ==>
                var seen := SeenAfterSecrets(start, secrets[..j]);
                (e.name in seen && seen[e.name] == e.first
                 <==> if e.name in start then e.first.Vars?
                      else e.first.Secrets? && exists i :: 0 <= i < j && Called(secrets[i].name, e.name))
    {
      SecretSaysIff(SeenAfterSecrets(start, secrets[..j]), secrets[j], lookup, e);
      if e.DuplicateName? {
        SeenSecretsIff(start, secrets[..j], e.name);
      }
    }
  }

  /** Validation reports a diagnostic if and only if it is true of the configuration and the environment. */
  lemma DiagnosticIff(config: EnvConfig, lookup: Option<Environment>, e: EnvError)
    ensures e in Diagnostics(config, lookup) <==> Says(config, lookup, e)
  {
    VarsSay(config, lookup, e);
    SecretsSay(config, lookup, e);
  }
}
