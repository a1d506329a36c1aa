/** The consistency checks of `module-registry check` between the registry and compiled.rs. */
module RegistryChecks {
  import opened Prelude
  import opened RegistryParser

  datatype CompiledModule = CompiledModule(key: ModuleKey, providesList: seq<string>, hasRequires: bool)

  datatype Drift =
    | DuplicateId(id: string)
    | MissingInCompiled(key: ModuleKey)
    | UndeclaredInRegistry(key: ModuleKey)
    | ProvidesMismatch(id: string)
    | RequiresMismatch(id: string)

  function RegistryKeys(modules: seq<RegistryModule>): set<ModuleKey> {
    set m | m in modules :: m.key
  }

  function CompiledKeys(compiled: seq<CompiledModule>): set<ModuleKey> {
    set m | m in compiled :: m.key
  }

  /** The declaration that counts for a key: the last one. */
  function CompiledMap(compiled: seq<CompiledModule>): (m: map<ModuleKey, CompiledModule>)
    ensures m.Keys == CompiledKeys(compiled)
  {
    if compiled == [] then map[]
    else
      var n := |compiled| - 1;
      assert compiled == compiled[..n] + [compiled[n]];
      CompiledMap(compiled[..n])[compiled[n].key := compiled[n]]
  }

  lemma {:induction false} CompiledMapIsLast(compiled: seq<CompiledModule>, i: nat)
    requires i < |compiled|
    requires forall k :: i < k < |compiled| ==> compiled[k].key != compiled[i].key
    ensures compiled[i].key in CompiledMap(compiled) && CompiledMap(compiled)[compiled[i].key] == compiled[i]
  {
    var n := |compiled| - 1;
    if i < n {
      assert compiled[..n][i] == compiled[i];
      CompiledMapIsLast(compiled[..n], i);
    }
  }

  predicate Agree(m: RegistryModule, declared: CompiledModule) {
    m.providesList == declared.providesList && (m.requiresList != [] <==> declared.hasRequires)
  }

  /** No drift: the same keys on both sides, and each module agrees with its last declaration. */
  ghost predicate InStep(modules: seq<RegistryModule>, compiled: seq<CompiledModule>) {
    && RegistryKeys(modules) == CompiledKeys(compiled)
    && forall m <- modules :: m.key in CompiledMap(compiled) && Agree(m, CompiledMap(compiled)[m.key])
  }

  /** What there is to report about a registry and a list of compiled modules. */
  ghost predicate IsDrift(d: Drift, modules: seq<RegistryModule>, compiled: seq<CompiledModule>) {
    match d
    case MissingInCompiled(key) => key in RegistryKeys(modules) - CompiledKeys(compiled)
    case UndeclaredInRegistry(key) => key in CompiledKeys(compiled) - RegistryKeys(modules)
    case _ => exists k :: 0 <= k < |modules| && Mismatch(d, modules[k], CompiledMap(compiled))
  }

  /** The registry module is compiled, but declared differently. */
  predicate Mismatch(d: Drift, m: RegistryModule, declared: map<ModuleKey, CompiledModule>) {
    && m.key in declared
    && match d
       case ProvidesMismatch(id) => id == m.key.id && m.providesList != declared[m.key].providesList
       case RequiresMismatch(id) => id == m.key.id && (m.requiresList != []) != declared[m.key].hasRequires
       case _ => false
  }

  /** Everything that drifted is reported, nothing else is, and nothing is reported exactly when nothing drifted. */
  method CheckCompiledModules(modules: seq<RegistryModule>, compiled: seq<CompiledModule>, before: seq<Drift>)
    returns (errors: seq<Drift>)
    ensures before <= errors
    ensures forall d :: d in errors[|before|..] <==> IsDrift(d, modules, compiled)
    ensures errors == before <==> InStep(modules, compiled)
  {
    var compiledMap := CompiledMap(compiled);
    hide CompiledMap, InStep, Mismatch;
    var missing := RegistryKeys(modules) - CompiledKeys(compiled);
    errors := ReportKeys(missing, before, key => MissingInCompiled(key));
    ghost var afterMissing := errors;
    var extra := CompiledKeys(compiled) - RegistryKeys(modules);
    errors := ReportKeys(extra, errors, key => UndeclaredInRegistry(key));
    ghost var afterKeys := errors;
    for i := 0 to |modules|
      invariant afterKeys <= errors
      invariant forall d :: d in errors[|afterKeys|..] <==> exists k :: 0 <= k < i && Mismatch(d, modules[k], compiledMap)
    {
      ghost var was := errors;
      errors := ReportMismatches(modules[i], compiledMap, errors);
      SuffixInTwo(afterKeys, was, errors);
    }
    SuffixInTwo(before, afterKeys, errors);
    SuffixInTwo(before, afterMissing, afterKeys);
    forall d
      ensures d in errors[|before|..] <==> IsDrift(d, modules, compiled)
    {
      KeyDriftIsNoMismatch(d, modules, compiledMap);
      assert d.MissingInCompiled? && d.key in missing ==> (key => MissingInCompiled(key))(d.key) == d;
      assert d.UndeclaredInRegistry? && d.key in extra ==> (key => UndeclaredInRegistry(key))(d.key) == d;
    }
    NoDriftMeansInStep(modules, compiled);
    assert errors == before <==> errors[|before|..] == [];
    assert errors[|before|..] != [] ==> errors[|before|..][0] in errors[|before|..];
  }

  /** One message for each key. */
  method ReportKeys(keys: set<ModuleKey>, before: seq<Drift>, report: ModuleKey -> Drift) returns (errors: seq<Drift>)
    ensures before <= errors
    ensures forall d :: d in errors[|before|..] <==> exists key <- keys :: report(key) == d
  {
    errors := before;
    var rest := keys;
    while rest != {}
      invariant rest <= keys && before <= errors
      invariant forall d :: d in errors[|before|..] <==> exists key <- keys - rest :: report(key) == d
      decreases |rest|
    {
      var key :| key in rest;
      ghost var was := errors;
      rest := rest - {key};
      errors := errors + [report(key)];
      SuffixInTwo(before, was, errors);
    }
  }

  method ReportMismatches(m: RegistryModule, compiledMap: map<ModuleKey, CompiledModule>, before: seq<Drift>)
    returns (errors: seq<Drift>)
    ensures before <= errors
    ensures forall d :: d in errors[|before|..] <==> Mismatch(d, m, compiledMap)
  {
    errors := before;
    ghost var found := [];
    if m.key in compiledMap {
      var declared := compiledMap[m.key];
      if m.providesList != declared.providesList {
        errors := errors + [ProvidesMismatch(m.key.id)];
        found := found + [ProvidesMismatch(m.key.id)];
      }
      if (m.requiresList != []) != declared.hasRequires {
        errors := errors + [RequiresMismatch(m.key.id)];
        found := found + [RequiresMismatch(m.key.id)];
      }
    }
    assert errors == before + found;
  }

  lemma SuffixInTwo(a: seq<Drift>, b: seq<Drift>, c: seq<Drift>)
    requires a <= b <= c
    ensures c[|a|..] == b[|a|..] + c[|b|..]
  {
  }

  lemma KeyDriftIsNoMismatch(d: Drift, modules: seq<RegistryModule>, declared: map<ModuleKey, CompiledModule>)
    ensures (exists k :: 0 <= k < |modules| && Mismatch(d, modules[k], declared)) ==>
              d.ProvidesMismatch? || d.RequiresMismatch?
  {
  }

  lemma NoDriftMeansInStep(modules: seq<RegistryModule>, compiled: seq<CompiledModule>)
    ensures (forall d :: !IsDrift(d, modules, compiled)) <==> InStep(modules, compiled)
  {
    hide CompiledMap, RegistryKeys, CompiledKeys;
    InStepExactly(modules, compiled);
    hide InStep;
    if forall d :: !IsDrift(d, modules, compiled) {
      forall key
        ensures key in RegistryKeys(modules) <==> key in CompiledKeys(compiled)
      {
        assert !IsDrift(MissingInCompiled(key), modules, compiled);
        assert !IsDrift(UndeclaredInRegistry(key), modules, compiled);
      }
      forall k | 0 <= k < |modules| && modules[k].key in CompiledMap(compiled)
        ensures Agree(modules[k], CompiledMap(compiled)[modules[k].key])
      {
        var id := modules[k].key.id;
        assert !IsDrift(ProvidesMismatch(id), modules, compiled);
        assert !IsDrift(RequiresMismatch(id), modules, compiled);
        assert !Mismatch(ProvidesMismatch(id), modules[k], CompiledMap(compiled));
        assert !Mismatch(RequiresMismatch(id), modules[k], CompiledMap(compiled));
      }
    }
  }

  lemma InStepExactly(modules: seq<RegistryModule>, compiled: seq<CompiledModule>)
    ensures InStep(modules, compiled) <==>
      && RegistryKeys(modules) == CompiledKeys(compiled)
      && forall k :: 0 <= k < |modules| && modules[k].key in CompiledMap(compiled)
           ==> Agree(modules[k], CompiledMap(compiled)[modules[k].key])
  {
    hide Agree, CompiledMap;
    forall m | m in modules
      ensures m.key in RegistryKeys(modules)
    {
    }
  }

  function Ids(modules: seq<RegistryModule>): (ids: seq<string>)
    ensures |ids| == |modules| && forall k :: 0 <= k < |ids| ==> ids[k] == modules[k].key.id
  {
    seq(|modules|, k requires 0 <= k < |modules| => modules[k].key.id)
  }

  /** How often a text is repeated: once less than it occurs. */
  function Repeats(ids: seq<string>, id: string): nat {
    if id in ids then multiset(ids)[id] - 1 else 0
  }

  lemma OneMoreId(ids: seq<string>, next: string, id: string)
    ensures Repeats(ids + [next], id) == Repeats(ids, id) + if id == next && next in ids then 1 else 0
  {
  }

  /** Every id is reported once for each time it is repeated, and nothing else is. */
  method CheckDuplicateRegistryIds(modules: seq<RegistryModule>, before: seq<Drift>) returns (errors: seq<Drift>)
    ensures before <= errors
    ensures forall d <- errors[|before|..] :: d.DuplicateId?
    ensures forall id :: multiset(errors[|before|..])[DuplicateId(id)] == Repeats(Ids(modules), id)
  {
    hide Repeats;
    errors := before;
    var seen: set<string> := {};
    ghost var ids := Ids(modules);
    NoRepeats();
    for i := 0 to |modules|
      invariant before <= errors
      invariant forall d <- errors[|before|..] :: d.DuplicateId?
      invariant forall id :: id in seen <==> id in ids[..i]
      invariant forall id :: multiset(errors[|before|..])[DuplicateId(id)] == Repeats(ids[..i], id)
    {
      var next := modules[i].key.id;
      ghost var was := errors[|before|..];
      if next in seen {
        errors := errors + [DuplicateId(next)];
        assert errors[|before|..] == was + [DuplicateId(next)];
      } else {
        seen := seen + {next};
      }
      assert ids[..i + 1] == ids[..i] + [next];
      forall id
        ensures multiset(errors[|before|..])[DuplicateId(id)] == Repeats(ids[..i + 1], id)
      {
        OneMoreId(ids[..i], next, id);
      }
    }
    assert ids[..|modules|] == ids;
  }

  lemma NoRepeats()
    ensures forall id :: Repeats([], id) == 0
  {
  }
}
