/** The validator set of sigma/validation.py: building it from a configuration
    definition (`SigmaValidator.from_dict`) and running it over rules
    (`validate_rule`, `validate_rules`).

    Validator classes are an opaque type `C`; a registry maps identifiers to
    classes. What a validator reports for a rule and on finalization are supplied
    as functions. The set of validators has no defined iteration order in the
    source, so every operation that iterates it takes the order as a parameter
    `order` that enumerates the set. */
module Validation {
  import opened Results
  import opened SigmaRules

  /** The `SigmaConfigurationError`s `from_dict` raises, by the place that raises them. */
  datatype ConfigurationError =
      /** Removal ("-x") of a name that is not currently selected. */
    | RemoveNotSelected(name: string)
      /** Selected names that are not known validators; the source reports one of
          them, which one depends on set iteration order. */
    | UnknownSelected(names: set<string>)
      /** An exclusion or configuration entry naming an unknown validator. */
    | UnknownValidator(name: string)
      /** A configuration entry whose parameters are not a mapping. */
    | ConfigNotADict(name: string)

  /** The exclusions of one rule id: a single validator name or a list of names. */
  datatype ExclusionSpec = Single(name: string) | Several(names: seq<string>)

  /** A scalar configuration parameter (floating-point values are not modelled). */
  datatype Scalar = Str(s: string) | Int(i: int) | Bool(b: bool)

  /** The value of one configuration entry: a mapping of parameters, or anything else. */
  datatype ConfigValue = Params(params: map<string, Scalar>) | NotADict(value: Scalar)

  /** The definition `from_dict` reads; a missing key is an empty sequence. Mapping
      entries are kept in the order of the source dict. */
  datatype Definition = Definition(
    validators: seq<string>,
    exclusions: seq<(Option<string>, ExclusionSpec)>,
    config: seq<(string, ConfigValue)>)

  /** A configured validator set: the selected classes, the excluded classes per
      rule id, and the parameters per validator identifier. */
  datatype SigmaValidator<C> = SigmaValidator(
    validators: set<C>,
    exclusions: map<Option<string>, set<C>>,
    config: map<string, map<string, Scalar>>)

  /** The keys of a sequence of mapping entries are pairwise different, as the keys
      of a dict are. */
  predicate DistinctKeys<K(==), V>(entries: seq<(K, V)>) {
    forall i, j :: 0 <= i < j < |entries| ==> entries[i].0 != entries[j].0
  }

  // ---------------------------------------------------------------------------
  // Selecting validator names
  // ---------------------------------------------------------------------------

  const AllValidators: string := "all"

  predicate IsRemoval(v: string) {
    |v| > 0 && v[0] == '-'
  }

  /** One iteration of the selection loop. */
  function SelectStep(vs: set<string>, v: string, known: set<string>): Result<set<string>, ConfigurationError> {
    if v == AllValidators then Ok(known)
    else if IsRemoval(v) then
      if v[1..] in vs then Ok(vs - {v[1..]}) else Err(RemoveNotSelected(v[1..]))
    else Ok(vs + {v})
  }

  /** The selection loop from the selection `vs`: a left fold of `SelectStep` that
      stops at the first error. Only a removal can fail, and the error names a
      removed name. */
  function SelectFrom(vs: set<string>, entries: seq<string>, known: set<string>)
    : (r: Result<set<string>, ConfigurationError>)
    ensures (forall i :: 0 <= i < |entries| ==> !IsRemoval(entries[i])) ==> r.Ok?
    ensures r.Err? ==> r.error.RemoveNotSelected?
    ensures r.Err? ==> exists i :: 0 <= i < |entries| && IsRemoval(entries[i]) && entries[i][1..] == r.error.name
    decreases |entries|
  {
    if |entries| == 0 then Ok(vs)
    else
      var vs' :- SelectStep(vs, entries[0], known);
      SelectFrom(vs', entries[1..], known)
  }

  /** Entry `v` puts `x` into the selection. */
  predicate Selects(v: string, x: string, known: set<string>) {
    if v == AllValidators then x in known else !IsRemoval(v) && v == x
  }

  /** Entry `v` takes `x` out of the selection. */
  predicate Deselects(v: string, x: string, known: set<string>) {
    if v == AllValidators then x !in known else IsRemoval(v) && v[1..] == x
  }

  /** Reference definition of the selection: `x` is selected after the entries when
      it was selected at the start or by some entry, and no later entry took it out. */
  ghost predicate SelectedAfter(vs: set<string>, entries: seq<string>, x: string, known: set<string>) {
    || (x in vs && forall j :: 0 <= j < |entries| ==> !Deselects(entries[j], x, known))
    || exists i :: 0 <= i < |entries| && Selects(entries[i], x, known)
                   && forall j :: i < j < |entries| ==> !Deselects(entries[j], x, known)
  }

  /** A successful selection holds exactly the names the reference definition selects. */
  lemma {:induction false} SelectionMembership(vs: set<string>, entries: seq<string>, known: set<string>, x: string)
    requires SelectFrom(vs, entries, known).Ok?
    ensures x in SelectFrom(vs, entries, known).value <==> SelectedAfter(vs, entries, x, known)
    decreases |entries|
  {
    if |entries| != 0 {
      var v := entries[0];
      var rest := entries[1..];
      var vs' := SelectStep(vs, v, known).value;
      assert SelectFrom(vs, entries, known) == SelectFrom(vs', rest, known);
      SelectionMembership(vs', rest, known, x);
      assert forall j :: 1 <= j < |entries| ==> entries[j] == rest[j - 1];
      if SelectedAfter(vs', rest, x, known) {
        if x in vs' && forall j :: 0 <= j < |rest| ==> !Deselects(rest[j], x, known) {
          if Selects(v, x, known) {
            assert Selects(entries[0], x, known);
          } else {
            assert x in vs && !Deselects(v, x, known);
            assert forall j :: 0 <= j < |entries| ==> !Deselects(entries[j], x, known);
          }
        } else {
          var i :| 0 <= i < |rest| && Selects(rest[i], x, known)
                   && forall j :: i < j < |rest| ==> !Deselects(rest[j], x, known);
          assert Selects(entries[i + 1], x, known);
        }
      }
      if SelectedAfter(vs, entries, x, known) {
        if x in vs && forall j :: 0 <= j < |entries| ==> !Deselects(entries[j], x, known) {
          assert !Deselects(v, x, known);
          assert x in vs';
        } else {
          var i :| 0 <= i < |entries| && Selects(entries[i], x, known)
                   && forall j :: i < j < |entries| ==> !Deselects(entries[j], x, known);
          if i == 0 {
            assert x in vs';
          } else {
            assert Selects(rest[i - 1], x, known);
          }
        }
      }
    }
  }

  /** The fold over a concatenation is the fold over the second part, started from
      the result of the first. */
  lemma {:induction false} SelectAppend(vs: set<string>, a: seq<string>, b: seq<string>, known: set<string>)
    ensures SelectFrom(vs, a + b, known)
            == match SelectFrom(vs, a, known)
               case Err(e) => Err(e)
               case Ok(vs') => SelectFrom(vs', b, known)
    decreases |a|
  {
    if |a| == 0 {
      assert a + b == b;
    } else {
      assert (a + b)[0] == a[0];
      assert (a + b)[1..] == a[1..] + b;
      match SelectStep(vs, a[0], known)
      case Err(e) =>
      case Ok(vs') => SelectAppend(vs', a[1..], b, known);
    }
  }

  /** The entry "all" replaces the selection with all known names: earlier entries
      no longer matter once they succeeded. */
  lemma AllDiscardsEarlierEntries(vs: set<string>, a: seq<string>, b: seq<string>, known: set<string>)
    requires SelectFrom(vs, a, known).Ok?
    ensures SelectFrom(vs, a + [AllValidators] + b, known) == SelectFrom(known, b, known)
  {
    assert a + [AllValidators] + b == a + ([AllValidators] + b);
    SelectAppend(vs, a, [AllValidators] + b, known);
    assert ([AllValidators] + b)[1..] == b;
  }

  /** Removing a name that is not selected at that point fails, whatever follows. */
  lemma RemovingUnselectedFails(vs: set<string>, a: seq<string>, x: string, b: seq<string>, known: set<string>)
    requires SelectFrom(vs, a, known).Ok? && x !in SelectFrom(vs, a, known).value
    ensures SelectFrom(vs, a + ["-" + x] + b, known) == Err(RemoveNotSelected(x))
  {
    assert a + ["-" + x] + b == a + (["-" + x] + b);
    SelectAppend(vs, a, ["-" + x] + b, known);
    assert (["-" + x] + b)[0] == "-" + x;
    assert ("-" + x)[1..] == x;
  }

  /** Removing a name that is selected at that point succeeds: the fold goes on from
      the selection without that name. */
  lemma RemovingSelectedSucceeds(vs: set<string>, a: seq<string>, x: string, b: seq<string>, known: set<string>)
    requires SelectFrom(vs, a, known).Ok? && x in SelectFrom(vs, a, known).value
    ensures SelectFrom(vs, a + ["-" + x] + b, known) == SelectFrom(SelectFrom(vs, a, known).value - {x}, b, known)
  {
    assert a + ["-" + x] + b == a + (["-" + x] + b);
    SelectAppend(vs, a, ["-" + x] + b, known);
    assert (["-" + x] + b)[0] == "-" + x;
    assert (["-" + x] + b)[1..] == b;
    assert ("-" + x)[1..] == x;
    var vs' := SelectFrom(vs, a, known).value;
    assert ("-" + x)[0] == '-' != AllValidators[0];
    assert SelectStep(vs', "-" + x, known) == Ok(vs' - {x});
    assert SelectFrom(vs', ["-" + x] + b, known) == SelectFrom(vs' - {x}, b, known);
  }

  /** A list that starts with a removal always fails. */
  lemma LeadingRemovalFails(x: string, rest: seq<string>, known: set<string>)
    ensures SelectFrom({}, ["-" + x] + rest, known) == Err(RemoveNotSelected(x))
  {
    RemovingUnselectedFails({}, [], x, rest, known);
    assert [] + ["-" + x] + rest == ["-" + x] + rest;
  }

  /** Adding the same name twice in a row is the same as adding it once. */
  lemma AddIsIdempotent(vs: set<string>, a: seq<string>, x: string, b: seq<string>, known: set<string>)
    requires x != AllValidators && !IsRemoval(x)
    ensures SelectFrom(vs, a + [x, x] + b, known) == SelectFrom(vs, a + [x] + b, known)
  {
    assert a + [x, x] + b == a + ([x, x] + b);
    assert a + [x] + b == a + ([x] + b);
    SelectAppend(vs, a, [x, x] + b, known);
    SelectAppend(vs, a, [x] + b, known);
    if SelectFrom(vs, a, known).Ok? {
      var vs' := SelectFrom(vs, a, known).value;
      assert ([x, x] + b)[1..] == [x] + b;
      assert ([x] + b)[1..] == b;
      assert vs' + {x} + {x} == vs' + {x};
    }
  }

  // ---------------------------------------------------------------------------
  // Resolving names into classes
  // ---------------------------------------------------------------------------

  lemma NotSubsetLeavesMissing<T>(a: set<T>, b: set<T>)
    requires !(a <= b)
    ensures a - b != {}
  {
    var x :| x in a && x !in b;
    assert x in a - b;
  }

  /** Converting the selected names into classes: every name must be known. */
  function ResolveValidators<C(==,!new)>(names: set<string>, registry: map<string, C>)
    : (r: Result<set<C>, ConfigurationError>)
    ensures r.Ok? <==> names <= registry.Keys
    ensures r.Ok? ==> forall c :: c in r.value <==> exists n :: n in names && n in registry && registry[n] == c
    ensures r.Err? ==> r.error == UnknownSelected(names - registry.Keys) && r.error.names != {}
  {
    if names <= registry.Keys then Ok(set n | n in names :: registry[n])
    else
      NotSubsetLeavesMissing(names, registry.Keys);
      Err(UnknownSelected(names - registry.Keys))
  }

  /** A single excluded name is treated as a one-element list. */
  function ExclusionNames(spec: ExclusionSpec): seq<string> {
    match spec
    case Single(n) => [n]
    case Several(ns) => ns
  }

  /** The classes of a list of names, failing on the first unknown name in list order. */
  function ResolveNames<C(==,!new)>(names: seq<string>, registry: map<string, C>)
    : (r: Result<set<C>, ConfigurationError>)
    ensures r.Ok? <==> forall k :: 0 <= k < |names| ==> names[k] in registry
    ensures r.Ok? ==> forall c :: c in r.value <==>
              exists k :: 0 <= k < |names| && names[k] in registry && registry[names[k]] == c
    ensures r.Err? ==> exists k :: 0 <= k < |names| && names[k] !in registry
                                   && r.error == UnknownValidator(names[k])
                                   && forall j :: 0 <= j < k ==> names[j] in registry
  {
    if |names| == 0 then Ok({})
    else if names[0] !in registry then Err(UnknownValidator(names[0]))
    else
      var rest :- ResolveNames(names[1..], registry);
      assert forall k :: 1 <= k < |names| ==> names[k] == names[1..][k - 1];
      Ok({registry[names[0]]} + rest)
  }

  /** The exclusion dict: per rule id, the classes of the excluded names. */
  function ResolveExclusions<C(==,!new)>(entries: seq<(Option<string>, ExclusionSpec)>, registry: map<string, C>)
    : (r: Result<map<Option<string>, set<C>>, ConfigurationError>)
    requires DistinctKeys(entries)
    ensures r.Ok? <==> forall k, n :: 0 <= k < |entries| && n in ExclusionNames(entries[k].1) ==> n in registry
    ensures r.Ok? ==> forall id :: id in r.value <==> exists k :: 0 <= k < |entries| && entries[k].0 == id
    ensures r.Ok? ==> forall k, c :: 0 <= k < |entries| ==>
              (c in r.value[entries[k].0] <==>
               exists n :: n in ExclusionNames(entries[k].1) && n in registry && registry[n] == c)
  {
    if |entries| == 0 then Ok(map[])
    else
      var names := ExclusionNames(entries[0].1);
      var classes := ResolveNames(names, registry);
      if classes.Err? then Err(classes.error)
      else
        var rest := ResolveExclusions(entries[1..], registry);
        assert forall k :: 1 <= k < |entries| ==> entries[k] == entries[1..][k - 1];
        if rest.Err? then Err(rest.error)
        else
          ResolveNamesByName(names, registry);
          Ok(rest.value[entries[0].0 := classes.value])
  }

  /** An unknown exclusion name is reported at the first entry that has one, and within
      that entry at the first unknown name in list order. */
  lemma {:induction false} ResolveExclusionsFirstUnknown<C(!new)>(
    entries: seq<(Option<string>, ExclusionSpec)>, registry: map<string, C>)
    requires DistinctKeys(entries)
    requires ResolveExclusions(entries, registry).Err?
    ensures var e := ResolveExclusions(entries, registry).error;
            exists k :: (
              && 0 <= k < |entries|
              && (forall j, n :: 0 <= j < k && n in ExclusionNames(entries[j].1) ==> n in registry)
              && ResolveNames(ExclusionNames(entries[k].1), registry) == Err(e))
  {
    var e := ResolveExclusions(entries, registry).error;
    var names := ExclusionNames(entries[0].1);
    if ResolveNames(names, registry).Err? {
      assert ResolveNames(ExclusionNames(entries[0].1), registry) == Err(e);
    } else {
      var rest := entries[1..];
      assert ResolveExclusions(rest, registry) == Err(e);
      ResolveExclusionsFirstUnknown(rest, registry);
      var k :| && 0 <= k < |rest|
               && (forall j, n :: 0 <= j < k && n in ExclusionNames(rest[j].1) ==> n in registry)
               && ResolveNames(ExclusionNames(rest[k].1), registry) == Err(e);
      assert rest[k] == entries[k + 1];
      forall j, n | 0 <= j < k + 1 && n in ExclusionNames(entries[j].1)
        ensures n in registry
      {
        if j == 0 {
          var i :| 0 <= i < |names| && names[i] == n;
        } else {
          assert entries[j] == rest[j - 1];
        }
      }
    }
  }

  /** The classes of a list of known names, stated per name rather than per index. */
  lemma ResolveNamesByName<C(!new)>(names: seq<string>, registry: map<string, C>)
    requires ResolveNames(names, registry).Ok?
    ensures forall c :: c in ResolveNames(names, registry).value <==>
              exists n :: n in names && n in registry && registry[n] == c
  {
    forall c | c in ResolveNames(names, registry).value
      ensures exists n :: n in names && n in registry && registry[n] == c
    {
      var k :| 0 <= k < |names| && names[k] in registry && registry[names[k]] == c;
      assert names[k] in names;
    }
  }


  /** The configuration dict: parameters per known validator name, passed through. */
  function ResolveConfig<C(==,!new)>(entries: seq<(string, ConfigValue)>, registry: map<string, C>)
    : (r: Result<map<string, map<string, Scalar>>, ConfigurationError>)
    requires DistinctKeys(entries)
    ensures r.Ok? <==> forall k :: 0 <= k < |entries| ==> entries[k].0 in registry && entries[k].1.Params?
    ensures r.Ok? ==> forall name :: name in r.value <==> exists k :: 0 <= k < |entries| && entries[k].0 == name
    ensures r.Ok? ==> forall k :: 0 <= k < |entries| ==> r.value[entries[k].0] == entries[k].1.params
    ensures r.Err? ==> exists k :: (
              && 0 <= k < |entries|
              && (forall j :: 0 <= j < k ==> entries[j].0 in registry && entries[j].1.Params?)
              && if entries[k].0 !in registry then r.error == UnknownValidator(entries[k].0)
                 else entries[k].1.NotADict? && r.error == ConfigNotADict(entries[k].0))
  {
    if |entries| == 0 then Ok(map[])
    else
      var (name, value) := entries[0];
      if name !in registry then Err(UnknownValidator(name))
      else if value.NotADict? then Err(ConfigNotADict(name))
      else
        var rest :- ResolveConfig(entries[1..], registry);
        assert forall k :: 1 <= k < |entries| ==> entries[k] == entries[1..][k - 1];
        Ok(rest[name := value.params])
  }

  /** `SigmaValidator.from_dict`: select names, resolve them, then the exclusions,
      then the configuration; the first failing step decides the error. */
  function FromDict<C(==,!new)>(d: Definition, registry: map<string, C>): (r: Result<SigmaValidator<C>, ConfigurationError>)
    requires DistinctKeys(d.exclusions) && DistinctKeys(d.config)
    ensures r.Ok? <==>
              && SelectFrom({}, d.validators, registry.Keys).Ok?
              && SelectFrom({}, d.validators, registry.Keys).value <= registry.Keys
              && (forall k, n :: 0 <= k < |d.exclusions| && n in ExclusionNames(d.exclusions[k].1) ==> n in registry)
              && (forall k :: 0 <= k < |d.config| ==> d.config[k].0 in registry && d.config[k].1.Params?)
    ensures SelectFrom({}, d.validators, registry.Keys).Err? ==> r == Err(SelectFrom({}, d.validators, registry.Keys).error)
    ensures SelectFrom({}, d.validators, registry.Keys).Ok? ==>
              var names := SelectFrom({}, d.validators, registry.Keys).value;
              && (ResolveValidators(names, registry).Err? ==> r == Err(ResolveValidators(names, registry).error))
              && (ResolveValidators(names, registry).Ok? && ResolveExclusions(d.exclusions, registry).Err? ==>
                    r == Err(ResolveExclusions(d.exclusions, registry).error))
              && ((ResolveValidators(names, registry).Ok? && ResolveExclusions(d.exclusions, registry).Ok?
                   && ResolveConfig(d.config, registry).Err?)
                  ==> r == Err(ResolveConfig(d.config, registry).error))
    ensures r.Ok? ==> ResolveExclusions(d.exclusions, registry) == Ok(r.value.exclusions)
    ensures r.Ok? ==> ResolveConfig(d.config, registry) == Ok(r.value.config)
  {
    var names :- SelectFrom({}, d.validators, registry.Keys);
    var classes :- ResolveValidators(names, registry);
    var exclusions :- ResolveExclusions(d.exclusions, registry);
    var config :- ResolveConfig(d.config, registry);
    Ok(SigmaValidator(classes, exclusions, config))
  }

  /** The classes of a configured validator set are those of the names the reference
      definition selects. */
  lemma FromDictValidators<C(!new)>(d: Definition, registry: map<string, C>, c: C)
    requires DistinctKeys(d.exclusions) && DistinctKeys(d.config)
    requires FromDict(d, registry).Ok?
    ensures c in FromDict(d, registry).value.validators <==>
              exists n :: SelectedAfter({}, d.validators, n, registry.Keys) && n in registry && registry[n] == c
  {
    var names := SelectFrom({}, d.validators, registry.Keys).value;
    forall n {
      SelectionMembership({}, d.validators, registry.Keys, n);
    }
    assert FromDict(d, registry).value.validators == ResolveValidators(names, registry).value;
  }

  /** A definition whose validator list starts with a removal is rejected, whatever
      its exclusions and configuration. */
  lemma FromDictLeadingRemovalFails<C(!new)>(d: Definition, registry: map<string, C>, x: string)
    requires DistinctKeys(d.exclusions) && DistinctKeys(d.config)
    requires |d.validators| > 0 && d.validators[0] == "-" + x
    ensures FromDict(d, registry) == Err(RemoveNotSelected(x))
  {
    assert d.validators == ["-" + x] + d.validators[1..];
    LeadingRemovalFails(x, d.validators[1..], registry.Keys);
  }

  /** The definition that lists only "all" selects every registered class, with no
      exclusions and no configuration. */
  lemma AllSelectsEveryRegisteredClass<C(!new)>(registry: map<string, C>)
    ensures FromDict(Definition([AllValidators], [], []), registry)
            == Ok(SigmaValidator(registry.Values, map[], map[]))
  {
    var d := Definition([AllValidators], [], []);
    assert SelectFrom({}, d.validators, registry.Keys) == Ok(registry.Keys);
    var classes := ResolveValidators(registry.Keys, registry).value;
    assert classes == registry.Values by {
      forall c | c in registry.Values
        ensures c in classes
      {
        var n :| n in registry && registry[n] == c;
      }
    }
  }

  // ---------------------------------------------------------------------------
  // Running validators over rules
  // ---------------------------------------------------------------------------

  /** `order` lists every element of `s` exactly once. */
  predicate Enumerates<C(==,!new)>(order: seq<C>, s: set<C>) {
    && (forall i, j :: 0 <= i < j < |order| ==> order[i] != order[j])
    && (forall c :: c in s ==> c in order)
    && (forall i :: 0 <= i < |order| ==> order[i] in s)
  }

  /** The classes excluded for a rule id; an id without an entry excludes nothing. */
  function Exclusions<C(==,!new)>(v: SigmaValidator<C>, id: Option<string>): set<C> {
    if id in v.exclusions then v.exclusions[id] else {}
  }

  /** What one validator adds to a rule's issues. */
  function Contribution<C(==,!new), I(==,!new)>(c: C, excluded: set<C>, run: (C, Rule) -> seq<I>, rule: Rule): seq<I> {
    if c in excluded then [] else run(c, rule)
  }

  /** The loop of `validate_rule` over the validators in iteration order. */
  function RunValidators<C(==,!new), I(==,!new)>(order: seq<C>, excluded: set<C>, run: (C, Rule) -> seq<I>, rule: Rule): seq<I> {
    if |order| == 0 then []
    else Contribution(order[0], excluded, run, rule) + RunValidators(order[1..], excluded, run, rule)
  }

  lemma {:induction false} RunValidatorsAppend<C(!new), I(!new)>(
    a: seq<C>, b: seq<C>, excluded: set<C>, run: (C, Rule) -> seq<I>, rule: Rule)
    ensures RunValidators(a + b, excluded, run, rule)
            == RunValidators(a, excluded, run, rule) + RunValidators(b, excluded, run, rule)
  {
    if |a| == 0 {
      assert a + b == b;
    } else {
      assert (a + b)[0] == a[0];
      assert (a + b)[1..] == a[1..] + b;
      RunValidatorsAppend(a[1..], b, excluded, run, rule);
    }
  }

  /** Every issue comes from a validator of the order that is not excluded, and each
      such validator's issues are all included. */
  lemma {:induction false} RunValidatorsContents<C(!new), I(!new)>(
    order: seq<C>, excluded: set<C>, run: (C, Rule) -> seq<I>, rule: Rule)
    ensures forall i :: i in RunValidators(order, excluded, run, rule) ==>
              exists c :: c in order && c !in excluded && i in run(c, rule)
    ensures forall c :: c in order && c !in excluded ==>
              multiset(run(c, rule)) <= multiset(RunValidators(order, excluded, run, rule))
  {
    if |order| != 0 {
      RunValidatorsContents(order[1..], excluded, run, rule);
      var head := Contribution(order[0], excluded, run, rule);
      var tail := RunValidators(order[1..], excluded, run, rule);
      assert RunValidators(order, excluded, run, rule) == head + tail;
      assert multiset(head + tail) == multiset(head) + multiset(tail);
      forall i | i in head + tail
        ensures exists c :: c in order && c !in excluded && i in run(c, rule)
      {
        if i in head {
          assert order[0] in order;
        } else {
          var c :| c in order[1..] && c !in excluded && i in run(c, rule);
          assert c in order;
        }
      }
      forall c | c in order && c !in excluded
        ensures multiset(run(c, rule)) <= multiset(head + tail)
      {
        if c != order[0] {
          assert c in order[1..];
        }
      }
    }
  }

  /** Taking the element at `k` out of a duplicate-free order leaves a duplicate-free
      order of the other elements. */
  lemma RemoveAt<C(!new)>(o: seq<C>, k: nat)
    requires k < |o|
    requires forall i, j :: 0 <= i < j < |o| ==> o[i] != o[j]
    ensures var o' := o[..k] + o[k + 1..];
            && (forall i, j :: 0 <= i < j < |o'| ==> o'[i] != o'[j])
            && (forall d :: d in o' <==> d in o && d != o[k])
  {
    var o' := o[..k] + o[k + 1..];
    assert forall i :: 0 <= i < |o'| ==> o'[i] == o[if i < k then i else i + 1];
    forall d | d in o && d != o[k]
      ensures d in o'
    {
      var j :| 0 <= j < |o| && o[j] == d;
      assert o'[if j < k then j else j - 1] == d;
    }
  }

  /** The issues of an order, up to order, are the issues of the validator at `k`
      together with those of the rest of the order. */
  lemma RunValidatorsRemoveAt<C(!new), I(!new)>(
    o: seq<C>, k: nat, excluded: set<C>, run: (C, Rule) -> seq<I>, rule: Rule)
    requires k < |o|
    ensures multiset(RunValidators(o, excluded, run, rule))
            == multiset(Contribution(o[k], excluded, run, rule))
               + multiset(RunValidators(o[..k] + o[k + 1..], excluded, run, rule))
  {
    assert o == o[..k] + [o[k]] + o[k + 1..];
    RunValidatorsAppend(o[..k] + [o[k]], o[k + 1..], excluded, run, rule);
    RunValidatorsAppend(o[..k], [o[k]], excluded, run, rule);
    RunValidatorsAppend(o[..k], o[k + 1..], excluded, run, rule);
    assert RunValidators([o[k]], excluded, run, rule) == Contribution(o[k], excluded, run, rule);
  }

  /** Two duplicate-free orders of the same validators give the same issues up to
      order. */
  lemma {:induction false} RunValidatorsPermutation<C(!new), I(!new)>(
    o1: seq<C>, o2: seq<C>, excluded: set<C>, run: (C, Rule) -> seq<I>, rule: Rule)
    requires forall i, j :: 0 <= i < j < |o1| ==> o1[i] != o1[j]
    requires forall i, j :: 0 <= i < j < |o2| ==> o2[i] != o2[j]
    requires forall c :: c in o1 <==> c in o2
    ensures multiset(RunValidators(o1, excluded, run, rule)) == multiset(RunValidators(o2, excluded, run, rule))
    decreases |o1|
  {
    if |o1| == 0 {
      assert forall x :: x in multiset(o2) ==> x in o1;
      assert multiset(o2) == multiset{};
    } else {
      var c := o1[0];
      assert c in o2;
      var k :| 0 <= k < |o2| && o2[k] == c;
      RemoveAt(o1, 0);
      RemoveAt(o2, k);
      assert o1[..0] + o1[1..] == o1[1..];
      RunValidatorsRemoveAt(o2, k, excluded, run, rule);
      RunValidatorsPermutation(o1[1..], o2[..k] + o2[k + 1..], excluded, run, rule);
    }
  }

  /** The issues of a set of validators independently of any iteration order: the
      multiset union of what each member yields. */
  ghost function SetIssues<C(!new), I(!new)>(s: set<C>, f: C -> seq<I>): multiset<I>
    decreases s
  {
    if s == {} then multiset{}
    else
      var c :| c in s;
      multiset(f(c)) + SetIssues(s - {c}, f)
  }

  /** Any member of the set may be taken out first. */
  lemma {:induction false} SetIssuesRemove<C(!new), I(!new)>(s: set<C>, f: C -> seq<I>, c: C)
    requires c in s
    ensures SetIssues(s, f) == multiset(f(c)) + SetIssues(s - {c}, f)
    decreases s
  {
    var d :| d in s && SetIssues(s, f) == multiset(f(d)) + SetIssues(s - {d}, f);
    if d != c {
      SetIssuesRemove(s - {d}, f, c);
      SetIssuesRemove(s - {c}, f, d);
      assert s - {d} - {c} == s - {c} - {d};
    }
  }

  /** An issue is in the union exactly when some member yields it. */
  lemma {:induction false} SetIssuesMembers<C(!new), I(!new)>(s: set<C>, f: C -> seq<I>, i: I)
    ensures i in SetIssues(s, f) <==> exists c :: c in s && i in f(c)
    decreases s
  {
    if s != {} {
      var d :| d in s && SetIssues(s, f) == multiset(f(d)) + SetIssues(s - {d}, f);
      SetIssuesMembers(s - {d}, f, i);
      if exists c :: c in s && i in f(c) {
        var c :| c in s && i in f(c);
        if c != d {
          assert c in s - {d};
        }
      }
    }
  }

  /** The issues of an order of validators, taken as a multiset, are the union over
      the set of its members that are not excluded. */
  lemma {:induction false} RunValidatorsSetIssues<C(!new), I(!new)>(
    o: seq<C>, excluded: set<C>, run: (C, Rule) -> seq<I>, rule: Rule)
    requires forall i, j :: 0 <= i < j < |o| ==> o[i] != o[j]
    ensures multiset(RunValidators(o, excluded, run, rule))
            == SetIssues((set c | c in o && c !in excluded), RunOn(run, rule))
  {
    var s := set c | c in o && c !in excluded;
    if |o| == 0 {
      assert s == {};
    } else {
      var rest := o[1..];
      var s' := set c | c in rest && c !in excluded;
      assert forall j :: 0 <= j < |rest| ==> rest[j] == o[j + 1];
      assert o[0] !in rest;
      RunValidatorsSetIssues(rest, excluded, run, rule);
      assert multiset(RunValidators(o, excluded, run, rule))
             == multiset(Contribution(o[0], excluded, run, rule)) + multiset(RunValidators(rest, excluded, run, rule));
      if o[0] in excluded {
        assert s == s';
      } else {
        assert s - {o[0]} == s';
        SetIssuesRemove(s, RunOn(run, rule), o[0]);
      }
    }
  }

  /** `validator.validate` bound to one rule. */
  function RunOn<C, I>(run: (C, Rule) -> seq<I>, rule: Rule): C -> seq<I> {
    c => run(c, rule)
  }

  /** `validate_rule`: the issues of every validator not excluded for the rule's id,
      concatenated in iteration order. */
  function ValidateRule<C(==,!new), I(==,!new)>(v: SigmaValidator<C>, order: seq<C>, run: (C, Rule) -> seq<I>, rule: Rule)
    : (r: seq<I>)
    requires Enumerates(order, v.validators)
    ensures forall i :: i in r ==>
              exists c :: c in v.validators && c !in Exclusions(v, rule.id) && i in run(c, rule)
    ensures forall c :: c in v.validators && c !in Exclusions(v, rule.id) ==>
              multiset(run(c, rule)) <= multiset(r)
    ensures multiset(r) == SetIssues(v.validators - Exclusions(v, rule.id), RunOn(run, rule))
  {
    RunValidatorsContents(order, Exclusions(v, rule.id), run, rule);
    RunValidatorsSetIssues(order, Exclusions(v, rule.id), run, rule);
    assert (set c | c in order && c !in Exclusions(v, rule.id)) == v.validators - Exclusions(v, rule.id);
    RunValidators(order, Exclusions(v, rule.id), run, rule)
  }

  /** The iteration order of the validator set changes only the order of the issues. */
  lemma ValidateRuleOrderIrrelevant<C(!new), I(!new)>(
    v: SigmaValidator<C>, o1: seq<C>, o2: seq<C>, run: (C, Rule) -> seq<I>, rule: Rule)
    requires Enumerates(o1, v.validators) && Enumerates(o2, v.validators)
    ensures multiset(ValidateRule(v, o1, run, rule)) == multiset(ValidateRule(v, o2, run, rule))
  {
    RunValidatorsPermutation(o1, o2, Exclusions(v, rule.id), run, rule);
  }

  /** A rule id without an exclusion entry excludes nothing: every validator's issues
      are included. */
  lemma UnlistedRuleExcludesNothing<C(!new), I(!new)>(
    v: SigmaValidator<C>, order: seq<C>, run: (C, Rule) -> seq<I>, rule: Rule)
    requires Enumerates(order, v.validators)
    requires rule.id !in v.exclusions
    ensures forall c :: c in v.validators ==> multiset(run(c, rule)) <= multiset(ValidateRule(v, order, run, rule))
  {
  }

  /** The finalization issues of the validators in `o`, in that order. */
  function Gather<C, I>(o: seq<C>, fin: C -> seq<I>): seq<I> {
    if |o| == 0 then [] else fin(o[0]) + Gather(o[1..], fin)
  }

  /** Taken as a multiset, gathering over a duplicate-free order is the union over
      the set of its members. */
  lemma {:induction false} GatherSetIssues<C(!new), I(!new)>(o: seq<C>, fin: C -> seq<I>)
    requires forall i, j :: 0 <= i < j < |o| ==> o[i] != o[j]
    ensures multiset(Gather(o, fin)) == SetIssues((set c | c in o), fin)
  {
    var s := set c | c in o;
    if |o| == 0 {
      assert s == {};
    } else {
      var rest := o[1..];
      assert forall j :: 0 <= j < |rest| ==> rest[j] == o[j + 1];
      assert o[0] !in rest;
      GatherSetIssues(rest, fin);
      assert s - {o[0]} == set c | c in rest;
      SetIssuesRemove(s, fin, o[0]);
    }
  }

  /** `finalize`: the finalization issues of every validator in iteration order. */
  function Finalize<C(==,!new), I(==,!new)>(v: SigmaValidator<C>, order: seq<C>, fin: C -> seq<I>): (r: seq<I>)
    requires Enumerates(order, v.validators)
    ensures multiset(r) == SetIssues(v.validators, fin)
    ensures forall i :: i in r <==> exists c :: c in v.validators && i in fin(c)
    ensures forall c :: c in v.validators ==> multiset(fin(c)) <= multiset(r)
  {
    var g := Gather(order, fin);
    GatherSetIssues(order, fin);
    assert (set c | c in order) == v.validators;
    forall i
      ensures i in g <==> exists c :: c in v.validators && i in fin(c)
    {
      SetIssuesMembers(v.validators, fin, i);
      assert i in g <==> i in multiset(g);
    }
    forall c | c in v.validators {
      SetIssuesRemove(v.validators, fin, c);
    }
    g
  }

  /** The iteration order of the validator set changes only the order of the
      finalization issues. */
  lemma FinalizeOrderIrrelevant<C(!new), I(!new)>(
    v: SigmaValidator<C>, o1: seq<C>, o2: seq<C>, fin: C -> seq<I>)
    requires Enumerates(o1, v.validators) && Enumerates(o2, v.validators)
    ensures multiset(Finalize(v, o1, fin)) == multiset(Finalize(v, o2, fin))
  {
  }

  /** The per-rule issues of a rule sequence, concatenated in rule order. */
  function RulesIssues<C(==,!new), I(==,!new)>(v: SigmaValidator<C>, order: seq<C>, run: (C, Rule) -> seq<I>, rules: seq<Rule>)
    : (r: seq<I>)
    requires Enumerates(order, v.validators)
    ensures forall i :: i in r <==> exists k :: 0 <= k < |rules| && i in ValidateRule(v, order, run, rules[k])
  {
    if |rules| == 0 then []
    else
      var head := ValidateRule(v, order, run, rules[0]);
      var tail := RulesIssues(v, order, run, rules[1..]);
      assert forall k :: 1 <= k < |rules| ==> rules[k] == rules[1..][k - 1];
      head + tail
  }

  /** A single rule contributes exactly its own `validate_rule` issues. */
  lemma RulesIssuesOne<C(!new), I(!new)>(v: SigmaValidator<C>, order: seq<C>, run: (C, Rule) -> seq<I>, rule: Rule)
    requires Enumerates(order, v.validators)
    ensures RulesIssues(v, order, run, [rule]) == ValidateRule(v, order, run, rule)
  {
    assert [rule][1..] == [];
  }

  lemma {:induction false} RulesIssuesAppend<C(!new), I(!new)>(
    v: SigmaValidator<C>, order: seq<C>, run: (C, Rule) -> seq<I>, a: seq<Rule>, b: seq<Rule>)
    requires Enumerates(order, v.validators)
    ensures RulesIssues(v, order, run, a + b) == RulesIssues(v, order, run, a) + RulesIssues(v, order, run, b)
  {
    if |a| == 0 {
      assert a + b == b;
    } else {
      assert (a + b)[0] == a[0];
      assert (a + b)[1..] == a[1..] + b;
      RulesIssuesAppend(v, order, run, a[1..], b);
    }
  }

  /** `validate_rules`: the issues of every rule in order, then the finalization issues. */
  function ValidateRules<C(==,!new), I(==,!new)>(
    v: SigmaValidator<C>, order: seq<C>, run: (C, Rule) -> seq<I>, fin: C -> seq<I>, rules: seq<Rule>)
    : (r: seq<I>)
    requires Enumerates(order, v.validators)
    ensures forall i :: i in r <==>
              || (exists k :: 0 <= k < |rules| && i in ValidateRule(v, order, run, rules[k]))
              || (exists c :: c in v.validators && i in fin(c))
    ensures multiset(r) == multiset(RulesIssues(v, order, run, rules)) + SetIssues(v.validators, fin)
    ensures |r| >= |RulesIssues(v, order, run, rules)|
    ensures r[..|RulesIssues(v, order, run, rules)|] == RulesIssues(v, order, run, rules)
    ensures multiset(r[|RulesIssues(v, order, run, rules)|..]) == SetIssues(v.validators, fin)
  {
    var issues := RulesIssues(v, order, run, rules);
    var r := issues + Finalize(v, order, fin);
    assert r[..|issues|] == issues && r[|issues|..] == Finalize(v, order, fin);
    r
  }

  /** The iteration order of the validator set does not change the per-rule issues
      up to order. */
  lemma {:induction false} RulesIssuesOrderIrrelevant<C(!new), I(!new)>(
    v: SigmaValidator<C>, o1: seq<C>, o2: seq<C>, run: (C, Rule) -> seq<I>, rules: seq<Rule>)
    requires Enumerates(o1, v.validators) && Enumerates(o2, v.validators)
    ensures multiset(RulesIssues(v, o1, run, rules)) == multiset(RulesIssues(v, o2, run, rules))
  {
    if |rules| != 0 {
      RulesIssuesOrderIrrelevant(v, o1, o2, run, rules[1..]);
      assert RulesIssues(v, o1, run, rules)
             == ValidateRule(v, o1, run, rules[0]) + RulesIssues(v, o1, run, rules[1..]);
      assert RulesIssues(v, o2, run, rules)
             == ValidateRule(v, o2, run, rules[0]) + RulesIssues(v, o2, run, rules[1..]);
    }
  }

  /** The iteration order of the validator set changes only the order of the issues
      of `validate_rules`. */
  lemma ValidateRulesOrderIrrelevant<C(!new), I(!new)>(
    v: SigmaValidator<C>, o1: seq<C>, o2: seq<C>, run: (C, Rule) -> seq<I>, fin: C -> seq<I>, rules: seq<Rule>)
    requires Enumerates(o1, v.validators) && Enumerates(o2, v.validators)
    ensures multiset(ValidateRules(v, o1, run, fin, rules)) == multiset(ValidateRules(v, o2, run, fin, rules))
  {
    RulesIssuesOrderIrrelevant(v, o1, o2, run, rules);
  }
}
