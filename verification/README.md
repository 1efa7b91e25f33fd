# pySigma rule validators: log-source checks and the validator set

This project is a Dafny model of two parts of pySigma's rule-linting logic,
with proofs about them.

- **Log-source validators** (`sigma/validators/core/logsources.py`):
  - The static knowledge base maps a specific log source to an event-id table. The sysmon key (product `windows`, service `sysmon`) has an event-id-to-generic-category table, and the security key has `4688 → process_creation`.
  - `SpecificInsteadOfGenericLogsourceValidator` flags `EventID` values for which a generic log source exists.
  - `FieldnameLogsourceValidator` flags every custom log-source attribute.
- **The validator set** (`sigma/validation.py`):
  - `SigmaValidator.from_dict` folds the validator list into a set of names. `"all"` means every known name, `"-x"` removes `x`, and any other entry adds a name.
  - It then resolves names, exclusions and configuration, raising `SigmaConfigurationError` where the source does.
  - `validate_rule` runs every validator that is not excluded for the rule's id.
  - `validate_rules` concatenates the per-rule results and appends the finalization issues.

Everything is pure. `from_dict` returns a `Result` whose error side is a
`ConfigurationError`. The source raises `SigmaConfigurationError` at five places
(`sigma/validation.py` lines 69, 78, 94, 100 and 102), and the model has four
constructors for them. `RemoveNotSelected` is line 69, `UnknownSelected` is line 78,
and `ConfigNotADict` is line 102. `UnknownValidator` serves both line 94, an unknown
exclusion name, and line 100, an unknown config entry, because both raise the same
message for a single unknown name. The matched key and
event-id table are an explicit `MatchContext` value, not mutable validator state.

Files and modules:

| file | module | models |
|---|---|---|
| `results.dfy` | `Results` | `Option`, `Result` |
| `sigma_rules.dfy` | `SigmaRules` | log sources, containment, typed values, detection items, rules. These are types from modules that are not part of this model. |
| `logsources.dfy` | `LogSourceValidators` | the knowledge base, both validators and both issue records |
| `validation.dfy` | `Validation` | `from_dict`, `validate_rule`, `finalize`, `validate_rules` |
| `core_validation.dfy` | `CoreValidation` | the two log-source validators run through a validator set |

Modelling decisions:

- **Duplicate keys in the sysmon table.** The sysmon literal assigns keys 12, 13 and 14 several times.
  - The model writes the literal as a Dafny map display with every assignment in source order. A Dafny map display keeps the last assignment of a key, as a Python dict display does, so 12, 13 and 14 all map to `registry_event`.
  - Nothing rejects the repeated keys, and the last assignment wins.
- **Overlapping keys.** More than one key may contain a rule's log source. The loop takes the first containing key in table order, and the model does the same.
- **Log-source containment.** `SigmaLogSource.__contains__` is not part of this model. `SigmaRules.Contains(key, src)` assumes this contract for it: each of category, product and service on the key is either unspecified or equal to the same field of `src`.
- **Detection-item traversal.** The traversal in the base class is not part of this model. It is modelled as a walk over the rule's detection items, already flattened in definition order, that concatenates the per-item results.
- **Iteration order of the validator set.** The source leaves this order undefined, so it is a parameter `order`. `Enumerates` requires `order` to list every element of the set exactly once. Properties of `validate_rule` are stated by membership and multiset, together with a proof that the order does not matter up to permutation.
- **Validator behaviour in the generic set.** In `Validation`, a validator's `validate` and `finalize` are supplied as functions `run` and `fin` over an opaque class type `C`.
- **Dict entries.** The exclusion and config mappings are sequences of entries in dict order. They satisfy `DistinctKeys`, because the keys of a dict are distinct. A log source's custom attributes are also a sequence in mapping order. Their names are distinct in the source, because they are the keys of a mapping, but the model does not require that: with a repeated name, `FieldnameLogsourceValidate` would report that name twice. Every property stated here holds for distinct names as well.

## Model

| member | source | states |
|---|---|---|
| `LogSourceValidators.KnowledgeBaseFacts` | sigma/validators/core/logsources.py:15-55 | In the effective table, sysmon 1 is `process_creation` and sysmon 12, 13 and 14 are all `registry_event`, because the later assignment wins. 4688 is not a sysmon key. The security table is exactly `{4688: process_creation}`. |
| `LogSourceValidators.FirstMatch` | sigma/validators/core/logsources.py:74-78 | The result is the index of the first key, in table order, that contains the log source. No earlier key contains it. The result is `None` exactly when no key contains it. |
| `LogSourceValidators.FirstMatchFrom` | sigma/validators/core/logsources.py:74-78 | The same first-match property, for the search from a given start index. |
| `LogSourceValidators.EventIdIssues` | sigma/validators/core/logsources.py:89-99 | There are at most as many issues as values. Each issue cites the rule and the matched key, and its event id is a key of the matched table. Its generic log source carries only the category the table gives for that id. |
| `LogSourceValidators.EventIdIssuesCount` | sigma/validators/core/logsources.py:89-99 | Event id `n` is reported exactly as often as `SigmaNumber(n)` occurs among the values when `n` is in the table, and never otherwise. So duplicates are kept and non-number values are skipped. |
| `LogSourceValidators.EventIdIssuesAppend` | sigma/validators/core/logsources.py:96-99 | Values are checked independently and in order: the issues for `a + b` are the issues for `a` followed by those for `b`. |
| `LogSourceValidators.ValidateDetectionItem` | sigma/validators/core/logsources.py:85-101 | An item whose field is not exactly `"EventID"` yields nothing. Every issue it does yield is well-formed for the matched key. |
| `LogSourceValidators.ValidateDetectionItems` | sigma/validators/core/logsources.py:82 | Every issue of the traversal is well-formed for the matched key and table. |
| `LogSourceValidators.TraversalScansEventIdValues` | sigma/validators/core/logsources.py:85-101 | Traversing the items equals scanning the flat list of values found under `"EventID"` fields, in order. |
| `LogSourceValidators.NonEventIdItemsIgnored` | sigma/validators/core/logsources.py:100-101 | Items without an `"EventID"` field yield no issues, whatever their values. |
| `LogSourceValidators.ValidateWith` | sigma/validators/core/logsources.py:70-83 | A correlation rule yields nothing. A log source that no key contains yields nothing. Every issue cites a key that contains the rule's log source and uses that key's table. |
| `LogSourceValidators.SpecificInsteadOfGenericLogsourceValidate` | sigma/validators/core/logsources.py:70-83 | With the built-in table, a correlation rule yields nothing, and every issue is well-formed under either the sysmon key or the security key. |
| `LogSourceValidators.FirstContainingKeyDecides` | sigma/validators/core/logsources.py:74-82 | When key `i` is the first containing key, the result is the scan of the rule's `"EventID"` values under table `i`. |
| `LogSourceValidators.LaterKeysIgnored` | sigma/validators/core/logsources.py:74-82 | Replacing every entry after the first containing key leaves the result unchanged. |
| `LogSourceValidators.SysmonRulesUseSysmonTable` | sigma/validators/core/logsources.py:16-51 | A rule with product `windows` and service `sysmon` is checked against the sysmon table, whatever its category. |
| `LogSourceValidators.SecurityRulesUseSecurityTable` | sigma/validators/core/logsources.py:52-54 | A rule with product `windows` and service `security` is checked against the security table. |
| `LogSourceValidators.SysmonProcessCreation` | sigma/validators/core/logsources.py:16-17 | A sysmon rule with `EventID: 1` yields exactly one issue, whose generic log source is `process_creation`. |
| `LogSourceValidators.RepeatedEventIdReportedTwice` | sigma/validators/core/logsources.py:96-99 | For any matched table, a known event id given twice among the values yields its issue twice. |
| `LogSourceValidators.DuplicateValuesNotMerged` | sigma/validators/core/logsources.py:96-99 | `EventID: [1, 1]` under the sysmon key yields the same issue twice. |
| `LogSourceValidators.Event4688OnlyUnderSecurity` | sigma/validators/core/logsources.py:52-54 | 4688 under the sysmon key yields nothing. Under the security key it yields one `process_creation` issue. |
| `LogSourceValidators.UnmappedLogSourceNotFlagged` | sigma/validators/core/logsources.py:78-83 | A `process_creation`/`windows` log source is contained in no key, so `EventID: 1` yields nothing. |
| `LogSourceValidators.FieldnameIssues` | sigma/validators/core/logsources.py:116-119 | There is one issue per attribute, in attribute order, and each names that attribute and cites the rule. |
| `LogSourceValidators.FieldnameLogsourceValidate` | sigma/validators/core/logsources.py:114-121 | A correlation rule yields nothing. Otherwise there is exactly one issue per custom-attribute name, in mapping order, so there are none when the rule has no custom attributes. |
| `Validation.SelectFrom` | sigma/validation.py:60-73 | Only a removal can fail, and the error names the removed name of some removal entry. A list with no removal always succeeds. |
| `Validation.SelectionMembership` | sigma/validation.py:60-73 | After a successful fold, `x` is selected exactly when the initial set held it or some entry selected it, and no later entry took it out. `"all"` selects exactly the known names. |
| `Validation.SelectAppend` | sigma/validation.py:61-73 | The fold over `a + b` is the fold over `b`, started from the result for `a`; an error in `a` stops it. |
| `Validation.AllDiscardsEarlierEntries` | sigma/validation.py:62-63 | `"all"` replaces the current selection with the known names, so earlier successful entries do not matter. |
| `Validation.RemovingUnselectedFails` | sigma/validation.py:64-71 | `"-x"` when `x` is not selected raises `RemoveNotSelected(x)`, whatever follows. |
| `Validation.RemovingSelectedSucceeds` | sigma/validation.py:64-67 | `"-x"` for a selected `x` succeeds: the fold goes on from the selection without `x`. |
| `Validation.LeadingRemovalFails` | sigma/validation.py:64-71 | A list that begins with `"-x"` always fails with `RemoveNotSelected(x)`. |
| `Validation.AddIsIdempotent` | sigma/validation.py:72-73 | Adding the same name twice in a row gives the same outcome as adding it once. |
| `Validation.ResolveValidators` | sigma/validation.py:75-78 | Resolution succeeds exactly when every selected name is known, and the classes are the images of the names. Otherwise the error carries the non-empty set of unknown names. |
| `Validation.ResolveNames` | sigma/validation.py:84-90 | Resolution succeeds exactly when every name is known, and the classes are the images of the names. Otherwise the error is `UnknownValidator` for the first unknown name in list order. |
| `Validation.ResolveExclusions` | sigma/validation.py:81-94 | Resolution succeeds exactly when every exclusion name is known. The keys are the given rule ids, and each id maps to the classes of its names, where a single name counts as a one-element list. |
| `Validation.ResolveExclusionsFirstUnknown` | sigma/validation.py:81-94 | A failed resolution reports the first unknown name. That is the first entry, in dict order, that has an unknown name, and within that entry the first unknown name in list order. |
| `Validation.ResolveConfig` | sigma/validation.py:96-105 | Resolution succeeds exactly when every entry names a known validator with mapping parameters, and the parameters pass through unchanged. Otherwise the error belongs to the first failing entry: `UnknownValidator` if its name is unknown, `ConfigNotADict` if its value is not a mapping. |
| `Validation.FromDict` | sigma/validation.py:59-107 | The definition is accepted exactly when the fold succeeds, every selected name is known, every exclusion name is known, and every config entry is valid. A failing fold's error takes precedence over all later checks. After a successful fold, the checks run in source order: unknown selected names, then exclusion names, then config entries, and the first failing check's error is the result. On success, the exclusions and the configuration are exactly those that `ResolveExclusions` and `ResolveConfig` produce for the definition's entries. |
| `Validation.FromDictValidators` | sigma/validation.py:59-78 | The configured classes are exactly the registry images of the names the reference definition of the fold selects. |
| `Validation.FromDictLeadingRemovalFails` | sigma/validation.py:61-71 | A validator list that starts with `"-x"` is rejected with `RemoveNotSelected(x)`, whatever the exclusions and config. |
| `Validation.AllSelectsEveryRegisteredClass` | sigma/validation.py:62-63 | `validators: [all]` alone yields every registered class, no exclusions and no config. |
| `Validation.RunValidatorsContents` | sigma/validation.py:133-138 | Every issue comes from a validator in the order that is not excluded, and every such validator's issues are all present, counted with multiplicity. |
| `Validation.RunValidatorsPermutation` | sigma/validation.py:135-137 | Two duplicate-free orders of the same validators give the same multiset of issues. |
| `Validation.ValidateRule` | sigma/validation.py:133-138 | An excluded validator contributes nothing: every issue comes from a selected validator not excluded for the rule's id. Every other selected validator's issues are all included. As a multiset, the issues are exactly the union, over the selected validators not excluded for the rule's id, of each one's issues for the rule. |
| `Validation.ValidateRuleOrderIrrelevant` | sigma/validation.py:135-137 | The set's iteration order changes only the order of the issues: their multiset is the same. |
| `Validation.UnlistedRuleExcludesNothing` | sigma/validation.py:134-137 | A rule id without an exclusion entry excludes nothing, so every selected validator's issues are included. |
| `Validation.RulesIssues` | sigma/validation.py:159 | An issue is present exactly when it is an issue of `validate_rule` for some rule of the sequence. |
| `Validation.RulesIssuesOne` | sigma/validation.py:159 | A single rule contributes exactly its own `validate_rule` issues, in order, with nothing repeated or added. Together with `RulesIssuesAppend`, the per-rule issues of a rule sequence are the concatenation of each rule's `validate_rule` result, in rule order. |
| `Validation.RulesIssuesAppend` | sigma/validation.py:159 | The per-rule issues of `a + b` are those of `a` followed by those of `b`. |
| `Validation.RunValidatorsSetIssues` | sigma/validation.py:135-137 | As a multiset, the loop's issues over a duplicate-free order are the union, over the set of validators in that order that are not excluded, of each one's issues. |
| `Validation.GatherSetIssues` | sigma/validation.py:147 | As a multiset, the finalization issues gathered over a duplicate-free order are the union, over the set of validators in that order, of each one's finalization issues. |
| `Validation.Finalize` | sigma/validation.py:140-147 | Every finalization issue comes from some validator of the set. Each validator's finalization issues are all included, with their multiplicity. As a multiset, the result is exactly the union of every validator's finalization issues. |
| `Validation.FinalizeOrderIrrelevant` | sigma/validation.py:147 | The set's iteration order changes only the order of the finalization issues. |
| `Validation.ValidateRules` | sigma/validation.py:149-159 | An issue is present exactly when some rule's per-rule validation yields it or some validator's finalization yields it. As a multiset, the result is the per-rule issues together with the union of every validator's finalization issues. The per-rule issues come first, in rule order. What follows them is, as a multiset, exactly the finalization issues. |
| `Validation.RulesIssuesOrderIrrelevant` | sigma/validation.py:159 | The set's iteration order does not change the per-rule issues of a rule sequence up to order. |
| `Validation.ValidateRulesOrderIrrelevant` | sigma/validation.py:149-159 | The set's iteration order changes only the order of the issues of `validate_rules`. |
| `CoreValidation.CorrelationRulesYieldNothing` | sigma/validation.py:133-138 | With the two log-source validators, a correlation rule yields no issues, whatever the exclusions. |
| `CoreValidation.ExcludedFieldnameValidatorSilent` | sigma/validation.py:134-137 | Excluding the field-name validator for a rule id leaves only specific-instead-of-generic issues for rules with that id. |

## Left out

- `from_yaml`: YAML parsing is not modelled (sigma/validation.py:110-118). `from_dict` receives an already structured `Definition`.
- Rule ids: `UUID(...)` parsing and normalisation are not modelled. Ids are opaque optional strings. So a malformed id does not raise here. Two spellings of the same UUID also stay different: in the source they match in `self.exclusions[rule.id]`, and two exclusion keys that spell the same UUID collapse into one key. In the model they are distinct ids and distinct keys under `DistinctKeys`.
- Validator instances: `SigmaValidator.__init__` builds instances with the config as keyword arguments, and looks them up through `validator_classname_to_identifier`. That function is not part of this model. The model keeps the config map but does not construct instances. So the `TypeError` that `cls(...)` (sigma/validation.py:107, through the instance construction at line 32) raises when a config's parameters do not fit a validator's constructor is not modelled, and `FromDict` accepts such definitions. A config stored under a name whose class identifier differs from that name is silently ignored by the source, and the model does not model that either.
- Validator state: validators are modelled as stateless functions `run` and `fin`. The state a validator may keep across rules, and the contents of `finalize`, are not part of this model.
- `Validation.ResolveValidators`: the source reports one unknown name, and which one depends on set iteration order. The model reports the whole set of unknown names.
- Error messages: the text of each `SigmaConfigurationError` is not modelled. Errors keep only the offending name.
- Entry types: a non-string entry in the validator list would raise `AttributeError` in the source. This is not modelled, because entries are strings.
- Float event ids: a float `SigmaNumber` and the `int(...)` coercion are not modelled. Event-id values are integers.
- Log-source containment: `SigmaLogSource.__contains__` and the detection-item traversal belong to files that are not part of this model. They are modelled by the assumptions stated above.
- Issue records: severity and description are fixed per kind. The model keeps them as plain functions, and states no property about them.
