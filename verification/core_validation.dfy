/** The two log-source validators run through a configured validator set. */
module CoreValidation {
  import opened SigmaRules
  import opened LogSourceValidators
  import opened Validation

  /** The validator classes of sigma/validators/core/logsources.py. */
  datatype CoreValidator = SpecificInsteadOfGenericLogsourceValidator | FieldnameLogsourceValidator

  /** Dispatch from a class to its `validate`. */
  function RunCore(c: CoreValidator, rule: Rule): seq<Issue> {
    match c
    case SpecificInsteadOfGenericLogsourceValidator => SpecificInsteadOfGenericLogsourceValidate(rule)
    case FieldnameLogsourceValidator => FieldnameLogsourceValidate(rule)
  }

  /** Neither validator reports anything for a correlation rule, so neither does the set. */
  lemma CorrelationRulesYieldNothing(v: SigmaValidator<CoreValidator>, order: seq<CoreValidator>, rule: Rule)
    requires Enumerates(order, v.validators)
    requires rule.SigmaCorrelationRule?
    ensures ValidateRule(v, order, RunCore, rule) == []
  {
    var r := ValidateRule(v, order, RunCore, rule);
    assert forall c :: RunCore(c, rule) == [];
    assert forall x :: x in multiset(r) ==> x in r;
    assert multiset(r) == multiset{};
  }

  /** Excluding the field-name validator for a rule id leaves only
      specific-instead-of-generic issues for rules with that id. */
  lemma ExcludedFieldnameValidatorSilent(v: SigmaValidator<CoreValidator>, order: seq<CoreValidator>, rule: Rule)
    requires Enumerates(order, v.validators)
    requires FieldnameLogsourceValidator in Exclusions(v, rule.id)
    ensures forall i :: i in ValidateRule(v, order, RunCore, rule) ==> i.SpecificInsteadOfGenericLogsourceIssue?
  {
    forall i | i in ValidateRule(v, order, RunCore, rule)
      ensures i.SpecificInsteadOfGenericLogsourceIssue?
    {
      var c :| c in v.validators && c !in Exclusions(v, rule.id) && i in RunCore(c, rule);
      assert c == SpecificInsteadOfGenericLogsourceValidator;
      var issues := SpecificInsteadOfGenericLogsourceValidate(rule);
      assert i in issues;
      var k :| 0 <= k < |issues| && issues[k] == i;
    }
  }
}
