/** The log-source validators of sigma/validators/core/logsources.py: the static
    knowledge base that maps specific log sources and event ids to generic
    categories, the validator that flags specific event ids where a generic log
    source exists, and the validator that flags custom log-source attributes. */
module LogSourceValidators {
  import opened Results
  import opened SigmaRules

  datatype IssueSeverity = Low | Medium | High | Critical

  /** The two issue records. Description and severity are fixed per kind. */
  datatype Issue =
    | SpecificInsteadOfGenericLogsourceIssue(
        rules: seq<Rule>, logsource: LogSource, eventId: int, genericLogsource: LogSource)
    | FieldnameLogsourceIssue(rules: seq<Rule>, fieldname: string)
  {
    function Description(): string {
      match this
      case SpecificInsteadOfGenericLogsourceIssue(_, _, _, _) =>
        "Usage of specific instead of generic log source"
      case FieldnameLogsourceIssue(_, _) =>
        "Usage of invalid field name in the log source"
    }

    function Severity(): IssueSeverity {
      High
    }
  }

  // ---------------------------------------------------------------------------
  // Knowledge base
  // ---------------------------------------------------------------------------

  type EventIdMapping = map<int, string>

  /** One entry of the knowledge base: a log-source key and its event-id table. */
  datatype KnowledgeBaseEntry = KnowledgeBaseEntry(logsource: LogSource, eventIds: EventIdMapping)

  const SysmonLogSource: LogSource := LogSource(None, Some("windows"), Some("sysmon"), [])
  const SecurityLogSource: LogSource := LogSource(None, Some("windows"), Some("security"), [])

  /** The sysmon event-id table with every assignment of the source literal, in its
      order. Keys 12, 13 and 14 are assigned more than once; as in a Python dict
      display, a Dafny map display keeps only the last assignment of a key. */
  const SysmonEventIds: EventIdMapping := map[
    1 := "process_creation",
    2 := "file_change",
    3 := "network_connection",
    5 := "process_termination",
    4 := "sysmon_status",
    6 := "driver_load",
    7 := "image_load",
    8 := "create_remote_thread",
    9 := "raw_access_thread",
    10 := "process_access",
    11 := "file_event",
    12 := "registry_add",
    12 := "registry_delete",
    13 := "registry_set",
    14 := "registry_rename",
    12 := "registry_event",
    13 := "registry_event",
    14 := "registry_event",
    15 := "create_stream_hash",
    16 := "sysmon_status",
    17 := "pipe_created",
    18 := "pipe_created",
    19 := "wmi_event",
    20 := "wmi_event",
    21 := "wmi_event",
    22 := "dns_query",
    23 := "file_delete",
    24 := "clipboard_change",
    25 := "process_tampering",
    26 := "file_delete_detected",
    27 := "file_block_executable",
    28 := "file_block_shredding",
    29 := "file_executable_detected",
    255 := "sysmon_error"
  ]

  const SecurityEventIds: EventIdMapping := map[4688 := "process_creation"]

  /** The knowledge base in its iteration order: the sysmon key, then the security key. */
  const SpecificToGenericLogsourceMapping: seq<KnowledgeBaseEntry> := [
    KnowledgeBaseEntry(SysmonLogSource, SysmonEventIds),
    KnowledgeBaseEntry(SecurityLogSource, SecurityEventIds)
  ]

  /** The effective table: a later assignment of a key replaces the earlier ones. */
  lemma KnowledgeBaseFacts()
    ensures SysmonEventIds[1] == "process_creation"
    ensures SysmonEventIds[12] == "registry_event"
    ensures SysmonEventIds[13] == "registry_event"
    ensures SysmonEventIds[14] == "registry_event"
    ensures 4688 !in SysmonEventIds
    ensures 4688 in SecurityEventIds && SecurityEventIds[4688] == "process_creation"
    ensures SecurityEventIds.Keys == {4688}
  {
  }

  // ---------------------------------------------------------------------------
  // First match over the knowledge base
  // ---------------------------------------------------------------------------

  /** The index of the first entry at or after `start`, in table order, whose key
      contains `src`. */
  function FirstMatchFrom(table: seq<KnowledgeBaseEntry>, src: LogSource, start: nat): (r: Option<nat>)
    requires start <= |table|
    ensures r.Some? ==> start <= r.value < |table| && Contains(table[r.value].logsource, src)
    ensures r.Some? ==> forall j :: start <= j < r.value ==> !Contains(table[j].logsource, src)
    ensures r.None? <==> forall j :: start <= j < |table| ==> !Contains(table[j].logsource, src)
    decreases |table| - start
  {
    if start == |table| then None
    else if Contains(table[start].logsource, src) then Some(start)
    else FirstMatchFrom(table, src, start + 1)
  }

  /** The loop over the knowledge base's items in `validate`: the first key that
      contains the rule's log source, if any. */
  function FirstMatch(table: seq<KnowledgeBaseEntry>, src: LogSource): (r: Option<nat>)
    ensures r.Some? ==> r.value < |table| && Contains(table[r.value].logsource, src)
    ensures r.Some? ==> forall j :: 0 <= j < r.value ==> !Contains(table[j].logsource, src)
    ensures r.None? <==> forall j :: 0 <= j < |table| ==> !Contains(table[j].logsource, src)
  {
    FirstMatchFrom(table, src, 0)
  }

  // ---------------------------------------------------------------------------
  // SpecificInsteadOfGenericLogsourceValidator
  // ---------------------------------------------------------------------------

  /** What `validate` records before the detection-item traversal: the rule being
      validated, the matched key and that key's event-id table. */
  datatype MatchContext = MatchContext(rule: Rule, logsource: LogSource, eventIds: EventIdMapping)

  /** A value that is a number and a key of the matched event-id table. */
  predicate Disallowed(eventIds: EventIdMapping, v: SigmaValue) {
    v.SigmaNumber? && v.number in eventIds
  }

  /** The issue reported for event id `id` under the matched key. */
  function IssueFor(ctx: MatchContext, id: int): Issue
    requires id in ctx.eventIds
  {
    SpecificInsteadOfGenericLogsourceIssue(
      [ctx.rule], ctx.logsource, id, GenericLogSource(ctx.eventIds[id]))
  }

  /** `i` is an issue the validator can report under `ctx`: it cites the rule and the
      matched key, its event id is in the key's table, and its generic log source
      names only the category the table assigns to that id. */
  predicate ReportedUnder(ctx: MatchContext, i: Issue) {
    && i.SpecificInsteadOfGenericLogsourceIssue?
    && i.rules == [ctx.rule]
    && i.logsource == ctx.logsource
    && i.eventId in ctx.eventIds
    && i.genericLogsource == GenericLogSource(ctx.eventIds[i.eventId])
  }

  /** The event ids reported by the specific-instead-of-generic issues of a list, in order. */
  function ReportedEventIds(issues: seq<Issue>): seq<int> {
    if |issues| == 0 then []
    else
      (if issues[0].SpecificInsteadOfGenericLogsourceIssue? then [issues[0].eventId] else [])
      + ReportedEventIds(issues[1..])
  }

  lemma {:induction false} ReportedEventIdsAppend(a: seq<Issue>, b: seq<Issue>)
    ensures ReportedEventIds(a + b) == ReportedEventIds(a) + ReportedEventIds(b)
  {
    if |a| == 0 {
      assert a + b == b;
    } else {
      assert (a + b)[0] == a[0];
      assert (a + b)[1..] == a[1..] + b;
      ReportedEventIdsAppend(a[1..], b);
    }
  }

  /** The list comprehension of `validate_detection_item` over the values of one
      "EventID" item: one issue per value that is a number found in the table. */
  function EventIdIssues(ctx: MatchContext, values: seq<SigmaValue>): (r: seq<Issue>)
    ensures |r| <= |values|
    ensures forall k :: 0 <= k < |r| ==> ReportedUnder(ctx, r[k])
  {
    if |values| == 0 then []
    else
      (if Disallowed(ctx.eventIds, values[0]) then [IssueFor(ctx, values[0].number)] else [])
      + EventIdIssues(ctx, values[1..])
  }

  /** The count for a single value. */
  lemma EventIdIssuesCountOne(ctx: MatchContext, v: SigmaValue, id: int)
    ensures multiset(ReportedEventIds(EventIdIssues(ctx, [v])))[id]
            == if id in ctx.eventIds then multiset([v])[SigmaNumber(id)] else 0
  {
    assert [v][1..] == [];
    if Disallowed(ctx.eventIds, v) {
      var issue := IssueFor(ctx, v.number);
      assert EventIdIssues(ctx, [v]) == [issue];
      assert ReportedEventIds([issue]) == [v.number] by {
        assert [issue][1..] == [];
      }
    }
  }

  /** Each event id is reported exactly as often as it occurs as a number among the
      values when the table has it, and never otherwise: duplicates are kept and
      non-number values are skipped. */
  lemma {:induction false} EventIdIssuesCount(ctx: MatchContext, values: seq<SigmaValue>, id: int)
    ensures multiset(ReportedEventIds(EventIdIssues(ctx, values)))[id]
            == if id in ctx.eventIds then multiset(values)[SigmaNumber(id)] else 0
  {
    if |values| != 0 {
      var v := values[0];
      var rest := values[1..];
      assert values == [v] + rest;
      EventIdIssuesAppend(ctx, [v], rest);
      ReportedEventIdsAppend(EventIdIssues(ctx, [v]), EventIdIssues(ctx, rest));
      EventIdIssuesCountOne(ctx, v, id);
      EventIdIssuesCount(ctx, rest, id);
    }
  }

  /** Values are checked one by one: the issues of a concatenation are the issues of
      the parts, in order. */
  lemma {:induction false} EventIdIssuesAppend(ctx: MatchContext, a: seq<SigmaValue>, b: seq<SigmaValue>)
    ensures EventIdIssues(ctx, a + b) == EventIdIssues(ctx, a) + EventIdIssues(ctx, b)
  {
    if |a| == 0 {
      assert a + b == b;
    } else {
      assert (a + b)[0] == a[0];
      assert (a + b)[1..] == a[1..] + b;
      EventIdIssuesAppend(ctx, a[1..], b);
    }
  }

  /** `validate_detection_item`: only an item whose field is exactly "EventID" is
      inspected. */
  function ValidateDetectionItem(ctx: MatchContext, item: DetectionItem): (r: seq<Issue>)
    ensures forall k :: 0 <= k < |r| ==> ReportedUnder(ctx, r[k])
    ensures item.field != Some("EventID") ==> r == []
  {
    if item.field == Some("EventID") then EventIdIssues(ctx, item.values) else []
  }

  /** All values of the items whose field is exactly "EventID", in traversal order. */
  function EventIdValues(items: seq<DetectionItem>): seq<SigmaValue> {
    if |items| == 0 then []
    else
      (if items[0].field == Some("EventID") then items[0].values else [])
      + EventIdValues(items[1..])
  }

  /** The detection-item traversal of the base class: the per-item issue lists,
      concatenated in item order. */
  function ValidateDetectionItems(ctx: MatchContext, items: seq<DetectionItem>): (r: seq<Issue>)
    ensures forall k :: 0 <= k < |r| ==> ReportedUnder(ctx, r[k])
  {
    if |items| == 0 then []
    else ValidateDetectionItem(ctx, items[0]) + ValidateDetectionItems(ctx, items[1..])
  }

  /** Traversing the items is the same as scanning the flat list of values found
      under "EventID" fields: other items contribute nothing, and the order of
      values is kept. */
  lemma {:induction false} TraversalScansEventIdValues(ctx: MatchContext, items: seq<DetectionItem>)
    ensures ValidateDetectionItems(ctx, items) == EventIdIssues(ctx, EventIdValues(items))
  {
    if |items| != 0 {
      TraversalScansEventIdValues(ctx, items[1..]);
      var head := if items[0].field == Some("EventID") then items[0].values else [];
      EventIdIssuesAppend(ctx, head, EventIdValues(items[1..]));
    }
  }

  /** `SpecificInsteadOfGenericLogsourceValidator.validate` against a given table. */
  function ValidateWith(table: seq<KnowledgeBaseEntry>, rule: Rule): (r: seq<Issue>)
    ensures rule.SigmaCorrelationRule? ==> r == []
    ensures rule.SigmaRule? && (forall j :: 0 <= j < |table| ==> !Contains(table[j].logsource, rule.logsource))
            ==> r == []
    ensures forall k :: 0 <= k < |r| ==>
              exists j :: 0 <= j < |table| && Contains(table[j].logsource, rule.logsource)
                          && ReportedUnder(MatchContext(rule, table[j].logsource, table[j].eventIds), r[k])
  {
    match rule
    case SigmaCorrelationRule(_, _) => []
    case SigmaRule(_, logsource, items) =>
      match FirstMatch(table, logsource)
      case None => []
      case Some(i) => ValidateDetectionItems(MatchContext(rule, table[i].logsource, table[i].eventIds), items)
  }

  /** The validator as shipped, over the built-in knowledge base. */
  function SpecificInsteadOfGenericLogsourceValidate(rule: Rule): (r: seq<Issue>)
    ensures rule.SigmaCorrelationRule? ==> r == []
    ensures forall k :: 0 <= k < |r| ==>
              || ReportedUnder(MatchContext(rule, SysmonLogSource, SysmonEventIds), r[k])
              || ReportedUnder(MatchContext(rule, SecurityLogSource, SecurityEventIds), r[k])
  {
    ValidateWith(SpecificToGenericLogsourceMapping, rule)
  }

  /** The first key in table order that contains the rule's log source decides the
      event-id table: the result is the scan of the rule's "EventID" values under
      that key. */
  lemma FirstContainingKeyDecides(table: seq<KnowledgeBaseEntry>, rule: Rule, i: nat)
    requires rule.SigmaRule?
    requires i < |table| && Contains(table[i].logsource, rule.logsource)
    requires forall j :: 0 <= j < i ==> !Contains(table[j].logsource, rule.logsource)
    ensures ValidateWith(table, rule)
            == EventIdIssues(MatchContext(rule, table[i].logsource, table[i].eventIds),
                             EventIdValues(rule.detectionItems))
  {
    var m := FirstMatch(table, rule.logsource);
    assert m == Some(i);
    TraversalScansEventIdValues(MatchContext(rule, table[i].logsource, table[i].eventIds), rule.detectionItems);
  }

  /** Keys after the first containing one are never consulted: replacing them
      changes nothing. */
  lemma LaterKeysIgnored(table: seq<KnowledgeBaseEntry>, rest: seq<KnowledgeBaseEntry>, rule: Rule, i: nat)
    requires rule.SigmaRule?
    requires i < |table| && Contains(table[i].logsource, rule.logsource)
    requires forall j :: 0 <= j < i ==> !Contains(table[j].logsource, rule.logsource)
    ensures ValidateWith(table[..i + 1] + rest, rule) == ValidateWith(table, rule)
  {
    var t' := table[..i + 1] + rest;
    assert forall j :: 0 <= j <= i ==> t'[j] == table[j];
    FirstContainingKeyDecides(table, rule, i);
    FirstContainingKeyDecides(t', rule, i);
  }

  /** A rule whose log source names the windows product and the sysmon service is
      checked against the sysmon table. */
  lemma SysmonRulesUseSysmonTable(rule: Rule)
    requires rule.SigmaRule?
    requires rule.logsource.product == Some("windows") && rule.logsource.service == Some("sysmon")
    ensures SpecificInsteadOfGenericLogsourceValidate(rule)
            == EventIdIssues(MatchContext(rule, SysmonLogSource, SysmonEventIds),
                             EventIdValues(rule.detectionItems))
  {
    FirstContainingKeyDecides(SpecificToGenericLogsourceMapping, rule, 0);
  }

  /** A rule whose log source names the windows product and the security service is
      checked against the security table. */
  lemma SecurityRulesUseSecurityTable(rule: Rule)
    requires rule.SigmaRule?
    requires rule.logsource.product == Some("windows") && rule.logsource.service == Some("security")
    ensures SpecificInsteadOfGenericLogsourceValidate(rule)
            == EventIdIssues(MatchContext(rule, SecurityLogSource, SecurityEventIds),
                             EventIdValues(rule.detectionItems))
  {
    assert !Contains(SpecificToGenericLogsourceMapping[0].logsource, rule.logsource);
    FirstContainingKeyDecides(SpecificToGenericLogsourceMapping, rule, 1);
  }

  /** Items whose field is not exactly "EventID" never yield an issue, whatever
      their values. */
  lemma {:induction false} NonEventIdItemsIgnored(ctx: MatchContext, items: seq<DetectionItem>)
    requires forall k :: 0 <= k < |items| ==> items[k].field != Some("EventID")
    ensures ValidateDetectionItems(ctx, items) == []
  {
    if |items| != 0 {
      NonEventIdItemsIgnored(ctx, items[1..]);
    }
  }

  /** A single number value yields the issue for it exactly when the table has it. */
  lemma SingleEventIdValue(ctx: MatchContext, n: int)
    ensures EventIdIssues(ctx, [SigmaNumber(n)]) == if n in ctx.eventIds then [IssueFor(ctx, n)] else []
  {
    assert [SigmaNumber(n)][1..] == [];
  }

  /** Sysmon event 1 under the sysmon key yields one issue naming process_creation. */
  lemma SysmonProcessCreation(id: Option<string>, category: Option<string>)
    ensures var rule := SigmaRule(id, LogSource(category, Some("windows"), Some("sysmon"), []),
                                  [DetectionItem(Some("EventID"), [SigmaNumber(1)])]);
            SpecificInsteadOfGenericLogsourceValidate(rule)
            == [SpecificInsteadOfGenericLogsourceIssue(
                  [rule], SysmonLogSource, 1, GenericLogSource("process_creation"))]
  {
    var rule := SigmaRule(id, LogSource(category, Some("windows"), Some("sysmon"), []),
                          [DetectionItem(Some("EventID"), [SigmaNumber(1)])]);
    SysmonRulesUseSysmonTable(rule);
    assert EventIdValues(rule.detectionItems) == [SigmaNumber(1)];
    KnowledgeBaseFacts();
    SingleEventIdValue(MatchContext(rule, SysmonLogSource, SysmonEventIds), 1);
  }

  /** A known event id given twice is reported twice. */
  lemma RepeatedEventIdReportedTwice(ctx: MatchContext, n: int)
    requires n in ctx.eventIds
    ensures EventIdIssues(ctx, [SigmaNumber(n), SigmaNumber(n)]) == [IssueFor(ctx, n), IssueFor(ctx, n)]
  {
    SingleEventIdValue(ctx, n);
    assert [SigmaNumber(n), SigmaNumber(n)] == [SigmaNumber(n)] + [SigmaNumber(n)];
    EventIdIssuesAppend(ctx, [SigmaNumber(n)], [SigmaNumber(n)]);
  }

  /** The same event id twice in one item yields the issue twice: no deduplication. */
  lemma DuplicateValuesNotMerged(id: Option<string>)
    ensures var rule := SigmaRule(id, LogSource(None, Some("windows"), Some("sysmon"), []),
                                  [DetectionItem(Some("EventID"), [SigmaNumber(1), SigmaNumber(1)])]);
            var issue := SpecificInsteadOfGenericLogsourceIssue(
                           [rule], SysmonLogSource, 1, GenericLogSource("process_creation"));
            SpecificInsteadOfGenericLogsourceValidate(rule) == [issue, issue]
  {
    var rule := SigmaRule(id, LogSource(None, Some("windows"), Some("sysmon"), []),
                          [DetectionItem(Some("EventID"), [SigmaNumber(1), SigmaNumber(1)])]);
    var ctx := MatchContext(rule, SysmonLogSource, SysmonEventIds);
    SysmonRulesUseSysmonTable(rule);
    assert EventIdValues(rule.detectionItems) == [SigmaNumber(1), SigmaNumber(1)];
    KnowledgeBaseFacts();
    RepeatedEventIdReportedTwice(ctx, 1);
  }

  /** Event 4688 is only known under the security key: under the sysmon key it is
      not flagged, under the security key it names process_creation. */
  lemma Event4688OnlyUnderSecurity(id: Option<string>)
    ensures var rule := SigmaRule(id, LogSource(None, Some("windows"), Some("sysmon"), []),
                                  [DetectionItem(Some("EventID"), [SigmaNumber(4688)])]);
            SpecificInsteadOfGenericLogsourceValidate(rule) == []
    ensures var rule := SigmaRule(id, LogSource(None, Some("windows"), Some("security"), []),
                                  [DetectionItem(Some("EventID"), [SigmaNumber(4688)])]);
            SpecificInsteadOfGenericLogsourceValidate(rule)
            == [SpecificInsteadOfGenericLogsourceIssue(
                  [rule], SecurityLogSource, 4688, GenericLogSource("process_creation"))]
  {
    KnowledgeBaseFacts();
    var sysmonRule := SigmaRule(id, LogSource(None, Some("windows"), Some("sysmon"), []),
                                [DetectionItem(Some("EventID"), [SigmaNumber(4688)])]);
    SysmonRulesUseSysmonTable(sysmonRule);
    assert EventIdValues(sysmonRule.detectionItems) == [SigmaNumber(4688)];
    SingleEventIdValue(MatchContext(sysmonRule, SysmonLogSource, SysmonEventIds), 4688);
    var securityRule := SigmaRule(id, LogSource(None, Some("windows"), Some("security"), []),
                                  [DetectionItem(Some("EventID"), [SigmaNumber(4688)])]);
    SecurityRulesUseSecurityTable(securityRule);
    assert EventIdValues(securityRule.detectionItems) == [SigmaNumber(4688)];
    SingleEventIdValue(MatchContext(securityRule, SecurityLogSource, SecurityEventIds), 4688);
  }

  /** A log source that no key contains yields nothing, even for an event id that
      is a key of the sysmon table. */
  lemma UnmappedLogSourceNotFlagged(id: Option<string>)
    ensures var rule := SigmaRule(id, LogSource(Some("process_creation"), Some("windows"), None, []),
                                  [DetectionItem(Some("EventID"), [SigmaNumber(1)])]);
            SpecificInsteadOfGenericLogsourceValidate(rule) == []
  {
    var rule := SigmaRule(id, LogSource(Some("process_creation"), Some("windows"), None, []),
                          [DetectionItem(Some("EventID"), [SigmaNumber(1)])]);
    assert !Contains(SpecificToGenericLogsourceMapping[0].logsource, rule.logsource);
    assert !Contains(SpecificToGenericLogsourceMapping[1].logsource, rule.logsource);
  }

  // ---------------------------------------------------------------------------
  // FieldnameLogsourceValidator
  // ---------------------------------------------------------------------------

  function FieldnameIssues(rule: Rule, attributes: seq<CustomAttribute>): (r: seq<Issue>)
    ensures |r| == |attributes|
    ensures forall k :: 0 <= k < |r| ==> r[k] == FieldnameLogsourceIssue([rule], attributes[k].name)
  {
    if |attributes| == 0 then []
    else [FieldnameLogsourceIssue([rule], attributes[0].name)] + FieldnameIssues(rule, attributes[1..])
  }

  /** `FieldnameLogsourceValidator.validate`: one issue per custom attribute name of
      an ordinary rule's log source, in attribute order. */
  function FieldnameLogsourceValidate(rule: Rule): (r: seq<Issue>)
    ensures rule.SigmaCorrelationRule? ==> r == []
    ensures rule.SigmaRule? ==> |r| == |rule.logsource.customAttributes|
    ensures rule.SigmaRule? ==> forall k :: 0 <= k < |r| ==>
              r[k] == FieldnameLogsourceIssue([rule], rule.logsource.customAttributes[k].name)
  {
    match rule
    case SigmaCorrelationRule(_, _) => []
    case SigmaRule(_, logsource, _) => FieldnameIssues(rule, logsource.customAttributes)
  }
}
