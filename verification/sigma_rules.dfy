/** The parsed rule values the validators inspect: log sources, typed detection
    values, detection items and the two rule kinds. These types live in modules of
    pySigma that are not part of this model (sigma.rule, sigma.types,
    sigma.correlations); only the parts the validators read are kept. */
module SigmaRules {
  import opened Results

  /** A vendor-specific log source attribute beyond category, product and service. */
  datatype CustomAttribute = CustomAttribute(name: string, value: string)

  /** A log source descriptor. `None` in a classifying field means "unspecified".
      The custom attributes keep the insertion order of the source's mapping. */
  datatype LogSource = LogSource(
    category: Option<string>,
    product: Option<string>,
    service: Option<string>,
    customAttributes: seq<CustomAttribute>)

  /** A log source that names only a category, as built by `SigmaLogSource(category)`. */
  function GenericLogSource(category: string): LogSource {
    LogSource(Some(category), None, None, [])
  }

  /** One classifying field of the containing log source is a wildcard or equal. */
  predicate FieldContains(outer: Option<string>, inner: Option<string>) {
    outer.None? || outer == inner
  }

  /** `inner in outer`: every classifying field `outer` specifies is equal in `inner`.
      Custom attributes play no part. This is the contract assumed of
      `SigmaLogSource.__contains__`, whose code is not part of this model. */
  predicate Contains(outer: LogSource, inner: LogSource) {
    && FieldContains(outer.category, inner.category)
    && FieldContains(outer.product, inner.product)
    && FieldContains(outer.service, inner.service)
  }

  /** The typed values a detection item can carry. Floating-point numbers are not
      modelled: a `SigmaNumber` holds an integer. */
  datatype SigmaValue =
    | SigmaNumber(number: int)
    | SigmaString(s: string)
    | SigmaRegularExpression(regexp: string)
    | SigmaBool(b: bool)
    | SigmaNull

  /** A single field-match condition; `field` is `None` for keyword detections. */
  datatype DetectionItem = DetectionItem(field: Option<string>, values: seq<SigmaValue>)

  /** A rule handed to the validators. An ordinary rule carries its log source and
      its detection items, flattened in definition order; a correlation rule has
      no detection body of its own. Rule ids are opaque strings. */
  datatype Rule =
    | SigmaRule(id: Option<string>, logsource: LogSource, detectionItems: seq<DetectionItem>)
    | SigmaCorrelationRule(id: Option<string>, referencedRules: seq<string>)
}
