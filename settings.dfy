/**
 * The auto-tag value types compared by the reconciliation logic. Only the
 * fields that the comparators read are modelled; every Go pointer field is an
 * `Option`, and a condition list keeps the difference between a nil slice
 * (`None`) and an empty one (`Some([])`).
 */
module Settings {
  import opened Wrappers

  /** One condition of an attribute-based auto-tag rule. */
  datatype AttributeCondition = AttributeCondition(
    caseSensitive: Option<bool>,
    dynamicKey: Option<string>,
    dynamicKeySource: Option<string>,
    entityId: Option<string>,
    enumValue: Option<string>,
    integerValue: Option<int>,
    key: string,
    operator: string,
    stringValue: Option<string>,
    tag: Option<string>)

  /** A list of conditions, each entry a possibly nil pointer. */
  type AttributeConditions = seq<Option<AttributeCondition>>

  /** The attribute-based part of a rule: propagation flags and conditions. */
  datatype AutoTagAttributeRule = AutoTagAttributeRule(
    azureToPGPropagation: Option<bool>,
    azureToServicePropagation: Option<bool>,
    conditions: Option<AttributeConditions>,
    entityType: string,
    hostToPGPropagation: Option<bool>,
    pgToHostPropagation: Option<bool>,
    pgToServicePropagation: Option<bool>,
    serviceToHostPropagation: Option<bool>,
    serviceToPGPropagation: Option<bool>)

  /** One element of the shared `Rules` list of an auto-tag. */
  datatype Rule = Rule(
    attributeRule: Option<AutoTagAttributeRule>,
    enabled: bool,
    entitySelector: Option<string>,
    ruleType: string,
    valueFormat: Option<string>,
    valueNormalization: string)
}
