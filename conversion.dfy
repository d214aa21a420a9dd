/**
 * The conversion pipeline of the validator handler, as functions: which rules
 * are kept, how one raw rule becomes one converted rule, how the converted
 * rules of one attribute accumulate, and how the attributes' results merge.
 */
module Conversion {
  import opened Collaborators
  import opened Registry

  /** The rule name that switches client-side validation off for an attribute. */
  const JsValidationDisable: RuleName := "NoJsValidation"

  /** A client rule name counts as given when it is present and not empty. */
  predicate Truthy(jsRule: Option<string>)
  {
    jsRule.Some? && jsRule.value != ""
  }

  /**
   * `isValidatable`: a client rule is kept when it is given and, unless remote
   * rules are wanted, it is not the remote rule.
   */
  function IsValidatable(jsRule: Option<string>, includeRemote: bool, remoteRule: string): (ok: bool)
    ensures ok ==> Truthy(jsRule)
    ensures includeRemote ==> (ok <==> Truthy(jsRule))
    ensures !includeRemote ==> (ok <==> Truthy(jsRule) && jsRule.value != remoteRule)
  {
    Truthy(jsRule) && (includeRemote || jsRule.value != remoteRule)
  }

  /** `jsValidationEnabled`: the attribute does not carry the `NoJsValidation` rule. */
  function JsValidationEnabled(validator: DelegatedValidator, attribute: Attribute): (enabled: bool)
    ensures !enabled <==> validator.hasRule(attribute, "NoJsValidation")
  {
    !validator.hasRule(attribute, JsValidationDisable)
  }

  /** The converted rules stored under a client attribute and client rule, or none. */
  function Cell(m: JsRules, a: Attribute, r: string): (cell: seq<ConvertedRule>)
  {
    if a in m && r in m[a] then m[a][r] else []
  }

  /** Every client attribute has a rule, and every rule has a converted rule. */
  ghost predicate WellFormed(m: JsRules)
  {
    && (forall a :: a in m ==> m[a] != map[])
    && (forall a, r :: a in m && r in m[a] ==> m[a][r] != [])
  }

  /** `$jsRules[$a][$r][] = $e`: append one converted rule to the end of a cell. */
  function Append(m: JsRules, a: Attribute, r: string, e: ConvertedRule): (m': JsRules)
    ensures m'.Keys == m.Keys + {a}
    ensures m'[a].Keys == (if a in m then m[a].Keys else {}) + {r}
    ensures forall a' :: a' in m && a' != a ==> m'[a'] == m[a']
    ensures Cell(m', a, r) == Cell(m, a, r) + [e]
    ensures forall a', r' :: a' != a || r' != r ==> Cell(m', a', r') == Cell(m, a', r')
  {
    var inner := if a in m then m[a] else map[];
    m[a := inner[r := Cell(m, a, r) + [e]]]
  }

  /** One converted rule with the client attribute and client rule it is filed under. */
  datatype Entry = Entry(attribute: Attribute, rule: string, converted: ConvertedRule)

  /**
   * What one raw rule of `attribute` contributes: the rule is forced remote
   * when it was declared conditional, it is parsed by the validator, converted
   * by the rule parser, and kept when its client rule is validatable; the
   * message is looked up for the original attribute.
   */
  function EntryOf(s: Services, c: Conditional, attribute: Attribute, rawRule: RawRule, includeRemote: bool): (entry: Option<Entry>)
    ensures var parsed := s.validator.parseRule(rawRule);
      var js := s.rules.getRule(attribute, parsed.name, parsed.parameters, rawRule in Lookup(c, attribute));
      && (entry.Some? <==> IsValidatable(js.rule, includeRemote, s.rules.remoteRule))
      && (entry.Some? ==>
            && entry.value.attribute == js.attribute
            && Some(entry.value.rule) == js.rule
            && entry.value.converted.rule == parsed.name
            && entry.value.converted.params == js.params
            && entry.value.converted.message == s.messages.getMessage(attribute, parsed.name, parsed.parameters)
            && entry.value.converted.implicit == s.validator.isImplicit(parsed.name))
    ensures entry.Some? ==> entry.value.rule != ""
    ensures entry.Some? && !includeRemote ==> entry.value.rule != s.rules.remoteRule
  {
    var forceRemote := IsConditionalRule(c, attribute, rawRule);
    var parsed := s.validator.parseRule(rawRule);
    var js := s.rules.getRule(attribute, parsed.name, parsed.parameters, forceRemote);
    if IsValidatable(js.rule, includeRemote, s.rules.remoteRule) then
      var message := s.messages.getMessage(attribute, parsed.name, parsed.parameters);
      Some(Entry(js.attribute, js.rule.value,
        ConvertedRule(parsed.name, js.params, message, s.validator.isImplicit(parsed.name))))
    else
      None
  }

  /** `jsConvertRules`: the raw rules' entries accumulated in order. */
  function ConvertRules(s: Services, c: Conditional, attribute: Attribute, rawRules: seq<RawRule>, includeRemote: bool): (m: JsRules)
    ensures !includeRemote ==> forall a :: a in m ==> s.rules.remoteRule !in m[a]
    decreases |rawRules|
  {
    if rawRules == [] then map[]
    else
      var prev := ConvertRules(s, c, attribute, rawRules[..|rawRules| - 1], includeRemote);
      match EntryOf(s, c, attribute, rawRules[|rawRules| - 1], includeRemote)
      case None => prev
      case Some(e) => Append(prev, e.attribute, e.rule, e.converted)
  }

  /** The entries of the kept raw rules, in raw-rule order. */
  function Accepted(s: Services, c: Conditional, attribute: Attribute, rawRules: seq<RawRule>, includeRemote: bool): (es: seq<Entry>)
    ensures |es| <= |rawRules|
    decreases |rawRules|
  {
    if rawRules == [] then []
    else
      var prev := Accepted(s, c, attribute, rawRules[..|rawRules| - 1], includeRemote);
      match EntryOf(s, c, attribute, rawRules[|rawRules| - 1], includeRemote)
      case None => prev
      case Some(e) => prev + [e]
  }

  /** The converted rules of the entries filed under `a` and `r`, in order. */
  function Select(es: seq<Entry>, a: Attribute, r: string): (cell: seq<ConvertedRule>)
    decreases |es|
  {
    if es == [] then []
    else
      var last := es[|es| - 1];
      Select(es[..|es| - 1], a, r) + (if last.attribute == a && last.rule == r then [last.converted] else [])
  }

  /**
   * The same map without the remote rule, dropping the client attributes
   * that are left with no rule.
   */
  function DropRemote(m: JsRules, remoteRule: string): (d: JsRules)
  {
    map a | a in m && m[a] - {remoteRule} != map[] :: m[a] - {remoteRule}
  }

  /**
   * `generateJavascriptValidations`: the conversions of the enabled attributes
   * merged in order, each replacing whole client-attribute entries of the
   * ones before it (`array_merge` on string keys).
   */
  function Generated(s: Services, c: Conditional, ruleSet: seq<(Attribute, seq<RawRule>)>, includeRemote: bool): (m: JsRules)
    ensures !includeRemote ==> forall a :: a in m ==> s.rules.remoteRule !in m[a]
    decreases |ruleSet|
  {
    if ruleSet == [] then map[]
    else
      var prev := Generated(s, c, ruleSet[..|ruleSet| - 1], includeRemote);
      var (attribute, rawRules) := ruleSet[|ruleSet| - 1];
      if JsValidationEnabled(s.validator, attribute) then
        prev + ConvertRules(s, c, attribute, rawRules, includeRemote)
      else prev
  }

  /** An entry of the rule set gives a client attribute in its own conversion. */
  ghost predicate Contributes(s: Services, c: Conditional, entry: (Attribute, seq<RawRule>), includeRemote: bool, key: Attribute)
  {
    JsValidationEnabled(s.validator, entry.0) && key in ConvertRules(s, c, entry.0, entry.1, includeRemote)
  }

  /** The enabled entries of a rule set, in order. */
  function Enabled(v: DelegatedValidator, ruleSet: seq<(Attribute, seq<RawRule>)>): (enabled: seq<(Attribute, seq<RawRule>)>)
    decreases |ruleSet|
  {
    if ruleSet == [] then []
    else
      var prev := Enabled(v, ruleSet[..|ruleSet| - 1]);
      var last := ruleSet[|ruleSet| - 1];
      if JsValidationEnabled(v, last.0) then prev + [last] else prev
  }
}
