/**
 * The validator handler: it holds its collaborators and the conditional
 * registry, records `sometimes` declarations, and compiles the validator's
 * rule set into client-side rules.
 */
module Handler {
  import opened Collaborators
  import opened Registry
  import opened Conversion

  class ValidatorHandler {
    const ruleParser: RuleParser
    const messageParser: MessageParser
    const validator: DelegatedValidator
    /** Attribute -> raw rules declared through `sometimes`, in declaration order. */
    var conditional: Conditional

    /** The handler takes the delegated validator its rule parser was built with. */
    constructor (rules: RuleParser, messages: MessageParser)
      ensures ruleParser == rules && messageParser == messages
      ensures validator == rules.delegatedValidator
      ensures conditional == map[]
    {
      ruleParser := rules;
      messageParser := messages;
      validator := rules.delegatedValidator;
      conditional := map[];
    }

    /** The collaborators, as the conversion functions take them. */
    function Env(): Services
    {
      Services(validator, ruleParser, messageParser)
    }

    /**
     * `sometimes`: for every key of `attribute`, in order, the exploded rules
     * are appended to the key's list (an absent key starts empty).
     */
    method Sometimes(attribute: AttributeSpec, rules: RuleSpec)
      modifies this
      ensures conditional == Register(old(conditional), attribute.Keys(), validator.explodeRules(rules))
    {
      var keys := attribute.Keys();
      var i := 0;
      while i < |keys|
        invariant 0 <= i <= |keys|
        invariant Register(conditional, keys[i..], validator.explodeRules(rules))
               == Register(old(conditional), keys, validator.explodeRules(rules))
      {
        var key := keys[i];
        var current := if key in conditional then conditional[key] else [];
        var merge := validator.explodeRules(rules);
        conditional := conditional[key := current + merge];
        i := i + 1;
      }
    }

    /** `jsConvertRules`: converts the raw rules of one attribute. */
    method JsConvertRules(attribute: Attribute, rawRules: seq<RawRule>, includeRemote: bool) returns (jsRules: JsRules)
      ensures jsRules == ConvertRules(Env(), conditional, attribute, rawRules, includeRemote)
    {
      jsRules := map[];
      for i := 0 to |rawRules|
        invariant jsRules == ConvertRules(Env(), conditional, attribute, rawRules[..i], includeRemote)
      {
        var rawRule := rawRules[i];
        ghost var prev := jsRules;
        ghost var step := EntryOf(Env(), conditional, attribute, rawRule, includeRemote);
        assert rawRules[..i + 1][..i] == rawRules[..i];
        var forceRemote := IsConditionalRule(conditional, attribute, rawRule);
        var parsed := validator.parseRule(rawRule);
        var js := ruleParser.getRule(attribute, parsed.name, parsed.parameters, forceRemote);
        if IsValidatable(js.rule, includeRemote, ruleParser.remoteRule) {
          var converted := ConvertedRule(parsed.name, js.params,
            messageParser.getMessage(attribute, parsed.name, parsed.parameters),
            validator.isImplicit(parsed.name));
          var inner := if js.attribute in jsRules then jsRules[js.attribute] else map[];
          var list := if js.rule.value in inner then inner[js.rule.value] else [];
          jsRules := jsRules[js.attribute := inner[js.rule.value := list + [converted]]];
          assert step == Some(Entry(js.attribute, js.rule.value, converted));
          assert jsRules == Append(prev, js.attribute, js.rule.value, converted);
        } else {
          assert step == None;
        }
      }
      assert rawRules[..|rawRules|] == rawRules;
    }

    /**
     * `generateJavascriptValidations`: converts every enabled attribute of
     * the validator's rule set and merges the results in order.
     */
    method GenerateJavascriptValidations(includeRemote: bool) returns (jsValidations: JsRules)
      ensures jsValidations == Generated(Env(), conditional, validator.ruleSet, includeRemote)
    {
      var ruleSet := validator.ruleSet;
      jsValidations := map[];
      for i := 0 to |ruleSet|
        invariant jsValidations == Generated(Env(), conditional, ruleSet[..i], includeRemote)
      {
        var (attribute, rawRules) := ruleSet[i];
        assert ruleSet[..i + 1][..i] == ruleSet[..i];
        if JsValidationEnabled(validator, attribute) {
          var newRules := JsConvertRules(attribute, rawRules, includeRemote);
          jsValidations := jsValidations + newRules;
        }
      }
      assert ruleSet[..|ruleSet|] == ruleSet;
    }

    /** `validationData`: the compiled rules with an empty message map. */
    method ValidationData(remote: bool) returns (data: ValidationData)
      ensures data.messages == map[]
      ensures data.rules == Generated(Env(), conditional, validator.ruleSet, remote)
    {
      var jsMessages := map[];
      var jsValidations := GenerateJavascriptValidations(remote);
      data := Collaborators.ValidationData(jsValidations, jsMessages);
    }
  }
}
