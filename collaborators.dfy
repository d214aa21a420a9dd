/**
 * Values exchanged between the validator handler and the collaborators it
 * calls: the delegated (host) validator, the rule parser that maps one server
 * rule to a client rule, and the message parser.  The collaborators' bodies
 * belong to the host framework, so each of their operations is a total
 * function value the handler is given.
 */
module Collaborators {

  datatype Option<+T> = None | Some(value: T)

  type Attribute = string
  type RawRule = string
  type RuleName = string
  type Params = seq<string>

  /** The `$rules` argument of `sometimes`: a pipe-separated string or a list of rules. */
  datatype RuleSpec = Piped(text: string) | Listed(items: seq<RawRule>)

  /** The `$attribute` argument of `sometimes`: one attribute or a list of them. */
  datatype AttributeSpec = Single(name: Attribute) | Several(names: seq<Attribute>)
  {
    /** The keys that `(array) $attribute` yields, in order. */
    function Keys(): seq<Attribute>
    {
      match this
      case Single(n) => [n]
      case Several(ns) => ns
    }
  }

  /** What the host validator's `parseRule` returns: the rule name and its parameters. */
  datatype ParsedRule = ParsedRule(name: RuleName, parameters: Params)

  /**
   * What the rule parser's `getRule` returns: the client attribute, the client
   * rule name (None or an empty name when the rule has no client form) and the
   * client parameters.
   */
  datatype ClientRule = ClientRule(attribute: Attribute, rule: Option<string>, params: Params)

  /**
   * The delegated validator.  `ruleSet` is what `getRules` returns: the
   * attributes in order, each with its raw rules in order.
   */
  datatype DelegatedValidator = DelegatedValidator(
    ruleSet: seq<(Attribute, seq<RawRule>)>,
    parseRule: RawRule -> ParsedRule,
    hasRule: (Attribute, RuleName) -> bool,
    isImplicit: RuleName -> bool,
    explodeRules: RuleSpec -> seq<RawRule>)

  /**
   * The rule parser: `getRule(attribute, rule, parameters, forceRemote)`, the
   * client rule name `REMOTE_RULE` of rules checked by a server round trip, and
   * the delegated validator it was built with.
   */
  datatype RuleParser = RuleParser(
    getRule: (Attribute, RuleName, Params, bool) -> ClientRule,
    remoteRule: string,
    delegatedValidator: DelegatedValidator)

  /** The message parser: `getMessage(attribute, rule, parameters)`. */
  datatype MessageParser = MessageParser(getMessage: (Attribute, RuleName, Params) -> string)

  /** The three collaborators a handler works with. */
  datatype Services = Services(validator: DelegatedValidator, rules: RuleParser, messages: MessageParser)

  /** One converted rule: server rule name, client parameters, message, implicit flag. */
  datatype ConvertedRule = ConvertedRule(rule: RuleName, params: Params, message: string, implicit: bool)

  /** Client attribute -> client rule name -> converted rules in order. */
  type JsRules = map<Attribute, map<string, seq<ConvertedRule>>>

  /** The view data `validationData` returns. */
  datatype ValidationData = ValidationData(rules: JsRules, messages: map<string, string>)
}
