# ValidatorHandler: compiling server validation rules into client rules

This project models the rule-conversion orchestrator of laravel-jsvalidation,
the class `ValidatorHandler` in `src/Javascript/ValidatorHandler.php`, in Dafny.
The handler takes the host validator's rule set (attribute → ordered raw rule
strings). It drops the attributes that carry the `NoJsValidation` rule. It
converts every raw rule of the others through the rule parser. It keeps the
converted rules that have a client rule name, leaving out the remote rule when
remote rules are not wanted. It files each kept rule as a 4-tuple (server rule
name, client parameters, message, implicit flag) under
client attribute → client rule name. It keeps a registry of the rules declared
through `sometimes`, and those rules are handed to the rule parser with
`forceRemote` set.

Layout:

- `collaborators.dfy` (module `Collaborators`): the values passed between the
  handler and its collaborators. The delegated validator, the rule parser and
  the message parser are records of total function values. Their bodies belong
  to the host framework and are not part of this model. `REMOTE_RULE` is the
  field `remoteRule` of the rule parser. The result of `getRules` is the field
  `ruleSet` of the validator: attributes in order, each with its raw rules in
  order. A client rule name is an `Option<string>`. It counts as given
  (truthy) when it is present and not empty.
- `registry.dfy` (module `Registry`): the `conditional` field as a value.
  `IsConditionalRule` is the registry lookup. `Register` is what one
  `sometimes` call does to the registry. The lemmas say what registration
  appends and what it keeps.
- `conversion.dfy` (module `Conversion`): the pipeline as functions.
  `IsValidatable` and `JsValidationEnabled` are the two filters. `EntryOf` is
  what one raw rule contributes. `ConvertRules` is the specification of
  `jsConvertRules`. `Accepted`/`Select` give the same conversion cell by cell,
  as the list of kept entries built from `EntryOf`. `DropRemote` removes the remote-rule cells. `Generated`
  is the specification of `generateJavascriptValidations`.
- `properties.dfy` (module `ConversionProperties`): lemmas about those
  functions.
- `handler.dfy` (module `Handler`): the class `ValidatorHandler`, with its
  collaborators as constant fields and `conditional` as a mutable field.
  `Sometimes` updates the field in a loop over the keys. `JsConvertRules` and
  `GenerateJavascriptValidations` are loops proved against `ConvertRules` and
  `Generated`. `ValidationData` wraps the result with an empty message map.

The merge at `ValidatorHandler.php:66` is `array_merge` on string keys. It
replaces the whole entry of a client attribute that an earlier attribute
produced; it does not merge the two rule maps. So when two attributes share a
client attribute, the output without remote rules need not be part of the
output with them. `GeneratedAt` proves the replace behaviour, and
`GeneratedWithoutRemote` proves the "part of" relation when no two enabled
attributes share a client attribute. `SharedClientAttributeKeepsLocalRuleOnlyWithoutRemote`
shows that the relation fails without that condition: a local rule of an
earlier attribute survives only in the output without remote rules. It is lost
from the full output because a later attribute's remote-only entry replaces it.

## Model

| member | source | states |
|---|---|---|
| `Registry.IsConditionalRule` | src/Javascript/ValidatorHandler.php:165-169 | a raw rule is conditional for an attribute exactly when it occurs in the list the registry holds for that attribute (absent attribute: empty list) |
| `Registry.RegisterLookup` | src/Javascript/ValidatorHandler.php:151-155 | after `sometimes`, each key's list is its earlier list (empty if absent) followed by the exploded rules once per occurrence of the key among the attributes: append, not replace, duplicates kept |
| `Registry.RegisterKeys` | src/Javascript/ValidatorHandler.php:151-155 | `sometimes` adds exactly the named keys to the registry and leaves the entry of every key it does not name unchanged |
| `Registry.RegisterIsUnion` | src/Javascript/ValidatorHandler.php:151-155 | after `sometimes(keys, rules)` a rule is conditional for an attribute iff it was before, or the attribute is one of the keys and the rule is one of the exploded rules; two calls for one attribute make both rule lists conditional |
| `Conversion.IsValidatable` | src/Javascript/ValidatorHandler.php:106-109 | a client rule is accepted only if given; with remote rules wanted every given rule is accepted; without them exactly the given rules other than `REMOTE_RULE` are accepted |
| `Conversion.JsValidationEnabled` | src/Javascript/ValidatorHandler.php:118-121 | client validation is off for an attribute exactly when the validator reports it has the rule `NoJsValidation` (the constant of line 18) |
| `Conversion.Append` | src/Javascript/ValidatorHandler.php:89-92 | appending a converted rule adds it at the end of the cell `[jsAttribute][jsRule]`, creating the attribute and rule keys if needed, and leaves every other cell unchanged |
| `Conversion.EntryOf` | src/Javascript/ValidatorHandler.php:85-92 | a raw rule yields an entry exactly when the client rule `getRule` returns for its parsed name and parameters, with `forceRemote` set to whether the raw rule is registered for the attribute, passes `isValidatable`; the entry is filed under the client attribute and client rule `getRule` returns and holds the parsed rule name, the client parameters, the message for the original attribute with the parsed parameters, and `isImplicit` of the parsed rule name; a kept client rule is never empty and never `REMOTE_RULE` when remote rules are not wanted |
| `Conversion.ConvertRules` | src/Javascript/ValidatorHandler.php:81-97 | without remote rules, no client attribute of one attribute's conversion holds `REMOTE_RULE` |
| `Conversion.Generated` | src/Javascript/ValidatorHandler.php:56-70 | without remote rules, no client attribute of the merged result holds `REMOTE_RULE` |
| `Registry.Register` | src/Javascript/ValidatorHandler.php:151-155 | `sometimes` never drops a key, and each key's earlier list stays a prefix of its new list |
| `Conversion.Accepted` | src/Javascript/ValidatorHandler.php:84-94 | there are no more kept entries than raw rules |
| `ConversionProperties.AcceptedMembers` | src/Javascript/ValidatorHandler.php:84-94 | an entry is kept exactly when some raw rule of the attribute converts to it and passes the `isValidatable` test |
| `ConversionProperties.AcceptedConcat` | src/Javascript/ValidatorHandler.php:84-94 | each raw rule is converted on its own: the kept entries of two runs of raw rules are those of the first run followed by those of the second |
| `ConversionProperties.AcceptedSingle` | src/Javascript/ValidatorHandler.php:85-92 | a single raw rule yields exactly its own entry when it is validatable and nothing otherwise |
| `ConversionProperties.ConvertRulesCells` | src/Javascript/ValidatorHandler.php:83-96 | every cell of `jsConvertRules`' result holds, in raw-rule order, exactly one tuple (parsed rule name, client params, message for the original attribute, implicit flag) per accepted raw rule filed under that client attribute and client rule; rejected rules add nothing |
| `ConversionProperties.ConvertRulesKeys` | src/Javascript/ValidatorHandler.php:88-93 | a client attribute and client rule appear in the converted map exactly when some accepted raw rule is filed under them |
| `ConversionProperties.ConvertRulesWellFormed` | src/Javascript/ValidatorHandler.php:83-96 | no client attribute of the converted map is empty and no rule list in it is empty |
| `ConversionProperties.ConvertWithoutRemote` | src/Javascript/ValidatorHandler.php:84-96 | for one attribute, converting without remote rules gives the conversion with remote rules minus its `REMOTE_RULE` cells, with client attributes left empty dropped |
| `ConversionProperties.ForceRemoteExactlyWhenConditional` | src/Javascript/ValidatorHandler.php:85-87 | the registry affects a raw rule's conversion only through `forceRemote`, and `forceRemote` is exactly `isConditionalRule` of the raw (unparsed) rule: keeping and filing follow `getRule` called with that flag |
| `ConversionProperties.UnregisteredRuleNotForced` | src/Javascript/ValidatorHandler.php:85-87 | a raw rule not registered for the attribute is converted with `forceRemote` false: keeping and filing follow `getRule` called unforced |
| `ConversionProperties.SometimesForcesRemote` | src/Javascript/ValidatorHandler.php:85-88 | with a rule parser that turns forced rules into `REMOTE_RULE`, a rule declared through `sometimes` for an attribute is filed under `REMOTE_RULE` when remote rules are wanted and dropped when they are not |
| `ConversionProperties.GeneratedHas` | src/Javascript/ValidatorHandler.php:60-67 | a client attribute is in the merged result exactly when the conversion of some enabled attribute has it; disabled attributes are never converted |
| `ConversionProperties.GeneratedAt` | src/Javascript/ValidatorHandler.php:60-67 | each client attribute of the merged result holds the whole entry produced by the last enabled attribute whose conversion has it; later entries replace earlier ones |
| `ConversionProperties.GeneratedEnabledOnly` | src/Javascript/ValidatorHandler.php:60-63 | removing the disabled attributes from the rule set first does not change the merged result: nothing derived from their rules reaches it |
| `ConversionProperties.GeneratedWellFormed` | src/Javascript/ValidatorHandler.php:56-70 | no client attribute of the merged result is empty and no rule list in it is empty |
| `ConversionProperties.GeneratedWithoutRemote` | src/Javascript/ValidatorHandler.php:56-70 | when no two enabled attributes convert to a common client attribute, the result without remote rules is the full result minus its `REMOTE_RULE` cells |
| `ConversionProperties.SharedClientAttributeKeepsLocalRuleOnlyWithoutRemote` | src/Javascript/ValidatorHandler.php:66 | when two attributes convert to a common client attribute, a local rule can be in the result without remote rules and missing from the full result, because the later remote-only entry replaces the earlier local one |
| `Handler.ValidatorHandler.constructor` | src/Javascript/ValidatorHandler.php:37-42 | a new handler keeps its rule and message parsers, takes the delegated validator of its rule parser, and starts with an empty registry |
| `Handler.ValidatorHandler.Sometimes` | src/Javascript/ValidatorHandler.php:151-155 | the new registry is the old one with the exploded rules appended to every key of the attribute argument, in order |
| `Handler.ValidatorHandler.JsConvertRules` | src/Javascript/ValidatorHandler.php:81-97 | the loop computes `ConvertRules` for the attribute's raw rules and the current registry |
| `Handler.ValidatorHandler.GenerateJavascriptValidations` | src/Javascript/ValidatorHandler.php:56-70 | the loop computes `Generated` over the validator's rule set: enabled attributes converted and merged in order |
| `Handler.ValidatorHandler.ValidationData` | src/Javascript/ValidatorHandler.php:129-138 | the view data has an empty message map and the generated rules, and the registry is left unchanged |

## Left out

- `setDelegatedValidator` (src/Javascript/ValidatorHandler.php:49-54) only hands one validator to three objects; the validator is a constant of the handler here.
- The registration with the host validator inside `sometimes` (lines 148-150, with an always-true callback) is host-framework state and is not modelled. In the program it makes the host validator apply the declared rules, which then appear among the rules `getRules()` returns, so a rule declared only through `sometimes` is converted too. In the model the validator's `ruleSet` is fixed, and `SometimesForcesRemote` speaks only about raw rules already in that rule set.
- The bodies of `RuleParser::getRule`, `MessageParser::getMessage` and the delegated validator's `getRules`, `parseRule`, `hasRule`, `isImplicit` and `explodeRules` wrap the host framework and are function values the handler is given. `REMOTE_RULE` has no fixed value.
- A parse failure raised by the host parser propagates out of the PHP code; here `parseRule` is total, so that error path is not modelled.
- Raw rules are strings; rule objects that the host framework also accepts are not modelled.
- `explodeRules([$rules])` followed by `head()` is modelled as one function from the rule specification to its rule list.
- PHP array behaviour that is not about rules: the insertion order of keys in the nested maps (cell lists keep their order), `array_merge` renumbering integer-like keys, the string `"0"` being falsy, and the loose comparison of `in_array`.
- Message localisation and formatting are inside `getMessage`.
- Default arguments (`$rules = []`, `$includeRemote = true`, `$remote = true`) are not modelled; callers pass every argument.
