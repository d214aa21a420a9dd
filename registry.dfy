/**
 * The handler's conditional registry: for each attribute, the raw rules that
 * were declared through `sometimes`, in the order they were declared.
 */
module Registry {
  import opened Collaborators

  type Conditional = map<Attribute, seq<RawRule>>

  /** The list stored for `key`, or the empty list when there is none. */
  function Lookup(c: Conditional, key: Attribute): (rules: seq<RawRule>)
  {
    if key in c then c[key] else []
  }

  /** `isConditionalRule`: the raw rule was declared conditional for the attribute. */
  predicate IsConditionalRule(c: Conditional, attribute: Attribute, rule: RawRule)
    ensures IsConditionalRule(c, attribute, rule) <==> rule in Lookup(c, attribute)
  {
    attribute in c && rule in c[attribute]
  }

  /**
   * The registry after `sometimes` has visited `keys` in order, appending
   * `merge` to the list of each key it visits.
   */
  function Register(c: Conditional, keys: seq<Attribute>, merge: seq<RawRule>): (c': Conditional)
    ensures forall k :: k in c ==> k in c' && c[k] <= c'[k]
    decreases |keys|
  {
    if keys == [] then c
    else Register(c[keys[0] := Lookup(c, keys[0]) + merge], keys[1..], merge)
  }

  /** `n` copies of `s`, one after the other. */
  function Repeat(s: seq<RawRule>, n: nat): (copies: seq<RawRule>)
  {
    if n == 0 then [] else s + Repeat(s, n - 1)
  }

  /** A rule occurs in the copies exactly when there is a copy and it occurs in `s`. */
  lemma {:induction false} RepeatMembers(s: seq<RawRule>, n: nat, x: RawRule)
    ensures x in Repeat(s, n) <==> n > 0 && x in s
  {
    if n > 1 {
      RepeatMembers(s, n - 1, x);
    }
  }

  /** Registration adds the keys it visits and keeps the entries of the keys it does not. */
  lemma {:induction false} RegisterKeys(c: Conditional, keys: seq<Attribute>, merge: seq<RawRule>, key: Attribute)
    ensures key in Register(c, keys, merge) <==> key in c || key in keys
    ensures key !in keys && key in c ==> Register(c, keys, merge)[key] == c[key]
    decreases |keys|
  {
    if keys != [] {
      RegisterKeys(c[keys[0] := Lookup(c, keys[0]) + merge], keys[1..], merge, key);
      assert key in keys <==> key == keys[0] || key in keys[1..];
    }
  }

  lemma CountAfterHead(keys: seq<Attribute>, key: Attribute)
    requires keys != []
    ensures multiset(keys)[key] == multiset(keys[1..])[key] + (if keys[0] == key then 1 else 0)
  {
    assert keys == [keys[0]] + keys[1..];
  }

  /**
   * After registration a key holds its earlier list followed by one copy of
   * `merge` per occurrence of the key in `keys`: rules are appended, never
   * replaced, and duplicates are kept.
   */
  lemma {:induction false} RegisterLookup(c: Conditional, keys: seq<Attribute>, merge: seq<RawRule>, key: Attribute)
    ensures Lookup(Register(c, keys, merge), key) == Lookup(c, key) + Repeat(merge, multiset(keys)[key])
    decreases |keys|
  {
    if keys == [] {
      assert Lookup(c, key) + [] == Lookup(c, key);
    } else {
      var c' := c[keys[0] := Lookup(c, keys[0]) + merge];
      RegisterLookup(c', keys[1..], merge, key);
      CountAfterHead(keys, key);
      var n := multiset(keys[1..])[key];
      if keys[0] == key {
        AppendCopy(Lookup(c, key), merge, n);
      } else {
        assert Lookup(c', key) == Lookup(c, key);
      }
    }
  }

  lemma AppendCopy(prefix: seq<RawRule>, merge: seq<RawRule>, n: nat)
    ensures (prefix + merge) + Repeat(merge, n) == prefix + Repeat(merge, n + 1)
  {
    assert Repeat(merge, n + 1) == merge + Repeat(merge, n);
  }

  /**
   * Registration is a union: a rule is conditional for an attribute afterwards
   * exactly when it was before, or the attribute is one of `keys` and the rule
   * is one of `merge`.
   */
  lemma RegisterIsUnion(c: Conditional, keys: seq<Attribute>, merge: seq<RawRule>, attribute: Attribute, rule: RawRule)
    ensures IsConditionalRule(Register(c, keys, merge), attribute, rule)
        <==> IsConditionalRule(c, attribute, rule) || (attribute in keys && rule in merge)
  {
    RegisterLookup(c, keys, merge, attribute);
    RepeatMembers(merge, multiset(keys)[attribute], rule);
    assert attribute in keys <==> multiset(keys)[attribute] > 0;
  }
}
