/**
 * What the conversion pipeline guarantees: how the converted map relates to
 * the raw rules that were kept, what leaving remote rules out removes, how
 * the attributes' results merge, and how conditional rules are forced remote.
 */
module ConversionProperties {
  import opened Collaborators
  import opened Registry
  import opened Conversion

  lemma AppendWellFormed(m: JsRules, a: Attribute, r: string, e: ConvertedRule)
    requires WellFormed(m)
    ensures WellFormed(Append(m, a, r, e))
  {
    var m' := Append(m, a, r, e);
    forall a', r' | a' in m' && r' in m'[a'] ensures m'[a'][r'] != [] {
      assert Cell(m', a', r') == m'[a'][r'];
      if a' != a || r' != r {
        assert Cell(m, a', r') == m[a'][r'];
      }
    }
    forall a' | a' in m' ensures m'[a'] != map[] {
      if a' == a {
        assert r in m'[a'];
      }
    }
  }

  /** Every cell of one attribute's conversion holds at least one converted rule. */
  lemma {:induction false} ConvertRulesWellFormed(s: Services, c: Conditional, attribute: Attribute, rawRules: seq<RawRule>, includeRemote: bool)
    ensures WellFormed(ConvertRules(s, c, attribute, rawRules, includeRemote))
    decreases |rawRules|
  {
    if rawRules != [] {
      var init := rawRules[..|rawRules| - 1];
      ConvertRulesWellFormed(s, c, attribute, init, includeRemote);
      var prev := ConvertRules(s, c, attribute, init, includeRemote);
      match EntryOf(s, c, attribute, rawRules[|rawRules| - 1], includeRemote)
      case None =>
      case Some(e) =>
        AppendWellFormed(prev, e.attribute, e.rule, e.converted);
    }
  }

  lemma MergeWellFormed(m: JsRules, n: JsRules)
    requires WellFormed(m) && WellFormed(n)
    ensures WellFormed(m + n)
  {
    forall a | a in m + n
      ensures (m + n)[a] != map[] && forall r :: r in (m + n)[a] ==> (m + n)[a][r] != []
    {
      if a in n {
        assert (m + n)[a] == n[a];
      } else {
        assert (m + n)[a] == m[a];
      }
    }
  }

  /** Every cell of the merged result holds at least one converted rule. */
  lemma {:induction false} GeneratedWellFormed(s: Services, c: Conditional, ruleSet: seq<(Attribute, seq<RawRule>)>, includeRemote: bool)
    ensures WellFormed(Generated(s, c, ruleSet, includeRemote))
    decreases |ruleSet|
  {
    if ruleSet != [] {
      var init := ruleSet[..|ruleSet| - 1];
      var last := ruleSet[|ruleSet| - 1];
      GeneratedWellFormed(s, c, init, includeRemote);
      ConvertRulesWellFormed(s, c, last.0, last.1, includeRemote);
      MergeWellFormed(Generated(s, c, init, includeRemote), ConvertRules(s, c, last.0, last.1, includeRemote));
    }
  }

  /** Dropping the remote rule empties exactly its cells and keeps every other cell. */
  lemma DropRemoteCells(m: JsRules, remoteRule: string, a: Attribute, r: string)
    ensures Cell(DropRemote(m, remoteRule), a, r) == if r == remoteRule then [] else Cell(m, a, r)
  {
    if r != remoteRule && a in m && r in m[a] {
      assert r in m[a] - {remoteRule};
    }
  }

  lemma DropRemoteWellFormed(m: JsRules, remoteRule: string)
    requires WellFormed(m)
    ensures WellFormed(DropRemote(m, remoteRule))
  {
    var d := DropRemote(m, remoteRule);
    forall a, r | a in d && r in d[a] ensures d[a][r] != [] {
      assert d[a][r] == m[a][r];
    }
  }

  /** Two well-formed converted maps with the same cells are the same map. */
  lemma CellsDetermine(m1: JsRules, m2: JsRules)
    requires WellFormed(m1) && WellFormed(m2)
    requires forall a, r :: Cell(m1, a, r) == Cell(m2, a, r)
    ensures m1 == m2
  {
    forall a | a in m1 || a in m2
      ensures a in m1 && a in m2 && m1[a] == m2[a]
    {
      var inner := if a in m1 then m1[a] else m2[a];
      assert inner != map[];
      var r :| r in inner;
      assert Cell(m1, a, r) == Cell(m2, a, r);
      forall r' | r' in m1[a] || r' in m2[a]
        ensures r' in m1[a] && r' in m2[a] && m1[a][r'] == m2[a][r']
      {
        assert Cell(m1, a, r') == Cell(m2, a, r');
      }
    }
  }

  /**
   * Each cell of the converted map holds, in raw-rule order, exactly the
   * converted rules of the kept raw rules filed under that client attribute
   * and client rule.
   */
  lemma {:induction false} ConvertRulesCells(s: Services, c: Conditional, attribute: Attribute, rawRules: seq<RawRule>,
                                             includeRemote: bool, a: Attribute, r: string)
    ensures Cell(ConvertRules(s, c, attribute, rawRules, includeRemote), a, r)
         == Select(Accepted(s, c, attribute, rawRules, includeRemote), a, r)
    decreases |rawRules|
  {
    if rawRules != [] {
      var init := rawRules[..|rawRules| - 1];
      ConvertRulesCells(s, c, attribute, init, includeRemote, a, r);
      var prevRules := ConvertRules(s, c, attribute, init, includeRemote);
      var prev := Accepted(s, c, attribute, init, includeRemote);
      match EntryOf(s, c, attribute, rawRules[|rawRules| - 1], includeRemote)
      case None =>
        assert ConvertRules(s, c, attribute, rawRules, includeRemote) == prevRules;
        assert Accepted(s, c, attribute, rawRules, includeRemote) == prev;
      case Some(e) =>
        assert ConvertRules(s, c, attribute, rawRules, includeRemote) == Append(prevRules, e.attribute, e.rule, e.converted);
        assert Accepted(s, c, attribute, rawRules, includeRemote) == prev + [e];
        assert (prev + [e])[..|prev + [e]| - 1] == prev;
    }
  }

  /**
   * A client attribute and client rule appear in the converted map exactly
   * when some kept raw rule is filed under them.
   */
  lemma ConvertRulesKeys(s: Services, c: Conditional, attribute: Attribute, rawRules: seq<RawRule>,
                         includeRemote: bool, a: Attribute, r: string)
    ensures var m := ConvertRules(s, c, attribute, rawRules, includeRemote);
      a in m && r in m[a] <==> Select(Accepted(s, c, attribute, rawRules, includeRemote), a, r) != []
  {
    ConvertRulesWellFormed(s, c, attribute, rawRules, includeRemote);
    ConvertRulesCells(s, c, attribute, rawRules, includeRemote, a, r);
  }

  /** An entry is kept exactly when some raw rule of the attribute contributes it. */
  lemma {:induction false} AcceptedMembers(s: Services, c: Conditional, attribute: Attribute, rawRules: seq<RawRule>,
                                           includeRemote: bool, e: Entry)
    ensures e in Accepted(s, c, attribute, rawRules, includeRemote)
        <==> exists i :: 0 <= i < |rawRules| && EntryOf(s, c, attribute, rawRules[i], includeRemote) == Some(e)
    decreases |rawRules|
  {
    if rawRules != [] {
      var init := rawRules[..|rawRules| - 1];
      AcceptedMembers(s, c, attribute, init, includeRemote, e);
      if exists i :: 0 <= i < |rawRules| && EntryOf(s, c, attribute, rawRules[i], includeRemote) == Some(e) {
        var i :| 0 <= i < |rawRules| && EntryOf(s, c, attribute, rawRules[i], includeRemote) == Some(e);
        if i < |init| {
          assert init[i] == rawRules[i];
        }
      }
      if exists i :: 0 <= i < |init| && EntryOf(s, c, attribute, init[i], includeRemote) == Some(e) {
        var i :| 0 <= i < |init| && EntryOf(s, c, attribute, init[i], includeRemote) == Some(e);
        assert rawRules[i] == init[i];
      }
    }
  }

  /**
   * The raw rules are converted independently: the kept entries of two runs
   * of raw rules are the kept entries of each, one after the other.
   */
  lemma {:induction false} AcceptedConcat(s: Services, c: Conditional, attribute: Attribute, xs: seq<RawRule>, ys: seq<RawRule>,
                                          includeRemote: bool)
    ensures Accepted(s, c, attribute, xs + ys, includeRemote)
         == Accepted(s, c, attribute, xs, includeRemote) + Accepted(s, c, attribute, ys, includeRemote)
    decreases |ys|
  {
    if ys == [] {
      assert xs + ys == xs;
    } else {
      var init := ys[..|ys| - 1];
      AcceptedConcat(s, c, attribute, xs, init, includeRemote);
      assert (xs + ys)[..|xs + ys| - 1] == xs + init;
      assert (xs + ys)[|xs + ys| - 1] == ys[|ys| - 1];
    }
  }

  /** One raw rule is kept at most once: its conversion, when validatable. */
  lemma AcceptedSingle(s: Services, c: Conditional, attribute: Attribute, rawRule: RawRule, includeRemote: bool)
    ensures Accepted(s, c, attribute, [rawRule], includeRemote)
         == match EntryOf(s, c, attribute, rawRule, includeRemote)
            case None => []
            case Some(e) => [e]
  {
    assert [rawRule][..0] == [];
  }

  /**
   * Leaving remote rules out of one attribute's conversion gives the full
   * conversion without its remote-rule cells and without the client
   * attributes left with no rule.
   */
  lemma {:induction false} ConvertWithoutRemote(s: Services, c: Conditional, attribute: Attribute, rawRules: seq<RawRule>)
    ensures ConvertRules(s, c, attribute, rawRules, false)
         == DropRemote(ConvertRules(s, c, attribute, rawRules, true), s.rules.remoteRule)
    decreases |rawRules|
  {
    if rawRules != [] {
      var init := rawRules[..|rawRules| - 1];
      var raw := rawRules[|rawRules| - 1];
      ConvertWithoutRemote(s, c, attribute, init);
      var remote := s.rules.remoteRule;
      var f := ConvertRules(s, c, attribute, init, false);
      var t := ConvertRules(s, c, attribute, init, true);
      var f' := ConvertRules(s, c, attribute, rawRules, false);
      var d' := DropRemote(ConvertRules(s, c, attribute, rawRules, true), remote);
      match EntryOf(s, c, attribute, raw, true)
      case None =>
        assert EntryOf(s, c, attribute, raw, false).None?;
      case Some(e) =>
        if e.rule == remote {
          assert EntryOf(s, c, attribute, raw, false).None?;
          forall a, r ensures Cell(f', a, r) == Cell(d', a, r) {
            DropRemoteCells(t, remote, a, r);
            DropRemoteCells(ConvertRules(s, c, attribute, rawRules, true), remote, a, r);
          }
        } else {
          assert EntryOf(s, c, attribute, raw, false) == Some(e);
          forall a, r ensures Cell(f', a, r) == Cell(d', a, r) {
            DropRemoteCells(t, remote, a, r);
            DropRemoteCells(ConvertRules(s, c, attribute, rawRules, true), remote, a, r);
          }
        }
        ConvertRulesWellFormed(s, c, attribute, rawRules, false);
        ConvertRulesWellFormed(s, c, attribute, rawRules, true);
        DropRemoteWellFormed(ConvertRules(s, c, attribute, rawRules, true), remote);
        CellsDetermine(f', d');
    }
  }

  /** How the last entry of a rule set changes the merged result at one client attribute. */
  lemma GeneratedLast(s: Services, c: Conditional, ruleSet: seq<(Attribute, seq<RawRule>)>, includeRemote: bool, key: Attribute)
    requires ruleSet != []
    ensures var last := ruleSet[|ruleSet| - 1];
      var g := Generated(s, c, ruleSet, includeRemote);
      var prev := Generated(s, c, ruleSet[..|ruleSet| - 1], includeRemote);
      && (Contributes(s, c, last, includeRemote, key) ==>
            key in g && g[key] == ConvertRules(s, c, last.0, last.1, includeRemote)[key])
      && (!Contributes(s, c, last, includeRemote, key) ==>
            (key in g <==> key in prev) && (key in prev ==> g[key] == prev[key]))
  {
  }

  /**
   * Entry `i` of the rule set gives the client attribute and no later entry
   * does.
   */
  ghost predicate LastContributor(s: Services, c: Conditional, ruleSet: seq<(Attribute, seq<RawRule>)>,
                                  includeRemote: bool, key: Attribute, i: int)
  {
    && 0 <= i < |ruleSet|
    && Contributes(s, c, ruleSet[i], includeRemote, key)
    && forall j :: i < j < |ruleSet| ==> !Contributes(s, c, ruleSet[j], includeRemote, key)
  }

  /**
   * A client attribute is in the merged result exactly when some enabled
   * attribute's conversion has it; disabled attributes never contribute.
   */
  lemma {:induction false} GeneratedHas(s: Services, c: Conditional, ruleSet: seq<(Attribute, seq<RawRule>)>,
                                        includeRemote: bool, key: Attribute)
    ensures key in Generated(s, c, ruleSet, includeRemote)
        <==> exists i :: 0 <= i < |ruleSet| && Contributes(s, c, ruleSet[i], includeRemote, key)
    decreases |ruleSet|
  {
    if ruleSet != [] {
      var n := |ruleSet| - 1;
      var init := ruleSet[..n];
      GeneratedHas(s, c, init, includeRemote, key);
      GeneratedLast(s, c, ruleSet, includeRemote, key);
      if !Contributes(s, c, ruleSet[n], includeRemote, key) {
        if exists i :: 0 <= i < |ruleSet| && Contributes(s, c, ruleSet[i], includeRemote, key) {
          var i :| 0 <= i < |ruleSet| && Contributes(s, c, ruleSet[i], includeRemote, key);
          assert i != n;
          assert init[i] == ruleSet[i];
        }
        if exists i :: 0 <= i < |init| && Contributes(s, c, init[i], includeRemote, key) {
          var i :| 0 <= i < |init| && Contributes(s, c, init[i], includeRemote, key);
          assert init[i] == ruleSet[i];
        }
      }
    }
  }

  /**
   * A client attribute of the merged result holds the whole entry of the
   * last enabled attribute whose conversion has it: later attributes
   * replace earlier entries, they do not deep-merge them.
   */
  lemma {:induction false} GeneratedAt(s: Services, c: Conditional, ruleSet: seq<(Attribute, seq<RawRule>)>,
                                       includeRemote: bool, key: Attribute)
    requires key in Generated(s, c, ruleSet, includeRemote)
    ensures exists i ::
      && LastContributor(s, c, ruleSet, includeRemote, key, i)
      && Generated(s, c, ruleSet, includeRemote)[key] == ConvertRules(s, c, ruleSet[i].0, ruleSet[i].1, includeRemote)[key]
    decreases |ruleSet|
  {
    var n := |ruleSet| - 1;
    var init := ruleSet[..n];
    GeneratedLast(s, c, ruleSet, includeRemote, key);
    if Contributes(s, c, ruleSet[n], includeRemote, key) {
      assert LastContributor(s, c, ruleSet, includeRemote, key, n);
    } else {
      var prev := Generated(s, c, init, includeRemote);
      GeneratedAt(s, c, init, includeRemote, key);
      var i :| LastContributor(s, c, init, includeRemote, key, i)
        && prev[key] == ConvertRules(s, c, init[i].0, init[i].1, includeRemote)[key];
      LastContributorExtends(s, c, ruleSet, includeRemote, key, i);
    }
  }

  lemma LastContributorExtends(s: Services, c: Conditional, ruleSet: seq<(Attribute, seq<RawRule>)>,
                               includeRemote: bool, key: Attribute, i: int)
    requires ruleSet != []
    requires LastContributor(s, c, ruleSet[..|ruleSet| - 1], includeRemote, key, i)
    requires !Contributes(s, c, ruleSet[|ruleSet| - 1], includeRemote, key)
    ensures LastContributor(s, c, ruleSet, includeRemote, key, i) && ruleSet[i] == ruleSet[..|ruleSet| - 1][i]
  {
    var init := ruleSet[..|ruleSet| - 1];
    forall j | i < j < |ruleSet|
      ensures !Contributes(s, c, ruleSet[j], includeRemote, key)
    {
      if j < |init| {
        assert init[j] == ruleSet[j];
      }
    }
  }

  /** Dropping disabled attributes first does not change the merged result. */
  lemma {:induction false} GeneratedEnabledOnly(s: Services, c: Conditional, ruleSet: seq<(Attribute, seq<RawRule>)>,
                                                includeRemote: bool)
    ensures Generated(s, c, ruleSet, includeRemote) == Generated(s, c, Enabled(s.validator, ruleSet), includeRemote)
    decreases |ruleSet|
  {
    if ruleSet != [] {
      var init := ruleSet[..|ruleSet| - 1];
      var last := ruleSet[|ruleSet| - 1];
      GeneratedEnabledOnly(s, c, init, includeRemote);
      var e := Enabled(s.validator, init);
      if JsValidationEnabled(s.validator, last.0) {
        assert Enabled(s.validator, ruleSet) == e + [last];
        assert (e + [last])[..|e + [last]| - 1] == e;
        assert Generated(s, c, e + [last], includeRemote)
            == Generated(s, c, e, includeRemote) + ConvertRules(s, c, last.0, last.1, includeRemote);
      } else {
        assert Enabled(s.validator, ruleSet) == e;
      }
    }
  }

  /** Removing remote rules commutes with merging maps whose keys are disjoint. */
  lemma DropRemoteMerge(m: JsRules, n: JsRules, remoteRule: string)
    requires m.Keys !! n.Keys
    ensures DropRemote(m + n, remoteRule) == DropRemote(m, remoteRule) + DropRemote(n, remoteRule)
  {
    var l := DropRemote(m + n, remoteRule);
    var r := DropRemote(m, remoteRule) + DropRemote(n, remoteRule);
    forall k | k in m + n
      ensures (k in l <==> k in r) && (k in l ==> l[k] == r[k])
    {
      if k in n {
        assert (m + n)[k] == n[k];
      } else {
        assert (m + n)[k] == m[k];
      }
    }
    assert l == r;
  }

  /** No two enabled attributes of the rule set are converted to a common client attribute. */
  ghost predicate SeparateClientAttributes(s: Services, c: Conditional, ruleSet: seq<(Attribute, seq<RawRule>)>)
  {
    forall i, j ::
      && 0 <= i < j < |ruleSet|
      && JsValidationEnabled(s.validator, ruleSet[i].0)
      && JsValidationEnabled(s.validator, ruleSet[j].0)
      ==> ConvertRules(s, c, ruleSet[i].0, ruleSet[i].1, true).Keys !! ConvertRules(s, c, ruleSet[j].0, ruleSet[j].1, true).Keys
  }

  /**
   * When no two attributes share a client attribute, the result without
   * remote rules is the full result without its remote-rule cells.
   */
  lemma {:induction false} GeneratedWithoutRemote(s: Services, c: Conditional, ruleSet: seq<(Attribute, seq<RawRule>)>)
    requires SeparateClientAttributes(s, c, ruleSet)
    ensures Generated(s, c, ruleSet, false) == DropRemote(Generated(s, c, ruleSet, true), s.rules.remoteRule)
    decreases |ruleSet|
  {
    if ruleSet != [] {
      var n := |ruleSet| - 1;
      var init := ruleSet[..n];
      var last := ruleSet[n];
      assert SeparateClientAttributes(s, c, init) by {
        forall i, j | 0 <= i < j < |init| && JsValidationEnabled(s.validator, init[i].0) && JsValidationEnabled(s.validator, init[j].0)
          ensures ConvertRules(s, c, init[i].0, init[i].1, true).Keys !! ConvertRules(s, c, init[j].0, init[j].1, true).Keys
        {
          assert init[i] == ruleSet[i] && init[j] == ruleSet[j];
        }
      }
      GeneratedWithoutRemote(s, c, init);
      if JsValidationEnabled(s.validator, last.0) {
        var prev := Generated(s, c, init, true);
        var next := ConvertRules(s, c, last.0, last.1, true);
        forall k | k in prev ensures k !in next {
          GeneratedHas(s, c, init, true, k);
          var i :| 0 <= i < |init| && Contributes(s, c, init[i], true, k);
          assert init[i] == ruleSet[i];
        }
        ConvertWithoutRemote(s, c, last.0, last.1);
        DropRemoteMerge(prev, next, s.rules.remoteRule);
      }
    }
  }

  /**
   * Two attributes sharing a client attribute: a local rule and a remote rule
   * filed under the same client attribute "k".
   */
  function SharedClientAttribute(): Services
  {
    var v := DelegatedValidator(
      [("a", ["local"]), ("b", ["remote"])],
      raw => ParsedRule(raw, []),
      (attribute, rule) => false,
      rule => false,
      spec => []);
    var p := RuleParser(
      (attribute, rule, params, forceRemote) => ClientRule("k", Some(if rule == "remote" then "R" else rule), []),
      "R", v);
    Services(v, p, MessageParser((attribute, rule, params) => ""))
  }

  /**
   * Without the separation above, the result without remote rules is not a
   * part of the full result: the later attribute's remote-only entry replaces
   * the earlier attribute's local entry in the full result, and is dropped
   * from the other, so the local rule survives there alone.
   */
  lemma SharedClientAttributeKeepsLocalRuleOnlyWithoutRemote()
    ensures var s := SharedClientAttribute();
      && Cell(Generated(s, map[], s.validator.ruleSet, false), "k", "local") != []
      && Cell(Generated(s, map[], s.validator.ruleSet, true), "k", "local") == []
  {
    var s := SharedClientAttribute();
    var rs := s.validator.ruleSet;
    var local := ConvertedRule("local", [], "", false);
    var remote := ConvertedRule("remote", [], "", false);
    assert rs[..1] == [("a", ["local"])] && rs[..1][..0] == [];
    assert ["local"][..0] == [] && ["remote"][..0] == [];
    assert EntryOf(s, map[], "a", "local", false) == Some(Entry("k", "local", local));
    assert EntryOf(s, map[], "b", "remote", false) == None;
    assert EntryOf(s, map[], "b", "remote", true) == Some(Entry("k", "R", remote));
    var a := ConvertRules(s, map[], "a", ["local"], false);
    assert a == Append(map[], "k", "local", local);
    assert ConvertRules(s, map[], "b", ["remote"], false) == map[];
    var b := ConvertRules(s, map[], "b", ["remote"], true);
    assert b == Append(map[], "k", "R", remote);
    assert Generated(s, map[], rs[..1], false) == a;
    assert Generated(s, map[], rs[..1], true) == a;
    assert Generated(s, map[], rs, false) == a + map[];
    assert Generated(s, map[], rs, true) == a + b;
    assert Cell(b, "k", "local") == [];
    assert (a + b)["k"] == b["k"];
  }

  /** A parser that turns every forced rule into the remote rule. */
  ghost predicate HonoursForceRemote(p: RuleParser)
  {
    forall a, name, params :: p.getRule(a, name, params, true).rule == Some(p.remoteRule)
  }

  /**
   * The registry influences the conversion of a raw rule only through whether
   * that raw rule is conditional for the attribute, which is what
   * `forceRemote` is set to.
   */
  lemma ForceRemoteExactlyWhenConditional(s: Services, c: Conditional, attribute: Attribute, rawRule: RawRule, includeRemote: bool)
    ensures EntryOf(s, c, attribute, rawRule, includeRemote)
         == EntryOf(s, if rawRule in Lookup(c, attribute) then map[attribute := [rawRule]] else map[], attribute, rawRule, includeRemote)
    ensures var parsed := s.validator.parseRule(rawRule);
      var js := s.rules.getRule(attribute, parsed.name, parsed.parameters, IsConditionalRule(c, attribute, rawRule));
      var e := EntryOf(s, c, attribute, rawRule, includeRemote);
      && (e.Some? <==> IsValidatable(js.rule, includeRemote, s.rules.remoteRule))
      && (e.Some? ==> e.value.attribute == js.attribute && Some(e.value.rule) == js.rule)
  {
  }

  /** A raw rule that was not declared conditional is converted unforced. */
  lemma UnregisteredRuleNotForced(s: Services, c: Conditional, attribute: Attribute, rawRule: RawRule, includeRemote: bool)
    requires !IsConditionalRule(c, attribute, rawRule)
    ensures var parsed := s.validator.parseRule(rawRule);
      var js := s.rules.getRule(attribute, parsed.name, parsed.parameters, false);
      var e := EntryOf(s, c, attribute, rawRule, includeRemote);
      && (e.Some? <==> IsValidatable(js.rule, includeRemote, s.rules.remoteRule))
      && (e.Some? ==> e.value.attribute == js.attribute && Some(e.value.rule) == js.rule)
  {
  }

  /**
   * A rule declared with `sometimes` for an attribute is filed under the
   * remote rule when remote rules are wanted, and dropped when they are not,
   * whatever the parser would do with it unforced.
   */
  lemma SometimesForcesRemote(s: Services, c: Conditional, keys: seq<Attribute>, merge: seq<RawRule>,
                              attribute: Attribute, rawRule: RawRule, includeRemote: bool)
    requires HonoursForceRemote(s.rules) && s.rules.remoteRule != ""
    requires attribute in keys && rawRule in merge
    ensures var e := EntryOf(s, Register(c, keys, merge), attribute, rawRule, includeRemote);
      && (includeRemote ==> e.Some? && e.value.rule == s.rules.remoteRule)
      && (!includeRemote ==> e.None?)
  {
    RegisterIsUnion(c, keys, merge, attribute, rawRule);
  }
}
