/**
 * What the unrestricted-ingress check promises, stated against independent
 * descriptions of its inputs: the flattened list of ingress rules, the first
 * rule that settles the verdict, and a declarative reading of "this rule
 * exposes the port to the whole IPv4 internet".
 */
module IngressProperties {
  import opened PyValues
  import opened UnrestrictedIngress

  /** The rules the nested ingress loops visit, in order: every entry forced to a list, concatenated. */
  function Flatten(entries: seq<Value>): (rules: seq<Value>)
    ensures entries == [] ==> rules == []
  {
    if entries == [] then [] else ForceList(entries[0]) + Flatten(entries[1..])
  }

  /** The flattened ingress rules of a security group (none when `ingress` cannot be iterated). */
  function IngressRules(conf: map<string, Value>): seq<Value>
    requires "ingress" in conf
  {
    match Iterate(conf["ingress"])
    case Ok(entries) => Flatten(entries)
    case Raised(_) => []
  }

  /** A rule that is a dict and violates. */
  predicate Violates(rule: Value, port: int) {
    rule.Dict? && ContainsViolation(rule.fields, port) == Ok(true)
  }

  /** A rule that ends the scan: a dict that violates or whose test raises. */
  predicate Decides(rule: Value, port: int) {
    rule.Dict? && ContainsViolation(rule.fields, port) != Ok(false)
  }

  /** No rule before position `k` ends the scan. */
  predicate UndecidedBefore(rules: seq<Value>, k: int, port: int)
    requires 0 <= k <= |rules|
  {
    forall j :: 0 <= j < k ==> !Decides(rules[j], port)
  }

  /** Every dict rule can be tested without raising. */
  predicate NoRuleRaises(rules: seq<Value>, port: int) {
    forall k :: 0 <= k < |rules| && rules[k].Dict? ==> ContainsViolation(rules[k].fields, port).Ok?
  }

  /** The first element of `rule[key]`, forced to an integer, is `n`. */
  predicate PortBound(rule: map<string, Value>, key: string, n: int) {
    key in rule && FirstOf(rule[key]).Ok? && ForceInt(FirstOf(rule[key]).value) == Some(n)
  }

  /** A CIDR list (or a single CIDR string) that names 0.0.0.0/0 literally. */
  predicate ListsOpenCidr(cidrs: Value) {
    cidrs == Str(OpenCidr) || (cidrs.List? && Str(OpenCidr) in cidrs.elems)
  }

  /**
   * The rule admits traffic from anywhere to the port: both bounds are
   * integers enclosing the port, and the first CIDR list lists 0.0.0.0/0.
   */
  ghost predicate ExposesPort(rule: map<string, Value>, port: int) {
    && (exists lo, hi :: PortBound(rule, "from_port", lo) && PortBound(rule, "to_port", hi) && lo <= port <= hi)
    && "cidr_blocks" in rule
    && Subscript0(rule["cidr_blocks"]).Ok?
    && ListsOpenCidr(Subscript0(rule["cidr_blocks"]).value)
  }

  // ---------------------------------------------------------------------
  // contains_violation

  /** A violation is exactly an exposed port; nothing else makes a rule violate. */
  lemma ViolationIsExposure(rule: map<string, Value>, port: int)
    ensures ContainsViolation(rule, port) == Ok(true) <==> ExposesPort(rule, port)
  {
    if ContainsViolation(rule, port) == Ok(true) {
      var lo := ForceInt(FirstOf(rule["from_port"]).value).value;
      var hi := ForceInt(FirstOf(rule["to_port"]).value).value;
      assert PortBound(rule, "from_port", lo) && PortBound(rule, "to_port", hi);
    }
    if ExposesPort(rule, port) {
      var lo, hi :| PortBound(rule, "from_port", lo) && PortBound(rule, "to_port", hi) && lo <= port <= hi;
      assert CidrBlocks(rule) == rule["cidr_blocks"];
    }
  }

  /** A bound that does not coerce to an integer means no violation. */
  lemma UncoercedBoundNeverViolates(rule: map<string, Value>, port: int)
    requires "from_port" in rule && "to_port" in rule
    requires FirstOf(rule["from_port"]).Ok? && FirstOf(rule["to_port"]).Ok?
    requires ForceInt(FirstOf(rule["from_port"]).value).None? || ForceInt(FirstOf(rule["to_port"]).value).None?
    ensures ContainsViolation(rule, port) == Ok(false)
  {
  }

  /** A port outside the inclusive range `[lo, hi]` is never a violation. */
  lemma PortOutsideRangeNeverViolates(rule: map<string, Value>, port: int, lo: int, hi: int)
    requires PortBound(rule, "from_port", lo) && PortBound(rule, "to_port", hi)
    requires port < lo || hi < port
    ensures ContainsViolation(rule, port) == Ok(false)
  {
  }

  /** An inverted range (`from_port > to_port`) violates for no port at all. */
  lemma InvertedRangeNeverViolates(rule: map<string, Value>, lo: int, hi: int)
    requires PortBound(rule, "from_port", lo) && PortBound(rule, "to_port", hi)
    requires lo > hi
    ensures forall port :: ContainsViolation(rule, port) == Ok(false)
  {
  }

  /**
   * With the port inside the range, the verdict rests on the first element
   * of `cidr_blocks` alone: a missing attribute means no violation, an empty
   * one raises, otherwise the rule violates iff that element lists 0.0.0.0/0.
   */
  lemma InRangeViolatesIffOpenCidr(rule: map<string, Value>, port: int, lo: int, hi: int)
    requires PortBound(rule, "from_port", lo) && PortBound(rule, "to_port", hi)
    requires lo <= port <= hi
    ensures "cidr_blocks" !in rule ==> ContainsViolation(rule, port) == Ok(false)
    ensures "cidr_blocks" in rule && Subscript0(rule["cidr_blocks"]).Ok? ==>
      ContainsViolation(rule, port) == Ok(ListsOpenCidr(Subscript0(rule["cidr_blocks"]).value))
    ensures "cidr_blocks" in rule && Subscript0(rule["cidr_blocks"]).Raised? ==>
      ContainsViolation(rule, port) == Raised(Subscript0(rule["cidr_blocks"]).error)
    ensures "cidr_blocks" in rule && rule["cidr_blocks"] == List([]) ==>
      ContainsViolation(rule, port) == Raised(IndexError)
  {
  }

  /** Only the first element of `from_port`, `to_port` and `cidr_blocks` is ever read. */
  lemma OnlyFirstElementMatters(rule: map<string, Value>, key: string, x: Value, xs: seq<Value>, ys: seq<Value>, port: int)
    requires key == "from_port" || key == "to_port" || key == "cidr_blocks"
    requires key in rule && rule[key] == List([x] + xs)
    ensures ContainsViolation(rule[key := List([x] + ys)], port) == ContainsViolation(rule, port)
  {
  }

  /** A port bound written as a bare scalar reads the same as the one-element list the loader produces. */
  lemma ScalarBoundIsSingleton(rule: map<string, Value>, key: string, v: Value, port: int)
    requires key == "from_port" || key == "to_port"
    requires !v.List?
    ensures ContainsViolation(rule[key := v], port) == ContainsViolation(rule[key := List([v])], port)
  {
  }

  // ---------------------------------------------------------------------
  // The ingress loops

  lemma {:induction false} ScanRulesAppend(a: seq<Value>, b: seq<Value>, port: int)
    ensures ScanRules(a + b, port) ==
      if ScanRules(a, port) == Ok(Passed) then ScanRules(b, port) else ScanRules(a, port)
  {
    if a == [] {
      assert a + b == b;
    } else {
      assert (a + b)[0] == a[0];
      assert (a + b)[1..] == a[1..] + b;
      ScanRulesAppend(a[1..], b, port);
    }
  }

  /** The two nested loops scan the flattened rules in order, as one loop. */
  lemma {:induction false} ScanEntriesFlattens(entries: seq<Value>, port: int)
    ensures ScanEntries(entries, port) == ScanRules(Flatten(entries), port)
  {
    if entries != [] {
      ScanEntriesFlattens(entries[1..], port);
      ScanRulesAppend(ForceList(entries[0]), Flatten(entries[1..]), port);
    }
  }

  /**
   * The verdict of the rule loop is settled by the first rule that ends the
   * scan: PASSED iff no rule does, FAILED iff that rule violates, and
   * otherwise the exception its test raised.
   */
  lemma {:induction false} ScanRulesStopsAtFirstDecisive(rules: seq<Value>, port: int)
    ensures ScanRules(rules, port) == Ok(Passed) <==> UndecidedBefore(rules, |rules|, port)
    ensures ScanRules(rules, port) == Ok(Failed) <==>
      exists k :: 0 <= k < |rules| && Violates(rules[k], port) && UndecidedBefore(rules, k, port)
    ensures ScanRules(rules, port).Raised? ==>
      exists k :: 0 <= k < |rules| && rules[k].Dict? && UndecidedBefore(rules, k, port) &&
        ContainsViolation(rules[k].fields, port) == Raised(ScanRules(rules, port).error)
  {
    if rules != [] {
      var x, rest := rules[0], rules[1..];
      ScanRulesStopsAtFirstDecisive(rest, port);
      forall k | 1 <= k <= |rules|
        ensures UndecidedBefore(rules, k, port) <==> !Decides(x, port) && UndecidedBefore(rest, k - 1, port)
      {
        if UndecidedBefore(rules, k, port) {
          forall j | 0 <= j < k - 1 ensures !Decides(rest[j], port) {
            assert rest[j] == rules[j + 1];
          }
        }
        if !Decides(x, port) && UndecidedBefore(rest, k - 1, port) {
          forall j | 0 <= j < k ensures !Decides(rules[j], port) {
            if j > 0 {
              assert rules[j] == rest[j - 1];
            }
          }
        }
      }
      assert UndecidedBefore(rules, 0, port);
      if !Decides(x, port) {
        assert ScanRules(rules, port) == ScanRules(rest, port);
        if ScanRules(rest, port) == Ok(Failed) {
          var k :| 0 <= k < |rest| && Violates(rest[k], port) && UndecidedBefore(rest, k, port);
          assert rules[k + 1] == rest[k];
          assert UndecidedBefore(rules, k + 1, port);
        }
        forall k | 0 <= k < |rules| && Violates(rules[k], port) && UndecidedBefore(rules, k, port)
          ensures ScanRules(rest, port) == Ok(Failed)
        {
          assert k > 0;
          assert rest[k - 1] == rules[k];
          assert UndecidedBefore(rest, k - 1, port);
        }
        if ScanRules(rest, port).Raised? {
          var k :| 0 <= k < |rest| && rest[k].Dict? && UndecidedBefore(rest, k, port) &&
            ContainsViolation(rest[k].fields, port) == Raised(ScanRules(rest, port).error);
          assert rules[k + 1] == rest[k];
          assert UndecidedBefore(rules, k + 1, port);
        }
      }
    }
  }

  /** When no rule raises, FAILED holds iff some rule violates, and PASSED otherwise. */
  lemma {:induction false} ScanRulesWithoutErrors(rules: seq<Value>, port: int)
    requires NoRuleRaises(rules, port)
    ensures ScanRules(rules, port) ==
      if exists k :: 0 <= k < |rules| && Violates(rules[k], port) then Ok(Failed) else Ok(Passed)
  {
    if rules != [] {
      var rest := rules[1..];
      assert forall k :: 0 <= k < |rest| ==> rest[k] == rules[k + 1];
      ScanRulesWithoutErrors(rest, port);
      if exists k :: 0 <= k < |rest| && Violates(rest[k], port) {
        var k :| 0 <= k < |rest| && Violates(rest[k], port);
        assert Violates(rules[k + 1], port);
      }
      if exists k :: 0 <= k < |rules| && Violates(rules[k], port) {
        var k :| 0 <= k < |rules| && Violates(rules[k], port);
        if k > 0 {
          assert Violates(rest[k - 1], port);
        }
      }
    }
  }

  /** A rule that is not a dict is skipped wherever it stands. */
  lemma ScanRulesSkipsNonDict(a: seq<Value>, x: Value, b: seq<Value>, port: int)
    requires !x.Dict?
    ensures ScanRules(a + [x] + b, port) == ScanRules(a + b, port)
  {
    assert a + [x] + b == a + ([x] + b);
    assert ([x] + b)[1..] == b;
    ScanRulesAppend(a, [x] + b, port);
    ScanRulesAppend(a, b, port);
  }

  // ---------------------------------------------------------------------
  // scan_resource_conf

  /**
   * A security group: PASSED iff no flattened ingress rule ends the scan
   * (an empty `ingress` included), FAILED iff the first rule that does
   * violates; never UNKNOWN.
   */
  lemma AggregateVerdict(conf: map<string, Value>, port: int)
    requires "ingress" in conf && Iterate(conf["ingress"]).Ok?
    ensures Scan(conf, port) == ScanRules(IngressRules(conf), port)
    ensures Scan(conf, port) == Ok(Passed) <==> UndecidedBefore(IngressRules(conf), |IngressRules(conf)|, port)
    ensures Scan(conf, port) == Ok(Failed) <==>
      exists k :: 0 <= k < |IngressRules(conf)| && Violates(IngressRules(conf)[k], port) && UndecidedBefore(IngressRules(conf), k, port)
  {
    ScanEntriesFlattens(Iterate(conf["ingress"]).value, port);
    ScanRulesStopsAtFirstDecisive(IngressRules(conf), port);
  }

  /** A security group whose dict rules all evaluate: FAILED iff some rule violates, else PASSED. */
  lemma AggregateWithoutErrors(conf: map<string, Value>, port: int)
    requires "ingress" in conf && Iterate(conf["ingress"]).Ok?
    requires NoRuleRaises(IngressRules(conf), port)
    ensures Scan(conf, port) == Ok(Failed) <==> exists k :: 0 <= k < |IngressRules(conf)| && Violates(IngressRules(conf)[k], port)
    ensures Scan(conf, port) == Ok(Passed) <==> !exists k :: 0 <= k < |IngressRules(conf)| && Violates(IngressRules(conf)[k], port)
  {
    ScanEntriesFlattens(Iterate(conf["ingress"]).value, port);
    ScanRulesWithoutErrors(IngressRules(conf), port);
  }

  /** A security group whose ingress holds no dict rule (an empty list included) passes. */
  lemma IngressWithoutDictRulesPasses(conf: map<string, Value>, port: int)
    requires "ingress" in conf && Iterate(conf["ingress"]).Ok?
    requires forall k :: 0 <= k < |IngressRules(conf)| ==> !IngressRules(conf)[k].Dict?
    ensures Scan(conf, port) == Ok(Passed)
  {
    AggregateVerdict(conf, port);
  }

  /** An `ingress` attribute that cannot be iterated raises TypeError. */
  lemma UniterableIngressRaises(conf: map<string, Value>, port: int)
    requires "ingress" in conf && (conf["ingress"].Null? || conf["ingress"].Int? || conf["ingress"].Bool?)
    ensures Scan(conf, port) == Raised(TypeError)
  {
  }

  /** With `ingress` present, `type` has no effect on the verdict. */
  lemma IngressTakesPrecedence(conf: map<string, Value>, t: Value, port: int)
    requires "ingress" in conf
    ensures Scan(conf["type" := t], port) == Scan(conf, port)
    ensures Scan(conf - {"type"}, port) == Scan(conf, port)
  {
  }

  /**
   * A standalone rule: a type other than "ingress" gives UNKNOWN whatever the
   * ports and CIDRs; an "ingress" rule is FAILED, PASSED or raises exactly
   * as its own violation test; an empty `type` list raises IndexError.
   */
  lemma StandaloneVerdict(conf: map<string, Value>, port: int)
    requires "ingress" !in conf && "type" in conf
    ensures conf["type"] == List([]) ==> Scan(conf, port) == Raised(IndexError)
    ensures FirstOf(conf["type"]).Ok? && FirstOf(conf["type"]).value != Str("ingress") ==>
      Scan(conf, port) == Ok(Unknown)
    ensures FirstOf(conf["type"]) == Ok(Str("ingress")) ==>
      && (Scan(conf, port) == Ok(Failed) <==> ContainsViolation(conf, port) == Ok(true))
      && (Scan(conf, port) == Ok(Passed) <==> ContainsViolation(conf, port) == Ok(false))
      && (Scan(conf, port).Raised? <==> ContainsViolation(conf, port).Raised?)
      && (ContainsViolation(conf, port).Raised? ==> Scan(conf, port) == Raised(ContainsViolation(conf, port).error))
  {
  }

  /**
   * FAILED is never reported on ambiguous input: it names a rule (an
   * ingress dict of the group, or the standalone ingress rule itself) that
   * exposes the port to 0.0.0.0/0.
   */
  lemma FailedHasExposedRule(conf: map<string, Value>, port: int)
    requires Scan(conf, port) == Ok(Failed)
    ensures "ingress" in conf ==>
      exists k :: 0 <= k < |IngressRules(conf)| && IngressRules(conf)[k].Dict? && ExposesPort(IngressRules(conf)[k].fields, port)
    ensures "ingress" !in conf ==>
      "type" in conf && FirstOf(conf["type"]) == Ok(Str("ingress")) && ExposesPort(conf, port)
  {
    if "ingress" in conf {
      AggregateVerdict(conf, port);
      var rules := IngressRules(conf);
      var k :| 0 <= k < |rules| && Violates(rules[k], port) && UndecidedBefore(rules, k, port);
      ViolationIsExposure(rules[k].fields, port);
    } else {
      ViolationIsExposure(conf, port);
    }
  }

  // ---------------------------------------------------------------------
  // Worked examples

  /** A rule in the form the loader produces: single-element lists around every attribute. */
  function LoadedRule(fromPort: int, toPort: int, cidr: string): map<string, Value> {
    map["from_port" := List([Int(fromPort)]), "to_port" := List([Int(toPort)]), "cidr_blocks" := List([List([Str(cidr)])])]
  }

  /** SSH open to the world is caught in both resource shapes; a private range is not. */
  lemma SshExamples()
    ensures ContainsViolation(LoadedRule(22, 22, "0.0.0.0/0"), 22) == Ok(true)
    ensures Scan(map["ingress" := List([Dict(LoadedRule(22, 22, "0.0.0.0/0"))])], 22) == Ok(Failed)
    ensures Scan(LoadedRule(22, 22, "0.0.0.0/0")["type" := List([Str("ingress")])], 22) == Ok(Failed)
    ensures ContainsViolation(LoadedRule(22, 22, "10.0.0.0/8"), 22) == Ok(false)
    ensures Scan(map["ingress" := List([Dict(LoadedRule(22, 22, "10.0.0.0/8"))])], 22) == Ok(Passed)
    ensures ContainsViolation(LoadedRule(20, 25, "0.0.0.0/0"), 22) == Ok(true)
    ensures Scan(LoadedRule(22, 22, "0.0.0.0/0")["type" := List([Str("egress")])], 22) == Ok(Unknown)
  {
  }

  /**
   * Boundary cases of the literal matching: other spellings of "anywhere"
   * are not recognised, a bare CIDR string is indexed to its first
   * character, a bound given as a string is parsed, and a missing `to_port`
   * raises KeyError.
   */
  lemma LiteralMatchingExamples()
    ensures ContainsViolation(LoadedRule(22, 22, "0.0.0.0/1"), 22) == Ok(false)
    ensures ContainsViolation(LoadedRule(22, 22, "::/0"), 22) == Ok(false)
    ensures ContainsViolation(LoadedRule(22, 22, "0.0.0.0/0")["cidr_blocks" := Str("0.0.0.0/0")], 22) == Ok(false)
    ensures ContainsViolation(LoadedRule(22, 22, "0.0.0.0/0")["from_port" := List([Str("22")])], 22) == Ok(true)
    ensures ContainsViolation(LoadedRule(22, 22, "0.0.0.0/0") - {"to_port"}, 22) == Raised(KeyError(Str("to_port")))
  {
  }
}

