/**
 * The unrestricted-ingress check for AWS security groups: given one
 * resource's attribute map and the port the check instance watches, it
 * classifies the resource as PASSED, FAILED or UNKNOWN, or raises the Python
 * exception the original raises on a malformed configuration.
 *
 * The port is fixed when a check instance is built and never changes, so it
 * is a parameter of every function here.
 */
module UnrestrictedIngress {
  import opened PyValues

  datatype CheckResult = Passed | Failed | Unknown

  /** The only source range the check treats as open; compared as a literal string. */
  const OpenCidr: string := "0.0.0.0/0"

  /** `conf.get('cidr_blocks', [[]])`: a missing attribute reads as one empty CIDR list. */
  function CidrBlocks(rule: map<string, Value>): (v: Value)
    ensures "cidr_blocks" in rule ==> v == rule["cidr_blocks"]
    ensures "cidr_blocks" !in rule ==> Subscript0(v) == Ok(List([])) && ForceList(Subscript0(v).value) == []
  {
    if "cidr_blocks" in rule then rule["cidr_blocks"] else List([List([])])
  }

  /**
   * `contains_violation(rule)`: the first elements of `from_port` and
   * `to_port` are forced to integers; when both are integers and enclose the
   * port, the rule violates iff the first element of `cidr_blocks`, forced to
   * a list, holds the literal "0.0.0.0/0".
   */
  function ContainsViolation(rule: map<string, Value>, port: int): (r: Except<bool>)
    ensures "from_port" !in rule ==> r == Raised(KeyError(Str("from_port")))
    ensures "from_port" in rule && rule["from_port"] == List([]) ==> r == Raised(IndexError)
    ensures "from_port" in rule && FirstOf(rule["from_port"]).Ok? && "to_port" !in rule ==>
      r == Raised(KeyError(Str("to_port")))
    ensures "from_port" in rule && FirstOf(rule["from_port"]).Ok? && "to_port" in rule && rule["to_port"] == List([]) ==>
      r == Raised(IndexError)
    ensures r == Ok(true) ==> "from_port" in rule && "to_port" in rule && "cidr_blocks" in rule
    ensures r.Raised? && r.error.KeyError? ==> r.error.key in {Str("from_port"), Str("to_port"), Int(0)}
  {
    if "from_port" !in rule then Raised(KeyError(Str("from_port")))
    else
      var fromFirst :- FirstOf(rule["from_port"]);
      if "to_port" !in rule then Raised(KeyError(Str("to_port")))
      else
        var toFirst :- FirstOf(rule["to_port"]);
        var lo, hi := ForceInt(fromFirst), ForceInt(toFirst);
        if lo.Some? && hi.Some? && lo.value <= port <= hi.value then
          var cidrs :- Subscript0(CidrBlocks(rule));
          Ok(Str(OpenCidr) in ForceList(cidrs))
        else
          Ok(false)
  }

  /**
   * The inner `for rule in ingress_rules` loop: rules that are not dicts are
   * skipped, the first dict rule that violates makes the verdict FAILED, and
   * an exception raised while testing a rule ends the scan.
   */
  function ScanRules(rules: seq<Value>, port: int): (r: Except<CheckResult>)
    ensures r != Ok(Unknown)
    ensures r == Ok(Failed) ==>
      exists k :: 0 <= k < |rules| && rules[k].Dict? && ContainsViolation(rules[k].fields, port) == Ok(true)
    ensures rules == [] ==> r == Ok(Passed)
  {
    if rules == [] then Ok(Passed)
    else if rules[0].Dict? then
      match ContainsViolation(rules[0].fields, port)
      case Raised(e) => Raised(e)
      case Ok(violates) =>
        if violates then Ok(Failed)
        else
          var rest := ScanRules(rules[1..], port);
          assert rest == Ok(Failed) ==> exists k :: 1 <= k < |rules| && rules[k].Dict? && ContainsViolation(rules[k].fields, port) == Ok(true);
          rest
    else
      var rest := ScanRules(rules[1..], port);
      assert rest == Ok(Failed) ==> exists k :: 1 <= k < |rules| && rules[k].Dict? && ContainsViolation(rules[k].fields, port) == Ok(true);
      rest
  }

  /**
   * The outer `for ingress_rule in ingress_conf` loop: each entry is forced
   * to a list and its rules are scanned; a verdict other than PASSED ends
   * the scan.
   */
  function ScanEntries(entries: seq<Value>, port: int): (r: Except<CheckResult>)
    ensures r != Ok(Unknown)
    ensures entries == [] ==> r == Ok(Passed)
  {
    if entries == [] then Ok(Passed)
    else
      var first := ScanRules(ForceList(entries[0]), port);
      if first == Ok(Passed) then ScanEntries(entries[1..], port) else first
  }

  /**
   * `scan_resource_conf(conf)`: a security group with an `ingress` attribute
   * is judged by its ingress rules; otherwise a standalone rule with a `type`
   * attribute is judged by itself when its type is "ingress" and is UNKNOWN
   * otherwise; a resource with neither passes.
   */
  function Scan(conf: map<string, Value>, port: int): (r: Except<CheckResult>)
    ensures "ingress" !in conf && "type" !in conf ==> r == Ok(Passed)
    ensures "ingress" in conf ==> r != Ok(Unknown)
    ensures r == Ok(Unknown) ==> "ingress" !in conf && "type" in conf
    ensures r.Raised? ==> "ingress" in conf || "type" in conf
  {
    if "ingress" in conf then
      var entries :- Iterate(conf["ingress"]);
      ScanEntries(entries, port)
    else if "type" in conf then
      var ruleType :- FirstOf(conf["type"]);
      if ruleType == Str("ingress") then
        var violates :- ContainsViolation(conf, port);
        Ok(if violates then Failed else Passed)
      else
        Ok(Unknown)
    else
      Ok(Passed)
  }
}
