# Unrestricted security-group ingress check (checkov), in Dafny

This project models checkov's `AbsSecurityGroupUnrestrictedIngress` check. The check is built once per watched port (22 for SSH, 3389 for RDP, and so on). It receives the attribute map of one Terraform resource, as the HCL loader produces it, and classifies the resource:

- An `aws_security_group` with `ingress` blocks is FAILED when one of its ingress rules lets 0.0.0.0/0 reach the port. Otherwise it is PASSED.
- An `aws_security_group_rule` with a `type` attribute is judged by itself when its type is `"ingress"`. Any other type gives UNKNOWN.
- A resource with neither attribute is PASSED.

The model has three modules:

- `PyValues` (`python_values.dfy`) holds the Python values of a configuration: None, strings, ints, bools, lists and dicts. It also holds the exceptions that reading them can raise, Python's `x[0]` and `for` iteration, and the two type forcers the check imports, `force_list` and `force_int`.
- `UnrestrictedIngress` (`unrestricted_ingress.dfy`) holds `contains_violation`, the two nested ingress loops and `scan_resource_conf`. They are written as functions. The watched port is a parameter, because the check sets it at construction and never changes it.
- `IngressProperties` (`ingress_properties.dfy`) holds the promised behaviour, stated against independent descriptions. The first is the flattened list of ingress rules. The second is the first rule that settles the verdict. The third is a declarative predicate, `ExposesPort`.

Every result is an `Except<T>`: either `Ok(value)` or `Raised(error)`. The error is the Python exception the original raises: `KeyError`, `IndexError` or `TypeError`. The check is not total. It raises in these situations:

- a missing `from_port` or `to_port` raises `KeyError` (direct indexing);
- an empty `from_port` or `to_port` list raises `IndexError` (`force_list([])[0]`);
- an empty `type` list raises `IndexError`;
- with the port in range, an empty `cidr_blocks` list or empty string raises `IndexError`;
- with the port in range, a `cidr_blocks` that is a dict raises `KeyError(0)`;
- with the port in range, a `cidr_blocks` that is None, an int or a bool raises `TypeError`;
- an `ingress` value that is None, an int or a bool raises `TypeError`.

The model raises in the same places. In particular, a missing `to_port` raises `KeyError` rather than meaning "no violation" (see `UnrestrictedIngress.ContainsViolation` and `LiteralMatchingExamples`). `force_list(None)` gives `[None]`, so a value that is None never reads as an empty list. The only attribute with a default is `cidr_blocks`: when it is missing, its default `[[]]` has an empty first element, so no CIDR is listed.

Because the loops return early, the verdict for a security group is decided by the FIRST dict rule that either violates or raises. A violating rule after a raising one is never reached. `ScanRulesStopsAtFirstDecisive` states this exactly.

## Model

| member | source | states |
|---|---|---|
| `PyValues.ForceListIdempotent` | checkov/terraform/checks/resource/aws/AbsSecurityGroupUnrestrictedIngress.py:3 | `force_list` applied to its own result changes nothing, and it returns an empty list only for an empty list |
| `PyValues.ForceList` | checkov/terraform/checks/resource/aws/AbsSecurityGroupUnrestrictedIngress.py:3 | assumed behaviour of `force_list`: a list is returned unchanged, any other value becomes the one-element list holding it |
| `PyValues.Subscript0` | checkov/terraform/checks/resource/aws/AbsSecurityGroupUnrestrictedIngress.py:62 | `x[0]` succeeds exactly on a non-empty list or string (a list gives its first element, a string its first character); an empty list or string raises IndexError; a dict raises KeyError(0); None, an int or a bool raises TypeError |
| `PyValues.FirstOf` | checkov/terraform/checks/resource/aws/AbsSecurityGroupUnrestrictedIngress.py:48 | `force_list(x)[0]` raises IndexError exactly when `x` is an empty list; otherwise it is the first element of `force_list(x)`, and a scalar is returned as itself |
| `PyValues.Iterate` | checkov/terraform/checks/resource/aws/AbsSecurityGroupUnrestrictedIngress.py:38 | iterating raises TypeError exactly on None, ints and bools; a list yields its elements; a string or dict yields only non-dict items (one per character for a string) |
| `PyValues.ParseInt` | checkov/terraform/checks/resource/aws/AbsSecurityGroupUnrestrictedIngress.py:4 | a string parses exactly when, after an optional leading sign, it is a non-empty run of decimal digits (so a placeholder such as `${var.port}` gives None); a leading `-` gives a non-positive value and no `-` a non-negative one |
| `PyValues.ForceInt` | checkov/terraform/checks/resource/aws/AbsSecurityGroupUnrestrictedIngress.py:4 | only ints, bools and non-empty strings coerce to an integer; an int coerces to itself, a bool to 1 or 0, and a string to its parse (so a placeholder string gives None) |
| `PyValues.ForceIntDecimal` | checkov/terraform/checks/resource/aws/AbsSecurityGroupUnrestrictedIngress.py:4 | `force_int(str(n)) == n` for every integer `n` |
| `UnrestrictedIngress.CidrBlocks` | checkov/terraform/checks/resource/aws/AbsSecurityGroupUnrestrictedIngress.py:62 | `conf.get('cidr_blocks', [[]])`: a present attribute is returned as it is; a missing one has an empty CIDR list as its first element |
| `UnrestrictedIngress.ContainsViolation` | checkov/terraform/checks/resource/aws/AbsSecurityGroupUnrestrictedIngress.py:57-66 | a missing `from_port` raises KeyError('from_port') and an empty one IndexError; after a readable `from_port`, a missing `to_port` raises KeyError('to_port') and an empty one IndexError; a violation needs `from_port`, `to_port` and `cidr_blocks` all present; the only KeyErrors it raises are for the two port keys and for indexing a dict with 0 |
| `UnrestrictedIngress.ScanRules` | checkov/terraform/checks/resource/aws/AbsSecurityGroupUnrestrictedIngress.py:40-43 | the inner loop never yields UNKNOWN, yields PASSED on no rules, and yields FAILED only when some dict rule violates |
| `UnrestrictedIngress.ScanEntries` | checkov/terraform/checks/resource/aws/AbsSecurityGroupUnrestrictedIngress.py:38-45 | the outer loop never yields UNKNOWN and yields PASSED on no entries |
| `UnrestrictedIngress.Scan` | checkov/terraform/checks/resource/aws/AbsSecurityGroupUnrestrictedIngress.py:36-55 | neither `ingress` nor `type` gives PASSED; with `ingress` the verdict is never UNKNOWN; UNKNOWN only for a standalone rule with a `type`; a resource of neither shape never raises |
| `IngressProperties.ViolationIsExposure` | checkov/terraform/checks/resource/aws/AbsSecurityGroupUnrestrictedIngress.py:57-66 | a rule violates iff both bounds coerce to integers enclosing the port and the first element of `cidr_blocks` lists the literal 0.0.0.0/0 |
| `IngressProperties.UncoercedBoundNeverViolates` | checkov/terraform/checks/resource/aws/AbsSecurityGroupUnrestrictedIngress.py:58-61 | a bound that does not coerce to an integer gives "no violation" |
| `IngressProperties.PortOutsideRangeNeverViolates` | checkov/terraform/checks/resource/aws/AbsSecurityGroupUnrestrictedIngress.py:61 | a port outside the inclusive range `[from_port, to_port]` gives "no violation" |
| `IngressProperties.InvertedRangeNeverViolates` | checkov/terraform/checks/resource/aws/AbsSecurityGroupUnrestrictedIngress.py:61 | with `from_port > to_port`, no port violates |
| `IngressProperties.InRangeViolatesIffOpenCidr` | checkov/terraform/checks/resource/aws/AbsSecurityGroupUnrestrictedIngress.py:61-64 | with the port in range: no `cidr_blocks` gives no violation, an empty one raises IndexError, and otherwise the rule violates iff the first CIDR list names 0.0.0.0/0 |
| `IngressProperties.OnlyFirstElementMatters` | checkov/terraform/checks/resource/aws/AbsSecurityGroupUnrestrictedIngress.py:58-62 | elements after the first in `from_port`, `to_port` or `cidr_blocks` never change the outcome |
| `IngressProperties.ScalarBoundIsSingleton` | checkov/terraform/checks/resource/aws/AbsSecurityGroupUnrestrictedIngress.py:58-59 | a port bound given as a bare scalar reads the same as the one-element list wrapping it |
| `IngressProperties.ScanRulesAppend` | checkov/terraform/checks/resource/aws/AbsSecurityGroupUnrestrictedIngress.py:40-43 | scanning `a + b` scans `b` only when `a` passes, and otherwise keeps `a`'s verdict |
| `IngressProperties.ScanEntriesFlattens` | checkov/terraform/checks/resource/aws/AbsSecurityGroupUnrestrictedIngress.py:38-43 | the nested loops equal one loop over the concatenation of `force_list` of every entry |
| `IngressProperties.ScanRulesStopsAtFirstDecisive` | checkov/terraform/checks/resource/aws/AbsSecurityGroupUnrestrictedIngress.py:40-45 | PASSED iff no dict rule violates or raises; FAILED iff the first such rule violates; a raised exception is the one the first such rule raised |
| `IngressProperties.ScanRulesWithoutErrors` | checkov/terraform/checks/resource/aws/AbsSecurityGroupUnrestrictedIngress.py:40-45 | when no dict rule raises, the verdict is FAILED iff some dict rule violates, else PASSED |
| `IngressProperties.ScanRulesSkipsNonDict` | checkov/terraform/checks/resource/aws/AbsSecurityGroupUnrestrictedIngress.py:41 | inserting a non-dict rule anywhere never changes the verdict |
| `IngressProperties.AggregateVerdict` | checkov/terraform/checks/resource/aws/AbsSecurityGroupUnrestrictedIngress.py:36-45 | a security group is PASSED iff no flattened ingress rule violates or raises, and FAILED iff the first one that does violates |
| `IngressProperties.AggregateWithoutErrors` | checkov/terraform/checks/resource/aws/AbsSecurityGroupUnrestrictedIngress.py:36-45 | when all dict rules evaluate, a security group is FAILED iff some flattened dict rule violates, else PASSED |
| `IngressProperties.IngressWithoutDictRulesPasses` | checkov/terraform/checks/resource/aws/AbsSecurityGroupUnrestrictedIngress.py:36-45 | an `ingress` without dict rules, an empty one included, gives PASSED |
| `IngressProperties.UniterableIngressRaises` | checkov/terraform/checks/resource/aws/AbsSecurityGroupUnrestrictedIngress.py:38 | an `ingress` that is None, an int or a bool raises TypeError |
| `IngressProperties.IngressTakesPrecedence` | checkov/terraform/checks/resource/aws/AbsSecurityGroupUnrestrictedIngress.py:36-47 | with `ingress` present, adding, changing or removing `type` leaves the verdict unchanged |
| `IngressProperties.StandaloneVerdict` | checkov/terraform/checks/resource/aws/AbsSecurityGroupUnrestrictedIngress.py:47-52 | a standalone rule whose type is not "ingress" is UNKNOWN whatever its ports and CIDRs; an "ingress" rule is FAILED, PASSED or raises exactly as its violation test, and raises the same exception; an empty `type` list raises IndexError |
| `IngressProperties.FailedHasExposedRule` | checkov/terraform/checks/resource/aws/AbsSecurityGroupUnrestrictedIngress.py:36-55 | FAILED always has a witness: a dict rule of the group, or the standalone ingress rule, that exposes the port to 0.0.0.0/0 |
| `IngressProperties.SshExamples` | checkov/terraform/checks/resource/aws/AbsSecurityGroupUnrestrictedIngress.py:21-31 | port 22 open to 0.0.0.0/0 fails as a group rule and as a standalone rule; 10.0.0.0/8 passes; range 20-25 contains 22; an egress rule is UNKNOWN |
| `IngressProperties.LiteralMatchingExamples` | checkov/terraform/checks/resource/aws/AbsSecurityGroupUnrestrictedIngress.py:58-64 | "0.0.0.0/1" and "::/0" are not open; a bare CIDR string is indexed to its first character; a string bound "22" is parsed; a missing `to_port` raises KeyError |

## Left out

- Check metadata and registration: the name, the id, the categories, the supported resource types and the base-class constructor. The watched port is a parameter of every function, not a field of a check object.
- The bodies of `force_list` and `force_int` live in checkov's type_forcers module, which is not part of this model. Their behaviour is assumed. `force_list(x)` is `x` for a list and `[x]` otherwise. `force_int(x)` returns ints unchanged, bools as 0 and 1, parses strings, and gives None for everything else.
- PyValues.ParseInt: reads only an optional sign followed by ASCII digits. Python's `int()` also accepts surrounding whitespace, `_` digit separators and non-ASCII digits, and those strings give None here.
- Floating-point values are not in the value model. Python's `force_int(22.0)` would give 22.
- PyValues.Iterate: iterating a dict yields its string keys in insertion order. The model gives no items, because dict key order is not modelled. The loop skips every non-dict item, so the verdict is the same either way.
- Python's `==` between values of different types (such as `1 == True`) only matters for the two string comparisons, `type == 'ingress'` and CIDR membership. There it is modelled as equality of `Str` values.
- Real CIDR or IP-address semantics. The check compares the literal string "0.0.0.0/0", and so does the model.
- HCL parsing, the dispatch of resources to checks by type, logging and report rendering.
- Concurrency. The check has no shared mutable state.
