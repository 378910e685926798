# PCDS gateway test oracle in Dafny

This project models the offline "oracle" of the PCDS Channel Access gateway test suite:
the code that predicts what a gateway should answer for a PV and judges what it did answer.
The suite itself starts IOCs and gateways and runs caget/caput; none of that is modelled.
What is modelled is the deterministic logic around it:

- the access oracle (`gateway_tests/util.py`): the three-valued `AccessBehavior` order,
  `interpret_access`, `promote_access`, `demote_access`, and `correct_gateway_pvinfo`.
  The last one turns the gateway's pvlist matches and access-security rules into the
  expected `PVInfo`. The module also holds the subnet lookup (`can_ping`, `get_pcds_subnet`)
  and the JSON sanitiser `_filter_data`;
- IPv4 arithmetic and the gateway host's interface table (`gateway_tests/interface.py`):
  `ip_to_int`, `ip_to_str`, `get_bcaddr`, `get_mask`, `contains_ip`, the two-pass
  `reread_epicscagp` and `subnet_from_ip`;
- structure diffing, categorising and tallying (`gateway_tests/conftest.py`):
  `find_differences`, `compare_structures`, `find_pvinfo_differences`,
  `interpret_pvinfo_differences` with its global cache, the `pvinfo_diff_report` counts,
  and the environment save/restore of `context_set_env` and `prod_addr_list`;
- the older, asymmetric `compare_structures` of `tests/conftest.py`;
- the caput log parser (`gateway_tests/process/test_logging.py`);
- the subscription-event comparison (`gateway_tests/process/test_subscriptions.py`);
- the configuration tables (`gateway_tests/config.py`, `gateway_tests/compare.py`,
  `gateway_tests/prod_config/conftest.py`): pvlist lines, the PV-to-IOC and IOC-to-host
  maps, the happi index, the configuration singleton, the missing-PV report, the client
  host list, the host filter and the caget comparison verdict;
- the count merge of `merge_outputs.py`.

Python values are modelled by `Values.Value`: None, bool, int, float (NaN or a real),
str, bytes, list, tuple, ndarray and dict. A dict is an association list in insertion
order (`Dicts.Dict`). Python `==` is `Values.PyEq`: numbers compare across int and float,
NaN is unequal to everything, and dicts compare without regard to order. Exceptions are
`Values.PyExc`, carried in `Wrappers.Result`. Messages that embed `str()` of a value are
`Values.Text`: literal pieces and shown values, since Python's float formatting is not modelled.

Where the code works by changing state, the model does too:
- `correct_gateway_pvinfo` fills its sets and dicts in loops;
- `InterfaceTable.InterfaceConfig` rebuilds its tables in place;
- `DiffReport.DiffCache` is the global diff cache;
- `Environment.ProcessEnvironment` is `os.environ`;
- `Config.PcdsConfigurationClass` holds the singleton.

Each such method is proved against a specification function, and the properties are proved
about that function.

## Model

| member | source | states |
|---|---|---|
| Access.Level | gateway_tests/util.py:206-209 | the IntEnum values are 0, 1, 2 |
| Access.ByValue | gateway_tests/util.py:213-214 | `AccessBehavior(i)` finds a member exactly for 0..2, the one with that value |
| Access.ByName | gateway_tests/util.py:217-218 | `AccessBehavior[s]` finds the member named `s`, and none when no member has that name |
| Access.Interpret | gateway_tests/util.py:212-223 | a member is itself; an int 0..2 is its member; a str is its member by name, else WRITE when it starts "WRITE", else ValueError; out-of-range ints and None raise AttributeError at `.startswith` |
| Access.InterpretRoundTrip | gateway_tests/util.py:212-218 | every member comes back from its value and from its name |
| Access.InterpretRenderings | gateway_tests/util.py:221-223 | "WRITE\|READ" is WRITE; "NO_ACCESS" raises ValueError |
| Access.Promote | gateway_tests/util.py:226-232 | the higher of the two interpreted arguments, so one of them; the first argument's error wins |
| Access.Demote | gateway_tests/util.py:235-241 | the lower of the two interpreted arguments, so one of them; the first argument's error wins |
| Access.PromoteDemoteCommute | gateway_tests/util.py:226-241 | promote and demote of members do not depend on argument order |
| PvInfo.AsDict | gateway_tests/util.py:19-29 | `dataclasses.asdict`: one item per field, in declaration order, name and value carried over |
| PvInfo.AsDictInjective | gateway_tests/util.py:19-29 | distinct records have distinct dict forms |
| PvInfo.BasicEnumName | gateway_tests/util.py:90-92 | IndexError exactly when there is no '.'; otherwise the text after the first '.' |
| PvInfo.BasicEnumNameOf | gateway_tests/util.py:90-92 | "Cls.MEMBER" gives back MEMBER whole, dots and all |
| PvInfo.FilterData | gateway_tests/util.py:168-184 | as written: dict keys and list lengths kept, tuples become lists, an ndarray becomes its unfiltered item list, bytes become a str of the same length, scalars unchanged |
| PvInfo.FilterItems | gateway_tests/util.py:179-180 | the list comprehension keeps the length |
| PvInfo.FilterEntries | gateway_tests/util.py:170-174 | the dict comprehension keeps the keys in order |
| PvInfo.FilterDataKeepsArrayBytes | gateway_tests/util.py:176-177 | an ndarray of byte strings comes out with its bytes, not JSON-safe, and a second pass changes it |
| PvInfo.FilterDataDeep | gateway_tests/util.py:168-184 | the intended sanitiser: the same shape facts, and every result is JSON-safe |
| PvInfo.FilterItemsDeep | gateway_tests/util.py:179-180 | lengths kept, every item JSON-safe |
| PvInfo.FilterEntriesDeep | gateway_tests/util.py:170-174 | keys kept, every value JSON-safe |
| PvInfo.FilterDataDeepKeepsSafe | gateway_tests/util.py:168-184 | a JSON-safe value is left alone |
| PvInfo.FilterItemsDeepKeepsSafe | gateway_tests/util.py:179-180 | a list of JSON-safe items is left alone |
| PvInfo.FilterEntriesDeepKeepsSafe | gateway_tests/util.py:170-174 | a dict of JSON-safe values is left alone |
| PvInfo.FilterDataDeepIdempotent | gateway_tests/util.py:168-184 | sanitising twice is sanitising once |
| PvInfo.FilterDataAgrees | gateway_tests/util.py:168-184 | without an ndarray inside, the code as written and the intended sanitiser agree |
| PvInfo.FilterItemsAgree | gateway_tests/util.py:179-180 | the same for lists |
| PvInfo.FilterEntriesAgree | gateway_tests/util.py:170-174 | the same for dicts |
| Interface.IpFold | gateway_tests/interface.py:148-153 | the fold succeeds exactly when every piece is a decimal number; otherwise the ValueError names a bad piece; the result is non-negative |
| Interface.IpToInt | gateway_tests/interface.py:148-153 | the accumulator loop computes the fold |
| Interface.IpFoldStep | gateway_tests/interface.py:151-152 | one turn shifts left by eight bits and adds the piece |
| Interface.IpFoldFour | gateway_tests/interface.py:148-153 | four pieces fold big-endian |
| Interface.IpValueOfQuad | gateway_tests/interface.py:148-153 | a dotted quad a.b.c.d is ((a·256+b)·256+c)·256+d |
| Interface.LowOctets | gateway_tests/interface.py:142-144 | the `& 255` / `>> 8` rounds give bytes below 256 |
| Interface.Reversed | gateway_tests/interface.py:145 | `reversed` reverses |
| Interface.IpToStr | gateway_tests/interface.py:140-145 | the four-round loop gives the dotted text of the low 32 bits, most significant octet first |
| Interface.LowOctetsLow | gateway_tests/interface.py:140-145 | only the low 32 bits are read |
| Interface.LowOctetsRecompose | gateway_tests/interface.py:140-145 | the four octets of a 32-bit number recompose it big-endian |
| Interface.LowOctetsOfQuad | gateway_tests/interface.py:140-145 | the octets of a big-endian quad are its numbers |
| Interface.IpValueOfText | gateway_tests/interface.py:140-153 | round trip `ip_to_int(ip_to_str(n)) == n` for 0 ≤ n < 2^32 |
| Interface.IpTextOfValue | gateway_tests/interface.py:140-153 | round trip `ip_to_str(ip_to_int(s)) == s` for a canonical dotted quad |
| Interface.IpTextLow32 | gateway_tests/interface.py:140-145 | `ip_to_str` depends only on the low 32 bits, whatever the sign |
| Interface.IpTextInjective | gateway_tests/interface.py:140-145 | distinct 32-bit numbers have distinct texts |
| Interface.Broadcast | gateway_tests/interface.py:135 | `ip \| ~mask` in 32 bits: the network bits of ip, every host bit set |
| Interface.BroadcastUnique | gateway_tests/interface.py:135 | those two properties determine the word |
| Interface.BroadcastIff | gateway_tests/interface.py:135 | a word is the broadcast word exactly when it has both properties |
| Interface.BroadcastIdempotent | gateway_tests/interface.py:132-137 | setting the host bits twice sets them once |
| Interface.BcaddrOf | gateway_tests/interface.py:132-137 | raises exactly when either text does not parse, the address first |
| Interface.BcaddrValue | gateway_tests/interface.py:132-137 | the text reads back as the broadcast word of the two parsed values |
| Interface.BcaddrIdempotent | gateway_tests/interface.py:132-137 | `get_bcaddr(get_bcaddr(ip, m), m) == get_bcaddr(ip, m)` |
| Interface.GetBcaddr | gateway_tests/interface.py:132-137 | the statement sequence computes `BcaddrOf` |
| Interface.ContainsIp | gateway_tests/interface.py:22-26 | true exactly when the address's broadcast text under the mask is the subnet's bcaddr; raises when parsing fails |
| Interface.ContainsOwnBcaddr | gateway_tests/interface.py:22-26 | a subnet contains its own broadcast address |
| Interface.ContainsIpMeaning | gateway_tests/interface.py:22-26 | containment is agreement with bcaddr on every network bit, with bcaddr's host bits all set |
| Interface.ContainsIpBy | gateway_tests/interface.py:22-26 | containment compares bcaddr with the text of the broadcast word |
| Interface.MaskFrom | gateway_tests/interface.py:122-129 | a returned mask is one of the guesses and reproduces bcaddr |
| Interface.MaskFromFirst | gateway_tests/interface.py:124-126 | the returned mask is the first guess that fits; every earlier guess misses |
| Interface.MaskFromNone | gateway_tests/interface.py:127-129 | when every guess misses, the "Could not find a valid netmask" ValueError |
| Interface.MaskFromError | gateway_tests/interface.py:124-125 | any other error is a parse error of a guess reached after misses |
| Interface.GetMask | gateway_tests/interface.py:122-129 | the loop computes `MaskOf`, which tries "255.255.252.0" before "255.255.255.0" |
| Interface.MaskOfFits | gateway_tests/interface.py:122-129 | a returned mask is a non-empty guess that reproduces bcaddr |
| PcdsSubnet.AndNat | gateway_tests/util.py:384 | `a & b` on non-negative ints is at most each operand |
| PcdsSubnet.AndNatIdempotent | gateway_tests/util.py:384 | masking twice with the same mask is masking once |
| PcdsSubnet.CanPing | gateway_tests/util.py:374-386 | the zip loop returns the lazy octet comparison: False at the first pair that differs under the mask, the int() ValueError of the first bad octet reached, True when the shortest list runs out |
| PcdsSubnet.PingOctetsMeaning | gateway_tests/util.py:378-386 | on decimal octets nothing raises, and the answer is True exactly when every zipped position agrees under the mask |
| PcdsSubnet.PingsOwnAddress | gateway_tests/util.py:374-386 | an interface reaches its own address |
| PcdsSubnet.PingsQuads | gateway_tests/util.py:374-386 | on dotted quads, can_ping compares the four octet pairs under the mask |
| PcdsSubnet.OctetsAgree | gateway_tests/util.py:383-386 | four parsed octets on each side agree exactly where their numbers do under the mask |
| PcdsSubnet.QuadParts | gateway_tests/util.py:378-379 | a dotted quad splits into four octets that parse back to its numbers |
| PcdsSubnet.SplitQuad | gateway_tests/util.py:379 | four dot-free texts joined by dots split back into them |
| PcdsSubnet.AndOctetOnes | gateway_tests/util.py:384 | the mask octet 255 keeps an octet |
| PcdsSubnet.AndOctet252 | gateway_tests/util.py:384 | the mask octet 252 clears an octet's two low bits |
| PcdsSubnet.AndAllOnes | gateway_tests/util.py:384 | a mask of k one-bits keeps a number below 2^k |
| PcdsSubnet.FirstSubnet | gateway_tests/util.py:494-497 | a returned name belongs to an interface that reaches the address |
| PcdsSubnet.FirstSubnetIsFirst | gateway_tests/util.py:494-496 | the returned interface comes no later than any interface that reaches the address |
| PcdsSubnet.FirstSubnetSkips | gateway_tests/util.py:494-496 | an interface that does not reach the address is passed over |
| PcdsSubnet.FirstSubnetNone | gateway_tests/util.py:497 | when no interface reaches the address, the "Recieved non-pcds ip address" ValueError |
| PcdsSubnet.GetPcdsSubnet | gateway_tests/util.py:480-497 | the loop over PSCAG01_IFS returns the first-match search |
| PcdsSubnet.ProbeText | gateway_tests/util.py:480-497 | the dotted text of the probe 172.21.90.5 |
| PcdsSubnet.CxiRefuses | gateway_tests/util.py:391-395 | cxi (172.21.68.10/22) does not reach 172.21.90.5 |
| PcdsSubnet.DetRefuses | gateway_tests/util.py:396-400 | det (172.21.58.10/24) does not reach it |
| PcdsSubnet.DevRefuses | gateway_tests/util.py:401-405 | dev (134.79.165.10/24) does not reach it |
| PcdsSubnet.DrpRefuses | gateway_tests/util.py:406-410 | drp (172.21.156.10/22) does not reach it |
| PcdsSubnet.KfeRefuses | gateway_tests/util.py:411-415 | kfe (172.21.92.10/22) does not reach it |
| PcdsSubnet.LasRefuses | gateway_tests/util.py:416-420 | las (172.21.160.10/22) does not reach it |
| PcdsSubnet.LfeAccepts | gateway_tests/util.py:421-425 | lfe (172.21.88.10/22) reaches it |
| PcdsSubnet.GetPcdsSubnetLfe | gateway_tests/util.py:390-497 | `get_pcds_subnet("172.21.90.5") == "lfe"` |
| InterfaceTable.LowerTwice | gateway_tests/interface.py:65 | lower-casing a subnet name twice is lower-casing it once |
| InterfaceTable.SubnetsFromShape | gateway_tests/interface.py:58-71 | the first pass keeps every subnet name lower-case and not in IGNORE_SUBNETS, and every mask empty |
| InterfaceTable.SubnetsFromKeys | gateway_tests/interface.py:58-71 | after the first pass a subnet is defined exactly when it was already or some broadcast line names it |
| InterfaceTable.InterfacesFrom | gateway_tests/interface.py:74-93 | the only exception the second pass raises is the KeyError of `self.subnets[subnet]` |
| InterfaceTable.InterfacesFromError | gateway_tests/interface.py:74-93 | the second pass raises exactly when an interface line names an undefined subnet, and then the KeyError of the first such line |
| InterfaceTable.InterfacesFromShape | gateway_tests/interface.py:74-93 | host names start "pscag", and interfaces are keyed by kept subnet names |
| InterfaceTable.RecordShaped | gateway_tests/interface.py:83-93 | recording one interface keeps that shape |
| InterfaceTable.InterfaceStepRecords | gateway_tests/interface.py:84-93 | one step forgets no earlier interface and records its own, creating the host's dict when missing |
| InterfaceTable.InterfacesFromRecords | gateway_tests/interface.py:74-93 | after a second pass that does not raise, every interface line is recorded under "pscag" + its digits, keyed by its subnet |
| InterfaceTable.Interfaces | gateway_tests/interface.py:96-97 | the nested `.values()` walk yields only interfaces of the table |
| InterfaceTable.Backfill | gateway_tests/interface.py:96-102 | the third pass keeps the subnet keys and their order |
| InterfaceTable.BackfillAppend | gateway_tests/interface.py:96-102 | the pass over `a + b` is the pass over `a`, then over `b` unless `a` raised |
| InterfaceTable.BackfillSets | gateway_tests/interface.py:96-102 | only empty masks change; a mask that is set comes from `get_mask` of the subnet's bcaddr and the first interface on that subnet, in visiting order, that did not get the empty mask |
| InterfaceTable.MaskedByFirst | gateway_tests/interface.py:96-102 | when `get_mask` never answers with the empty mask, the interface that set a subnet's mask is the first on that subnet |
| InterfaceTable.BackfillStable | gateway_tests/interface.py:98 | a subnet that already has a mask is left alone |
| InterfaceTable.BackfillCovers | gateway_tests/interface.py:96-102 | a pass that does not raise leaves every visited interface's subnet with a mask |
| InterfaceTable.BackfillNamed | gateway_tests/interface.py:96-102 | the third pass keeps the names lower-case and not ignored |
| InterfaceTable.MaskOfGiven | gateway_tests/interface.py:122-129 | `get_mask` never returns an empty mask |
| InterfaceTable.Prune | gateway_tests/interface.py:105-107 | removal never grows the table |
| InterfaceTable.PruneIn | gateway_tests/interface.py:105-107 | exactly the subnets with a mask are kept, unchanged |
| InterfaceTable.PruneAppend | gateway_tests/interface.py:105-107 | removal distributes over concatenation |
| InterfaceTable.PruneKeys | gateway_tests/interface.py:105-107 | a name is kept exactly when its subnet has a mask |
| InterfaceTable.PruneGet | gateway_tests/interface.py:105-107 | a kept subnet's entry is unchanged |
| InterfaceTable.PruneUnique | gateway_tests/interface.py:105-107 | removal keeps the names distinct |
| InterfaceTable.PruneStep | gateway_tests/interface.py:105-107 | one `del` on the snapshot `list(self.subnets.items())` advances the removal by one entry |
| InterfaceTable.UniqueBefore | gateway_tests/interface.py:105-107 | the entry under the loop is neither among the kept ones before it nor later in the table |
| InterfaceTable.ReadingNames | gateway_tests/interface.py:50-107 | whatever the read raised, every subnet name is lower-case and not ignored and every host starts "pscag" |
| InterfaceTable.KeptMaskedBy | gateway_tests/interface.py:96-107 | from a table with no masks, a subnet the third and fourth passes keep has the mask of its first interface not answered with the empty mask |
| InterfaceTable.ReadingMasks | gateway_tests/interface.py:50-107 | a read that raises nothing leaves every subnet with `get_mask` of its bcaddr and its first interface not answered with the empty mask, and of its very first interface when `get_mask` never answers so |
| InterfaceTable.FirstMasksGiven | gateway_tests/interface.py:96-102 | when `get_mask` never answers with the empty mask, each mask comes from the subnet's first interface |
| InterfaceTable.ReadingMaskOfFirst | gateway_tests/interface.py:50-107 | with the real `get_mask`, a read that raises nothing leaves every subnet with `get_mask` of its bcaddr and the first interface on it in the order the hosts were read |
| InterfaceTable.ReadingContains | gateway_tests/interface.py:50-107 | with `get_mask`, every subnet's mask is one of the guesses and the subnet contains the address of one of its interfaces |
| InterfaceTable.MaskedKeeps | gateway_tests/interface.py:95-107 | from an unmasked table, the third and fourth passes keep exactly the subnets some interface is on |
| InterfaceTable.ReadingKeeps | gateway_tests/interface.py:50-107 | a read that raises nothing keeps exactly the subnets a broadcast line defines and an interface is on |
| InterfaceTable.ReadingResolves | gateway_tests/interface.py:50-107 | every interface's subnet is in the subnet table |
| InterfaceTable.CanPing | gateway_tests/interface.py:35-39 | an interface reaches an address exactly when the address's broadcast text under its subnet's mask is the subnet's bcaddr |
| InterfaceTable.SubnetOf | gateway_tests/interface.py:110-114 | an answer is a subnet of the table |
| InterfaceTable.SubnetOfFirst | gateway_tests/interface.py:111-113 | the first subnet, in table order, that contains the address is the answer |
| InterfaceTable.SubnetOfOk | gateway_tests/interface.py:111-113 | an answer contains the address, and no subnet before it does |
| InterfaceTable.SubnetOfNone | gateway_tests/interface.py:114 | when no subnet contains the address, the "Recieved non-pcds ip address" ValueError |
| InterfaceTable.SubnetOfError | gateway_tests/interface.py:111-114 | any other error is the one `contains_ip` raised on a subnet reached after misses |
| InterfaceTable.SubnetOfFound | gateway_tests/interface.py:110-114 | with no parse errors, a subnet that contains the address means an answer |
| InterfaceTable.SubnetOfInterface | gateway_tests/interface.py:50-114 | after a clean read, every subnet has an interface whose own address it contains, and `subnet_from_ip` answers for that address |
| InterfaceTable.InterfaceConfig.constructor | gateway_tests/interface.py:46-52 | both tables start empty |
| InterfaceTable.InterfaceConfig.Reread | gateway_tests/interface.py:50-107 | the four passes leave the tables and the exception as the read specification says |
| InterfaceTable.InterfaceConfig.ReadSubnets | gateway_tests/interface.py:58-71 | the first pass leaves the subnets as SubnetsFrom gives and the hosts unchanged |
| InterfaceTable.InterfaceConfig.ReadInterfaces | gateway_tests/interface.py:74-93 | the second pass leaves the hosts and error as InterfacesFrom gives and the subnets unchanged |
| InterfaceTable.InterfaceConfig.BackfillMasks | gateway_tests/interface.py:96-102 | the third pass leaves the subnets and error as Backfill gives over every interface |
| InterfaceTable.InterfaceConfig.BackfillHost | gateway_tests/interface.py:97-102 | the inner loop over one host's interfaces |
| InterfaceTable.InterfaceConfig.PruneSubnets | gateway_tests/interface.py:105-107 | the fourth pass leaves the subnets as Prune gives and the hosts unchanged |
| InterfaceTable.InterfaceConfig.SubnetFromIp | gateway_tests/interface.py:110-114 | the loop returns the first-match search of the table |
| Oracle.Advance | gateway_tests/util.py:280-287 | a match of another subnet changes nothing; a match of the subnet records its file and keeps every earlier file and DENY |
| Oracle.ScanFrom | gateway_tests/util.py:280-301 | the first loop keeps its tables well formed and only grows them; it stops on an unknown command only for a command some match has |
| Oracle.ScanMatches | gateway_tests/util.py:277-301 | the loop with its early returns computes ScanFrom from empty tables |
| Oracle.OnSubnetOnly | gateway_tests/util.py:281-282 | exactly the matches whose file's basename starts with the subnet |
| Oracle.ScanIgnoresOtherSubnets | gateway_tests/util.py:281-282 | matches of other subnets do not change the first loop's outcome |
| Oracle.FirstDecisiveDecides | gateway_tests/util.py:288-301 | the first match of the subnet that is a DENY FROM naming this host or an unknown command decides: NO_ACCESS for the DENY FROM, NotImplementedError for the unknown command; a DENY FROM naming other hosts does not stop the loop |
| Oracle.ScanRecordsDeny | gateway_tests/util.py:284-285 | a DENY match of the subnet leaves its file in the DENY table |
| Oracle.HostsFrom | gateway_tests/util.py:326-328 | the union succeeds exactly when every host group is defined, and is then the hosts of the named groups; otherwise the KeyError of an undefined one |
| Oracle.GatherHosts | gateway_tests/util.py:326-328 | the update loop computes HostsFrom |
| Oracle.RuleApplies | gateway_tests/util.py:323-329 | a rule without hosts applies to every host; one with hosts applies exactly to the hosts of its groups |
| Oracle.PromoteRules | gateway_tests/util.py:321-330 | the rule loop never lowers the behavior |
| Oracle.PromoteRulesIsMax | gateway_tests/util.py:321-330 | the result is the maximum: every applying rule grants no more, and it is the start or what an applying rule grants |
| Oracle.PromoteRulesAppend | gateway_tests/util.py:321-330 | one more rule can only raise the result |
| Oracle.EvaluateGroup | gateway_tests/util.py:319-331 | the nested loops compute GroupBehavior |
| Oracle.FileBehavior | gateway_tests/util.py:306-331 | one turn of the second loop computes FileVerdict |
| Oracle.SummarizeFiles | gateway_tests/util.py:304-331 | a finished loop gives every file its verdict; an error is some file's error |
| Oracle.Failures | gateway_tests/util.py:304-331 | the set of possible errors is empty exactly when every file evaluates |
| Oracle.Rendering | gateway_tests/util.py:348-351 | the access text reads back as the behavior, and is "WRITE\|READ" exactly for WRITE |
| Oracle.Expected | gateway_tests/util.py:345-362 | the IOC's record without address, with the access demoted to the gateway's behavior and so at most both; raises exactly when the IOC's access does not interpret |
| Oracle.SingletonMember | gateway_tests/util.py:345-347 | a one-element set has one member, so `gw_behavior[0]` is well defined |
| Oracle.Outcomes | gateway_tests/util.py:244-364 | there is always some answer |
| Oracle.SubnetOutcomes | gateway_tests/util.py:277-364 | the same, once the subnet is known |
| Oracle.FromTables | gateway_tests/util.py:304-364 | the same, once the first loop has finished |
| Oracle.CorrectGatewayPvinfo | gateway_tests/util.py:244-364 | the method's answer is one the oracle allows |
| Oracle.AnswerOnSubnet | gateway_tests/util.py:277-364 | the same, from the subnet on |
| Oracle.Decide | gateway_tests/util.py:304-364 | the same, from the tables on |
| Oracle.TimeoutUnchanged | gateway_tests/util.py:268-269 | a timed-out IOC record is the answer unchanged |
| Oracle.OutcomesOnSubnet | gateway_tests/util.py:273 | the answer depends on the address only through its subnet |
| Oracle.DenyFromHostGivesNoAccess | gateway_tests/util.py:288-296 | a DENY FROM the host, reached first, answers the bare NO_ACCESS record |
| Oracle.UnknownCommandRaises | gateway_tests/util.py:297-301 | an unknown command, reached first, raises NotImplementedError naming it |
| Oracle.DenyWins | gateway_tests/util.py:309-311 | a file with a DENY match is DISCONNECTED whatever it allows |
| Oracle.CombineCases | gateway_tests/util.py:337-364 | when every file evaluates: timeout, the demoted record of the one connecting file, or the RuntimeError |
| Oracle.DefaultReads | gateway_tests/process/test_permissions.py:77-79 | ASG DEFAULT gives READ to every host |
| Oracle.RwmfxScenario | gateway_tests/process/test_permissions.py:76-86 | ASG RWMFX gives WRITE to mfx-control and mfx-console and READ to every other host |
| Oracle.MfxHosts | gateway_tests/process/test_permissions.py:76 | HAG mfxhosts names the two mfx hosts |
| Differences.UnionKeys | gateway_tests/conftest.py:654 | `sorted(set(struct1).union(struct2))`: strictly ascending, exactly the keys of either struct |
| Differences.KeyStep | gateway_tests/conftest.py:655-679 | a key raises exactly when it is unskipped and one struct lacks it; it yields exactly when the values differ after `tolist` and the NaN rule, and then both plain values |
| Differences.StepOfKeyed | gateway_tests/conftest.py:655-679 | what a key yields carries that key |
| Differences.FindDifferences | gateway_tests/conftest.py:620-679 | the generator loop computes Differences |
| Differences.ThenNothing | gateway_tests/conftest.py:654-679 | yielding nothing leaves the rest of the scan |
| Differences.ThenThen | gateway_tests/conftest.py:654-679 | yields compose in order |
| Differences.ScanAt | gateway_tests/conftest.py:654-679 | the scan from one key on: that key's error stops it, otherwise its yield comes first |
| Differences.ScanSound | gateway_tests/conftest.py:654-679 | every yield comes from a key of the scan |
| Differences.ScanComplete | gateway_tests/conftest.py:654-679 | every key that yields is in a scan that does not raise |
| Differences.SortedCons | gateway_tests/conftest.py:654 | a key below every later key extends a sorted list |
| Differences.SortedTail | gateway_tests/conftest.py:654 | the tail of a sorted list is sorted and above its head |
| Differences.ScanSorted | gateway_tests/conftest.py:654-679 | yields come out in sorted key order |
| Differences.ScanFails | gateway_tests/conftest.py:654-679 | the scan raises exactly when some key does, and then with the first such key's error |
| Differences.DifferencesReported | gateway_tests/conftest.py:620-679 | exactly the differing keys are yielded, once each, with both values, in sorted order; nothing is yielded exactly when no key differs |
| Differences.DifferencesRaise | gateway_tests/conftest.py:656-664 | the generator raises exactly when an unskipped key is in one struct only |
| Differences.DifferencesRaiseFirst | gateway_tests/conftest.py:656-664 | the RuntimeError names the smallest such key and the struct that lacks it |
| Differences.PlainNanFree | gateway_tests/conftest.py:666-669 | `tolist` conversion keeps NaN-freedom and NaN-ness |
| Differences.GetItem | gateway_tests/conftest.py:657 | `struct[key]` is the item under that key |
| Differences.IdenticalNoDifferences | gateway_tests/conftest.py:620-679 | a struct compared with itself yields nothing when its values are NaN-free or a bare NaN |
| Differences.ArrayNaNDiffers | gateway_tests/conftest.py:666-679 | an array holding NaN differs from itself, yielded as a tuple |
| Differences.Message | gateway_tests/conftest.py:710-713 | the line names the key and desc1 before showing value1, then names desc2 before showing value2; it shows no other value and is never empty |
| Differences.Describe | gateway_tests/conftest.py:708-713 | the append loop computes Messages |
| Differences.CompareStructures | gateway_tests/conftest.py:682-714 | the method computes Comparison: the lines joined by "\n\t", or the generator's error |
| Differences.JoinedMessagesBlank | gateway_tests/conftest.py:714 | the joined text is empty exactly when there are no differences |
| Differences.ComparisonEmpty | gateway_tests/conftest.py:682-714 | "Identical structures will return an empty string": empty exactly when no key differs; raises exactly when a key is on one side only |
| Differences.PrefixedKeys | gateway_tests/conftest.py:741-751 | every key starts with the prefix |
| Differences.PrefixedUnique | gateway_tests/conftest.py:741-751 | prefixing keeps keys distinct |
| Differences.BasicNeverRaises | gateway_tests/conftest.py:728-735 | the dataclass dicts always have the same keys, so their comparison never raises |
| Differences.BasicDiffKeys | gateway_tests/conftest.py:728-735 | a difference there names an unskipped field other than the metadata |
| Differences.MdDiffKeys | gateway_tests/conftest.py:736-753 | a metadata difference names an unskipped prefixed key |
| Differences.PvinfoDifferencesRaise | gateway_tests/conftest.py:717-753 | raises exactly when a compared metadata dict has an unskipped key the other lacks |
| Differences.PvinfoDiffKeys | gateway_tests/conftest.py:717-753 | every difference names an unskipped field, or a `time_`/`ctrl_` key of a compared metadata dict |
| Differences.SameBasicNoDifferences | gateway_tests/conftest.py:728-735 | a record's fields do not differ from themselves |
| Differences.SameMdNoDifferences | gateway_tests/conftest.py:736-753 | NaN-free metadata does not differ from itself |
| Differences.SameRecordNoDifferences | gateway_tests/conftest.py:717-753 | a NaN-free record has no differences from itself |
| DiffReport.Name | gateway_tests/conftest.py:760-766 | every category's `.name` is one of the six member names |
| DiffReport.NameInjective | gateway_tests/conftest.py:760-766 | distinct categories have distinct names, so counting by name counts by category |
| DiffReport.Classification | gateway_tests/conftest.py:803-835 | the category of a difference: "name" is OTHER, a timed-out "error" TIMEOUT, a timestamp at the EPICS epoch INVALID_TIMESTAMP, any other timestamp INCORRECT_TIMESTAMP, "value" VALUE, the rest METADATA; only a non-numeric timestamp off the epoch raises TypeError at `val1 - val2` |
| DiffReport.DiffCache.constructor | gateway_tests/conftest.py:757 | the cache starts empty |
| DiffReport.DiffCache.CacheDiff | gateway_tests/conftest.py:769-770 | the category is appended to the PV's list, created when missing; nothing else changes |
| DiffReport.DiffCache.Report | gateway_tests/conftest.py:773-782 | the counts hold every cached category under its name with its number of occurrences, and add up to the number cached |
| DiffReport.CountInto | gateway_tests/conftest.py:781-782 | the inner loop adds one count per category of the PV's list |
| DiffReport.Increment | gateway_tests/conftest.py:782 | `counts[diff_type.name] += 1` keeps the tally and adds one to the total |
| DiffReport.IncrementGet | gateway_tests/conftest.py:782 | the same, for every category at once |
| DiffReport.IncrementSame | gateway_tests/conftest.py:782 | the bumped category's count goes up by one |
| DiffReport.IncrementOther | gateway_tests/conftest.py:782 | every other category's count is unchanged |
| DiffReport.FlattenSnoc | gateway_tests/conftest.py:780-781 | one more PV's list extends the cached sequence by that list |
| DiffReport.RecordedFlatten | gateway_tests/conftest.py:769-770 | caching categories adds exactly them to the cached multiset |
| DiffReport.RecordedMore | gateway_tests/conftest.py:769-770 | caching one more category for a PV is caching the longer list |
| DiffReport.DescribeAt | gateway_tests/conftest.py:837-840 | the loop from one difference on: its error stops it, otherwise its sentence comes first |
| DiffReport.InterpretPvinfoDifferences | gateway_tests/conftest.py:787-844 | the method returns Interpret and leaves the cache with the categories of the differences described appended |
| DiffReport.DescribeEach | gateway_tests/conftest.py:837-840 | the describe loop returns the sentences and caches their categories |
| DiffReport.CategoriesCached | gateway_tests/conftest.py:803-840 | one category per difference, in order, up to the first that raises; nothing after it is cached |
| DiffReport.DescriptionNotEmptyVerdict | gateway_tests/conftest.py:803-835 | no description is the "No differences." sentence |
| DiffReport.InterpretNoDifferences | gateway_tests/conftest.py:798-801 | "No differences." is returned exactly when there are none |
| DiffReport.DescribeAllTexts | gateway_tests/conftest.py:837-844 | the sentences are the descriptions of the differences, one each, in order |
| DiffReport.InterpretCaches | gateway_tests/conftest.py:787-844 | a description that does not raise caches one category per difference |
| Dicts.SumAssign | gateway_tests/conftest.py:782 | assigning a key changes the total by the new value less the old |
| Environment.SetEnvRoundTrip | gateway_tests/conftest.py:287-295 | entering and leaving at once restores the environment exactly when the variable was set before; an unset one keeps the new value |
| Environment.SetEnvExit | gateway_tests/conftest.py:293-295 | whatever the block did, leaving restores a previous value and touches no other variable |
| Environment.BroadcastAddrs | gateway_tests/conftest.py:1092-1094 | the bcaddr of each named subnet, in order; KeyError for a subnet the table lacks |
| Environment.BroadcastAddrsFirstMissing | gateway_tests/conftest.py:1092-1094 | the KeyError names the first missing subnet |
| Environment.AddrListSplits | gateway_tests/conftest.py:1095 | the joined address list splits back into the addresses |
| Environment.AddrListSet | gateway_tests/conftest.py:1095-1096 | inside the block the address list is the joined addresses, the auto flag is "NO", and every other variable is unchanged |
| Environment.Restore | gateway_tests/conftest.py:1098-1105 | a saved value is put back; an unset variable is deleted, raising KeyError when the block already deleted it; nothing else changes |
| Environment.AddrListRoundTrip | gateway_tests/conftest.py:1087-1105 | entering and leaving, with the block touching only the two variables, gives back the environment as it was |
| Environment.IocSubnets | gateway_tests/conftest.py:1126-1130 | exactly the table's subnets other than "dev" and "srv" |
| Environment.IocAddrsFound | gateway_tests/conftest.py:1120-1131 | the IOC preset never raises |
| Environment.GatewayAddrs | gateway_tests/conftest.py:1109-1116 | the gateway preset raises KeyError("dev") exactly when the table has no "dev" subnet |
| Environment.ProcessEnvironment.constructor | gateway_tests/conftest.py:1089 | the environment holds the given variables |
| Environment.ProcessEnvironment.SetEnv | gateway_tests/conftest.py:289-292 | returns the previous value and sets the variable |
| Environment.ProcessEnvironment.ResetEnv | gateway_tests/conftest.py:293-295 | leaves the environment as Reset says |
| Environment.ProcessEnvironment.EnterAddrList | gateway_tests/conftest.py:1087-1096 | on a missing subnet raises with the environment untouched; otherwise saves both previous values and sets both variables |
| Environment.ProcessEnvironment.ExitAddrList | gateway_tests/conftest.py:1098-1105 | restores the address list then the auto flag; an error from the first stops it |
| Environment.ProcessEnvironment.RestoreOne | gateway_tests/conftest.py:1098-1101 | one variable, as Restore says |
| Caputlog.Unpack2 | gateway_tests/process/test_logging.py:57 | two-name unpacking succeeds exactly for two pieces; otherwise ValueError |
| Caputlog.FromLineFields | gateway_tests/process/test_logging.py:54-74 | a parsed put: the PV name is the fifth token, the date the first three; user and host are the sides of the fourth token's only "@"; the value is the text before the only " old=" with the old value after it, or else the tokens after the PV name |
| Caputlog.UserAtHost | gateway_tests/process/test_logging.py:57 | user and host join back, around "@", into the token |
| Caputlog.ValueOldFields | gateway_tests/process/test_logging.py:59-60 | value and old value join back, around " old=", into the tail after the PV name |
| Caputlog.FromLineAt | gateway_tests/process/test_logging.py:55-71 | a fourth token without exactly one "@" raises ValueError; four tokens alone fail at `parts[4]` |
| Caputlog.FromLineTwoOlds | gateway_tests/process/test_logging.py:59-60 | a tail holding " old=" twice raises ValueError |
| Caputlog.TwoOlds | gateway_tests/process/test_logging.py:60 | the same, at the value split |
| Caputlog.TailInLine | gateway_tests/process/test_logging.py:55-60 | a line of more than five tokens is the first five, a space, and the rest |
| Caputlog.FormatParses | gateway_tests/process/test_logging.py:54-74 | round trip: a well-formed put written as caPutLog writes it parses back to itself |
| Caputlog.FormatTokens | gateway_tests/process/test_logging.py:55-71 | the written line splits into its tokens: the date, user@host, the PV name |
| Caputlog.FormatJoined | gateway_tests/process/test_logging.py:59-60 | a put with an old value reads back with both values |
| Caputlog.FormatTokensOnly | gateway_tests/process/test_logging.py:61-62 | a put without one reads back as its tokens and no old value |
| Caputlog.SplitOld | gateway_tests/process/test_logging.py:60 | a value and old value without spaces split apart on " old=" |
| Caputlog.IndexOf | gateway_tests/process/test_logging.py:88 | `lines.index(x)`: the first index holding x, and none exactly when x is absent |
| Caputlog.ParseAll | gateway_tests/process/test_logging.py:97 | the list comprehension succeeds exactly when every line parses, each line giving its put in order |
| Caputlog.ParseAllFirstError | gateway_tests/process/test_logging.py:97 | a failing list fails with its first failing line's error |
| Caputlog.ParseAllError | gateway_tests/process/test_logging.py:97 | that error is some line's error |
| Caputlog.FromLineNoRuntimeError | gateway_tests/process/test_logging.py:54-74 | `from_line` never raises RuntimeError |
| Caputlog.ParseLinesNoMarker | gateway_tests/process/test_logging.py:86-98 | RuntimeError exactly when no line is "Attempted Writes:" |
| Caputlog.FromStringNoMarker | gateway_tests/process/test_logging.py:86-90 | a text without the marker line raises RuntimeError |
| Caputlog.ParseLinesSplits | gateway_tests/process/test_logging.py:88-98 | the header is every line before the first marker, each later line is one put in order |
| Caputlog.ParseLinesPutFails | gateway_tests/process/test_logging.py:92-97 | with the marker present, the first put line that fails decides the error |
| Caputlog.FromBytesDecodes | gateway_tests/process/test_logging.py:101-103 | bytes parse as their latin-1 text, one character per byte |
| Subscriptions.CompareSubscriptionEvents | gateway_tests/process/test_subscriptions.py:104-177 | the loop with its early raises and returns computes Compare |
| Subscriptions.PairCheckMeaning | gateway_tests/process/test_subscriptions.py:117-130 | a pair passes exactly when the prepared events compare equal; otherwise it raises "Differences in event idx of total" with the comparison text |
| Subscriptions.PairsPass | gateway_tests/process/test_subscriptions.py:113-130 | the loop passes when every zipped pair passes |
| Subscriptions.PairsFirstFailure | gateway_tests/process/test_subscriptions.py:113-130 | the loop raises what the first failing pair raises |
| Subscriptions.SamePairsPass | gateway_tests/process/test_subscriptions.py:117-130 | pairs that compare equal pass |
| Subscriptions.EqualEventsPass | gateway_tests/process/test_subscriptions.py:104-177 | equal-length lists equal pair by pair pass |
| Subscriptions.FirstDifferenceRaises | gateway_tests/process/test_subscriptions.py:113-130 | the first differing pair raises with its 1-based index and the IOC count |
| Subscriptions.DuplicateInitialEvent | gateway_tests/process/test_subscriptions.py:138-151 | two identical gateway events for one IOC event raise "Duplicate initial event received" when strict, and are tolerated otherwise |
| Subscriptions.NanThenZeroEvents | gateway_tests/process/test_subscriptions.py:138-172 | two differing gateway events for one IOC event: tolerated or raised by `strict` when every difference is NaN then 0.0, raised "Differences in events" otherwise |
| Subscriptions.NanThenZeroMeaning | gateway_tests/process/test_subscriptions.py:153-160 | the `all(...)` holds exactly when every differing key is NaN in the first event and 0.0 in the second |
| Subscriptions.LengthMismatch | gateway_tests/process/test_subscriptions.py:174-177 | any other length mismatch fails the final assertion |
| Subscriptions.CtrlIgnoresTimestamp | gateway_tests/process/test_subscriptions.py:117-123 | for "ctrl" events the timestamp is not compared |
| Config.SplitRType | gateway_tests/config.py:20-23 | a line with a comma splits at its first comma, the record name holding none; a line without one gets the type "unknown" |
| Config.SplitRTypeRoundTrip | gateway_tests/config.py:20-23 | a comma-free record name and any type split back apart |
| Config.PvTypesLastLine | gateway_tests/config.py:33-35 | in `dict(...)` a record listed again later takes the later line's type |
| Config.Fill | gateway_tests/config.py:41-45 | one IOC's records map to that IOC; other keys are unchanged |
| Config.PvToIocFound | gateway_tests/config.py:40-45 | the inversion holds exactly the records some IOC lists, each mapped to an IOC that lists it |
| Config.PvToIocLastWins | gateway_tests/config.py:40-45 | a record listed by several IOCs maps to the last of them |
| Config.LineMatches | gateway_tests/config.py:57-60 | one match result per line |
| Config.LineMatchesAt | gateway_tests/config.py:58-59 | each result is the matcher on the stripped line |
| Config.IocToHost | gateway_tests/config.py:51-63 | the nested loops assign every matching line's IOC its host, in file and line order |
| Config.ScanStep | gateway_tests/config.py:57-62 | one more line's match is assigned last |
| Config.IocToHostLastMatch | gateway_tests/config.py:57-62 | the last line naming an IOC decides its host |
| Config.IocToHostUnnamed | gateway_tests/config.py:57-62 | an IOC no line names gets no host |
| Config.PvList | gateway_tests/config.py:74-76 | the records, in order, distinct when the dict's keys are |
| Config.GetPvlistByKey | gateway_tests/config.py:78-83 | the nested append loops compute ByKey |
| Config.PvsNamingSnoc | gateway_tests/config.py:80-82 | one more record adds itself once per time it names the item |
| Config.AppendGet | gateway_tests/config.py:82 | `dct[name].append(pv)` extends only that name's list |
| Config.AddNamesGet | gateway_tests/config.py:81-82 | the inner loop adds the record to each name's list once per occurrence |
| Config.Occurrences | gateway_tests/config.py:81-82 | the occurrences of a name in a list are its head's plus its tail's |
| Config.ByKeyLists | gateway_tests/config.py:78-83 | each name's list is the records naming it, in record order |
| Config.PvsNamingMembers | gateway_tests/config.py:78-83 | a record is in a name's list iff its name list holds that name |
| Config.PvlistByKeyMembers | gateway_tests/config.py:78-83 | the same for the happi records |
| Config.TotalAppend | gateway_tests/config.py:82 | one append adds one entry and keeps the keys distinct |
| Config.TotalAddNames | gateway_tests/config.py:81-82 | the inner loop adds one entry per name |
| Config.ByKeyTotal | gateway_tests/config.py:78-83 | the lists hold as many entries as all the name lists together |
| Config.PcdsConfiguration.constructor | gateway_tests/config.py:95-107 | the configuration holds the happi results, the inverted pvlists and the IOC-to-host map |
| Config.PcdsConfigurationClass.constructor | gateway_tests/config.py:87 | no instance yet |
| Config.PcdsConfigurationClass.Instance | gateway_tests/config.py:109-114 | the first call builds and stores a fresh configuration holding the given happi results, the inverted pvlists and the IOC-to-host map of the iocmanager configs; every later call returns the stored one |
| Config.InstanceShared | gateway_tests/config.py:109-114 | two calls return the same object, whose happi results, PV-to-IOC map and IOC-to-host map come from the first call's files whatever the second call's files hold |
| Compare.Unaccounted | gateway_tests/compare.py:18-19 | exactly the records the PV-to-IOC map lacks, kept in order, so sorted when the input is |
| Compare.SortedHead | gateway_tests/compare.py:18 | the head of a strictly sorted list is below the rest |
| Compare.MissingPvs | gateway_tests/compare.py:13-20 | exactly the happi records with no IOC, in ascending order, each with its happi items |
| Compare.MissingPvsOnce | gateway_tests/compare.py:13-20 | no record appears twice |
| Compare.ReportLines | gateway_tests/compare.py:37-40 | one line per record; a record name without a space is read back from the text before the line's first space, and the rest of the line is the record's items joined by ", " |
| Compare.LineRecord | gateway_tests/compare.py:40 | the record a printed line names is space-free and starts the line, followed by a space |
| Compare.MissingReport | gateway_tests/compare.py:13-40 | with space-free record names, the report names exactly the happi records no IOC lists, one per line, in ascending order |
| Compare.MissingReportItems | gateway_tests/compare.py:13-40 | with space-free record names, each line is its record, a space, then that record's own happi items joined by ", " |
| ProdConfig.HostNamesCover | gateway_tests/prod_config/conftest.py:15 | a host is listed exactly when it pairs a hutch with a suffix |
| ProdConfig.HostsFrom | gateway_tests/prod_config/conftest.py:15 | each hutch contributes its control host, then its daq host |
| ProdConfig.ClientHostsListed | gateway_tests/prod_config/conftest.py:13-15 | CLIENT_HOSTS is the fourteen hosts, hutch by hutch, control before daq |
| ProdConfig.ExtraPvs | gateway_tests/prod_config/conftest.py:101-106 | exactly the ".NORD" companions of the records ending ":ArrayData", no more of them than records |
| ProdConfig.ExtraPvsAppend | gateway_tests/prod_config/conftest.py:103-105 | the companions of a concatenation are concatenated |
| ProdConfig.GetExtraPvs | gateway_tests/prod_config/conftest.py:101-106 | the append loop computes ExtraPvs |
| ProdConfig.OtherSubnets | gateway_tests/prod_config/conftest.py:87-90 | succeeds exactly when every host's subnet lookup does; then exactly the hosts on another subnet than the PV's; otherwise a host's lookup error |
| ProdConfig.OtherSubnetsAppend | gateway_tests/prod_config/conftest.py:87-90 | the filter distributes over concatenation |
| ProdConfig.ReasonableHosts | gateway_tests/prod_config/conftest.py:81-91 | KeyError for a PV without an IOC, or an IOC without a host |
| ProdConfig.ReasonableHostsKept | gateway_tests/prod_config/conftest.py:81-91 | with every lookup succeeding, exactly the client hosts off the PV's subnet |
| ProdConfig.SkipKeysMeaning | gateway_tests/prod_config/conftest.py:48-51 | a key is skipped exactly when it is "address" or changed between the two IOC reads |
| ProdConfig.HostDiffsAt | gateway_tests/prod_config/conftest.py:60-77 | each host asked gets the differences of its predicted answer from its reading, and no other key appears |
| ProdConfig.HostDiffsUnique | gateway_tests/prod_config/conftest.py:60-77 | one entry per host |
| ProdConfig.CompareGetsSkips | gateway_tests/prod_config/conftest.py:21-78 | no host's differences name "address" or a field that changed between the two IOC reads |
| ProdConfig.CagetsVerdict | gateway_tests/prod_config/conftest.py:94-98 | the check passes exactly when every host's list is empty |
| ProdConfig.CagetsVerdictFirst | gateway_tests/prod_config/conftest.py:96-97 | the first non-empty list decides: its message's error, or the AssertionError |
| ProdConfig.FirstFailing | gateway_tests/prod_config/conftest.py:96-97 | the first host whose list is not empty, if any |
| ProdConfig.FirstFailingAt | gateway_tests/prod_config/conftest.py:96-97 | FirstFailing finds the first non-empty list |
| ProdConfig.AssertCagets | gateway_tests/prod_config/conftest.py:94-98 | the loop returns the verdict, and caches the categories of the failing host's differences only |
| LegacyCompare.Line | tests/conftest.py:414 | the line shows the gateway's value, then the IOC's, and no other value; it is never empty |
| LegacyCompare.LineMentions | tests/conftest.py:414 | the line names the key and "GW" before the gateway's value, and "IOC" before the IOC's |
| LegacyCompare.Step | tests/conftest.py:412-417 | after a KeyError nothing changes; a key the gateway struct lacks raises KeyError naming it |
| LegacyCompare.CompareStructures | tests/conftest.py:410-418 | the loop, with `gw_struct[key]` raising, computes Comparison |
| LegacyCompare.ErrorStays | tests/conftest.py:412-413 | once a key raises, later entries change nothing |
| LegacyCompare.LinesLast | tests/conftest.py:412-417 | the last IOC entry raises when missing, adds its line when reported, else nothing |
| LegacyCompare.AnyMissingLast | tests/conftest.py:412-413 | some entry is missing iff one before the last is, or the last is |
| LegacyCompare.LinesRaise | tests/conftest.py:412-413 | the comparison raises exactly when some IOC key is missing from the gateway struct |
| LegacyCompare.FirstMissingRaises | tests/conftest.py:412-413 | the KeyError names the first such key in IOC order |
| LegacyCompare.PrefixAgrees | tests/conftest.py:412-417 | an entry's verdict does not depend on later entries |
| LegacyCompare.LinesFromReported | tests/conftest.py:414-417 | every line comes from an IOC entry whose value differs |
| LegacyCompare.ReportedHasLine | tests/conftest.py:414-417 | every differing entry has its line |
| LegacyCompare.LinesReport | tests/conftest.py:411-417 | the lines are exactly those of the differing entries other than "chid" |
| LegacyCompare.JoinedLinesBlank | tests/conftest.py:418 | the joined text is empty exactly when there are no lines |
| LegacyCompare.ComparisonEmpty | tests/conftest.py:410-418 | the text is empty exactly when no entry is reported |
| LegacyCompare.GatewayExtrasIgnored | tests/conftest.py:412-413 | gateway keys the IOC struct lacks are never looked at |
| LegacyCompare.SelfEntry | tests/conftest.py:413-414 | an entry of a struct is neither missing nor different in the same struct |
| LegacyCompare.IdenticalEmpty | tests/conftest.py:410-418 | a NaN-free struct compared with itself gives the empty text |
| MergeOutputs.BumpCount | merge_outputs.py:14 | `all_data[key] += value` adds value under key and nothing elsewhere |
| MergeOutputs.BumpKeys | merge_outputs.py:14 | the key is now present, other keys unchanged |
| MergeOutputs.BumpUnique | merge_outputs.py:14 | the keys stay distinct |
| MergeOutputs.BumpTotal | merge_outputs.py:14 | the total grows by value |
| MergeOutputs.MergeCounts | merge_outputs.py:8-14 | the nested loops compute Merge |
| MergeOutputs.ItemSumUnique | merge_outputs.py:13 | in a file with distinct keys, a key's summed items are its value |
| MergeOutputs.GetAppend | merge_outputs.py:13 | another key's item does not change a lookup |
| MergeOutputs.SumOverAppend | merge_outputs.py:10-14 | summing over files distributes over concatenation |
| MergeOutputs.SumOverRemove | merge_outputs.py:10-14 | the sum over files is one file's plus the rest's |
| MergeOutputs.MultisetRemove | merge_outputs.py:7 | removing the same file from two orderings keeps them orderings of each other |
| MergeOutputs.SumOverPermutation | merge_outputs.py:7-14 | the sum over files does not depend on their order |
| MergeOutputs.AddFileGet | merge_outputs.py:13-14 | one file adds its values to each key's count |
| MergeOutputs.AddFileKeys | merge_outputs.py:13-14 | one file adds its keys |
| MergeOutputs.KeysInit | merge_outputs.py:13 | a file's keys are those before its last item and the last item's |
| MergeOutputs.MergeSums | merge_outputs.py:8-14 | each key's merged count is the sum of its values over all files |
| MergeOutputs.MergeKeys | merge_outputs.py:8-14 | a key is merged exactly when some file has it |
| MergeOutputs.MergeUnique | merge_outputs.py:8-14 | each key appears once |
| MergeOutputs.AddFileUnique | merge_outputs.py:13-14 | one file keeps the keys distinct |
| MergeOutputs.MergeOrderFree | merge_outputs.py:7-14 | the glob order does not change which keys are merged nor their counts |
| MergeOutputs.SumSnoc | merge_outputs.py:13-14 | a dict's total is that of all but its last item, plus the last |
| MergeOutputs.AddFileTotal | merge_outputs.py:13-14 | one file adds its own total |
| MergeOutputs.MergeTotal | merge_outputs.py:8-14 | the merged total is the sum of the files' totals |

## Left out

- Process orchestration: starting IOCs and gateways, pytest fixtures, sockets, caproto and pyepics reads and writes, logging, threads and timeouts. The readings they produce (`caget_from_host`, the subscription event lists, the cache contents) are parameters.
- `correct_gateway_pvinfo` follows `gateway_tests/util.py:244-364` as written: three access levels and a RuntimeError for inconsistent configs. A later design with more access levels and a different filename filter is not what this code does, so it is not modelled.
- `predict_gateway_response` is not part of this model. `gateway_tests/prod_config/conftest.py:61-70` calls it and then calls `correct_gateway_pvinfo` with keywords that function does not take; the predicted answer per host is therefore the `answer` parameter of `ProdConfig.HostDiffs`.
- Regular expressions: the epicscagp lines (`IP_VARIABLE`, `INTERFACE`, `BROADCAST`) arrive already matched as `InterfaceTable.EpicsLine`, and `IOCMANAGER_RE` is the `matcher` parameter of `Config.IocToHost`.
- DNS: `subnet_from_hostname` (`gateway_tests/interface.py:116-119`) is the `subnetOf` parameter of `ProdConfig.OtherSubnets`, a fixed function, so a name resolves the same way every time it is asked.
- The `functools.lru_cache` on `subnet_from_ip` and `subnet_from_hostname` (`gateway_tests/interface.py:109-119`) is not modelled. It changes no answer in this repository, because `reread_epicscagp` runs only from `__init__` (`gateway_tests/interface.py:48`), before any lookup. It would change an answer after a second re-read: Python would return the subnet cached before that re-read, while the model's `InterfaceTable.InterfaceConfig.Reread` followed by `InterfaceTable.InterfaceConfig.SubnetFromIp` looks the address up in the new table.
- File and JSON I/O: reading the epicscagp script, the pvlists, the iocmanager configs and `happi_info.json`; the globs and symlink skip of `get_ioc_to_pvs`; `json.dump` of the report and the merge; `os.remove` of the merged files. Their contents are inputs.
- Dates: the caput log's date is kept as its unparsed text; `strptime` and the current year are left out.
- Floating point: a float is NaN or an exact real, so rounding, `abs(val1 - val2)` in hours and the `:.2f` formatting are not modelled; messages embedding `str()` of a value keep the value as `Shown(v)` instead of its text.
- Python `==` on containers has an identity shortcut (a list holding NaN equals itself when it is the same object); `Values.PyEq` compares by value only.
- `numpy` arrays: an ndarray is its item list; element-wise `!=` in the legacy `compare_structures` (which would raise on multi-element arrays) is modelled as `Values.PyEq`.
- Dicts: a `Dicts.Dict` may hold a key twice, and only the lemmas that need distinct keys assume it.
- Python set iteration order in `correct_gateway_pvinfo` is not fixed; `Oracle.Outcomes` is the set of answers any order can give.
- Oracle.CombineCases (and Oracle.Combine): the RuntimeError's text omits the list of connecting files, which `str()` of enum pairs would render.
- DiffReport.DiffCache.Report: the counts are returned, not written to a file.
- Compare.ReportLines: the lines are returned, not printed; argument parsing and `main` are left out.
- MergeOutputs.MergeCounts: file contents are dicts of integers; other JSON values are not modelled.
- Caputlog: the UDP listener that collects the log is left out.
- Strings.ParseNat: models `int()` only on unsigned ASCII digit text. Python's `int()` also takes a sign, surrounding whitespace, underscores between digits and non-ASCII decimal digits, so `ip_to_int("10.0.0.-1")` (gateway_tests/interface.py:146-151) gives 167772159 in Python while `Interface.IpFold` and `Interface.IpToInt` give a ValueError. The same narrowing applies to `can_ping`'s `int(num)` (gateway_tests/util.py:378-379). The texts these functions receive come from regex captures and DNS answers, which are plain dotted quads.
- Strings.Lower: folds only ASCII letters, where `str.lower()` also folds non-ASCII letters; subnet names in the epicscagp script are ASCII.
- Environment.ProcessEnvironment.ExitAddrList: models only leaving the block normally. `prod_addr_list` (gateway_tests/conftest.py:1075-1105) has no `finally`, so a block that raises leaves `EPICS_CA_ADDR_LIST` and `EPICS_CA_AUTO_ADDR_LIST` set to the values inside the block; the model has no exit for that case.
- Config.PcdsConfiguration: holds only `happi_info`, `pv_to_ioc` and `ioc_to_host`. The other three fields, `gateway_config`, `access_security` and `interface_config` (gateway_tests/config.py:96-104), come from file parsers that are not modelled. `GatewayConfig` and `AccessSecurityConfig` belong to an outside library; their parsed content reaches the model as the `Oracle.Configuration` parameter of `correct_gateway_pvinfo`. The interface table is `InterfaceTable.InterfaceConfig`, built on its own; the production checks reach it only through their `subnetOf` parameter.

## Findings

| source | as written | input that shows it | evidently intended | confidence | as-written member | corrected member |
|---|---|---|---|---|---|---|
| gateway_tests/util.py:176-177 | `_filter_data` returns an ndarray's `tolist()` without filtering its items | `np.array([b"A"])`, modelled as `VArray([VBytes([0x41])])`: the result still holds bytes, is not JSON-serialisable, and a second pass changes it | the items are filtered like a list's, so the result is always JSON-safe and filtering is idempotent | medium, not executed | PvInfo.FilterDataKeepsArrayBytes | PvInfo.FilterDataDeepIdempotent |
