# neppo IP diagnostics panel — a Dafny model of its core

neppo is a single-page network diagnostics panel. Its logic is the class
`IPInfoTool` in `script.js`. This project models the deterministic routines
under its DOM updates and network calls:

- the port-list parser of the port scanner (`parsePorts`);
- the checks `startPortScan` makes before it scans;
- the per-port aggregation loop of `performPortScan`, and `getServiceName`;
- the address predicates `isIPv4`, `isIPv6`, `isValidDomain` and `isPrivateIP`;
- `expandIPv6`, and `getReverseDNSName` with its `in-addr.arpa` / `ip6.arpa`
  names (section 3.5 of RFC 1035, section 2.5 of RFC 3596);
- what the panel makes of DNS-over-HTTPS replies:
  - the PTR name clean-up of `fetchReverseDNS`;
  - `fetchDNSRecords` and `formatDNSResults`;
  - `queryDNSServer`, and the propagated-server count of `displayPropagationResults`.

The network stays outside the model. A reply is given as its HTTP success
flag plus the `Answer` array of its body. A promise settled under
`Promise.allSettled` is given as `Fulfilled(value)` or `Rejected`. A port
probe is given as its settled outcome, one per port.

Modules, one file each:

| file | module | contents |
|---|---|---|
| `common.dfy` | `Common` | `Option`, `Result`, `Min`, `Max` |
| `text.dfy` | `Text` | the JavaScript string built-ins used: `split` on one character, `join`, `trim`, `reverse`, `padStart`, ASCII `toLowerCase`, decimal rendering; with the split/join algebra |
| `js_number.dfy` | `JsNumber` | `parseInt` without a radix, as ECMAScript defines it |
| `port_spec.dfy` | `PortSpec` | `parsePorts`: a loop method, proved against a specification function |
| `address.dfy` | `Address` | address predicates, `expandIPv6` (a loop method), reverse names |
| `dns.dfy` | `Dns` | DNS reply handling and the propagation count |
| `port_scan.dfy` | `PortScan` | scan admission, `performPortScan` (a loop method), service names |

`IPInfoTool` keeps only UI state in its fields (`currentIP`,
`currentDomain`), so the model has no class. Pure routines are functions.
`parsePorts`, `expandIPv6` and `performPortScan`, which build arrays in loops,
are methods with loop invariants. Each is proved equal to a specification
function or to per-index facts, and lemmas state the promised properties of
those functions.

`parsePorts` is the method `PortSpec.ParsePorts`. Its specification is
`ParsedPorts`: the comma pieces are read one by one into entries (`ReadEntry`):
- a single port;
- a range of at most five ports;
- an oversized range, which raises the alert;
- an ignored piece.

The ports are then collected, de-duplicated and sorted. The alerts are
returned as a list of `RangeTooLarge(start, end, size)` values.

`expandIPv6` is reproduced with its off-by-one. The loop `j <= zerosToAdd`
pushes `9 - n` zero groups for each empty piece, where `n` is the number of
non-empty pieces. The text is then cut to eight groups, so `"::1"` expands to
eight zero groups (`Address.LoopbackExpandsToZeros`). The expansion of
section 2.2 of RFC 4291 turns `::1` into
`0000:0000:0000:0000:0000:0000:0000:0001`; the model follows the code,
because `getReverseDNSName` builds its names from this output.

## Model

| member | source | states |
|---|---|---|
| PortSpec.ParsedPorts | script.js:480-508 | the value `parsePorts` returns: the comma pieces read into entries, their ports collected in order, de-duplicated and sorted; its properties are stated by `ParsedPortsAscendingInRange` and `ParsedPortsMembership` |
| PortSpec.ParseDiagnostics | script.js:491-494 | the range alerts `parsePorts` raises, one per oversized range in piece order; stated by `OversizedRangeEntry` and `OversizedRangeDoesNotStopParsing` |
| PortSpec.DedupSort | script.js:507 | `[...new Set(ports)].sort((a, b) => a - b)`; stated by `DedupSortAscendingSameElements` and `AscendingListsWithSameElementsAreEqual` |
| PortSpec.EntryPorts | script.js:495-503 | the ports one piece pushes: its single port or its range a..b, none for an oversized or ignored piece; stated by `EntryPortsInRange` and `RangeEntryContributes` |
| PortSpec.EntryDiagnostics | script.js:491-493 | the alert one piece raises: `RangeTooLarge(start, end, end - start + 1)` for an oversized range, none otherwise; stated by `OversizedEntryEffect` |
| PortSpec.PortRangeMembers | script.js:495-497 | the range loop pushes exactly the ports p with start <= p <= end |
| PortSpec.InsertMembers | script.js:507 | inserting into the de-duplicated list adds exactly one element value |
| PortSpec.AscendingTail | script.js:507 | the tail of a strictly ascending list is strictly ascending and above its head |
| PortSpec.AscendingCons | script.js:507 | a value below every element of a strictly ascending list can be put in front of it |
| PortSpec.ParsePorts | script.js:480-508 | the loop returns exactly `ParsedPorts(s)` and raises exactly the alerts `ParseDiagnostics(s)` |
| PortSpec.PushEntry | script.js:487-503 | one pass of the loop body, once the piece is read, appends exactly the ports of its entry (the range loop pushing a..b one by one) and exactly its alert |
| PortSpec.ReadEntry | script.js:485-504 | a single port lies in 1..65535; a kept range has 1 <= start <= end <= 65535 and at most 5 ports; an oversized range has more than 5 |
| PortSpec.PortRange | script.js:495-497 | the range loop pushes `end - start + 1` ports, the i-th being `start + i` |
| PortSpec.DedupSortAscendingSameElements | script.js:507 | `[...new Set(ports)].sort` is strictly ascending and has exactly the elements of its input |
| PortSpec.InsertKeepsAscending | script.js:507 | inserting into a strictly ascending list keeps it strictly ascending and adds exactly one element value |
| PortSpec.AscendingListsWithSameElementsAreEqual | script.js:507 | two strictly ascending lists with the same elements are equal, so the result is determined by its set of ports |
| PortSpec.ParsedPortsAscendingInRange | script.js:489-507 | the parsed list is strictly ascending (no duplicates) and every port is within 1..65535 |
| PortSpec.ParsedPortsMembership | script.js:482-507 | a port is in the result exactly when some comma piece contributes it |
| PortSpec.EntriesPortsMembership | script.js:484-505 | a port is collected exactly when the entry of some piece contributes it |
| PortSpec.CollectPortsMembership | script.js:484-505 | a port is collected exactly when some entry contributes it |
| PortSpec.EntryPortsInRange | script.js:489-503 | every port a piece contributes is within 1..65535 |
| PortSpec.RangeEntryContributes | script.js:487-497 | a piece `a-b` (1 <= a <= b <= 65535, at most 5 ports) contributes exactly a..b and no alert |
| PortSpec.OversizedRangeEntry | script.js:489-494 | a piece `a-b` of more than 5 ports contributes no port and one alert carrying `a`, `b` and the size |
| PortSpec.OversizedRangeDoesNotStopParsing | script.js:491-494 | appending an oversized range leaves the port list unchanged and adds exactly one alert at the end |
| PortSpec.AppendedEntry | script.js:482-505 | a piece appended after a comma adds its own ports and alert after those of the earlier pieces, whatever they were |
| PortSpec.SingleEntryContributes | script.js:499-503 | a piece written as a port in 1..65535 contributes exactly that port |
| PortSpec.RangeEntryRead | script.js:487-498 | a piece `a-b`, optionally followed by more `-` pieces, reads as a range of a..b, oversized when it has more than 5 ports |
| PortSpec.ReadRangeEntry | script.js:487-498 | a trimmed piece with a `-` whose first two pieces parse to a <= b within 1..65535 reads as that range |
| PortSpec.RangeEntryPieces | script.js:488 | the first two `-`-pieces of `a-b...` are the decimal texts of `a` and `b` |
| PortSpec.RangeEntryEnds | script.js:485-487 | the text `a-b...` begins with a digit and ends with no white space, so `trim` keeps it |
| PortSpec.RangeEntryTrimmed | script.js:485-487 | such a piece is unchanged by `trim` and contains a `-` |
| PortSpec.OversizedEntryEffect | script.js:491-494 | an oversized entry contributes no port and exactly its alert |
| PortSpec.DecimalRoundTrip | script.js:488 | `parseInt` of the trimmed decimal text of a positive number gives that number |
| PortSpec.ReadEntriesAt | script.js:484-485 | the k-th entry is read from the k-th piece |
| PortSpec.ReadEntriesAppend | script.js:484-485 | reading one more piece appends its entry |
| PortSpec.ReadEntriesStep | script.js:484-485 | the entries of the first k+1 pieces extend those of the first k by one |
| PortSpec.CollectPorts | script.js:484-505 | the ports the loop pushes, entry by entry in order; stated by `CollectPortsMembership`, `CollectStep` and `AppendedEntry` |
| PortSpec.CollectDiagnostics | script.js:484-505 | the alerts the loop raises, entry by entry in order; stated by `CollectStep` and `OversizedRangeDoesNotStopParsing` |
| PortSpec.CollectStep | script.js:484-505 | collecting one more entry appends its ports and its alert |
| PortSpec.PortRangeGrows | script.js:495-497 | one more loop step pushes the next port at the end |
| PortSpec.ReadEntries | script.js:484-485 | one entry per comma piece |
| JsNumber.ParseInt | script.js:488 | `parseInt(p)` without a radix, with `NaN` as `None`; stated by `ParseIntOfDecimal`, `ParseIntReadsDecimal` and `DigitPrefixStopsAt` |
| JsNumber.Truthy | script.js:489 | a number is truthy exactly when it is neither `NaN` nor 0: the `start && end` and `port &&` tests of `parsePorts` (also line 501) |
| JsNumber.ParseIntOfDecimal | script.js:500 | `parseInt` of the decimal text of a positive number gives that number |
| JsNumber.ParseIntReadsDecimal | script.js:488 | `parseInt` reads a decimal number up to the first non-digit |
| JsNumber.DecimalDigitsValue | script.js:500 | the digits of a decimal text denote its number |
| JsNumber.DigitPrefixStopsAt | script.js:500 | `parseInt` stops reading at the first character that is not a digit |
| Address.IsIPv4 | script.js:191-194 | `isIPv4`: four dot-separated groups of 1-3 digits; stated by `IPv4Groups`, `IPv4OfGroups` and `IPv4Characters` |
| Address.IsIPv6 | script.js:111-115 | `isIPv6`: the full form, `::1`, `::`, or the compressed pattern; stated by `CompressedIPv6OfPieces`, `IPv6NotIPv4` and `IPv6ExpandsToEightGroups` |
| Address.IsValidDomain | script.js:332-335 | `isValidDomain`: dot-separated labels of 1-63 letters, digits and `-`, starting and ending with a letter or digit; stated by `ValidDomainLabels` and `ValidDomainOfLabels` |
| Address.IsPrivateIP | script.js:660-675 | `isPrivateIP`; stated by `PrivateIPExactly` and `StartsIn172PrivateExactly` |
| Address.IsFullIPv6 | script.js:112-114 | the first alternative of the first regex: exactly eight colon-separated groups of 1-4 hex digits; stated by `IPv6ExpandsToEightGroups` |
| Address.IsCompressedIPv6 | script.js:113-114 | the compressed regex: every colon piece has 0-4 hex digits, and some piece at index a in 0..7 is empty and is followed by 1 to 8 further pieces; stated by `CompressedIPv6OfPieces`, `LoopbackParts` and `IPv6Parts` |
| Address.StartsIn172Private | script.js:665 | the `172.` pattern: `172.`, then a number from 16 to 31 written with two digits, then a dot; stated by `StartsIn172PrivateExactly` |
| Address.ZerosPushed | script.js:202-205 | the number of `0000` groups one empty piece pushes: `9 - n` for n non-empty pieces, none when n > 8; stated by `PushedGroupCount` |
| Address.PartGroups | script.js:201-208 | the groups one piece pushes: the zero groups for an empty piece, the piece padded to width 4 otherwise; stated by `PartGroupsShape` and `PartGroupsPadded` |
| Address.PushedGroups | script.js:200-209 | the groups the loop pushes, piece by piece in order; stated by `PushedGroupCount`, `PushedGroupsHex`, `PushedGroupsWithoutColon` and `PushedGroupsWithoutEmptyPart` |
| Address.ExpansionGroups | script.js:196-211 | the groups `expandIPv6` pushes, cut to the first eight; stated by `ExpansionAtMostEightGroups`, `ExpansionWithoutEmptyPart` and `IPv6ExpandsToEightGroups` |
| Address.Expansion | script.js:196-212 | the text `expandIPv6` returns, the groups joined with colons; `ExpandIPv6` is proved to return it |
| Address.ReverseDnsName | script.js:178-185 | `getReverseDNSName`; stated by `IPv4ReverseName` and `IPv6ReverseName` |
| Address.RemoveColons | script.js:183 | `replace(/:/g, '')` leaves no colon and never lengthens the text; its algebra is `RemoveColonsOfJoin`, `RemoveColonsAppend` and `RemoveColonsWithout` |
| Address.ConcatChars | script.js:183 | the one-character strings of `split('')`, put back together, give the text back |
| Address.JoinFour | script.js:180 | four labels joined with dots are the labels with a dot between each two |
| Address.PushedGroupCountStep | script.js:200-209 | one more piece adds one group when non-empty and `9 - n` when empty, and adds one to the non-empty count exactly when non-empty |
| Address.CountStep | script.js:200-209 | the count of pushed groups after one more piece, as arithmetic |
| Address.IPv4Groups | script.js:191-194 | an address accepted by `isIPv4` is four groups of 1-3 digits with dots between them, so it has 7 to 15 characters |
| Address.IPv4OfGroups | script.js:191-194 | any four groups of 1-3 digits joined with dots are accepted, and splitting gives them back |
| Address.IPv4Characters | script.js:191-194 | an accepted address has only digits and dots, so no colon |
| Address.CompressedIPv6OfPieces | script.js:111-115 | pieces of 0-4 hex digits around one empty piece, with at most 7 on each side, form an accepted address |
| Address.IPv6NotIPv4 | script.js:178-183 | an accepted IPv6 address holds a colon and is never accepted by `isIPv4`, so `getReverseDNSName` takes its IPv6 branch |
| Address.ValidDomainLabels | script.js:332-335 | an accepted domain is non-empty, is its labels joined with dots, and uses only letters, digits, `-` and dots |
| Address.ValidDomainOfLabels | script.js:332-335 | labels of 1-63 characters starting and ending with a letter or digit, joined with dots, are accepted and split back |
| Address.PrivateIPExactly | script.js:660-675 | `isPrivateIP` holds exactly for `localhost` in any case, `::1`, and the prefixes `127.`, `10.`, `172.16.`-`172.31.`, `192.168.` |
| Address.StartsIn172PrivateExactly | script.js:665 | the `172.` pattern matches exactly the prefixes `172.k.` for k in 16..31 |
| Address.TwoDigitDecimal | script.js:665 | a number from 10 to 99 is written with two digits |
| Address.ExpandIPv6 | script.js:196-212 | the loop returns exactly `Expansion(ip)`: the pushed groups, cut to eight and joined with colons |
| Address.PushedGroupCount | script.js:200-209 | the loop pushes one group per non-empty piece and `9 - n` zero groups per empty piece (none when n > 8) |
| Address.PushedGroupsWithoutEmptyPart | script.js:206-208 | without an empty piece each pushed group is its piece left-padded with `0` to width 4 |
| Address.ExpansionWithoutEmptyPart | script.js:196-212 | without an empty piece the result has min(8, pieces) groups, each the piece padded to width 4 |
| Address.ExpansionAtMostEightGroups | script.js:211 | the result has at most eight groups, none holding a colon, and splitting it at colons gives them back |
| Address.IPv6ExpandsToEightGroups | script.js:196-212 | an address accepted by `isIPv6` expands to exactly eight groups of four hex digits |
| Address.IPv6Parts | script.js:197-209 | the pieces of an accepted IPv6 address are 0-4 hex digits and the loop pushes at least eight groups |
| Address.PartGroupsShape | script.js:201-208 | the groups one piece pushes are four hex digits when the piece has at most four, and hold no colon when the piece holds none |
| Address.PartGroupsPadded | script.js:206-208 | a non-empty piece pushes exactly itself padded to width 4 |
| Address.PushedGroupsHex | script.js:200-209 | when every piece has at most four hex digits, every pushed group has exactly four |
| Address.PushedGroupsWithoutColon | script.js:200-209 | when no piece holds a colon, no pushed group does |
| Address.PushedAtLeastNonEmpty | script.js:206-208 | every non-empty piece pushes at least one group |
| Address.PushedWithEmptyPart | script.js:201-205 | an empty piece pushes its `9 - n` zero groups on top of one group per non-empty piece |
| Address.TwoEmptyPartsThenGroup | script.js:200-211 | two empty pieces and one non-empty piece push seventeen groups, the first eight of them `0000` |
| Address.PushedAtLeastNine | script.js:201-205 | a single empty piece already makes the loop push at least nine groups |
| Address.EmptyPartCounted | script.js:202 | an empty piece makes the non-empty count smaller than the number of pieces |
| Address.NonEmptyCount | script.js:202 | the non-empty count never exceeds the number of pieces |
| Address.NonEmptyCountAppend | script.js:202 | one more piece adds one to the count exactly when it is non-empty |
| Address.PushedGroupsAppend | script.js:200-209 | one more piece appends its groups |
| Address.PushedGroupsStep | script.js:200-209 | the first i+1 pieces push the groups of the first i and then those of piece i |
| Address.LoopbackParts | script.js:112-113 | `::1` and `::` split into two empty pieces and a last one, and are accepted by the compressed pattern |
| Address.LoopbackExpandsToZeros | script.js:201-211 | as written, `::1` expands to eight `0000` groups: its `1` is cut off |
| Address.IPv4ReverseName | script.js:179-180 | for an IPv4 address the name is four labels, the groups in reverse order, then `.in-addr.arpa`; reversing the labels gives the address back |
| Address.IPv6ReverseName | script.js:181-184 | for an IPv6 address the name is 32 one-character labels, the nibbles of the expansion in reverse order, then `.ip6.arpa` |
| Address.IPv6Nibbles | script.js:182-183 | the expansion of an accepted address, without colons, is 32 hex digits |
| Address.NibbleLabels | script.js:183 | 32 characters reversed and joined with dots split back into 32 one-character labels in reverse order |
| Address.RemoveColonsOfJoin | script.js:183 | removing the colons of groups joined with colons gives the groups concatenated |
| Address.RemoveColonsAppend | script.js:183 | `replace(/:/g, '')` works piecewise over a concatenation |
| Address.RemoveColonsWithout | script.js:183 | a text without colons is unchanged |
| Address.ConcatHexGroups | script.js:183 | groups of four hex digits concatenate to `4 * groups` hex digits |
| Address.Chars | script.js:183 | `split('')` gives one one-character string per character, in order |
| Dns.FetchDnsRecords | script.js:288-301 | `fetchDNSRecords`: a failed reply rejects, otherwise the `Answer` array or no records; stated by `FormattedReply` |
| Dns.FormatDnsResults | script.js:303-314 | `formatDNSResults`; stated by `FormatDnsResultsCases` |
| Dns.PtrName | script.js:161-171 | the PTR name `fetchReverseDNS` answers; stated by `PtrNameCases` and `StripTrailingDotInverse` |
| Dns.ReverseDnsText | script.js:145 | the text `loadReverseDNS` shows; stated by `ReverseDnsTextCases` |
| Dns.QueryDnsServer | script.js:378-395 | `queryDNSServer`: a failed reply rejects, otherwise the records (none without `Answer`) and the status (0 without `Status`); stated by `ResolvedReply` |
| Dns.PropagatedCount | script.js:400-404 | the propagated-server count of `displayPropagationResults`; stated by `PropagatedCountCounts` |
| Dns.FormattedReply | script.js:295-300 | a failed reply shows the error text; a reply without records shows the none text; otherwise the records' `data`, one per line |
| Dns.FormatDnsResultsCases | script.js:303-314 | rejected gives the error text, no record gives the none text, otherwise splitting at line breaks gives back the `data` fields |
| Dns.Data | script.js:313 | the `data` fields of the records, in order |
| Dns.StripTrailingDot | script.js:168 | `replace(/\.$/, '')`; stated by `StripTrailingDotInverse` |
| Dns.StripTrailingDotInverse | script.js:168 | exactly one final dot is removed, and a name without one is kept |
| Dns.PtrNameCases | script.js:161-171 | a PTR name exists exactly when the reply succeeded with an answer; it is the first answer's `data`, without its final dot if it had one |
| Dns.ReverseDnsTextCases | script.js:145 | the reverse lookup shows the none text exactly when there is no name, the name is empty, or the name is itself the none text; it shows the name otherwise |
| Dns.ResolvedReply | script.js:386-404 | a server counts as propagated exactly when its reply succeeded with a non-empty `Answer` |
| Dns.PropagatedCountCounts | script.js:400-404 | the count is the number of fulfilled results with records, at most the number of servers, equal to it exactly when all resolved |
| Dns.SuccessfulResults | script.js:400 | the filter keeps only fulfilled results |
| Dns.SuccessfulCount | script.js:400-404 | dropping the rejected results first does not change the count |
| Dns.CountResolvedIsIndexCount | script.js:402-404 | the count equals the number of servers that resolved |
| Dns.AllResolvedIffFullCount | script.js:402-404 | the count is at most the number of results and equals it exactly when every one resolved |
| Dns.CountResolvedAppend | script.js:402-404 | one more result adds one exactly when it resolved |
| PortScan.AdmitScan | script.js:445-478 | the checks of `startPortScan` on the trimmed inputs, first failing one refuses; stated by `AdmitScanAccepts` and `AdmitScanRejectsInOrder` |
| PortScan.ServiceName | script.js:610-630 | `getServiceName`: the table entry, `Unknown` otherwise; stated by `ServiceNameUnknown` |
| PortScan.RecordFor | script.js:534-548 | the record pushed for one port from its settled probe; `PerformPortScan` states its fields |
| PortScan.AdmitScanAccepts | script.js:445-478 | a scan proceeds exactly for a non-empty non-private trimmed target and 1 to 5 parsed ports, which are ascending and in 1..65535 |
| PortScan.AdmitScanRejectsInOrder | script.js:449-474 | each refusal is given exactly when all earlier checks passed and its own fails |
| PortScan.ServiceNameUnknown | script.js:610-630 | `Unknown` is given exactly for ports outside the table, and a name is never empty |
| PortScan.PerformPortScan | script.js:518-561 | one record per port in port order, with that port and its service name; a fulfilled probe gives its status and time, a rejected one `closed` with no time; progress is reported as 1, 2, ..., n of n |
| Text.Split | script.js:482 | `split` on one character: at least one piece, and at least two when the separator occurs; its algebra is `JoinSplit`, `SplitJoin`, `SplitAppendPiece` and `FirstTwoPieces` |
| Text.Join | script.js:180 | `join` with a separator; `JoinSplit` and `SplitJoin` make it the inverse of `Split` |
| Text.Trim | script.js:485 | `trim`: the result is no longer than the text and neither begins nor ends with white space; that it is a slice of the text with only white space cut off at both ends is stated by `TrimStartRemovesWhitespace` and `TrimEndRemovesWhitespace` |
| Text.TrimStartRemovesWhitespace | script.js:485 | the leading part `trim` removes is all white space, and what is left is the rest of the text, not beginning with white space |
| Text.TrimEndRemovesWhitespace | script.js:485 | the trailing part `trim` removes is all white space, and what is left is the start of the text, not ending with white space |
| Text.PadStart | script.js:207 | `padStart(4, '0')`: the length is the larger of the text's and the width, the text is kept at the end, and the fill is in front |
| Text.LowerAscii | script.js:670 | `toLowerCase` on ASCII letters: same length, each character lower-cased |
| Text.JoinSplit | script.js:180 | joining the pieces of a split with the separator gives the text back |
| Text.SplitJoin | script.js:180 | splitting a join gives the list back when no element holds the separator |
| Text.Reverse | script.js:180 | `reverse()`: the same length, the i-th element being the i-th from the end; `ReverseReverse` makes it its own inverse (also line 183) |
| Text.ReverseReverse | script.js:180 | reversing twice gives the list back |
| Text.FirstTwoPieces | script.js:488 | the first two `-`-pieces of `x-y`, followed by nothing or by `-` and more, are `x` and `y` |
| Text.SplitAppendPiece | script.js:482 | a comma and a piece without comma append that piece to the split |
| Text.SeparatorOfPieces | script.js:482 | two or more pieces mean the separator occurs |

## Left out

- The network is left out: every `fetch` (ipinfo.io, DNS over HTTPS) and the WebSocket of `scanPort`. Their results are parameters. So are `Promise.allSettled`, the timers, the 100 ms pause between batches and `Date.now()` response times.
- `scanPort` itself (the WebSocket, the `HEAD` fallback, the timeouts) is left out; its settled outcome per port is an input of `PortScan.PerformPortScan`. Its `target` argument only reaches `scanPort` and the display, so it is not a parameter.
- PortScan.PerformPortScan: the `catch` around each batch runs only if a DOM write in `updateProgress` throws, and then skips the rest of that batch. The DOM is left out, so the model assumes those writes succeed and every port gets its record.
- DOM reads and writes, `alert`, `setStatus` and the `display*` rendering are left out. The alert texts are modelled as values: the `RangeTooLarge` list of `parsePorts`, and the `ScanRejection` of `startPortScan`.
- PortScan.AdmitScan: the range alerts `parsePorts` raises during admission are not part of its result. They are `PortSpec.ParseDiagnostics` of the trimmed port text, raised whenever the checks reach the parse.
- The float percentages are left out: the propagation rate with `toFixed(1)` and the progress bar width. The model keeps the integer counts they are computed from.
- `isValidIP`, `loadIPInfo`, `searchIP`, `searchDomain`, `checkDNSPropagation` and their input checks are left out. So are the DNS server table and the `currentIP`/`currentDomain` fields. They are UI glue around the modelled routines.
- Dns.ReverseDnsTextCases: the error branch of `loadReverseDNS` is not modelled. `fetchReverseDNS` catches every error itself and answers `null`, so that branch is unreachable unless a DOM write in `setStatus` throws. The DOM is left out, so the model assumes those writes succeed.
- Characters are Unicode scalar values, not UTF-16 code units. `trim` and `split` on an ASCII separator act the same on both. `padStart` (script.js:207) and `split('')` (script.js:183) count code units. For an address accepted by `isIPv6` every character is a hex digit or a colon, so the two counts agree. An address that reaches `getReverseDNSName` unchecked, such as the one ipinfo.io reports (script.js:126), is taken character by character; for one holding a character outside the Basic Multilingual Plane the model's reverse name differs from the browser's.
- Address.PrivateIPExactly: `toLowerCase` is modelled on ASCII letters only. A non-ASCII letter never lower-cases to a letter of `localhost`, so the comparison with `"localhost"` does not depend on the difference.
- JsNumber.ParseIntOfDecimal: `parseInt` yields an exact integer here. The rounding of a very long digit string to a double is not modelled. It cannot move a value across the bounds 1 and 65535 that `parsePorts` tests. `parseInt` follows ECMAScript: leading white space, a sign, `0x` as radix 16, and the longest digit run.
- The regular expressions of `isIPv4`, `isIPv6` and `isValidDomain` are written as character-level predicates over `split` pieces, not as a regex engine.
- Address.LoopbackExpandsToZeros states the eight groups, not the joined text `0000:...:0000`.
