# VPC overlap scan and cons-list library, in Dafny

This project models two independent pieces of the repository and proves
properties of them.

**The VPC overlap scan** (`compute_overlaps` in
`nrawling/AWS_Utils/VPC_overlap/vpc_overlap.py`). It takes a flat, ordered
list of VPC records (account id, account name, region, VPC id, CIDR block).
A nested ascending scan visits every pair of positions `i < j`. For each pair
whose VPC ids differ and whose blocks overlap, it appends one report row: the
earlier record's five fields as `First*`, the later one's as `Second*`.
Every block is parsed with Python's `ipaddress.IPv4Network` in its default
strict mode, and the first block it refuses ends the command.

- `wrappers.dfy`: `Option` and `Result`.
- `pytext.dfy`: the string operations the parser relies on (`str.split`,
  decimal digits), with their round trips.
- `cidr.dfy`: the IPv4 network value (network address and prefix length,
  section 3.1 of RFC 4632), and the strict parser in the order of its checks.
  The parser raises `AddressValueError`, `NetmaskValueError` or a host-bits
  `ValueError`. The file also defines `in` and `overlaps` as `ipaddress`
  defines them, and canonical text.
- `vpc_overlap.dfy`: the scan.
  - `ComputeOverlaps` and `ScanRow` are the two loops, as imperative methods.
  - `ScanResult` is a declarative specification: the first refused block in
    parse order, or the report rows of all conflicting pairs in lexicographic
    order.
  - Lemmas connect the two and prove what the report means.

**The cons-list library** (`timhwang21/src/index.ts`), in `cons_list.dfy`:
an immutable singly linked list with `cons`, `isEmpty`, `isNotEmpty`,
`head`, `tail`, `last`, `fold`, `map`, `length` and `flip`. Every contract is
stated through `Elements(l)`, the sequence of a list's elements. `fold` is
modelled as the code runs it: a left fold that calls `fn(head, acc)`, even
though its comment calls it a right fold. `map` is modelled as written: a
left fold with `cons`, which gives the mapped elements in reverse order (see
Findings).

## Model

| member | source | states |
|---|---|---|
| PyText.DecimalValue | nrawling/AWS_Utils/VPC_overlap/vpc_overlap.py:88 | no contract of its own: `int(s, 10)` on ASCII digits, most significant first; `CanonicalDigits` and `DecimalString` state its meaning |
| PyText.DecimalString | nrawling/AWS_Utils/VPC_overlap/vpc_overlap.py:88 | `str(n)`: a non-empty digit string whose value is n, with no leading zero, of at most 1, 2, 3 digits below 10, 100, 1000 |
| PyText.CanonicalDigits | nrawling/AWS_Utils/VPC_overlap/vpc_overlap.py:88 | a digit string with no leading zero is the `str` of its `int` value |
| PyText.Split | nrawling/AWS_Utils/VPC_overlap/vpc_overlap.py:88 | `s.split(sep)` gives at least one part, no part holds `sep`, and joining the parts with `sep` gives `s` back |
| Cidr.ParseOctet | nrawling/AWS_Utils/VPC_overlap/vpc_overlap.py:88 | an accepted octet is below 256 and is the canonical `str` of its value (1 to 3 digits, no leading zero) |
| Cidr.OctetIsCanonical | nrawling/AWS_Utils/VPC_overlap/vpc_overlap.py:88 | text is accepted as octet x exactly when x < 256 and the text is `str(x)` |
| Cidr.ParseAddress | nrawling/AWS_Utils/VPC_overlap/vpc_overlap.py:88 | an accepted dotted quad denotes a 32-bit address |
| Cidr.ParsePrefixLength | nrawling/AWS_Utils/VPC_overlap/vpc_overlap.py:88 | an accepted prefix length is at most 32 |
| Cidr.NetmaskPrefix | nrawling/AWS_Utils/VPC_overlap/vpc_overlap.py:88 | the prefix found is one whose netmask is the given value; when none is found, no prefix length in the searched range has that netmask |
| Cidr.MaskPrefix | nrawling/AWS_Utils/VPC_overlap/vpc_overlap.py:88 | a prefix length found for a dotted-quad mask has the value or its complement as its netmask; when none is found, neither is the netmask of any prefix length |
| Cidr.ParseNetmask | nrawling/AWS_Utils/VPC_overlap/vpc_overlap.py:88 | the text after '/' (prefix length, netmask or hostmask) yields a prefix length of at most 32 |
| Cidr.ParseNetwork | nrawling/AWS_Utils/VPC_overlap/vpc_overlap.py:88 | every network the strict constructor accepts is a 32-bit address with no host bits set |
| Cidr.AddressRoundTrip | nrawling/AWS_Utils/VPC_overlap/vpc_overlap.py:88 | every address is parsed back from its dotted-quad text |
| Cidr.ParseAddressWithPrefix | nrawling/AWS_Utils/VPC_overlap/vpc_overlap.py:88 | "address/prefix" parses to that network exactly when no host bit is set, and is refused with the host-bits error otherwise |
| Cidr.ParseBareAddress | nrawling/AWS_Utils/VPC_overlap/vpc_overlap.py:88 | an address without '/' parses as the one-address network of prefix length 32 |
| Cidr.ParseFormatRoundTrip | nrawling/AWS_Utils/VPC_overlap/vpc_overlap.py:88 | every valid network is parsed back from its canonical text `str(network)` |
| Cidr.ParseDottedQuadMask | nrawling/AWS_Utils/VPC_overlap/vpc_overlap.py:88 | a dotted quad after '/' is never read as a prefix length, only as a netmask or hostmask |
| Cidr.NetmaskMaskPrefix | nrawling/AWS_Utils/VPC_overlap/vpc_overlap.py:88 | the netmask with p leading one bits is read as prefix length p |
| Cidr.ParseDottedNetmask | nrawling/AWS_Utils/VPC_overlap/vpc_overlap.py:88 | `a.b.c.d` netmask text with p leading one bits gives prefix length p |
| Cidr.HostmaskSearchFails | nrawling/AWS_Utils/VPC_overlap/vpc_overlap.py:88 | for 0 < p < 32, the hostmask of p is the netmask of no prefix length |
| Cidr.HostmaskMaskPrefix | nrawling/AWS_Utils/VPC_overlap/vpc_overlap.py:88 | for 0 < p < 32, the hostmask with 32 - p trailing one bits is read as prefix length p |
| Cidr.ParseDottedHostmask | nrawling/AWS_Utils/VPC_overlap/vpc_overlap.py:88 | for 0 < p < 32, `a.b.c.d` hostmask text gives prefix length p |
| Cidr.FormatAddress | nrawling/AWS_Utils/VPC_overlap/vpc_overlap.py:88 | no contract of its own: `str(IPv4Address(a))`, four decimal octets joined by dots; `AddressRoundTrip` states that it parses back |
| Cidr.FormatNetwork | nrawling/AWS_Utils/VPC_overlap/vpc_overlap.py:88 | no contract of its own: `str(network)`, the address text, '/', the prefix length; `ParseFormatRoundTrip` states that it parses back |
| Cidr.Network.Broadcast | nrawling/AWS_Utils/VPC_overlap/vpc_overlap.py:93 | `broadcast_address` is not below the network address, and for a valid network it is still a 32-bit address |
| Cidr.BroadcastBound | nrawling/AWS_Utils/VPC_overlap/vpc_overlap.py:93 | a block aligned to its size that starts below 2^32 ends below 2^32 |
| Cidr.Network.Contains | nrawling/AWS_Utils/VPC_overlap/vpc_overlap.py:93 | an address `in` the network lies in the block, from the network address up to the network address plus the block size, exclusive |
| Cidr.Network.Overlaps | nrawling/AWS_Utils/VPC_overlap/vpc_overlap.py:93 | `overlaps` holds only for networks whose inclusive address ranges share an address |
| Cidr.Network.SubnetOf | nrawling/AWS_Utils/VPC_overlap/vpc_overlap.py:92-93 | a subnet shares its addresses with the network it is a subnet of |
| Cidr.ContainsIsInterval | nrawling/AWS_Utils/VPC_overlap/vpc_overlap.py:93 | `a in net` holds exactly for the addresses from the network address to the broadcast address |
| Cidr.OverlapsIsIntersection | nrawling/AWS_Utils/VPC_overlap/vpc_overlap.py:92-93 | `overlaps` holds exactly when the two inclusive address ranges share an address |
| Cidr.OverlapsSymmetric | nrawling/AWS_Utils/VPC_overlap/vpc_overlap.py:92-93 | `x.overlaps(y)` equals `y.overlaps(x)` |
| Cidr.OverlapsReflexive | nrawling/AWS_Utils/VPC_overlap/vpc_overlap.py:92-93 | every network overlaps itself |
| Cidr.AlignedBlocksNest | nrawling/AWS_Utils/VPC_overlap/vpc_overlap.py:92-93 | a block that meets a block with a prefix at least as long contains it |
| Cidr.OverlapsIffNested | nrawling/AWS_Utils/VPC_overlap/vpc_overlap.py:92-93 | two CIDR blocks overlap exactly when one is a subnet of the other |
| VpcOverlap.Report | nrawling/AWS_Utils/VPC_overlap/vpc_overlap.py:94-104 | a report row's `First*` fields are the first VPC's and its `Second*` fields are the second VPC's |
| VpcOverlap.Conflict | nrawling/AWS_Utils/VPC_overlap/vpc_overlap.py:92-93 | no contract of its own: the records' VPC ids differ and both blocks parse and overlap; `HitsAreOverlappingPairs` states what it means for the report |
| VpcOverlap.BlockAt | nrawling/AWS_Utils/VPC_overlap/vpc_overlap.py:88 | the k-th parse result is `IPv4Network` of the k-th record's block |
| VpcOverlap.FaultFrom | nrawling/AWS_Utils/VPC_overlap/vpc_overlap.py:87-93 | the fault it names is a later position whose block the parser refuses |
| VpcOverlap.Hits | nrawling/AWS_Utils/VPC_overlap/vpc_overlap.py:87-90 | every reported pair of positions has i < j < n |
| VpcOverlap.RowHitsShape | nrawling/AWS_Utils/VPC_overlap/vpc_overlap.py:90 | the pairs of row i are (i, j) with i < j, by strictly increasing j, fewer than the inner loop's range |
| VpcOverlap.RowHitsMembers | nrawling/AWS_Utils/VPC_overlap/vpc_overlap.py:90-93 | row i holds exactly the conflicting pairs (i, j) the inner loop has passed |
| VpcOverlap.HitsBeforeMembers | nrawling/AWS_Utils/VPC_overlap/vpc_overlap.py:87-93 | the rows before i hold exactly the conflicting pairs whose first position is below i |
| VpcOverlap.HitsBeforeInRange | nrawling/AWS_Utils/VPC_overlap/vpc_overlap.py:87-90 | the rows before i hold only pairs (i', j') with i' < i and i' < j' < n |
| VpcOverlap.HitsBeforeIncreasing | nrawling/AWS_Utils/VPC_overlap/vpc_overlap.py:87-94 | the rows before i are in strictly increasing lexicographic order |
| VpcOverlap.HitsBeforeCount | nrawling/AWS_Utils/VPC_overlap/vpc_overlap.py:87-90 | the first i rows hold at most i(2n - i - 1)/2 pairs |
| VpcOverlap.RecordsAt | nrawling/AWS_Utils/VPC_overlap/vpc_overlap.py:94-104 | the report has one row per pair, in the pairs' order, each made from the two records at its positions |
| VpcOverlap.RowFromAgrees | nrawling/AWS_Utils/VPC_overlap/vpc_overlap.py:90-104 | the inner loop, resumed at any j, stops at the row's first refused block or appends all of the row's conflicting pairs |
| VpcOverlap.ScanFromRow | nrawling/AWS_Utils/VPC_overlap/vpc_overlap.py:90-104 | a whole row, run after the earlier rows, ends at its fault or with the rows up to it |
| VpcOverlap.ScanFromAgrees | nrawling/AWS_Utils/VPC_overlap/vpc_overlap.py:87-104 | the scan from any outer position ends at the first refused block in parse order, or with every conflicting pair |
| VpcOverlap.ScanResult | nrawling/AWS_Utils/VPC_overlap/vpc_overlap.py:83-104 | no contract of its own: the declarative outcome, the first refused block in parse order or the rows of all conflicting pairs; `ScanFailsIffBlockRefused`, `HitsAreOverlappingPairs`, `HitsInOrder` and `ReportRows` state what it means |
| VpcOverlap.ScanResultRowByRow | nrawling/AWS_Utils/VPC_overlap/vpc_overlap.py:83-104 | the loop-by-loop scan from an empty report yields exactly the declarative outcome |
| VpcOverlap.ComputeOverlaps | nrawling/AWS_Utils/VPC_overlap/vpc_overlap.py:83-104 | the nested scan returns the first parse error or the report rows, as `ScanResult` specifies |
| VpcOverlap.ParseBlock | nrawling/AWS_Utils/VPC_overlap/vpc_overlap.py:88 | parsing record k's block gives the k-th parse result |
| VpcOverlap.ScanRow | nrawling/AWS_Utils/VPC_overlap/vpc_overlap.py:90-104 | the inner loop returns the row's first refused block, or the report extended by the row's conflicting pairs, in order |
| VpcOverlap.FaultFromNone | nrawling/AWS_Utils/VPC_overlap/vpc_overlap.py:87-88 | with no fault from position i on, every block from i on parses |
| VpcOverlap.ScanFailsIffBlockRefused | nrawling/AWS_Utils/VPC_overlap/vpc_overlap.py:88-93 | the command fails exactly when some record's block is refused by the parser |
| VpcOverlap.ScanErrorNamesBlock | nrawling/AWS_Utils/VPC_overlap/vpc_overlap.py:88-93 | a failure names a position in the input, that record's block text, and the error that text raises |
| VpcOverlap.HitsAreOverlappingPairs | nrawling/AWS_Utils/VPC_overlap/vpc_overlap.py:92-93 | a pair i < j is reported exactly when the VPC ids differ and the two address ranges share an address: no false positives, no misses |
| VpcOverlap.HitsInOrder | nrawling/AWS_Utils/VPC_overlap/vpc_overlap.py:87-94 | reported pairs are in strictly increasing (i, j) order, so each pair appears at most once |
| VpcOverlap.ReportRows | nrawling/AWS_Utils/VPC_overlap/vpc_overlap.py:94-104 | a successful scan gives one row per reported pair, copying the earlier record into `First*` and the later into `Second*` |
| VpcOverlap.ReportNeverSameVpc | nrawling/AWS_Utils/VPC_overlap/vpc_overlap.py:92 | no row pairs a VPC id with itself |
| VpcOverlap.ReportCount | nrawling/AWS_Utils/VPC_overlap/vpc_overlap.py:87-90 | at most n(n-1)/2 rows, and none for fewer than two records |
| ConsList.Cons | timhwang21/src/index.ts:11-13 | the new list is the head followed by the elements of the tail |
| ConsList.OwnKeys | timhwang21/src/index.ts:26 | `Object.keys(l)` is empty exactly for the list with no elements |
| ConsList.IsEmpty | timhwang21/src/index.ts:25-27 | holds exactly for the list with no elements |
| ConsList.IsNotEmpty | timhwang21/src/index.ts:34-36 | holds exactly for a list with elements, that is a `{ head, tail }` cell |
| ConsList.Head | timhwang21/src/index.ts:43-45 | the first element |
| ConsList.Tail | timhwang21/src/index.ts:52-54 | the elements after the first |
| ConsList.Last | timhwang21/src/index.ts:61-63 | the final element |
| ConsList.LastEquations | timhwang21/src/index.ts:61-63 | `last(cons(x, EMPTY))` is x, and `last(cons(h, t))` is `last(t)` for a non-empty t |
| ConsList.HeadTailOfCons | timhwang21/src/index.ts:11-54 | `head` and `tail` take back what `cons` put together |
| ConsList.Fold | timhwang21/src/index.ts:70-72 | `fold` equals the reference left fold over the elements |
| ConsList.FoldEquations | timhwang21/src/index.ts:70-72 | a fold over the empty list is the accumulator; over a cell it continues with `fn(head, acc)` |
| ConsList.FoldCombinesLastElementLast | timhwang21/src/index.ts:66-72 | when l's elements are m's followed by x, `fold` over l is `fn(x, fold over m)`: the last element is combined last |
| ConsList.FoldIsRightFoldOfReversed | timhwang21/src/index.ts:66-72 | `fold` is the right fold of the elements taken last one first |
| ConsList.FoldIsNotRightFold | timhwang21/src/index.ts:66-72 | subtracting over 1, 2 from 0, `fold` gives 1 where the right fold its comment names gives -1 |
| ConsList.Increment | timhwang21/src/index.ts:89 | no contract of its own: the folding function `(_, b) => b + 1`; `FoldIncrement` states what folding with it gives |
| ConsList.FoldIncrement | timhwang21/src/index.ts:88-90 | folding `(_, b) => b + 1` from k gives k plus the number of elements |
| ConsList.Length | timhwang21/src/index.ts:88-90 | the number of elements |
| ConsList.ConsMapped | timhwang21/src/index.ts:80 | no contract of its own: the folding function `(head, acc) => cons(fn(head), acc)`; `FoldConsMapped` states what folding with it gives |
| ConsList.FoldConsMapped | timhwang21/src/index.ts:79-81 | folding with `cons(fn(head), acc)` pushes the mapped elements, last one outermost, onto the accumulator |
| ConsList.Map | timhwang21/src/index.ts:79-81 | the result has the same length, and its k-th element is `fn` of the k-th element from the end |
| ConsList.MapKeepsLength | timhwang21/src/index.ts:79-81 | `length(map(fn, l)) == length(l)` |
| ConsList.MapTwiceKeepsOrder | timhwang21/src/index.ts:79-81 | two maps as written restore the order: `map(f, map(g, l))` applies g then f to each element in place |
| ConsList.MapReversesTwoElements | timhwang21/src/index.ts:79-81 | squaring `[1, 2]` with `map` as written gives `[4, 1]`; the in-order map gives `[1, 4]` |
| ConsList.MapInOrder | timhwang21/src/index.ts:74-81 | the same length, and each element mapped where it stands |
| ConsList.MapInOrderIdentity | timhwang21/__tests__/index.ts:142-144 | mapping the identity gives the list back (functor law 1) |
| ConsList.MapInOrderComposes | timhwang21/__tests__/index.ts:146-158 | mapping a composition equals mapping twice (functor law 2) |
| ConsList.Flip | timhwang21/src/index.ts:97-99 | `flip(fn)(b, a) == fn(a, b)` for all arguments |
| ConsList.FlipFlip | timhwang21/src/index.ts:97-99 | `flip(flip(fn))` agrees with `fn` everywhere |

## Left out

- The `click` command line, the global `SESSION` and `ORGACCOUNT`, and the `fetch-*` commands (nrawling/AWS_Utils/VPC_overlap/vpc_overlap.py:22-74) are not modelled. They are I/O and configuration.
- `deliver_output` (the CSV writer) is not modelled. It is output formatting. This includes its `IndexError` on an empty report, which comes from reading `data[0]` for the header.
- The account, EC2 and RDS collectors (accounts.py, ec2.py, rds.py) are not modelled. They are foreign calls to the AWS SDK. The input list is a parameter of `ComputeOverlaps`.
- BOFH_Excuse (file reading, random choice, a web route) is not part of this model.
- `reverse` (timhwang21/src/index.ts:106-108) is not modelled. `fold` calls `flip(cons)(head, acc)`, which builds `cons(acc, head)`: the accumulator becomes the head and the element the tail. The result is not a list of the elements, so "reverses a list" cannot be stated of it.
- The tests import `foldL`, `foldR`, `fromArray`, `toArray`, `id` and `compose`, which the library does not export. Only their expectations about exported functions are used (the functor laws, on the corrected map).
- `length` returns a JavaScript number. It is modelled as an unbounded integer, so precision loss beyond 2^53 elements is not modelled.
- ConsList.Fold, ConsList.Last, ConsList.Length, ConsList.Map: stack depth is not modelled. `fold` and `last` recurse once per cell (timhwang21/src/index.ts:62, :71), and JavaScript engines such as V8 do not eliminate tail calls, so on lists of roughly ten thousand cells the source throws `RangeError`; the model returns a value for every finite list.
- `last` is annotated as returning `List<T>` but returns an element. `Last` returns `T`.
- Python's `a & netmask` is written `a - a % 2^(32-p)`. For an address below 2^32 this equals the bitwise AND with a mask of p leading ones. The model relies on that arithmetic identity and does not prove it at the bit level.
- Octet rules are those of current CPython (3.9.5 and later): leading zeros are refused. Older Python versions accepted them and are not modelled.
- Parsing covers strings only. A `CidrBlock` that is not a string, or a missing dictionary key (`KeyError`), is not modelled: the record type always has all five fields.
- `ComputeOverlaps` returns the report rather than handing it to `deliver_output`, and its inner loop is a separate method, `ScanRow`. The source writes both loops inline in one function.
- VpcOverlap.ScanError: the position it carries identifies which parse failed. Python's exception carries only the offending text and its message, not a position or the record's other fields.
- Python builds a new list on each hit (`overlaps = overlaps + [...]`). The model reassigns a sequence, which is the same observable behaviour.

## Findings

| source | as written | input that shows it | evidently intended | confidence | as-written member | corrected member |
|---|---|---|---|---|---|---|
| timhwang21/src/index.ts:79-81 | `map` folds left with `cons`, so the first element's image ends up innermost and the result comes out reversed | `map(x => x ** 2, [1, 2])` gives `[4, 1]` | `[1, 4]`: each element mapped in place, as the doc comment (`map :: (a -> b) -> [a] -> [b]`) and the test at timhwang21/__tests__/index.ts:131-137 expect, satisfying both functor laws | not executed | ConsList.Map, ConsList.MapReversesTwoElements | ConsList.MapInOrder, ConsList.MapInOrderIdentity, ConsList.MapInOrderComposes |
