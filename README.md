# azure-subnet-summary in Dafny

azure-subnet-summary lists every subnet of an Azure estate, one row per subnet, together
with the unused address ranges ("gaps") between consecutive subnets. The subnet records
come from Azure Resource Graph. The program:

- sorts them by CIDR block;
- removes ignored names, records without a block, and duplicates;
- drops networks whose address space is excluded;
- resolves conflicts between networks that claim the same block;
- groups subnets by virtual network;
- walks the sorted records, emitting a row for each subnet and a row for each largest
  aligned block that fits in the gap before it;
- prints the rows as CSV with fixed-width, quoted fields.

This project models that core and proves what it promises. The model covers:

- the IPv4/CIDR arithmetic;
- the gap walk;
- de-duplication, the exclusion filter and overlap resolution;
- the grouping into networks;
- the CSV and terminal formatting.

The repository has two generations of the core, and both are modelled:

- the current one, under `src/models`, `src/processing` and `src/output`;
- an older one at the top of `src`: `ipv4.rs`, `de_duplicate_subnets.rs`,
  `subnet_add_row.rs`, `subnet_print.rs`, `print_subnets.rs`, `struct_vnet.rs` and `lib.rs`.

| file | module | what it models |
|---|---|---|
| `bits.dfy` | `Bits` | 32-bit shifts, and, or and not as bitwise functions on naturals, tied to arithmetic |
| `results.dfy` | `Results` | `Result`/`Option`, the `?` operator over a row loop (`MapResults`), the message texts |
| `records.dfy` | `Records` | the subnet record and the printed row |
| `ipv4.dfy` | `Ipv4Cidr` | `src/models/ipv4.rs`: masks, cut, next block, broadcast, host count, ordering, parsing, display |
| `ipv4_legacy.dfy` | `LegacyIpv4` | what `src/ipv4.rs` does differently: a panicking `new` and `contains` |
| `text.dfy`, `orders.dfy`, `lists.dfy` | `Text`, `Orders`, `Lists` | string splitting/joining/trimming, `u8` parsing, the sort keys' orders, stable sort, `retain`, `dedup_by_key` |
| `gap_finder.dfy` | `GapFinder` | `src/processing/gap_finder.rs` |
| `dedup.dfy` | `Dedup` | `src/processing/dedup.rs` |
| `overlap.dfy` | `Overlap` | `src/processing/overlap.rs` |
| `vnet.dfy` | `Vnets` | `src/models/vnet.rs`, `src/processing/vnet.rs`, `src/struct_vnet.rs` |
| `terminal.dfy` | `Terminal` | `src/output/terminal.rs` |
| `csv.dfy` | `Csv` | `src/output/csv.rs` |
| `lib.dfy` | `Lib` | `src/lib.rs` |
| `legacy_dedup.dfy` | `LegacyDedup` | `src/de_duplicate_subnets.rs` |
| `legacy_walker.dfy` | `LegacyWalker` | `src/subnet_add_row.rs`, `src/subnet_print.rs`, `src/print_subnets.rs` |

## Modelling conventions

- An address (`Ipv4Addr`) is a natural below 2^32, and a prefix length (`u8`) is a natural
  below 256. Each bitwise expression of the source is written with the functions in
  `Bits`. Lemmas show it equals the arithmetic view: the network address is the largest
  multiple of 2^(32-len) not above the address, and the broadcast address is that plus
  2^(32-len) - 1.
- A fallible call returns `Result`. `Err(Error(msg))` is a returned error (`Box<dyn Error>`).
  `Err(Panic(msg))` is a panic, a failed `assert!`, an `unwrap` of an error, or an
  out-of-range index. Once a panic happens, nothing after it runs.
- A `HashMap` that the source iterates is given its iteration order as a parameter. The
  parameter may be any duplicate-free enumeration of the keys. Lemmas then show which
  results do not depend on that order.
- The source mutates `Vec`s with `retain`, `sort_by_key` and `dedup_by_key`, all inside
  single functions. These become functions on sequences, and each Rust function becomes a
  method proved equal to a specification function.
- `VnetList` is a class whose map of networks its methods update in place. A `Vnet`
  holds the positions of its records in the record list.
- A function that prints returns the lines it printed beside its outcome. A panic ends the
  output where it happens, so lines printed before it are kept.

## Model

| member | source | states |
|---|---|---|
| Ipv4Cidr.NetworkUnique | src/models/ipv4.rs:54-64 | an address in [k·2^(32-len), (k+1)·2^(32-len)) has that multiple as its network address: the block holding an address is unique |
| Ipv4Cidr.GetCidrMask | src/models/ipv4.rs:27-38 | succeeds exactly for lengths up to 32, giving 2^32 - 2^(32-len), the top `len` bits set; a longer length gives the "network length is too long" error |
| Ipv4Cidr.GetCidrMaskIpv4 | src/models/ipv4.rs:16-18 | the mask of a block's own length, with the same success condition |
| Ipv4Cidr.MaskBits | src/models/ipv4.rs:27-38 | bit i of the mask is set exactly when i ≥ 32 - len |
| Ipv4Cidr.CutAddr | src/models/ipv4.rs:54-64 | succeeds exactly for len ≤ 32; the result is aligned to len and the address lies in [result, result + 2^(32-len)) |
| Ipv4Cidr.CutAddrIpv4 | src/models/ipv4.rs:41-51 | succeeds exactly when the block's length < len ≤ 32, giving the aligned sub-block of length len that holds the address; a length not longer than the block's gives the "cut to a smaller" error |
| Ipv4Cidr.NextSubnetOfWholeSpacePanics | src/models/ipv4.rs:91-103 | the next block after a /0 block is the shift-overflow panic of `ip_after_subnet`, and a caller's `.unwrap()` passes it on unchanged |
| Ipv4Cidr.IpAfterSubnet | src/models/ipv4.rs:91-103 | succeeds exactly when 1 ≤ cidr ≤ 32 and the address after the block stays within 32 bits; the value is network + size and is aligned; panics exactly for cidr 0 |
| Ipv4Cidr.MaskedIsNetwork | src/models/ipv4.rs:91-103 | `addr & mask` is the arithmetic network address |
| Ipv4Cidr.BroadcastAddr | src/models/ipv4.rs:106-116 | succeeds exactly for len ≤ 32, and the value is the last address of the block |
| Ipv4Cidr.OrHostBitsIsLast | src/models/ipv4.rs:106-116 | OR-ing the inverted mask into the network address gives network + size - 1 |
| Ipv4Cidr.BroadcastBits | src/models/ipv4.rs:106-116 | bitwise: the broadcast address has every host bit set and the address's own network bits |
| Ipv4Cidr.NextSubnetIpv4 | src/models/ipv4.rs:69-88 | with n the requested length (default: the block's own) and c = min(n, own length): succeeds exactly when 1 ≤ n ≤ 32 and the block after the c-block of the address fits in 32 bits; the result is that address with length n, aligned to n; panics exactly when n = 0 |
| Ipv4Cidr.NextAfterLast | src/models/ipv4.rs:78-85 | for a longer requested length: succeeds exactly when the length is at most 32 and the current block's end fits in 32 bits; the result starts where the current block ends, carries the requested length, and is aligned to it; failures are errors |
| Ipv4Cidr.EndOfBlock | src/models/ipv4.rs:78-85 | the end of a block is aligned to every longer length, so stepping from its last address lands on it |
| Ipv4Cidr.NumAzHosts | src/models/ipv4.rs:121-129 | succeeds exactly for len < 30 with 2^(32-len) - 5 usable hosts (at least 3); otherwise the "network length is too long or invalid" error |
| Ipv4Cidr.LoMask | src/models/ipv4.rs:132-137 | at most 32, and 0 exactly for address 0.0.0.0 |
| Ipv4Cidr.AlignedIffLoMask | src/models/ipv4.rs:132-137 | an address is a network address at length len exactly when lo_mask(address) ≤ len |
| Ipv4Cidr.Broadcast | src/models/ipv4.rs:197-204 | succeeds exactly for masks up to 32, giving the last address with the same mask |
| Ipv4Cidr.Hi | src/models/ipv4.rs:206-210 | the last address of the block; panics exactly when the mask exceeds 32 |
| Ipv4Cidr.Lo | src/models/ipv4.rs:212-215 | the network address, with lo ≤ addr < lo + size; panics exactly when the mask exceeds 32 |
| Ipv4Cidr.LoHi | src/models/ipv4.rs:206-215 | hi = lo + 2^(32-mask) - 1, so the block is [lo, hi] |
| Ipv4Cidr.OctetsRoundTrip | src/models/ipv4.rs:218-222 | an address rebuilt from its four displayed octets is the address |
| Ipv4Cidr.ParseAddrOfAddrToString | src/models/ipv4.rs:187-189 | parsing the dotted-quad text of any address gives it back |
| Ipv4Cidr.New | src/models/ipv4.rs:180-195 | succeeds exactly when the trimmed text splits at '/' into two parts, the first an address and the second a `u8` of at most 32, and then gives that address with that mask; every failure is a returned error, never a panic |
| Ipv4Cidr.WithMask | src/models/ipv4.rs:190-194 | succeeds exactly when the mask text reads as a `u8` of at most 32, and then gives the parsed address with that mask; every failure is an error, not a panic |
| Ipv4Cidr.NewOfDisplay | src/models/ipv4.rs:180-195 | `Ipv4::new(ip.to_string())` returns `ip` for every block with mask ≤ 32 (display and parse round-trip) |
| Ipv4Cidr.DisplayAvoids | src/models/ipv4.rs:218-222 | the displayed text contains only digits, '.' and '/' |
| Ipv4Cidr.Deserialize | src/models/ipv4.rs:159-176 | succeeds exactly when the untrimmed text splits at '/' into two parts, the first an address and the second any `u8` (no check against 32), and then gives that address with that mask; failures are errors, not panics |
| Ipv4Cidr.NewOfDeserialized | src/models/ipv4.rs:180-195 | on text without surrounding whitespace, `new` gives what `Deserialize` gives when the length is at most 32, and the too-long error when it is above |
| Ipv4Cidr.DeserializeLongMaskExample | src/models/ipv4.rs:159-176 | "10.0.0.0/40" deserializes to a /40 block, while `new` refuses it as too long |
| Ipv4Cidr.DeserializeOfDisplay | src/models/ipv4.rs:159-176 | deserializing the displayed text of any block gives the block back, with masks above 32 accepted as the source does |
| Ipv4Cidr.GetCidrMaskVectors | src/models/ipv4.rs:241-248 | the masks for lengths 0, 8, 16, 24 and 32, and the error for 33 |
| Ipv4Cidr.CutAddrVectors | src/models/ipv4.rs:251-258 | 192.168.1.42 cut at 24, 16, 8 and 32, and the error at 33 |
| Ipv4Cidr.IpAfterSubnetVectors | src/models/ipv4.rs:261-274 | after 192.168.1.0: 192.168.2.0 at /24, 192.169.0.0 at /16, 193.0.0.0 at /8, 192.168.1.1 at /32 |
| Ipv4Cidr.IpAfterSubnetOverflowVector | src/models/ipv4.rs:275-276 | after 255.255.255.255/24 is the overflow error |
| Ipv4Cidr.NextSubnetSmallVectors | src/models/ipv4.rs:281-304 | 10.1.1.0/28 → 10.1.1.16/28; 10.1.1.0/29 → .8/29 → .16/29; 10.1.1.8 taken as /28 → 10.1.1.16/28 |
| Ipv4Cidr.NextSubnetWideVectors | src/models/ipv4.rs:306-318 | 192.168.1.0/8 has broadcast 192.255.255.255/8, next 193.0.0.0/8, and next /16 193.0.0.0/16 |
| Ipv4Cidr.NextSubnetMixedVectors | src/models/ipv4.rs:320-335 | 10.2.3.4/16 → 10.3.0.0/16 and /24; 10.18.126.0/24 → 10.18.127.0/28 → 10.18.128.0/24 |
| Ipv4Cidr.BroadcastAddrVectors | src/models/ipv4.rs:339-358 | broadcast of 192.168.1.0 at 24, 16, 8 and 32, and 255.255.255.255/24 succeeds |
| Ipv4Cidr.NumAzHostsVectors | src/models/ipv4.rs:361-376 | host counts for lengths 0, 8, 16 and 24-29, and the errors for 30 and 33 |
| Ipv4Cidr.OrderVectors | src/models/ipv4.rs:379-388 | the orderings asserted between the sample blocks |
| Ipv4Cidr.OverlapOrderVectors | src/models/ipv4.rs:391-408 | 10.0.0.0/8 < 10.0.10.0/24 < 10.0.10.64/26 in the derived order |
| Ipv4Cidr.OverlapEndsVectors | src/models/ipv4.rs:391-408 | lo and hi of those three blocks, showing each later block inside the earlier ones |
| Ipv4Cidr.LoMaskVector | src/models/ipv4.rs:411-414 | lo_mask(192.168.1.1) = 32 |
| LegacyIpv4.New | src/ipv4.rs:151-165 | panics exactly when the text has one '/' and the address does not parse; a success has mask ≤ 32 |
| LegacyIpv4.NewAgreesWithCurrent | src/ipv4.rs:151-165 | succeeds exactly when the current `Ipv4::new` does, with the same block; on failure the message is the same, though the legacy version may panic where the current one returns an error |
| LegacyIpv4.Contains | src/ipv4.rs:182-184 | true exactly when lo ≤ ip ≤ hi; panics exactly when the mask exceeds 32 |
| LegacyIpv4.ContainsIffSameNetwork | src/ipv4.rs:182-184 | `contains(ip)` holds exactly when ip has the block's network address at the block's length |
| LegacyIpv4.ContainsEnds | src/ipv4.rs:182-184 | both ends of the block are contained, and the addresses just outside are not |
| LegacyIpv4.BroadcastIdempotent | src/ipv4.rs:166-172 | the broadcast of a broadcast block is itself |
| GapFinder.FormatVnetCidrRoundTrip | src/processing/gap_finder.rs:186-192 | splitting the joined text at ',' gives one part per block, and each part parses back to its block |
| GapFinder.ExtractNsgNameSpec | src/processing/gap_finder.rs:195-201 | "None" for no NSG; otherwise the longest '/'-free suffix of the id, which is the whole id exactly when it has no '/' |
| GapFinder.FormatDnsServersRoundTrip | src/processing/gap_finder.rs:204-207 | splitting the joined list at ',' gives back the servers |
| GapFinder.CreateRowFromSubnet | src/processing/gap_finder.rs:159-183 | the row carries position i+1, the given gap tag, block, broadcast and host count, the record's NSG name, DNS list and configuration count (0 when absent) |
| GapFinder.BiggestFrom | src/processing/gap_finder.rs:225-243 | the search loop: succeeds exactly when the start length ≤ 32, the lower block's mask ≤ 32, and start < lo(below); the result is the first length from the start at which the block ends below lo(below) |
| GapFinder.FindBiggestSpec | src/processing/gap_finder.rs:215-244 | on success the length is ≥ the start length and ≥ lo_mask(start), the block at start is aligned to it, and it ends at or before lo(below) |
| GapFinder.FindBiggestLeast | src/processing/gap_finder.rs:215-244 | for every admissible length k, the block of length k fits exactly when k ≥ the result, so the result is the largest block that fits |
| GapFinder.FindBiggestValue | src/processing/gap_finder.rs:215-244 | any admissible length that fits, where one bit shorter does not, is the result |
| GapFinder.FindBiggestSubnet | src/processing/gap_finder.rs:215-244 | the loop computes the specification above |
| GapFinder.FindBiggestBelow24 | src/processing/gap_finder.rs:252-255 | from 10.0.0.0 at /8 below 10.0.1.0/24 the answer is 24 |
| GapFinder.FindBiggestBelow13 | src/processing/gap_finder.rs:268-270 | from 10.0.0.0 at /8 below 10.11.16.0/24 the answer is 13 |
| GapFinder.FindBiggestBelow9 | src/processing/gap_finder.rs:272-273 | from 10.0.0.0 at /8 below 10.192.0.0/24 the answer is 9 |
| GapFinder.FindBiggestUnaligned | src/processing/gap_finder.rs:280-291 | from 10.6.2.80 at /16 below 10.6.8.0/24 the answer is 28 (bounded by alignment) |
| GapFinder.GapStep | src/processing/gap_finder.rs:84-127 | each block the gap loop reports has a length in 1..32, is aligned, and ends at or before the subnet |
| GapFinder.GapBlocksTile | src/processing/gap_finder.rs:84-128 | the gap blocks tile [next, lo(subnet)) exactly: consecutive, aligned and non-overlapping |
| GapFinder.TilesCover | src/processing/gap_finder.rs:84-128 | every address of a tiled range lies in one of the blocks |
| GapFinder.TilesOrdered | src/processing/gap_finder.rs:84-128 | each tile starts where the previous one ends |
| GapFinder.GapBlocksChosen | src/processing/gap_finder.rs:85-90 | each gap block has the length `find_biggest_subnet` picks at its start |
| GapFinder.AnyContains | src/processing/gap_finder.rs:92 | false exactly when no network block contains the address; true only when one does; panics only on a network mask above 32 |
| GapFinder.GapRow | src/processing/gap_finder.rs:94-125 | a gap row: position 0, the gap tag, the block, its broadcast, size - 5 hosts, the unused NSG and DNS texts, and the network columns only when the block lies in a network; panics exactly for /30 and longer |
| GapFinder.RealRow | src/processing/gap_finder.rs:133-152 | the subnet's row: position i+1, its tag (default "Sub" + source index), its block, broadcast, host count, name, NSG and DNS; panics exactly for /30 and longer |
| GapFinder.GapWalkSpec | src/processing/gap_finder.rs:84-128 | the gap rows are one per tile of [next, lo(subnet)), in order, each built from its block; none when next is already at the subnet |
| GapFinder.GapLoop | src/processing/gap_finder.rs:84-128 | the `while` loop computes the gap walk |
| GapFinder.ProcessSubnetRow | src/processing/gap_finder.rs:54-156 | the method computes the specification of one step of the walk |
| GapFinder.ProcessWithoutBlock | src/processing/gap_finder.rs:65-75 | a record without a block gives one "None" row and leaves next and the previous network unchanged |
| GapFinder.ProcessWithBlock | src/processing/gap_finder.rs:78-155 | a record below next panics (the assertion); on success the subnet is shorter than /30, has a network, next moves to the end of the subnet, the previous network becomes its first network, and the last row is the subnet's own |
| GapFinder.ProcessGaps | src/processing/gap_finder.rs:84-128 | the rows before the subnet's own are exactly the gap rows of the tiling of [next, lo(subnet)) |
| GapFinder.FinishBlockSpec | src/processing/gap_finder.rs:130-155 | after the gaps: the row list is gaps + the subnet's row, next = end of the subnet, the previous network is the first network |
| GapFinder.FirstSubnetExample | src/output/csv.rs:122-134 | 10.0.0.0/24 reached from 10.0.0.0 gives one row and moves next to 10.0.1.0 |
| Dedup.Passes | src/processing/dedup.rs:38-40 | a record is kept exactly when its name is not ignored and it has a block |
| Dedup.DeDuplicateSubnets | src/processing/dedup.rs:30-49 | the result holds only passing input records, is sorted by (block, subscription id), and has no two records with the same key |
| Dedup.DeduplicatedFiltered | src/processing/dedup.rs:38-40 | every record left is an input record with a block and a name that is not ignored |
| Dedup.DeduplicatedSorted | src/processing/dedup.rs:43-46 | the result is sorted by key and its keys are distinct |
| Dedup.DeduplicatedKeepsFirst | src/processing/dedup.rs:43-46 | each record left is the first passing input record with its key (stable sort, then dedup keeps the first) |
| Dedup.DeduplicatedKeepsKeys | src/processing/dedup.rs:38-46 | every key of a passing input record is still present |
| Dedup.DeduplicatedCount | src/processing/dedup.rs:38-46 | the number of records left is the number of distinct keys among the passing records |
| Dedup.DeduplicatedIdempotent | src/processing/dedup.rs:30-49 | de-duplicating the result again leaves it unchanged |
| Dedup.DeduplicatedCountOrderFree | src/processing/dedup.rs:124-144 | input order does not change how many records are left |
| LegacyDedup.LegacyDefaultNames | src/de_duplicate_subnets.rs:9-20 | eight names, with "twggmcmg" where the current list has "orggmcmg" |
| LegacyDedup.DeDuplicateSubnets | src/de_duplicate_subnets.rs:21-123 | the method's result, or its panic, is the walk's |
| LegacyDedup.RunInvariant | src/de_duplicate_subnets.rs:35-121 | a walk that does not panic keeps a subsequence of the input with no ignored or blockless record and no two neighbours on one block, covers every other block, and remembers the last record and position |
| LegacyDedup.StepKeeps | src/de_duplicate_subnets.rs:37-120 | one step keeps the record exactly when it is not skipped and its block differs from the previous one |
| LegacyDedup.RunSortedIncreasing | src/de_duplicate_subnets.rs:35-121 | on block-sorted input, the blocks kept strictly increase |
| LegacyDedup.RepeatedPositionAborts | src/de_duplicate_subnets.rs:37-40 | two neighbours with the same (source index, block id) panic |
| LegacyDedup.RunOkPositionsChange | src/de_duplicate_subnets.rs:37-40 | if the walk does not panic, no two neighbours share a position |
| LegacyDedup.WalkExample | src/de_duplicate_subnets.rs:50-120 | a repeated record and a blockless one are dropped, and the rest are kept in order |
| LegacyDedup.StartBlockAborts | src/de_duplicate_subnets.rs:31-116 | a first record on 11.2.0.0/32 from another name panics as a conflicting duplicate |
| LegacyDedup.StartBlockDropped | src/de_duplicate_subnets.rs:31-113 | a first record on 11.2.0.0/32 that matches the default record is dropped |
| LegacyDedup.StartPositionAborts | src/de_duplicate_subnets.rs:33-40 | a first record at position (0, 9999) panics |
| Vnets.Vnet.AddSubnet | src/models/vnet.rs:37-39 | appends the record and leaves the network fields unchanged |
| Vnets.NewVnet | src/models/vnet.rs:25-34 | a network with the record's fields, holding that record only |
| Vnets.VnetList.constructor | src/models/vnet.rs:53-57 | an empty list |
| Vnets.VnetList.AddVnet | src/models/vnet.rs:60-65 | replaces the entry under the record's key with a one-record network and leaves other keys alone |
| Vnets.VnetList.ImportFromSubnets | src/struct_vnet.rs:62-66 | the keys grow by the records' keys; each such key holds a network with only its last record; other keys are unchanged |
| Vnets.GetVnets | src/processing/vnet.rs:17-31 | one network per key of the records, with the first record's fields, listing all records with that key in input order |
| Vnets.MembersPartition | src/processing/vnet.rs:17-31 | a record is listed under a key exactly when it has that key, so the networks partition the records |
| Overlap.DefaultExcludes | src/processing/overlap.rs:30-35 | the default texts parse to 10.0.0.0/16 and 10.1.0.0/16 |
| Overlap.GroupedSpec | src/processing/overlap.rs:49-65 | a key has a network exactly when some record has it; its fields are those of the first such record, and its count is the number of such records |
| Overlap.GroupVnets | src/processing/overlap.rs:49-65 | the first loop computes that grouping |
| Overlap.ClaimBlocks | src/processing/overlap.rs:68-75 | each block maps to the networks listing it, in visiting order, once per listing; only listed blocks appear |
| Overlap.ClaimantsMembers | src/processing/overlap.rs:68-75 | a network claims a block exactly when it is visited and lists the block |
| Overlap.ClaimantsPermutation | src/processing/overlap.rs:68 | another visiting order changes a block's claimants only by a permutation |
| Overlap.CollectConflicts | src/processing/overlap.rs:78-82 | the conflicts are the blocks with more than one claimant, each once, with its claimants |
| Overlap.FindOverlappingVnets | src/processing/overlap.rs:44-88 | the result lists exactly the blocks with more than one claimant, strictly sorted by block, each with its claimants |
| Overlap.SortedConflicts | src/processing/overlap.rs:85 | sorting the collected conflicts by block gives that list |
| Overlap.ConflictCidrs | src/processing/overlap.rs:44-88 | a block is listed exactly when more than one network claims it |
| Overlap.ConflictsAgree | src/processing/overlap.rs:44-88 | any two iteration orders of the map give the same blocks in the same order, with the same claimants up to order |
| Overlap.ParsedBlock | src/processing/overlap.rs:183-186 | a text contributes a block exactly when it parses, and then only that block |
| Overlap.ParseExcludedSpec | src/processing/overlap.rs:183-186 | the excluded blocks are exactly those of the texts that parse |
| Overlap.FilterExcludedVnetCidrs | src/processing/overlap.rs:175-217 | keeps, in order, exactly the records none of whose network blocks is excluded |
| Overlap.GetExcludedVnets | src/processing/overlap.rs:125-165 | the networks, grouped as above, of exactly the records the filter drops |
| Overlap.ExclusionAccounts | src/processing/overlap.rs:125-217 | each dropped record's network is among the excluded networks, and a kept record is not among the excluded records |
| Overlap.KeeperWins | src/processing/overlap.rs:246-254 | the keeper is a claimant with the most subnets, and among those the least subscription name |
| Overlap.MarkForRemoval | src/processing/overlap.rs:244-268 | the keys collected are those of the ranked losers of each conflict, in order |
| Overlap.LosersSpec | src/processing/overlap.rs:253-267 | a key is a loser of a conflict exactly when it belongs to a ranked claimant after the first |
| Overlap.ToRemoveSpec | src/processing/overlap.rs:244-268 | a key is removed exactly when it loses some conflict |
| Overlap.FilterOverlappingVnets | src/processing/overlap.rs:231-288 | keeps, in order, exactly the records whose network loses no conflict; with no conflicts the data is unchanged |
| Lib.GetSortedSubnets | src/lib.rs:18-24 | the records sorted by block with blockless records first; a permutation of the input that keeps the input order among equal blocks |
| Lib.GetVnets | src/lib.rs:26-33 | panics exactly for empty data; otherwise the network of the first record only |
| Lib.CheckForDuplicateSubnets | src/lib.rs:35-46 | succeeds exactly when no two records share (block, subscription id); otherwise it reports the first repeat |
| Lib.EscapeRoundTrip | src/lib.rs:49-60 | unescaping an escaped field gives the field back |
| Lib.EscapeUnchanged | src/lib.rs:49-60 | a field is left unchanged exactly when it has no comma and no quote |
| Terminal.FormatFieldLayout | src/output/terminal.rs:13-23 | the result is the quoted value, preceded by spaces only when its byte length is below the width, and then exactly to the width |
| Terminal.FormatFieldAsciiWidth | src/output/terminal.rs:13-23 | for ASCII values the length is max(width, length + 2) |
| Terminal.FormatFieldRoundTrip | src/output/terminal.rs:13-23 | stripping the padding and quotes gives the value back |
| Terminal.FormatFieldAvoids | src/output/terminal.rs:13-23 | formatting adds no character other than spaces and quotes |
| Terminal.FormatFieldCountsBytes | src/output/terminal.rs:16-19 | width is counted in UTF-8 bytes: "é" at width 4 is not padded |
| Terminal.FormatFieldShortExample | src/output/terminal.rs:30-32 | "test" at width 10 |
| Terminal.FormatFieldExactExample | src/output/terminal.rs:35-37 | "test" at width 6 |
| Terminal.FormatFieldLongExample | src/output/terminal.rs:40-42 | "long_value" at width 5 |
| Terminal.FormatFieldNumberExample | src/output/terminal.rs:45-47 | 42 at width 6 |
| Csv.CsvLineFormat | src/output/csv.rs:63-87 | the line `print_csv_row` prints is the thirteen fields joined by commas, in the source's order and widths: the row number, gap, subnet block, `<used>/<hosts>_vms`, broadcast with `_br`, subnet name, subscription name, vnet block with `_vnet`, vnet name, location, security group, DNS servers and subscription id, each quoted and right-aligned |
| Csv.CsvLineRoundTrip | src/output/csv.rs:63-87 | the line splits into 13 fields, and each reads back to its value (hosts as "used/max_vms", the broadcast and network suffixes included) |
| Csv.EndNoteText | src/output/csv.rs:53-57 | the closing note reads `#NOTE# End main() Skipped subnet smaller than 10.17.255.255` |
| Csv.HeaderAsWrittenMisaligned | src/output/csv.rs:25-27 | the header as written has 12 columns, while every row has 13 |
| Csv.HeaderMatchesRows | src/output/csv.rs:25-27 | the corrected header has as many columns as each row |
| Csv.SubnetPrint | src/output/csv.rs:17-60 | succeeds exactly when the walk does; then the output is the header, one line per row of the walk and the closing note; on a panic in the walk, that panic, with only the header printed |
| Csv.PrintRows | src/output/csv.rs:49-51 | the line of each row (`print_csv_row`), one per row, in order |
| Csv.WalkRecords | src/output/csv.rs:29-46 | the walk from 10.0.0.0 over the records computes the report |
| Csv.ReportSnoc | src/output/csv.rs:34-46 | one more record extends the report by its step's rows, or ends it with the step's panic |
| Csv.ReportAbort | src/output/csv.rs:34-46 | after a panic, later records do not change the outcome |
| LegacyWalker.GapGuard | src/subnet_add_row.rs:79-85 | true exactly when every condition of the loop holds: above the skip address and below the subnet, ordered between the previous network and the subnet, within the previous network's broadcast, and in the first network's first octet |
| LegacyWalker.CutToSubnet | src/subnet_add_row.rs:87-94 | the gap block takes the subnet's length when the subnet starts inside next's block, else next's length, and its broadcast lies before the subnet |
| LegacyWalker.GapTurn | src/subnet_add_row.rs:86-141 | each turn of the loop strictly advances next |
| LegacyWalker.GapTurnSpec | src/subnet_add_row.rs:86-141 | a successful turn reports its block, bounded by the network limit, as a gap row, and steps to the next block |
| LegacyWalker.GapLoop | src/subnet_add_row.rs:79-142 | the loop computes the gap run |
| LegacyWalker.GapRunStops | src/subnet_add_row.rs:79-142 | the run ends where the guard fails, never below its start, and reports nothing from at or below the skip address |
| LegacyWalker.GapRunRows | src/subnet_add_row.rs:96-116 | every row of the run is a gap row with the record's subscription and network names |
| LegacyWalker.ProcessSubnetRow | src/subnet_add_row.rs:24-189 | the method computes one step of the walk |
| LegacyWalker.WithoutBlock | src/subnet_add_row.rs:34-76 | a record without a block gives one "None" row and leaves the state unchanged |
| LegacyWalker.WithBlock | src/subnet_add_row.rs:143-182 | on success the rows are the gap run followed by the subnet's row, and the previous network becomes the first network |
| LegacyWalker.WithBlockNext | src/subnet_add_row.rs:183-187 | next moves to the end of the subnet's block at min(28, subnet length), as a /28 |
| LegacyWalker.RealRowSpec | src/subnet_add_row.rs:143-182 | the subnet's row: position i+1, tag, block, broadcast, size - 5 hosts, name, NSG and DNS |
| LegacyWalker.StepAfterBigSubnet | src/subnet_add_row.rs:183-187 | after a subnet of /28 or shorter, next is the end of the subnet |
| LegacyWalker.StepAfterSmallSubnet | src/subnet_add_row.rs:183-187 | after 10.20.0.0/29, next is 10.20.0.16/28, not 10.20.0.8 |
| LegacyWalker.FirstSubnetExample | src/subnet_add_row.rs:197-224 | the first subnet 10.0.0.0/24, reached from 0.0.0.0, gives one row, and next becomes 10.0.1.0/28 |
| LegacyWalker.WalkRecords | src/subnet_print.rs:217-232 | the walk over the records computes the report |
| LegacyWalker.ReportRecordIndices | src/subnet_print.rs:217-232 | the rows carrying a record position are numbered 1..n in order, and there are at least n rows |
| LegacyWalker.StepRecordIndex | src/subnet_add_row.rs:24-189 | each step emits exactly one row with a record position, i+1 |
| LegacyWalker.FirstRecordNoGaps | src/subnet_print.rs:217-218 | the first record gives exactly one row: no gap is reported from the start |
| LegacyWalker.SubnetPrint | src/subnet_print.rs:204-265 | succeeds exactly when the walk does; then the corrected header, one line per row of the walk and the closing note; on a panic in the walk, that panic, with only the header printed |
| LegacyWalker.PrintSubnetsLineRoundTrip | src/print_subnets.rs:182-198 | a line splits into 12 quoted fields, each reading back to its value |
| LegacyWalker.PrintSubnetsHeaderColumns | src/print_subnets.rs:161-163 | the header splits into its 12 column names |
| LegacyWalker.PrintSubnetsHeaderMatchesRows | src/print_subnets.rs:161-198 | the header and every line have 12 columns |
| LegacyWalker.PrintSubnetsReport | src/print_subnets.rs:158-206 | succeeds exactly when the /28 walk does; then the header, one line per row of the walk and the closing note; on a panic in the walk, that panic, with only the header printed |
| Lists.SortByKeySorted | src/processing/dedup.rs:43-44 | the stable sort yields a sequence sorted by key that is a permutation of the input |
| Lists.SortByKeyStable | src/lib.rs:22 | records with equal keys keep their relative order |
| Lists.DedupByKey | src/processing/dedup.rs:45-46 | no two neighbours of the result share a key, every element comes from the input, and the last key survives |
| Lists.DedupSortedDistinct | src/processing/dedup.rs:45-46 | on sorted input the keys of the result are all distinct |
| Lists.DedupKeepsFirst | src/processing/dedup.rs:45-46 | on sorted input each element left is the first with its key |
| Lists.RetainMembers | src/processing/overlap.rs:191-205 | an element is retained exactly when it is in the input and passes the test |
| Text.SplitJoin | src/processing/gap_finder.rs:186-192 | joining parts free of the separator and splitting again gives the parts |
| Text.TrimSpec | src/models/ipv4.rs:181 | trimming drops exactly the leading and trailing whitespace |
| Text.LastPartSpec | src/processing/gap_finder.rs:197 | the last part after splitting is the longest separator-free suffix |
| Text.ParseU8 | src/models/ipv4.rs:189 | succeeds exactly for an optional '+' then decimal digits of value ≤ 255, and then gives the decimal value of those digits |
| Text.ParseU8OfNatToString | src/models/ipv4.rs:189 | every number up to 255 parses back from its decimal text |
| Orders.CidrTotalOrder | src/models/ipv4.rs:139-140 | the derived block order (address, then mask) is a total order; the hand-written `eq` and `partial_cmp` at src/models/ipv4.rs:224-234 agree with it, and `Ipv4Cidr.LessTotal` is its strict form used inside proofs |
| Orders.OptCidrTotalOrder | src/lib.rs:22 | the `Option<Ipv4>` order (None first) is a total order |
| Orders.CidrStrTotalOrder | src/processing/dedup.rs:44 | the (block, subscription id) order is a total order |
| Orders.MoreThenNameTotalOrder | src/processing/overlap.rs:247-251 | the (more subnets first, then name) order is a total order |
| Orders.StrLeTotalOrder | src/processing/overlap.rs:250 | the lexicographic string order is a total order |

## Left out

- I/O is not modelled: reading records from Azure or from the JSON cache, and everything under `src/azure`, `src/cache`, `src/cmd` and the graph-reading modules. The records are the input of the model.
- Logging, `println!` colours (among them the red "NOTE" of the closing note), `thread::sleep`, `log_overlapping_vnets` and `print_vnets` produce only diagnostics and are not modelled; the `log_removals` switch of `filter_overlapping_vnets` affects only logging.
- The iteration order of each `HashMap` is a parameter (`vnetOrder`). `Overlap.ConflictsAgree` shows that the conflicts found do not depend on it beyond the order of the claimants.
- Overlap.GetExcludedVnets: returns the map of excluded networks rather than the `Vec` of its values, whose order `HashMap` leaves unspecified.
- Ipv4Cidr.IpAfterSubnet: for cidr 0, `1u32 << 32` panics in a debug build. The model takes that panic; a release build would wrap the shift amount instead.
- `Ipv4Addr::from_str` is modelled as exactly four '.'-separated parts of 1-3 ASCII digits without leading zeros, each ≤ 255. `u8::from_str` is modelled digit by digit. Serde's own error texts are not modelled.
- `models::Ipv4` has no `contains` in the files modelled, yet `gap_finder.rs:92` calls it. The model uses the legacy `Ipv4::contains` from `src/ipv4.rs:182-184`.
- `crate::ipv4::broadcast_addr_ipv4`, used by the legacy walker, is not part of this model. It is modelled as `Ipv4::broadcast`, giving the last address with the same mask.
- The legacy `src/ipv4.rs` free functions are identical to those in `src/models/ipv4.rs` and share the `Ipv4Cidr` model. Only `new` and `contains` differ, and they are in `LegacyIpv4`.
- `get_vnets` in src/struct_vnet.rs:69-89 has no member of its own: it does what `get_vnets` in src/processing/vnet.rs:17-31 does (look up the network by vnet and subscription name, add the record to it or start a new one), so Vnets.GetVnets models both.
- Two message texts are shortened. `DuplicateFound` names the record by its position, where `check_for_duplicate_subnets` (src/lib.rs:42) prints the record's `Debug` text. `ConflictingDuplicate` keeps only the block of the multi-line text of src/de_duplicate_subnets.rs:94-115.
- `_skip_subnet_smaller_than` is an unused parameter of the current `process_subnet_row` and is not modelled.
- Ipv4Cidr.NextSubnetSmallVectors, Ipv4Cidr.NextSubnetWideVectors and Ipv4Cidr.NextSubnetMixedVectors state the expected blocks as numbers rather than as `Ipv4::new` of the text. `Ipv4Cidr.NewOfDisplay` relates the two.
- GapFinder.FormatVnetCidrRoundTrip and GapFinder.FormatDnsServersRoundTrip: the round trip needs separator-free items, so it does not cover DNS names that contain a comma.
- LegacyDedup.DeDuplicateSubnets: the model returns the records kept rather than mutating `data` in place; the effect of `Vec::remove` on positions is captured by the walk.
- Csv.SubnetPrint and LegacyWalker.SubnetPrint use the corrected 13-column header (see Findings). The 12-column header as written is `Csv.HeaderNamesAsWritten`.

## Findings

| source | as written | input that shows it | evidently intended | confidence | as-written member | corrected member |
|---|---|---|---|---|---|---|
| src/output/csv.rs:25-27 (also src/subnet_print.rs:213-215) | the CSV header names 12 columns (no `host_cnt`), but `print_csv_row` (src/output/csv.rs:63-87) writes 13 fields per row | any row: from `broadcast` onwards every column sits under the wrong header | a header with a `host_cnt` column after `subnet_cidr`, 13 names | not executed | Csv.HeaderAsWrittenMisaligned | Csv.HeaderMatchesRows |
