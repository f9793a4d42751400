# ziscript blocklist tools in Dafny

A model of the four scripts that turn a blocklist into ipset updates:

- `dump_to_ips.py` and `archive_to_ips.py` read blocklist records (from
  globbed CSV files, or from the `dump*.csv` members of a zip archive).
  They take the `|`-separated entries before the first `;` of each line,
  keep IPv4 addresses, expand IPv4 networks to their hosts, and write
  every address once.
- `ips_to_subnets.py` stores addresses in a binary prefix trie (`Node`)
  and walks it pre-order, emitting a CIDR network (section 3.1 of
  RFC 4632) at the first node whose fill ratio `fill / 2^(32 - rank)`
  reaches `min_fill`.
- `ipset_build_delta.py` compares the old and the new listings as sets of
  stripped lines and writes `del` commands, then `add` commands.

Modules, one per concern:

| file | module | what it holds |
|---|---|---|
| `wrappers.dfy` | `Wrappers` | `Option`, `Result` |
| `bits.dfy` | `Bits` | powers of two, bit tests, alignment, 32-bit truncation |
| `cidr.dfy` | `Cidr` | networks, the strict `IPv4Network((prefix, len))` check, ascending sequences of networks |
| `trie.dfy` | `Trie` | `Node`, its geometry, `store_address_int` and its invariants |
| `emit.dfy` | `Emit` | `current_fill`, `as_network`, `iter_subnets` and what the emitted sequence promises |
| `aggregate.dfy` | `Aggregate` | the insertion loop of `ips_to_subnets.py` and whole-program statements |
| `text.dfy` | `Text` | `str.strip`, `str.split`, `split(c, 1)[0]`, string order and `sorted(set)` |
| `dedup.dfy` | `Dedup` | the "write if not yet seen" loop |
| `blocklist.dfy` | `Blocklist` | `handle_line`, the source list, the member filter, both extractor drivers |
| `delta.dfy` | `Delta` | `parse_ip_subnet`, the two entry sets, the command list and its text |

Everything is a pure function or a method on values: the trie is an
immutable datatype, so `iter_subnets` cannot change it and running it
twice gives the same sequence. The threshold is an exact fraction
`num / den` with `den > 0`, and the fill test is `fill * den >= num *
2^(32 - rank)`. Foreign pieces (the `ipaddress` parsers and `hosts()`,
the special-range classifier, `str.isalpha`, `glob`, file reading) are
function parameters.

## Model

| member | source | states |
|---|---|---|
| Trie.NewRoot | ips_to_subnets.py:72-89 | `Node(0)` is a valid, empty rank-0 node at base 0 whose block holds every 32-bit address |
| Trie.ChildFor | ips_to_subnets.py:107-115 | the child for a bit is the existing one if present, otherwise a fresh node one rank down; its base is the parent's base, plus half the parent's block for a 1-child |
| Trie.ChildGeometry | ips_to_subnets.py:81-89 | `parent_prefix + prefix_int` of a child stays aligned to its own block size and inside its parent's block, so every node is valid |
| Trie.Store | ips_to_subnets.py:100-117 | storing keeps the trie valid, changes only children and fill, sets a leaf's fill to 1 and adds 1 to an inner node's fill |
| Trie.StoreDescends | ips_to_subnets.py:105-117 | at an inner node the store goes into the child chosen by bit `31 - rank` of the address, creating it if missing; that child then holds what that side held plus the address, the other child is untouched, and the node counts one more |
| Trie.StoreLeaves | ips_to_subnets.py:100-117 | after storing, the stored leaves are the old ones plus the low 32 bits of the address |
| Trie.BaseIsClearedAddress | ips_to_subnets.py:86-89 | a node's base is every address of its block with the low `32 - rank` bits cleared |
| Trie.StorePath | ips_to_subnets.py:100-116 | storing walks exactly `32 - rank` levels down; each node on the path holds the address and has it with cleared low bits as base; the leaf's base is the address and its fill is 1 |
| Trie.StoreCommutes | ips_to_subnets.py:100-117 | storing two addresses in either order gives the same trie |
| Trie.StorePopulated | ips_to_subnets.py:108-117 | every node that exists after a store has fill at least 1 and some stored leaf |
| Trie.StoreExact | ips_to_subnets.py:101-117 | storing a new address keeps every fill equal to the sum of the children's fills (1 at leaves) |
| Trie.ExactFillIsCount | ips_to_subnets.py:101-117 | under that invariant a node's fill is the number of stored addresses in its block |
| Trie.ExactFillBound | ips_to_subnets.py:93 | under that invariant the fill ratio is at most 1 |
| Trie.DuplicateBreaksExact | ips_to_subnets.py:101-103 | storing an address again leaves the stored set unchanged but the fill one above it, so the invariant breaks |
| Trie.ChildLeavesDisjoint | ips_to_subnets.py:105-116 | the two subtrees of a node hold disjoint addresses |
| Cidr.MakeNetwork | ips_to_subnets.py:97-98 | the strict network constructor succeeds exactly on an address below 2^32 whose low `32 - len` bits are zero |
| Emit.PassesIsRatioTest | ips_to_subnets.py:92-93 | the integer test `fill * den >= num * 2^(32 - rank)` agrees with comparing the fill ratio against `num / den` |
| Emit.AsNetwork | ips_to_subnets.py:95-98 | `as_network` never fails, and its network holds exactly the node's block |
| Emit.IterSubnets | ips_to_subnets.py:119-137 | every emitted network is well formed and inside the node's block; with the filter on none is flagged |
| Emit.SubnetsAscending | ips_to_subnets.py:133-137 | the emitted networks are strictly ascending and each ends before the next starts |
| Emit.SubnetsDisjoint | ips_to_subnets.py:133-137 | no address is in two emitted networks |
| Emit.FilterRemovesFlagged | ips_to_subnets.py:122-129 | the filtered output is the unfiltered output minus the flagged networks, in order |
| Emit.Coverage | ips_to_subnets.py:120-137 | with `min_fill <= 1` and no filter, every stored address is in some emitted network, since a leaf (fill 1) always passes; this holds after any stores, duplicates included |
| Emit.CoveredOnce | ips_to_subnets.py:120-137 | under the same conditions every stored address is in exactly one emitted network |
| Emit.FilteredCoverage | ips_to_subnets.py:120-131 | with the filter on, a stored address is in exactly one emitted network or in a flagged network that was dropped |
| Emit.PassesMonotone | ips_to_subnets.py:120 | a node that passes a threshold passes every lower one |
| Emit.Refinement | ips_to_subnets.py:119-137 | every network emitted at a higher threshold lies inside one emitted at a lower threshold |
| Emit.Density | ips_to_subnets.py:120-131 | with exact fills, every emitted network holds at least `min_fill` of its addresses as stored addresses |
| Emit.EmitsWholeBlock | ips_to_subnets.py:119-120 | with `min_fill <= 0` a node emits its own block whatever it holds |
| Emit.EmptyTrieEmitsEverything | ips_to_subnets.py:119-120 | with `min_fill <= 0` even the empty trie emits `0.0.0.0/0` |
| Emit.AboveOneEmitsNothing | ips_to_subnets.py:101-103 | with exact fills and `min_fill > 1` nothing is emitted, /32 leaves included |
| Emit.SubnetsHoldStored | ips_to_subnets.py:119-137 | with `min_fill > 0` every emitted network holds some stored address |
| Aggregate.Values | ips_to_subnets.py:153-155 | the loop passes on at most one value per parse result and never 0; restricted to IPv4, every value passed on is an IPv4 result |
| Aggregate.ValuesMember | ips_to_subnets.py:153-155 | a value reaches the trie exactly when it parsed and is not 0 (`0.0.0.0` is never stored) |
| Aggregate.StoreAll | ips_to_subnets.py:153-157 | every value stored adds one to the root's count, repeats included |
| Aggregate.StoreAllPermutation | ips_to_subnets.py:153-157 | storing a reordering of the same values gives the same trie |
| Aggregate.DriverAsWritten | ips_to_subnets.py:150-157 | the loop as written stores the low 32 bits of every truthy parse result, and the root counts one per result, so a repeated address counts more than once |
| Aggregate.AsWrittenStores | ips_to_subnets.py:150-157 | as written, every non-zero IPv4 input is stored as itself, whatever else the input holds |
| Aggregate.AsWrittenCoverage | ips_to_subnets.py:150-166 | as written, with `min_fill <= 1` and no filter, every non-zero IPv4 input is in exactly one written network, repeats and IPv6 results notwithstanding |
| Aggregate.AsWrittenAgrees | ips_to_subnets.py:150-157 | when no parse result is IPv6 and no value repeats, the loop as written and the corrected loop build the same trie |
| Aggregate.Driver | ips_to_subnets.py:150-157 | the corrected loop counts each distinct IPv4 value once at the root |
| Aggregate.AsWrittenOrderFree | ips_to_subnets.py:153 | the order `imap_unordered` delivers results in does not change the trie |
| Aggregate.OrderFree | ips_to_subnets.py:153 | the corrected loop's trie does not depend on delivery order either |
| Aggregate.DriverStores | ips_to_subnets.py:153-157 | the corrected loop stores exactly the non-zero IPv4 results |
| Aggregate.DriverExact | ips_to_subnets.py:101-117 | after the corrected loop every fill counts the stored addresses below it |
| Aggregate.DriverCoverage | ips_to_subnets.py:153-166 | corrected loop: with `min_fill <= 1` every non-zero IPv4 input is in exactly one written network |
| Aggregate.DriverDensity | ips_to_subnets.py:153-166 | corrected loop: every written network is at least `min_fill` full of input addresses (as written, repeats inflate the fill: see Findings) |
| Aggregate.ChainAtRoot | ips_to_subnets.py:119-131 | a trie that stored one address `c` times emits, at `min_fill` 0.5, exactly one network: the block holding the address whose size `s` has `c < s <= 2c` |
| Aggregate.SingleHostExample | ips_to_subnets.py:119-131 | one host at `min_fill` 0.5 emits its /31 (ratio exactly 0.5 passes `>=`) |
| Aggregate.ClusterEmits | ips_to_subnets.py:119-137 | when every stored address lies in one network whose block is the first on the way down that passes, `iter_subnets` emits that network and nothing else |
| Aggregate.DriverCluster | ips_to_subnets.py:150-166 | the same for the whole program, corrected loop |
| Aggregate.SingleHostAtFull | ips_to_subnets.py:119-131 | one host at `min_fill` 1 is written as its own /32 |
| Aggregate.ThreeOfFour | ips_to_subnets.py:119-131 | three addresses of a /30 (all but its first) at `min_fill` 0.5 are written as that /30 |
| Aggregate.ThreeHostsExample | ips_to_subnets.py:119-131 | `10.0.0.1`, `10.0.0.2`, `10.0.0.3` at `min_fill` 0.5 give `10.0.0.0/30` |
| Aggregate.FullQuarterGivesEighth | ips_to_subnets.py:119-131 | all four addresses of an 8-aligned /30 at `min_fill` 0.5 are written as the enclosing /29, which is half full and is reached first |
| Aggregate.FullQuarterExample | ips_to_subnets.py:119-131 | `10.0.0.0` to `10.0.0.3` at `min_fill` 0.5 give `10.0.0.0/29`, not `10.0.0.0/30` |
| Aggregate.Ipv6FoldedAsWritten | ips_to_subnets.py:140-145 | the loop as written stores an IPv6 result as the IPv4 address of its low 32 bits; the corrected loop stores nothing |
| Aggregate.DuplicatesInflateFill | ips_to_subnets.py:101-117 | a host given three times is emitted as a /30 at `min_fill` 0.5, although that /30 holds only that host |
| Aggregate.DuplicatesCountedOnce | ips_to_subnets.py:153-157 | under the corrected loop the same input emits the host's /31 |
| Text.StripSplits | dump_to_ips.py:69 | `strip()` leaves text that neither starts nor ends with whitespace, with only whitespace removed around it |
| Text.StripUnique | dump_to_ips.py:69 | stripping whitespace-padded trimmed text gives that text back |
| Text.Split | dump_to_ips.py:68 | the pieces of `split('|')` contain no separator and join back to the input |
| Text.SplitJoin | dump_to_ips.py:68 | splitting joined separator-free pieces gives the pieces back |
| Text.BeforeFirstOfJoined | dump_to_ips.py:66 | the first field of `split(';', 1)` is the text before the first `;` |
| Text.SortedList | dump_to_ips.py:47-49 | `sorted(set(...))` is ascending in code-point order and holds exactly the set's members, each once |
| Text.AscendingUnique | dump_to_ips.py:47-49 | two ascending lists with the same members are equal |
| Blocklist.HandleLine | dump_to_ips.py:62-64 | a line without `;` gives no addresses |
| Blocklist.HandleLineFields | dump_to_ips.py:66-81 | a line is its `|`-joined entries, `;`, anything; it gives the entries' addresses in entry order |
| Blocklist.HandleLineIgnoresRest | dump_to_ips.py:66 | what follows the first `;` does not change the result |
| Blocklist.HandleLineMembers | dump_to_ips.py:62-81 | an address comes out of a line exactly when the line has `;` and one stripped entry before it contributes the address |
| Blocklist.AddressNotReparsed | dump_to_ips.py:70-75 | an entry that parses as an address is never tried as a network, and an IPv6 address contributes nothing |
| Blocklist.SkippedEntry | dump_to_ips.py:74-80 | an entry contributing nothing leaves the others' results unchanged |
| Blocklist.EntriesIpsConcat | dump_to_ips.py:67-69 | the results of a list of entries are the results of each entry, in order |
| Blocklist.SourceFiles | dump_to_ips.py:47-52 | the source list is the sorted union of the glob results; it fails with "No sources specified" exactly when every glob is empty |
| Blocklist.SourceFilesOnce | dump_to_ips.py:47-49 | no source file is listed twice |
| Blocklist.SourceFilesIgnorePatternOrder | dump_to_ips.py:47-49 | the order and repetition of patterns do not change the source list |
| Blocklist.FileLines | dump_to_ips.py:55-59 | the lines processed are exactly the lines of the listed files |
| Dedup.WriteUnique | dump_to_ips.py:84-91 | the writer outputs each produced address once, in first-seen order, and every produced address |
| Dedup.WriteBatch | dump_to_ips.py:88-91 | one line's addresses extend the output by those not yet written, in order, and the seen set keeps matching the output |
| Dedup.DistinctPermutation | dump_to_ips.py:87 | delivering the per-line results in another order only reorders the output |
| Dedup.FlattenPermutation | dump_to_ips.py:87-88 | delivering the same per-line batches in another order delivers the same addresses, reordered |
| Dedup.BatchOrderPermutes | dump_to_ips.py:87-91 | whatever order the per-line batches arrive in, the written addresses are the same, each once |
| Blocklist.ExtractIps | dump_to_ips.py:84-91 | the written addresses are duplicate-free and are exactly the union of the per-line results |
| Blocklist.DumpToIps | dump_to_ips.py:47-91 | the whole script: the exit on no sources, otherwise each address of every source line written once |
| Blocklist.IsDumpMemberIff | archive_to_ips.py:11 | the member filter holds exactly when "dump" occurs and ".csv" occurs at or after its end, with no newline before that ".csv" |
| Blocklist.BackupCopyIsRead | archive_to_ips.py:54 | the end is not anchored: `x_dump.csv.bak` is read |
| Blocklist.NotDumpMembers | archive_to_ips.py:54 | a name without a dot, or starting with a newline, is not read |
| Blocklist.DumpMembers | archive_to_ips.py:53-54 | the members read are exactly the listed names the filter accepts |
| Blocklist.ArchiveToIps | archive_to_ips.py:50-91 | the whole script: each address of every line of every accepted member written once |
| Delta.ParseIpSubnet | ipset_build_delta.py:38-42 | a line gives nothing exactly when it has a letter; otherwise it gives its stripped text, which is trimmed and made of the line's own characters, none a letter |
| Delta.EntriesMembers | ipset_build_delta.py:45-49 | an entry is in a listing's set exactly when it is non-empty and some line parses to it |
| Delta.EntriesShape | ipset_build_delta.py:45-46 | every entry is non-empty, trimmed and letter-free |
| Delta.EntriesOfSameLines | ipset_build_delta.py:45-49 | only which lines occur matters: listings with the same lines, in any order and with any repeats, give the same entries |
| Delta.SpellingsDiffer | ipset_build_delta.py:42 | `10.0.0.1` and `10.0.0.1/32` are two different entries |
| Delta.ApplyTagged | ipset_build_delta.py:57-62 | running a batch of `del` (or `add`) commands removes (or adds) exactly those entries |
| Delta.ScriptApply | ipset_build_delta.py:51-52 | deleting `old - new` and then adding `new - old` turns `old` into `new` |
| Delta.DeltaCommands | ipset_build_delta.py:51-62 | every `del` precedes every `add`; `del` entries are exactly `old - new`, `add` entries exactly `new - old`, one command each, none for entries in both; applied to `old` they give `new` |
| Delta.ParseRender | ipset_build_delta.py:58 | a written line reads back as its verb, set name and entry when the set name has no space |
| Delta.BuildDelta | ipset_build_delta.py:45-62 | the whole script; without `--old` every command is an `add`, one per new entry |

## Left out

- Argument parsing, logging, file and stdin/stdout handling, zip reading,
  `sys.exit` (modelled as a `Failure` carrying its message), and the
  stats report of `ips_to_subnets.py` (lines 159-183).
- `get_archive.py`: an HTTP download with ETag caching, outside the core.
- The process pools: `imap_unordered` only changes the order of results.
  The drivers take results in any order, and
  `Aggregate.AsWrittenOrderFree`, `Aggregate.OrderFree`,
  `Dedup.DistinctPermutation` and `Dedup.BatchOrderPermutes` show that
  order changes nothing but the output order.
- The `ipaddress` module: dotted-quad parsing, `packed`, `hosts()`,
  `str()` of addresses and networks, and the `is_multicast` /
  `is_private` / `is_reserved` / `is_loopback` classifier are parameters.
  The insertion loop receives parse results as `Option<IpAddress>`.
- `str.isalpha` is a parameter of `Delta`; Unicode letter categories are
  not modelled.
- cp1251 decoding: lines arrive as strings.
- The threshold's float parsing and `Decimal` arithmetic
  (`ips_to_subnets.py:32, 93, 163`): the threshold is an exact fraction,
  so rounding of `Decimal` for large block sizes is not modelled.
- The `Aggregate` members take the empty root as a parameter
  constrained to be rank 0 with nothing stored (what `Node(0)` builds,
  up to the meaningless `bit_set` flag of the root), instead of building
  it inline.
- Set iteration order inside the `del` and `add` groups of
  `ipset_build_delta.py`: `Delta.Enumerate` picks any order.
- Emit.Refinement: stated with `filter_special` off; with it on, a coarse
  network that is flagged and dropped has no emitted network around the
  finer ones, so the statement does not hold.
- Blocklist.HandleLine: its own contract states only the no-`;` case; the
  rest is stated by `Blocklist.HandleLineFields` and
  `Blocklist.HandleLineMembers`.
- A /32 leaf is emitted only if it passes the same fill test as every
  other node: with `min_fill > 1` no leaf passes, addresses are dropped,
  and `Emit.AboveOneEmitsNothing` states this. The model follows the
  code, not the reading that a leaf is always emitted.
- `iter_subnets` emits the first block on the way down whose fill passes,
  not the smallest block that holds the addresses:
  `Aggregate.FullQuarterExample` shows that a fully stored
  `10.0.0.0/30` at `min_fill` 0.5 is written as `10.0.0.0/29`. The model
  follows the code, and does not claim that a full block is written as
  itself at every threshold up to 1.

## Findings

| source | as written | input that shows it | evidently intended | confidence | as-written member | corrected member |
|---|---|---|---|---|---|---|
| ips_to_subnets.py:140-157 | `parse_address` accepts IPv6; the loop stores its 128-bit value, and `store_address_int` reads only bits 31..0, so the trie holds the IPv4 address of the low 32 bits | the line `::1` stores `0.0.0.1`; a network holding it may be written | only IPv4 addresses are aggregated (the trie and `as_network` are IPv4-only) | not executed; medium | Aggregate.Ipv6FoldedAsWritten | Aggregate.DriverStores |
| ips_to_subnets.py:101-117 | storing an address again sets the leaf's fill to 1 but adds 1 to every ancestor, so ancestors count inserts, not addresses | `10.0.0.1` three times at `min_fill` 0.5 writes `10.0.0.0/30`, a block holding one stored address | fill counts distinct addresses, as the leaf assignment does; the same input writes `10.0.0.0/31` | not executed; low, since the extractors already write each address once | Aggregate.DuplicatesInflateFill | Aggregate.DuplicatesCountedOnce |
