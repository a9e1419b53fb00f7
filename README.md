# ion IPAM allocator, modelled in Dafny

This project models the IPv4 address allocator of the ion CNI IPAM plugin
(`main.go`). The plugin hands out container addresses from a subnet range. It
keeps the leases in a Redis hash `stellarproject.io/ips` that maps a container
id to an address. The model covers:

- **`parseSubnetRange`**: turns `"A/n"` or `"A-B/n"` into a start, an end and a
  subnet. In the CIDR-only form the end is the start with its last octet set
  to 254. The range form rejects specs with more than one dash or with no `/`.
- **`nextIP`**: the in-place, big-endian increment with carry. It is an array
  method proved equal to the pure `Increment`.
- **`validIP`**: rejects addresses whose last octet is 0, 1 or 255.
- **`allocateIP`**: returns an existing lease, or otherwise:
  - inverts the table into an address-to-id lookup;
  - scans first-fit from the start up to (not including) the end;
  - records the first address that is neither reserved nor held, or fails
    with "no available IPs".
- **`getOrAllocateIP`**, **`getIP`** and **`releaseIP`**.

Modules:

- `Arith` (arith.dfy): facts about multiplication and division (2^k, unique
  quotients, rounding down) that the subnet proofs use.
- `Outcomes` (outcomes.dfy): `Option`, `Result` and the allocator's errors.
- `Address` (address.dfy): addresses as four bytes, and their big-endian
  `Value`. It also holds:
  - `Increment` and the in-place `NextIP`;
  - `ValidIP`;
  - `Nth`, the k-th scan position;
  - `Dist`, the number of increments from one address to another, that is
    (b - a) mod 2^32. `Dist` is the measure that makes the scan terminate.
- `NetText` (net_text.dfy): the Go library functions the parser relies on:
  - `strings.Split`;
  - dotted-quad `net.ParseIP`;
  - `net.ParseCIDR`, with the subnet kept as network address plus prefix
    length;
  - the text forms of addresses and CIDRs.
- `SubnetRanges` (subnet_range.dfy): `Parse` (`parseSubnetRange`), its
  properties, and the three cases of `main_test.go`.
- `Allocator` (allocator.dfy):
  - pure specifications `FirstFit`, `Allocate`, `Release` and `GetOrAllocate`,
    with lemmas about them;
  - the class `LeaseTable`, whose field `leases` is the Redis hash. HGETALL
    reads the field, and HSET and HDEL reassign it. Its methods `GetIP`,
    `AllocateIP`, `GetOrAllocateIP` and `ReleaseIP` follow the Go code, loops
    included. Each is proved to compute exactly the matching specification.
    The three that write the table are also proved to keep "no two ids
    share an address".

## Model

| member | source | states |
|---|---|---|
| Address.IncrementValue | main.go:225-232 | incrementing adds one to the big-endian value of the bytes; the largest value wraps to 0 |
| Address.IncrementAllOnes | main.go:225-232 | an address of all 255 bytes becomes all 0 bytes |
| Address.IncrementAt | main.go:226-230 | byte by byte: the bytes before the first byte that does not overflow are kept, that byte goes up by one, and the 255s after it become 0 |
| Address.NextIP | main.go:225-232 | the array is changed in place into the increment of its old contents |
| Address.ValueInjective | main.go:185 | two addresses with the same value are equal, so the loop test `ip.Equal(r.End)` compares values |
| Address.ValidIP | main.go:234-241 | an address is valid exactly when its value modulo 256, its last octet, is none of 0, 1 and 255 |
| Address.Dist | main.go:185 | the distance from a to b is below 2^32 and is zero exactly when a equals b |
| Address.DistStep | main.go:185 | each increment brings an address that is not yet the end one step closer to it, so the scan terminates |
| Address.DistOrdered | main.go:185 | when a is not above b, the distance is the plain difference of their values |
| Address.NthValue | main.go:185 | the k-th scan position is the start's value plus k, modulo 2^32 |
| Address.NthReaches | main.go:185 | scanning up from a reaches every address not below a |
| Address.NthDistinct | main.go:185 | fewer than 2^32 increments never revisit an address |
| Address.NthBeforeEnd | main.go:185 | positions before the distance to the end are never the end itself |
| NetText.SplitCount | main.go:246 | splitting on a separator yields one more part than there are separators |
| NetText.JoinSplit | main.go:246 | joining the parts with the separator gives back the text |
| NetText.SplitJoin | main.go:246 | parts free of the separator survive a join followed by a split |
| NetText.SplitFirst | main.go:248 | the CIDR text is cut at its first `/`: no cut exactly when there is no `/`, and the cut pieces rebuild the text |
| NetText.OctetText | main.go:264 | a number printed in decimal reads back as that octet exactly when it is at most 255, and is rejected otherwise |
| NetText.ParseIPText | main.go:264 | every address's dotted-quad text parses back to that address |
| NetText.DecimalRoundTrip | main.go:248 | a prefix length written in decimal reads back as the same number |
| NetText.ParseCIDR | main.go:248 | an accepted CIDR has a `/`, and the prefix length n it returns is at most 32; its subnet contains the address, and the subnet's network address is the address rounded down to a multiple of 2^(32-n), so it keeps exactly the leading n bits |
| NetText.ParseCIDRText | main.go:248 | every "A/n" with n at most 32 parses to address A and the /n block around A |
| NetText.ParseCIDRTextTooLong | main.go:248 | every "A/n" with n above 32 is rejected with the CIDR parse error, so with ParseCIDRText a printed CIDR is accepted exactly when n is at most 32 |
| NetText.NetworkContains | main.go:248 | the block of an address contains that address and its own network address; for n at most 32, the /n block of a contains exactly the addresses that share a's leading n bits |
| NetText.NetworkValue | main.go:248 | the /n network address is the address's value rounded down to a multiple of 2^(32-n), and the address lies less than 2^(32-n) above it |
| NetText.ContainsValue | main.go:248 | an address is in a block exactly when rounding it down to a multiple of 2^(32-n) gives the block's network address |
| NetText.ClearLowValue | main.go:248 | clearing the low k bits of an octet, as the mask does, rounds it down to a multiple of 2^k |
| NetText.ClearLowTwice | main.go:248 | masking an octet twice is the same as masking it once |
| SubnetRanges.Parse | main.go:245-274 | only a spec that holds a `/` is accepted |
| SubnetRanges.ParseCidrOnly | main.go:247-259 | a spec without a dash parses exactly when it is a CIDR; the start is the address, the subnet is its block, and the end keeps the first three octets with a last octet of 254; otherwise the result is the CIDR parse error on the whole spec |
| SubnetRanges.ParseCidrText | main.go:247-259 | every "A/n" parses to start A, end A with last octet 254, and subnet A/n |
| SubnetRanges.ParseTooManyDashes | main.go:261-263 | two or more dashes is the range-format error, whatever the rest of the text |
| SubnetRanges.ParseRangeNeedsSlash | main.go:261-263 | a dash with no `/` anywhere is the range-format error |
| SubnetRanges.ParseRangeForm | main.go:261-273 | for every spec with exactly one dash and a `/`: the result is the CIDR parse error on the text after the dash exactly when that text is not a CIDR; otherwise the start is ParseIP of the text before the dash, and the end and subnet come from the CIDR |
| SubnetRanges.ParseRangeText | main.go:264-273 | every "A-B/n" parses to start A, end B, and the subnet of "B/n" |
| SubnetRanges.ParseRangeUnparsedStart | main.go:264-273 | in the range form the start is not checked: an unparsable start still gives a range, with no start address |
| SubnetRanges.ParseExampleCidr | main_test.go:9-25 | "10.100.0.1/24" starts at 10.100.0.1 and ends at 10.100.0.254 |
| SubnetRanges.ParseExampleRange | main_test.go:27-44 | "10.100.0.100-10.100.0.200/24" starts at 10.100.0.100 and ends at 10.100.0.200 |
| SubnetRanges.ParseExampleShortEnd | main_test.go:46-52 | "1.2.3.4-254/24" is rejected with the CIDR parse error for "254/24" |
| Allocator.FirstFit | main.go:185-200 | the scan finds only an address that is valid, held by nobody, and not the end |
| Allocator.FirstFitSound | main.go:185-193 | what the scan finds is the k-th position before the end, and every earlier position is reserved or held |
| Allocator.FirstFitAt | main.go:185-199 | conversely, the first eligible position before the end is what the scan finds |
| Allocator.FirstFitNone | main.go:185-202 | the scan finds nothing exactly when every position before the end is reserved or held |
| Allocator.FirstFitLowest | main.go:185-199 | when the start is not above the end, the scan finds an address in [start, end) that is the lowest eligible one there |
| Allocator.Allocate | main.go:164-203 | an id with a lease gets that lease back; a success adds exactly id ↦ address, valid, unheld and not the end; a failure leaves the table as it was |
| Allocator.AllocateFirstFit | main.go:180-199 | a new lease is the first position from the start that is neither reserved nor held, before the end |
| Allocator.AllocateLowest | main.go:180-199 | with the start not above the end, a new lease lies in [start, end) and no lower address there is eligible |
| Allocator.AllocateNilStart | main.go:185-187 | for an id without a lease, a range with no start address (the range form does not check its start) gives the InvalidStart error, which stands for Go's panic in validIP, and leaves the table unchanged |
| Allocator.AllocateExhausted | main.go:185-202 | for an id without a lease, "no available IPs" is returned exactly when every position before the end is reserved or held |
| Allocator.AllocateExhaustedExample | main.go:185-202 | a /30 from 10.0.0.0 to 10.0.0.3 is exhausted once another id holds 10.0.0.2 |
| Allocator.AllocateEmptyRange | main.go:185-202 | a range whose start equals its end never gives a new lease and leaves the table unchanged |
| Allocator.AllocateIdempotent | main.go:176-178 | allocating again for the same id, over any range, returns the same address and writes nothing |
| Allocator.AllocateKeepsDistinct | main.go:180-199 | if no two ids shared an address before allocation, none do after |
| Allocator.Release | main.go:205-223 | after release the id has no entry, and every other entry is unchanged |
| Allocator.ReleaseKeepsDistinct | main.go:217-220 | if no two ids shared an address before release, none do after |
| Allocator.ReleaseAbsent | main.go:217-222 | releasing an id with no lease changes nothing |
| Allocator.ReleaseIdempotent | main.go:205-223 | releasing twice is the same as releasing once |
| Allocator.ReleaseFrees | main.go:217-220 | with distinct leases, release frees exactly the id's address |
| Allocator.ReleaseThenReallocate | main.go:164-223 | a released address that is the first unreserved, unheld scan position goes to the next id that allocates |
| Allocator.GetOrAllocate | main.go:145-162 | a success records the id's address in the table and returns the parsed subnet; a failure leaves the table unchanged |
| Allocator.GetOrAllocateParseFirst | main.go:146-149 | an unparsable range is reported before the table is read or written |
| Allocator.GetOrAllocateIsAllocate | main.go:150-161 | once the range parses, the result and the new table are those of allocateIP, paired with the parsed subnet |
| Allocator.GetOrAllocateIdempotent | main.go:150-156 | a second call for the same id returns the same lease and writes nothing |
| Allocator.InvertLeases | main.go:180-183 | the lookup's keys are exactly the held addresses, and each maps back to an id holding it |
| Allocator.LeaseTable.GetIP | main.go:134-143 | an address is returned exactly when the id has a lease, and it is that lease; an unknown id gives None, not an error |
| Allocator.LeaseTable.AllocateIP | main.go:164-203 | the result and the new table are those of `Allocate` on the old table, and distinct leases stay distinct |
| Allocator.LeaseTable.GetOrAllocateIP | main.go:145-162 | the result and the new table are those of `GetOrAllocate` on the old table, and distinct leases stay distinct |
| Allocator.LeaseTable.ReleaseIP | main.go:205-223 | the new table is `Release` of the old one, and distinct leases stay distinct |

## Left out

- The Redis connection and its calls (`getConn`, `getIPs`, HGETALL, HSET, HDEL). They are replaced by reads and updates of the `leases` field. Connection, dial and write errors are not modelled: every HSET and HDEL succeeds.
- Unparsable stored values. Go's `getIPs` keeps a nil `net.IP` for a hash value that is not an address. The model's table holds only addresses, which is what `allocateIP` itself writes.
- The CNI glue (`main`, `cmdAdd`, `cmdGet`, `cmdDel`, `loadConfig`): it is JSON decoding, result printing and library dispatch.
- The master election and pooled client in vendor/github.com/stellarproject/orbit/clients/store/client.go. It is network I/O and a background goroutine, and is not part of this model.
- The race between reading the table and writing the lease. The model is the sequential behaviour of one call; no atomic check-and-set is added.
- Allocator.LeaseTable.AllocateIP: the Go loop variable aliases `r.Start` and advances it in place, so after a scan the caller's range start has moved. The model copies the start into a fresh array and leaves the range value untouched.
- Go's 16-byte IPv4-in-IPv6 form. `net.ParseIP` and `net.ParseCIDR` return IPv4 addresses as 16 bytes, ending in ::ffff:a.b.c.d. Past 255.255.255.255, Go's `nextIP` carries into that prefix and yields ::1:0:0:0. The scan then skips ::1:0:0:0 and ::1:0:0:1 as reserved, and unless it is held, writes and returns the IPv6 address ::1:0:0:2. The 4-byte model instead wraps to 0.0.0.0 and scans on towards the end. The two differ only when the start is above the end and every address from the start up to 255.255.255.255 is reserved or held.
- A nil range start. Go's range form keeps a start that `net.ParseIP` rejected, and `allocateIP` then panics in `validIP`. The model returns the `InvalidStart` error instead. As in Go, this happens only for an id without a lease.
- NetText.ParseIP: it accepts exactly four dot-separated decimal octets, each at most 255. Fields with leading zeros are accepted and read as decimal, as `net.ParseIP` did before Go 1.17; since Go 1.17 such fields are rejected. IPv6 and the other forms `net.ParseIP` accepts are not modelled.
- NetText.ParseCIDR: the mask is kept as a prefix length plus the masked network address, not as Go's mask bytes. Decimal overflow of the prefix length in Go's `dtoi` is not modelled, because the model reads unbounded naturals and rejects any value above 32.
- The lookup of `allocateIP` is keyed by address rather than by `ip.String()`. For IPv4 these identify the same entries, by NetText.ParseIPText.
- The increment wraps silently at the end of the address space. A checked increment that reports exhaustion would differ from `nextIP`, so the model keeps the wrap-around the code has.
