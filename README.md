# wol-rs core, modelled in Dafny

This project models the two cores of the `wol-rs` Wake-on-LAN tool:

- **The host registry** (`src/config.rs`). `Config` holds an ordered list of
  `HostConfig { nickname, ip, mac }` entries. It supports lookup by IP,
  lookup by nickname, appending hosts, and removing consecutive duplicates.
  `Registry.Config` is a class whose `hosts` field is a `seq`.
  `AddHosts` and `DedupHosts` update that field in place. `DedupHosts` follows
  the read/write-index scan of `Vec::dedup_by`, including the closure's
  nickname copy. The scan is proved equal to the specification function
  `Registry.Dedup`, defined through `Registry.DedupPrefix`. The lemmas in `RegistryProperties` prove what `Dedup`
  guarantees.
- **The magic-packet builder** (`src/wol.rs`). `create_wol_packet` writes six
  `0xFF` bytes and then the 6-byte hardware address sixteen times, 102 bytes
  in all. `Wol.CreateWolPacket` fills a 102-byte array with the same
  `extend` steps. It is proved equal to the specification function
  `Wol.MagicPacket`, and the layout, round-trip and fixture facts are proved
  about that function.

Equality of hosts is Dafny's structural equality on `HostConfig`. That is
the Rust struct's derived `PartialEq` (src/config.rs:13), which compares
nickname, IP and MAC. Duplicates are hosts equal in all three fields, not
hosts that merely share a MAC. The closure's nickname copy runs only when
both nicknames are `None`, so it never changes a value. `DedupHosts`
performs the copy and its proof shows the copy is a no-op.
`NicknameIsPartOfEquality` proves that two entries differing only in the
nickname are both kept. The comment at src/config.rs:105 says "a will be
removed", which is correct: `dedup_by` passes the later element as `a`.
The comment then says "clone b's nickname to a", but the code copies in the
other direction, `b.nickname = a.nickname.clone()` (src/config.rs:107). The
model follows the code.

Files: `wrappers.dfy` (Option, Result), `registry.dfy` (module `Registry`),
`registry_properties.dfy` (module `RegistryProperties`), `wol.dfy` (module `Wol`).

## Model

| member | source | states |
|---|---|---|
| Registry.Find | src/config.rs:71 | `iter().find`: returns a host exactly when some host satisfies the predicate, and then it is the host at the first such index |
| Registry.Config.constructor | src/config.rs:21-24 | the default configuration has no hosts |
| Registry.Config.GetHostByIp | src/config.rs:70-77 | `Ok(h)` exactly when some host has that IP, with `h` the first such host in list order; otherwise `HostNotFound`, in particular on an empty list |
| Registry.Config.GetHostByNickname | src/config.rs:81-93 | `Ok(h)` exactly when some host's nickname is present and equal to the query, with `h` the first such host; hosts without a nickname never match; otherwise `HostNotFound`, in particular on an empty list |
| Registry.Config.AddHosts | src/config.rs:96-98 | the new list is the old list followed by the added hosts, in order |
| Registry.Config.DedupHosts | src/config.rs:101-111 | the in-place scan, including the nickname copy, leaves exactly `Dedup` of the old list |
| Registry.DedupPrefix | src/config.rs:103-110 | deduplicating the first `n` hosts never gives more than `n` hosts, and a non-empty prefix keeps its first and its last host |
| Registry.SameBucket | src/config.rs:103-110 | the closure reports a duplicate exactly when the two hosts are equal in all three fields, and the kept host comes back unchanged by the nickname copy |
| Registry.ScanStep | src/config.rs:103-110 | in one scan step the compared hosts are the next input host and its predecessor; an equal host is dropped, any other is moved to the write index, and the scan state is kept |
| RegistryProperties.RunStartsPrefix | src/config.rs:103-110 | the run starts of a prefix are indices inside it, in strictly increasing order |
| RegistryProperties.DedupPrefixAtRunStarts | src/config.rs:103-110 | a deduplicated prefix has one host per run start, and its `k`-th host is the input host at the `k`-th run start |
| RegistryProperties.RunStartsPrefixExact | src/config.rs:103-110 | an index below `n` is listed exactly when it is the first index or its host differs from the previous one |
| RegistryProperties.DedupKeepsRunStarts | src/config.rs:101-111 | the result is the subsequence of the input at the run starts (the first index, and every index whose host differs from the previous one), in increasing index order |
| RegistryProperties.DedupPrefixHasNoAdjacentDuplicates | src/config.rs:103-110 | no two neighbouring hosts of a deduplicated prefix are equal |
| RegistryProperties.DedupHasNoAdjacentDuplicates | src/config.rs:103-110 | after deduplication no two neighbouring hosts are equal in all three fields |
| RegistryProperties.DedupPrefixOfDistinctNeighbours | src/config.rs:103-110 | without equal neighbours, deduplicating the first `n` hosts gives exactly those hosts |
| RegistryProperties.DedupOfDistinctNeighbours | src/config.rs:103-110 | a list with no equal neighbours is returned unchanged |
| RegistryProperties.DedupIdempotent | src/config.rs:101-111 | deduplicating twice equals deduplicating once |
| RegistryProperties.DedupKeepsEveryHost | src/config.rs:101-111 | a host occurs in the result exactly when it occurs in the input |
| RegistryProperties.FindReturnsFirstMatch | src/config.rs:71 | the lookup returns the host at the first matching index |
| RegistryProperties.FirstMatchSurvivesDedup | src/config.rs:103-110 | the first host matching a lookup is kept by deduplication and is still the first match |
| RegistryProperties.DedupPreservesFind | src/config.rs:101-111 | any lookup finds the same host before and after deduplication |
| RegistryProperties.DedupPrefixLocal | src/config.rs:103-110 | deduplicating the first `n` hosts depends only on those hosts |
| RegistryProperties.AddThenDedup | src/main.rs:88-93 | appending one host and deduplicating drops the new host exactly when it equals the current last host, and otherwise appends it to the deduplicated list |
| RegistryProperties.AddToDeduplicated | src/main.rs:88-93 | on a deduplicated list, adding a copy of the last host changes nothing, and adding any other host appends it |
| RegistryProperties.NonAdjacentCopiesSurvive | src/config.rs:103-110 | equal hosts that are not neighbours (`[x, y, x]`) are all kept |
| RegistryProperties.NicknameIsPartOfEquality | src/config.rs:104-108 | two neighbours with the same IP and MAC but different nicknames are both kept, with unchanged nicknames |
| Wol.Repeated | src/wol.rs:28-30 | `n` copies of the address are `6 * n` bytes long |
| Wol.MagicPacket | src/wol.rs:6-15 | a packet is `PacketSize` = 6 * 16 + 6 = 102 bytes long |
| Wol.RepeatedSlot | src/wol.rs:28-30 | the `k`-th six-byte slot of the repeated addresses is the address |
| Wol.MagicPacketLayout | src/wol.rs:26-31 | 102 bytes; the first six are `0xFF`; for every k in 0..16, bytes `6 + 6k .. 12 + 6k` equal the address |
| Wol.AddressOfMagicPacket | src/wol.rs:27-30 | reading the address back out of the packet gives the original address |
| Wol.MagicPacketInjective | src/wol.rs:27-30 | distinct addresses give distinct packets |
| Wol.MagicPacketRecognised | src/wol.rs:26-31 | a 102-byte sequence has the header and sixteen equal slots exactly when it is the packet of the address it carries |
| Wol.Extend | src/wol.rs:27 | `extend` appends the given bytes after the filled prefix and advances the length by their count |
| Wol.CreateWolPacket | src/wol.rs:24-32 | succeeds exactly when the address text parses, and then returns the magic packet of the parsed address; otherwise fails with the parse error and produces no packet |
| Wol.CreateFixturePacket | src/wol.rs:48-72 | when `"10:10:10:10:10:10"` parses to six `0x10` bytes, the packet is six `0xFF` bytes followed by ninety-six `0x10` bytes |

## Left out

- `Config::load`, `Config::save` and `Config::path` (src/config.rs:28-66): TOML serialisation, file I/O and environment-variable lookups are not modelled.
- The socket half of `wol` (src/wol.rs:35-46), with `BIND_TO` and `SEND_TO_PORT`: UDP bind, `set_broadcast`, socket-address parsing and `send_to` are network I/O.
- Hardware-address parsing (src/wol.rs:25) comes from the `mac_address` crate. It is the parameter `parse: string -> Option<MacBytes>` of `CreateWolPacket`. No text grammar is assumed. The fixture needs only that `"10:10:10:10:10:10"` parses to six `0x10` bytes.
- `IpAddr` is a datatype `V4(bv32) | V6(bv128)` that is only compared for equality. Address text parsing is not modelled.
- Lookups return a copy of the host, not a borrowed reference. Rust lifetimes have no counterpart here.
- `Vec` growth is not modelled. The packet buffer is an array of exactly `PacketSize` bytes, which is the capacity the source reserves.
- src/main.rs (argument parsing, config-file initialisation, printing, `expect` panics) is glue. Its `Add` flow, append then deduplicate, is stated by `AddThenDedup` and `AddToDeduplicated`.
- src/configurations.rs is not part of this model. It is an unused earlier version that holds only load/save/path I/O and is not declared as a module.
