# WireGuard control plane: a verified model

A Dafny model of the backend that manages WireGuard servers, with proofs of what
its parts promise together: which live peers an apply keeps, that stored tunnel
addresses never collide, that the allocator and the validator of addresses
agree, that server ranges stay disjoint and so fix the jump host, that the vault
keeps its key through every passphrase change, and how often a login can be
guessed.

`dafny verify dfyconfig.toml` checks everything.

## How the model is laid out

| module | models |
|---|---|
| Wrappers, Lookup, Text, Bits, Sorting | the search for a row by id, JavaScript string operations, 32-bit masks and shifts as operations on binary digits, `ORDER BY name` |
| Net | addresses, blocks, overlap, allocation and validation |
| Status, WireGuard | reading `wg show dump`; the interface as an environment that a config text replaces |
| DeviceStore, ServerStore | the two tables, as classes with mutable rows |
| PeerImport, DeviceService, Registry | the services that change the tables |
| Profile, Apply, Rendering, ApplyProofs, Reconcile | rendering, stripping and reading a config; one apply and what it keeps; the reconciled view |
| Runs | all of this over time, and short runs that reach each failure |
| Connection | the choice of a jump host |
| Vault, Lockout, Sessions, Recovery | the stateful security services |
| Shell, Bind | the vetted command lines; the private-bind test |

Where the source changes state, a class method or a loop is proved equal to a
function of the state before it, and the results are lemmas about that function,
over one step or over every run.

## What the model assumes

- A service call is atomic towards other calls. The source awaits key generation,
  Argon2 and SSH between a check and the write; two calls that interleave there
  are not covered. A call that writes twice is modelled as writing twice.
- SQLite lists rows of equal name in the order of insertion; `ORDER BY name`
  alone does not promise it.
- The clock never runs backwards within a run (logins, sessions).
- Generated keys are new, and are 32 bytes in base64; ids come from a counter;
  session ids are created once.
- A patched address range is not the empty text, as request validation ensures
  (`backend/src/http/routes/servers.ts:9`).
- The vault is unlocked while a config is rendered: the server row carries its
  private key in clear.
- The servers a device is added to or imported for exist; the set of known SSH
  targets is given to each call on servers that looks one up.
- `wg` skips white space of ASCII anywhere in a line, refuses a line it does not
  know, a port above 65535, a key that is not one, and an AllowedIPs entry that
  is no host with an optional mask. Hosts with a colon are taken to be valid IPv6.
- `wg syncconf`, and `wg-quick up` after its own stripping, make the live peers
  those of the text when `wg` accepts it, and change nothing otherwise. An
  AllowedIPs entry belongs to one peer: of those that claim it, the last one in
  the text. Everything outside the text that can fail is the parameter `syncOk`.
- The kernel prints every key once, no entry twice, and entries with their mask
  and without the bits behind it.
- Sealing is ideal: a box opens under its own key and nonce only. The key
  derivation and the recovery-code hash are arbitrary functions.
- Texts are sequences of code points; `parseInt` yields unbounded integers.

## Where the code and its documentation differ

The model follows the code.

- Requirements FR-016 and FR-018 of specs/002-peer-import-manual-ip say an apply
  never removes a peer that nobody chose to remove. For every live peer the exact
  condition is `ApplyProofs.LivePeerSurvivesExactly`, and `Runs.NonDestructiveInEveryRun`
  states it at every state of every run. A peer that is tracked already (an
  imported one still awaiting review too) is dropped exactly when its row has no
  address; a run: `Runs.LateIpsDropped`. A peer that is not tracked is dropped
  exactly when the live peers could not be read or it has no AllowedIPs; runs:
  `Runs.UnreadApplyDropsPeer`, `Runs.BarePeerDropped`. A peer that stays shows
  what its row, or the row its import makes, claims less what is claimed by
  something listed after it, so it has the same AllowedIPs exactly when these are
  what it showed. Those of an untracked peer go to a tracked peer listed after it
  (`Runs.ClashTakesAllowedIps`); those of a tracked peer that were changed on the
  server are put back (`Runs.ChangedIpsPutBack`).
- FR-013 of the same specification says an adoption that conflicts with a managed
  peer is rejected. An import stores a host that is taken among the AllowedIPs,
  where the conflict check of `adopt` does not look: a device that clashes is
  adopted exactly when any other would be (`Runs.ClashDoesNotStopAdoption`; a run:
  `Runs.AdoptClashRun`). The check itself cannot fire: the unique index keeps the
  state it looks for from arising (`DeviceService.AdoptNeverConflicts`).
- `adopt` writes twice without a transaction. It leaves a device adopted and
  reports an error when the segment given does not exist, and only then
  (`DeviceService.HalfAdoptedExactly`; a run: `Runs.HalfAdoptionRun`).
- `update` of a server has no parse check of its own. Comparing with another
  server stands in for it, so a lone server takes a malformed range
  (`Registry.MalformedRangeStoredExactly`; a case: `Registry.LoneServerTakesNonsense`).
- A manual address is validated trimmed and stored as typed; the stored text is
  the canonical one exactly when it holds no white space
  (`DeviceService.StoredCanonicalExactly`). Two things follow. An import stores a
  number twice exactly when it is stored in such a text only
  (`DeviceService.ImportDuplicatesNumber`; a run: `Runs.DuplicateNumberRun`). And
  an apply fails exactly when that white space is a newline or outside ASCII, or
  the port or range is bad (`ApplyProofs.ApplySucceedsExactly`; runs:
  `Runs.PaddedThenApplied`, `Runs.NewlineFailsApply`).
- "Zeroized on lock/exit" (`backend/src/crypto/vault.ts:11-13`, `:122`), for the
  data-encryption key: every copy is zero after a lock exactly when no unlock and
  no passphrase change has succeeded since the process started (a key of zeros
  aside), because `unwrap` opens into a buffer that it copies and never zeroes
  (`Vault.RunThenLock`; a run: `Vault.UnlockOnceLeavesKey`).
- The same for the key-encryption keys: each is derived into a buffer that is
  copied. The copy, which is the one used, is always zeroed; the first buffer
  never is. So after a lock all buffers of derived keys are zero exactly when
  every key derived since the process started is all zeros, as when there is none
  (`Vault.RunThenLock`; a run: `Vault.InitLeavesKek`).
- The exponential back-off of FR-021 in specs/001-wireguard-network-manager is
  computed but not enforced by the login route: within the reported delay an
  attempt is refused exactly when the account is locked
  (`Lockout.DelayEnforcedExactly`; a run: `Lockout.FirstFiveUnhindered`).
- "The server's own address is host .1 in the range" holds exactly for prefixes up
  to 31 (`Net.ServerAddressInNetwork`; the ranges it leaves:
  `Net.HostRangeLeavesNetwork`, `Net.LoneHostServerAddress`).

## Model

| member | source | states |
|---|---|---|
| Net.OctetExact | backend/src/servers/net.ts:16 | a part of a dotted quad is accepted as `n` iff, trimmed, it is the canonical decimal of `n` and `n` is at most 255 |
| Net.PackIsQuad | backend/src/servers/net.ts:19 | shifting four octets into place and or-ing them gives the base-256 number, below 2^32 |
| Net.ParseIsPrintInverse | backend/src/servers/net.ts:12-35 | a text parses to `n` iff it has four parts and, with white space around the parts removed, is the printed form of `n` |
| Net.PrintParse | backend/src/servers/net.ts:12-35 | printing any 32-bit number and parsing the text gives the number back |
| Net.PaddedIp | backend/src/servers/net.ts:12-20 | white space around an address never changes what it denotes, nor whether it is one |
| Net.CanonicalExactly | backend/src/servers/net.ts:12-35 | a text that denotes an address is its canonical text iff it holds no white space |
| Net.BaseIsRoundedDown | backend/src/servers/net.ts:44-45 | the shift-and-mask base equals the address rounded down to a multiple of 2^(32-prefix), prefixes 0 and 32 included |
| Net.ParsedBlock | backend/src/servers/net.ts:37-46 | every range that parses is an aligned block of the prefix it was written with, holding the address it was written with |
| Net.RangeIsBlock | backend/src/servers/net.ts:48-51 | `last` never wraps, and `first..last` holds exactly the addresses that agree with the base above the prefix |
| Net.LaminarOrdered | backend/src/servers/net.ts:48-58 | a block with the shorter prefix holds all of the other block or none of it, decided by the other base |
| Net.Laminar | backend/src/servers/net.ts:53-58 | any two blocks are nested or disjoint, and the two-comparison test decides which |
| Net.OverlapExact | backend/src/servers/net.ts:53-58 | `cidrsOverlap` answers iff both ranges parse, is true iff some address lies in both, and is symmetric |
| Net.NetworkCidrSameBlock | backend/src/servers/net.ts:65-68 | normalising keeps the block and is idempotent |
| Net.ServerAddressInNetwork | backend/src/servers/net.ts:71-74 | the `.1` address stays in its own network iff the prefix is at most 31 |
| Net.ServerAddressIsSecond | backend/src/servers/net.ts:71-74 | within its network, the server gets the second address of the block |
| Net.HostRangeLeavesNetwork | backend/src/servers/net.ts:71-74 | for a range of one host the server gets the address after it, outside its network |
| Net.LoneHostServerAddress | backend/src/servers/net.ts:71-74 | the server of `10.0.0.1/32` gets `10.0.0.2/32` |
| Net.UsedRangeExact | backend/src/servers/net.ts:81-96 | the range taken from a used entry holds exactly the host, or the addresses of the block, that the entry denotes; blank, IPv6 and malformed entries denote nothing |
| Net.CollectUsedRanges | backend/src/servers/net.ts:81-96 | the loop collects the range of every entry that is a host or block, in order, skipping blank, IPv6 and malformed ones |
| Net.CoveredIsCoveredBy | backend/src/servers/net.ts:99-103 | a number lies in the collected ranges iff some entry denotes it |
| Net.StoredHostCovers | backend/src/servers/net.ts:81-96 | a stored host address with `/32` appended covers exactly that host, whatever white space the stored text has |
| Net.FirstFree | backend/src/servers/net.ts:115-121 | the counting search returns the least free candidate, and none iff there is none |
| Net.AllocateAddress | backend/src/servers/net.ts:110-123 | the loop terminates on every range and list, with the address or the failure of `AllocatedExact` |
| Net.AllocatedExact | backend/src/servers/net.ts:110-123 | the allocator returns the least assignable address, and fails only when none is assignable |
| Net.AddressInRangeExact | backend/src/servers/net.ts:126-132 | `addressInRange` is true iff the host part parses and lies in the block |
| Net.ValidateExact | backend/src/servers/net.ts:151-168 | the validator accepts iff the range parses and the text is one IPv4 host, bare or `/32`, of the block, neither network, broadcast nor `.1`, in no used range |
| Net.ValidateReasons | backend/src/servers/net.ts:151-168 | each reason for turning an address down, exactly: malformed, out of range, reserved, in use; it throws iff a host meets a range that does not parse |
| Net.AllocatorAgreesWithValidator | backend/src/servers/net.ts:110-168 | for every range and used list the allocator returns the least address the validator accepts, and throws iff the validator accepts no text at all |
| Status.ReadWgDump | backend/src/servers/status.ts:19-39 | the loop returns one status for each line with eight or more columns after the first line |
| Status.DumpRoundTrip | backend/src/servers/status.ts:19-39 | the parser inverts a printed dump whose columns hold no tab or newline: each peer with its key, endpoint, AllowedIPs and counters, connected iff its last handshake is less than 180 seconds old |
| Sorting.SortOrders | backend/src/store/devices.ts:96-100 | a listing is ordered by name, and rows of one name stay in the order of insertion |
| Sorting.SortKeepsElements | backend/src/store/servers.ts:72-74 | a listing is a permutation of the rows |
| DeviceStore.EntryList | backend/src/store/devices.ts:146-150 | the inner loop returns the trimmed non-blank entries in order |
| DeviceStore.UsedAddressesExact | backend/src/store/devices.ts:120-128 | an address is listed as used iff some row of the server stores that text |
| DeviceStore.UsedCidrsExact | backend/src/store/devices.ts:135-154 | an entry is in use on a server iff it is the host of one of its peers with /32, or a non-blank trimmed part of the AllowedIPs of one |
| DeviceStore.WithoutServerExact | backend/src/store/migrations/0003_servers_devices.sql:31 | deleting a server removes exactly its own device rows |
| DeviceStore.ServerDroppedExact | backend/src/store/migrations/0003_servers_devices.sql:21-40 | deleting a server takes exactly its own devices and segments; a device of another server loses its segment iff that is one of those, and nothing else changes |
| DeviceStore.DeviceRepo.GetByPublicKey | backend/src/store/devices.ts:107-111 | finds a row with the key on that server iff there is one |
| DeviceStore.DeviceRepo.UsedAddressList | backend/src/store/devices.ts:120-128 | collects the addresses of the server in row order, as `UsedAddressesExact` characterises them |
| DeviceStore.DeviceRepo.UsedCidrList | backend/src/store/devices.ts:135-154 | the nested loops collect, for peers only, each host as /32 and each entry, as `UsedCidrsExact` describes them |
| DeviceStore.DeviceRepo.Create | backend/src/store/devices.ts:156-182 | inserts with a new id unless the unique index holds the address already or a segment or SSH target referred to does not exist; then nothing changes |
| DeviceStore.DeviceRepo.Update | backend/src/store/devices.ts:207-240 | updates the one row with the id, refused when it would refer to a segment or SSH target that does not exist |
| DeviceStore.DeviceRepo.Refer | backend/src/store/migrations/0003_servers_devices.sql:34-40 | when segments or SSH targets go, every reference to them, and no other, is cleared |
| DeviceStore.DeviceRepo.DeleteByServer | backend/src/store/migrations/0003_servers_devices.sql:21-34 | leaves the table of `ServerDroppedExact` |
| DeviceStore.ReferringKeepsOk | backend/src/store/migrations/0003_servers_devices.sql:34-40 | whatever segments and targets remain, the table stays well formed and a row loses exactly its references to what is gone |
| DeviceStore.DeviceRepo.Delete | backend/src/store/devices.ts:269-271 | deletes the one row with the id and tells whether there was one |
| PeerImport.ImportLivePeers | backend/src/servers/peers.ts:45-63 | the loop ends in the table and count of `ImportExact`; its local `used` list equals the stored addresses at every iteration |
| PeerImport.ImportExact | backend/src/servers/peers.ts:45-63 | on any well-formed table the import never fails, keeps every row in place, ends with the old keys plus all non-empty live keys, counts exactly the new keys, duplicates in the list included |
| PeerImport.ImportIdempotent | backend/src/servers/peers.ts:40-63 | importing the same live peers again, all or some, in any order, imports nothing |
| PeerImport.ImportedFaithfully | backend/src/servers/peers.ts:19-38 | the first occurrence of each untracked key gets a needs-review row that renders the same AllowedIPs up to outer white space and a bare host written as /32, and none iff they are blank |
| PeerImport.AddedFaithfully | backend/src/servers/peers.ts:45-63 | every row an import adds comes from a live peer, with its key, name and AllowedIPs, and has no MAC, segment or SSH target |
| PeerImport.AddedInOrder | backend/src/servers/peers.ts:45-63 | the rows an import adds stand in the order of their live peers |
| PeerImport.ImportedNameExact | backend/src/servers/peers.ts:54 | an imported peer is named after the first eight characters of its key |
| PeerImport.InsertKeeps | backend/src/store/migrations/0003_servers_devices.sql:48-50 | inserting a row with a new key and address is refused iff it refers to what does not exist, never by the unique index, and keeps the table well formed |
| DeviceService.StoredNamesChecked | backend/src/devices/service.ts:63-79 | the untrimmed text `add` stores denotes the very address it validated |
| DeviceService.PaddingIsStored | backend/src/devices/service.ts:63-79 | any white space typed behind an assignable address is accepted and stored with it |
| DeviceService.StoredCanonicalExactly | backend/src/devices/service.ts:63-86 | the stored text is the canonical one iff it holds no white space, which an automatic address never does |
| DeviceService.ChosenIsAssignable | backend/src/devices/service.ts:59-86 | a chosen address is assignable, and the least assignable one when picked automatically |
| DeviceService.StoredIsCovered | backend/src/store/devices.ts:135-154 | every stored address is covered by the in-use list of its server |
| DeviceService.InUseExactly | backend/src/store/devices.ts:135-154 | the in-use list covers an address iff some peer of the server has it: as its stored host, or as or within a comma-separated part of its AllowedIPs |
| DeviceService.AddedAddressIsNew | backend/src/devices/service.ts:59-86 | an added address is a host of the range that no peer has, neither as its host nor in any part of its AllowedIPs; it is the one wanted, or the least such host; and it differs from every stored address as a text and as a number |
| DeviceService.AddSucceedsExactly | backend/src/devices/service.ts:48-115 | `add` succeeds iff the MAC is well formed, the segment and SSH target given exist and, for a peer, the wanted address is one host of the range that no peer has, or some such host is left |
| DeviceService.AddFailsExactly | backend/src/devices/service.ts:48-115 | which error a failing `add` reports, each exactly |
| DeviceService.AddedPeer | backend/src/devices/service.ts:87-102 | the one row a successful `add` of a peer appends, column by column, with an address as in `AddedAddressIsNew` |
| DeviceService.AddedHost | backend/src/devices/service.ts:87-102 | the one row a successful `add` of a host appends, without keys or address |
| DeviceService.AddKeeps | backend/src/devices/service.ts:48-115 | `add` with a fresh key never meets the unique index and keeps the table well formed |
| DeviceService.EditKeeps | backend/src/store/devices.ts:207-267 | an edit touches one row, in its own columns only, and keeps the table well formed |
| DeviceService.UpdateExact | backend/src/devices/service.ts:157-177 | `update` succeeds iff the device exists, a new MAC is well formed and a new segment and SSH target exist; it sets the fields given and no others |
| DeviceService.UpdatesCompose | backend/src/devices/service.ts:157-177 | two updates in a row are one update with the second patch laid over the first |
| DeviceService.AdoptNeverConflicts | backend/src/devices/service.ts:127-142 | on a well-formed table the conflict check of `adopt` never fires |
| DeviceService.AdoptExact | backend/src/devices/service.ts:121-155 | `adopt` succeeds iff the device awaits review and a segment given exists; it keeps address and keys |
| DeviceService.HalfAdoptedExactly | backend/src/devices/service.ts:143-146 | `adopt` reports an error on a row it has changed iff the device awaits review and the segment given does not exist |
| DeviceService.FailuresExactly | backend/src/devices/service.ts:121-208 | which error adopt, update, rotation and removal report, each exactly |
| DeviceService.RotateExact | backend/src/devices/service.ts:180-194 | rotation succeeds iff the device is a peer; the old key is tracked no more and the new one is |
| DeviceService.RemoveKeeps | backend/src/devices/service.ts:197-208 | removal takes exactly the row with that id |
| DeviceService.StepKeeps | backend/src/devices/service.ts:48-208 | one add, import, adopt, update, rotation, removal, server deletion or change of segments and targets keeps the table and is never refused by the unique index |
| DeviceService.RunKeeps | backend/src/devices/service.ts:48-208 | over every run of those steps addresses and keys stay distinct per server, only peers carry them, and no step is refused by the unique index |
| DeviceService.ImportDuplicatesNumber | backend/src/servers/peers.ts:30-36 | an import stores a number a second time iff the imported text itself is not stored and some stored text of that number holds white space |
| DeviceService.DeviceService.Add | backend/src/devices/service.ts:48-115 | on the mutable table: a failed add leaves every row as it was, a successful one leaves the table `AddedPeer` and `AddKeeps` speak of and returns the new id |
| DeviceService.DeviceService.Adopt | backend/src/devices/service.ts:121-155 | its two updates leave the table and report the error of `AdoptExact` and `HalfAdoptedExactly` |
| DeviceService.DeviceService.Update | backend/src/devices/service.ts:157-177 | leaves the table of `UpdateExact`; an error leaves every row as it was |
| DeviceService.DeviceService.RotateKeys | backend/src/devices/service.ts:180-194 | leaves the table of `RotateExact`; an error leaves every row as it was |
| DeviceService.DeviceService.Remove | backend/src/devices/service.ts:197-208 | leaves the table of `RemoveKeeps`; an unknown id leaves every row as it was |
| Registry.FirstConflictExact | backend/src/servers/service.ts:63-70 | the overlap loop passes iff the range is well formed against, and disjoint from, every server compared |
| Registry.CreateSucceedsExactly | backend/src/servers/service.ts:49-85 | `create` succeeds iff the range parses and is disjoint from all, the name is free, and the SSH target is known, and given when remote |
| Registry.CreatedServer | backend/src/servers/service.ts:72-85 | the one server a successful `create` appends, field by field |
| Registry.CreateFailsExactly | backend/src/servers/service.ts:49-71 | which error a failing `create` reports, each exactly |
| Registry.UpdateSucceedsExactly | backend/src/servers/service.ts:96-119 | `update` succeeds iff the name stays unique, the target is known, and the range is disjoint from all other servers |
| Registry.UpdateFailsExactly | backend/src/servers/service.ts:96-119 | which error a failing `update` reports: unknown, range in the way, or refused by the database |
| Registry.UpdateTouches | backend/src/store/servers.ts:112-133 | `update` writes the four given fields of one server and nothing else |
| Registry.DeletedExactly | backend/src/servers/service.ts:121-134 | `delete` removes the one server and leaves every other as it is; it fails iff there is none |
| ServerStore.StatusExact | backend/src/store/servers.ts:135-142 | recording a status writes that of the one server |
| Registry.RangesStayDisjoint | backend/src/servers/service.ts:49-134 | over every run of create, update, delete and status changes any two servers have well-formed, disjoint ranges |
| Registry.MalformedRangeStoredExactly | backend/src/servers/service.ts:99-105 | a malformed new range is stored by `update` iff there is no other server |
| Registry.LoneServerTakesNonsense | backend/src/servers/service.ts:96-119 | the concrete malformed range that `update` stores |
| Registry.ServerService.ScanConflicts | backend/src/servers/service.ts:63-70 | the loop returns the first error it meets, comparing with all servers or all but one |
| Registry.ServerService.Create | backend/src/servers/service.ts:49-94 | appends the one new server under a new id when `CreateSucceedsExactly` allows it, and otherwise leaves the registry as it was |
| Registry.ServerService.Update | backend/src/servers/service.ts:96-119 | writes the one server when `UpdateSucceedsExactly` allows it, and otherwise leaves the registry as it was |
| Registry.ServerService.Delete | backend/src/servers/service.ts:121-134 | the method leaves the servers of `DeletedExactly` and, by cascade, the devices of `DeviceStore.ServerDroppedExact` |
| Profile.BuildServerConfig | backend/src/servers/profile.ts:112-123 | the pushed lines join to the text that `ConfigReadsBack` reads back |
| Profile.StrippedLines | backend/src/servers/profile.ts:104-109 | the lines left are the native lines of the text, in order |
| Profile.StripIdempotent | backend/src/servers/profile.ts:104-109 | stripping twice is stripping once, and no wg-quick-only line is left |
| Profile.QuickSpellings | backend/src/servers/profile.ts:87-109 | a line with a key of wg-quick(8) in its usual spelling never survives the strip |
| Profile.ConfigReadsBack | backend/src/servers/profile.ts:99-123 | when no value holds a newline, a section reader of the stripped text yields the port, the key and the ordered peer list, free of the white space that `wg` skips |
| Profile.QuickReadsBack | backend/src/servers/profile.ts:112-123 | the unstripped text sets the address once, and the MTU and the saving as configured |
| Profile.ReadsBackVerbatimExactly | backend/src/servers/profile.ts:99-123 | every value comes back verbatim iff no value holds white space of ASCII |
| Profile.UnstrippedRefused | backend/src/servers/profile.ts:83-86 | the reader refuses every unstripped config |
| Profile.BrokenAddressRefused | backend/src/servers/profile.ts:119-120 | one stored address with a newline in it makes the reader refuse the whole config |
| WireGuard.LeftAll | backend/src/servers/remote.ts:28-33 | a peer keeps all the entries it claims iff no later peer claims one of them |
| WireGuard.IpsTextReads | backend/src/servers/remote.ts:43-48 | the AllowedIPs the kernel prints read back as the entries they were printed from |
| Rendering.RenderedRowsExact | backend/src/servers/service.ts:141-151 | a config lists exactly the server's peers that have a key and an address, by name and then by age |
| Rendering.CompactAddress | backend/src/servers/profile.ts:119-120 | a stored address is to `wg` the canonical text of its number when it holds only white space that `wg` skips |
| Rendering.HostAccepted | backend/src/servers/profile.ts:119-120 | `wg` accepts a stored host with its mask iff its text holds no newline and no white space outside ASCII |
| Rendering.SyncAccepts | backend/src/servers/remote.ts:22-36 | `wg` accepts the rendered text iff its port is in range and no rendered address holds such white space, and then holds the rendered peers |
| Rendering.RenderedConfigReads | backend/src/servers/service.ts:141-159 | the text rendered for an endpoint with a port says to `wg` that port and the server's own key, and to wg-quick the server's address, an MTU of 1420 and to save |
| Rendering.RenderedLiveExact | backend/src/servers/service.ts:141-159 | the live peers after a sync, row by row: the key of the row, and what the row claims less what a later row claims |
| Apply.ListenPortExact | backend/src/servers/service.ts:151-155 | the port is the number that the text after the first colon starts with, and 51820 when there is none or it is 0 |
| Apply.ListenPortReads | backend/src/servers/service.ts:151-155 | an endpoint written as a host and a port is read as that port |
| Apply.DefaultPortExactly | backend/src/servers/service.ts:151-155 | 51820 stands in iff there is no colon, or no number other than 0 and 51820 behind the first |
| Apply.ReadAndImport | backend/src/servers/service.ts:174-180 | reading through the printed dump and importing leave the table of `AfterReadExact`; an unreadable server leaves it as it was |
| Apply.ApplyServer | backend/src/servers/service.ts:167-205 | table, interface and outcome are those of `ApplyStep`; the status becomes up or down by the outcome, and stays when rendering throws |
| ApplyProofs.AfterReadExact | backend/src/servers/service.ts:174-180 | what is read from the kernel dump and imported, as a well-formed table extending the old one |
| ApplyProofs.ApplySucceedsExactly | backend/src/servers/service.ts:167-205 | an apply succeeds iff the environment does not fail, the range parses, the port is in range and no rendered address holds white space that `wg` does not skip; a failed one leaves the interface as it was |
| ApplyProofs.ApplyOnPort | backend/src/servers/service.ts:141-205 | for an endpoint written with a port, an apply succeeds iff the environment does not fail, the range parses, that port is in 1..65535 and no rendered address is unfit |
| ApplyProofs.LiveAfter | backend/src/servers/service.ts:141-159 | after a successful apply a key is live iff a rendered row has it, with what that row claims less what a row listed after it claims |
| ApplyProofs.LivePeerSurvivesExactly | backend/src/servers/service.ts:141-205 | the promise for every live peer: after a successful apply it is live iff, when tracked, its row has an address, and when not, the live peers were read and it has AllowedIPs; it shows what its claimant is left with, so its old AllowedIPs iff that is what it showed |
| ApplyProofs.TrackedPeersAreLive | backend/src/servers/service.ts:141-205 | every tracked peer that has an address is live after a successful apply and shows what its row claims less what is claimed later, so all of it iff nothing listed after it claims an entry of its own |
| ApplyProofs.UntrackedPeerSurvivesExactly | backend/src/servers/service.ts:167-205 | an untracked live peer survives a successful apply iff the live peers were read and it has AllowedIPs, and keeps those iff no tracked peer listed after it claims one of them |
| ApplyProofs.ApplyLeavesReady | backend/src/servers/service.ts:167-205 | an apply leaves a state to which the same results apply; after a successful one every live peer is tracked |
| ApplyProofs.ApplyConverges | backend/src/servers/service.ts:167-205 | a second apply imports nothing, renders the identical text and leaves the same peers live |
| Runs.StepClean | backend/src/devices/service.ts:48-208 | every device step keeps what the results on applying ask of rows |
| Runs.RunsStayReady | backend/src/servers/service.ts:167-219 | over every run of device steps, applies, reconciliations and outside changes to the interface, the state stays one the results on applying speak of |
| Runs.NonDestructiveInEveryRun | backend/src/servers/service.ts:167-205 | at every state of every such run, for every live peer, tracked or not: exactly when a successful apply keeps it, what it then shows, and exactly when that is what it showed before |
| Runs.DuplicateNumberRun | backend/src/servers/peers.ts:30-36 | a run from the empty table that stores one number twice |
| Runs.PaddedThenApplied | backend/src/devices/service.ts:63-79 | after a peer is added with white space behind its address, an otherwise undisturbed apply succeeds iff `wg` skips that white space |
| Runs.NewlineFailsApply | backend/src/devices/service.ts:63-79 | a newline or a no-break space typed behind an address makes the next apply fail, a blank does not |
| Runs.UnreadApplyDropsPeer | backend/src/servers/service.ts:174-180 | a run whose apply cannot read the live peers, succeeds, and drops one |
| Runs.BarePeerDropped | backend/src/servers/service.ts:145-150 | a run whose apply succeeds and drops an untracked peer without AllowedIPs, read or not |
| Runs.LateIpsDropped | backend/src/servers/service.ts:145-150 | a run whose apply drops a peer that a view imported without an address and that has AllowedIPs since |
| Runs.ChangedIpsPutBack | backend/src/servers/service.ts:141-151 | a run whose apply gives an imported, unadopted peer back what a view saw, whatever was set on the server since |
| Runs.ClashTakesAllowedIps | backend/src/servers/service.ts:141-151 | a run whose apply keeps an untracked peer but takes its AllowedIPs |
| Runs.ClashDoesNotStopAdoption | backend/src/devices/service.ts:127-142 | a device that shares a claimed entry with a managed peer is adopted exactly when any other would be, and both are managed then |
| Runs.AdoptClashRun | backend/src/devices/service.ts:121-155 | a run from the empty table after which an adoption leaves two managed peers with one host |
| Runs.HalfAdoptionRun | backend/src/devices/service.ts:143-146 | a run whose adoption fails and is half done |
| Reconcile.ReconcilePeers | backend/src/servers/peers.ts:94-126 | returns the view and leaves the table that `LiveViewExact` and `UnknownViewExact` describe |
| Reconcile.QueryStatus | backend/src/servers/service.ts:208-219 | unknown iff a remote server could not be reached; otherwise the live peers, or none and down when the interface is down or the command failed; records which |
| Reconcile.PeerRowsExact | backend/src/servers/peers.ts:103 | the rows shown are the server's peers, each once |
| Reconcile.ReconcileLists | backend/src/servers/peers.ts:94-126 | every peer of the server is listed, with its own columns, whether it has a private key, and whether its address, or else the first part of its AllowedIPs, lies outside the range; also when the status is unknown |
| Reconcile.ReconcileFailsExactly | backend/src/servers/peers.ts:107-120 | reconciling fails iff the stored range does not parse and some listed peer has an address to look at |
| Reconcile.LiveViewExact | backend/src/servers/peers.ts:94-126 | with live data every non-empty live key has exactly one row, a row is present iff its key is live, and then shows the state of the last live peer with that key |
| Reconcile.UnknownViewExact | backend/src/servers/peers.ts:98-126 | without live data no row is present or connected, nothing is imported, and every tracked key is still listed once |
| Reconcile.OutOfRangeExact | backend/src/servers/peers.ts:11-17 | a row is flagged iff its first host is not an address of the server's block |
| Connection.OneCover | backend/src/remote/connection.ts:86-89 | two servers with disjoint ranges never cover one host |
| Connection.FirstCoveringExact | backend/src/remote/connection.ts:86-89 | the first covering server found is the only covering one |
| Connection.FallbackIgnoresOrder | backend/src/remote/connection.ts:86-89 | the fallback answers the same for every order of the server list |
| Connection.JumpExact | backend/src/remote/connection.ts:33-96 | a jump is through a remote server whose range holds the host, is never the target itself, and has no further jump |
| Connection.SameJump | backend/src/remote/connection.ts:50-96 | any two resolutions of one target that use a jump are the same connection |
| Connection.DeviceResolvedExactly | backend/src/remote/connection.ts:33-66 | every device: no connection iff it, its target or the record of that is missing; else it throws iff its server may be jumped through and has a malformed range; else its target is dialled, with a jump iff its server may be jumped through, covers the host and has a known target, which is then the jump |
| Connection.BoundTargetResolvedExactly | backend/src/remote/connection.ts:77-96 | a target on its own: no connection iff it is unknown; when devices use it, the server of the first of them decides in the same way |
| Connection.UnboundTargetJumpsExactly | backend/src/remote/connection.ts:77-96 | with well-formed ranges, a target no device uses is reached through a jump iff a remote server with another, known target covers its host |
| Connection.UnboundTargetFailsExactly | backend/src/remote/connection.ts:77-96 | resolving such a target throws iff a registered range does not parse, which takes a lone server |
| Vault.RunFaithful | backend/src/crypto/vault.ts:85-179 | over every run an unlocked vault holds the key fixed at init and the stored row wraps it under the passphrase last set |
| Vault.InitialisedExactly | backend/src/crypto/vault.ts:85-103 | over every run there is a row iff an `init` was called, and the key is that of the first one |
| Vault.InitExact | backend/src/crypto/vault.ts:85-103 | `init` is done iff there is no row; afterwards exactly what derives the same key as its passphrase unlocks the vault |
| Vault.MadeDecryptsLater | backend/src/crypto/vault.ts:164-179 | every ciphertext ever made decrypts to its plaintext in every later unlocked state |
| Vault.UnlockExact | backend/src/crypto/vault.ts:106-120 | `unlock` succeeds iff the passphrase derives the key of the one last set, and then yields the key fixed at init |
| Vault.UnlockIffLastPassphrase | backend/src/crypto/vault.ts:106-120 | without a collision of the derivation, `unlock` succeeds iff given the passphrase last set |
| Vault.ChangeExact | backend/src/crypto/vault.ts:131-161 | a passphrase change answers true iff the current one derives the key last set; the key stays, and exactly what derives the same key as the next passphrase unlocks it |
| Vault.EncryptExact | backend/src/crypto/vault.ts:164-169 | in every state of every run: refused iff locked, else a ciphertext that opens to the text under the key of the vault and under no other |
| Vault.DecryptExact | backend/src/crypto/vault.ts:172-179 | in every state of every run: refused iff locked, else exactly what the key of the vault opens |
| Vault.OpenExactly | backend/src/crypto/vault.ts:85-161 | which calls open the vault, and that only a lock or a restart closes it |
| Vault.Wrap | backend/src/crypto/vault.ts:58-62 | the result opens to the wrapped bytes under the wrapping key and under no other |
| Vault.Unwrap | backend/src/crypto/vault.ts:64-73 | opens iff the key matches, into two new buffers: the copy it returns and the one it never zeroes |
| Vault.VaultService.WrapUnder | backend/src/crypto/vault.ts:44-62 | wraps under the derived key, zeroes the buffer it was used from and lets the one it was derived into stray |
| Vault.VaultService.UnwrapUnder | backend/src/crypto/vault.ts:44-73 | unwraps under the derived key, into two new buffers, and leaves the two buffers of that key as wrapping does |
| Vault.VaultService.InitVault | backend/src/crypto/vault.ts:85-103 | the buffers follow the state machine; one key-encryption key is derived unless the vault has a row |
| Vault.VaultService.UnlockVault | backend/src/crypto/vault.ts:106-120 | the buffers follow the state machine; a success puts the key in two new buffers and lets go of one, and of the buffer in use before, as they are |
| Vault.VaultService.LockVault | backend/src/crypto/vault.ts:123-128 | afterwards every copy of the key is zero but those let go of, which still hold it |
| Vault.VaultService.ChangePassphrase | backend/src/crypto/vault.ts:131-161 | the new buffer holds the same key although the old one is zeroed in place; the buffer it was opened into is let go of |
| Vault.RunThenLock | backend/src/crypto/vault.ts:44-161 | over every run of calls on the buffers, a lock at the end leaves every copy of the key zero iff no unlock and no passphrase change has succeeded since the process started; every buffer a key-encryption key was used from is zero, and those the keys were derived into are all zero iff every key derived since then is all zeros |
| Vault.UnlockOnceLeavesKey | backend/src/crypto/vault.ts:64-128 | init, restart, one unlock, lock: a buffer still holds the key |
| Vault.InitLeavesKek | backend/src/crypto/vault.ts:44-103 | init, lock: a buffer still holds the derived key-encryption key |
| Vault.VaultService.EncryptSecret | backend/src/crypto/vault.ts:164-169 | seals under the bytes now in the buffer, refused when locked |
| Vault.VaultService.DecryptSecret | backend/src/crypto/vault.ts:172-179 | opens with the bytes now in the buffer, refused when locked |
| Lockout.LoginExact | backend/src/http/routes/auth.ts:52-99 | every attempt: refused iff locked, in iff unlocked with everything right, which clears the count; a missing token counts for nothing, all else is counted and the fifth failure on locks for 899001 to 900000 ms |
| Lockout.NobodyIsLocked | backend/src/auth/lockout.ts:33-35 | before there is an operator nothing is counted and nobody is locked out |
| Lockout.RetryAfterEndsLock | backend/src/auth/lockout.ts:33-41 | waiting the reported time ends the lock, and waiting any less does not |
| Lockout.DelayReported | backend/src/auth/lockout.ts:33-48 | a delay is reported iff locked or from the third failure on |
| Lockout.BackoffDoubles | backend/src/auth/lockout.ts:42-46 | the reported delay starts at a second and doubles up to 30 seconds |
| Lockout.FailuresAreSpaced | backend/src/http/routes/auth.ts:54-91 | from the fifth counted failure on, consecutive recorded failures are at least 899001 ms apart |
| Lockout.WindowBound | backend/src/auth/lockout.ts:33-64 | a window of T ms holds at most 5 + T div 899001 recorded failures |
| Lockout.FirstFiveUnhindered | backend/src/http/routes/auth.ts:54-68 | the first five failures may all fall in one instant: the route does not enforce the back-off |
| Lockout.DelayEnforcedExactly | backend/src/http/routes/auth.ts:54-57 | within the reported delay an attempt is refused iff the status was locked |
| Lockout.LockoutService.RecordFailure | backend/src/auth/lockout.ts:50-64 | counts the failure and locks from the fifth on, to the whole second |
| Lockout.LockoutService.Login | backend/src/http/routes/auth.ts:52-99 | while locked nothing is checked or counted; a bad password or token is counted, a missing token is not, a success resets the count |
| Sessions.TouchExact | backend/src/auth/sessions.ts:30-41 | a touch is answered iff the session is not idle for longer than the timeout; it restarts the clock at the whole second, or deletes the row for good |
| Sessions.CreateExact | backend/src/auth/sessions.ts:21-41 | a session just created is answered, with the state it was created in, until the timeout has passed since that second |
| Sessions.MarkExact | backend/src/auth/sessions.ts:43-45 | marking changes what a session is answered as, not whether |
| Sessions.DestroyExact | backend/src/auth/sessions.ts:47-49 | a destroyed session is answered no more, and no other is affected |
| Sessions.PurgeableIsExpired | backend/src/auth/sessions.ts:52-57 | whatever a purge deletes, `touch` would have refused from then on |
| Sessions.PurgingUnobservable | backend/src/auth/sessions.ts:21-57 | purges anywhere in a run never change the answer of any touch |
| Sessions.SessionStore.Touch | backend/src/auth/sessions.ts:30-41 | refreshes, refuses or deletes as `TouchExact` says; a missing id changes nothing |
| Sessions.SessionStore.PurgeExpired | backend/src/auth/sessions.ts:52-57 | exactly the sessions idle for no more whole seconds than the timeout remain, as they were; the count is that of the others; and the step is the one the runs speak of |
| Recovery.ConsumeMarksOne | backend/src/auth/recovery-codes.ts:38-49 | a success marks exactly the first usable entry and changes nothing else |
| Recovery.SingleUse | backend/src/auth/recovery-codes.ts:38-49 | over every sequence of attempts the length and hashes are kept and a hash gets in exactly as often as it is tried, until its entries are used up |
| Shell.ShqRoundTrip | backend/src/remote/commands.ts:24-27 | a quoted value reads back as the one word it was made from, for every text |
| Shell.VettedArePlain | backend/src/remote/commands.ts:11-13 | an interface name or path that passes is of characters that mean themselves to a shell; a name has at most 15 and no slash |
| Shell.InterfaceFilesPass | backend/src/servers/remote.ts:13-14 | `wg0` passes, and so do both files of every interface that passes |
| Shell.WgShowReads | backend/src/remote/commands.ts:42-45 | refused iff an argument does not pass, else reads back as its argument vector |
| Shell.WgSyncConfReads | backend/src/remote/commands.ts:48-52 | refused iff an argument does not pass, else reads back as its argument vector |
| Shell.WgQuickReads | backend/src/remote/commands.ts:55-61 | refused iff an argument does not pass, else reads back as its argument vector |
| Shell.WriteConfigReads | backend/src/remote/commands.ts:64-68 | refused iff the path does not pass, else reads back as two commands and one redirection to exactly the given path |
| Text.MacExact | backend/src/remote/commands.ts:12 | a MAC passes iff it is six pairs of hex digits once cut at colons and dashes |
| Shell.Wake | backend/src/remote/commands.ts:75-96 | refuses for the MAC, the address or the port, each exactly and in the source's order, else returns a command that reads back word for word |
| Shell.ProbeReads | backend/src/remote/commands.ts:99-102 | refused iff an argument does not pass, else reads back as its argument vector |
| Bind.PrivateBindExact | backend/src/config/index.ts:20-37 | for every canonical dotted quad the text test holds iff the address is 0.0.0.0 or `addressInRange` puts it in 127.0.0.0/8 or a block of section 3 of RFC 1918 |
| Bind.LocalNamesExact | backend/src/config/index.ts:20-37 | a text that starts with no digit passes iff it is `localhost`, `::1`, or starts with a full first group in fc00::/7 of RFC 4193 |

## Left out

- HTTP routes, request schemas, audit records, logging, the web frontend and deployment: plumbing around the services modelled here.
- SQLite, ssh2, child processes, libsodium, argon2 and otplib themselves: foreign code, replaced by ideal functions or by an environment that may fail.
- IPv6: the source parses none; entries are skipped as in use and never in range, which the model keeps.
- Interleavings of two calls across an await: the source takes no lock there.
- "A removed or rotated key is gone after the next apply": not so, since an apply first imports every live key that is not tracked.
- `buildClientProfile`, wake-on-LAN guards, segments, reachability and the session registry: mostly single-branch facts that would add only easy members.
- The reachability, wake-controller and time-stamp columns of a row, and `last_synced_at`: no property here depends on them.
- Storing and decrypting the private keys of rows: rows carry them in clear.
- WireGuard.WgHost.Load: does not model what `wg syncconf` keeps of a peer besides its AllowedIPs (preshared key, endpoint, handshake, counters), nor that one key listed twice makes one peer; rendered keys never repeat.
- WireGuard.EntryOk: takes every host with a colon for a valid IPv6 host, since such entries come from `wg` itself.
- Registry.ServerService.Update: deleting an SSH target clears it in server rows; the registry model leaves the text, which then refers to nothing.
- WireGuard.WgHost.ShowDump: prints peers in the order they were loaded, where the kernel may use another; no result depends on the order.
- Status.DumpRoundTrip: leaves out numbers of 1e21 and more, which JavaScript prints in another notation.
- Profile.ConfigReadsBack: the reader knows the keys this program writes, not the comments and further keys that `wg` also accepts.
- Connection.SameJump: the order of creation stands for `created_at`, so two devices created in the same second are not a tie.
- Lockout.WindowBound: speaks of attempts one after the other; concurrent logins can pass the lock check together.
- Shell.ShqRoundTrip: the reader covers the quoting and operators that these commands use, and gives up on anything else.
- Shell.Wake: ports are integers; the source also refuses fractions.
- Bind.PrivateBindExact: with `Bind.LocalNamesExact` it leaves out texts that start with a digit and are no canonical quad, such as a host name that starts with `10.`, which the text test accepts.
- Sessions.PurgingUnobservable: asks that a session id is created once, since an id created again after a purge would meet a primary-key error only without the purge.
- Vault.VaultService.RestartProcess: the memory of an ended process counts as gone.
- Copies of a key that libsodium, argon2 or the garbage collector may keep: foreign code. `Vault.RunThenLock` speaks of the buffers the source itself makes.
