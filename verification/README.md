# VALON, modelled and proved

VALON keeps the peers of a WireGuard overlay network in three places that have to agree: the WireGuard
device of the discovery node (public key to overlay address), the in-memory peer cache of a CoreDNS
plugin, and a flat, string-keyed etcd store. An administrator's tool, `valonctl`, adds and removes peers;
the plugin polls the device, writes its cache behind to etcd, takes endpoint updates over HTTP, and
rebuilds itself from etcd after a restart. This project models that system in Dafny and proves what the
three stores keep over whole runs, together with the codecs, the address allocator and the name
resolution on which those results stand.

## How it is laid out

- **Text and codecs.** `Text`, `Bits`, `Rfc4648` hold string search, bit packing and base 32 and base 64
  of sections 4 and 6 of RFC 4648, at the level of bits. `Labels` converts between WireGuard keys and DNS
  labels, `Addresses` handles dotted quads and `host:port` texts, `Paths` Go's `path.Join`, and `PeerKeys`
  the two printers and two parsers of the etcd keys.
- **Components.** Code that changes state keeps its form: `Cache.PeerCache` (entries are heap objects, as
  `GetAll` shares them), `Etcd.EtcdServer`, `EtcdSync.Syncer`, `Startup.Plugin` and `Startup.WgDevice`,
  `WgMonitor.Monitor`, `Ddns.DdnsServer`, `EtcdClient.Client`, `PeerCommands.Valonctl`, `Resolver.Handler`.
  Every method is proved equal to a function of the old state (`Polled`, `SyncResult`, `LoadAll`,
  `AliasWritten`, `AddedPeer`, `Classify`, `AReply` and so on).
- **The state machine.** `System` builds its steps from those same functions: the steps of an add, the
  five steps of a remove, polls, sync passes, DDNS updates and restarts. `CommandRuns` shows where runs
  begin, that a whole remove is a run, and a run that the conditions shut out. `Removal`, `Registry`,
  `Uniqueness` and `Adds` hold the results over runs; `WriteBehind` looks at the sync pass step by step,
  with entries as places in a heap.
- **Names.** `Resolution` and `ValonSync` prove what queries answer, and that the client script's way back
  from DNS answers recovers the stored endpoints. `Endpoints` follows an endpoint from the device or the peer
  through cache, etcd and resolver to that script; `Listing` says what `peer list` shows of each peer.

## Where the code differs from what is promised

- The sync pass clears an entry's dirty flag inside `Update`, which sets the flag after running its
  function, so no entry ever becomes clean (`EtcdSync.ClearingIsUndone`, `WriteBehind.DirtyStaysDirty`).
- An alias made only of a-z and 2-7 is taken for a label and never resolves; "alice", the documentation's
  example, is one (`Resolution.AliasResolvesIff`, `Resolution.AliceReadsAsLabel`).
- Aliases are checked in lower case, stored as given and looked up in lower case. An alias with capitals
  leads to whoever registered the lower-case form, or nowhere: after adds of `Bob-x` and then `bob-x` a query
  for the first answers with the second peer (`Resolution.RegisteredAliasResolvesIff`,
  `Adds.CapitalsMisresolve`).
- The plugin registers any text as an alias, and a remove by key runs `path.Join` on it. A peer that
  registered `x/../bob` takes bob's entry with it, and `../peers/K/wg_ip` another peer's address
  (`PeerKeys.PathLikeAliases`, `Registry.PathLikeAliasTakesAnother`, `Uniqueness.ClimbingAliasTakesAddress`).
- A peer that is still cached can register its alias again between the two deletes of its remove; the last
  delete then leaves its alias field without an entry (`Registry.ReRegistrationBreaks`).
- When the cache step of a remove fails, or no DDNS endpoint is configured, the peer's address becomes free
  while the cache still holds it, and the next pass writes it back: two keys can hold one address
  (`CommandRuns.FailedCacheStepShares`).
- A failed add of a key that etcd already holds can leave the key in the cache (`Adds.FailedAddOfStoredKey`).
- A pass writes non-empty fields only, so an emptied LAN endpoint stays in etcd and is back after a
  restart (`Loader.CrashRecovery`, `Endpoints.OfflineUntilRestart`).
- The plugin's delete request removes the alias entry named like the key, not the entry of the peer's alias
  (`Ddns.DdnsServer.HandleEndpointDelete`, `CommandRuns.RemoveUndoesAdd`).
- `path.Join` shortens a key that starts with a slash or holds two in a row, so valonctl and the plugin then
  use different etcd keys, and a remove leaves the plugin's keys behind (`PeerKeys.PrefixReachesPluginKeysIff`;
  `PeerKeys.AwkwardKeysExist` names such a key).
- `valonctl` takes every base 64 text of 32 bytes for a key, but the device and the plugin know the key by its
  canonical spelling alone. A peer added under another spelling, or under a key with a leading or a doubled
  slash, is on the device and in etcd, and no poll finds it (`Adds.AddedKeyResolvesIff`).
- A plugin that restarts between the device step of a remove and the delete of the peer's keys puts the peer
  back, and it stays on the device and in the cache after every step of the remove has succeeded
  (`CommandRuns.InterruptedRemoveReturns`; `Removal.RemovedStaysRemoved` has the exact condition).
- Normalising is not idempotent on 52-character inputs with a line break (`Labels.NormalizeIdempotentIff`).
- One pass of `SanitizeAlias` may leave a hyphen at the end (`Aliases.SecondPassIff`).
- A remove by key of a peer without an alias, such as the discovery node itself, takes the key off the
  device and only then fails (`RemovalTarget.ResolversAgreeIff`).

## Model

| member | source | states |
|---|---|---|
| Rfc4648.DecodeEncode32 | coredns-plugin/valon/encoding.go:11-45 | decoding the unpadded base 32 text of any byte string gives the string back |
| Rfc4648.DecodeEncode64 | coredns-plugin/valon/encoding.go:15-45 | decoding the padded base 64 text of any byte string gives the string back |
| Rfc4648.FooInBase64 | coredns-plugin/valon/encoding.go:33-45 | the bytes of "foo" encode to `Zm9v`, as in section 10 of RFC 4648 |
| Labels.LabelRoundTrip | coredns-plugin/valon/encoding.go:15-45 | for every byte string, key text to label and back is the identity, in lower and upper case |
| Labels.KeyLabel | coredns-plugin/valon/encoding.go:33-45 | a key's label has 52 lower-case symbols, ends in `a` or `q`, converts back to the key, and valonctl makes the same one |
| Labels.LabelsDistinct | coredns-plugin/valon/encoding.go:33-45 | two keys with one label are the same key |
| Labels.CanonicalIff | valonctl/pkg/encoding/encoding.go:38-59 | the canonical keys are exactly the texts of 43 base 64 characters and `=` whose last character leaves its two unused bits zero |
| Labels.SameKeyIff | coredns-plugin/valon/encoding.go:15-28 | two 52-character labels name one key exactly when they differ only in case and in the four unused trailing bits |
| Labels.ShortLabelIsNoKey | coredns-plugin/valon/encoding.go:15-28 | text shorter than 52 characters never decodes to a 32-byte key |
| Labels.LabelOfText | valonctl/pkg/encoding/encoding.go:17-59 | every base 64 text of 32 bytes has a label, which leads to the canonical spelling of the key; every other text gives its own error |
| Labels.NormalizeBothForms | valonctl/pkg/encoding/encoding.go:83-108 | a key and its label, in either case, all normalise to the key |
| Labels.NormalizeIdempotentIff | valonctl/pkg/encoding/encoding.go:63-108 | normalising an accepted input twice changes nothing exactly when the input is no label with a line break in it |
| Labels.NormalizeNotIdempotent | valonctl/pkg/encoding/encoding.go:83-108 | an input of 51 letters and a line break on which the second pass fails |
| Labels.NormalizeExact | valonctl/pkg/encoding/encoding.go:63-108 | a text with `+`, `/` or `=` is returned as given exactly when it decodes to 32 bytes, one of 52 characters gives the base 64 text of what it decodes to, and every other outcome is its own error |
| Addresses.ParseDotted | valonctl/pkg/client/etcd.go:135-164 | the printed form of every IPv4 address parses to that address |
| Addresses.DottedParse | coredns-plugin/valon/handler.go:129-135 | every text that parses as an IPv4 address is the printed form of what it parses to |
| Addresses.DottedInjective | valonctl/pkg/client/etcd.go:148-160 | different addresses print differently |
| Addresses.FirstOctetFirst | coredns-plugin/valon/handler.go:129-135 | the first field of a dotted quad is the highest byte: 192.168.1.5 is C0A80105 in hexadecimal |
| Addresses.SplitHostPortIff | coredns-plugin/valon/handler.go:119-126 | a text splits into a host and a port exactly when it is host:port without further colons or brackets, or [host]:port with colons in the host only |
| Addresses.PortOfNumber | coredns-plugin/valon/handler.go:198-212 | the port of an SRV record: the low 16 bits of a signed number, after a number out of 64 bits has become the nearest bound |
| Allocator.IncrementIP | valonctl/pkg/client/etcd.go:195-209 | the carry loop over a copied array computes the recursive increment |
| Allocator.IncrementIsPlusOne | valonctl/pkg/client/etcd.go:195-209 | the increment is +1 modulo 256^n on the big-endian number, for every length |
| Allocator.MaskedNumber | valonctl/pkg/client/etcd.go:186-192 | masking bytewise rounds the number down to a multiple of the network size |
| Allocator.ContainsIsInterval | valonctl/pkg/client/etcd.go:148-160 | the bytewise network test is membership in one interval of numbers |
| Allocator.AllocateIP | valonctl/pkg/client/etcd.go:135-164 | the scan ends, gives the smallest unused address strictly between network and broadcast, and fails only if all are used |
| Allocator.AllocatedIsMinimum | valonctl/pkg/client/etcd.go:135-164 | over used addresses as numbers, the result is the minimum of the free host addresses |
| Allocator.HostIff | valonctl/pkg/client/etcd.go:143-160 | the candidates are exactly the numbers in the network's block of 2^(32 - prefix length) numbers, without its first and its last |
| Allocator.SmallestFreeExists | valonctl/pkg/client/etcd.go:143-164 | a smallest free address exists only if not all are used, and its text parses |
| Paths.CleanProperPath | valonctl/pkg/client/etcd.go:107-108 | path.Clean leaves a rooted path of proper components alone |
| Paths.CleanDropsEmpty | valonctl/pkg/client/etcd.go:107-108 | path.Clean of a rooted path without dot components removes exactly its empty components |
| PeerKeys.PeerKeyInjective | coredns-plugin/valon/etcd_sync.go:69-82 | no two (key, field) pairs share an etcd key, whatever text the key is |
| PeerKeys.PrinterPrefixesAgreeIff | valonctl/pkg/client/etcd.go:107-107 | path.Join gives the plugin's prefix exactly for keys without a leading or a doubled slash |
| PeerKeys.CtlPeerKeyAgrees | valonctl/pkg/client/etcd.go:107-124 | for such keys valonctl and the plugin print the same field keys |
| PeerKeys.CtlKeyOfText | valonctl/pkg/client/etcd.go:107-124 | for any text without dots valonctl's field key is the plugin's for that text without its leading, doubled and trailing slashes |
| PeerKeys.CtlAliasKeyAgreesIff | valonctl/pkg/client/etcd.go:108-108 | over every text, path.Join gives the plugin's alias key exactly when each component of the alias is non-empty and neither one nor two dots |
| PeerKeys.PathLikeAliases | valonctl/pkg/client/etcd.go:248-270 | `x/../bob` names bob's alias key, and `../peers/K/wg_ip` the address key of K |
| Paths.ResolveShape | valonctl/pkg/client/etcd.go:107-108 | what path.Clean keeps are given components, none of them empty or dots |
| PeerKeys.PrefixReachesPluginKeysIff | valonctl/pkg/client/etcd.go:248-264 | valonctl's delete prefix covers the plugin's keys of the peer exactly for keys without a leading or a doubled slash |
| PeerKeys.LoaderParseExact | coredns-plugin/valon/valon.go:150-201 | the loader's search recovers (key, field) exactly when the key hides no earlier match, always for `wg_ip` |
| PeerKeys.LoaderNeverInvents | coredns-plugin/valon/valon.go:150-201 | no peer's etcd key is read as another 44-character key |
| PeerKeys.ListParseExact | valonctl/pkg/client/etcd.go:317-364 | the same if-and-only-if for ListPeers' search, with its legacy fields |
| PeerKeys.AwkwardKeysExist | coredns-plugin/valon/valon.go:150-201 | each condition on a key excludes some canonical key: one that path.Join shortens, one that hides its alias field from both parsers, one that hides only its endpoint fields |
| Etcd.EtcdServer.GetPrefix | coredns-plugin/valon/valon.go:136-148 | a prefix read returns each matching key once with its value |
| Etcd.PrefixIdentifiesKey | valonctl/pkg/client/etcd.go:248-260 | a printed key starts with a peer's prefix only if it is that peer's |
| Etcd.PrefixDeleteExact | valonctl/pkg/client/etcd.go:248-264 | the prefix delete without trailing slash removes all keys of the peer and no other key |
| Cache.PeerCache.Get | coredns-plugin/valon/cache.go:33-37 | the shared entry of the key, or none |
| Cache.PeerCache.Set | coredns-plugin/valon/cache.go:40-45 | the key gets the new object, dirty or not as given, and other keys keep theirs |
| Cache.PeerCache.Update | coredns-plugin/valon/cache.go:49-58 | the entry becomes the function's result with the dirty flag set; a missing key is left missing |
| Cache.PeerCache.GetAll | coredns-plugin/valon/cache.go:61-71 | a copy of the map that shares the entries |
| Cache.PeerCache.Delete | coredns-plugin/valon/cache.go:74-78 | exactly the key is gone |
| EtcdSync.ClearingIsUndone | coredns-plugin/valon/etcd_sync.go:46-50 | clearing the flag through Update leaves every cached entry dirty |
| EtcdSync.Syncer.WritePeerToEtcd | coredns-plugin/valon/etcd_sync.go:60-97 | one transaction writes exactly the non-empty fields of the peer, or nothing when it fails |
| EtcdSync.Syncer.SyncToEtcd | coredns-plugin/valon/etcd_sync.go:32-57 | after the pass each field has the cached value of dirty peers that did not fail, if non-empty, else the stored one; said again by spelled-out keys: each such entry is in etcd text by text, and a key that changed is one of theirs; the cache still shows what it showed |
| EtcdSync.PassWritesEntries | coredns-plugin/valon/etcd_sync.go:60-97 | every outcome of a pass holds the three texts of each dirty peer that did not fail under `wg_ip`, `endpoints/lan` and `endpoints/nated`, and differs from before in such keys only |
| EtcdSync.SyncDeterministic | coredns-plugin/valon/etcd_sync.go:36-52 | the pass has at most one outcome, whatever the iteration order |
| EtcdSync.SyncExists | coredns-plugin/valon/etcd_sync.go:36-52 | and it has one, for every cache, store and set of failures |
| Loader.LoadFromStore | coredns-plugin/valon/valon.go:130-213 | for any answer order a load holds each readable stored field, and no address under anything that is not a key; each loaded key has the stored address, LAN and NAT text in its own place, or none where it cannot be read |
| Loader.CrashRecovery | coredns-plugin/valon/etcd_sync.go:32-97 | a sync pass, a crash and a load merge field by field: the cached value if dirty and non-empty, else the stored one; unreadable fields come back empty |
| Startup.Plugin.GroupByPubkey | coredns-plugin/valon/valon.go:150-203 | the loop over the flat keys groups them into the entries of the load function |
| Startup.Plugin.LoadFromEtcd | coredns-plugin/valon/valon.go:130-213 | the cache gains exactly the load of some enumeration of the store |
| Startup.Plugin.RestoreWireGuardPeers | coredns-plugin/valon/valon.go:299-381 | every device peer keeps its address, and of the others exactly the cached keys whose address parses and whose configuration did not fail are on the device, each with its own address |
| Startup.GetOwnWireGuardIP | coredns-plugin/valon/valon.go:275-295 | the first IPv4 address of the interface, or none exactly when it has none |
| Startup.Plugin.RegisterSelf | coredns-plugin/valon/valon.go:218-254 | one error for each check, exactly when those before it hold and it fails, changing nothing; else the node's own dirty entry under its first IPv4 address, which becomes the address for authorisation |
| Startup.Plugin.Init | coredns-plugin/valon/valon.go:48-121 | load, restore and register compose to the restart step, with or without a successful load; without an etcd client nothing happens, and a failed registration comes after the restore |
| WgMonitor.ExtractWgIP | coredns-plugin/valon/wg_monitor.go:147-155 | the address of the IPv4 network that has only IPv6 networks before it, or the empty text when all are IPv6 |
| WgMonitor.PrefixKeys | coredns-plugin/valon/wg_monitor.go:107-138 | the keys under a peer's prefix are that peer's fields only, all of them |
| WgMonitor.Monitor.LoadPeerFromEtcd | coredns-plugin/valon/wg_monitor.go:107-143 | over any store: nothing if no key has the peer's prefix, else an entry folded from those keys by their suffixes, in some order |
| WgMonitor.LoadsStored | coredns-plugin/valon/wg_monitor.go:121-138 | in a store of peers that entry holds the stored fields, whatever the order, the device's address standing in for a missing one |
| WgMonitor.Monitor.ProcessPeer | coredns-plugin/valon/wg_monitor.go:59-103 | over any store: a cached peer, or one that etcd yields an entry for, takes the observed address and endpoint; an unknown one is skipped |
| WgMonitor.Monitor.PollWireGuard | coredns-plugin/valon/wg_monitor.go:38-56 | a sighted, cached peer has the sighted NAT endpoint and address, or the cached ones where the device reports none, its LAN endpoint stays, and a peer that is not sighted keeps its entry; over any store each key is what it was, observed, read from etcd and observed, or absent |
| WgMonitor.PolledExactly | coredns-plugin/valon/wg_monitor.go:38-56 | and in a store of peers that is one outcome, the poll step of the runs |
| WgMonitor.PolledFields | coredns-plugin/valon/wg_monitor.go:88-102 | that outcome field by field: the sighted NAT endpoint and address if not empty, else the cached or, for a peer read from etcd, the stored ones; the LAN endpoint is the cached or stored one |
| Aliases.AcceptedAlias | valonctl/pkg/validation/dns.go:28-69 | an accepted alias has 1 to 32 characters, is a proper path, and has none of `+`, `/`, `=`, dot or space |
| Aliases.AcceptedIff | valonctl/pkg/validation/dns.go:28-69 | accepted are exactly the texts of at most 32 letters, digits and hyphens, no hyphen at an edge, no two in a row, not beginning with `lan` or `nated` in any case; each error exactly when its check is the first to fail, and the check for hyphens at the edges never is |
| Aliases.SanitizeAlias | valonctl/pkg/validation/dns.go:82-120 | the step-by-step method computes the pass; each of its five warnings is given exactly when the input has its cause: a capital, a forbidden character, two separators in a row, a separator at an edge, too many characters; none exactly when the output is the input |
| Aliases.SanitizedIsWords | valonctl/pkg/validation/dns.go:82-120 | over every text the pass gives the words of the lower-case text joined by single hyphens, cut at 32 characters |
| Aliases.SanitizedIsClean | valonctl/pkg/validation/dns.go:82-120 | over every text one pass bounds the length and the alphabet and leaves no double or leading hyphen |
| Aliases.SecondPassIff | valonctl/pkg/validation/dns.go:82-120 | a second pass changes the output exactly when the first left a hyphen at the end |
| Aliases.SettlesAfterTwoPasses | valonctl/pkg/validation/dns.go:82-120 | a third pass changes nothing |
| Aliases.OnePassNotEnough | valonctl/pkg/validation/dns.go:107-117 | an input on which the second pass does change the output |
| Aliases.SanitizedTwiceAcceptedIff | valonctl/pkg/validation/dns.go:28-120 | a twice sanitised alias is accepted exactly when it is not empty and has no reserved prefix |
| Ddns.DdnsServer.Authorize | coredns-plugin/valon/ddns.go:221-237 | the discovery node and the peer's own cached address are let in, nobody else |
| Ddns.DdnsServer.HandleEndpointUpdate | coredns-plugin/valon/ddns.go:57-139 | forbidden exactly for a client that is neither the node nor the peer itself, a bad request exactly for an empty key or a LAN text that does not split; a granted request sets the LAN endpoint to the given text, or to none for `0.0.0.0:0`, and leaves address, NAT endpoint and all other entries; the two alias writes fail each on its own |
| Ddns.UpdatedLan | coredns-plugin/valon/ddns.go:91-104 | the update of the cache field by field, over every cache, key and text |
| Ddns.DdnsServer.RegisterAlias | coredns-plugin/valon/ddns.go:112-136 | for a key with a label the alias entry and the alias field, each unless its own write fails; otherwise, and in every other etcd key, no change |
| Ddns.DdnsServer.HandleEndpointDelete | coredns-plugin/valon/ddns.go:144-186 | only the discovery node deletes; the cache loses the key, and etcd the alias entry named like the key |
| EtcdClient.Client.AddPeer | valonctl/pkg/client/etcd.go:95-132 | all three writes or none; success exactly when no field is empty, etcd answers and the alias is free |
| EtcdClient.Client.GetAllUsedIPs | valonctl/pkg/client/etcd.go:167-183 | exactly the values of the keys that begin with `/valon/peers` and end in `/wg_ip` |
| EtcdClient.Client.AllocateIP | valonctl/pkg/client/etcd.go:135-164 | the smallest host address whose text is not stored |
| EtcdClient.Client.ListPeers | valonctl/pkg/client/etcd.go:307-391 | the listing of some enumeration of the peer keys, one item per listed key, in some order |
| EtcdClient.Client.Resolve | valonctl/pkg/client/etcd.go:212-246 | text with `+` or `/` or a last `=` is a key, whose stored alias is read; any other text is an alias, whose stored key is read; none when that read finds nothing |
| EtcdClient.Client.DeletePeerKeys | valonctl/pkg/client/etcd.go:259-264 | everything under the joined prefix is gone and nothing else |
| EtcdClient.Client.DeleteAliasKey | valonctl/pkg/client/etcd.go:266-270 | the joined alias key is gone and nothing else |
| PeerCommands.FindTarget | valonctl/cmd/peer_remove.go:50-58 | the first listed peer with this key or alias, all before it having neither; none exactly when no listed peer has |
| PeerCommands.Valonctl.RunPeerAdd | valonctl/cmd/peer_add.go:39-94 | each outcome exactly under its condition, in the order of the checks: a bad alias, no free address (only if all are used), a bad key, a bad address, a failed device, a failed transaction, a taken alias; success configures the device and writes all three keys, any failure leaves etcd alone, and the rollback takes the key off the device |
| PeerCommands.Valonctl.RemovePeer | valonctl/pkg/client/etcd.go:212-273 | cache, peer keys and alias key of the named peer, each as far as the steps before it succeeded |
| PeerCommands.Valonctl.RunPeerRemove | valonctl/cmd/peer_remove.go:31-86 | the device loses the first listed match's key in its canonical spelling and no other, cache and etcd the key of RemovePeer's own reading; nothing changes when the scan finds nobody, and cache and etcd stay when the reading does |
| RemovalTarget.ListFromStore | valonctl/pkg/client/etcd.go:307-391 | for any answer order the listing has exactly the keys with a readable field, each with its readable alias, and beside them only wrong cuts of unreadable fields |
| Listing.ListingShows | valonctl/pkg/client/etcd.go:351-376 | whatever the orders, a listed key shows its stored alias, LAN and NAT endpoint, each exactly if it can be read, else nothing; its stored address, or the one of the old field; and in the old endpoint column some endpoint of its own, none only if it has none |
| RemovalTarget.ResolversAgreeIff | valonctl/cmd/peer_remove.go:50-80 | for an argument that no wrong cut resembles: an accepted alias is read alike exactly when the registered key's alias field is readable, an intact key exactly when it is listed if and only if it has an alias |
| RemovalTarget.ResolversAgree | valonctl/cmd/peer_remove.go:50-80 | hence in a one-to-one registry whose keys all read back, both readings pick one key for every accepted alias, whatever the orders |
| RemovalTarget.UnreadableAliasMissed | valonctl/cmd/peer_remove.go:50-62 | where a key hides its alias field from ListPeers, the scan by that alias does not pick the key that RemovePeer does |
| CommandRuns.FirstStart | coredns-plugin/valon/valon.go:81-96 | from three empty stores, one start and one sync pass reach a state with all the invariants below |
| CommandRuns.RemoveIsARun | valonctl/cmd/peer_remove.go:71-82 | the effect of a whole remove command, whichever of its steps fail, is a run of the state machine |
| CommandRuns.AddedIsFound | valonctl/pkg/client/etcd.go:212-246 | a freshly added peer is found by its alias and by its key |
| CommandRuns.RemoveUndoesAdd | valonctl/pkg/client/etcd.go:95-273 | removing a fresh peer gives back the very store from before the add, exactly unless the delete request hits an alias entry named like the key |
| CommandRuns.AddThenRemove | valonctl/cmd/peer_remove.go:71-82 | from any idle state that does not know the key and the alias, an add and a remove by that alias are a run back to that very state |
| CommandRuns.FailedCacheStepShares | valonctl/pkg/client/etcd.go:251-264 | a run of an add, a poll, a remove whose cache step fails, a second add and a pass, after which two keys hold one address |
| CommandRuns.InterruptedRemoveReturns | coredns-plugin/valon/valon.go:81-96 | a run of a remove whose every step succeeds, with a restart after its cache step, after which the peer is on the device and in the cache |
| System.StepKeepsSane | coredns-plugin/valon/valon.go:81-96 | every step of every component keeps the etcd keys parseable, cache entries filed under their own name and device keys valid |
| Removal.StepKeepsProgress | valonctl/cmd/peer_remove.go:71-82 | what a running remove has achieved survives every poll, pass and request that falls between its steps |
| Removal.StepKeepsGone | coredns-plugin/valon/wg_monitor.go:73-84 | a key absent from all three stores stays absent through every step but an add of it |
| Removal.RemoveKeysErasesIff | valonctl/pkg/client/etcd.go:251-264 | the delete of the peer keys leaves the key on no device, in no cache and under no etcd key exactly when neither device nor cache has it by then |
| Removal.RemovedStaysRemoved | valonctl/cmd/peer_remove.go:71-82 | in every run, with failures and restarts anywhere, the key is gone from that delete on until an add of it begins, exactly when device and cache did not have it at the delete |
| Removal.SuccessfulRemoveErases | valonctl/cmd/peer_remove.go:71-82 | so it is after every remove whose steps all succeeded without a restart inside it |
| Removal.RestartInsideRestores | coredns-plugin/valon/valon.go:299-381 | a restart before the peer keys are deleted puts the peer back on the device and into the cache |
| Removal.CachedEntryReturns | coredns-plugin/valon/etcd_sync.go:32-57 | when the cache step fails, the next pass writes the peer's address back to etcd |
| Registry.StepKeepsRegistry | valonctl/pkg/client/etcd.go:106-129 | every fair step, with failures and restarts anywhere, keeps each alias field pointing to an entry that points back |
| Registry.RegistryInvariant | valonctl/pkg/client/etcd.go:95-273 | that holds in every state of every fair run of adds, removes, polls, passes, requests and restarts |
| Registry.AliasesDistinct | valonctl/pkg/client/etcd.go:106-129 | hence no two peers share an alias |
| Registry.RemoveTouchesIff | valonctl/pkg/client/etcd.go:251-270 | a step of a remove takes an alias entry away exactly when it is the cache step and the entry is named like the key, or the last step and the entry is at valonctl's key for the alias |
| Registry.RemoveKeepsOtherAliases | valonctl/pkg/client/etcd.go:259-270 | hence a remove with a proper alias takes no other peer's entry, unless it is named like the removed key |
| Registry.PathLikeAliasIsRead | coredns-plugin/valon/ddns.go:120-131 | a peer may register the free alias `x/../bob`, and a remove by key then reads it |
| Registry.PathLikeAliasTakesAnother | valonctl/pkg/client/etcd.go:248-270 | its last step deletes bob's entry and breaks the registry |
| Registry.RemoveAliasKeepsIff | valonctl/pkg/client/etcd.go:266-270 | the last step keeps the registry exactly when no field points to what it deletes; for a proper alias of the removed peer, exactly when that peer's field does not name it again |
| Registry.RemoveCacheKeepsIff | coredns-plugin/valon/ddns.go:176-182 | the cache step keeps the registry exactly when it fails or no alias field names the removed key |
| Registry.ReRegistrationBreaks | coredns-plugin/valon/ddns.go:120-134 | a registration of the same alias by the removed peer between the two deletes breaks the registry |
| Registry.RegistrationKeepsIff | coredns-plugin/valon/ddns.go:120-134 | for every alias and outcome: a registration keeps the registry exactly when the entry it writes is not held by another peer, and it does not write the field alone unless the entry is its own already |
| Registry.TakingOverBreaks | coredns-plugin/valon/ddns.go:120-134 | a registration of another peer's alias takes the entry over and breaks the registry |
| Uniqueness.StepKeepsAddresses | coredns-plugin/valon/wg_monitor.go:89-102 | every fair step, with failures and restarts anywhere, keeps stored addresses distinct and the three stores in agreement about them |
| Uniqueness.RemoveKeysKeepsIff | valonctl/pkg/client/etcd.go:259-264 | deleting a peer's keys keeps that exactly when the peer is no longer cached and is not the node itself |
| Uniqueness.AliasDeleteKeepsIff | valonctl/pkg/client/etcd.go:249-270 | deleting the alias keeps that exactly when it hits no stored address of a peer that is cached, is the node itself, or has another field stored |
| Uniqueness.ProperAliasSpares | valonctl/pkg/client/etcd.go:249-270 | so it is for every proper alias |
| Uniqueness.ClimbingAliasTakesAddress | valonctl/pkg/client/etcd.go:249-270 | deleting the alias `../peers/K/wg_ip` deletes K's address, and breaks the agreement when K still has its alias |
| Uniqueness.AddKeepsDistinctIff | valonctl/pkg/client/etcd.go:95-132 | a transaction keeps stored addresses distinct exactly when no other peer has the new one |
| Uniqueness.AutomaticIsFresh | valonctl/pkg/client/etcd.go:143-164 | an allocated address is stored for no peer |
| Uniqueness.AddressInvariant | valonctl/cmd/peer_add.go:58-94 | that holds in every state of every fair run of adds with fresh addresses, automatic or not, removes, polls, passes, requests and restarts |
| Uniqueness.StoresAgree | coredns-plugin/valon/wg_monitor.go:89-102 | hence device, cache and etcd give a key one address, and cached keys different ones |
| Uniqueness.AuthorizedIsOwner | coredns-plugin/valon/ddns.go:221-237 | in such a state a client other than the node may change exactly the one cached peer to which etcd gave its address |
| Uniqueness.RequestIsStepIff | coredns-plugin/valon/ddns.go:75-104 | a request from such a client is a step of the state machine exactly when the handler grants it |
| Uniqueness.RequestTouchesOwner | coredns-plugin/valon/ddns.go:75-134 | and it changes no entry and no stored field of a peer with another address |
| Adds.PollFindsIff | coredns-plugin/valon/wg_monitor.go:73-84 | a poll caches a device peer exactly when it was cached or etcd could be read and has a field of it |
| Adds.FailedAddLeavesNoTrace | valonctl/cmd/peer_add.go:75-94 | after a rolled-back add, with any polls in between, etcd is as before, the device is exactly if the key was not on it, and the key is cached exactly if it was, or etcd held it and some poll could read it |
| Adds.FailedAddOfStoredKey | coredns-plugin/valon/wg_monitor.go:73-84 | a failed add of a key that etcd holds, with one poll, leaves the key cached |
| Adds.AddBecomesResolvable | valonctl/cmd/peer_add.go:58-94 | after an add of a fresh key and one poll the label answers with the assigned address; the alias answers nothing if it reads as a label, a CNAME to that label with the address if it is in lower case, else what the table held for its lower-case form |
| Adds.CapitalsMisresolve | valonctl/pkg/client/etcd.go:106-129 | adds of `Bob-x` and `bob-x` both succeed, and the query for the first answers with the second peer |
| Adds.AddedTextIsNameIff | valonctl/pkg/client/etcd.go:107-124 | an add under any text that the device accepts stores fields of the device's key exactly when the text is canonical and has no leading or doubled slash |
| Adds.AddedKeyResolvesIff | valonctl/pkg/client/wireguard.go:50-79 | after such an add and one poll the key's label resolves to the new address exactly then, and otherwise not at all |
| WriteBehind.StepKeepsAgreement | coredns-plugin/valon/etcd_sync.go:36-52 | every single step of a pass, and every update, delete, replacement or harmless reload between them, keeps clean entries in agreement with etcd |
| WriteBehind.NoLostUpdate | coredns-plugin/valon/cache.go:40-58 | in every run whose reloads are harmless a cached entry that is not dirty agrees with etcd on each non-empty field |
| WriteBehind.DirtyStaysDirty | coredns-plugin/valon/cache.go:49-58 | once dirty, an entry stays so until it is deleted or replaced |
| WriteBehind.DeviceAddressKeepsIff | coredns-plugin/valon/wg_monitor.go:121-143 | a reload keeps the agreement exactly when it takes no address from the device |
| WriteBehind.StaleWriteKeepsIff | coredns-plugin/valon/etcd_sync.go:36-52 | a write of an old object over a reloaded entry keeps the agreement exactly when the old one is clean or the two do not differ in a field that both have |
| Resolver.Handler.HandleA | coredns-plugin/valon/handler.go:48-152 | the reply to an A query as a function of cache, alias table, zone and name |
| Resolver.Handler.ReturnCNAME | coredns-plugin/valon/handler.go:325-375 | a CNAME to the label, with the address record when the cache has one that parses |
| Resolver.Handler.HandleSRV | coredns-plugin/valon/handler.go:156-283 | LAN before NAT, priorities 0 and 10, each with the address of its target; every other name than `_valon._tcp` or `_wireguard._udp.` before the label of a cached key answers NXDOMAIN |
| Resolver.Handler.HandleServiceDiscovery | coredns-plugin/valon/handler.go:379-444 | the loop visits every cached peer once and appends its records in that order; NXDOMAIN exactly for an empty cache |
| Resolution.KeyQuery | coredns-plugin/valon/handler.go:48-152 | a query for a key's label answers with that key's cached address or not at all |
| Resolution.AliasQuery | coredns-plugin/valon/handler.go:63-97 | a query for an accepted alias answers NXDOMAIN when it reads as a label, and otherwise what the table says under its lower-case form |
| Resolution.AliasResolvesIff | coredns-plugin/valon/handler.go:76-97 | an alias whose lower-case form is registered resolves to that entry's key and address exactly when it has a character outside a-z2-7 |
| Resolution.NameResolvesIff | coredns-plugin/valon/handler.go:296-375 | over every name without an endpoint prefix that is no label, accepted as an alias or not, the query leads to a given key exactly when the entry under the name holds that key, and to nothing without an entry |
| Resolution.RegisteredAliasResolvesIff | coredns-plugin/valon/handler.go:296-375 | a query for an accepted alias leads to a given key exactly when it does not read as a label and the entry under its lower-case form holds that key |
| Resolution.AliceReadsAsLabel | coredns-plugin/valon/handler.go:76-97 | both cases occur among accepted aliases |
| Resolution.NoEndpointsUnderAlias | coredns-plugin/valon/handler.go:63-88 | queries for `lan.` and `nated.` before an alias answer nothing, also for a registered one |
| Resolution.DiscoveryComplete | coredns-plugin/valon/handler.go:379-444 | one SRV record per cached peer, distinct targets, and a target resolves to an address exactly when the additional section says so |
| Resolver.TrimSpaceCuts | coredns-plugin/valon/handler.go:310-316 | trimming cuts white space only, and leaves none at the edges |
| Endpoints.EndpointQuery | coredns-plugin/valon/handler.go:63-152 | the query for `lan.` or `nated.` before a label answers with the host of that cached endpoint, or nothing if it does not split and parse |
| Endpoints.ExtraIsWhatQueriesAnswer | coredns-plugin/valon/handler.go:195-274 | a record is in the additional section of a peer's SRV reply exactly when the address query for its name, the LAN or NAT name of the peer, answers with just that record |
| Endpoints.CanonicalReply | coredns-plugin/valon/handler.go:195-282 | for canonical or missing endpoints the whole SRV reply: the LAN record with priority 0 before the NAT record with 10, each with its port, and their addresses in that order; NXDOMAIN for none |
| Endpoints.PollThenPassStores | coredns-plugin/valon/wg_monitor.go:88-102 | a poll that sees a known peer's endpoint, and a pass without failures, leave that endpoint and the device's address in etcd |
| Endpoints.UpdateThenPassStores | coredns-plugin/valon/ddns.go:91-104 | a granted request with a LAN endpoint, and a pass without failures, leave that endpoint in etcd |
| Endpoints.OfflineUntilRestart | coredns-plugin/valon/ddns.go:93-96 | a request to go offline empties the cached endpoint and no stored one: after a pass and a restart the stored endpoint is back, exactly if the loader can read it |
| Endpoints.LastWriterWins | coredns-plugin/valon/wg_monitor.go:88-102 | in every run in which a cached peer is neither deleted from the cache nor reloaded, its NAT endpoint is the last one the device reported and its LAN endpoint the last one the peer asked for |
| ValonSync.OtherPatternAbsent | client-scripts/bin/valon-sync:208-209 | the line of one endpoint never matches the grep for the other, as no label ends in `n` or `d` |
| ValonSync.LineLeadsBack | client-scripts/bin/valon-sync:211-236 | awk, sed and the A query turn one SRV line back into the stored text |
| ValonSync.MatchesLeadBack | client-scripts/bin/valon-sync:198-239 | both greps pick the right line, or none for a missing endpoint |
| ValonSync.GetPeerEndpoints | client-scripts/bin/valon-sync:198-239 | for every cached peer with canonical or missing endpoints the script recovers exactly the stored pair |
| Endpoints.ClientSeesLastWriters | client-scripts/bin/valon-sync:198-239 | at any point of such a run the script recovers exactly those two endpoints, from the device and the peer to the client |

## Left out

- TLS, timeouts, contexts, HTTP and JSON decoding, DNS wire format, logging, the Corefile and YAML configuration, cobra, table output, Nix: plumbing without a hard property. Failures of etcd, the device and the HTTP calls are parameters or choices of the environment.
- Timestamps (`UpdatedAt`, `LastHandshake`, `last_seen`) and tickers: a tick is a step that may fall anywhere.
- `X-Forwarded-For`: the client's address is a parameter of a request.
- IPv6 addresses and endpoints: `ParseIP` is modelled on dotted quads, other texts count as unparsable.
- Networks with prefix length 0, and the parsing of the CIDR text: the allocator takes the parsed network.
- Case mapping outside ASCII.
- Log lines that slice a key shorter than 16 or 20 characters panic; here they do nothing.
- Memory-level races on shared entries: steps are lock sections and per-peer transactions (`WriteBehind`) or whole ticks (`System`).
- Simultaneous valonctl commands: the allocator does not reserve what it reads, so `System` runs one command at a time.
- The kernel's own-key rule: a device may be told to hold the node's own key.
- Requests by the discovery node on behalf of a peer are in `Ddns`, not among the steps of `System`, where a request comes from the peer itself.
- Inside a remove, the etcd delete that the plugin makes for the delete request is taken to succeed; `Ddns.DdnsServer.HandleEndpointDelete` has both outcomes.
- The rest of valon-sync: choosing an endpoint by ping, arguments, the main loop.
- System.RemoveStep: takes both readings of a remove's argument to name one peer; `RemovalTarget.ResolversAgreeIff` says when they do.
- Registry.RegistryInvariant: excludes registrations of another peer's alias, a field written without its entry, the re-registration between the two deletes, a peer's alias spelled like the key whose cache step succeeds, and the delete of an improper alias under which another peer is registered; `Registry.RegistrationKeepsIff`, `Registry.RemoveAliasKeepsIff` and `Registry.RemoveCacheKeepsIff` say exactly what each does.
- Uniqueness.AddressInvariant: excludes addresses that are stored already, adds of keys that are stored, the delete of the keys of a cached peer or of the node itself, and of an alias that climbs to an address still needed; `Uniqueness.AddKeepsDistinctIff`, `Uniqueness.RemoveKeysKeepsIff` and `Uniqueness.AliasDeleteKeepsIff` say exactly what the first and the last two do.
- System.AddStep: adds canonical keys without a leading or a doubled slash; `Adds.AddedKeyResolvesIff` says what an add under another text leads to.
- WriteBehind.NoLostUpdate: excludes a reload that takes its address from the device, and one of a key whose old, dirty object differs while a pass still holds it; `WriteBehind.DeviceAddressKeepsIff` and `WriteBehind.StaleWriteKeepsIff` say what these do.
- RemovalTarget.ResolversAgreeIff: says nothing about an argument that equals the name or alias of a wrong cut, where the order of the listing may decide.
- Etcd.PrefixDeleteExact: is about stores whose peer keys are fields of WireGuard keys, present or old; only an add under a text that is no canonical key writes others under the peers directory.
- Startup.Plugin.RestoreWireGuardPeers: is stated for a cache as a load leaves it, which is how Init calls it.
- Listing.ListingShows: where a peer has both `wg_ip` and the old `ip`, or a second endpoint, the order of the answer decides which text the address and old endpoint columns show; it is one of them.
- Endpoints.LastWriterWins: starts from an entry whose LAN text is not `0.0.0.0:0` itself, which only a foreign etcd write could leave there and which a request to go offline would keep (`Ddns.UpdatedLan`).
- ValonSync.GetPeerEndpoints: says nothing about endpoints that are not an IPv4 address with a port up to 65535, or zones that contain `lan.` or `nated.`.
