# Roster replica of the Network Link simulator

`simulator.js` masquerades as a ProPresenter instance on a Network Link group. In
memory it keeps a replica of the group roster: the object `group`, which holds `secret`,
`name`, the dictionary `members_by_ip` and the list `members`, together with its own
record `me`. This project models that replica:

- how each reply it receives is merged in (`handleResponse`);
- how the roster is encoded in replies (`status`);
- the `/group/add_member` rule it answers;
- what a heartbeat probe's outcome does to the probed member;
- the decisions of the join handshake `connect`;
- the standalone start.

The modules are:

- `Wire` (`wire.dfy`): the decoded records and envelopes, and the outcome of an outbound request (`Reply`, `ConnRefused`, `OtherError`).
- `Dictionary` (`dictionary.dfy`): a JavaScript object used as a dictionary. It keeps its keys in insertion order, so `Object.values` lists entries in that order.
- `Reconcile` (`reconcile.dfy`): the merge stated as functions on the dictionary, with lemmas for first-seen wins, key growth, key order and the authoritative `status` record.
- `Simulator` (`simulator.dfy`): the class `Roster`, which stands for `group` plus `me`. Each request handler and each asynchronous callback is a method; a callback receives the outcome of its request as an argument.
- `Scenarios` (`scenarios.dfy`): worked cases that use only the contracts.

Aliasing is part of the model. The source stores the object `me` itself in
`members_by_ip` and in `members`, so a later `me.connected = true` shows through them.
`Roster.selfShared` and `Roster.selfListed` record where `me` is shared. After the
admission step, `members_by_ip[me.ip] = me` runs without a list rebuild, which leaves
the list stale at that one element. The invariant `Roster.Valid` allows exactly that;
`Roster.Synced` states that the list equals `Object.values(members_by_ip)`.

The comment block at simulator.js:283-327 describes the join handshake as two steps:
query the status, then ask to be added. The code of `connect` (simulator.js:329-367)
differs from it in these ways, and the model follows the code:

- Step 1 of `connect` signals success when `me.ip` is already known, but does not stop there. The admission request is still sent, so success can be signalled twice.
- The admission request has no error callback. A transport failure at that step signals nothing.
- Step 1 tests only the lower-case key `group_definition` before merging.
- `handleResponse` never stores a timestamp. Only the standalone start sets `group.timestamp`.

## Model

| member | source | states |
|---|---|---|
| Dictionary.Dict.Put | simulator.js:194 | assigning to a key keeps the keys distinct and the key list equal to the key set; an existing key keeps its place and a new key goes last |
| Dictionary.Dict.Values | simulator.js:195 | `Object.values` lists one value per key, in key order |
| Dictionary.Dict.PutPut | simulator.js:356 | storing twice under one key leaves only the second value: the admission store of `me` followed by `me.connected = true` is one store of the connected `me` |
| Dictionary.Empty | simulator.js:48 | `{}` is a well-formed dictionary with no keys |
| Reconcile.InsertBare | simulator.js:266-270 | the member loop keeps the dictionary well formed, keeps entries keyed by their own ip and removes no key |
| Reconcile.ApplyStatus | simulator.js:275-279 | the `status` step keeps the dictionary well formed and keyed by ip and removes no key |
| Reconcile.Merged | simulator.js:260-281 | the whole member update of a merge keeps the dictionary well formed and keyed by ip and removes no key |
| Reconcile.SetConnected | simulator.js:246-252 | writing `connected` on a known entry keeps the key order and the keying by ip |
| Reconcile.InsertBareKeepsKnown | simulator.js:266-270 | first-seen wins: an entry whose ip was already a key is unchanged, and no key is lost |
| Reconcile.InsertBareKeys | simulator.js:266-270 | afterwards the keys are exactly the old keys plus the ips of the incoming list |
| Reconcile.InsertBareKeyOrder | simulator.js:266-270 | old keys keep their places at the front of the key order |
| Reconcile.InsertBareFirstSeen | simulator.js:266-270 | a new key holds the bare entry built from the first pair in the list that carries that ip |
| Reconcile.InsertBareAllKnown | simulator.js:266-270 | a list whose ips are all known changes nothing |
| Reconcile.InsertBareIdempotent | simulator.js:266-270 | merging the same list twice has the effect of merging it once |
| Reconcile.InsertBareFresh | simulator.js:266-270 | fresh, distinct ips are appended to the key order in list order |
| Reconcile.InsertBareFreshEntries | simulator.js:266-270 | each fresh ip then holds the bare entry of its pair |
| Reconcile.MergeKeys | simulator.js:260-281 | after a merge the key set is the old keys, the incoming ips and the responder's ip; old keys keep their order |
| Reconcile.MergeEffect | simulator.js:275-279 | after a merge the responder's entry is its `status` record, and every other known entry is as before |
| Reconcile.InsertBareAgree | simulator.js:266-270 | two dictionaries with the same keys that agree everywhere but at one key still do after the member loop |
| Reconcile.MergedAgree | simulator.js:260-281 | the same holds for the whole member update of a merge, and the two merges are equal when the reply's `status` is stored under that key |
| Simulator.Endpoints | simulator.js:99-101 | one `{ip, port}` pair per list element, in list order |
| Simulator.ProbeTargetsExact | simulator.js:230-233 | a heartbeat tick probes exactly the members whose ip is non-empty and not `me.ip` |
| Simulator.ValuesAfterPut | simulator.js:246-252 | an in-place write to an entry shows through `Object.values` at that entry's place |
| Simulator.PutListed | simulator.js:194-196 | a stored record is among the `{ip, port}` pairs of the rebuilt list |
| Simulator.AfterStatusReply | simulator.js:339-341 | the roster after a status reply stays well formed; the merge runs only when `group_definition` is present |
| Simulator.InsertBareLoop | simulator.js:266-270 | the member loop computes exactly `Reconcile.InsertBare` |
| Simulator.MergeMembers | simulator.js:266-279 | the loop and the `status` step together compute exactly `Reconcile.Merged` |
| Simulator.MergeKeepsSelf | simulator.js:266-279 | a merge leaves the entry `me` in place unless the responder's `status` is stored over it |
| Simulator.RebuildCoherent | simulator.js:280 | rebuilding the list from the dictionary restores the list/dictionary invariant |
| Simulator.StoreCoherent | simulator.js:194-195 | storing a record under its ip and rebuilding the list keeps the invariant, with `me` still shared unless the record is stored over it |
| Simulator.WriteOtherCoherent | simulator.js:246-252 | writing to another member's shared entry, and to the list with it, keeps the invariant |
| Simulator.WriteSelfCoherent | simulator.js:356 | storing `me` under its ip without a list rebuild keeps the invariant |
| Simulator.AgreeReplace | simulator.js:280 | dictionaries keyed by ip that agree everywhere but at one key rebuild to lists that agree once that key's element is overwritten |
| Simulator.MarkJoinedCoherent | simulator.js:404 | `me.connected = true`, seen through every place holding `me`, keeps the invariant |
| Simulator.Roster.constructor | simulator.js:30-49 | the initial `group` is empty with a blank secret and name, and is synchronised |
| Simulator.Roster.MarkJoined | simulator.js:404 | `me` becomes connected, and so do the dictionary entry and list element that are `me`; keys and the other fields are unchanged |
| Simulator.Roster.StartStandalone | simulator.js:413-417 | a standalone start names the group, makes `me` (now connected) the only key and list element, with both places holding `me` itself, and stamps the group |
| Simulator.Roster.Status | simulator.js:89-106 | the reply copies secret and name, lists one pair per list element in order, uses the stored timestamp or else `now`, and carries `status = me` exactly for heartbeat replies |
| Simulator.Roster.HandleResponse | simulator.js:260-281 | the merge adopts the incoming secret and name, the dictionary becomes `Reconcile.Merged`, the list is rebuilt, and `me` stays shared unless overwritten by `status` |
| Simulator.Roster.AddMember | simulator.js:189-199 | a body with a non-empty `GroupMember.ip` stores that record under its ip, rebuilds the list and replies with a `GroupDefinition` that lists it; any other body changes nothing and gets an empty reply |
| Simulator.Roster.Store | simulator.js:194-195 | the two stores of an admission: the record goes under its ip and the list equals the dictionary's values |
| Simulator.Roster.HandleRequest | simulator.js:182-201 | status and heartbeat paths answer `status()` and `status(true)` without changing state; on the add_member path a non-empty `GroupMember.ip` is stored under its ip, the list is rebuilt, `me` stays shared only if not overwritten, and the reply lists the new member, while any other body changes nothing and gets an empty reply; any other path gets an empty body |
| Simulator.Roster.Heartbeat | simulator.js:228-235 | a tick issues probes to exactly the list elements with a non-empty ip other than `me.ip`, in list order |
| Simulator.Roster.OnHeartbeatOutcome | simulator.js:240-253 | a reply is merged and then the probed member is marked connected; a refused connection marks only that member disconnected; any other error changes nothing |
| Simulator.Roster.SetMemberConnected | simulator.js:246-252 | setting `connected` on another member's entry changes that entry and its list element only |
| Simulator.Roster.OnStatusOutcome | simulator.js:337-349 | a status reply is merged only when it has `group_definition`; success is signalled exactly when `me.ip` is then known; the admission request is sent either way; a transport error signals failure and changes nothing |
| Simulator.Roster.OnAdmissionOutcome | simulator.js:352-363 | the admission reply is merged; if `me.ip` is then known its entry becomes `me` and success is signalled, otherwise failure; a transport error signals nothing and changes nothing |
| Simulator.Roster.Admit | simulator.js:351-363 | with the join's success callback: a reply signals success (and marks `me` connected) exactly when `me.ip` is known after merging it, and an already known `me.ip` always gets success; the roster left is the reply's secret and name, the merged dictionary with `me` stored under its ip on success, and the rebuilt list, stale only at `me` |
| Simulator.Roster.Probe | simulator.js:337-349 | with the join's success callback: a status reply always leads to the admission request and signals success (marking `me` connected) exactly when `me.ip` is known after it; the roster is merged only when `group_definition` is present, otherwise secret, name and list stay; a transport error signals failure and changes nothing |
| Simulator.Roster.AdmitAfterStatus | simulator.js:351-363 | the admission step after a status step that stored at most `me`: it decides, and leaves the dictionary, as if the admission reply were merged into the roster the status reply left, everywhere but at `me.ip`; the list is that merge's values, holding `me` at `me.ip` exactly when `me` was shared and the reply's `status` does not replace it |
| Simulator.Roster.Join | simulator.js:329-367 | the callbacks a join invokes: `[JoinFailed]` with nothing changed when the peer is unreachable; `[Joined, Joined]` when `me.ip` is already known at the status step and the admission reply arrives; otherwise the admission reply alone decides. Without an admission reply the roster is what the status step left; with one it takes the reply's secret and name and agrees, except at `me.ip`, with merging the admission reply into the roster after the status step, holding `me` at `me.ip` when that ip is known; the list is that merge's values, with `me` at `me.ip` only when `me` stayed shared through both replies |
| Simulator.JoinRoster | simulator.js:339-356 | a roster that differs from another only at one ip, merged with the same reply and then given a new value at that ip, agrees with the other's merge everywhere but at that ip, and knows that ip exactly when the other's merge does |
| Simulator.JoinList | simulator.js:354-356 | the list the admission merge rebuilds agrees with the one rebuilt from the roster after the status reply once the element for `me.ip` is overwritten, and equals it outright when the status step stored nothing or the reply's `status` replaces that entry |
| Simulator.EndpointsRoundTrip | simulator.js:99-101 | inserting the pairs of a list that names the keys in order into `{}` gives back those keys, in order, as bare entries |
| Simulator.StatusRoundTrip | simulator.js:89-106 | merging our own `status()` reply into an empty roster yields the same keys in the same order, each as the bare entry of its pair |

## Left out

- `doRequest` (simulator.js:112-154): HTTP, streaming and `JSON.parse` are not modelled. A callback receives the decoded envelope or the kind of error as its input.
- Body streaming, `url.parse`, logging and the always-200 response in `handleRequest` are not modelled. The path and the decoded body are inputs, and a body that fails to parse is `None`.
- A decoded body without `GroupMember` is not modelled. It makes the source throw, and `AddMemberBody` always carries a member.
- `showStatus` and the terminal escape codes are display only.
- `timestamp()` reads the wall clock, so it becomes the `now` parameter of `Status`, `AddMember` and `StartStandalone`.
- Timers, `server.listen`, `exit` and the configuration switch `connectOnStart` are process lifecycle. `Join` returns the signals, and a `JoinFailed` among them is where the process exits.
- Concurrency is not modelled. Each callback is one atomic step; an interleaving is a sequence of method calls.
- Simulator.Roster.OnHeartbeatOutcome, Simulator.Roster.OnAdmissionOutcome, Simulator.Roster.HandleResponse, Simulator.Roster.Admit, Simulator.Roster.AdmitAfterStatus, Simulator.Roster.Join, Reconcile.Merged: a reply without any group definition makes the source throw while destructuring. These members require a definition instead. The same holds for a reply whose `GroupDefinition` key is present with the value `null`: the source's `in` test selects it and then throws, while `Wire.Definition` cannot tell it from an absent key and falls back to `group_definition`.
- Member records without a string `ip` are not modelled. The source would store an incoming member or `status` record that lacks `ip` under the key `"undefined"`, and one with a `null` ip under `"null"`; `status()` would then list a pair without `ip`. Every `Wire.Member` carries a string `ip`.
- Simulator.Roster.OnHeartbeatOutcome: requires the probed ip to be a known key other than `me.ip`. Every probe target satisfies this, because keys are never removed.
- Incoming group-definition members are modelled as `{ip, port}` pairs. Extra keys on an incoming member would be stored verbatim by the source; here they are dropped.
- The truthiness test in the member loop is modelled as key membership. Roster entries are objects, so the two differ only for inherited prototype keys, which are not modelled.
- JavaScript lists integer-like keys before the other keys in `Object.values`. The key order modelled here is plain insertion order.
- The `port` query parameter sent with each heartbeat is not modelled.
- The transient `group.members = []` during a merge is not modelled. It is overwritten before the callback returns.
- Issuing the status query itself is not modelled. `Join` takes the status reply's outcome and the admission reply's outcome as inputs.
