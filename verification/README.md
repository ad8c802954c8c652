# EtherTunnel relay: a verified model

EtherTunnel's relay gives daemons public hostnames and TCP ports. This project
models the relay's stateful core in Dafny and proves what it keeps over every
run: the licence gate, the ownership registry, the router, the control-session
handlers that tie them together, the limiters in front of them, and the byte
transport underneath.

The model has three layers.

* **Values.** Each store is a datatype and each operation a function on it
  (`Ownership`, `Routing`, `Licences`, `Enforcement`, `Relay`).
* **Objects.** Where the code updates state in place, a class with the same
  fields does too (`Registry`, `Router`, `PolarGate`, `Handlers`,
  `TokenBucket`, `ConnLimiter`, `WsByteStream`, `Codec`, `MemoryAuth`,
  `SessionActor`). Every method is proved equal to the function it implements.
* **Runs.** The theorems quantify over every sequence of events, every clock and
  every backend answer (`GateRuns`, `RelayRuns`, `RelayLicences`, `RelayAges`,
  `RelaySweep`).

| file | what it models |
|---|---|
| `Prelude.dfy` | options, maxima, saturating subtraction, cardinalities |
| `Labels.dfy` | label validation, splitting and composing hostnames |
| `AgeOrder.dfy` | the age order, the stable sort, the oldest-first cut |
| `Ownership.dfy`, `Registry.dfy` | the ownership tables, as a value and as an object |
| `Registration.dfy` | which lists of hostnames register, and what a refused list leaves |
| `Routing.dfy`, `Router.dfy` | the routing table; the router with its reverse index |
| `Licences.dfy`, `GateRuns.dfy` | the licence cache; runs of the gate |
| `Enforcement.dfy`, `PolarGate.dfy` | cap enforcement over all three stores; the gate as an object |
| `Relay.dfy`, `RelayRuns.dfy` | the relay as a transition system, and its runs |
| `ClaimReplies.dfy` | when a claim is granted, and otherwise which deny code it gets |
| `RelayLicences.dfy`, `RelaySweep.dfy` | the licence gate inside relay runs |
| `RelayAges.dfy` | the age of claims over relay runs |
| `Handlers.dfy` | the claim, release and tick handlers as code |
| `TokenBucket.dfy`, `ConnLimiter.dfy` | the rate limiter and call budget; the concurrency limiter |
| `WsByteStream.dfy`, `Codec.dfy` | the WebSocket byte stream; length-prefixed framing |
| `MemoryAuth.dfy` | the in-memory store, and its refinement with the registry |
| `SessionActor.dfy` | the session's event loop |

`dafny verify dfyconfig.toml` checks everything.

## How the model reads the code

* A handler (claim, release, enforcement, tick, session end, an admin edit) is
  one atomic step. The code holds one lock per store, not one across stores.
* Clock readings, backend answers, whether a port binds and what the local token
  store says are arbitrary inputs. A granted answer names a non-empty customer,
  as the client insists (crates/relay/src/polar.rs:243), and a local user has a
  name, as the registry insists (crates/relay/src/registry.rs:220).
* A message the WebSocket refuses is not queued, and a transport error seen by
  the reader carries no bytes.
* Storage calls succeed, and a key stands for its hash.
* SQLite numbers a new row one past the largest id in use. An insert for an
  unknown user violates the foreign key, which the code reports as "taken".
* Query results come in any order: the methods that list rows pick them
  nondeterministically.
* Tokens are reals, and bucket calls come in time order.
* Timestamps are mathematical integers. `now.saturating_sub(window)` saturates
  at the 64-bit limits; `validated_at + ttl` does not wrap.
* Strings are sequences of characters. Length limits count characters, which is
  the same as bytes for every label that can pass validation and
  for every ASCII account name.

## What the proofs found

These properties are false of the code as one might first state them. Each has a
concrete witness and the exact condition under which it holds.

* **The tick does not re-check ports.** In a run from start-up, an admin's removal
  of a routed port survives a successful tick (`RelayRuns.TickKeepsRevokedPort`).
  A surviving tick leaves all of a session's routes owned if and only if the
  session's routed ports were owned before it
  (`RelayRuns.TickRestoresAllIffPortsOwned`). Hostnames are always repaired, and
  stay so (`RelayRuns.TickRepairLasts`).
* **A key re-granted to another customer uncaps the first one**
  (`GateRuns.MovedKeyUncapsFormerCustomer`). A named user is uncapped if and only
  if no key's latest grant names them (`GateRuns.UncappedIffNeverGranted`).
* **The empty user name can observe the negative-cache sweep**
  (`GateRuns.EmptyNameObservesTheSweep`); no other name can
  (`GateRuns.SweepIsUnobservable`). Nothing in the relay asks for that name:
  `add_user` refuses it (crates/relay/src/registry.rs:220), `resolve_user` drops
  it (crates/relay/src/polar.rs:953), and `provision_user_token` and
  `rotate_user_token` are called only from tests. With named users a whole relay
  cannot observe the sweep (`RelaySweep.SweepIsUnobservableToRelay`).
* **With negative windows a key is still accepted at the instant it is granted**
  (`GateRuns.NegativeWindowsWitness`). An accepted grant is at most
  max(TTL, staleness) old on every run if and only if one of the two is not
  negative or no benefit is mapped (`GateRuns.PlainBoundIffWindowNotNegative`);
  max(0, TTL, staleness) always bounds it.
* **The frame length is cast to 32 bits.** A payload of 2^32 bytes reads back as an
  empty one (`Codec.LongFrameReadsWrong`). A frame reads back if and only if its
  payload is below 2^32 bytes (`Codec.FrameRoundTripIff`).
* **The in-memory store accepts hostnames the registry refuses**, the bare apex
  among them (`MemoryAuth.MemoryStoreAcceptsBareApex`). Their claim outcomes agree
  if and only if the hostname is claimable (`MemoryAuth.ClaimsAgreeIffValid`).

Where a comment and the code disagree the model follows the code. The comment at
crates/relay/src/registry.rs:614-615 describes a tie-break by kind; the code
compares only creation time and key, and hostnames win ties because they are
listed first and the sort is stable.

## Model

| member | source | states |
|---|---|---|
| Labels.ValidLabelIff | crates/relay/src/registry.rs:45-68 | The checks accept exactly the unreserved lower-case DNS labels of 1 to 63 characters with no hyphen at either end |
| Labels.LabelErrorIff | crates/relay/src/registry.rs:45-68 | Which fault is reported for each refused label |
| Labels.LabelOfInvertsFqdn | crates/relay/src/registry.rs:791-800 | For every apex, a hostname splits to label l if and only if it is l composed with the apex and l is claimable |
| Labels.ClaimableIsLowerCase | crates/relay/src/session.rs:614 | Lower-casing requests loses no hostname the registry would accept |
| Labels.LowerIff | crates/relay/src/session.rs:614 | Lower-casing identifies exactly the names that differ only in the case of ASCII letters |
| AgeOrder.OldestIsTheOldestCut | crates/relay/src/registry.rs:546-557 | The kept set is the one subset of size min(max(cap, 0), owned) all of whose members are older than everything removed |
| AgeOrder.OldestCompose | crates/relay/src/registry.rs:647-663 | Cutting to a and then to b is cutting once to min(a, b) |
| AgeOrder.SortIsOldestFirst | crates/relay/src/registry.rs:649 | A stable sort by (created_at, key) of rows that list ties oldest first yields the strict age order, keeping exactly the same rows |
| AgeOrder.SortedTailIsOverCap | crates/relay/src/registry.rs:647-663 | Skipping the first cap entries of the sorted rows leaves exactly the members whose rank is at least cap, each once |
| Ownership.OverCapIgnoresRowOrder | crates/relay/src/registry.rs:621-649 | Any two orders in which the queries return the rows sort to the same sequence |
| Ownership.PruneKeepsOldest | crates/relay/src/registry.rs:558-591 | A prune leaves its user exactly their oldest cap resources and everyone else all of theirs |
| Ownership.PruneCompose | crates/relay/src/registry.rs:558-591 | Pruning to a and then b is one prune to min(a, b), as whole tables |
| Ownership.PruneWithinCap | crates/relay/src/registry.rs:651-653 | A prune changes nothing if and only if the owned count is within the cap clamped at zero |
| Ownership.PruneOwnership | crates/relay/src/registry.rs:558-591 | What a user loses in a prune is exactly the hostnames and ports over the cap; nobody else loses anything |
| Ownership.ClaimHostFacts | crates/relay/src/registry.rs:488-544 | A claim succeeds if and only if its caller owns the host afterwards; a refusal changes nothing; re-claiming an owned host is a no-op at any cap |
| Ownership.ClaimHostAddsRow | crates/relay/src/registry.rs:526-537 | A registration adds exactly the row asked for: the caller's, dated at the claim's clock reading, with an id above every other |
| Ownership.ClaimHostCount | crates/relay/src/registry.rs:513-525 | A capped claim never takes its user past max(owned, cap), adds at most one row, and changes nobody else's count |
| Ownership.RegisterFromFacts | crates/relay/src/session.rs:728-777 | Registering a list succeeds if and only if every host in it ends up owned by the caller; nobody loses a row |
| Registration.RegisterIff | crates/relay/src/session.rs:728-777 | A list registers if and only if every host is valid and free or the caller's and the new ones fit the account and the cap; otherwise exactly the hosts before the first refused one are registered, and the outcome is that one's |
| Registration.FirstRefusedIsUnique | crates/relay/src/session.rs:728-777 | Only one position can be the first refused, so the outcome is determined |
| Ownership.ReleaseFacts | crates/relay/src/registry.rs:439-458 | A release takes from its caller exactly what was asked for and from nobody else anything |
| Ownership.ResolvesIff | crates/relay/src/polar.rs:950-993 | A customer resolves if and only if they have an account or their id is non-empty and at most 200 characters; only a new account changes the table, with an id above every other |
| Registry.Registry.ResolveAccount | crates/relay/src/polar.rs:950-993 | Looks the account up or creates it with a fresh id; the empty name never resolves |
| Registry.Registry.ClaimLabelCapped | crates/relay/src/registry.rs:488-544 | Each of the five results occurs exactly when the ledger's claim has the matching outcome, and only a registration changes the tables, by the row of ClaimHostAddsRow |
| Registry.Registry.ClaimHostname | crates/relay/src/registry.rs:860-877 | Equals the ledger's claim, outcome and tables |
| Registry.Registry.ReleaseHostname | crates/relay/src/registry.rs:439-448 | Deletes the row if and only if the caller owns it, and reports that |
| Registry.Registry.ReleasePort | crates/relay/src/registry.rs:452-458 | Deletes the port row if and only if the caller owns it, and reports that |
| Registry.Registry.OwnedOverCap | crates/relay/src/registry.rs:596-663 | Names, each once, exactly the labels and ports whose age rank is at least the cap, whatever order the rows come in |
| Registry.Registry.PruneOwnedToCap | crates/relay/src/registry.rs:558-591 | Deletes exactly what OwnedOverCap names, and returns it |
| Routing.ProjectionIsExact | crates/relay/src/router.rs:240-266 | The projected tunnel count is the user's number of live routes after the claim |
| Routing.TakenOverIff | crates/relay/src/router.rs:107-152 | A claim reports exactly the routes that change session by it |
| Routing.EvictedIff | crates/relay/src/router.rs:189-209 | An eviction reports exactly the routes it removes |
| Routing.TeardownSparesNewOwner | crates/relay/src/router.rs:154-180 | Tearing down a superseded session commutes with the claim that superseded it |
| Router.Router.Claim | crates/relay/src/router.rs:107-152 | Repoints exactly the requested entries, keeps the index equal to a full scan, and reports each route taken over exactly once even for repeated entries |
| Router.Router.RemoveSession | crates/relay/src/router.rs:157-180 | Teardown through the index equals deleting every entry of that session; the per-entry guards are asserted and hold |
| Router.Router.EvictRoutes | crates/relay/src/router.rs:189-209 | Removes exactly the named routes, keeps the index exact, and reports each live one once |
| Router.Router.HostnamesOf | crates/relay/src/router.rs:218-226 | The index lists exactly the hostnames a full scan finds for the session |
| Router.Router.ProjectedTunnelCount | crates/relay/src/router.rs:240-266 | The loop computes the user's live routes after the claim, for whichever session claims |
| Licences.ResolveCapMonotone | crates/relay/src/polar.rs:425-448 | A longer window never lowers the pooled cap |
| Licences.RowBoundsCap | crates/relay/src/polar.rs:412-448 | A qualifying row is a lower bound on its customer's pooled cap |
| GateRuns.AcceptedOnlyOnLatestGrant | crates/relay/src/polar.rs:613-725 | After any run and under any clock, an accepted key's latest definite answer is a mapped grant at some t with t <= now <= t + max(0, TTL, staleness), to the user returned |
| GateRuns.AcceptedIffLiveGrant | crates/relay/src/polar.rs:613-725 | After any run a key is accepted if and only if its latest definite answer is a mapped grant, given just now or at most max(TTL, staleness) old, and the user is that grant's customer |
| GateRuns.PlainBoundIffWindowNotNegative | crates/relay/src/polar.rs:632-641 | An accepted grant is at most max(TTL, staleness) old on every run if and only if that maximum is not negative or no benefit is mapped |
| GateRuns.NegativeWindowsBreakPlainBound | crates/relay/src/polar.rs:669-698 | With both windows negative, the first grant of any mapped benefit is accepted and breaks that bound |
| GateRuns.NegativeWindowsWitness | crates/relay/src/polar.rs:632-641 | One such gate and grant |
| GateRuns.LatestGrantIsHonored | crates/relay/src/polar.rs:632-641 | Conversely such a key is accepted throughout the TTL without a call, and throughout staleness while the backend cannot answer |
| GateRuns.AskedUnlessFresh | crates/relay/src/polar.rs:616-647 | After any run the backend is asked about every licence key whose latest answer is not within the TTL, budget permitting, and never about a local token, without a clock, or within the TTL for a key once granted |
| GateRuns.UncappedIffNeverGranted | crates/relay/src/polar.rs:736-781 | After any run a named user is uncapped if and only if no key's latest grant names them |
| GateRuns.CapIsBestLiveGrant | crates/relay/src/polar.rs:736-781 | After any run the cap of a named user is read from the answers alone: uncapped if no latest grant names them, else the largest mapped benefit among the latest answers that grant it to them within staleness, else nothing |
| GateRuns.CapMatchesLog | crates/relay/src/polar.rs:412-448 | The same over any window, the prune window included, for any cache that matches the answers |
| GateRuns.NeverFailsOpen | crates/relay/src/polar.rs:346-356 | If keys never change customer, a customer with a row is never uncapped again, whatever follows |
| GateRuns.MovedKeyUncapsFormerCustomer | crates/relay/src/polar.rs:452-476 | A witness that the proviso is needed |
| GateRuns.ActivationOutlivesRevalidation | crates/relay/src/polar.rs:450-476 | After any run from start-up, an activation the cache holds is kept unchanged through every continuation of re-validations, revocations, sweeps and claims until it is released |
| GateRuns.SweepIsUnobservable | crates/relay/src/polar.rs:478-487 | Under a clock that never goes back, a gate that sweeps and one that never does reply alike to every event of every run |
| GateRuns.SweepIsUnobservableFromStart | crates/relay/src/polar.rs:679-704 | The same from an empty cache |
| GateRuns.EmptyNameObservesTheSweep | crates/relay/src/polar.rs:736-749 | A witness that a query for the placeholder name of negative rows can tell the two gates apart |
| GateRuns.SweepLeavesOnlyRecent | crates/relay/src/polar.rs:679-704 | When a key is newly found unlicensed no negative row older than the TTL is left, and no other row goes |
| GateRuns.OutboundCallsAreBounded | crates/relay/src/polar.rs:643-647 | In any window of calls a gate with a non-negative budget calls the backend at most burst + rate * length times |
| GateRuns.OutboundCallsAreBoundedFromStart | crates/relay/src/polar.rs:526-556 | The same in any window after any run from start-up |
| GateRuns.CallWithheldOnlyWhenSpent | crates/relay/src/polar.rs:643-647 | The budget withholds a call only if in some stretch of needed calls that ends with it more than burst + rate * length - 1 were made |
| Enforcement.PruneNeverOutrunsGate | crates/relay/src/polar.rs:574-585 | For every cache, clock and configured windows: a user within the cap the claim gate reports loses no row and no route to enforcement at that instant |
| Enforcement.FreshGrantSetsBothCaps | crates/relay/src/polar.rs:853-876 | A fresh mapped grant counts in both windows, so own cap <= live cap <= prune cap and the floors never bind |
| Enforcement.GrantLeavesOldest | crates/relay/src/polar.rs:844-925 | After a grant the user owns exactly the oldest P, the routes stopped are exactly those to resources of theirs past the oldest L, and L <= P |
| Enforcement.EnforceExactly | crates/relay/src/polar.rs:856-925 | For any cache and own cap: rows are cut to exactly the prune cap and routes to exactly the live cap, neither below the own cap; a window without a cap cuts nothing |
| Enforcement.RoutesAfterEnforcement | crates/relay/src/polar.rs:856-925 | Pruning to P and then stopping routes past L stops exactly the routes to the user's resources past the oldest L, and no other |
| Enforcement.GrantBoundsLiveRoutes | crates/relay/src/polar.rs:902-925 | With routes within ownership, a grant leaves the user at most max(L, 0) live routes |
| Enforcement.EnforceKeepsRoutesOwned | crates/relay/src/polar.rs:881-945 | Enforcement never strands a route on a resource its user no longer owns |
| PolarGate.LicenseCache.CapForCustomer | crates/relay/src/polar.rs:425-448 | One scan gives the number of the customer's rows and the maximum of the qualifying caps, if any |
| PolarGate.PolarGate.constructor | crates/relay/src/polar.rs:569-595 | The prune window is the configured one, or the staleness window if that is longer; nothing else of the configuration changes |
| PolarGate.PolarGate.ResolveCapDecision | crates/relay/src/polar.rs:761-781 | No rows allow, rows that do not qualify deny, otherwise the pooled maximum |
| PolarGate.PolarGate.EnforcePooledCap | crates/relay/src/polar.rs:856-876 | Prune and eviction in place equal the enforcement step |
| PolarGate.PolarGate.AuthenticateKey | crates/relay/src/polar.rs:613-725 | Cache, budget, registry and router after authentication equal the authentication step |
| PolarGate.PolarGate.EnsureKeyActivated | crates/relay/src/polar.rs:785-823 | Equals the activation step: only a reached limit denies |
| RelayRuns.ClaimIsAllOrNothing | crates/relay/src/session.rs:588-791 | A denied claim leaves every route as it was; a granted one owns and routes everything requested; nobody loses a row |
| ClaimReplies.ClaimGrantedIff | crates/relay/src/session.rs:588-791 | From the state before: a claim is granted if and only if it has at most 256 entries, every port is claimable, no activation limit is hit, the user is uncapped or within the cap after it, and its hosts register; otherwise the first of these to fail, and the first entry at fault, decide the deny code |
| ClaimReplies.ClaimRegisters | crates/relay/src/session.rs:713-777 | A claim that reaches registration registers exactly the hosts before the first refused one, or all, each dated when it was served, and takes nothing back; any other denial changes no store but the activation |
| ClaimReplies.ClaimIgnoresCase | crates/relay/src/session.rs:614 | Claims that differ only in the case of their hostnames are the same claim, reply and stores |
| RelayRuns.PortsPassIff | crates/relay/src/session.rs:616-653 | The port loop lets a claim through if and only if TCP is served and every port is in range, owned and bindable |
| ClaimReplies.PortRefusalIsFirst | crates/relay/src/session.rs:616-653 | A refused list is blamed on its first unclaimable port: unavailable if it only fails to bind, otherwise not reserved |
| RelayRuns.GrantedClaimIsActivated | crates/relay/src/session.rs:667-680 | A granted claim on a key that needs an activation holds the one the backend gave, unless it was unreachable; a held one is kept; a reached limit never grants |
| RelayRuns.ReleaseIsExact | crates/relay/src/session.rs:798-871 | A release reports exactly what was owned and asked for; none of it stays owned or routed and all else is as before; the cache changes exactly when the last resource goes and the backend confirms, and then only by giving up the key's activation |
| RelayRuns.GrantedClaimRespectsCap | crates/relay/src/session.rs:681-711 | A claim granted under cap m leaves at most m live routes and at most max(owned, m) rows; deny-all changes nothing |
| RelayRuns.RoutesStayOwned | crates/relay/src/session.rs:588-871 | In every run without admin removals each routed resource is owned by the user of the live session it leads to |
| RelayRuns.RoutesStayOwnedFromStart | crates/relay/src/session.rs:588-871 | The same from start-up, with or without a licence gate |
| RelayRuns.SelfHostRunServesPort | crates/relay/src/registry.rs:219-239 | A run without a gate, from start-up: an account and a port are added, its user connects and claims, and the port is owned and routed |
| RelayRuns.StepKeepsServed | crates/relay/src/session.rs:303-305 | Whatever the event, admin removals included, no route outlives its session |
| RelayRuns.RunKeepsServed | crates/relay/src/session.rs:303-305 | Over every run, admin removals included, no route outlives its session and hostname row ids stay unique |
| RelayRuns.SessionsKeepIdentity | crates/relay/src/session.rs:303-305 | Over every run a session keeps its user and credential until its end, and once disconnected is never served again |
| RelayRuns.TickRestoresHosts | crates/relay/src/session.rs:435-506 | From any state, one tick leaves all of a surviving session's hostnames owned, and a closed session's end leaves it no route |
| RelayRuns.TickStopsOnlyRevoked | crates/relay/src/session.rs:460-476 | A tick without a fresh grant touches no row and stops only the session's routes to hostnames its user no longer owns |
| RelayRuns.TickRepairLasts | crates/relay/src/session.rs:460-476 | After a surviving tick, every continuation without admin removals keeps the session's hostnames owned |
| RelayRuns.TickRestoresAllIffPortsOwned | crates/relay/src/session.rs:460-476 | A surviving tick leaves all the session's routes owned if and only if, before the tick, every port routed to it was owned by its user |
| RelayRuns.TickKeepsRevokedPort | crates/relay/src/session.rs:460-476 | A run from start-up in which a revoked port is still routed after a successful tick |
| RelayRuns.OwnedCountStaysWithinCap | crates/relay/src/session.rs:655-665 | Over any run whose claims by a user are gated by caps of at most C, the owned count stays within max(initial, C) |
| RelayRuns.AdminAddsOneRow | crates/relay/src/registry.rs:708-768 | An admin's reservation succeeds if and only if the name is valid and free and the user known, and adds one row of theirs, dated when it was made |
| RelayRuns.AdminRemovesOneRow | crates/relay/src/registry.rs:743-784 | An admin's removal deletes exactly the named row and touches no route and no session |
| RelayAges.EarlierClaimOutlivesLater | crates/relay/src/registry.rs:526-591 | Over every run under a clock that never goes back: a hostname registered before another and held since is the older, and no handshake or tick takes it from its user and leaves them the later one |
| RelayAges.EarlierInListIsOlder | crates/relay/src/session.rs:728-729 | Within one claim, too, a host is older than each later one that is new |
| RelayAges.PruneTakesYoungerFirst | crates/relay/src/registry.rs:558-591 | A prune that keeps a label keeps every older one of the same user |
| RelayLicences.RunDrivesGate | crates/relay/src/session.rs:171-179 | The gate inside a relay run performs a gate run of the events the relay asks of it |
| RelayLicences.RunKeepsAccounts | crates/relay/src/polar.rs:950-993 | Over every run, admin additions and admin removals of hostnames and ports included, no two accounts share an id and every session the gate opened belongs to the account of its user's name |
| RelayLicences.ConnectOpensIffOwned | crates/relay/src/session.rs:165-179 | After any run a handshake opens a session if and only if its credential has an owner: a local token's user, or the account of the customer its key is granted to by the answers received |
| RelayLicences.GrantEnforcesBestGrants | crates/relay/src/polar.rs:653-676 | After any run a fresh mapped grant cuts the account to what the answers entitle it to: the oldest rows up to the best grant of the prune window, and routes to the oldest of them up to the best live grant |
| RelayLicences.SurvivingTickHasLiveGrant | crates/relay/src/session.rs:436-459 | After any run from start-up, a licensed session that survives a tick has a live mapped grant of its key to its own account, by id and, if the gate opened it, by name, and the claim gate does not deny that account everything |
| RelayLicences.TickSurvivesIff | crates/relay/src/session.rs:435-506 | After any run a session survives a tick if and only if its credential still belongs to its user, who is not denied everything: no latest grant names them, or one that does is mapped and within staleness |
| RelayLicences.ClaimGrantedIffCovered | crates/relay/src/session.rs:655-711 | After any run a claim is granted if and only if its frame fits, its ports are claimable, no activation limit is hit, and no latest grant names the user, or their best live grant covers the routes after it and the new rows |
| RelayLicences.UncappedIffNoKeyGranted | crates/relay/src/session.rs:681-692 | After any relay run a named user is uncapped at the claim gate if and only if no key's latest grant names them |
| RelaySweep.RunsAlike | crates/relay/src/polar.rs:478-487 | Relays that differ only in expired negative rows, one sweeping and one not, reply alike over every run and end with the same owners, routes and sessions |
| RelaySweep.SweepIsUnobservableToRelay | crates/relay/src/polar.rs:679-704 | The same from start-up: with named users and a clock that never goes back, no request, owner, route or session depends on the sweep |
| Handlers.SessionCtx.HandleClaimFrame | crates/relay/src/session.rs:588-791 | The claim handler's loops and early returns equal the claim step, reply and all three stores |
| Handlers.SessionCtx.HandleReleaseFrame | crates/relay/src/session.rs:798-871 | The release handler equals the release step |
| Handlers.SessionCtx.RevalidationTick | crates/relay/src/session.rs:435-506 | The tick equals the tick step |
| Handlers.SessionCtx.Authenticate | crates/relay/src/session.rs:171-179 | Local tokens first, then the gate if there is one |
| TokenBucket.LimiterKeyCollapses | crates/relay/src/ratelimit.rs:14-29 | Two addresses share a key if and only if they are the same IPv4 address or in the same IPv6 /64 |
| TokenBucket.SweepingIsUnobservable | crates/relay/src/ratelimit.rs:60-97 | For calls in time order, sweeping and at-capacity eviction answer every check as one never-dropped bucket per key |
| TokenBucket.SweepingIsUnobservableFromStart | crates/relay/src/ratelimit.rs:60-97 | The same from an empty map |
| TokenBucket.WindowBound | crates/relay/src/ratelimit.rs:60-86 | In any window of any run one source is admitted at most burst + rate * length times |
| TokenBucket.WindowBoundFromStart | crates/relay/src/ratelimit.rs:60-97 | The same after any run from start-up |
| TokenBucket.BucketWindowBound | crates/relay/src/polar.rs:543-556 | The bound for a single bucket, by its level |
| TokenBucket.RefusedOnlyWhenSpent | crates/relay/src/ratelimit.rs:76-85 | A bucket refuses a call only if the tokens of some stretch of calls that ends with it are spent to less than one |
| TokenBucket.SourceIsOneBucket | crates/relay/src/ratelimit.rs:60-97 | For calls in time order the limiter treats each source as one bucket would, whatever others do and whenever buckets are dropped |
| TokenBucket.RefusedSourceIsSpent | crates/relay/src/ratelimit.rs:60-86 | After any run from start-up a source is refused only if in some stretch of its calls that ends there more than burst + rate * length - 1 were admitted |
| TokenBucket.ValidateBudget.TryTake | crates/relay/src/polar.rs:543-556 | Equals refill-then-take on the bucket |
| TokenBucket.RateLimiter.CheckIp | crates/relay/src/ratelimit.rs:56-86 | Equals the check on the collapsed key |
| TokenBucket.RateLimiter.SweepIdle | crates/relay/src/ratelimit.rs:89-97 | The retain loop drops exactly the buckets that would be full by now, leaves no full one, and from then on every source has the tokens it would have had |
| ConnLimiter.PermitsAreConserved | crates/relay/src/ratelimit.rs:111-160 | Under every interleaving: free slots, acquisitions in flight, refusals, live permits and drops add up to the maximum; each count is the source's live permits and lies in 1..max; no zero entry remains |
| ConnLimiter.DropNeverUnderflows | crates/relay/src/ratelimit.rs:150-160 | A dropped permit finds its source's entry, at least one |
| ConnLimiter.RefusedOnlyAtCeiling | crates/relay/src/ratelimit.rs:126-140 | Admission is refused if and only if the global or the source's ceiling is reached |
| ConnLimiter.AdmitThenDropRestores | crates/relay/src/ratelimit.rs:143-160 | Admitting and dropping a connection restores the limiter exactly |
| ConnLimiter.ConnLimiter.TryAdmit | crates/relay/src/ratelimit.rs:126-140 | None if and only if a ceiling is reached, and then the limiter is as before |
| ConnLimiter.ConnLimiter.DropSource | crates/relay/src/ratelimit.rs:150-160 | The decrement never goes below zero and keeps conservation |
| ConnLimiter.ConnLimiter.DropPermit | crates/relay/src/ratelimit.rs:143-160 | Gives back the source's count and the slot, keeping conservation |
| WsByteStream.ReadConserves | crates/proto/src/transport.rs:91-139 | A read moves a prefix of the unread bytes to the caller and loses none, whatever it skips or refuses |
| WsByteStream.ReadShape | crates/proto/src/transport.rs:91-139 | A read returns no more than asked for, nothing only at the end, and is pending only with nothing arrived on an open connection; items are used strictly in order |
| WsByteStream.ShortReadEndsMessage | crates/proto/src/transport.rs:98-103 | A read returns less than asked for only when a message is used up |
| WsByteStream.OversizeIsRefused | crates/proto/src/transport.rs:116-124 | An oversize message is an error, never skipped, whatever harmless messages come before it |
| WsByteStream.ReadsArePrefixOfWrites | crates/proto/src/transport.rs:87-164 | Over every run, transport errors and refused writes included, the bytes read are a prefix of the bytes accepted, and all of them once drained; no error is reported twice |
| WsByteStream.EmptyReadMeansEnd | crates/proto/src/transport.rs:104-135 | After any run, a read fails only on a transport error not yet reported, and with room in the buffer is empty only at end of stream, with everything accepted delivered unless the connection was lost |
| WsByteStream.EndIsSticky | crates/proto/src/transport.rs:104-106 | Once a read with room came back empty, every read of every continuation does, whatever is still written, delivered or broken, and nothing more is delivered or reported |
| WsByteStream.WsByteStream.Read | crates/proto/src/transport.rs:91-139 | The polling loop equals the read step |
| WsByteStream.WsByteStream.Write | crates/proto/src/transport.rs:146-164 | Pending and errors of the WebSocket are passed on and send nothing; otherwise one message goes out, the whole buffer or as much as one may hold, and its length is reported |
| Codec.Le32Inverse | crates/proto/src/codec.rs:51 | The prefix decodes to the length modulo 2^32 |
| Codec.FrameRoundTripIff | crates/proto/src/codec.rs:39-73 | A written frame reads back with nothing left over if and only if its payload is below 2^32 bytes |
| Codec.WriteFrameIff | crates/proto/src/codec.rs:39-55 | A frame is written if and only if its payload encodes within the limit, and the two failures are told apart |
| Codec.UndecodableIsUsedUp | crates/proto/src/codec.rs:59-73 | A whole frame that does not decode is refused and used up, so what follows it is next |
| Codec.LongFrameReadsWrong | crates/proto/src/codec.rs:51 | A witness that a payload of 2^32 bytes is written and reads back as the empty one |
| Codec.CutStreamReadsWholeFrames | crates/proto/src/codec.rs:39-73 | A stream of frames cut anywhere reads as exactly the frames wholly before the cut, in order, then end of stream; uncut, nothing is left over |
| Codec.TruncatedFrameIsEof | crates/proto/src/codec.rs:64-72 | A truncated frame is end of stream, never a frame |
| Codec.OversizeIsRejectedOnPrefix | crates/proto/src/codec.rs:66-69 | An oversize length is rejected after exactly four bytes |
| Codec.PreambleRoundTrip | crates/proto/src/codec.rs:77-101 | The preamble reads back, its truncations are end of stream, other magic is refused |
| Codec.AnyVersionReadsBack | crates/proto/src/codec.rs:89-101 | A preamble of any 16-bit version reads back as that version |
| Codec.ByteSource.Read | crates/proto/src/codec.rs:59-73 | The two-step read equals the frame read and leaves the stream at what follows |
| Codec.ByteSink.Write | crates/proto/src/codec.rs:39-55 | Appends the frame, or nothing on error |
| Codec.ByteSource.ReadVersion | crates/proto/src/codec.rs:89-101 | The stepwise read equals the preamble read |
| MemoryAuth.CorrespondingIsDisjoint | crates/relay/src/auth.rs:195-200 | In a store that corresponds to a registry no hostname has two holders, so the search has one answer |
| MemoryAuth.CorrespondingCounts | crates/relay/src/auth.rs:207-213 | Corresponding stores count the same owned resources |
| MemoryAuth.ClaimsAgreeIffValid | crates/relay/src/auth.rs:193-221 | From corresponding stores, claim outcomes agree if and only if the hostname is claimable, and then the stores still correspond |
| MemoryAuth.MemoryStoreAcceptsBareApex | crates/relay/src/auth.rs:193-221 | A witness that the in-memory store registers a hostname the registry refuses |
| MemoryAuth.HostReleasesAgree | crates/relay/src/auth.rs:245-250 | Hostname releases always agree |
| MemoryAuth.StoresAgreeOnEveryRun | crates/relay/src/auth.rs:193-256 | Any run of proper claims and of releases gets the same responses from both stores and leaves everyone owning the same |
| MemoryAuth.MemoryAuth.ClaimHostname | crates/relay/src/auth.rs:193-221 | Equals the claim step for an owner the search found |
| SessionActor.CommandsAreServedInOrder | crates/relay/src/session.rs:194-300 | Over every run: at most one control stream, no opened stream without its command, and the commands dealt with are a prefix of the arrivals, followed by the pending one and the queue |
| SessionActor.AtMostOneReplyEach | crates/relay/src/session.rs:275-299 | Distinct commands get at most one outcome each |
| SessionActor.OpenedOnlyWhilePending | crates/relay/src/session.rs:228-278 | A stream is opened only while a command is pending, and a command is accepted only while none is |
| SessionActor.RunningMetItsDeadlines | crates/relay/src/session.rs:200-227 | A session still running was never cancelled and had its control stream whenever the deadline passed |
| SessionActor.PendingIsServedWhenReady | crates/relay/src/session.rs:210-234 | A pending command is dealt with on the first turn the connection is ready, before anything else: served with the stream, told of the failure, or abandoned if its caller gave up |
| SessionActor.HeadIsAccepted | crates/relay/src/session.rs:240-244 | With nothing pending and nothing inbound the head of the queue becomes pending, and the rest stays in order |
| SessionActor.QueueIsServed | crates/relay/src/session.rs:194-300 | Over every run, whatever else happens: after two turns per command that can move one forward, the first n commands are dealt with, in order |
| SessionActor.RoundsServeQueue | crates/relay/src/session.rs:228-299 | n turns with nothing inbound, each followed by one on which the connection is ready, deal with n queued commands, each by what its round offered |
| SessionActor.StopsIffCause | crates/relay/src/session.rs:217-271 | Over every run the actor stops if and only if some turn is cancelled, past the deadline without a control stream, or hears an error, the end or a second stream |
| SessionActor.FirstStreamIsControl | crates/relay/src/session.rs:250-262 | The first stream becomes the control stream and a second one stops the session |
| SessionActor.RunSession | crates/relay/src/session.rs:185-306 | The loop equals the turns, so every queued command is accepted and dealt with as QueueIsServed says, and the session's routes are torn down when it breaks |

## Left out

- TLS, ACME, DNS, the HTTP proxy, the client and the CLI: network glue around the modelled core.
- `PolarHttpClient`: only its outcomes appear, as arbitrary inputs.
- SQLite, hashing and token storage: tables are maps, hashing is injective, and the local token store's answer is an input.
- The payload encoding (postcard): the framing proof assumes only that decoding inverts encoding.
- yamux and tungstenite: the actor and the byte stream see only what they report.
- Interleavings inside one handler between two stores, and races with an admin process.
- Admin removal of a whole user (crates/relay/src/registry.rs:250-268): accounts are only ever added, so results about accounts and their ids are for runs without it.
- The token commands and the `ListOwned` listing: the token store's answer is an input, and a listing changes no store.
- Storage failures: the `Error` outcome of a claim and the fail-closed branches on database errors are not modelled.
- The control frames pushed to superseded or evicted sessions: the router's reports are modelled, their delivery is not.
- Sub-second timing, heartbeats and handshake timeouts, other than as arbitrary inputs of the actor.
- Overflow of `validated_at + ttl`: timestamps are unbounded, because the configured windows are seconds.
- A bound on the bucket map's size: only full buckets are dropped, so `max_entries` does not bound it.
- ConnLimiter.ConnLimiter.TryAdmit: stated for an uninterrupted call; the interleaved steps are covered by PermitsAreConserved.
