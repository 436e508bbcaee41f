# openair-cn: tunnels, search trees, S1 setup and S11 codecs

A Dafny model of the parts of openair-cn (an LTE core network with its eNB-side counterparts) that
hold state, loop or calculate, with proofs of what they keep over whole runs.

| file | what it models |
|---|---|
| `TeidAllocation` | the wrapping 32-bit TEID counter and the retry loop against the GTP-U stack |
| `EnbTunnels`, `EnbTunnelLaws` | the eNB's two tunnel tables, their handlers, and what every run keeps |
| `SgwTunnels`, `TunnelDelivery` | the S-GW's tunnel table, and both nodes joined into one system with packets followed end to end |
| `SearchTree` | the tree of `tree.h` as seen by its users, for every shape with a given in-order sequence |
| `UeContexts` | the MME's UE contexts: one tree, four keys, key fields written in place |
| `EnbInstances`, `S1SetupAccounting`, `S1SetupLaws`, `S1SetupLookups` | the eNB's MME descriptors, the S1 Setup handlers, their counters and messages, and when an answer reaches its MME |
| `MmeSelection` | the three MME selection loops and the chain of the first NAS request |
| `UeAdmission` | UE ids and round-robin streams |
| `EnbRuns`, `EnbHistory` | S1 Setup and UE admission together, in runs of the whole eNB, and what the stored UEs and MMEs say about the history |
| `MmeEnbRegistry` | the MME's list of eNBs |
| `ApnCodec`, `ImsiDigits`, `GroupedIe` | S11 information elements (3GPP TS 29.274) |
| `BitStrings` | BIT STRING to integer conversion |
| `Common`, `Bits`, `Division`, `Counting` | integer widths, shifts and OR, quotients, counting |

Handlers that update tables and records are methods of classes. Each is proved equal to a function or
a step relation on the values of its state; the laws over runs are lemmas about those. Messages sent
to other tasks are a ghost log or a result. `dafny verify dfyconfig.toml` checks everything.

Conventions that matter for reading the statements:

- The GTP-U stack is the set of live endpoints: creating one succeeds if and only if the TEID is not
  live, destroying one if and only if it is (comment at openair-cn/GTPV1-U/gtpv1u_eNB.c lines 434-439).
- Rebalancing is an arbitrary choice among the trees with the same in-order sequence, so whatever is
  proved holds for every way of balancing.
- A failed assertion of the original is the outcome `Fatal`.

Where the code differs from its intent the model follows the code, and the difference is part of what is proved:

- `num_bearers` is lowered by deletes and never raised, so a UE entry is never dropped (`ReleaseBearer`).
- The uplink range check admits one identifier past the bearer array (`HandleTunnelDataReq`).
- The S-GW's delete keeps the stack endpoint (`DeleteTunnel`).
- The IMSI encoder fills an odd last half octet with 0 (`DecodeOfEncoded`).
- An IMSI lookup can miss a stored IMSI (`ImsiLookupCanMiss`, with the exact condition in `ImsiLookupExactIff`).
- The lookup of an MME by association id is exact only if association ids grow with connection ids, so a setup response can be lost (`ResponseCanBeLost`, with the exact condition in `EveryResponseConnectsIff`). Such a response counts as no outcome: its MME stays pending.
- The lookup of a UE context by GUTI always answers with the root of the tree (`GutiLookupHitsRoot`).
- A setup request from another association silently resets a READY eNB with the same id (`ForeignRequestResetsSilently`).
- The setup response handler stores copies of the first list entry only (`AdvertisedGummeiKnownIff`).
- The grouped IE walk can run for ever (`EndlessWalk`, with the exact condition in `WalkEndsIff` and `NeverEndsIffRepeats`).
- A create for a bearer that has a TEID leaves its old TEID mapped (`CreateAllKeepsInverseIff`).

## Model

| member | source | states |
|---|---|---|
| `SearchTree.InsertKeepsOrder` | openair-cn/UTILS/tree.h:578-607 | An insertion either leaves the tree as it was, exactly when a stored element compares equal on the way down, or puts the element at one place of the in-order sequence and moves nothing else. |
| `SearchTree.SeparatedIsFound` | openair-cn/UTILS/tree.h:611-625 | In every tree, a descent finds the element that separates what compares below the probe from what compares above it. |
| `SearchTree.ExactInEveryShape` | openair-cn/UTILS/tree.h:611-625 | The element at a position is found in every tree with the given in-order sequence if and only if all earlier elements compare below the probe and all later ones above it. Covers every balancing of the red-black tree. |
| `SearchTree.MissedExactlyWhenAbsent` | openair-cn/UTILS/tree.h:611-625 | A probe misses in every tree of a sequence if and only if no element compares equal to it. |
| `SearchTree.OrderedInsertPos` | openair-cn/UTILS/tree.h:578-607 | In a tree ordered for the probe, a new leaf lands at the one position with the smaller elements before it and the larger after it. |
| `UeContexts.LookupSound` | openair-cn/MME_APP/mme_app_context.c:147-202 | A hit for a non-zero key carries that key, whatever state the tree is in. |
| `UeContexts.LookupImsiSound` | openair-cn/MME_APP/mme_app_context.c:147-159 | The same for the IMSI lookup by name. |
| `UeContexts.LookupExactIff` | openair-cn/MME_APP/mme_app_context.c:62-102 | For each of the four keys and all their values, 15-digit IMSIs included: a context is found under its key in every shape of the tree if and only if its key is above all keys before it and below all keys after it in tree order. |
| `UeContexts.ZeroProbeHitsRoot` | openair-cn/MME_APP/mme_app_context.c:103-131 | An all-zero reference (key 0) falls through to the last branch of the comparator and hits the root of any tree. |
| `UeContexts.GutiLookupHitsRoot` | openair-cn/MME_APP/mme_app_context.c:103-131 | The lookup by GUTI answers with the root of any tree, so with a context of that GUTI if and only if the root happens to be one. |
| `UeContexts.MmeUeContexts.InsertContext` | openair-cn/MME_APP/mme_app_context.c:221-240 | The counter moves by one in 32 bits even when the insertion collides; a collision leaves the tree itself as it was, otherwise the context is at its leaf position in some balancing. |
| `UeContexts.MmeUeContexts.HandleConnEstInd` | openair-cn/MME_APP/mme_app_bearer.c:354-390 | Realises the ConnEstInd step: lookup, insertion of a context whose two ids agree, and the three assertions. |
| `UeContexts.MmeUeContexts.HandleAuthParamReq` | openair-cn/MME_APP/mme_app_authentication.c:396-434 | Realises the AuthParamReq step: IMSI lookup, then id lookup, insertion if both miss, then IMSI and PLMN written in place. What the step leaves is stated by AuthStoresImsi and AuthOnHitWritesPlmn. |
| `UeContexts.MmeUeContexts.HandleUpdateLocationAns` | openair-cn/MME_APP/mme_app_location.c:122-126 | Realises the UpdateLocationAns step: the context of the IMSI gets its S11 TEID written in place (mme_app_bearer.c line 170), an unknown IMSI changes nothing. |
| `UeContexts.IdLookupsExact` | openair-cn/MME_APP/mme_app_context.c:175-202 | Under the invariant both id lookups find a context if and only if it carries the id, and they agree, in spite of IMSIs and S11 TEIDs written into the nodes. |
| `UeContexts.NewIdInsertsInPlace` | openair-cn/MME_APP/mme_app_context.c:221-240 | After a missed id lookup the insertion never collides and lands between the smaller and the larger ids. |
| `UeContexts.EveryRunKeepsInv` | openair-cn/MME_APP/mme_app_bearer.c:362-390 | Over every run, also with id 0: strict order by mme_ue_s1ap_id, ue_id equal to it, the counter equal to the tree size modulo 2^32, and no assertion ever fires. |
| `UeContexts.ConnEstIndAddsBlank` | openair-cn/MME_APP/mme_app_bearer.c:359-378 | A connection establishment for a new id adds one context with that id twice and nothing else in it; for a known id nothing changes. |
| `UeContexts.AuthStoresImsi` | openair-cn/MME_APP/mme_app_authentication.c:396-427 | If its IMSI is not found, an authentication request for a non-zero id leaves exactly one context with the id, holding the IMSI and the PLMN, with its other fields if it was there and zeros if not; all other contexts stay. |
| `UeContexts.AuthOnHitWritesPlmn` | openair-cn/MME_APP/mme_app_authentication.c:429-433 | If its IMSI is found, the context found gets the PLMN and nothing else changes. |
| `UeContexts.UpdateLocationWritesTeid` | openair-cn/MME_APP/mme_app_bearer.c:160-171 | An update location answer gives the context found by its IMSI the S11 TEID and changes nothing else. |
| `UeContexts.EveryImsiIsLatest` | openair-cn/MME_APP/mme_app_authentication.c:396-417 | Over every run with non-zero ids a context holds the IMSI of the latest authentication request for its id whose IMSI was not found, or 0. |
| `UeContexts.CounterIsSize` | openair-cn/MME_APP/mme_app_context.c:226 | nb_ue_managed is the exact number of contexts as long as there are fewer than 2^32. |
| `UeContexts.ImsiLookupCanMiss` | openair-cn/MME_APP/mme_app_authentication.c:396-417 | The IMSI lookup has no such guarantee: a run of two requests after which a stored IMSI is not found. |
| `UeContexts.ImsiLookupExactIff` | openair-cn/MME_APP/mme_app_authentication.c:396-417 | The exact condition, in every state of a run: a stored IMSI is found in every balancing if and only if the contexts with smaller ids have smaller IMSIs and those with larger ids larger ones. |
| `TeidAllocation.TeidSource.NewTeid` | openair-cn/GTPV1-U/gtpv1u_teid_pool.c:46-50 | The counter moves to its successor in 32 bits, wrapping, and is returned. |
| `TeidAllocation.DrawsAreDistinct` | openair-cn/GTPV1-U/gtpv1u_teid_pool.c:46-50 | Up to 2^32 consecutive draws are pairwise distinct, from any counter value, across the wrap. |
| `TeidAllocation.RefusedDrawsAreFew` | openair-cn/GTPV1-U/gtpv1u_eNB.c:664-673 | Consecutive draws refused by the stack are distinct live TEIDs, so there are at most as many as live endpoints. |
| `TeidAllocation.RetryStopsIff` | openair-cn/GTPV1-U/gtpv1u_eNB.c:664-673 | From any counter value the retry loop stops if and only if the live endpoints do not cover all 2^32 TEIDs, and then after at most n + 1 draws, n being the number of live endpoints. |
| `TeidAllocation.TeidSource.Draw` | openair-cn/GTPV1-U/gtpv1u_eNB.c:664-673 | The do-while loop returns the first draw that was not live and makes it live; it terminates whenever a TEID is free. |
| `EnbTunnels.EnbGtpu.FindOrInsertUe` | openair-cn/GTPV1-U/gtpv1u_eNB.c:678-686 | A UE that is not in ue_mapping gets a blank record; no other UE changes. |
| `EnbTunnels.EnbGtpu.ConfigureBearer` | openair-cn/GTPV1-U/gtpv1u_eNB.c:678-715 | The bearer of the UE gets the new TEID, the S-GW TEID, the address families the request carries, and state IN_CONFIG; the other bearers and UEs stay. What a bearer then holds is stated by TunnelDelivery.BearersFollowHistory. |
| `EnbTunnels.EnbGtpu.SetUpTunnel` | openair-cn/GTPV1-U/gtpv1u_eNB.c:655-739 | One pass of the create loop equals CreateOne on the values of the tables; the answer is 0 only when the TEID was mapped already. |
| `EnbTunnels.EnbGtpu.CreateTunnels` | openair-cn/GTPV1-U/gtpv1u_eNB.c:655-739 | The whole create request, on records and arrays updated in place, equals CreateAll on their values, including the answered TEIDs and the status. |
| `EnbTunnels.EnbGtpu.DropIfEmpty` | openair-cn/GTPV1-U/gtpv1u_eNB.c:800-803 | The UE entry leaves the table exactly when its bearer count is 0. |
| `EnbTunnels.EnbGtpu.ReleaseBearer` | openair-cn/GTPV1-U/gtpv1u_eNB.c:794-803 | A bearer is torn down and the count lowered; as the count is never raised, the entry is never dropped. |
| `EnbTunnels.EnbGtpu.TearDownTunnel` | openair-cn/GTPV1-U/gtpv1u_eNB.c:768-812 | One pass of the delete loop equals DeleteOne; failure is reported exactly when the endpoint was not live. |
| `EnbTunnels.EnbGtpu.DeleteTunnels` | openair-cn/GTPV1-U/gtpv1u_eNB.c:765-813 | The whole delete request equals DeleteAll; an unknown UE is a silent success. |
| `EnbTunnelLaws.ReceiveReachesHolder` | openair-cn/GTPV1-U/gtpv1u_eNB.c:310-334 | While the tables are inverse, a T-PDU on a non-zero TEID reaches radio bearer d of a UE if and only if 3 <= d + 4 < 32 and bearer d + 4 holds the TEID, and is dropped if and only if no bearer of any UE holds it. |
| `EnbTunnels.EnbGtpu.HandleTunnelDataReq` | openair-cn/GTPV1-U/gtpv1u_eNB.c:963-1001 | An uplink SDU of a bearer leaves with the bearer's S-GW TEID and address. The range check admits one identifier past the array, which the result PastTheArray makes visible. |
| `EnbTunnelLaws.InverseIsInjective` | openair-cn/GTPV1-U/gtpv1u_eNB.c:678-735 | If the tables are inverse, no TEID serves two bearers. |
| `EnbTunnelLaws.CreateMapsFresh` | openair-cn/GTPV1-U/gtpv1u_eNB.c:727-738 | If mapped and live TEIDs coincide, a create maps a TEID that was neither, so the branch "TEID already mapped" is not taken, and they still coincide. |
| `EnbTunnelLaws.CreateKeepsInverseIff` | openair-cn/GTPV1-U/gtpv1u_eNB.c:678-735 | Setting up one tunnel keeps the tables inverse if and only if the bearer has no TEID yet. |
| `EnbTunnelLaws.CreateAllTeids` | openair-cn/GTPV1-U/gtpv1u_eNB.c:655-739 | A create request answers success, with pairwise distinct TEIDs, none of them live or mapped before, and they are exactly what becomes live and mapped. |
| `EnbTunnelLaws.CreateAllBearers` | openair-cn/GTPV1-U/gtpv1u_eNB.c:688-715 | After a create request over distinct bearers each of them holds its answered TEID and S-GW TEID; every other bearer and UE is untouched. |
| `EnbTunnelLaws.CreateAllKeepsInverse` | openair-cn/GTPV1-U/gtpv1u_eNB.c:655-739 | A create request that names distinct bearers without a TEID keeps the tables inverse. |
| `EnbTunnelLaws.CreateAllKeepsInverseIff` | openair-cn/GTPV1-U/gtpv1u_eNB.c:655-739 | Barring a draw of TEID 0, the tables stay inverse if and only if the request names distinct bearers without a TEID. |
| `EnbTunnelLaws.DeleteEachEffect` | openair-cn/GTPV1-U/gtpv1u_eNB.c:765-813 | What a delete of distinct bearers leaves, without its loop: their TEIDs gone from both sets, their records down, everything else untouched. |
| `EnbTunnelLaws.DeleteFailsIff` | openair-cn/GTPV1-U/gtpv1u_eNB.c:784-791 | A delete of distinct bearers answers failure if and only if the UE is known and some named TEID is not live or named twice; with inverse tables, if and only if some named bearer has no live TEID. |
| `EnbTunnelLaws.CreateThenDeleteRestores` | openair-cn/GTPV1-U/gtpv1u_eNB.c:655-813 | Creating tunnels for distinct bearers without TEIDs and deleting them in any order restores the TEID table and the live endpoints, leaves those bearers DOWN with zero TEIDs and touches nothing else. |
| `EnbTunnelLaws.EveryRunStaysSynced` | openair-cn/GTPV1-U/gtpv1u_eNB.c:727-738 | In every run, with any requests, mapped TEIDs and live endpoints coincide and no create ever answers failure or repeats a TEID. |
| `EnbTunnelLaws.EveryCleanRunStaysInverse` | openair-cn/GTPV1-U/gtpv1u_eNB.c:678-812 | In every run whose creates name distinct bearers without a TEID, the two tables stay mutually inverse. |
| `EnbTunnelLaws.EveryCleanRunDelivers` | openair-cn/GTPV1-U/gtpv1u_eNB.c:310-334 | In every such run a T-PDU on a non-zero TEID reaches radio bearer d of a UE if and only if 3 <= d + 4 < 32 and bearer d + 4 holds the TEID at that moment, and is dropped if and only if no bearer of any UE holds it. |
| `SgwTunnels.SgwGtpu.CreateTunnel` | openair-cn/GTPV1-U/gtpv1u_task.c:265-324 | Draws a TEID and maps it to a blank endpoint, or answers failure if it is mapped already. |
| `SgwTunnels.SgwGtpu.UpdateTunnel` | openair-cn/GTPV1-U/gtpv1u_task.c:349-378 | Overwrites the endpoint of a mapped TEID; an unmapped one is a failure that changes nothing. |
| `SgwTunnels.SgwGtpu.DeleteTunnel` | openair-cn/GTPV1-U/gtpv1u_task.c:328-346 | Drops the table entry and keeps the stack endpoint live. |
| `SgwTunnels.PacketsFollowLatestUpdate` | openair-cn/GTPV1-U/gtpv1u_task.c:265-378 | In every run of S-GW requests, a packet for a TEID is sent to an endpoint if and only if the TEID was created, not deleted since, and last updated to that endpoint (to 0 if never updated). |
| `SgwTunnels.CreatedOnce` | openair-cn/GTPV1-U/gtpv1u_task.c:328-346 | No TEID is ever created twice, because a delete leaves its endpoint live. |
| `SgwTunnels.EndpointsAreUpIffUpdated` | openair-cn/GTPV1-U/gtpv1u_task.c:349-378 | In every run a mapped TEID was created and not deleted since, and its endpoint is UP on port 2152 if and only if it was updated since; else it is blank. |
| `SgwTunnels.CreateNeverFails` | openair-cn/GTPV1-U/gtpv1u_task.c:309-316 | If mapped TEIDs are live, a create never finds its TEID in the table, and mapped TEIDs are live afterwards. |
| `TunnelDelivery.EveryRunKeepsInv` | openair-cn/GTPV1-U/gtpv1u_eNB.c:655-813 | Over any interleaving of S-GW and eNB requests with fewer than 2^32 draws: TEIDs are handed out once, in order; every mapped TEID belongs to the bearer it was handed out for; bearers hold the TEIDs of their latest create; the S-GW table pairs only TEIDs answered together. |
| `TunnelDelivery.DownlinkReachesItsBearer` | openair-cn/GTPV1-U/gtpv1u_task.c:484-526 | No misdelivery: in every such run a downlink packet for S-GW TEID S is dropped or reaches radio bearer d of a UE whose bearer d + 4 was created with S. |
| `TunnelDelivery.UplinkUsesLatestTeid` | openair-cn/GTPV1-U/gtpv1u_eNB.c:981-1001 | In every such run, by the history alone: an uplink packet of a UE that never had a bearer goes nowhere; for identifiers 3 to 31 it leaves with the S-GW TEID of the latest create not deleted since, or 0, for the IPv4 address last carried by a create since the last delete, or 0; 32 reads past the array; others are ignored. |
| `TunnelDelivery.BearersFollowHistory` | openair-cn/GTPV1-U/gtpv1u_eNB.c:688-715 | In every such run, by the history alone: both addresses, both TEIDs and the state of every bearer. Deleting leaves the IPv6 address behind. |
| `TunnelDelivery.DirectionsMeet` | openair-cn/GTPV1-U/gtpv1u_eNB.c:310-334 | If moreover every create named distinct bearers without a TEID, the bearer a downlink packet for S reaches sends its own uplink to S. |
| `TunnelDelivery.SgwCreatesSucceed` | openair-cn/GTPV1-U/gtpv1u_task.c:309-316 | In every run, however many TEIDs were drawn, the next S-GW create is a success. |
| `EnbInstances.LookupSound` | openair-cn/S1AP/s1ap_eNB_management_procedures.c:47-68 | A hit carries the key that was compared: the connection id if the probe's association id is -1, else the association id. |
| `EnbInstances.AssocLookupExactIff` | openair-cn/S1AP/s1ap_eNB_management_procedures.c:89-115 | A descriptor is found by association id in every shape of the tree if and only if earlier descriptors have smaller association ids and later ones larger; unassociated ones count as -1. |
| `EnbInstances.CnxLookupExact` | openair-cn/S1AP/s1ap_eNB_management_procedures.c:47-68 | In a tree sorted by connection id, the lookup by connection id finds a position if and only if it holds that id, whatever association ids were written into the nodes. |
| `S1SetupAccounting.EnbS1ap.RegisterOneMme` | openair-cn/S1AP/s1ap_eNB.c:91-138 | Realises the RegisterMme step: next connection id in 16 bits, insertion, both counters. |
| `S1SetupAccounting.EnbS1ap.HandleRegisterEnb` | openair-cn/S1AP/s1ap_eNB.c:141-194 | Finds or creates the instance, stops the process if a repeated registration changes the configuration or lists more than 10 addresses, and otherwise performs one registration step per address, in a chain from the old state to the new. |
| `S1SetupAccounting.EnbS1ap.HandleSctpAssociationResp` | openair-cn/S1AP/s1ap_eNB.c:197-229 | Equals Handle on the values: an unknown instance or connection stops the process; otherwise the association is recorded, or the setup accounting runs. |
| `S1SetupAccounting.EnbS1ap.HandleSetupMessage` | openair-cn/S1AP/s1ap_eNB_handlers.c:140-182 | Counters, state and messages to the application change as SetupMessage says; the pending counter at 0 stops the process. |
| `S1SetupAccounting.EnbS1ap.HandleS1SetupResponse` | openair-cn/S1AP/s1ap_eNB_handlers.c:258-353 | A response on another stream or for an unknown association is a no-op, one without exactly one served GUMMEI item stops the process; else the served GUMMEI, capacity, state and counters change as Handle says. |
| `S1SetupAccounting.CopyServed` | openair-cn/S1AP/s1ap_eNB_handlers.c:286-334 | The three copying loops yield lists of the right length all of whose entries are the first one of the message. |
| `S1SetupAccounting.EnbS1ap.HandleS1SetupFailure` | openair-cn/S1AP/s1ap_eNB_handlers.c:221-255 | A failure for an unknown association is a no-op; else the MME is back to WAITING and counts as answered. |
| `S1SetupLaws.OutcomeKeepsInv` | openair-cn/S1AP/s1ap_eNB_handlers.c:140-182 | An outcome for an MME without one keeps the accounts, never fails the pending check, and confirms registration exactly when no MME awaits an outcome. |
| `S1SetupLaws.ShutdownKeepsInv` | openair-cn/S1AP/s1ap_eNB_handlers.c:140-160 | A lost association keeps the accounts and reports deregistration exactly when it was the last connected one. |
| `S1SetupLaws.EveryRunKeepsAccounts` | openair-cn/S1AP/s1ap_eNB.c:117-135 | Over every run with fewer than 65536 registrations, at most one association and one outcome per MME, an unchanged configuration and one served item a response: the pending counter is the number of MMEs without an outcome, the associated counter the number of connected ones, and no check fails. |
| `S1SetupLaws.EveryNoticeIsExact` | openair-cn/S1AP/s1ap_eNB_handlers.c:140-182 | Over every such run: REGISTER_CNF is sent exactly when the pending number reaches 0 and carries the connected number, DEREGISTERED exactly when the last connected MME is lost, and messages that find no descriptor change and send nothing. |
| `S1SetupLaws.CnxLookupsAreExact` | openair-cn/S1AP/s1ap_eNB.c:207-228 | Over every such run the lookup by connection id is exact. |
| `S1SetupLaws.PendingCheckFailsIff` | openair-cn/S1AP/s1ap_eNB_handlers.c:160-175 | In a state of such a run the pending counter is 0, so that one more outcome would stop the process, if and only if every MME of the instance has had its outcome. |
| `S1SetupLaws.ApplyWrites` | openair-cn/S1AP/s1ap_eNB_handlers.c:140-353 | A message writes the descriptor it found, as its handler says, and no other descriptor and no UE. |
| `S1SetupLaws.OtherStreamIsIgnored` | openair-cn/S1AP/s1ap_eNB_handlers.c:270-275 | A setup response on a stream other than 0 changes neither the eNB nor its history and sends nothing. |
| `S1SetupLookups.AlwaysGetsIff` | openair-cn/S1AP/s1ap_eNB_management_procedures.c:89-115 | A lookup by association id over all instances gets an MME in every balancing if and only if no earlier instance knows the id and the ids around the MME are ordered as the connection ids. |
| `S1SetupLookups.EveryResponseConnectsIff` | openair-cn/S1AP/s1ap_eNB_handlers.c:258-353 | In every run: the setup response of an associated MME without an outcome makes it CONNECTED and lowers the pending counter in every balancing if and only if that order holds. Otherwise some balancing loses the response or gives it to another MME. |
| `S1SetupLookups.ResponseCanBeLost` | openair-cn/S1AP/s1ap_eNB_handlers.c:277-281 | A run of two registrations and two associations after which the setup response of the second MME finds nothing: it changes nothing and the MME stays pending. |
| `MmeSelection.Skips` | openair-cn/S1AP/s1ap_eNB_nnsf.c:56-81 | The nested tests at the head of each loop skip an MME exactly when its state or overload forbids the cause. |
| `MmeSelection.OverloadLevelsNest` | openair-cn/S1AP/s1ap_eNB_nnsf.c:56-81 | Which causes an overloaded MME turns away: none, data, data and signalling, or all but emergency, MT and delay tolerant access. |
| `MmeSelection.SelectMme` | openair-cn/S1AP/s1ap_eNB_nnsf.c:48-95 | The loop returns the first eligible MME of the highest capacity, and NULL exactly when no eligible one has a positive capacity. |
| `MmeSelection.SelectMmeByCode` | openair-cn/S1AP/s1ap_eNB_nnsf.c:98-163 | The loops return the first eligible MME that serves the code, else what SelectMme returns. |
| `MmeSelection.SelectMmeByGummei` | openair-cn/S1AP/s1ap_eNB_nnsf.c:166-253 | The loops return the first eligible MME with one served GUMMEI that holds the PLMN, group and code, else what SelectMme returns. |
| `MmeSelection.SelectForFirstRequest` | openair-cn/S1AP/s1ap_eNB_nas_procedures.c:69-106 | The chain GUMMEI, S-TMSI, capacity meets a description of the chosen MME that does not mention the stages. |
| `MmeSelection.ChainChoiceIsUnique` | openair-cn/S1AP/s1ap_eNB_nas_procedures.c:69-106 | That description determines the choice. |
| `MmeSelection.ChoiceIsEligible` | openair-cn/S1AP/s1ap_eNB_nnsf.c:56-81 | No MME whose state or overload forbids the cause is chosen. |
| `MmeSelection.NoChoiceIff` | openair-cn/S1AP/s1ap_eNB_nas_procedures.c:108-117 | NULL if and only if no eligible MME has positive capacity and no identity of the request matches an eligible one. |
| `MmeSelection.TmsiIsIgnoredAfterGummei` | openair-cn/S1AP/s1ap_eNB_nas_procedures.c:72-95 | With a GUMMEI and an eligible MME of positive capacity, the S-TMSI cannot change the answer. |
| `UeAdmission.CollidesIff` | openair-cn/S1AP/s1ap_eNB_ue_context.c:50-60 | An insertion collides if and only if the 24-bit id is in use, in every shape of the UE tree. |
| `UeAdmission.DrawUeId` | openair-cn/S1AP/s1ap_eNB_nas_procedures.c:128-142 | The do-while loop takes the first random value whose low 24 bits are unused. |
| `UeAdmission.HandleNasFirstReq` | openair-cn/S1AP/s1ap_eNB_nas_procedures.c:51-213 | The chosen MME meets the chain's description, NULL changes nothing, and otherwise one UE with an unused id and the next stream enters the sorted UE tree while nothing else changes. |
| `UeAdmission.ReleaseUe` | openair-cn/S1AP/s1ap_eNB_nas_procedures.c:576-645 | The UE with the id leaves the tree, if there is one, and the other UEs stay in order. |
| `UeAdmission.StreamIsRoundRobin` | openair-cn/S1AP/s1ap_eNB_nas_procedures.c:206-207 | The k-th UE of an association gets stream ((k - 1) mod out_streams) + 1, so stream 0 is never used. |
| `UeAdmission.UesOnStream` | openair-cn/S1AP/s1ap_eNB_nas_procedures.c:206-207 | The number of the first k UEs on a stream, in closed form. |
| `UeAdmission.EveryStreamOncePerRound` | openair-cn/S1AP/s1ap_eNB_nas_procedures.c:206-207 | Any out_streams consecutive UEs use every stream exactly once. |
| `UeAdmission.LoadsAreBalanced` | openair-cn/S1AP/s1ap_eNB_nas_procedures.c:206-207 | At any time two streams differ by at most one UE. |
| `UeAdmission.SetupMessagesKeepStreams` | openair-cn/S1AP/s1ap_eNB_handlers.c:140-353 | Setup responses, setup failures and lost associations leave every stream and every UE as they are. |
| `UeAdmission.AdmissionKeepsAccounts` | openair-cn/S1AP/s1ap_eNB_nas_procedures.c:51-213 | Admitting a UE keeps the S1 Setup invariant of its instance. |
| `UeAdmission.AdvertisedGummeiKnownIff` | openair-cn/S1AP/s1ap_eNB_handlers.c:286-334 | After a setup response its MME serves a GUMMEI if and only if it served it before or the GUMMEI consists of the first PLMN, first group and first code advertised. |
| `EnbRuns.EveryRunStaysInTurn` | openair-cn/S1AP/s1ap_eNB_nas_procedures.c:128-207 | Over every run of the whole eNB, in which MMEs register, come up, answer and are lost while UEs are admitted and released: the S1 Setup invariant holds and no check fails, the UE trees stay strictly sorted by id, so live UEs have distinct ids, and each MME stands at the stream of the last UE it was given. |
| `EnbRuns.EveryNoticeStaysExact` | openair-cn/S1AP/s1ap_eNB_handlers.c:140-182 | In every such run the messages to the application are exact. |
| `EnbRuns.EveryAdmissionIsInTurn` | openair-cn/S1AP/s1ap_eNB_nas_procedures.c:206-207 | In every such run the k-th UE given to an MME, counted over the events, has stream ((k - 1) mod out_streams) + 1 and an id that no live UE of the instance has. |
| `EnbRuns.EveryRunIsReadyForUes` | openair-cn/S1AP/s1ap_eNB_nas_procedures.c:206-207 | In every such run in which associations come up with a stream, every MME the selection may choose has a stream, and the UE tree is sorted: what HandleNasFirstReq requires. |
| `EnbHistory.UesAreThoseAdmitted` | openair-cn/S1AP/s1ap_eNB_nas_procedures.c:128-207 | In every run the UEs stored in an instance are exactly those admitted to it and not released since, each with the connection of its own MME and its own stream. |
| `EnbHistory.DescriptorsFollowHistory` | openair-cn/S1AP/s1ap_eNB_handlers.c:258-353 | In every run every MME descriptor has the association id and both stream numbers its association came up with, the capacity and one served item of its setup response, and is WAITING, CONNECTED or DISCONNECTED according to whether it answered and was lost after that. |
| `MmeEnbRegistry.EnbList.FindId` | openair-cn/S1AP/s1ap_mme.c:274-287 | Returns the first entry with the eNB id. |
| `MmeEnbRegistry.EnbList.FindAssoc` | openair-cn/S1AP/s1ap_mme.c:289-302 | Returns the first entry with the association id. |
| `MmeEnbRegistry.EnbList.RemoveAt` | openair-cn/S1AP/s1ap_mme.c:423-441 | One entry leaves the list, the others keep their order, the counter is lowered. |
| `MmeEnbRegistry.EnbList.HandleNewAssociation` | openair-cn/S1AP/s1ap_mme_handlers.c:767-802 | Realises the NewAssociation step: a known association is reset, a new one appended with eNB id 0. What the step leaves is stated by IndicationRecordsStreams. |
| `MmeEnbRegistry.EnbList.GenerateResponse` | openair-cn/S1AP/s1ap_mme_handlers.c:349-422 | The entry becomes READY, or is removed when the response cannot be encoded. |
| `MmeEnbRegistry.EnbList.HandleSetupRequest` | openair-cn/S1AP/s1ap_mme_handlers.c:216-346 | Equals HandleSetup on the values: every failure cause, the rejected duplicate, and the response. |
| `MmeEnbRegistry.EnbList.HandleDisconnection` | openair-cn/S1AP/s1ap_mme_handlers.c:714-765 | Realises the Disconnection step on the list. |
| `MmeEnbRegistry.EveryRunKeepsInv` | openair-cn/S1AP/s1ap_mme_handlers.c:300-340 | After every run: unique association ids, every READY eNB first among the entries with its eNB id, and the counter equal to the list length modulo 2^32. |
| `MmeEnbRegistry.EveryRunIsConsistent` | openair-cn/S1AP/s1ap_mme_handlers.c:300-340 | After every run, in terms of the searches: a READY eNB is the entry its id finds, no two READY eNBs share an id, no two entries an association, and the counter is the length. |
| `MmeEnbRegistry.ResponseIff` | openair-cn/S1AP/s1ap_mme_handlers.c:216-346 | A setup request is answered with a response if and only if the configuration admits it and the first entry with the eNB id is on the requesting association, or no entry has the id and the association is known. |
| `MmeEnbRegistry.AnswersIff` | openair-cn/S1AP/s1ap_mme_handlers.c:216-346 | The exact condition on list and configuration for each failure cause and for no answer; a failed request changes nothing. |
| `MmeEnbRegistry.SetupConcernsOne` | openair-cn/S1AP/s1ap_mme_handlers.c:300-340 | A setup request changes the list at one association only. |
| `MmeEnbRegistry.IndicationRecordsStreams` | openair-cn/S1AP/s1ap_mme_handlers.c:767-802 | After an association indication the one entry on the association has its in and out streams and next stream 1, its old eNB id and state or 0 and RESETING, and all other entries stay. |
| `MmeEnbRegistry.EveryEntryHasLatestStreams` | openair-cn/S1AP/s1ap_mme_handlers.c:792-796 | After every run the streams of an entry are those of the latest indication for its association. |
| `MmeEnbRegistry.ResponseMeansReady` | openair-cn/S1AP/s1ap_mme_handlers.c:349-422 | After a response the requesting association is READY under the requested id. |
| `MmeEnbRegistry.ReadyLostIff` | openair-cn/S1AP/s1ap_mme_handlers.c:300-340 | A step takes READY away from an eNB if and only if its association is lost, or an admitted setup request names its eNB id from another association or concerns its own association and cannot be answered. |
| `MmeEnbRegistry.ForeignRequestResetsSilently` | openair-cn/S1AP/s1ap_mme_handlers.c:320-340 | An admitted setup request for the id of a READY eNB from another association resets that eNB and nothing else, and is not answered. |
| `ApnCodec.JoinOfSplit` | openair-cn/S11/s11_ie_formatter.c:760-798 | Joining the labels of a text gives the text back. |
| `ApnCodec.SplitOfJoin` | openair-cn/S11/s11_ie_formatter.c:760-798 | Splitting the join of labels without dots gives the labels back. |
| `ApnCodec.EncodeApn` | openair-cn/S11/s11_ie_formatter.c:760-798 | The back-patching loop fills the buffer with exactly the length-prefixed labels of the text, empty labels included. |
| `ApnCodec.EncodedIsShifted` | openair-cn/S11/s11_ie_formatter.c:774-795 | The encoding position by position: every octet but the dots (46) stands one later, and at the start and in place of each dot stands the distance to the next dot or the end. |
| `ApnCodec.DecodeApn` | openair-cn/S11/s11_ie_formatter.c:727-758 | The decoding loop leaves the decoded text and a NUL in the buffer, and the reader of the C string sees that text up to its first NUL. |
| `ApnCodec.DecodeInvertsEncode` | openair-cn/S11/s11_ie_formatter.c:727-798 | For every NUL-free text of at most 99 octets, decoding its encoding returns it. |
| `ApnCodec.ReencodeIff` | openair-cn/S11/s11_ie_formatter.c:727-798 | For octets of length 1 to 100, re-encoding what was decoded returns them if and only if the length octets partition them and no label holds a dot or a NUL. |
| `ApnCodec.CodecIsBijective` | openair-cn/S11/s11_ie_formatter.c:727-798 | On those texts and those octets the codec is a bijection. |
| `ImsiDigits.DecodeImsi` | openair-cn/S11/s11_ie_formatter.c:47-79 | The mask-flipping loop leaves the digits of all half octets in the buffer, minus a final filler, and does not touch the rest. |
| `ImsiDigits.EncodeImsi` | openair-cn/S11/s11_ie_formatter.c:81-107 | The OR loop produces the packed digits with 0 in an unused last half. |
| `ImsiDigits.OctetsHoldDigits` | openair-cn/S11/s11_ie_formatter.c:95-99 | Digit 2j is in the low half of octet j and digit 2j + 1 in the high half, as values 0 to 9. |
| `ImsiDigits.DigitsOfOctets` | openair-cn/S11/s11_ie_formatter.c:58-73 | The decoded characters are 48 plus the halves in that order; a last half of 15 is dropped. |
| `ImsiDigits.DecodeInvertsStandard` | openair-cn/S11/s11_ie_formatter.c:58-73 | The decoder inverts the coding of 3GPP TS 29.274 section 8.3 (filler 0xF) on every digit string. |
| `ImsiDigits.DecodeOfEncoded` | openair-cn/S11/s11_ie_formatter.c:91-99 | Decoding what the encoder wrote gives d for an even and d followed by 0 for an odd number of digits, so it is the identity if and only if the number is even. |
| `ImsiDigits.ReencodeDigitsIff` | openair-cn/S11/s11_ie_formatter.c:47-107 | On all octets: the standard coding restores what was decoded, and the encoder does if and only if the last half octet is not the filler. |
| `GroupedIe.BearerContext.GetFteid` | openair-cn/S11/s11_ie_formatter.c:603-643 | Flags, interface type and big-endian TEID are taken over; an address that is not announced keeps its old value. Where each field comes from is stated by FoldOfLast, FoldOfLastIpv4 and FoldOfLastIpv6. |
| `GroupedIe.BearerContext.GetMember` | openair-cn/S11/s11_ie_formatter.c:364-381 | One turn of the switch of each of the three functions: a type the context holds is decoded, any other changes nothing and is refused. |
| `GroupedIe.BearerContext.Get` | openair-cn/S11/s11_ie_formatter.c:355-486 | The walk, with its 8-bit cursor, whenever it ends: the context is the fold of the members before the first stop, and the result is an error exactly when that stop is an unexpected type. |
| `GroupedIe.WalkEndsIff` | openair-cn/S11/s11_ie_formatter.c:364-384 | On any octets the walk ends if and only if it ends within ieLength members; otherwise the cursor cycles. |
| `GroupedIe.NeverEndsIffRepeats` | openair-cn/S11/s11_ie_formatter.c:364-384 | It never ends if and only if an offset repeats before any stop. |
| `GroupedIe.UnwrappedWalkEnds` | openair-cn/S11/s11_ie_formatter.c:383 | If no member on the way carries the cursor past 255, the walk ends. |
| `GroupedIe.StandstillNeverEnds` | openair-cn/S11/s11_ie_formatter.c:383 | An accepted member whose length is 252 modulo 256 leaves the cursor where it is, and the walk never ends. |
| `GroupedIe.EndlessWalk` | openair-cn/S11/s11_ie_formatter.c:383 | Such octets exist: one EBI that claims 252 octets in an IE of 5. |
| `GroupedIe.FramedWalkEnds` | openair-cn/S11/s11_ie_formatter.c:364-384 | On framed members that fill the IE the walk ends. |
| `GroupedIe.FramedCursorGrows` | openair-cn/S11/s11_ie_formatter.c:364-384 | On framed members the cursor moves strictly forward and never wraps. |
| `GroupedIe.FramedWalkIsFold` | openair-cn/S11/s11_ie_formatter.c:355-486 | On framed members that fill the IE the context is the left fold of the members before the first unexpected type, and IE_INCORRECT is returned if and only if there is one. |
| `GroupedIe.FoldOfLast` | openair-cn/S11/s11_ie_formatter.c:364-381 | The last EBI (type 73), cause (2) and F-TEID (87) of the fold win, with the bits and octets each field comes from. |
| `GroupedIe.FoldOfLastIpv4` | openair-cn/S11/s11_ie_formatter.c:618-626 | The IPv4 address kept is that of the last F-TEID that announced one, even if a later F-TEID has none. |
| `GroupedIe.FoldOfLastIpv6` | openair-cn/S11/s11_ie_formatter.c:628-640 | The IPv6 address kept is that of the last F-TEID that announced one, at octet 9 if it also announced an IPv4 address and at octet 5 if not. |
| `GroupedIe.FoldOfAbsent` | openair-cn/S11/s11_ie_formatter.c:355-486 | A field whose member does not occur keeps its value. |
| `BitStrings.BitStringToUint` | common/utils/asn1_conversions.h:80-93 | The shift-and-OR loop over any number of octets equals their big-endian value divided by 2^bits_unused. |
| `BitStrings.BitStringToUint32` | common/utils/asn1_conversions.h:73-96 | The 32-bit function returns that value exactly. |
| `BitStrings.BitStringToUint16` | common/utils/asn1_conversions.h:52-71 | The fall-through switch of the 16-bit function returns it too. |
| `BitStrings.BitStringToUint8` | common/utils/asn1_conversions.h:43-47 | So does the 8-bit expression. |
| `BitStrings.ValueFits` | common/utils/asn1_conversions.h:43-96 | The value fits the width of its octets, so none of the results is truncated. |
| `BitStrings.EnbIdsAgree` | openair-cn/S1AP/s1ap_mme_handlers.c:248-268 | The hand-written 20-bit and 28-bit eNB id decoders agree with the general conversion of a string with four unused bits. |

## Left out

- ITTI, SCTP, UDP, timers, logging and task loops: plumbing. Handlers are steps, sent messages results.
- The nw-gtpv1u stack: only its set of live endpoints; its handle lookup on destroy, and its own assertion on a collision, are not modelled.
- Hash tables: mathematical maps. openair-cn/UTILS/HASHTABLE/hashtable.c lines 186-212 compares keys with `!=` when it removes, so a remove may take another entry of the same bucket; the delivery theorems allow entries of the S-GW's table to vanish (event `SgwEntryLost`), the eNB's tables are taken as maps.
- `max_val_DRB_Identity`: its header is not in the repository; 32 is taken, as the comment at openair-cn/GTPV1-U/gtpv1u_eNB_defs.h lines 84-87 suggests. Bearer ids outside the array are excluded by type, as are transport address lengths on which the handler aborts.
- EnbTunnels.EnbGtpu.ReleaseBearer: does not model the 32-bit width of `num_bearers`, which only ever falls.
- EnbTunnels.EnbGtpu.TearDownTunnel: the stack's own handle lookup on destroy is replaced by the live-set rule.
- SgwTunnels.SgwGtpu.DeleteTunnel: takes out the entry asked for, where the hash table library may take out another one of its bucket.
- The radio bearer for EPS bearer id 0 (1 in the handler): id 0 never gets into the table, whose ids start at 3.
- Red-black balancing: replaced by any tree with the same in-order sequence.
- Pointers between records: UE contexts, MME descriptors, eNB entries and tunnel endpoints are values in the trees, lists and maps that hold them; the eNB's UE records and bearer arrays are real objects. A UE's reference to its MME is the connection id.
- DISABLE_USE_NAS branches, and the fields of a UE context that are not keys.
- The S11 TEID an update location answer writes is a parameter, the original uses the address of the context.
- S1SetupAccounting.EnbS1ap.HandleS1SetupResponse: the MME name is not modelled; nothing reads it.
- A release complete or initial UE message that cannot be encoded.
- `random()`: a sequence of values given to the method. That a usable association has at least one outgoing stream is SCTP's promise.
- openair-cn/S1AP/s1ap_mme_handlers.c lines 714-765: deregistration batching of a lost eNB's UEs, and UE lists altogether (`s1ap_remove_ue` does not unlink).
- MmeEnbRegistry.EnbList.GenerateResponse: does not model the read of the removed entry after a failed encoding.
- MmeEnbRegistry.EnbList.HandleDisconnection: does not model the deregistration messages for the eNB's UEs.
- Overload handlers: their dispatch rows are empty; OVERLOAD is an input state of the selection.
- The TEID 0: the counter reaches it only after 2^32 draws; CreateAllKeepsInverseIff excludes a draw of it.
- APN texts longer than 255 octets, whose length does not fit the IE.
- What the octets beyond the IE hold: the grouped IE walk reads them as given; 284 octets from the start of the value must be readable.
- GroupedIe.BearerContext.Get: states nothing about octets on which the walk never ends.
- Serving network, RAT type, PDN type, PAA, QoS and other S11 codecs: finite tables or plain copies.
- `BIT_STRING_to_uint64`: shifts an int past its width.
- Address pool expansion, key derivation and authentication contents.
