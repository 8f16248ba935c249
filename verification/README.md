# A Dafny model of the messaging platform's core protocols

This project models, in Dafny, the parts of the platform whose correctness does not show in any one function body: shared
state under interleaving, address policy, durable messaging, and text formats that must survive a round trip. Each module
stands for one source file or one protocol.

| module | what it models |
|---|---|
| `RealmKeySet`, `RealmKeySetRuns` | the identity provider's signing keys through an outage of their endpoint: cached keys, one shared fetch, fallback on the last good keys, throttled background retries |
| `IpAddress`, `Ipv6Prefix`, `OutboundGuard` | address text, 16-bit prefix masks, and the policy that vets every resolved address before a socket is opened |
| `AllowlistConfig` | the second CIDR parser, on big integers, and its agreement with the first |
| `Webhook` | webhook ingestion with a claim per delivery and a claim per event |
| `Idempotency` | the pruning TTL store those claims live in |
| `OutboxRelay` | the relay over the durable outbox |
| `Campaign` | the campaign life cycle under interleaved requests |
| `FanOut` | batch claims, send pacing and continuation of a running campaign |
| `DripSequence` | drip sequences |
| `RoundRobin` | the assignment cursor |
| `Csv` | contact export and import (quoting as in section 2 of RFC 4180) |
| `UserAdmin`, `UserRequests` | who may create, change and suspend users; the requests that do, interleaved |
| `Flows` | the chatbot flow validator and stepper |
| `SseHub` | the registry of event streams |
| `Text`, `Bits`, `Options` | strings, powers of two, and result shapes shared by the above |

**How it is built.** Code that changes state is a class whose fields are the source's own variables and whose methods have
the source's branches and loops. Each method's contract gives its whole new state through a specification function; the
properties are then lemmas about that function over every run, every interleaving or every input. Code made of expressions
is a function. Protocols shared by several processes are step relations: one step is one database transaction, one publish,
one key-set fetch completing, or one clock tick, and any number of them interleave.

**What pins the rules down.** For each main operation there are two kinds of statement. One is about runs: what never
happens, what always holds, what must come about. The other says exactly when and what the operation does, in terms of the
run so far and the source's constants rather than of the functions the methods share with their contracts; these are the
lemmas named `...Exactly`.

**Where the code and its documentation part ways**, the model follows the code, and a lemma says exactly when the promise
holds:

* A campaign cancel is documented to drain the funnel to zero pending. It does exactly when no request in flight is still to
  insert a new contact (`Campaign.CancelDrainsExactly`): a run request that passed its status check before the cancel inserts
  its recipients afterwards (`Campaign.LateInsertStaysPending`), and unless such a recipient's own outcome is written it stays
  pending for good (`Campaign.PendingForGood`).
* A running campaign is meant to have been announced to a worker. It has been, in every run, exactly when no test send is made
  while it is a draft or scheduled (`Campaign.RequestedExactly`). Such a test send makes it running with no run event
  (`Campaign.TestSendStartsNothing`), and none is added unless somebody pauses it (`Campaign.TestSendStrands`).
* The remedy for a refused address works exactly when no named address carries a zone id (`OutboundGuard.RemedyWorks`,
  `AllowlistConfig.RemedyInTheVariable`). A zoned one is named all the same (`OutboundGuard.ZonedRemedyFails`); the default
  resolver prints none, so it takes an injected one to meet this.
* The two CIDR parsers accept the same entries exactly but for a prefix length written with a leading zero
  (`AllowlistConfig.ParsersAgree`, `AllowlistConfig.LeadingZeroDiffers`).
* A quoted cell with a line feed is exported but not imported whole (`Csv.LineFeedIsLost`); the exact class of contacts that
  survive is `Csv.FileRoundTrip`.
* Advancing a flow computes what the flow means exactly when the empty id names nothing but an end node and no question falls
  back to it (`Flows.EmptyIdExactly`). Validation demands neither: a message with the empty id is never sent
  (`Flows.EmptyIdNotRun`), and a question that falls back to the empty id waits on instead (`Flows.EmptyFallbackNotTaken`).
  And a question reached after ten other nodes is lost with its session (`Flows.CapLosesLateQuestions`,
  `Flows.QuestionBeyondCapIsLost`).
* A processed outbox row can go back to pending: exactly when a pass that also claimed it, and went stale, is still to record a
  failure (`OutboxRelay.StaysProcessedExactly`, `OutboxRelay.ProcessedComesBack`). Consumers absorb the second publish.
* An active platform owner always remains under session-authenticated changes taken one at a time (`UserAdmin.OwnerRemains`).
  With callers from the identity provider it does exactly when no accepted update of theirs takes the last one out
  (`UserAdmin.AlwaysOwnedExactly`). When requests interleave it does exactly when no request takes the last one out on a stale
  reading: its caller suspended since the re-check, its caller's roles changed since they were resolved, or its target's since
  they were decided on (`UserRequests.SessionsLoseOnlyByStaleWrites`). Two owners who suspend each other, both re-checked
  before either writes, leave none; so does an owner who suspends the other after losing the role, because the re-check reads
  the status alone (`UserRequests.BothCheckedFirst`, `UserRequests.RolesTakenMeanwhile`).

Every message and status of an answered webhook delivery has been published as itself, once
(`Webhook.EveryEventIsPublished`), given an ingestor that verifies signatures as the gateway has just done, which every wiring
in the repository does. The gateway's block also has a branch for an injected
proxy that answers that the signature is invalid, and keeps the claim then; what that would mean is stated too
(`Webhook.AnswersAreTrue`, `Webhook.RefusedIsSwallowed`, `Webhook.RefusedIsLost`).

The rate limit is stated per fan-out chain. A resume before the old continuation fires leaves two chains: any number of them
still claim nobody twice exactly while no claim goes stale (`FanOut.ChainsClaimOnceExactly`), n of them stamp at most n times
the rate (`FanOut.ChainsShareNoRate`), and two woken together reach twice the rate (`FanOut.TwoChainsDouble`). The limiter at
send time, which defers whatever exceeds the rate then, is not part of this model.

## Model

| member | source | states |
|---|---|---|
| RealmKeySet.KeySetClosure.FetchSucceeded | packages/auth/src/realm-key-set.ts:124-131 | a key set from the realm ends any outage and dates the keys |
| RealmKeySet.KeySetClosure.RetryInBackground | packages/auth/src/realm-key-set.ts:150-165 | a retry starts exactly when none is under way and the interval since the last attempt has passed; otherwise nothing changes |
| RealmKeySet.KeySetClosure.FromLastGoodKeys | packages/auth/src/realm-key-set.ts:168-177 | the fallback keys' own verdict, except that an unknown key id is answered with the outage |
| RealmKeySet.KeySetClosure.DuringOutage | packages/auth/src/realm-key-set.ts:180-198 | a failed fetch starts or continues the outage and answers from the last good keys, or with the failure |
| RealmKeySet.KeySetClosure.Resolve | packages/auth/src/realm-key-set.ts:200-239 | what a token does on arrival: fallback answer, cached answer, or waiting on the shared fetch |
| RealmKeySet.KeySetClosure.CompleteOk | packages/auth/src/realm-key-set.ts:134-147 | a fetch that succeeds wakes every waiter at once, each with the new set's answer |
| RealmKeySet.KeySetClosure.CompleteFailed | packages/auth/src/realm-key-set.ts:156-198 | a fetch that fails wakes every waiter into the outage, and records the error of a background retry |
| RealmKeySetRuns.Drive | packages/auth/src/realm-key-set.ts:77-240 | driven by any events, the module's variables go exactly through the states of the run, and keep the invariant |
| RealmKeySetRuns.RunKeeps | packages/auth/src/realm-key-set.ts:93-239 | every run keeps: outage and keys match the completed fetches, retries are throttled, answers justified |
| RealmKeySetRuns.OutageExactly | packages/auth/src/realm-key-set.ts:124-239 | an outage is recorded exactly when the last fetch to complete failed, with its error, since the first failure in a row |
| RealmKeySetRuns.EveryAnswerJustified | packages/auth/src/realm-key-set.ts:99-117 | every answer of every run comes from keys younger than the cache age, from a set fetched for that request, or, in an outage only, from keys younger than the stale limit |
| RealmKeySetRuns.VerdictsExactly | packages/auth/src/realm-key-set.ts:99-239 | every verdict of every run is that of the keys fetched last: the token's own key, no match exactly when they do not hold it, or that key's error; a token without one has the error of the last failed fetch |
| RealmKeySetRuns.RunningOutExactly | packages/auth/src/realm-key-set.ts:180-214 | in any run the running out of the fallback keys is reported by the first token of the outage that finds them too old, and by no other |
| RealmKeySetRuns.ClockExactly | packages/auth/src/realm-key-set.ts:77-240 | time passes only between the steps |
| RealmKeySetRuns.NoMatchNeedsTheRealm | packages/auth/src/realm-key-set.ts:167-177 | "no matching key" is never a verdict of the fallback keys |
| RealmKeySetRuns.RetriesSpaced | packages/auth/src/realm-key-set.ts:149-155 | any two background retries of a run start at least the retry interval apart, across outages too |
| RealmKeySetRuns.AnsweredOnce | packages/auth/src/realm-key-set.ts:200-239 | every token of every run is answered exactly once or is still waiting |
| RealmKeySetRuns.ArrivalExactly | packages/auth/src/realm-key-set.ts:149-239 | in any run a token is answered at once exactly when the last good keys or the cached ones can answer it, and starts a retry exactly when the last good keys do, none is under way and the last attempt of any kind is an interval old |
| RealmKeySetRuns.RecoveryIsLookedFor | packages/auth/src/realm-key-set.ts:149-204 | in any run, in an outage with every completion and retry an interval old, the next token is answered at once and starts a fetch |
| RealmKeySetRuns.FetchEndsWaiting | packages/auth/src/realm-key-set.ts:134-198 | a fetch that completes leaves no retry under way and nobody waiting, but for those who must ask again |
| IpAddress.ParseIPv4Loop | packages/shared-core/src/outbound-url.ts:311-328 | the loop over the octets computes it |
| IpAddress.PrintParseIPv4 | packages/config/src/outbound-allowlist.ts:173-176 | every 32-bit number prints as a dotted quad that reads back as it |
| IpAddress.ParsePrintIPv4 | packages/shared-core/src/outbound-url.ts:311-328 | every well-formed dotted quad is the print of the number it reads as |
| IpAddress.ParseGroupsLoop | packages/shared-core/src/outbound-url.ts:354-371 | the loop over the groups computes them |
| IpAddress.LongestRun | packages/config/src/outbound-allowlist.ts:154-159 | the first longest run of zero groups, which section 4 of RFC 5952 compresses |
| IpAddress.ParseCompressed | packages/shared-core/src/outbound-url.ts:339-380 | any text that writes one run of zeros as "::" reads back as its eight groups (section 2.2 of RFC 4291) |
| IpAddress.ParseFull | packages/shared-core/src/outbound-url.ts:339-380 | the full form reads back as its eight groups |
| IpAddress.CanonicalParses | packages/shared-core/src/outbound-url.ts:339-380 | the canonical text of any eight groups is well formed and reads back as them |
| IpAddress.ForeignToAddress | packages/shared-core/src/outbound-url.ts:549-577 | no address contains a character, such as the slash, that no address is written with |
| Ipv6Prefix.Ipv6InPrefix | packages/shared-core/src/outbound-url.ts:583-593 | the per-group mask loop holds exactly when the two 128-bit values have equal quotients by 2^(128-prefix), and its host-bit mode exactly when that power divides the value (section 2.3 of RFC 4291) |
| Ipv6Prefix.MatchByGroups | packages/shared-core/src/outbound-url.ts:583-593 | network parts are equal over n groups exactly when they are equal group by group |
| Ipv6Prefix.ClearByGroups | packages/shared-core/src/outbound-url.ts:583-593 | n groups have no host bit exactly when none of them has one |
| Ipv6Prefix.MaskSpec | packages/shared-core/src/outbound-url.ts:586-591 | masking a group drops exactly the bits below the prefix, and the inverse mask keeps exactly them |
| OutboundGuard.CompileCidrs | packages/shared-core/src/outbound-url.ts:506-526 | the loop over the entries computes the compiled ranges, or the first entry's error |
| OutboundGuard.CompileSpec | packages/shared-core/src/outbound-url.ts:506-526 | compiling succeeds exactly when every entry parses, and then holds exactly the entries' ranges |
| OutboundGuard.RefusedSpec | packages/shared-core/src/outbound-url.ts:731-735 | exactly the refused addresses of an answer, each once |
| OutboundGuard.OfFamily | packages/shared-core/src/outbound-url.ts:737-737 | exactly the answers of the requested family |
| OutboundGuard.RefusedInOrder | packages/shared-core/src/outbound-url.ts:731-735 | the refused addresses are named in the order in which they first appear |
| OutboundGuard.FamilyInOrder | packages/shared-core/src/outbound-url.ts:737-737 | choosing a family keeps the order of the answers |
| OutboundGuard.LookupExactly | packages/shared-core/src/outbound-url.ts:696-765 | a lookup connects exactly when no address is refused and one is of the family asked for, to the first such or to all; otherwise it names up to eight refused addresses, counts the rest, and offers the remedy exactly when none is left out and each may be listed |
| OutboundGuard.HardFloorReserved | packages/shared-core/src/outbound-url.ts:296-309 | the hard floor lies inside what is refused without an allowlist, in both families and every embedding |
| OutboundGuard.NeverAdmitted | packages/shared-core/src/outbound-url.ts:452-476 | no allowlist admits a hard-floor address or an IPv6 spelling of an IPv4 loopback address |
| OutboundGuard.EntryParses | packages/shared-core/src/outbound-url.ts:549-577 | a well-formed address is an allowlist entry for exactly itself |
| OutboundGuard.ListedAdmits | packages/shared-core/src/outbound-url.ts:633-665 | an address whose own entry is listed, and which the remedy is offered for, is admitted |
| OutboundGuard.AdmissionGrows | packages/shared-core/src/outbound-url.ts:633-665 | adding entries withdraws no admission |
| OutboundGuard.AdmittedExactly | packages/shared-core/src/outbound-url.ts:614-665 | an address is allowlisted exactly when it is off the hard floor and some entry of its family covers it, which lies wholly in loopback if the address is loopback, and inside the address's transition form if it has one |
| OutboundGuard.BlockedIPv4Exactly | packages/shared-core/src/outbound-url.ts:63-91 | what is refused in IPv4 without an allowlist, octet by octet |
| OutboundGuard.HardFloorIPv4Exactly | packages/shared-core/src/outbound-url.ts:93-110 | which IPv4 addresses no allowlist opens, octet by octet |
| OutboundGuard.BlockedIPv6Exactly | packages/shared-core/src/outbound-url.ts:382-408 | the bit tests refuse exactly the networks outside 2000::/3, three networks inside it, and the NAT64 and 6to4 forms of refused IPv4 addresses |
| OutboundGuard.HardFloorIPv6Exactly | packages/shared-core/src/outbound-url.ts:452-476 | the bit tests put exactly fe80::/10, ff00::/8, the metadata addresses and the forms of floor IPv4 addresses on the hard floor |
| OutboundGuard.EmbeddedExactly | packages/shared-core/src/outbound-url.ts:424-441 | which networks carry an IPv4 address, and in which groups |
| OutboundGuard.FormExactly | packages/shared-core/src/outbound-url.ts:652-657 | an address has a transition form to be named exactly when it carries an IPv4 address |
| OutboundGuard.QuadExactly | packages/shared-core/src/outbound-url.ts:296-336 | a dotted quad as written is refused, and for good, exactly by its octets |
| OutboundGuard.GroupsExactly | packages/shared-core/src/outbound-url.ts:296-309 | an IPv6 address as written is judged by its eight groups |
| OutboundGuard.ZoneIgnored | packages/shared-core/src/outbound-url.ts:296-309 | a zone id changes no verdict, and what is no address is refused for good |
| OutboundGuard.RemedyExact | packages/shared-core/src/outbound-url.ts:696-706 | for well-formed addresses the "address" remedy is offered exactly when at most 8 are refused and some allowlist admits them all |
| OutboundGuard.RemedyCompiles | packages/shared-core/src/outbound-url.ts:272-274 | adding the named addresses compiles exactly when none carries a zone id |
| OutboundGuard.RemedyWorks | packages/shared-core/src/outbound-url.ts:696-735 | an allowlist with the named addresses added then lets the same answer pass |
| OutboundGuard.ZonedRemedyFails | packages/shared-core/src/outbound-url.ts:272-274 | any refused private address with a zone id is offered the remedy and does not compile as an entry |
| OutboundGuard.ZonedExample | packages/shared-core/src/outbound-url.ts:272-274 | fd00::1 with any zone id is such an address |
| OutboundGuard.ConnectIsVetted | packages/shared-core/src/outbound-url.ts:720-745 | a socket is handed only addresses of an answer none of which is refused or on the hard floor |
| AllowlistConfig.PushGroups | packages/config/src/outbound-allowlist.ts:173-182 | the loop of shifts splits a 128-bit number into its eight groups |
| AllowlistConfig.GroupAt | packages/config/src/outbound-allowlist.ts:177-180 | one shift and mask is one 16-bit digit of the number |
| AllowlistConfig.GroupsValue | packages/config/src/outbound-allowlist.ts:161-182 | the number of eight groups splits back into them |
| AllowlistConfig.ValueGroups | packages/config/src/outbound-allowlist.ts:161-182 | the groups of a 128-bit number make that number |
| AllowlistConfig.BigIntReads | packages/config/src/outbound-allowlist.ts:161-171 | both packages read the same number from the same well-formed text |
| AllowlistConfig.AddressBigIntRoundTrip | packages/config/src/outbound-allowlist.ts:154-182 | text to number to text is the canonical spelling, for IPv4 and all eight IPv6 groups |
| AllowlistConfig.BigIntAddressRoundTrip | packages/config/src/outbound-allowlist.ts:161-182 | number to text to number is the number |
| AllowlistConfig.HostMaskAgrees | packages/config/src/outbound-allowlist.ts:139-150 | the big-integer host mask asks what the group masks ask |
| AllowlistConfig.ParsersAgree | packages/config/src/outbound-allowlist.ts:132-151 | both parsers accept the same two-part entries, but for prefixes with a leading zero |
| AllowlistConfig.LeadingZeroDiffers | packages/config/src/outbound-allowlist.ts:140-142 | 10.0.0.0/08 is an entry for shared-core and none for the config parser |
| AllowlistConfig.StoredCidrReads | packages/config/src/outbound-allowlist.ts:132-151 | the stored text of an accepted entry parses in shared-core to the entry's own base and prefix |
| AllowlistConfig.StoredCidrDenotes | packages/config/src/outbound-allowlist.ts:132-151 | it covers there exactly the addresses that share the prefix with the parsed number |
| AllowlistConfig.SuggestionAccepted | packages/config/src/outbound-allowlist.ts:143-149 | the network suggested for an entry with host bits is accepted and holds the address |
| AllowlistConfig.BareAddress | packages/config/src/outbound-allowlist.ts:66-96 | a bare address is stored as the CIDR of exactly that address |
| AllowlistConfig.HostNameCompiles | packages/config/src/outbound-allowlist.ts:98-130 | a stored host name is one shared-core takes unchanged |
| AllowlistConfig.ParseOutboundWebhookAllowlist | packages/config/src/outbound-allowlist.ts:44-62 | one pass fills the three sets, or gives the first entry's error |
| AllowlistConfig.PartsCompile | packages/config/src/outbound-allowlist.ts:44-96 | every part the parser accepts compiles in shared-core |
| AllowlistConfig.ParsedCompiles | packages/shared-core/src/outbound-url.ts:506-547 | every allowlist the config parser returns compiles there without error |
| AllowlistConfig.NamesExactly | packages/config/src/outbound-allowlist.ts:97-130 | the host names the variable takes, in any letter case and with or without a final dot, and what each is stored as |
| AllowlistConfig.CoreNamesExactly | packages/shared-core/src/outbound-url.ts:533-547 | shared-core takes the same names, and those whose last label looks numeric |
| AllowlistConfig.CidrExactly | packages/config/src/outbound-allowlist.ts:132-151 | a range is taken exactly when it is an address, a slash and a whole number in range without a leading zero, with no bit of the address beyond it |
| AllowlistConfig.CoreRangesExactly | packages/shared-core/src/outbound-url.ts:549-577 | shared-core takes the same ranges, those with a leading zero and addresses alone |
| AllowlistConfig.EntriesExactly | packages/config/src/outbound-allowlist.ts:66-96 | what each part is taken for: an address or range, a name, or all names below one, and exactly which |
| AllowlistConfig.VariableExactly | packages/config/src/outbound-allowlist.ts:44-62 | the variable is accepted exactly when every part that is not blank is one of those, and its names are exactly those its parts spell, each once |
| AllowlistConfig.VariableDenotes | packages/config/src/outbound-allowlist.ts:44-151 | compiled, the whole variable covers an address exactly when one of its entries, as written, denotes it |
| AllowlistConfig.RemedyInTheVariable | packages/config/src/outbound-allowlist.ts:44-96 | appending the addresses a refusal names, none zoned, to the variable's text keeps it parsing and compiling and lets the same answer pass |
| AllowlistConfig.OctetsByShift | packages/config/src/outbound-allowlist.ts:173-176 | the printed octets of an IPv4 number are its shifts masked with 0xff |
| Webhook.Ingestor.Deliver | services/webhook-ingestor/src/ingest.ts:90-117 | one event is claimed, published and, if that throws, released |
| Webhook.Ingestor.IngestMetaWebhook | services/webhook-ingestor/src/ingest.ts:72-198 | the nested loops handle exactly the payload's events in order, up to the first publish that throws |
| Webhook.Gateway.HandlePost | services/api-gateway/src/index.ts:2211-2285 | the outer claim is kept, or released, exactly as each way of failing requires |
| Webhook.PublishedAtMostOnce | services/webhook-ingestor/src/ingest.ts:72-198 | any pattern of failures and redeliveries publishes each event key at most once, and a key is claimed exactly when published |
| Webhook.KeysTellApart | services/webhook-ingestor/src/ingest.ts:90-161 | two events have one key exactly when they are the same event: the same message, or the same status of the same message (ids present, no colon in the id) |
| Webhook.EventsExactly | services/webhook-ingestor/src/ingest.ts:72-198 | the events of a payload are exactly the messages, statuses and social messages it holds, nothing passed over and nothing made up |
| Webhook.PublishedIsNamed | services/webhook-ingestor/src/ingest.ts:72-198 | in any run whatever is published some delivery's payload holds |
| Webhook.AnsweredIsPublished | services/api-gateway/src/index.ts:2211-2285 | with no delivery refused downstream, whatever publishes fail and whatever is redelivered, one answered accepted or duplicate has every key published |
| Webhook.EveryEventIsPublished | services/api-gateway/src/index.ts:2211-2285 | so each message and each status of an answered delivery has been published as itself exactly once, whatever fails and whatever is redelivered |
| Webhook.AnswersAreTrue | services/api-gateway/src/index.ts:2215-2266 | accepted means every key is published; duplicate is answered exactly when an earlier delivery of it was accepted, and then its keys are published, or was refused downstream, never both |
| Webhook.RetryIsFresh | services/api-gateway/src/index.ts:2267-2284 | a failed delivery leaves no claim: its retry is accepted once publishing works |
| Webhook.RefusedIsSwallowed | services/api-gateway/src/index.ts:2237-2255 | in any run, after a delivery was refused downstream every later one of it is a duplicate and changes nothing |
| Webhook.RefusedIsLost | services/api-gateway/src/index.ts:2237-2255 | in any run an event unpublished when its delivery is refused downstream is never published unless a delivery of another signature carries it |
| Webhook.ClaimedExactly | services/api-gateway/src/index.ts:2215-2266 | in any run a signature is claimed exactly when a delivery of it was accepted or refused downstream, never both |
| Webhook.SummaryExactly | services/webhook-ingestor/src/ingest.ts:72-198 | the summary counts the messages and the statuses published by this ingestion, and the events that were not |
| Webhook.StopsAtFirstFailure | services/webhook-ingestor/src/ingest.ts:90-198 | an ingestion stops at the first publish that fails and at no other |
| Webhook.OnePerSuccess | services/webhook-ingestor/src/ingest.ts:90-117 | in any run one event is published for each publish that succeeded |
| Idempotency.IdempotencyStore.IsDuplicate | packages/shared-core/src/idempotency.ts:10-21 | the answer and the new store of a check, pruning included |
| Idempotency.IdempotencyStore.Release | packages/shared-core/src/idempotency.ts:29-31 | a release removes that key and nothing else |
| Idempotency.IdempotencyStore.PruneExpired | packages/shared-core/src/idempotency.ts:33-40 | deleting while iterating, in any order, removes exactly the expired keys |
| Idempotency.PruningIsInvisible | packages/shared-core/src/idempotency.ts:10-40 | with a monotone clock every trace is answered as by a store that never prunes |
| Idempotency.StoreExactly | packages/shared-core/src/idempotency.ts:10-40 | after any trace the store holds exactly what one that never prunes holds, but for claims expired by the last prune, made by each call an interval after the one before |
| Idempotency.KeptIsRecent | packages/shared-core/src/idempotency.ts:10-40 | after a call nothing is kept that has been expired for a prune interval |
| Idempotency.EntryMeaning | packages/shared-core/src/idempotency.ts:10-31 | what is stored for a key is the expiry of its latest unreleased claim |
| Idempotency.DuplicateMeaning | packages/shared-core/src/idempotency.ts:10-40 | a check says duplicate exactly when an earlier claim of the key stands, unreleased and within the TTL |
| OutboxRelay.Relay.RunOutboxRelayOnce | services/api-gateway/src/outbox-relay.ts:31-80 | a pass does exactly its rows' steps whatever fails, and its counters count the rows published and failed |
| OutboxRelay.PassAttemptsEachOnce | services/api-gateway/src/outbox-relay.ts:42-79 | a pass attempts each claimed row exactly once, in order |
| OutboxRelay.PassExactly | services/api-gateway/src/outbox-relay.ts:42-79 | each row of a pass is published exactly when its publish succeeds and ends processed, failed once more or untouched by its own luck alone; rows not claimed are as before |
| OutboxRelay.RowsLeaveForAReason | packages/persistence/src/repositories.ts:2647-2684 | over any steps in which marks follow publishes a row is processed only after a successful publish, dead only with maxAttempts recorded failures, and has fewer while it stays |
| OutboxRelay.RelaysLeaveForAReason | services/api-gateway/src/outbox-relay.ts:31-80 | the same over any interleaving of any number of passes, failing or dying anywhere, with enqueues, claims and replays |
| OutboxRelay.StaysProcessedExactly | packages/persistence/src/repositories.ts:2647-2684 | a processed row stays so, whatever follows, exactly when no unfinished pass is still to record a failure of it |
| OutboxRelay.ProcessedComesBack | infra/postgres/init/015_outbox_durability.sql:20-59 | two passes over one row, the second after the first went stale, after which a processed row is failed |
| OutboxRelay.BackoffDoubles | infra/postgres/init/015_outbox_durability.sql:55-59 | the wait is 30 seconds doubled with every recorded failure, capped at 15 minutes |
| OutboxRelay.TakenExactly | infra/postgres/init/022_outbox_claim_materialized.sql:28-50 | over every run a failed row is taken again exactly from the end of its wait, an enqueued or replayed one from its time, a claimed one after two minutes, a processed or dead one never |
| Campaign.CampaignRepository.InsertBatch | packages/persistence/src/repositories.ts:3044-3064 | the chunked loop adds exactly the unknown contacts, pending, and leaves the known ones |
| Campaign.CampaignRepository.Transition | packages/persistence/src/repositories.ts:1265-1280 | the compare-and-swap applies exactly from the allowed statuses, resume with its run event |
| Campaign.CampaignRepository.ClaimRun | services/api-gateway/src/index.ts:1366-1392 | run and the scheduler enter running only from their own statuses, with the run event in the same transaction |
| Campaign.CampaignRepository.TestSend | services/api-gateway/src/index.ts:1290-1312 | a test send never restarts a stopped campaign, and queues its one dispatch |
| Campaign.CampaignRepository.CancelPending | packages/persistence/src/repositories.ts:3211-3221 | exactly the pending recipients are retired, and counted |
| Campaign.ClosedForever | services/api-gateway/src/campaign.ts:40-53 | in every interleaving a cancelled or completed campaign stays so |
| Campaign.OneRunEventPerEntry | services/api-gateway/src/index.ts:1357-1392 | run events number exactly the entries to running by run, resume and scheduler; dispatch events exactly the test sends |
| Campaign.OutcomesStand | packages/persistence/src/repositories.ts:3044-3064 | no recipient is dropped and none that left pending becomes pending again |
| Campaign.OutcomeIsItsOwn | packages/persistence/src/repositories.ts:3211-3221 | over every interleaving a recipient's outcome changes only by being written, but for a pending one that a cancel skips |
| Campaign.ResolvedStands | packages/persistence/src/repositories.ts:3211-3221 | an outcome once written stands in every interleaving until another is written |
| Campaign.CountsSumToAudience | packages/persistence/src/repositories.ts:3222-3235 | the status counts always sum to the audience |
| Campaign.AudienceIsWhoWasInserted | packages/persistence/src/repositories.ts:3044-3064 | after every run the audience is exactly those inserted, each counted once |
| Campaign.CancelWorks | services/api-gateway/src/index.ts:4520-4541 | an undisturbed cancel stops any open campaign, skips exactly the pending recipients and leaves every other outcome, whatever else is in flight |
| Campaign.ActionExactly | services/api-gateway/src/campaign.ts:40-53 | an undisturbed pause, resume or cancel takes effect exactly from the statuses it is legal from |
| Campaign.RunExactly | services/api-gateway/src/index.ts:1323-1392 | an undisturbed run starts the campaign, with its whole audience and one run event, exactly from a draft or paused campaign with an audience, and the scheduler exactly from a scheduled one |
| Campaign.NewCampaignRuns | services/api-gateway/src/index.ts:1323-1392 | a campaign just created is started by a run request, or by the scheduler if it has a time |
| Campaign.CompletedExactly | infra/postgres/init/023_campaign_completion.sql:25-53 | over every interleaving a campaign is completed exactly when a sweep has found it running with recipients, none pending |
| Campaign.PauseThenResume | services/api-gateway/src/index.ts:4500-4582 | pausing and resuming keeps every recipient and hands the run to the worker exactly once more |
| Campaign.CancelDrainsExactly | services/api-gateway/src/index.ts:4520-4541 | after a cancel's retirement nothing is ever pending again exactly when no request in flight is still to insert a new contact |
| Campaign.LateInsertStaysPending | services/api-gateway/src/index.ts:1328-1371 | the interleaving of run and cancel that leaves a pending recipient |
| Campaign.PendingForGood | services/api-gateway/src/index.ts:4520-4541 | once cancelled and retired, a pending recipient stays pending unless its own outcome is written |
| Campaign.StrandedUntilPaused | services/api-gateway/src/index.ts:1365-1392 | a campaign that has started gets no further run event unless somebody pauses it |
| Campaign.RequestedExactly | services/api-gateway/src/index.ts:1290-1392 | in every run a running campaign has a run event throughout exactly when no test send is made while it is a draft or scheduled |
| Campaign.TestSendStartsNothing | services/api-gateway/src/index.ts:1290-1312 | a single test send on a new campaign leaves it running without a run event |
| Campaign.TestSendStrands | services/api-gateway/src/index.ts:1290-1312 | after a test send on a campaign yet to start no run event is ever added unless somebody pauses it, whatever was in flight |
| FanOut.IntervalMs | services/notification-worker/src/pacing.ts:33-36 | the gap between sends is positive and fits the rate in force into a minute exactly, whatever rate was given |
| FanOut.Worker.ClaimPendingBatch | packages/persistence/src/repositories.ts:3271-3299 | a claim takes and stamps exactly the first 50 eligible recipients |
| FanOut.Worker.HandleCampaignRun | services/notification-worker/src/index.ts:439-636 | an invocation stamps exactly the approved of its batch, refuses the rest, and continues exactly after a whole batch |
| FanOut.ApprovedExactly | services/notification-worker/src/index.ts:513-546 | a recipient is sent to exactly when it is in the batch and the policy lets it through |
| FanOut.BatchExactly | packages/persistence/src/repositories.ts:3271-3299 | a claim takes exactly the claimable recipients, pending and not claimed for fifteen minutes, that fewer than fifty others come before |
| FanOut.RowsAfterExactly | services/notification-worker/src/index.ts:439-560 | each recipient taken is stamped and, if refused, leaves pending; no other row changes |
| FanOut.QueuedExactly | services/notification-worker/src/index.ts:560-636 | exactly one send for each recipient taken and approved, in order and an interval apart from now on, then the continuation exactly when fifty could be taken |
| FanOut.ClaimsEachOnce | services/notification-worker/src/index.ts:439-636 | while no claim goes stale a chain claims exactly the waiting recipients, each once and in order, and ends |
| FanOut.OnceExactlyWhenFresh | packages/persistence/src/repositories.ts:3271-3299 | from an unclaimed campaign no recipient is claimed twice exactly when no claim goes stale |
| FanOut.StaleIsReclaimed | packages/persistence/src/repositories.ts:3280-3288 | while claims run from the front, the next recipient claimed is the first stale one, if there is any |
| FanOut.SendsSpaced | services/notification-worker/src/pacing.ts:43-56 | across a whole chain consecutive sends are at least one interval apart |
| FanOut.SteadySends | services/notification-worker/src/pacing.ts:43-56 | a chain at full tilt stamps all its recipients one interval apart, across its batches |
| FanOut.AtMostRatePerMinute | services/notification-worker/src/pacing.ts:33-56 | every half-open minute holds at most the rate's sends if it is a whole number, fewer than one more otherwise, and at most 60 without a usable rate |
| FanOut.RateIsReached | services/notification-worker/src/pacing.ts:33-56 | at any rate a chain at full tilt puts the rate, rounded up, into its first minute: the bound is tight |
| FanOut.ChainsClaimOnceExactly | packages/persistence/src/repositories.ts:3271-3299 | however many chains interleave, no recipient is claimed twice exactly when no claim goes stale |
| FanOut.EachSpaced | services/notification-worker/src/pacing.ts:43-56 | in any interleaving each chain's own sends are at least one interval apart |
| FanOut.ChainsShareNoRate | services/notification-worker/src/pacing.ts:33-56 | n chains stamp at most n times a whole rate into any half-open minute |
| FanOut.TwoChainsDouble | services/api-gateway/src/index.ts:4542-4577 | two chains woken together do stamp twice the rate |
| DripSequence.SequenceRepository.Create | packages/persistence/src/repositories.ts:3748-3776 | the steps are numbered from 1 in the order given |
| DripSequence.SequenceRepository.Enroll | packages/persistence/src/repositories.ts:3826-3849 | exactly the known, willing, not yet enrolled contacts are enrolled, and counted |
| DripSequence.SequenceRepository.AdvanceDueEnrollment | packages/persistence/src/repositories.ts:3856-3948 | the decision and the whole new state of one advance |
| DripSequence.SequenceRepository.StopActiveForContact | packages/persistence/src/repositories.ts:3950-3964 | exactly the contact's active enrollments in stop-on-reply sequences stop, and are counted |
| DripSequence.ExactlyTheStepsSoFar | packages/persistence/src/repositories.ts:3856-3948 | over every run the steps enqueued for an enrollment are exactly 1..current_step, each once and in order, none before its due time |
| DripSequence.NothingAfterStop | packages/persistence/src/repositories.ts:3875-3883 | nothing is enqueued for an enrollment once it is not active |
| DripSequence.ReplyIsFinal | packages/persistence/src/repositories.ts:3950-3964 | a reply ends a stop-on-reply enrollment for good |
| DripSequence.NothingWhileOptedOut | packages/persistence/src/repositories.ts:3886-3894 | from an opt-out until the contact opts in again nothing is enqueued for them, whatever happens meanwhile |
| DripSequence.NothingWhileNotLive | packages/persistence/src/repositories.ts:3877-3885 | a sequence that is a draft or paused queues nothing, whatever happens meanwhile, until it is activated |
| DripSequence.EnrollsExactly | packages/persistence/src/repositories.ts:3826-3849 | exactly the contacts given that are known, willing and new are enrolled, at the start |
| DripSequence.ReplyStopsExactly | packages/persistence/src/repositories.ts:3950-3964 | exactly the contact's active enrollments that stop on reply are stopped, and no other row changes |
| DripSequence.AdvancesExactly | packages/persistence/src/repositories.ts:3856-3948 | at any point of any run an advance acts exactly when the enrollment is active, its sequence live and the next step due, and then stops, ends or sends exactly the next step |
| DripSequence.SendsLeft | packages/persistence/src/repositories.ts:3895-3934 | steps minus current_step bounds the sends left |
| DripSequence.Completes | packages/persistence/src/repositories.ts:3895-3934 | left alone, a live sequence sends every remaining step and completes |
| DripSequence.RunsItsCourse | packages/persistence/src/repositories.ts:3748-3948 | created, activated, enrolled and left alone, an enrollment sends every step and completes |
| RoundRobin.Settings.NextRoundRobinAssignee | packages/persistence/src/repositories.ts:402-430 | the pick after the cursor, and the cursor moved to it if there is a settings row |
| RoundRobin.PickAt | packages/persistence/src/repositories.ts:416-428 | the i-th pick is i places after the first, round the list |
| RoundRobin.ConsecutiveDiffer | packages/persistence/src/repositories.ts:402-430 | any n picks in a row are all different, from any starting cursor |
| RoundRobin.FairShare | packages/persistence/src/repositories.ts:402-430 | after m picks each member has floor(m/n) or, for the first m mod n in turn, one more |
| RoundRobin.CallsRotate | packages/persistence/src/repositories.ts:402-430 | with a settings row, any number of calls hand out the rotation from its cursor |
| RoundRobin.RotatesExactly | packages/persistence/src/repositories.ts:395-401 | the calls rotate exactly when the tenant has the settings row its callers see to, or one member |
| Csv.ParseCsvLine | services/api-gateway/src/csv.ts:16-46 | the character loop computes the fields of a line |
| Csv.ParseCsv | services/api-gateway/src/csv.ts:59-121 | the loop over lines computes rows and errors |
| Csv.ParseCell | services/api-gateway/src/csv.ts:124-127 | a printed cell reads back whole, quoted or not |
| Csv.QuotedExactly | services/api-gateway/src/csv.ts:123-127 | a cell is enclosed in quotes exactly when it holds a quote, a comma or a line break |
| Csv.QuotedAnywhere | services/api-gateway/src/csv.ts:16-46 | text quoted in the middle of a cell, or quoted without an end, counts as written |
| Csv.LineRoundTrip | services/api-gateway/src/csv.ts:16-46 | parsing undoes joining printed cells with commas, for every non-empty list of strings |
| Csv.IndexOf | services/api-gateway/src/csv.ts:69-69 | a column is found at its first place, or not at all |
| Csv.Tags | services/api-gateway/src/csv.ts:101-107 | imported tags are non-empty, at most 100 characters, each a trimmed part |
| Csv.TagsSurvive | services/api-gateway/src/csv.ts:101-107 | a contact's tags come back exactly when each is trimmed, non-empty, short and without "\|" |
| Csv.ImportSpec | services/api-gateway/src/csv.ts:59-121 | any file yields at most 50 000 rows, all with valid phones and single-line values |
| Csv.FileExactly | services/api-gateway/src/csv.ts:59-121 | any file with a phone column is read in order, one row for each valid phone and one error naming each other line, to its end or to the 50 000th row with a note that more follow |
| Csv.RefusedExactly | services/api-gateway/src/csv.ts:59-80 | a file is refused whole exactly when all its lines are blank or its first names no phone column |
| Csv.RowExactly | services/api-gateway/src/csv.ts:101-117 | each value of a row comes from its own column or is left out; consent is absent exactly when its cell is, and otherwise says whether the cell is one of the five affirmative words |
| Csv.TagsExactly | services/api-gateway/src/csv.ts:101-107 | each part that is not blank gives one tag, its first 100 characters once trimmed, in order |
| Csv.PhoneExactly | services/api-gateway/src/csv.ts:82-99 | a phone is valid exactly when it is a plus sign and a number of eight to fifteen digits |
| Csv.HeaderSpelling | services/api-gateway/src/csv.ts:66-67 | a column may be named in any letter case with any white space around and between its words |
| Csv.ShortNamesRead | services/api-gateway/src/csv.ts:69-76 | the short column names give the same columns as the long ones |
| Csv.ReturnsDropOut | services/api-gateway/src/csv.ts:61-61 | carriage returns before line feeds make no difference |
| Csv.BlankLinesDropOut | services/api-gateway/src/csv.ts:61-61 | blank lines make no difference |
| Csv.HeaderRoundTrip | services/api-gateway/src/csv.ts:67-80 | the exported header is read as the seven columns |
| Csv.FileRoundTrip | services/api-gateway/src/csv.ts:140-154 | importing an export gives every contact back, without error, exactly when there are at most 50 000 and each is clean |
| Csv.LineFeedIsLost | services/api-gateway/src/csv.ts:61-61 | a quoted line feed does not survive |
| UserAdmin.NormalizeRoles | packages/auth/src/index.ts:72-90 | the nested loops give exactly the roles the names stand for, none repeated |
| UserAdmin.UngrantableRoles | services/api-gateway/src/authorization.ts:98-103 | exactly the names the caller may not grant |
| UserAdmin.KnownExactly | packages/auth/src/index.ts:19-27 | a name is a role exactly when it is that role's name, letter for letter |
| UserAdmin.ExpandExactly | packages/auth/src/index.ts:12-90 | a name in any case and spacing stands for the role it names or its bundle's roles, and for nothing else |
| UserAdmin.UserDirectory.Create | services/api-gateway/src/index.ts:2750-2810 | the answer and the new users of a creation, the re-check of the caller included |
| UserAdmin.UserDirectory.Patch | services/api-gateway/src/index.ts:2871-2970 | the answer and the new users of an update, the re-check of the caller included |
| UserAdmin.CreatedExactly | services/api-gateway/src/index.ts:2750-2810 | a creation adds exactly the row asked for when its caller can give every role in it, and otherwise changes nothing |
| UserAdmin.UpdatedExactly | services/api-gateway/src/index.ts:2871-2970 | an update changes exactly the row it names, as asked, when it is another's and the caller has power over every role held and asked for, and otherwise nothing |
| UserAdmin.CanGrantIsReach | services/api-gateway/src/authorization.ts:86-91 | a key can grant nothing, an owner everything, a tenant admin everything but owner |
| UserAdmin.OwnerNamesNeedOwner | services/api-gateway/src/authorization.ts:93-103 | the owner bundle counts as platform_owner in any case or spacing: exactly a human owner may grant either |
| UserAdmin.UpdateAllowedExactly | services/api-gateway/src/authorization.ts:166-184 | an update passes exactly when a human admin, not changing their own status, has reach over every role held and every role asked for |
| UserAdmin.PasswordSetExactly | services/api-gateway/src/authorization.ts:187-199 | a password is set exactly by its owner or by a human admin with reach over the user |
| UserAdmin.KeysAndSelfChangeNothing | services/api-gateway/src/authorization.ts:109-120 | a key changes nothing and nobody changes their own row |
| UserAdmin.OwnersChangeOnlyByOwner | services/api-gateway/src/authorization.ts:144-184 | the set of active owners changes only by the act of an active owner, who stays one |
| UserAdmin.OwnerRemains | services/api-gateway/src/index.ts:2895-2970 | over every run of session and key requests an active owner remains exactly if there was one |
| UserAdmin.OwnersMadeByOwners | services/api-gateway/src/authorization.ts:123-137 | whoever became an active owner was made one by somebody who was one then |
| UserAdmin.TokenCanRemoveLastOwner | services/api-gateway/src/index.ts:938-965 | whenever there is one active owner, a token with the owner role for another subject suspends it |
| UserAdmin.TokenRemovesLastWitness | services/api-gateway/src/index.ts:938-965 | such a directory and token |
| UserAdmin.LastOwnerLostExactly | services/api-gateway/src/index.ts:2895-2970 | a request taken as one step loses the last active owner exactly when it is an accepted update by such a token that takes the only one out |
| UserAdmin.AlwaysOwnedExactly | services/api-gateway/src/index.ts:2895-2970 | over every run, tokens included, there always is an active owner exactly when no request is such an update |
| UserRequests.LastOwnerLostExactly | services/api-gateway/src/index.ts:2901-2966 | in every interleaving a step loses the last active owner exactly when it writes a row of the only one that is not an active owner's |
| UserRequests.AlwaysOwnedExactly | services/api-gateway/src/index.ts:2901-2966 | so over every interleaving, whoever calls, there always is an active owner exactly when no step does that |
| UserRequests.LastRemovalIsStale | services/api-gateway/src/index.ts:2901-2966 | when a session does it, what it read of its caller or its target has changed since |
| UserRequests.SessionsLoseOnlyByStaleWrites | services/api-gateway/src/index.ts:2901-2966 | over every interleaving of sessions' requests there always is an active owner exactly when none takes the last one out on a stale reading |
| UserRequests.UndisturbedKeepsOwner | services/api-gateway/src/index.ts:2901-2966 | when no other request's write comes between a request's reads and its write, an active owner always remains |
| UserRequests.SuspendedBeforeCheck | services/api-gateway/src/index.ts:943-963 | in every interleaving a request whose user is suspended before its re-check, and stays so, never writes |
| UserRequests.BothCheckedFirst | services/api-gateway/src/index.ts:2908-2937 | any two owners who suspend each other, both re-checked before either writes, leave none |
| UserRequests.RolesTakenMeanwhile | services/api-gateway/src/index.ts:2908-2966 | an owner who decided before losing the role passes the re-check and suspends the only one left |
| UserRequests.AloneIsOneStep | services/api-gateway/src/index.ts:2871-2970 | a request no other writes between does exactly what it does taken as one step, both its writes included, and leaves nothing in flight |
| Flows.ValidateFlowDefinition | packages/shared-core/src/flows.ts:42-118 | the loops give the verdict of the first wrong node or branch, or a throw |
| Flows.ValidIsClosed | packages/shared-core/src/flows.ts:42-118 | a valid definition has a start, no dangling target and only questions with branches |
| Flows.ValidExactly | packages/shared-core/src/flows.ts:42-118 | of all JSON exactly the definitions of one to fifty complete nodes with every target among them are valid, and the check throws exactly when the first thing wrong is a null node or branch |
| Flows.FlowRoundTrip | packages/shared-core/src/flows.ts:42-118 | every such definition within the limits is accepted and reads back as itself |
| Flows.AdvanceFlow | packages/shared-core/src/flows.ts:138-190 | the capped loop computes the flow's own run, cut after STEP_CAP nodes |
| Flows.ValidMeansWhatItSays | packages/shared-core/src/flows.ts:138-190 | on a valid flow without an empty id, advancing is the uncapped step relation, cut after STEP_CAP nodes |
| Flows.EmptyIdExactly | packages/shared-core/src/flows.ts:147-184 | in every definition advancing computes what the flow means, from every node and for every reply, exactly when the empty id names nothing but an end node and no question falls back to it |
| Flows.EmptyIdIsValid | packages/shared-core/src/flows.ts:55-57 | validation lets the empty id through |
| Flows.EmptyIdNotRun | packages/shared-core/src/flows.ts:147-147 | a valid flow whose one message has the empty id sends nothing |
| Flows.EmptyFallbackNotTaken | packages/shared-core/src/flows.ts:178-184 | in a valid flow whose empty id is an end node, a question that falls back to it waits where the flow means to end |
| Flows.CapLosesLateQuestions | packages/shared-core/src/flows.ts:147-189 | advancing equals the uncapped run whenever that stops within the cap, and its outcome exactly then or when the run ends |
| Flows.QuestionBeyondCapIsLost | packages/shared-core/src/flows.ts:147-189 | a closed flow of ten messages and a question ends where it should wait |
| Flows.AtMostCapActions | packages/shared-core/src/flows.ts:147-189 | an advance emits at most STEP_CAP actions, always the first ones of the uncapped run |
| Flows.FirstMatchWins | packages/shared-core/src/flows.ts:173-179 | a reply takes the first branch it matches, and none only when it matches none |
| Flows.QuestionExactly | packages/shared-core/src/flows.ts:167-186 | at a question a flow asks and waits; with a reply it goes on, the reply spent, at the first branch that matches, else at the fallback, else waits on in silence |
| Flows.NodeRunsExactly | packages/shared-core/src/flows.ts:147-166 | at any other node a flow acts and goes on with its reply unspent; an end node, or none, ends it |
| Flows.ReplySpentOnce | packages/shared-core/src/flows.ts:167-186 | a reply picks at most one branch |
| Flows.SessionsWaitAtQuestions | packages/shared-core/src/flows.ts:167-186 | over whole sessions a session only waits at an existing question |
| Flows.StaysInside | packages/shared-core/src/flows.ts:147-189 | in a valid flow a step never leads to a missing node |
| SseHub.SseHub.AddClient | services/api-gateway/src/sse-hub.ts:75-87 | one fresh client at the end of the flat list |
| SseHub.SseHub.RemoveClient | services/api-gateway/src/sse-hub.ts:118-129 | exactly that tenant's client leaves, and no empty entry remains |
| SseHub.SseHub.HasClients | services/api-gateway/src/sse-hub.ts:131-133 | true exactly when a stream is open |
| SseHub.SseHub.CloseWhere | services/api-gateway/src/sse-hub.ts:106-116 | exactly the matching streams of every tenant are ended, each once, and counted |
| SseHub.SseHub.CloseUserStreams | services/api-gateway/src/sse-hub.ts:90-93 | exactly the user's streams, whatever the letter case |
| SseHub.SseHub.CloseSessionStreams | services/api-gateway/src/sse-hub.ts:96-98 | exactly the session's streams |
| SseHub.SseHub.CloseExpired | services/api-gateway/src/sse-hub.ts:101-104 | exactly the streams at the age cap |
| SseHub.ReachedExactly | services/api-gateway/src/sse-hub.ts:75-116 | a stream opened for a user is closed with exactly that user's streams in any letter case, one opened in a session with exactly that session's, and any exactly from the age cap on |
| SseHub.SseHub.Broadcast | services/api-gateway/src/sse-hub.ts:136-152 | one write to each client of the tenant and no other, in order; exactly the failing ones are dropped |
| SseHub.SseHub.PingAll | services/api-gateway/src/sse-hub.ts:158-172 | no client at the age cap remains, and everybody else is pinged exactly once |
| SseHub.SseHub.Close | services/api-gateway/src/sse-hub.ts:182-193 | every stream is ended exactly once and none is left |
| SseHub.OfWithout | services/api-gateway/src/sse-hub.ts:118-129 | removing from the flat list is removing from each tenant's list, order kept |
| SseHub.RemovalAgrees | services/api-gateway/src/sse-hub.ts:118-129 | after a removal the map of lists still holds exactly the flat list, without empty entries |

## Left out

Assumed throughout:

- One exact, monotone clock; no floating-point error, no millisecond truncation, no difference between the application's and the database's clock.
- One database statement or transaction, one publish and one release is one atomic step, and releases succeed.
- A key-set fetch completes as one step that wakes all its waiters; one fetch is in flight at a time; a lookup in a local key set is atomic. Token signatures are given functions.
- Deliveries of one webhook are handled one after another and within the idempotency TTL. Events without an id share one key, as in the source, so a second one counts as a duplicate.
- `toLowerCase` and `trim` are ASCII lower-casing and the white space JavaScript trims; a JSON number is a real; a key set's error codes and HTTP error texts are plain values.

Not modelled:

- HTTP routing, sockets, DNS, Redis, RabbitMQ, the Postgres driver, vendor clients, the web application, logging, metrics and configuration loading: plumbing.
- The WHATWG URL parser and `validateOutboundUrl`: the address policy starts from address text and host strings, canonical IPv6 text from section 4 of RFC 5952.
- Zone ids inside CIDR entries of the config parser, and refused host names (only refused addresses carry the remedy that is proved).
- `filterSendableContacts`, personalisation, quiet hours, consent and frequency policy: whoever they approve is a parameter.
- The notification worker's dispatch handler: claims, stamps and schedules are modelled, not the send; its outcomes are arbitrary writes of a status other than pending.
- Unconditional status writers (`setStatus`, `applyStatusUpdate`, `updateByExternalMessageId`): nothing makes the delivery funnel monotone, and nothing here claims it.
- Row order in `outbox_claim`, the claim limit of a relay pass and its `dead` counter: a pass gets whichever rows were claimed.
- Deletion of contacts, users, sequences and campaigns, and replacement of a flow definition under a running session.
- Passwords, sessions and API keys beyond who may change them, and body fields of the wrong JSON type on the user routes.
- SSE frame formatting and the keep-alive timer.
- Campaigns and conversation flows of other tenants: every statement is about one tenant, except the event-stream hub.
- OutboundGuard.RemedyExact: is about well-formed addresses without zone ids; for zoned ones RemedyWorks says the entry does not compile.
- FanOut.ClaimsEachOnce: assumes that no claim goes stale; OnceExactlyWhenFresh says that this is necessary.
- UserAdmin.OwnerRemains: takes each request as one step; the module UserRequests says exactly what is left of it when they interleave.
- DripSequence.Completes: drives one enrollment with its template present; a missing template ends it early, as the code does.
- Webhook.EveryEventIsPublished: is about events with ids and message ids without a colon; otherwise two events can share a key, as in the source, and the second counts as a duplicate.
- FanOut.QueuedExactly: is about one invocation; the sends of a whole chain are SteadySends and AtMostRatePerMinute.
