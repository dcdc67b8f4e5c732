# A verified model of Forcefield

Forcefield is a gateway that holds credentials so that its clients do not have to: a client presents
a bearer token, the gateway checks what the token may do, adds the real credential and forwards the
request. This project models the parts of it that carry the most state or the most arithmetic, in
Dafny, and proves what they promise. `dafny verify dfyconfig.toml` checks everything.

| part | files | what is proved |
|---|---|---|
| Token store | `Tokens`, `TokenForest`, `TokenWalks`, `Sums`, `TokenRules`, `TokenSteps`, `TokenStore`, `TokenRuns`, `TokenOrigins` | Every run of mint, delegate, revoke, prune and crash, with any write failures, stays in the states the loader accepts. Memory equals the committed disk. A revoked subtree never validates again, everything else answers as before, and a revocation always has room. A token is answered for exactly on the terms, to the binding and for the lifetime that the request which issued it named. |
| Rate and budget limiter | `ClaimScopes`, `Limiter`, `LimiterRuns`, `LimiterExact`, `TokenCharges` | Over every run: no key exceeds its budgets or its token bucket in any window, a refused call charges nobody, and a call is refused only when the calls admitted before leave no room for it. From stored tokens on: every grant of every token keeps its limits, and a token covers its children. |
| Secret filter | `Octets`, `Readers`, `Overlap`, `SecretFilter` | A Knuth-Morris-Pratt scan over any chunking never delivers a credential, never cuts a clean body short, and stacks. |
| Sandbox filter | `Seccomp` | The emitted BPF program decides exactly the specified policy for every system call, with no wrapped jump. |
| Git receive-pack | `Text`, `PktLine`, `ReceiveLines`, `ReceivePack`, `ReceiveRoundTrip`, `ReceiveReads` | Parsing replays the body, takes back every encoding of a valid push, and accepts nothing but encodings of the request it gives, within the limits. |
| Git policy and stream | `GitPolicy`, `GitPolicyLaws`, `GitStream` | Allowed means allowed on every update and denied on none, and each selector of a rule scopes it to just the values it names. Discovery never blocks what is authorised. Delivered bytes are charged once and an over-long body never looks complete. |
| Canonical request | `Percent`, `PathGlob`, `CanonicalPath`, `Ordering`, `CanonicalQuery`, `QueryForm`, `PathLaws` | One spelling per path and per multiset of query pairs. The glob table computes the meaning of the pattern. What is forwarded is what was matched, also for a server that removes dots or decodes again. |
| GraphQL allowlists | `GraphQL`, `GraphQLRequests` | The fields collected are exactly the root fields. An accepted request executes only allowed ones, whatever its variables. |
| Secret cache | `Recency`, `SecretCache`, `SecretCacheObject`, `SecretCacheRuns`, `SecretCacheHits` | Under every interleaving the map and the list agree, no stored secret is destroyed, hits are genuine, and eviction is least-recently-used. What was stored is hit again until it expires, is removed or is pushed out, and not later. |
| Discovery manifest | `ManifestText`, `TopSums`, `Discovery`, `DiscoveryManifest` | The manifest lists exactly the current grants. The bound checked when a configuration is loaded is exact, so the size refusal is never taken. |

Most stateful parts have three layers. A method or class follows the Go code, loop by loop and field
by field. A function on values says what one step does, and the method's contract equates the two.
Lemmas over these functions state what holds of every step and of every run.

Strings of bytes are Dafny strings whose characters are the byte values. Times are integers or reals.
Write failures, random draws, the clock, UTF-8 validity, JSON quoting and the answers of readers and
backends are parameters, so each theorem holds for all of them.

## Findings

- The burst order on limits is not transitive by itself. `Tokens.BurstAloneNotTransitive` gives three
  limits where it fails, and the exact condition on the middle and outer limits under which it passes
  to every inner one. Together with the rate order it is transitive.
- In the GraphQL walk the check for a fragment met inside itself decides only which error is reported:
  `GraphQL.WalkSucceedsIff` shows that the depth bound and the definedness check alone decide acceptance.
- A secret filter ends with the no-progress error, which its source never gave, when the source answers
  a hundred times in a row with nothing; `SecretFilter.StalledUpstream` is such a source. Only the filter
  nearest the source can do so, and everything received was delivered by then:
  `SecretFilter.SecretFilteringBody.StackGuarantee` states this for every stack.
- A revoke can be committed and yet reported as failed, when the directory is not synced. It then holds
  like any other: `TokenRuns.RevokedForEver` covers it.

## Model

| member | source | states |
|---|---|---|
| `Tokens.NoBroaderMeansInclusion` | internal/tokens/store.go:575-580 | one limit is no broader than another exactly when every amount it admits is admitted by the other |
| `Tokens.LimitsNoBroaderTransitive` | internal/tokens/store.go:552-580 | attenuation of all five limits together is transitive |
| `Tokens.BurstAloneNotTransitive` | internal/tokens/store.go:560-573 | through a middle that is no broader than the outer limits, the burst order passes to every inner one exactly when the middle is rated, the outer unrated, or the outer burst the largest there is; a concrete triple where it fails is given |
| `Tokens.GrantsAreSubset` | internal/tokens/store.go:535-550 | the lookup loop decides whether every child grant has a parent grant of the same identity with limits no narrower |
| `Tokens.GrantsSubsetTransitive` | internal/tokens/store.go:535-550 | the subset relation on grant lists is transitive |
| `Tokens.ValidateGrantSet` | internal/tokens/store.go:502-533 | accepted exactly when nonempty and within the size limit, every field well-formed, no identity twice and no burst without a rate |
| `TokenForest.PruneIsInvisible` | internal/tokens/store.go:605-663 | for every bearer, binding and time from the prune on, validation answers the same before and after, claims included |
| `TokenForest.PrunedKeepsLineage` | internal/tokens/store.go:617-663 | a surviving record has an inactive ancestor after pruning exactly when it had one before |
| `TokenForest.InactiveStaysInactive` | internal/tokens/store.go:649-663 | a dead lineage stays dead at every later time |
| `TokenForest.RevokeIsExact` | internal/tokens/store.go:329-390 | after marking, no token of the subtree validates at any time and every other token answers as before |
| `TokenForest.OutsideUnaffected` | internal/tokens/store.go:329-390 | marking changes neither activity, root agreement nor claim chain outside the subtree |
| `TokenForest.DescendantsAreDeeper` | internal/tokens/store.go:329-390 | a proper descendant is strictly deeper, so lineages have no cycles |
| `TokenWalks.PruneInactive` | internal/tokens/store.go:617-647 | the fixpoint loop ends and removes exactly the records that are inactive or have an inactive ancestor, and reports whether it removed any |
| `TokenWalks.ClosedHoldsAllDead` | internal/tokens/store.go:617-647 | a set holding the inactive records and closed under children holds every dead lineage |
| `TokenWalks.RecordOrAncestorInactive` | internal/tokens/store.go:649-663 | the upward walk decides whether a lineage is dead |
| `TokenWalks.ValidateLocked` | internal/tokens/store.go:396-429 | a record is returned exactly when the bearer is well-formed, the bindings agree, the lineage is live and leads to its root; `TokenOrigins.AnswersHaveOrigin` says which binding that is |
| `TokenWalks.ClaimsFromRecord` | internal/tokens/store.go:687-727 | the claims hold the chain of limits from the root down to the token |
| `TokenWalks.MarkSubtree` | internal/tokens/store.go:358-381 | the queue loop ends and marks exactly the target and its descendants, keeping earlier revocation times |
| `TokenWalks.MarkedIsRevoked` | internal/tokens/store.go:365-378 | when the queue is empty the visited records are the whole subtree |
| `TokenWalks.IndexChildren` | internal/tokens/store.go:359-364 | the child index lists every child of every parent once |
| `TokenWalks.DirectChildCount` | internal/tokens/store.go:582-590 | counts the direct children |
| `TokenWalks.RootTokenCount` | internal/tokens/store.go:592-600 | counts the tokens under a root |
| `TokenRules.MeasureEncoding` | internal/tokens/persistence.go:266-306 | the encoded size is the fixed part plus each record's size and revocation stamp |
| `TokenRules.EnsureRevocationCapacity` | internal/tokens/store.go:672-685 | accepted exactly when the encoding plus a reserve for every unrevoked record is within the limit |
| `TokenRules.CapacityGivesHeadroom` | internal/tokens/store.go:665-685 | passing the check leaves room for the encoding with every record revoked |
| `TokenRules.HeadroomFits` | internal/tokens/persistence.go:107-122 | a store with head-room fits its file limit, whichever records are revoked |
| `TokenRules.HeadroomGivesCapacity` | internal/tokens/store.go:665-685 | an unrevoked store with head-room passes the check again |
| `TokenRules.HeadroomRevoked` | internal/tokens/store.go:329-390 | revoking uses none of the head-room |
| `TokenRules.ValidateLoadedRecords` | internal/tokens/persistence.go:394-430 | accepted exactly when every record is well-formed and its lineage sound |
| `TokenRules.ValidateLoadedBounds` | internal/tokens/persistence.go:432-455 | accepted exactly when the record, child and root counts are within their limits |
| `TokenRules.PruneKeepsInvariant` | internal/tokens/store.go:605-647 | pruning keeps lineage, counts and head-room |
| `TokenRules.RevokeKeepsInvariant` | internal/tokens/store.go:329-390 | revoking keeps lineage, counts and head-room |
| `TokenRules.IssueKeepsInvariant` | internal/tokens/store.go:130-282 | adding a checked record keeps lineage, counts and head-room |
| `TokenRules.RevokedLineageOk` | internal/tokens/persistence.go:394-430 | a revoked parent never keeps a live child |
| `TokenSteps.FreshHash` | internal/tokens/store.go:431-444 | a generated token is one of the draws and is not in the store |
| `TokenSteps.MintKeepsInvariant` | internal/tokens/store.go:130-188 | minting keeps the invariant for every request, draw and pair of write outcomes |
| `TokenSteps.ChildAttaches` | internal/tokens/store.go:192-282 | what passes the delegation checks attaches soundly below its parent |
| `TokenSteps.DelegateKeepsInvariant` | internal/tokens/store.go:192-282 | delegating keeps the invariant for every bearer, request, draw and pair of write outcomes |
| `TokenSteps.RevokeStep` | internal/tokens/store.go:329-390 | a revoke that reports success pruned first and left the subtree of a surviving target marked |
| `TokenSteps.RevokeStepKeepsInvariant` | internal/tokens/store.go:329-390 | revoking keeps the invariant for every pair of write outcomes |
| `TokenSteps.RevocationAlwaysFits` | internal/tokens/store.go:665-685 | no revoke of a reachable state fails for size |
| `TokenSteps.InvariantFits` | internal/tokens/persistence.go:107-122 | persisting a reachable state never trips the size limit |
| `TokenSteps.OpenEstablishesInvariant` | internal/tokens/store.go:50-106 | whatever file opens gives a state that satisfies the invariant |
| `TokenSteps.ReopenSucceeds` | internal/tokens/store.go:50-106 | every reachable state reopens and answers every validation from then on as before |
| `TokenSteps.ReopenIsPrune` | internal/tokens/store.go:50-106 | for every outcome of the write, a reachable state reopens exactly when pruning it succeeds, and then with the pruned records |
| `TokenStore.Store.constructor` | internal/tokens/store.go:50-106 | a new store holds the loaded records, on disk and in memory |
| `TokenStore.Store.PersistRecords` | internal/tokens/persistence.go:107-172 | the disk changes exactly when the write commits, whether or not it reports a failure |
| `TokenStore.Store.PruneLocked` | internal/tokens/store.go:605-615 | memory and disk change together or not at all |
| `TokenStore.Store.GenerateUniqueToken` | internal/tokens/store.go:431-444 | the first of the bounded draws that is not in use |
| `TokenStore.Store.IssueLocked` | internal/tokens/store.go:174-188 | a record is added in memory exactly when it was committed to disk |
| `TokenStore.Store.Mint` | internal/tokens/store.go:130-188 | follows the mint step, keeps memory equal to disk, and refuses when closed; `TokenOrigins.IssuedOnTerms` and `TokenOrigins.MintedIff` say what that step grants, and when |
| `TokenStore.Store.Delegate` | internal/tokens/store.go:192-282 | follows the delegate step, keeps memory equal to disk, and refuses when closed; `TokenOrigins.IssuedOnTerms` and `TokenOrigins.DelegatedIff` say what that step grants, and when |
| `TokenStore.Store.CheckDelegation` | internal/tokens/store.go:226-248 | the first applicable refusal, in the order of the checks |
| `TokenStore.Store.Validate` | internal/tokens/store.go:286-305 | the claims of a validating bearer, nothing when closed; `TokenOrigins.IssuedIsAnsweredFor` says for whom, how long and with which claims |
| `TokenStore.Store.RevokeHash` | internal/tokens/store.go:329-390 | follows the revoke step, keeps memory equal to disk, and refuses when closed |
| `TokenStore.Open` | internal/tokens/store.go:50-106 | a store is opened exactly when the file is sound, within bounds and has revocation capacity |
| `TokenRuns.ApplyKeepsInvariant` | internal/tokens/store.go:130-390 | every event keeps the invariant: mint, delegate, revoke, and reopen as the prune it is |
| `TokenRuns.After` | internal/tokens/store.go:130-390 | every state of every run satisfies the invariant |
| `TokenRuns.CrashIsInvisible` | internal/tokens/store.go:50-106 | after any run a crash and reopen succeeds and changes no validation answer |
| `TokenRuns.GoneForEver` | internal/tokens/store.go:329-390 | a token that is revoked or absent stays so through every later run that does not draw it again |
| `TokenRuns.CommittedRevokeMarks` | internal/tokens/store.go:358-389 | a revoke that pruned and whose marks were committed, or needed no write, leaves exactly the marked subtree on the pruned records, whatever it reported |
| `TokenRuns.SuccessTookEffect` | internal/tokens/store.go:329-390 | a revoke that reports success took effect |
| `TokenRuns.RevokeClearsSubtree` | internal/tokens/store.go:329-390 | every revoke that took effect leaves each descendant revoked or absent, also one that was committed and then reported as failed |
| `TokenRuns.RevokedForEver` | internal/tokens/store.go:329-390 | after every revoke that took effect no token of the subtree validates in any later state of the run |
| `TokenRuns.RevokeSparesOthers` | internal/tokens/store.go:329-390 | a revoke changes no answer for a token outside the subtree |
| `TokenRuns.SurvivorsKeepAncestors` | internal/tokens/store.go:617-647 | a survivor of pruning keeps exactly its ancestors |
| `TokenRuns.LineageOutlives` | internal/tokens/store.go:649-663 | a live lineage stays live until the token's own expiry |
| `TokenRuns.IssuingSparesLineage` | internal/tokens/store.go:130-282 | issuing changes no other token's activity, root agreement or chain |
| `TokenRuns.IssuedValidates` | internal/tokens/store.go:130-282 | an issued token validates under its own binding, with its claims, until it expires |
| `TokenOrigins.RecordsHaveOrigin` | internal/tokens/store.go:130-282 | after every run, a stored record is one of the start or was issued by an event that drew it, and holds the terms that event asked for |
| `TokenOrigins.AnswersHaveOrigin` | internal/tokens/store.go:396-429 | over every run, a token not there at the start validates only for the workload and audience named by a request that drew it, with claims on that request's terms |
| `TokenOrigins.IssuedOnTerms` | internal/tokens/store.go:174-282 | a mint or delegation that issues answers with the request's workload, audience, expiry, grants and delegation right, issued now, below the bearer's token, and that is what the store then holds |
| `TokenOrigins.RunKeepsClaims` | internal/tokens/store.go:130-390 | through every later run that does not draw it again, a token is gone or has the same claims |
| `TokenOrigins.UnrevokedIsLive` | internal/tokens/store.go:649-663 | in every sound store a token that is not revoked is live until its own expiry |
| `TokenOrigins.IssuedIsAnsweredFor` | internal/tokens/store.go:286-305 | from the issuing reply on, through every later run that does not draw it again, the store answers for the token with those claims exactly to the request's binding, before its expiry and while it is not gone |
| `TokenOrigins.FreshIff` | internal/tokens/store.go:431-444 | drawing succeeds exactly when one of the draws looked at is unused |
| `TokenOrigins.MintedIff` | internal/tokens/store.go:130-188 | with committed writes, a mint succeeds exactly when the request is well-formed and not expired, a draw is fresh and the store has room |
| `TokenOrigins.DelegatedIff` | internal/tokens/store.go:192-282 | with committed writes, a delegation succeeds exactly when the request is well-formed, the bearer is answered for and may delegate what is asked, a draw is fresh and the store has room |
| `ClaimScopes.AttenuatesEveryAncestor` | internal/tokens/store.go:535-580 | a record's grants, expiry and audience are within those of every ancestor, and a revoked ancestor means it is revoked |
| `ClaimScopes.OneGrantForService` | internal/gateway/gateway.go:585-595 | the loop finds the grant exactly when the service has one |
| `ClaimScopes.OneGrantFinds` | internal/gateway/gateway.go:585-595 | with one grant per service, every grant is found by its service |
| `ClaimScopes.LineageOnePerService` | internal/gateway/gateway.go:585-595 | one grant per service at the root is inherited by every descendant |
| `ClaimScopes.ClaimLimitScopes` | internal/gateway/gateway.go:610-639 | scopes are returned exactly when the chain is complete, of one identity and attenuating, one per link under the NUL-joined key of its token and grant |
| `ClaimScopes.KeysTellApart` | internal/gateway/gateway.go:627-630 | the NUL-joined key stands for one token and one grant identity |
| `ClaimScopes.ChainTokens` | internal/tokens/store.go:687-727 | the chain runs from the root to the token, one link per depth |
| `ClaimScopes.ScopesAlwaysExist` | internal/gateway/gateway.go:610-647 | for every validated claim under a root with one grant per service the scopes exist, depth plus one, with distinct keys |
| `Limiter.LimitManager.constructor` | internal/gateway/limit.go:36-38 | starts with no states and no sweep due |
| `Limiter.LimitManager.AllowRequest` | internal/gateway/limit.go:40-69 | follows the request step: sweep, states, refill, admit all or none; `LimiterExact.RequestAdmittedIff` says when it admits |
| `Limiter.LimitManager.AllowBytes` | internal/gateway/limit.go:75-100 | follows the byte step: sweep, states, admit all or none; `LimiterExact.BytesAdmittedIff` says when it admits |
| `Limiter.LimitManager.StatesLocked` | internal/gateway/limit.go:102-127 | every scope gets a state unless one is malformed, expired, repeated or changed |
| `Limiter.LimitManager.SweepLocked` | internal/gateway/limit.go:129-139 | drops exactly the expired states, once per interval |
| `Limiter.LimitManager.RefillAndCheck` | internal/gateway/limit.go:53-61 | refills the buckets up to the first refusal and admits exactly when none refuses |
| `Limiter.LimitManager.ChargeRequests` | internal/gateway/limit.go:62-67 | charges every key of the chain once and no other |
| `Limiter.PrepareIsReady` | internal/gateway/limit.go:102-127 | prepared chains have a state for each scope and distinct keys |
| `LimiterRuns.RefillKeeps` | internal/gateway/limit.go:141-151 | refilling keeps the bucket within burst and within what has accrued |
| `LimiterRuns.RefillKeepsTight` | internal/gateway/limit.go:141-151 | a refilled bucket is still down to exactly what some window since then has used |
| `LimiterRuns.SweepKeeps` | internal/gateway/limit.go:129-139 | sweeping restores no usable budget |
| `LimiterRuns.RateAfterRequest` | internal/gateway/limit.go:53-68 | an admitted request keeps every window within burst plus rate times length |
| `LimiterRuns.NextKeeps` | internal/gateway/limit.go:40-139 | every event keeps the limits of every key |
| `LimiterRuns.LimitsHoldForEver` | internal/gateway/limit.go:40-161 | over every run and every key, requests and bytes stay within budget, and every window within burst plus rate times length |
| `LimiterRuns.AllOrNothing` | internal/gateway/limit.go:40-100 | a refused call changes no counter and an allowed one charges exactly its chain |
| `LimiterExact.BucketIsExact` | internal/gateway/limit.go:141-151 | a refilled bucket has no token left exactly when one more request in some window that ends now exceeds burst plus rate times length |
| `LimiterExact.PreparedIff` | internal/gateway/limit.go:102-127 | states exist for a chain exactly when its keys are named and distinct and nothing of it has expired |
| `LimiterExact.RequestAdmittedIff` | internal/gateway/limit.go:40-69 | after every run a request is admitted exactly when its chain is usable and, by the log of admitted calls alone, no key of it has a full counter, a used-up budget or a spent window |
| `LimiterExact.BytesAdmittedIff` | internal/gateway/limit.go:75-100 | after every run an upload is admitted exactly when its chain is usable and, by the log alone, every key of it has the bytes left |
| `LimiterRuns.CountersMatchLog` | internal/gateway/limit.go:40-100 | after every run the counters of a live key are the calls admitted for it in the whole run |
| `LimiterRuns.ChainsAreChainShaped` | internal/gateway/gateway.go:610-639 | scopes that run from a root down the tree hold every key's parent, and one child of a key at most |
| `LimiterRuns.ParentCoversChildren` | internal/gateway/limit.go:40-100 | what was charged to any set of children was charged to their parent |
| `LimiterRuns.TreeConserves` | internal/gateway/limit.go:40-139 | in every reachable state a live parent's counters are at least the sum over its live children |
| `TokenCharges.SameChain` | internal/tokens/store.go:687-727 | a token's claim chain is the same at every moment it is in the store, whatever was issued, pruned or revoked meanwhile |
| `TokenCharges.ChargeConforms` | internal/gateway/gateway.go:610-639 | scopes built from a stored token's claims hold the limits their keys always stand for, and run down the delegation tree |
| `TokenCharges.ChargedRunIsProper` | internal/gateway/gateway.go:610-639 | every run of calls by stored tokens satisfies what the limiter's run theorems ask for |
| `TokenCharges.TokensKeepTheirLimits` | internal/gateway/limit.go:40-161 | over every run of calls by stored tokens, each grant of each token ever issued stays within its own budgets and rate |
| `TokenCharges.TokensCoverTheirChildren` | internal/gateway/limit.go:40-139 | after every such run, what any live children of a token used of a grant is within what the token was charged |
| `Overlap.Advance` | internal/gateway/response.go:222-250 | the fall-back loop gives the longest pattern prefix that ends the text with one more byte |
| `Overlap.PrefixFailure` | internal/gateway/response.go:222-234 | entry i is the longest proper border of the prefix of length i plus one |
| `Overlap.SuffixPrefixOverlap` | internal/gateway/response.go:236-250 | the longest proper pattern prefix that ends the buffer |
| `Overlap.FallBack` | internal/gateway/response.go:222-250 | falling back to the border loses no candidate |
| `Overlap.RestartAfterMatch` | internal/gateway/response.go:236-250 | after a full match the border of the pattern is the overlap |
| `SecretFilter.ContainsBytes` | internal/gateway/response.go:177-182 | the search finds an occurrence exactly when there is one |
| `SecretFilter.ReleaseKeepsNoneStarted` | internal/gateway/response.go:183-197 | releasing all but the overlap delivers no byte of an occurrence |
| `SecretFilter.AppendKeepsNoneStarted` | internal/gateway/response.go:204-219 | no later bytes can complete an occurrence that begins in what was delivered |
| `SecretFilter.SecretFilteringBody.OverUpstream` | internal/gateway/response.go:160-163 | a filter over the upstream body starts with nothing delivered |
| `SecretFilter.SecretFilteringBody.OverFilter` | internal/gateway/response.go:76-80 | a filter over a filter guards the secrets of both |
| `SecretFilter.SecretFilteringBody.Read` | internal/gateway/response.go:165-220 | each read ends, makes progress or reports an error, and up to the first error keeps the guarantee |
| `SecretFilter.SecretFilteringBody.Filter` | internal/gateway/response.go:176-220 | the read loop ends for every upstream |
| `SecretFilter.SecretFilteringBody.Reflect` | internal/gateway/response.go:177-182 | an occurrence discards the buffer and reports a reflection |
| `SecretFilter.SecretFilteringBody.Release` | internal/gateway/response.go:183-197 | the safe part is delivered and the overlap is kept back |
| `SecretFilter.SecretFilteringBody.Finish` | internal/gateway/response.go:198-202 | the source's own error is reported once the buffer is empty |
| `SecretFilter.SecretFilteringBody.Fill` | internal/gateway/response.go:204-219 | one read of the source, with a bounded number of empty ones |
| `SecretFilter.SecretFilteringBody.StackGuarantee` | internal/gateway/response.go:165-220 | for every stack: what is delivered is a prefix of the source without any guarded secret, a reflection means the source holds one, and any other end delivers everything received and is the source's own error or, if it has none, no progress after a hundred empty answers |
| `SecretFilter.GuardPatterns` | internal/gateway/response.go:38-82 | one filter per pattern, refused for an empty list or an empty pattern |
| `SecretFilter.Drain` | internal/gateway/response.go:165-220 | the guarantee for every sequence of read sizes and every kind of end |
| `SecretFilter.StalledUpstream` | internal/gateway/response.go:203-218 | a source that only answers nothing, without an error, ends the first read with no progress |
| `Seccomp.BuildSandboxSeccompFilter` | internal/runner/seccomp_linux.go:85-200 | a program is built exactly for accepted specs, has the precomputed length and decides the policy for every call |
| `Seccomp.ProgramDecidesPolicy` | internal/runner/seccomp_linux.go:85-200 | for every call the program ends with kill on the wrong architecture, else the specified denial, else allow |
| `Seccomp.ProgramLength` | internal/runner/seccomp_linux.go:130-142 | the length formula is the length of the program |
| `Seccomp.RunIoctl` | internal/runner/seccomp_linux.go:160-174 | the ioctl block denies exactly the listed requests and falls through with the number reloaded |
| `Seccomp.RunSocket` | internal/runner/seccomp_linux.go:175-190 | the socket block denies exactly the unlisted families, its offsets never wrapping |
| `Seccomp.RunDenyEach` | internal/runner/seccomp_linux.go:191-198 | a list of comparisons denies exactly its members |
| `Seccomp.HasDuplicate` | internal/runner/seccomp_linux.go:93-125 | decides whether a word is listed twice |
| `PktLine.ParseLength` | internal/gitadapter/pktline.go:39-83 | four lower-case hexadecimal digits and their value |
| `PktLine.PacketAt` | internal/gitadapter/pktline.go:39-83 | an accepted packet lies within the data and the prefix limit |
| `PktLine.EncodedReadsBack` | internal/gitadapter/pktline.go:39-83 | an encoded payload is read back, wherever it stands |
| `PktLine.FlushReadsBack` | internal/gitadapter/pktline.go:39-83 | a flush packet is read back |
| `PktLine.PrefixBuffer.Append` | internal/gitadapter/pktline.go:31-37 | bytes are kept exactly when they fit |
| `PktLine.ReadPacket` | internal/gitadapter/pktline.go:39-83 | consumes exactly one packet and keeps the prefix equal to what was consumed |
| `PktLine.Reader.RequireEOF` | internal/gitadapter/receive.go:567-576 | succeeds exactly at a clean end |
| `ReceiveLines.ParseOid` | internal/gitadapter/receive.go:361-371 | accepts exactly the identifiers of the format and gives their lower-case form |
| `ReceiveLines.ParseOidBytes` | internal/gitadapter/receive.go:361-371 | the loop computes the same |
| `ReceiveLines.ParseUpdate` | internal/gitadapter/receive.go:328-359 | an accepted command has canonical identifiers, a valid reference and a kind |
| `ReceiveLines.ParseCapabilities` | internal/gitadapter/receive.go:258-326 | never both report-status versions |
| `ReceiveLines.ParseCapabilityList` | internal/gitadapter/receive.go:258-326 | the token loop computes the capabilities |
| `ReceiveLines.ProtocolLine` | internal/gitadapter/receive.go:405-414 | an accepted line is not empty and holds no line break |
| `ReceivePack.AcceptedIsGood` | internal/gitadapter/receive.go:67-232 | every accepted push is well-formed: distinct valid updates, canonical identifiers, negotiated options, pack exactly when needed |
| `ReceivePack.RejectDuplicateRefs` | internal/gitadapter/receive.go:556-565 | finds a repeated reference exactly when there is one |
| `ReceivePack.ParsePushOptions` | internal/gitadapter/receive.go:416-447 | consumes the options up to the flush |
| `ReceivePack.ReadCommands` | internal/gitadapter/receive.go:86-232 | consumes the commands and what follows them |
| `ReceivePack.ParseReceivePackPrefix` | internal/gitadapter/receive.go:67-232 | an accepted body is the kept prefix followed by the rest, the prefix within its limit and the push well-formed |
| `ReceiveRoundTrip.EncodedPushParses` | internal/gitadapter/receive.go:67-371 | parsing any encoding of a valid unsigned push, with either line style, gives the push back and consumes exactly the encoding |
| `ReceiveRoundTrip.UpdateReadsBack` | internal/gitadapter/receive.go:328-359 | a written command parses to itself |
| `ReceiveRoundTrip.CapabilitiesReadBack` | internal/gitadapter/receive.go:258-326 | a written capability list parses to itself |
| `ReceiveReads.AcceptedIsWritten` | internal/gitadapter/receive.go:67-371 | whatever is accepted was written: the consumed bytes are, packet for packet, a writing of the request that was read, with nothing left over when no pack follows, all counts and lengths within the limits, and flags as the capabilities name them |
| `ReceiveReads.UpdateIsWritten` | internal/gitadapter/receive.go:328-359 | a parsed command line is the two identifiers, in either case, and the reference of the update |
| `ReceiveReads.TokensMean` | internal/gitadapter/receive.go:258-326 | each flag is set exactly when its token is listed, and the format is SHA-256 exactly when the list says so |
| `ReceiveReads.PacketIsWritten` | internal/gitadapter/pktline.go:39-83 | the bytes of a packet that was read are its one encoding |
| `ReceiveReads.RefIsSafePath` | internal/gitadapter/ref.go:10-37 | a valid reference is a path without empty or dot components, and adding the lock suffix never gives a valid reference |
| `GitPolicy.ValidateReceiveForPolicy` | internal/gitadapter/policy.go:390-423 | accepted exactly when options are negotiated, updates valid and references distinct |
| `GitPolicy.ParsedPushIsValidInput` | internal/gitadapter/policy.go:350-423 | policy never rejects a parsed push as invalid input under protocol versions 0 and 1 |
| `GitPolicy.ScanRules` | internal/gitadapter/policy.go:183-232 | one pass finds whether any allow and any deny matches, and which rules did |
| `GitPolicy.Evaluate` | internal/gitadapter/policy.go:170-244 | allowed exactly when every update has a matching allow and none a matching deny, with the first offending update named; `GitPolicyLaws.RuledOutIsAbsent` and `GitPolicyLaws.CoveringIsBare` say what matching means |
| `GitPolicy.OrderIndependent` | internal/gitadapter/policy.go:170-244 | the order and repetition of rules do not change the decision |
| `GitPolicy.DecisionIsUnique` | internal/gitadapter/policy.go:170-244 | the contract leaves one decision |
| `GitPolicyLaws.RuledOutIsAbsent` | internal/gitadapter/policy.go:324-348 | a rule that names repositories, services, operations, versions, references, update kinds, formats or flags, and for every subject none that is the subject's, is as if absent |
| `GitPolicyLaws.CoveringIsBare` | internal/gitadapter/policy.go:324-348 | a rule whose every selector holds every subject's value decides like the rule of its effect without selectors |
| `GitPolicyLaws.BareRulesDecide` | internal/gitadapter/policy.go:170-244 | no rules allow nothing, a rule without selectors that denies beats all others, and one that allows, alone, allows |
| `GitPolicyLaws.PushIsItsUpdates` | internal/gitadapter/policy.go:170-244 | a push is allowed exactly when the push of each of its updates alone is |
| `GitPolicy.CanAccessRepository` | internal/gitadapter/policy.go:250-290 | allowed exactly when an allow reaches the repository and no request-wide deny does |
| `GitPolicyLaws.ScopedDenyIsAbsent` | internal/gitadapter/policy.go:250-316 | for access, a rule for another repository, service, operation or version is as if absent, and so is a deny scoped to some pushes |
| `GitPolicyLaws.CoveringAccessIsBare` | internal/gitadapter/policy.go:250-316 | for access, an allow that covers the repository counts like one without selectors, and so does a request-wide deny |
| `GitPolicy.RequestWideMatches` | internal/gitadapter/policy.go:311-348 | a request-wide rule matches every update |
| `GitPolicy.AuthorisedIsAccessible` | internal/gitadapter/policy.go:250-348 | every permitted push or fetch passes the repository access check |
| `GitStream.CountingBoundedReader.Read` | internal/gateway/git_stream.go:132-154 | what is delivered is a prefix of the source within the maximum, and a clean end is the source's own |
| `GitStream.BufferedReader.Peek` | internal/gateway/git_stream.go:177-185 | a byte is there, or the error is the counted body's own or no progress; nothing read is lost |
| `GitStream.GzipDecoder.Read` | internal/gateway/git_stream.go:98-106 | whatever it takes and answers, every raw byte it takes went through the counter, and it reports no clean end after its input failed |
| `GitStream.StrictGzipReader.Read` | internal/gateway/git_stream.go:163-191 | up to the first error, a clean end is reported only when the decompressor ended, the request body ended, and every raw byte was decompressed |
| `GitStream.StrictGzipReader.CheckTrailing` | internal/gateway/git_stream.go:176-190 | a raw byte after the stream, or any failure but a clean end, is an error, given after the last bytes |
| `GitStream.GitMeteredReader.Read` | internal/gateway/git_stream.go:204-252 | up to the first error, what is delivered is what is charged, within the maximum and a hundred times the raw bytes read plus the slack |
| `GitStream.GitMeteredReader.Probe` | internal/gateway/git_stream.go:213-224 | at the maximum one more byte is an error and delivers nothing |
| `GitStream.GitMeteredReader.Deliver` | internal/gateway/git_stream.go:225-251 | reads below the maximum, then settles |
| `GitStream.GitMeteredReader.Admit` | internal/gateway/git_stream.go:230-241 | bytes pass only within the ratio to the raw bytes read, and are then charged once |
| `GitStream.GitMeteredReader.Settle` | internal/gateway/git_stream.go:229-251 | bytes that are refused are dropped with an error, and uncharged |
| `GitStream.Forward` | internal/gateway/git_stream.go:204-252 | for every chunking: forwarded bytes are a charged prefix of the decoded body; a compressed body forwards at most 1 MiB plus a hundred times the raw bytes, themselves a prefix of the request body within the maximum; an end of file means the whole body, decompressed to its last byte, without trailer |
| `Percent.UnescapeEscape` | internal/policy/canonical.go:59-151 | decoding takes back the encoding |
| `Percent.UnescapeEscaped` | internal/policy/canonical.go:59-151 | so it does with anything decodable after it |
| `Percent.EscapedAlphabet` | internal/policy/canonical.go:59-151 | an encoding holds only kept characters, percent signs and digits |
| `Percent.UnescapesIff` | internal/policy/canonical.go:59-151 | a string decodes exactly when every percent sign in it starts a triplet |
| `PathGlob.GlobMatches` | internal/policy/canonical.go:225-255 | the table decides whether the path splits into runs that the segments stand for |
| `PathGlob.FillRow` | internal/policy/canonical.go:232-252 | row i plus one says which prefixes of the path the first i plus one segments match |
| `PathGlob.MarkFrom` | internal/policy/canonical.go:237-251 | exactly the ends of the runs that start at a column are set |
| `PathGlob.MatchesSnoc` | internal/policy/canonical.go:225-255 | a pattern read from its end means the same as from its start |
| `CanonicalPath.CanonicalPathParts` | internal/policy/canonical.go:59-103 | accepted exactly for absolute paths of decodable, unambiguous segments, with their spelling and decoded segments; `PathLaws.AcceptedIff` says which those are |
| `CanonicalPath.CanonicalPathIdempotent` | internal/policy/canonical.go:50-103 | a canonical path is its own canonical path, with the same segments |
| `CanonicalPath.OneSpelling` | internal/policy/canonical.go:50-103 | accepted paths share a canonical path exactly when they have the same segments |
| `CanonicalPath.SpellingReadsBack` | internal/policy/canonical.go:59-103 | the spelling of acceptable segments is accepted and reads back as them |
| `CanonicalPath.ForwardedPathIsMatchedPath` | internal/gateway/gateway.go:574-583 | the decoded path that is forwarded splits into exactly the segments policy matched |
| `PathLaws.AcceptedIff` | internal/policy/canonical.go:59-103 | a path is accepted exactly when it is empty or is absolute, has no query or fragment mark, every segment decodes, none but the last is empty, and the decoded segments have no dots to remove, no separator, no control byte and nothing to decode again |
| `PathLaws.DotFreeIff` | internal/policy/canonical.go:93 | removing dot segments, as section 5.2.4 of RFC 3986 does, changes nothing exactly when there are none |
| `PathLaws.ForwardedReadsOneWay` | internal/gateway/gateway.go:574-583 | removing dots from the matched segments changes nothing, and decoding them or the forwarded path once more changes nothing |
| `PathLaws.QueryAcceptedIff` | internal/policy/canonical.go:113-147 | a query is accepted exactly when it has no plus sign, every piece decodes, and every key and value is valid text without control bytes or a second layer of encoding |
| `PathLaws.QueryDecodesOnce` | internal/policy/canonical.go:113-147 | decoding a key or value of an accepted query again changes nothing |
| `CanonicalPath.CompilePathGlob` | internal/policy/canonical.go:206-223 | a rule's path compiles exactly when it is canonicalizable, its wild segments marked |
| `CanonicalPath.ExactRuleMatchesOnePath` | internal/policy/canonical.go:206-255 | a rule without wild segments matches the requests of its canonical path and no other |
| `CanonicalQuery.CanonicalQueryIdempotent` | internal/policy/canonical.go:105-147 | a canonical query is its own canonical query and means the sorted pairs |
| `CanonicalQuery.CanonicalQueryIsTheMultiset` | internal/policy/canonical.go:105-147 | accepted queries share a canonical form exactly when they hold the same pairs as often |
| `CanonicalQuery.RenderReadsBack` | internal/policy/canonical.go:113-151 | a written query means the pairs it was written from |
| `Ordering.SortedIsUnique` | internal/policy/canonical.go:130-145 | there is one sorted arrangement of a multiset of pairs |
| `QueryForm.ParseQuery` | internal/policy/canonical.go:117-120 | groups the decoded pairs by key, in order, or fails on a bad piece |
| `QueryForm.CheckAndSort` | internal/policy/canonical.go:121-134 | in any order of the keys, accepted exactly when every key and value is acceptable, each group sorted |
| `QueryForm.FlattenIsArrange` | internal/policy/canonical.go:130-146 | writing sorted groups in key order is sorting the pairs |
| `QueryForm.CanonicalQueryForm` | internal/policy/canonical.go:113-147 | the computed text is the canonical query and the values are its pairs grouped by key |
| `GraphQL.Expansion.Visit` | internal/policy/graphql.go:271-305 | the mutating walk adds exactly the fields of the walk on values, restores the visiting set, or reports the same error |
| `GraphQL.WalkIsExact` | internal/policy/graphql.go:263-310 | a successful walk collects exactly the field names reachable through fragments |
| `GraphQL.WalkSucceedsIff` | internal/policy/graphql.go:263-310 | the walk succeeds exactly when every fragment met is defined and at most 128 are nested |
| `GraphQL.CyclesFail` | internal/policy/graphql.go:287-299 | fragments that lead back to themselves are always refused |
| `GraphQL.UndefinedFails` | internal/policy/graphql.go:287-291 | a reachable spread of an undefined fragment is always refused |
| `GraphQLRequests.GraphqlRootFields` | internal/policy/graphql.go:263-310 | the root fields, exactly when fragment names are distinct and the expansion is within bounds |
| `GraphQLRequests.SelectGraphQLOperation` | internal/policy/graphql.go:238-261 | the operation that execution would choose, refused exactly when there is none or a name is repeated |
| `GraphQLRequests.SelectionIsUnique` | internal/policy/graphql.go:238-261 | at most one operation qualifies |
| `GraphQLRequests.CollectedAreRoots` | internal/policy/graphql.go:263-310 | whatever the variables and types, execution collects only root fields |
| `GraphQLRequests.MatchesRequest` | internal/policy/graphql.go:64-84 | matched exactly when type and name agree and a nonempty set of root fields lies within the allowlist |
| `GraphQLRequests.ParseGraphQL` | internal/policy/graphql.go:86-122 | a request is built exactly when an operation is selected and expands, and describes that operation |
| `GraphQLRequests.AllowlistHolds` | internal/policy/graphql.go:64-84 | an accepted request executes only allowed root fields under every circumstance |
| `Recency.UseComesFirst` | internal/secrets/cache.go:87-94 | in the order of last use, a use moves its reference to the front |
| `SecretCache.LookupKeeps` | internal/secrets/cache.go:80-104 | the first locked section keeps the invariant |
| `SecretCache.InsertKeeps` | internal/secrets/cache.go:118-158 | the second locked section keeps the invariant, whatever happened in between |
| `SecretCache.DestroyKeeps` | internal/secrets/secrets.go:62-73 | destroying a detached secret at any moment keeps the invariant |
| `SecretCache.DetachKeeps` | internal/secrets/cache.go:162-176 | evicting one entry keeps the invariant |
| `SecretCache.DetachAllKeeps` | internal/secrets/cache.go:218-231 | emptying or closing the cache keeps the invariant |
| `SecretCache.EvictedKeeps` | internal/secrets/cache.go:147-151 | eviction ends with at most the maximum of entries and nothing else broken |
| `SecretCache.EvictsLeastRecentlyUsed` | internal/secrets/cache.go:147-151 | the entry evicted is the one whose last use is the longest ago |
| `SecretCache.MatchedSizes` | internal/secrets/cache.go:213-216 | the list is as long as the map |
| `SecretCacheObject.Cache.constructor` | internal/secrets/cache.go:44-66 | an empty cache satisfies the invariant |
| `SecretCacheObject.Cache.Lookup` | internal/secrets/cache.go:80-104 | follows the lookup step and hands exactly the detached secret to its caller; `SecretCacheHits.HitAgain` says when that step hits |
| `SecretCacheObject.Cache.Insert` | internal/secrets/cache.go:118-158 | follows the insert step and hands every newly detached secret to its caller |
| `SecretCacheObject.Cache.Store` | internal/secrets/cache.go:136-153 | replaces an expired entry, stores in front, evicts what is too much |
| `SecretCacheObject.Cache.Evict` | internal/secrets/cache.go:147-151 | the loop evicts from the back until the entries fit |
| `SecretCacheObject.Cache.Candidate` | internal/secrets/cache.go:106-116 | the backend's answer becomes a secret of its own |
| `SecretCacheObject.Cache.DestroySecret` | internal/secrets/secrets.go:62-73 | zeroes a detached secret |
| `SecretCacheObject.Cache.Invalidate` | internal/secrets/cache.go:162-176 | detaches the entry of a reference, if any |
| `SecretCacheObject.Cache.DetachAll` | internal/secrets/cache.go:218-231 | detaches every entry and lists exactly their secrets |
| `SecretCacheRuns.NextKeeps` | internal/secrets/cache.go:69-231 | every step of every call keeps the invariant |
| `SecretCacheRuns.After` | internal/secrets/cache.go:69-231 | after every interleaving: map and list agree, size within the maximum, stored secrets intact, every secret accounted for, list in order of use |
| `SecretCacheRuns.HitsAreGenuine` | internal/secrets/cache.go:87-94 | a hit gives what the backend gave for that reference earlier in the run, unexpired at the sampled time, and never a destroyed secret |
| `SecretCacheRuns.InsertionsAreGenuine` | internal/secrets/cache.go:118-158 | so does an insertion, even when another call was faster |
| `SecretCacheRuns.ClosedForEver` | internal/secrets/cache.go:202-211 | once closed, nothing is stored and every lookup is refused for ever |
| `SecretCacheHits.HitAgain` | internal/secrets/cache.go:87-97 | what was hit or stored is hit again, with the same value and expiry, before it expires, through every run that does not invalidate, purge, close or find it expired, and that uses fewer other references than the cache holds |
| `SecretCacheHits.OfferIsHit` | internal/secrets/cache.go:118-158 | offering a loaded secret ends in a hit exactly while the cache is not closed |
| `SecretCacheHits.HitsExpire` | internal/secrets/cache.go:87-97 | what a lookup hits expires one lifetime after an insertion of the run, however often it was hit since |
| `SecretCacheHits.NoHitAfterRemoval` | internal/secrets/cache.go:162-211 | the lookup after an invalidation of its reference, a purge or a closing is no hit |
| `SecretCacheHits.EvictionSpares` | internal/secrets/cache.go:147-151 | eviction spares every entry with fewer than the maximum of references used after it |
| `SecretCacheRuns.NothingLeftBehind` | internal/secrets/cache.go:202-231 | when a closed cache has no call in flight, every secret ever made is destroyed |
| `ManifestText.ServiceGrows` | internal/capabilities/capabilities.go:72-78 | no limits make a service's text longer than the largest ones |
| `ManifestText.ManifestLength` | internal/capabilities/capabilities.go:36-54 | the document's length is a constant plus its times and its joined services |
| `TopSums.FirstDominate` | internal/config/config.go:1022-1029 | at most k chosen names never outweigh the k largest |
| `TopSums.AnyChoiceIsLighter` | internal/config/config.go:1022-1029 | nor are they more, or heavier with their commas |
| `Discovery.ResolveGrant` | internal/config/config.go:1419-1432 | a grant resolves to a policy exactly while its credential, binding revision, policy revision and service are the configuration's current ones and belong together |
| `Discovery.LargestByService` | internal/config/config.go:989-1021 | in any order of the policies, the largest projection of every service, refused exactly when one cannot be projected |
| `Discovery.ValidateCapabilityManifestBound` | internal/config/config.go:952-1039 | accepted exactly when every policy can be projected and every admissible combination of services and limits fits the size limit |
| `Discovery.BoundDecides` | internal/config/config.go:1022-1038 | the combination that is checked is the heaviest admissible one |
| `DiscoveryManifest.Build` | internal/capabilities/capabilities.go:83-122 | the lines of the grants that resolve, in order of name, refused exactly for a repeated service, too many, or one that may not be shown |
| `DiscoveryManifest.LinesTell` | internal/capabilities/capabilities.go:92-117 | a line is in the manifest exactly when a grant is current under some policy and the line shows that grant's service and limits, the service's public side and the policy's summary and session rights |
| `DiscoveryManifest.RevisionsDoNotShow` | internal/capabilities/capabilities.go:92-117 | grants of one service, policy and limits give the same line, whatever credential and revisions they name |
| `DiscoveryManifest.DiscoveryAlwaysFits` | internal/gateway/capabilities.go:94-99 | under an accepted configuration the manifest of any grants at any time is within its limit |

## Left out

- HTTP handlers, TLS, dialing, header copying, audit records, the control socket and the SSH relay: input and output around the modelled decisions.
- Push certificates: the gateway disables them, so a signed push is outside `ReceivePack.Parse`.
- Gzip, base64, SHA-256, UTF-8 tables and JSON string quoting: parameters of the model; a token's hash is a number of which only equality matters.
- The limit that recent versions of Go's URL package place on the number of query parameters: not part of this model.
- Floating-point rounding in the token buckets: the model uses real numbers.
- Constant-time comparison and the zeroing of memory: a destroyed secret is one whose value is empty and flagged.
- Closing a secret filter and context cancellation: no property of the delivered bytes depends on them.
- File locks, ownership checks and fsync: a write has one of three outcomes, committed, not committed, or committed but reported as failed.
- Defaulting of options: the token store, the receive-pack parser and the cache are modelled from their normalized options on.
- The clock: a token store event has a time other than Go's zero time, and the limiter's run theorem takes non-decreasing times, as its lock and a monotone clock give them.
- GraphQL, YAML, CEL and MIME text: parsed by libraries, so the model starts from the GraphQL syntax tree.
- Field-by-field validation of configurations and of manifest lines: one predicate, a parameter of `DiscoveryManifest.Build`.
- Method, content-type, JSON and CEL constraints of a policy rule, and route selection: flat conjunctions beside the path, query and GraphQL matchers.
- TokenRuns.RevokedForEver: assumes that a later draw does not repeat the hash of the revoked token, which the code leaves to the size of its random tokens.
- Limiter.LimitManager.AllowRequest: refilling of buckets before the first refusal is part of its step, so a refused request may advance a bucket's clock; counters do not change.
- GitStream.GzipDecoder.Read: the decompressor takes its input byte by byte and may answer anything, except a clean end after its input failed; what it decompresses to is not modelled, and the header read on opening counts as bytes taken before the first read.
