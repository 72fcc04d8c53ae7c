# A verified model of the agentic-iam library

agentic-iam lets agents act under delegated capability tokens. A root principal is minted at the cost of a
proof-of-work; holders delegate by appending narrowing caveats under a keyed hash; a decision point runs five
ordered checks over the token, the declared purpose, the trust tier of the data and a spend ledger; an enforcement
point authenticates, decides, applies containment and only then fires a tool; every decision lands in a hash-chained
audit log, every call in an event log that out-of-band triggers scan. Agents live in a containment tree and earn
autonomy by verified outcomes. Possession of a token's key is proved with Ed25519 signatures.

This project models that behaviour in Dafny and proves properties of it for all inputs and all runs.

| files | what they hold |
|---|---|
| `NumberTheory`, `Bits`, `EdwardsLaw`, `Repetition` | Fermat and Euclid, bit strings, the addition law's closure and completeness, double-and-add over any monoid |
| `Ed25519`, `Signatures`, `SigningMeaning`, `CheckMeaning`, `ProofReuse` | the curve of `ed25519_ref.py`: square-root recovery, point codec, scalar multiplication, signing and checking; what keys and signatures are made of, what passing the check means, and when one signature passes twice |
| `Authn`, `Replay`, `Rebinding` | proof of possession, and exactly when presenting a proof again, or a token bound to another's key, is refused |
| `ProofOfWork`, `Tokens`, `ChainIntegrity` | `seam7_delegation.py`: mining, minting, chaining, verifying, and what holders can derive |
| `Policy`, `Audit`, `Storage` | `agent_iam.py` and `store.py`: the decision, the ledger, the sink, provenance and the audit chain |
| `Autonomy`, `Containment`, `Ranks`, `SpiffeIds` | `containment.py`: standing, the mutable tree with its teardown, children above their parents, and identifiers |
| `Gateway`, `GatewayRuns`, `CallMeaning`, `GatewayCases` | `gateway.py`: the enforcement point as a class refining a step function, the properties of every run, what each call does in terms of its inputs, and two short runs |
| `Detective`, `TriggerMeaning`, `AlertMeaning` | `detective.py`: the sliding-window scans, what their buckets mean, and what they raise in terms of the events' fields |
| `Common`, `Text` | an option type; strings joined by a separator |

Code that updates state in place is a class or a loop proved against a specification function (`Gateway.Invoke`
against `Step`, `Store.Decide` against `Authorized`, `ContainmentManager.Reap` on the heap tree, the three scans
against `Raised`); the lemmas then speak about those functions and about the invariants.

What is assumed about the curve is gathered in the predicate `Signatures.CurveFacts` and required, never hidden: the
modulus is prime, the curve constant d is not a square, addition of curve points is associative, and L copies of the
base point sum to the neutral element. Fermat's theorem, inversion, the square root of -1, completeness, closure,
commutativity, the neutral element and the base point's membership are proved. Hash functions are parameters; the
keyed hash of the token chain is a free constructor, so that equal signatures mean equal keys and messages.

Where the code differs from its own documentation, the model follows the code:

- `containment.py:174-176` says a child can never out-rank its parent. The check is made only at promotion and a
  parent's demotion does not cascade: `Ranks.OutrankParent` leaves a child above its parent.
  `Containment.ContainmentManager.RecordOutcome` says exactly when an outcome does so, which is when it is bad and some
  child is above the level the node drops to; spawning, reaping and good outcomes never do. What holds of every tree
  is that a child's level is one its parent has held since the child's birth.
- `gateway.py:23` says a replayed proof fails because every call mints a new challenge. The challenge is new, but a
  token may be bound to any key, and under the encoding of the neutral element one proof passes every challenge:
  `Replay.ReplayExecuted` is a run in which it is executed twice. `Replay.ReplayIsRefused` gives the exact condition
  for any keys, `Replay.ReplayUnderPublicKey` what it comes to for keys made from a secret.
- `authn.py:5-12` and `gateway.py:11-14` say a stolen token cannot be used without the bound key. Anyone may append a
  holder caveat, and the latest wins, so whoever has the token can bind it to a key of his own, sign for that and be
  let in: `Rebinding.ReboundTokenExecutes` is such a run. `Rebinding.ReboundAuthenticated` and
  `Rebinding.ReboundCleared` give the exact condition: only trusted issuers, whose documents name the key, prevent it.
- Section 5.1.7 of RFC 8032 rejects S at or above L; the code does not. `CheckMeaning.AddingOrder` states the
  malleability that follows, `CheckMeaning.SignatureHasDouble` a second signature for every one made from a secret,
  and `CheckMeaning.CheckDecidesEquation` what the check decides for every S, R and A.
- `gateway.py:16-21` and `containment.py:37` say a node in SHADOW observes only. The gateway runs calls whose verdict
  is GATE, and irreversible tools always get that verdict, so a live SHADOW node does run them once authorized
  (`GatewayCases.ShadowRunsIrreversible`); `GatewayRuns.AutonomyDecides` says exactly when a call runs, and
  `GatewayRuns.OnlyShadowMatters` that neither sampling nor the levels above SHADOW change anything about it.
- `gateway.py:224` speaks of budget charged for the executed call only. The decision point charges on every ALLOW,
  so shadowed calls, calls of reaped nodes and calls whose tool raises are charged too. The last leave no event.
  `GatewayCases.ChargedWithoutResult` is a run with one of each, and `GatewayRuns.LedgerMatchesLog` says exactly when
  the ledger matches the log.
- `containment.py:152-153` says a child's identity proves it is within its parent's reach. The code enforces nothing
  about names. With slash-free names this holds exactly when no root's identifier extends another's and only nodes
  without children share their place with a twin (`SpiffeIds.NestedIffTwinsChildless`), and for any names
  `SpiffeIds.NestedAfterSpawn` says which spawns keep it; `SpiffeIds.SpawnTwins`,
  `SpiffeIds.ReapTwin` and `SpiffeIds.SpawnSlashed` show twins and slashes at work.
- `store.py:120` and `schema.sql:149-150` say any edit or deletion breaks the audit chain. Dropping a tail never does;
  `Audit.EditVerifies` and `Audit.DeletionVerifies` say exactly which edits and deletions of a row do not.
- `seam7_delegation.py:155` says every argument of a delegation can only narrow. The holder caveat replaces the
  bound key, so `Tokens.LatestHolder` states it apart and `Tokens.Narrower` does not mention it; `Rebinding` says what
  follows.

## Model

| member | source | states |
|---|---|---|
| Ed25519.InverseLaw | ed25519_ref.py:27-28 | for a prime modulus, x times its computed inverse is 1, and the inverse of 0 is 0 |
| Ed25519.DValue | ed25519_ref.py:31 | the computed curve constant is the d of RFC 8032, section 5.1 |
| Ed25519.ISquared | ed25519_ref.py:32 | the computed constant squares to -1 |
| Ed25519.SquareRootCorrect | ed25519_ref.py:36-39 | the candidate, corrected by the root of -1 when needed, squares to u whenever u is a square |
| Ed25519.XRecoverCorrect | ed25519_ref.py:35-42 | for every curve point the recovered even root is x or -x |
| Ed25519.DecodeSucceedsIffOnCurve | ed25519_ref.py:87-95 | decoding fails exactly when no curve point has the encoded y |
| Ed25519.DecodeThenEncode | ed25519_ref.py:77-95 | whatever 32 bytes decode, encoding the result gives the same bytes, canonical or not |
| Ed25519.EncodeThenDecode | ed25519_ref.py:77-95 | encoding then decoding returns the point exactly when it is on the curve with x at most q and y below 2^255 |
| Bits.IntRoundTrip | ed25519_ref.py:73-84 | integer codec: decode after encode is the number modulo 2^256, encode after decode is the string |
| Bits.PairRoundTrip | ed25519_ref.py:77-80 | the point encoding holds the low 255 bits of y and the parity of x, and nothing else is lost |
| Bits.PairFromString | ed25519_ref.py:77-88 | every 32-byte string is the encoding of the pair read from it |
| Bits.IntCodecIsLittleEndian | ed25519_ref.py:73-84 | at both widths integers are read and written least significant byte first, in base 256 |
| Bits.PairCodecIsLittleEndian | ed25519_ref.py:77-80 | an encoded point is the number y mod 2^255 with the parity of x as its top bit |
| Signatures.AdditionLaw | ed25519_ref.py:50-56 | the sum is the one reduced point that satisfies the addition law's two equations, inversion done away with |
| Signatures.AddOnCurve | ed25519_ref.py:50-56 | curve points are closed under addition, and its denominators never vanish |
| Signatures.CurveIsMonoid | ed25519_ref.py:50-56 | with associativity assumed, reduced curve points form a commutative monoid with (0, 1) neutral |
| Signatures.BaseOnCurve | ed25519_ref.py:45-47 | the computed base point has the coordinates of RFC 8032, section 5.1, and lies on the curve |
| Signatures.RunScalarMult | ed25519_ref.py:59-66 | the loop computes double-and-add in exactly as many iterations as the scalar has bits |
| Repetition.DoubleAndAddIsRepeat | ed25519_ref.py:59-66 | over any monoid, double-and-add from an accumulator adds the n-fold sum to it |
| Signatures.ScalarMultIsSum | ed25519_ref.py:59-66 | double-and-add is the e-fold sum of the point and again a reduced curve point |
| Signatures.EqualTuplesEqualPoints | ed25519_ref.py:132 | comparing result tuples is comparing points modulo q |
| Signatures.ClampedScalar | ed25519_ref.py:98-101 | the secret scalar has its low three bits clear, bit 254 on top, and the hash's bits between |
| SigningMeaning.SecretScalarMeaning | ed25519_ref.py:98-101 | the secret scalar is 2^254 plus the low 254 bits of the hash of the secret with the lowest three cleared |
| SigningMeaning.PublicKeyMeaning | ed25519_ref.py:104-106 | the key is the encoding of that many copies of the base point |
| SigningMeaning.FirstHalf | ed25519_ref.py:109-115 | a signature's first half encodes N copies of the base point, N the hash of the secret's second half and the message |
| SigningMeaning.SecondHalf | ed25519_ref.py:109-115 | its second half is (N + K A) mod L, K the hash of the first half, the key and the message, A the clamped secret |
| SigningMeaning.SharedFirstHalf | ed25519_ref.py:109-115 | with L prime, two signatures under one secret share their first half exactly when the two N are congruent modulo L |
| CheckMeaning.CheckDecidesEquation | ed25519_ref.py:122-132 | for every signature, message and key, reduced or not: the check decides whether the lengths are right, R and A decode and [S mod L]B = R + [k]A |
| CheckMeaning.ResponsesModOrder | ed25519_ref.py:122-132 | only S modulo L matters to the check |
| CheckMeaning.AddingOrder | ed25519_ref.py:122-132 | malleability: with S below L, the check accepts S + L exactly when it accepts S |
| CheckMeaning.SignatureHasDouble | ed25519_ref.py:109-132 | every signature made from a secret has a different double that passes too |
| ProofReuse.Cancellation | ed25519_ref.py:50-56 | adding a curve point can be undone, by its mirror image |
| ProofReuse.PassesAgain | ed25519_ref.py:122-132 | a signature that passes for one message and key passes for another exactly when the two keys' multiples by the two hash scalars are equal |
| ProofReuse.PassesAgainUnderPublicKey | ed25519_ref.py:98-132 | under a key made from a secret, exactly when the hash scalars collide modulo L |
| ProofReuse.NeutralKeyPassesAll | ed25519_ref.py:122-132 | a key under which one signature passes for every message |
| Signatures.SignThenCheck | ed25519_ref.py:104-132 | for every secret key and message the signature passes the check |
| Authn.HonestHolderPasses | authn.py:33-43 | the holder of the secret key always passes the gateway's possession check |
| ProofOfWork.LeadingZeroBits | seam7_delegation.py:77-85 | the loop counts the leading zero bits |
| ProofOfWork.ZeroBitsMeaning | seam7_delegation.py:77-85 | at least d leading zero bits exactly when the big-endian value is below 2^(8n-d) |
| ProofOfWork.PowValidMeaning | seam7_delegation.py:88-90 | a nonce is valid exactly when its digest is a number below that bound; never, when the difficulty exceeds the digest |
| ProofOfWork.Mine | seam7_delegation.py:93-99 | the search returns the least valid nonce from start on, with the exact number of hashes, whenever one exists |
| Tokens.MintRoot | seam7_delegation.py:130-142 | a minted token carries its arguments, the least valid nonce and the identifier's keyed hash, and verifies until it expires |
| Tokens.Verify | seam7_delegation.py:175-224 | the two loops decide and fold exactly as the specification: minted, known caveats, signature, fold, expiry |
| Tokens.AcceptanceMeaning | seam7_delegation.py:175-224 | a token is accepted exactly when its digest is below the difficulty's bound, no caveat is unknown, the signature is right and the time before every expiry; each error exactly when its condition is the first to fail |
| Tokens.GenuineMeaning | seam7_delegation.py:189-196 | a signature is right exactly when it is the keyed hash of the last caveat under a right signature of the rest |
| Tokens.ClaimsMeaning | seam7_delegation.py:198-217 | the claims without folding: common capabilities, earliest expiry, least budget, number of hops |
| Tokens.LatestActor | seam7_delegation.py:213-215 | responsibility is that of the last caveat naming an actor |
| Tokens.LatestHolder | seam7_delegation.py:216-217 | the key to be proved is that of the last caveat binding one |
| Tokens.NobodyNamed | seam7_delegation.py:202-203 | without such caveats the root acts; a token is a bearer token exactly when no caveat binds a key |
| Tokens.ExtensionNarrows | seam7_delegation.py:152-160 | any longer caveat list keeps the root and only narrows capabilities, expiry and budget |
| Tokens.ChainAllGenuine | seam7_delegation.py:145-149 | chaining keeps the identifier, appends the caveats, and signs correctly exactly when its start does |
| Tokens.AttenuateAppends | seam7_delegation.py:152-172 | an attenuation appends one caveat per argument given, in the order capabilities, expiry, budget, actor, holder |
| Tokens.AttenuateClaims | seam7_delegation.py:152-172 | an attenuation's claims are the parent's, narrowed by exactly the arguments given |
| Tokens.AttenuateVerifies | seam7_delegation.py:152-224 | the child verifies exactly when the parent does and its own expiry has not passed; error for error |
| ChainIntegrity.DerivedChainExtendsIssued | seam7_delegation.py:145-149 | every signature chain derivable without the secret starts from an issued token |
| ChainIntegrity.AcceptedExtendsIssued | seam7_delegation.py:145-224 | whatever holders derive, an accepted token has an issued token's identifier, extends its caveats and claims no more |
| ChainIntegrity.TamperingRejected | seam7_delegation.py:189-196 | under a genuine signature any change of identifier or caveats is rejected |
| Policy.WeakestLinkMeaning | store.py:98-107 | a lineage meets a floor exactly when nonempty with every source's recorded tier at the floor; claimed tiers do not matter |
| Policy.SpendLedger.Charge | agent_iam.py:101-102 | a charge adds to one root's total and to no other |
| Policy.TriageSink.Emit | store.py:78-88 | an incident already there changes nothing, a new one comes last |
| Policy.Authorize | agent_iam.py:140-216 | decides as specified; charges the root exactly on a permit, emits an incident exactly otherwise |
| Policy.DecideMeaning | agent_iam.py:173-216 | permit exactly when all five checks hold; pending exactly when entitled and only the lineage falls short |
| Policy.DecisionReasons | agent_iam.py:173-216 | every decision with its state, code and reason, by the first of the five checks that fails |
| Policy.DelegationNeverGains | agent_iam.py:173-216 | whatever is permitted to an attenuated token is permitted to the token it was attenuated from |
| Policy.ApprovalProgress | agent_iam.py:194-216 | after any vouches a pending request is decided by budget alone if all its sources reach the floor, and stays pending otherwise |
| Policy.RaisingTiersKeepsPermit | agent_iam.py:194-203 | raising tiers never turns a permit into a refusal |
| Audit.DecisionAuditLog.Record | store.py:135-157 | appends one row chained to the last hash and keeps the chain |
| Audit.DecisionAuditLog.VerifyChain | store.py:159-167 | answers exactly whether every row names its predecessor's hash and carries its own |
| Audit.RecordedLogVerifies | store.py:135-167 | every log built by recording verifies |
| Audit.LastHashBindsTexts | store.py:130-133 | verified logs share their last hash exactly when their rows read the same, row for row |
| Audit.LastHashBindsLog | store.py:130-167 | verified logs, pipe-free before the tool and None-distinct, at times that read differently, with the same last hash are identical |
| Audit.UnreadableFieldsCollide | store.py:130-133 | without those conditions different rows have the same hash |
| Audit.PrefixVerifies | store.py:159-167 | dropping a tail of a log that verifies leaves one that does |
| Audit.EditVerifies | store.py:159-167 | editing one row leaves a log that verifies exactly when the new row keeps the previous hash, carries its own, and has the old one's unless it is last |
| Audit.DeletionVerifies | store.py:159-167 | deleting one row does exactly when it is last or its hash is its predecessor's |
| Storage.Provenance.Vouch | store.py:109-116 | a vouch sets one source's tier, voucher and time and leaves the others |
| Storage.Store.Enroll | store.py:186-195 | an enrolment sets one identity's document and role grant |
| Storage.Store.Decide | store.py:221-224 | one authorization over all tables: charge or incident, and exactly one audit row |
| CallMeaning.EntryMeaning | store.py:135-150 | an audit entry hashes tool, needs, purpose, sources with repetitions and time of the request, and names the decision's code, root, actor and tool |
| GatewayRuns.AutonomyDecides | gateway.py:157-171 | a cleared call is denied exactly at a reaped node, observed exactly for a reversible tool in SHADOW, and runs otherwise |
| GatewayRuns.OnlyShadowMatters | containment.py:119-134 | above SHADOW, and for irreversible tools at any level, level and sampling change nothing about a call or the state after it |
| GatewayCases.ShadowRunsIrreversible | gateway.py:157-171 | a live SHADOW node runs an irreversible tool while its reversible call is only observed |
| GatewayCases.ChargedWithoutResult | gateway.py:140-171 | a run in which an observed call and a raising one are both charged |
| Autonomy.AutonomyIsEarned | containment.py:172-194 | over every history of outcomes: five good ones per level, each counted once, and the level was under a ceiling at a promotion |
| Autonomy.OutcomeMeaning | containment.py:178-194 | an outcome raises the level exactly when it is good, the fifth in a row and the level below TRUSTED and the ceiling, then by one; a bad one drops it at once and starts over |
| Autonomy.StreakMeaning | containment.py:188-194 | below TRUSTED the streak is the run of good outcomes modulo five |
| Autonomy.Climb | containment.py:188-194 | from any standing without a streak, n good outcomes under a constant ceiling lead up n / 5 levels, to the ceiling and no further |
| Autonomy.ClimbFromBirth | containment.py:172-194 | from birth they lead to level n / 5, or to the ceiling |
| Autonomy.RoomMeaning | containment.py:69-74 | room for 0, 1, 3 and 8 children, and every level has more room, time and capabilities than the one below |
| Autonomy.ShapedClaims | containment.py:137-144 | the claims of a token shaped by a level: the level's capability bits, 60, 120, 600 or 3600 seconds, and responsibility with the node |
| Autonomy.RevokedInstantly | containment.py:178-187 | one bad outcome drops the level at once, and rising again costs five good ones a level |
| Autonomy.FloorStaysClosed | containment.py:137-144 | a token shaped by a level, however extended, never permits a tool needing DELETE, SPEND or RED_FLAG, nor anything after the level's window |
| Containment.Contained.Count | containment.py:172-194 | the branches update level, streak and counters as the outcome function says, with the parent's level as ceiling |
| Containment.CeilingMeaning | containment.py:191-191 | a root may rise to TRUSTED, a child to its parent's present level |
| Containment.SimRuntime.Kill | containment.py:114-116 | a kill removes one id and logs it |
| Containment.ContainmentManager.Spawn | containment.py:151-162 | succeeds exactly under a live parent with room; adds one shadow child and keeps every invariant of the tree, no child above its parent included |
| Containment.ContainmentManager.RecordOutcome | containment.py:172-194 | changes one node's standing only and keeps earned autonomy and the parent bound for every node; where no child was above its parent, one is afterwards exactly when the outcome is bad and a child of the node was above the level it drops to |
| Ranks.OutrankParent | containment.py:172-194 | a child graduates and its parent breaches the floor: the child is above it |
| Containment.ContainmentManager.MayExecute | containment.py:119-197 | ungated running takes a live node from SUPERVISED up and a reversible action; a spawned node has then earned ten good outcomes under a parent that has held SUPERVISED since its birth |
| Containment.ContainmentManager.Reap | containment.py:164-170 | terminates, kills exactly the node and its descendants, descendants first, each once, and leaves no live node under a dead one |
| Containment.ContainmentManager.ReapAll | containment.py:167-168 | the loop over the children tears down exactly their subtrees |
| Containment.JoinTeardowns | containment.py:164-170 | teardowns of siblings, one after the other, are a teardown of them all |
| SpiffeIds.IdDeterminesNode | containment.py:159-159 | with slash-free names, no twins and no root's id extending another's, equal ids mean the same node |
| SpiffeIds.IdsAreDistinct | containment.py:151-162 | with slash-free names and no root's id extending another's, all ids are distinct exactly when there are no twins, siblings or roots |
| SpiffeIds.NestedIffTwinsChildless | containment.py:151-162 | with slash-free names, id(p) and a slash begin id(n) exactly for proper ancestors, for all pairs, if and only if no root's id extends another's and only childless nodes have twins |
| SpiffeIds.NestedAfterSpawn | containment.py:151-162 | whatever the names, one more child keeps that exactly when its id extends only its parent's and those above, and no id extends it |
| SpiffeIds.PrefixIffAncestor | containment.py:151-159 | the same for one pair, under that condition |
| SpiffeIds.RunningIsLive | containment.py:105-116 | in every tree live nodes have only live ancestors; with distinct ids, as in a well-named tree, the runtime runs exactly the live spawned nodes |
| SpiffeIds.SpawnTwins | containment.py:151-162 | two children of one parent may get the same name and so the same id |
| SpiffeIds.SpawnSlashed | containment.py:151-162 | a child named "a/b" gets the id of the child "b" of its sibling "a", and seems to lie below that sibling |
| SpiffeIds.ReapTwin | containment.py:164-170 | tearing one of them down takes the other, still alive, off the running set |
| Gateway.Gateway.Register | gateway.py:61-64 | registering sets one tool |
| Gateway.Gateway.CheckAttestation | gateway.py:107-123 | the attestation checks in order, with the incident and event each refusal leaves |
| Gateway.Gateway.CheckPossession | gateway.py:125-138 | the possession check: a fresh challenge, signed by the bound key |
| Gateway.Gateway.Run | gateway.py:140-171 | authorization, containment verdict and execution, with a tool that returns or raises |
| Gateway.Gateway.Invoke | gateway.py:84-171 | one invocation takes the whole state exactly to the step function's result |
| CallMeaning.AuthenticationMeaning | gateway.py:100-138 | an accepted token's call passes authentication exactly when no issuers are trusted or its root is documented under the token's key and within its role, and a bound key is proved on the fresh challenge |
| CallMeaning.RefusalMeaning | gateway.py:107-138 | otherwise its code, and its incident field by field, by the first condition that fails |
| CallMeaning.OutcomeOfCall | gateway.py:84-171 | the code of every call: unknown tool, invalid token, and for authenticated calls the decision's or what the acting node allows |
| CallMeaning.EventMeaning | gateway.py:90-98 | the event of a call, field by field |
| CallMeaning.RowMeaning | gateway.py:141-142 | an authenticated call adds its decision's entry to the audit log, chained to the last row |
| CallMeaning.ChallengeMeaning | gateway.py:66-70 | challenges are the same exactly when time, count, token signature and tool are |
| GatewayRuns.StepChallenges | gateway.py:66-70 | the count advances exactly on an attested call of a bound token that comes with a signer |
| GatewayRuns.StepMeaning | gateway.py:84-171 | complete mediation: a tool runs exactly on an authenticated, permitted call of a runnable node; charges exactly on permitted ones, within budget |
| GatewayRuns.StepTrails | gateway.py:90-98 | every call of a known tool leaves one event unless the tool raises, every authenticated one also one audit row, and tiers and identities are untouched |
| GatewayRuns.RunsAreAttested | gateway.py:107-138 | with trusted issuers, a tool only runs for an attested principal, within its role, on a fresh challenge signed with the document's key |
| GatewayRuns.StepIncidents | gateway.py:72-82 | a refused call of an accepted token adds its incident once, with the tool's demands and the code, reason, purpose and tier of the refusal; no other call adds any |
| GatewayRuns.EveryRefusalIsChronicled | gateway.py:72-150 | over every run, each refused call of an accepted token has an incident agreeing with its event, reason against code included, and each incident such a refused call |
| GatewayRuns.EveryRunBalances | gateway.py:140-171 | over every run: the ledger equals the cost of the charged calls, these match the ALLOW rows in order, the log holds all calls but those that raised, and the audit chain verifies |
| GatewayRuns.LedgerMatchesLog | gateway.py:140-171 | over every run the ledger equals the cost of EXECUTED, SHADOWED and CONTAINED_DENY events plus that of raised calls; without raised calls those events match the ALLOW rows in order |
| GatewayRuns.SpendCeiling | agent_iam.py:207-216 | over every run a root's total is within the folded, and so the minted, budget of some token permitted for it |
| GatewayRuns.ChallengesAreFresh | gateway.py:66-70 | no challenge is issued twice in a run |
| GatewayRuns.ProofDecides | gateway.py:125-138 | a challenged call is turned away, unexecuted and uncharged, exactly when its proof fails the check for the fresh challenge |
| Replay.ReplayIsRefused | gateway.py:132-138 | over every run, a proof presented again meets another challenge and is refused, unexecuted and uncharged, exactly when it does not fit both |
| Replay.ReplayUnderPublicKey | authn.py:33-43 | for tokens bound to keys made from a secret, exactly when the two hash scalars differ modulo L |
| Replay.ReplayExecuted | gateway.py:132-138 | a run in which the same proof is presented twice and executed twice |
| Rebinding.ReboundDerivable | seam7_delegation.py:145-149 | binding a token to another key takes no secret |
| Rebinding.ReboundAuthenticated | gateway.py:107-138 | an authenticated call still is, once rebound to another's key and signed with that, exactly when no issuers are trusted or the key was the bound one |
| Rebinding.ReboundCleared | gateway.py:84-171 | it is then cleared as well, under exactly the same condition |
| Rebinding.ReboundTokenExecutes | gateway.py:125-138 | without trusted issuers a token bound to any key runs for whoever rebinds it, while bearer use of it is refused |
| GatewayRuns.NothingBeyondIssued | gateway.py:84-171 | a permitted call of a derivable token is covered by an issued token: capabilities, expiry and budget |
| GatewayRuns.SpendWithinIssued | agent_iam.py:207-216 | over a run of derivable tokens no root spends past the budget of an issued token of its own |
| Detective.ScanLoopStutter | detective.py:92-105 | the pass with its bucket dictionary raises exactly the specified incidents, in order |
| Detective.ScanFanOut | detective.py:116-127 | likewise for actions per root |
| Detective.ScanBudgetVelocity | detective.py:138-151 | likewise for spend per root; calls that did not execute are skipped |
| AlertMeaning.SharedBucket | detective.py:96-144 | events share a bucket exactly when actor, tool and payload agree; when the roots agree; or when both executed and the roots agree |
| AlertMeaning.FiresWhenDue | detective.py:92-151 | with such events in time order, an alert is raised at an event exactly when those since the last alert among them, within the window, reach the threshold or have cost more than the maximum |
| AlertMeaning.RaisedMeaning | detective.py:92-151 | what a scan returns is one alert for each such position, in order, with its event and what was counted |
| TriggerMeaning.DecidesLikeNaive | detective.py:92-151 | with a key's events in time order, or just none dropping out of the window and coming back, an incident is raised exactly when a naive recount since the key's last incident within the window reaches the limit |
| TriggerMeaning.AgreesIffSteady | detective.py:92-151 | on any log the pass decides on the naive groups of a key, whatever the limit, if and only if no event of the key drops out of the window and comes back |
| TriggerMeaning.BucketMeaning | detective.py:92-151 | on any log a bucket holds exactly the key's events since the last reset that were in the window at every later event of the key |
| TriggerMeaning.UnsortedLogDiffers | detective.py:116-127 | on an unsorted log the pass can miss an incident the recount raises |
| TriggerMeaning.BurstRaisesIncident | detective.py:92-151 | under that condition, events of a key that lie within the window of the last of them and reach the limit include one that raises an incident |
| TriggerMeaning.SortedBurstRaisesIncident | detective.py:92-151 | on a time-sorted log it is enough that they span less than the window |
| TriggerMeaning.NoDoubleCounting | detective.py:92-151 | on any log, a key's incidents times the limit, and what is still in its bucket, never exceed what its events weigh: their number, or their positive costs |
| TriggerMeaning.IncidentGroupsDisjoint | detective.py:95-151 | on any log, the events behind two incidents are different events |

## Left out

- Signatures.SignThenCheck: assumes the facts gathered in `CurveFacts` (q prime, d not a square, associativity, order of the base point); unforgeability is a computational claim and not stated.
- Replay.ReplayUnderPublicKey: assumes besides that the order L is prime; how likely hash scalars collide is a computational matter and not stated.
- TriggerMeaning.AgreesIffSteady: for windows above zero; with a window of zero or less, the two root triggers still count the event itself and the naive recount does not.
- ProofOfWork.Mine: requires that a valid nonce exists, because the source's loop runs forever otherwise.
- Policy.Authorize: incident text is a datatype; its truncated hash, the request handle and message wording are not modelled, so incidents are the same exactly when their fields are.
- Policy.TriageSink.Emit: equality of incidents stands for equality of their truncated hashes.
- Gateway.Gateway.Run: what a tool does besides returning or raising, and its output, are not modelled; that it raises is an input of the call.
- Gateway.Gateway.CheckPossession: a signer that returns; one that raises leaves the source's `invoke` with the challenge counted and no event.
- SpiffeIds.NestedIffTwinsChildless: for slash-free names; for names with slashes `SpiffeIds.NestedAfterSpawn` gives the condition spawn by spawn.
- Containment.ContainmentManager.ReapAll: the source's loop sits inside `reap`; it is a method of its own here, in mutual recursion with `Reap`.
- Containment.Contained.Count: `record_outcome`'s body lives in the node, and the manager's method calls it.
- SHA-256, SHA-512 and HMAC: parameters or free constructors; JSON text is modelled by the data it renders, so only well-typed caveats and tokens whose signature text is hexadecimal occur.
- Caveats of a known type with a missing or extra field: the source raises KeyError, or signs and then ignores the field.
- Capability masks: sets of bit positions; negative masks, which Python reads as infinite, are not modelled.
- Floats: time, cost and budget are reals without rounding, infinity or NaN.
- SQLite: tables are maps and sequences; transactions, reopening a file, schema triggers and foreign keys are left out, so every charged root is taken to be registered.
- The mint ledger (`principal`) and the `tool_policy` table: written by the source and read by nothing modelled here.
- Identity issuance: whether an identity document is signed by its issuer is a parameter of the gateway model.
- `InjectionMarkerTrigger` rests on a regular-expression engine; `ShadowMonitor.sweep` only removes duplicates.
- Self-reported provenance (`provenance.py`): the authoritative resolver is modelled; it is the one the store uses.
- `mcp_server.py` and `hooks/`: message plumbing over functions modelled here, and a first-match scan of regular expressions.
- The repository's quick start calls `issuer.attest` and a one-argument `enroll`, which the code does not have; the model follows the code.
