# Verification of the NewZoneCore kernel

A Dafny model of the parts of NewZoneCore that compute something or keep an invariant over whole runs, with
proofs of what those parts are for. `dafny verify dfyconfig.toml` checks all of it.

| part | modules | repository files |
|---|---|---|
| X25519 and key agreement | `Numbers`, `Strings`, `LittleEndian`, `X25519`, `MontgomeryCurves`, `KeyAgreement` | `core/libs/x25519.js` |
| Lattice encryption | `LatticeEncryption`, `LatticeMargin`, `LatticeText` | `core/security/quantum-resistant.js` |
| Canonical JSON and signed packets | `JsonText`, `CanonicalJson`, `PrintedJson`, `JsonReader`, `RoutingPacket` | `core/crypto/routing.js` |
| Service start-up and shut-down | `StartOrder`, `AcyclicGraphs`, `StartRule`, `ServiceEvents`, `ServiceLifecycle`, `StartupRuns`, `PriorityOrder`, `AutonomousManager`, `ServiceManager` | `core/autonomous/manager.js`, `core/lifecycle/manager.js` |
| Mnemonics | `BitStrings`, `WordText`, `Mnemonic`, `MnemonicNumbers` | `core/crypto/seed.js` |
| Secure channel | `ChannelContext`, `SecureChannel`, `ChannelEpochs` | `core/crypto/channel.js`, `core/crypto/derive.js` |
| Key derivation | `Hkdf` | `core/libs/hkdf.js` |
| Routing network | `RoutedMessages`, `SeenCache`, `RoutingLayers`, `RoutingNetwork` | `core/routing/layer.js` |
| Access tokens and lockout | `Base64`, `AccessTokens`, `LoginLockout` | `core/crypto/auth.js` |

Code that updates objects, arrays or loop variables is modelled by classes and methods, each proved against a
specification function; code made of expressions is modelled by functions. The theorems are about the
specification functions, and over runs as sequences of events. What the services announce on the event bus is
kept as a log, so that "at every moment" is a statement about every prefix of it.

What the theorems rest on, always as an explicit hypothesis of the lemma that needs it:

- hashing, HMAC-SHA2, authenticated encryption, Ed25519, JSON parsing and UTF-8 are functions handed in, with
  only the laws named in each module's `Sound` predicate (for example that opening a sealed message gives the
  message). The ideal signature schemes have names of their own: `RoutedMessages.Recognises` and
  `RoutingPacket.Ideal` (a signature verifies for one text only), `RoutingPacket.Unforged` (the signature at hand
  verifies only for texts that were signed), and so have the ideal cipher, `ChannelEpochs.Authentic`, and the absence
  of collisions among the keys of a run, `SecureChannel.KeysApart` and `ChannelEpochs.KeyTellsEpoch`. Lemmas show that
  the ideal schemes exist (`RoutingPacket.IdealSignatures`, `ChannelEpochs.AuthenticCipher`);
- clocks, random bytes, fresh ids and the outcomes of hooks are parameters, and may take any values;
- the primality of 2^255 - 19, and what section 4.1 of RFC 7748 says of its curve: points form a commutative group, x
  tells them apart up to sign, and their affine x-coordinates satisfy the doubling and differential-addition laws of
  y^2 = x^3 + 486662x^2 + x (`MontgomeryCurves.MontgomeryCurve`, which names nothing of the ladder). The curve and
  its quadratic twist both satisfy these, and between them their x-coordinates cover the field
  (`MontgomeryCurves.Covered`).

## Where the code and its documentation disagree

- `LatticeEncryption.decrypt` passes the recovered 0/1 vector to `_decodeMessage`, which thresholds it a second
  time at q/4 (core/security/quantum-resistant.js:147, 169-185). For q of 4 or more, and for q = 1, the returned
  text is always empty; for q of 2 and 3 noise decides it. So decryption does not undo encryption of any text but
  the empty one (`LatticeText.TextComesBackIff`). The margin theorems are about the recovered vector.
- A `RoutedMessage` with ttl 0 is read back with ttl 10 (core/routing/layer.js:80), so the ttl does not bound a
  path; the hop limit does. A message sent with a ttl of 0 or more is never found expired.
- A hop signature covers the ttl at the time of signing but is checked against the ttl of the received message
  (core/routing/layer.js:106-150, 169-179). Unless the hop left with ttl 0, in which case it never verifies, it
  verifies at the next receiver; of later receivers only one verifies it, that after exactly ten relays, when the ttl
  has come round, and only if the hop left with at most 10 (`RoutingNetwork.HopSignatureSurvives`). Where every node
  signs and verifies, no message makes more than two hops.
- `_forward` does not hand the changed message to its caller (core/routing/layer.js:630-656). The network model
  lets the changed message travel.
- `mnemonicToEntropy` accepts 3, 6 and 9 words as well as the 12 to 24 that `entropyToMnemonic` makes
  (`Mnemonic.EncoderMakesIff`).
- `stableStringify` prints `[undefined]` and `[]` alike, and nothing else that differs by more than member order
  (`PrintedJson.PrintsAlikeIff`).
- `SecureChannel` accepts a packet as often as it is delivered, and a `rekey` of one end alone cuts the channel in both
  directions (`ChannelEpochs.ReplaysAccepted`, `NextOpensIff`).
- `ServiceManager.start` has no check for cycles: on one it calls itself until the call stack is used up, and throws
  (core/lifecycle/manager.js:480-488). No service on the cycle is started.
- An access token whose expiry second is 0 never expires, because the check is skipped for a falsy `exp`.

## Model

| member | source | states |
|---|---|---|
| `LittleEndian.BytesToBigInt` | core/libs/x25519.js:83-89 | the shift-and-or loop returns the little-endian value of the bytes |
| `LittleEndian.BigIntToBytes` | core/libs/x25519.js:91-99 | the mask-and-shift loop returns the little-endian digits, truncating above `size` bytes |
| `LittleEndian.EncodeDecode` | core/libs/x25519.js:83-99 | encoding the decoded value gives back every byte string, whatever its length |
| `LittleEndian.DecodeEncode` | core/libs/x25519.js:83-99 | decoding an encoding gives the number modulo 256^size |
| `LittleEndian.ClampScalarBytes` | core/libs/x25519.js:103-112 | exactly the 32-byte inputs are taken; the three byte masks amount to clearing bits 0-2 and 255 and setting bit 254 of the number |
| `LittleEndian.ClampedRange` | core/libs/x25519.js:108-111 | a clamped scalar is the multiple of 8 in [2^254, 2^255) that the low 254 bits of the number round down to |
| `LittleEndian.DecodeUCoordinateBytes` | core/libs/x25519.js:114-121 | exactly the 32-byte inputs are taken; the mask amounts to reducing the number modulo 2^255 |
| `LittleEndian.MaskedRange` | core/libs/x25519.js:114-121 | a masked u-coordinate is below 2^255 and differs from the number given by a multiple of it |
| `KeyAgreement.FieldSize` | core/libs/x25519.js:7 | the modulus is 2^255 - 19 |
| `X25519.Mod` | core/libs/x25519.js:10-13 | the sign fix-up of the truncating remainder gives the residue in [0, P) for negative operands too |
| `X25519.Inv` | core/libs/x25519.js:19-29 | square-and-multiply returns a^(P-2) mod P |
| `Numbers.FermatInverse` | core/libs/x25519.js:19-29 | for every prime p and a not divisible by it, a * a^(p-2) is 1 modulo p (proved from the binomial theorem) |
| `X25519.InverseCorrect` | core/libs/x25519.js:19-29 | with P prime, `inv` inverts every element that is not 0 mod P and sends 0 to 0 |
| `X25519.DoublingTemporaries` | core/libs/x25519.js:50-63 | A, AA, B, BB, E and the products built from them are (x^2-z^2)^2 and 4xz(x^2+486662xz+z^2), for any modulus |
| `X25519.AdditionTemporaries` | core/libs/x25519.js:50-61 | DA, CB and the products built from them are the differential-addition polynomials, for any modulus |
| `X25519.StepTemporaries` | core/libs/x25519.js:50-68 | one loop body is one doubling and one differential addition in the field |
| `MontgomeryCurves.Doubling` | core/libs/x25519.js:50-63 | on the curve y^2 = x^3 + 486662x^2 + x of section 4.1 of RFC 7748, with its affine doubling law 4(x^3 + 486662x^2 + x) x(2Q) = (x^2 - 1)^2: the doubling polynomials represent 2Q for every projective representative of Q, infinity and the points of order 2 included |
| `MontgomeryCurves.DifferentialAddition` | core/libs/x25519.js:50-61 | with the affine law x(S+T) x(S-T) (x(S) - x(T))^2 = (x(S) x(T) - 1)^2: the addition polynomials represent S+T for all representatives of S and T whose difference has an x-coordinate other than 0 |
| `X25519.LadderPairStep` | core/libs/x25519.js:42-70 | one step of the ladder without swaps, on operands that a pending swap has put in place |
| `X25519.MontgomeryLadder` | core/libs/x25519.js:33-79 | the loop with deferred swaps returns what the ladder without swaps returns, for every scalar and u |
| `KeyAgreement.ScalarMult` | core/libs/x25519.js:125-130 | `x25519` throws exactly on a wrong length and otherwise encodes the ladder result |
| `KeyAgreement.ScalarMultBase` | core/libs/x25519.js:132-136 | `x25519Base` is `x25519` at the encoding of 9 |
| `KeyAgreement.OutputIsCanonical` | core/libs/x25519.js:125-130 | the output is the encoding of a number below P, and reading it as a u-coordinate gives that number back |
| `KeyAgreement.NonCanonicalAccepted` | core/libs/x25519.js:33-79 | u and u mod P give the same result (section 5 of RFC 7748) |
| `KeyAgreement.LadderRepresents` | core/libs/x25519.js:41-71 | on every such curve, after bit t the pair stands for [k>>t]Q and [(k>>t)+1]Q |
| `KeyAgreement.LadderCorrect` | core/libs/x25519.js:33-79 | on every such curve and with P prime, the ladder returns the x-coordinate of [k]Q, for every k < 2^255 and every point, 0 and infinity included |
| `KeyAgreement.LadderTwice` | core/libs/x25519.js:125-136 | feeding one result into a second ladder multiplies the point by both scalars |
| `KeyAgreement.Agreement` | core/libs/x25519.js:125-130 | applying two private keys in either order to any 32 bytes gives the same bytes, whether the bytes name a point of the curve or of its twist |
| `KeyAgreement.SharedSecretAgrees` | core/libs/x25519.js:125-136 | both parties of a key exchange over the base point compute the same secret |
| `LatticeEncryption.LatticeEncryption.constructor` | core/security/quantum-resistant.js:13-42 | defaults for n, q and eta; A, s and b = A*s + e mod q as the random bytes determine them |
| `LatticeEncryption.LatticeEncryption.GenerateMatrix` | core/security/quantum-resistant.js:47-56 | every entry is its 16-bit word modulo q, for any number of rows and columns |
| `LatticeEncryption.LatticeEncryption.GenerateSecretVector` | core/security/quantum-resistant.js:61-74 | every entry is its byte modulo 2*eta+1, less eta, hence within eta of 0 |
| `LatticeEncryption.LatticeEncryption.MatrixVectorMult` | core/security/quantum-resistant.js:79-89 | the nested loops compute A*x + e with every entry reduced to [0, q), negative sums included |
| `LatticeEncryption.LatticeEncryption.Transpose` | core/security/quantum-resistant.js:190-202 | the nested loops exchange rows and columns of any rectangle with a row |
| `LatticeEncryption.LatticeEncryption.EncodeMessage` | core/security/quantum-resistant.js:153-164 | entry i is floor(q/2) where byte i of the text is not 0, and 0 elsewhere |
| `LatticeEncryption.LatticeEncryption.Encrypt` | core/security/quantum-resistant.js:94-124 | u = A^T r + e1 and v = b.r + e2 + m, reduced, with the three vectors drawn from bytes |
| `LatticeEncryption.LatticeEncryption.Decrypt` | core/security/quantum-resistant.js:129-148 | v - s.u reduced and thresholded at q/4 and 3q/4, then decoded to a text |
| `LatticeEncryption.LatticeEncryption.DecodeMessage` | core/security/quantum-resistant.js:169-185 | a second threshold test, then one character for each group of eight bits that is not zero |
| `LatticeEncryption.Adjoint` | core/security/quantum-resistant.js:106-113 | <x, A^T y> = <A x, y> for all square A, x and y, by rows |
| `LatticeEncryption.ThresholdedValue` | core/security/quantum-resistant.js:106-142 | what is thresholded is m_i + e.r + e2_i - s.e1 modulo q |
| `LatticeMargin.DrawnIff` | core/security/quantum-resistant.js:61-74 | the vectors that bytes can draw are exactly those with entries from -eta to eta, or to 255 - eta above eta = 127 |
| `LatticeMargin.DecryptionCorrect` | core/security/quantum-resistant.js:94-145 | within the margin every key, message and randomness decrypts to the message bits |
| `LatticeMargin.MarginNecessary` | core/security/quantum-resistant.js:61-145 | outside the margin some key and randomness that bytes can draw decrypt some message to another one |
| `LatticeMargin.DecryptionCorrectIff` | core/security/quantum-resistant.js:61-145 | for every n, q and eta: the bits always come back right if and only if the two extremes of the noise, over the draws taken modulo q nearest to 0, stay strictly inside the threshold |
| `LatticeMargin.MessageRecovered` | core/security/quantum-resistant.js:94-145 | from random bytes to recovered vector, for every message, key and draw: within the margin entry i of the vector recovered from the outputs of `encrypt` is 1 if and only if the message has a byte i and it is not 0 |
| `LatticeMargin.MarginOfSmallEta` | core/security/quantum-resistant.js:61-145 | up to eta = 127 that is 4(2n*eta^2 + eta) < q - 2 for odd q and < q for even q |
| `LatticeMargin.DefaultsHaveMargin` | core/security/quantum-resistant.js:13-16 | n = 64, q = 3329, eta = 2 are within the margin |
| `LatticeText.TextVanishes` | core/security/quantum-resistant.js:129-185 | for q other than 2 and 3 the text that `decrypt` returns is empty, whatever the key and the ciphertext |
| `LatticeText.CharactersBack` | core/security/quantum-resistant.js:174-184 | from a vector that passes the second test, the text is read in groups of eight bits, in order, lowest bit first: the bits of any text of codes 1 to 255 give that text |
| `LatticeText.TextComesBackIff` | core/security/quantum-resistant.js:94-185 | for every n, q and eta: a text comes back for every key and all randomness if and only if it is empty and q is neither 2 nor 3 |
| `JsonText.QuoteUnique` | core/crypto/routing.js:14 | a quoted string can be read back from the front of any text: the escapes of section 7 of RFC 8259 determine it |
| `JsonText.NumberUnique` | core/crypto/routing.js:14 | so can a printed integer |
| `CanonicalJson.SortSorts` | core/crypto/routing.js:19 | the sort puts distinct keys in strictly increasing order |
| `JsonReader.LessIff` | core/crypto/routing.js:19 | that order is the lexicographic one: a comes before b if and only if, where they first differ, a ends or has the smaller code unit |
| `CanonicalJson.SortedUnique` | core/crypto/routing.js:19 | a strictly sorted list is determined by its elements |
| `CanonicalJson.EquivalentPrints` | core/crypto/routing.js:12-22 | values that differ only in member order, at any depth, print alike |
| `CanonicalJson.Unique` | core/crypto/routing.js:12-22 | a printed value can be read back, up to member order, from the front of a longer text |
| `CanonicalJson.Canonical` | core/crypto/routing.js:12-22 | two JSON values print the same text if and only if they are equal up to member order at every depth |
| `JsonReader.NumberBack` | core/crypto/routing.js:14 | a reader written from section 6 of RFC 8259 gets the integer back from the front of any text that does not go on with a digit |
| `JsonReader.StringBack` | core/crypto/routing.js:14 | a reader written from section 7 gets every string back, escapes included, from the front of any text |
| `JsonReader.Pieces` | core/crypto/routing.js:14 | exactly the seven units with a short escape, lone surrogates and the other controls are escaped, the latter two in six units with lower-case digits |
| `JsonReader.ReadBack` | core/crypto/routing.js:12-22 | a reader of the grammar of RFC 8259 that allows no white space gets every JSON value back from its text, with the members of every object in rising order of their names and nothing else changed |
| `PrintedJson.PrintsAlikeIff` | core/crypto/routing.js:12-22 | arrays with undefined elements included: two values print the same text if and only if they are equal up to member order once every `[undefined]` is read as `[]` |
| `PrintedJson.TextDeterminesIff` | core/crypto/routing.js:12-22 | the text determines a value, up to member order, if and only if no array in it is `[]` or `[undefined]` |
| `RoutingPacket.SigningTextExact` | core/crypto/routing.js:24-28 | two packets have one signing text if and only if their five signed fields print alike, one by one |
| `RoutingPacket.SignedPacketFields` | core/crypto/routing.js:32-46 | a signed packet carries its fields and the signature of its own signing text |
| `RoutingPacket.AcceptedIff` | core/crypto/routing.js:50-81 | any packet whatever is accepted if and only if its version is the protocol, node id, nonce and signature are none of the falsy values, its time is a number within the window, and the known key of its node verifies the signature |
| `RoutingPacket.ReorderedPacketVerifies` | core/crypto/routing.js:32-81 | a signed packet, reordered at any depth, verifies if and only if the clock is inside the skew window (and node id and nonce are not empty), and yields its node id and payload |
| `RoutingPacket.TamperedPacketRejected` | core/crypto/routing.js:32-81 | with ideal signatures, anything that carries the signature of a packet is accepted under its signer's key if and only if all five signed fields print as the signed ones do and the clock is in the window; the payload handed on prints alike too |
| `RoutingPacket.OwnSignatureUnforged` | core/crypto/routing.js:32-46 | with ideal signatures, the signature of every signed packet is unforged: it verifies for the texts of signed packets only |
| `RoutingPacket.AcceptedWasSigned` | core/crypto/routing.js:50-81 | whatever is accepted under a key with an unforged signature has five fields that print as those of a packet signed with that key |
| `StartOrder.Visit` | core/autonomous/manager.js:684-696 | one depth-first visit keeps the order duplicate-free with dependencies first, on any graph, cycles included; what it adds ends with the service visited, all of it led to, listed dependency by listed dependency |
| `StartOrder.ComputeOrder` | core/autonomous/manager.js:680-707 | the order is a duplicate-free list of exactly the registered services, every dependency first unless it leads back; where b comes before a root a, some root at or before a leads to b; and below each root that no earlier root leads to, its dependencies decide in the same way |
| `StartOrder.DependencyBefore` | core/lifecycle/manager.js:567-590 | for every edge from a to a registered d that does not reach a, d comes before a |
| `StartRule.StartedSetUnique` | core/autonomous/manager.js:443-453 | the least set closed under "startable and dependencies in" is unique: it depends on the graph and on who can start, not on any order |
| `StartRule.AcyclicStarted` | core/autonomous/manager.js:443-495 | on an acyclic graph that set is the only one in which exactly the startable services with all dependencies in are started |
| `StartRule.ProgressEnds` | core/autonomous/manager.js:443-453 | a sequential start-up along a start order ends in exactly that set, and every running service comes after its dependencies |
| `StartRule.StopLast` | core/autonomous/manager.js:517-528 | stopping the last running service in start order leaves the rest closed under dependencies |
| `StartRule.ClosedAfterEach` | core/autonomous/manager.js:408-538 | closed throughout a log means closed after every one of its announcements |
| `ServiceEvents.ReplayConcat` | core/autonomous/manager.js:408-538 | announcements replay one after the other: the states after two logs are those after the second from those after the first |
| `ServiceLifecycle.Service.Init` | core/lifecycle/manager.js:69-89 | only from created, to ready or to error with the hook; what is announced |
| `ServiceLifecycle.Service.Start` | core/lifecycle/manager.js:94-132 | from ready or stopped to running or to error; already running returns; what is announced |
| `ServiceLifecycle.Service.Stop` | core/lifecycle/manager.js:137-169 | from running to stopped or to error; otherwise nothing; what is announced |
| `StartupRuns.ReportPartitions` | core/autonomous/manager.js:415-453 | started, failed and skipped together are the services tried, each counted as often as it was tried |
| `StartupRuns.StartRunClosed` | core/autonomous/manager.js:442-453 | after every announcement of a start-up, whatever fails, the running services are closed under dependencies |
| `StartupRuns.StartReportMatches` | core/autonomous/manager.js:442-453 | the report lists as started exactly what was announced as started, in that order |
| `StartupRuns.StartRunReaches` | core/autonomous/manager.js:442-495 | from fresh services the running set at the end is the least rule-closed set, each service after its dependencies |
| `StartupRuns.ResultsAtEnd` | core/autonomous/manager.js:442-495 | the result of every service can be told from the running set at the end: what runs was started; what may not start by itself, or has a registered dependency that does not run, was skipped; only the rest has failed |
| `StartupRuns.ReportAtEnd` | core/autonomous/manager.js:415-453 | and the three lists of the report hold exactly the services with these results |
| `StartupRuns.StopRunStates` | core/autonomous/manager.js:504-538 | every service of the order that ran ends stopped or in error with its hook; nothing else changes |
| `StartupRuns.StopRunClosed` | core/autonomous/manager.js:504-538 | after every announcement of a shut-down, whatever fails, the running services are closed under dependencies |
| `StartupRuns.StopRunBackwards` | core/autonomous/manager.js:504-538 | services are announced as stopping in the reverse of the start order, each that ran exactly once |
| `StartupRuns.StopReportMatches` | core/autonomous/manager.js:504-538 | the report lists the services that ran, in that order, as stopped or failed with their hooks |
| `StartupRuns.WholeRunClosed` | core/autonomous/manager.js:408-538 | over a whole start-up and the shut-down after it, whatever fails: closed after every announcement, and nothing runs at the end |
| `AutonomousManager.AutonomousManager.Register` | core/autonomous/manager.js:340-368 | throws exactly on a taken name; otherwise adds one service in state created with its policy and priority, its declared dependencies, and the back edges |
| `AutonomousManager.MentionsOnly` | core/autonomous/manager.js:350-359 | registering a service makes it a dependent of exactly the registered services it declares |
| `AutonomousManager.AutonomousManager.StartService` | core/autonomous/manager.js:467-495 | skipped if and only if the policy is never or a registered dependency is down; a success if and only if, beyond that, the service was just created and both hooks return; announcements and states are those of the attempt |
| `AutonomousManager.AutonomousManager.SortByPriority` | core/autonomous/manager.js:699-700 | a permutation of the registered names, stably sorted: the smaller priority first, and for equal ones the earlier registration |
| `PriorityOrder.OrderKeepsPriority` | core/autonomous/manager.js:680-707 | from stably sorted roots: a comes before b in the start order whenever it is sorted ahead of b and nothing sorted at or ahead of a leads to b; below each service its listed dependencies come in their turn |
| `AutonomousManager.AutonomousManager.CalculateStartupOrder` | core/autonomous/manager.js:680-707 | the order that the registered services get has all of that: dependencies first, then priority, then registration and listing |
| `AutonomousManager.AutonomousManager.StartAll` | core/autonomous/manager.js:408-462 | computes an order with all of that; report, every announcement in order and the states are those of the run of attempts along it (the lemmas of `StartupRuns`) |
| `AutonomousManager.AutonomousManager.StopService` | core/autonomous/manager.js:517-528 | one round of the stop loop: what it announces, and the states as its announcements replay |
| `AutonomousManager.AutonomousManager.StopAll` | core/autonomous/manager.js:504-538 | report, every announcement in order and the states are those of the run along the start order reversed (the lemmas of `StartupRuns`) |
| `AutonomousManager.AutonomousManager.GetAllDependents` | core/autonomous/manager.js:589-604 | terminates on every graph; new names only, all reached, each listed after one it is a dependent of, their own dependents visited |
| `AutonomousManager.AutonomousManager.AllDependents` | core/autonomous/manager.js:589-604 | exactly the names reached by one or more dependents edges, each once and after one that leads to it directly |
| `ServiceManager.RunKeeps` | core/lifecycle/manager.js:473-491 | whatever throws midway, cycles included: new running services have their dependencies running, each service takes at most one legal step, only needed services change, and a start that throws has met a service that cannot run or a chain of calls that does not fit |
| `ServiceManager.StartKeepsClosed` | core/lifecycle/manager.js:473-491 | after every announcement of a recursive start the running set is closed under dependencies |
| `ServiceManager.StartSucceedsIff` | core/lifecycle/manager.js:473-491 | with room for more nested calls than there are services, `start` returns if and only if no cycle is still to be started below the service, and it and everything still to be started below it is registered, startable and willing; then all of it runs |
| `ServiceManager.CyclesNeverStart` | core/lifecycle/manager.js:473-491 | no service on a cycle of services still to be started is ever started, whatever is asked for and however deep the calls nest |
| `ServiceManager.DepthIrrelevant` | core/lifecycle/manager.js:473-491 | where no cycle lies below the service, every room for more calls than there are services gives the same outcome, announcements and states |
| `ServiceManager.DependenciesRunAfterStart` | core/lifecycle/manager.js:473-491 | on success every transitive registered dependency runs |
| `ServiceManager.OthersUntouched` | core/lifecycle/manager.js:473-491 | no service outside the needed ones changes state |
| `ServiceManager.FailureStops` | core/lifecycle/manager.js:480-488 | where something that the i-th dependency needs cannot run, the start throws and nothing is done for what only later dependencies need |
| `ServiceManager.StartAloneOnly` | core/lifecycle/manager.js:473-491 | without automatic dependencies: the call returns if and only if the service runs in the end, no other service changes, and the announcements replay to the states |
| `ServiceManager.StartAloneClosedIff` | core/lifecycle/manager.js:473-491 | and from a closed state the running set stays closed under dependencies if and only if the call throws or the dependencies of the service were running |
| `ServiceManager.ServiceManager.constructor` | core/lifecycle/manager.js:331-339 | no services and no dependencies |
| `ServiceManager.ServiceManager.Register` | core/lifecycle/manager.js:348-369 | throws exactly on a taken name; otherwise one new service in state created and its declared dependencies |
| `ServiceManager.ServiceManager.Start` | core/lifecycle/manager.js:473-491 | on every graph the recursive method has exactly the outcome, announcements and states that the lemmas above describe; on a cycle its calls nest until no more fit, which throws |
| `ServiceManager.ServiceManager.StartDependencies` | core/lifecycle/manager.js:480-488 | its loop over the dependencies, which stops at the first one that throws |
| `Mnemonic.EntropyToMnemonic` | core/crypto/seed.js:45-72 | throws exactly outside the five sizes; otherwise the joined words whose indices are the 11-bit chunks of entropy and checksum |
| `Mnemonic.MnemonicToEntropy` | core/crypto/seed.js:78-114 | accepts exactly the word lists of a length divisible by 3 with listed words and a matching checksum, and returns the first 32/33 of the bits as bytes |
| `BitStrings.ChunksOfFlatten` | core/crypto/seed.js:61-69 | cutting what was packed gives the numbers back, for every width |
| `BitStrings.FlattenOfChunks` | core/crypto/seed.js:90-103 | packing what was cut gives the bits back |
| `MnemonicNumbers.IndicesValue` | core/crypto/seed.js:57-69 | as BIP-39 defines them: the word indices are the base-2048 digits of the number whose high part is the entropy and whose low |e|/4 bits are the first bits of hash[0] |
| `MnemonicNumbers.LastWord` | core/crypto/seed.js:61-69 | so for each of the five sizes the low n = |e|/4 bits of the last index are hash[0] divided by 2^(8-n) |
| `MnemonicNumbers.AcceptedIff` | core/crypto/seed.js:82-111 | 3n listed words, n at most 8, decode to the number in front of their last n bits, and are accepted if and only if these n bits are the first n bits of hash[0] of that number |
| `WordText.ReadBack` | core/crypto/seed.js:71 | splitting the joined words on white space gives the words back |
| `WordText.JoinConcat` | core/crypto/seed.js:71 | between any two lists of words there is exactly one space |
| `WordText.SpacingIgnored` | core/crypto/seed.js:79-82 | however the words of a mnemonic are spaced out, and whatever white space is around them, the same words are read |
| `WordText.SpaceClass` | core/crypto/seed.js:79 | what counts as white space, by code point: the class that `trim` and the pattern share |
| `Mnemonic.EntropyRoundTrip` | core/crypto/seed.js:45-114 | `mnemonicToEntropy(entropyToMnemonic(e)) = e` for any hash and any 2048 distinct words |
| `Mnemonic.WordsRoundTrip` | core/crypto/seed.js:45-114 | an accepted mnemonic of 12 to 24 words comes back word for word from its entropy |
| `Mnemonic.TooManyWordsRejected` | core/crypto/seed.js:82-111 | every input of more than 24 words is rejected, whatever the words |
| `Mnemonic.EncoderMakesIff` | core/crypto/seed.js:45-114 | an accepted mnemonic is one that `entropyToMnemonic` makes if and only if it has 12 words or more |
| `Mnemonic.EveryCountAccepted` | core/crypto/seed.js:82-111 | 3, 6 and 9 words are accepted too: every entropy of 4 to 32 bytes in groups of 4 has an accepted mnemonic |
| `ChannelContext.ContextInjective` | core/crypto/channel.js:64-67 | context strings determine the base, the epoch and the direction |
| `ChannelContext.FirstContext` | core/crypto/channel.js:64-67 | the context of epoch 0 from alice, in full |
| `ChannelContext.LaterContext` | core/crypto/channel.js:64-67 | the context of epoch 27 from bob, in full |
| `SecureChannel.KeyMaterial` | core/crypto/channel.js:63-86 | key and nonce base of an epoch and direction are HKDF outputs without a salt under the labels of derive.js, the key with mark 1 |
| `ChannelContext.SessionInfoInjective` | core/crypto/derive.js:84-96 | the session info determines the session id and the direction mark |
| `ChannelContext.DeriveSubKey` | core/crypto/derive.js:44-49 | HKDF over HMAC-BLAKE2b with the salt, which may be missing; throws exactly on an invalid length |
| `ChannelContext.DeriveSessionKeys` | core/crypto/derive.js:84-102 | the buffers filled in place are prefix, session id and mark; the two keys are derived from marks 1 and 2 |
| `ChannelContext.DeriveNonceBase` | core/crypto/derive.js:71-74 | the 12 bytes derived from the prefixed label |
| `ChannelContext.MakeNonce` | core/crypto/channel.js:19-30 | throws unless the base has 12 bytes; otherwise its last four bytes are the counter, big-endian, modulo 2^32 |
| `ChannelContext.NonceBytes` | core/crypto/channel.js:19-30 | the first eight bytes of the base, then the counter modulo 2^32 as a number with the highest byte first |
| `ChannelContext.NonceCollision` | core/crypto/channel.js:19-30 | nonces under one base collide exactly when the counters agree modulo 2^32 |
| `SecureChannel.SecureChannel.Create` | core/crypto/channel.js:39-61 | throws exactly on a missing secret, an empty base context or an unknown role, in that order; otherwise a channel at its start |
| `SecureChannel.SecureChannel.constructor` | core/crypto/channel.js:52-60 | epoch 0, counters 1, and the keys of epoch 0 |
| `SecureChannel.SecureChannel.DeriveKeysForEpoch` | core/crypto/channel.js:63-86 | each role sends with the keys of its own direction and receives with those of the other |
| `SecureChannel.SecureChannel.Rekey` | core/crypto/channel.js:92-97 | next epoch, counters back to 1, keys of the new epoch |
| `SecureChannel.SecureChannel.EncryptToPeer` | core/crypto/channel.js:106-113 | the packet for the current epoch and counter, and the counter goes up by one |
| `SecureChannel.SecureChannel.DecryptFromPeer` | core/crypto/channel.js:124-133 | opens under the current receiving key; the counter moves exactly on success |
| `SecureChannel.RunKeepsInv` | core/crypto/channel.js:63-134 | what every run of two endpoints keeps, over sends, rekeys on either side and deliveries of any bytes |
| `SecureChannel.CurrentEpochDecrypts` | core/crypto/channel.js:106-133 | in every run, a packet of the receiver's current epoch opens to what was sent |
| `SecureChannel.NonceReuseIff` | core/crypto/channel.js:92-113 | in every run, no derivation input and nonce are used twice if and only if no epoch has more than 2^32 sends in one direction |
| `SecureChannel.KeyNonceReuseIff` | core/crypto/channel.js:92-113 | in every run, beyond that limit a key and nonce repeat for certain; within it only a collision of the key derivation among the keys of the run can repeat one |
| `ChannelEpochs.OpensIff` | core/crypto/channel.js:63-133 | under an ideal cipher, in every run: a sent packet opens at the peer, to what was sent, if and only if its epoch is the peer's and nonce and additional data are those it was sent with |
| `ChannelEpochs.ReplaysAccepted` | core/crypto/channel.js:124-133 | so it is accepted every one of k times it is delivered in that epoch, each time counted, and never in another |
| `ChannelEpochs.NextOpensIff` | core/crypto/channel.js:92-133 | the next packet either end sends opens at the other if and only if both ends have rekeyed equally often |
| `ChannelEpochs.AuthenticCipher` | core/crypto/channel.js:106-133 | a cipher with the laws assumed here exists, whatever the hashes |
| `Hkdf.HmacBlake2b` | core/libs/hkdf.js:72-100 | the padding loops compute the HMAC of section 2 of RFC 2104 for every key length |
| `Hkdf.PaddedKey` | core/libs/hkdf.js:76-86 | zeros after a key that fits in a block change nothing |
| `Hkdf.LongKey` | core/libs/hkdf.js:76-79 | a key longer than 128 bytes acts as its hash |
| `Hkdf.XorBit` | core/libs/hkdf.js:88-94 | every bit of the pads is the exclusive or of the bits |
| `Hkdf.HkdfExtract` | core/libs/hkdf.js:121-129 | throws exactly on an unsupported hash; an absent salt is 64 zero bytes |
| `Hkdf.AbsentSalt` | core/libs/hkdf.js:124-128 | with BLAKE2b that is the same as an empty key |
| `Hkdf.GivenSalt` | core/libs/hkdf.js:121-129 | a salt that is given is the key of the extraction |
| `Hkdf.HkdfExpand` | core/libs/hkdf.js:134-157 | throws exactly outside 0 < L <= 255*64 or on an unsupported hash; otherwise the first L bytes of T(1) | T(2) | ... (section 2.3 of RFC 5869) |
| `Hkdf.FilledStep` | core/libs/hkdf.js:148-154 | in every round the counter fits in its byte and the block goes to a multiple of 64 |
| `Hkdf.ExpandPrefix` | core/libs/hkdf.js:134-157 | a shorter output is a prefix of a longer one |
| `Hkdf.OneBlock` | core/libs/hkdf.js:134-157 | up to 64 bytes are cut from PRF(prk, info | 1) |
| `Hkdf.TwoBlocks` | core/libs/hkdf.js:134-157 | 128 bytes are T = PRF(prk, info | 1) and PRF(prk, T | info | 2) |
| `Hkdf.ExpandAt` | core/libs/hkdf.js:134-157 | byte k of the output is byte k mod 64 of T(k div 64 + 1), whatever the length |
| `Hkdf.HkdfDerive` | core/libs/hkdf.js:162-165 | extract, then expand |
| `RoutedMessages.WireRoundTrip` | core/routing/layer.js:181-212 | reading back what was written gives the same message exactly when its ttl is not 0; a ttl of 0 comes back as 10 |
| `RoutedMessages.RoutedMessage.constructor` | core/routing/layer.js:74-85 | absent and falsy options take their defaults; given hops are kept |
| `RoutedMessages.RoutedMessage.FromJson` | core/routing/layer.js:196-212 | the object read from a wire form, whose members may be absent |
| `RoutedMessages.Defaults` | core/routing/layer.js:74-85 | what is missing on the wire is a fresh id, type routed, ttl 10 and empty lists |
| `RoutedMessages.RoutedMessage.ToJson` | core/routing/layer.js:181-194 | the wire form; a reader of it gets the message back unless its ttl is 0 |
| `RoutedMessages.RoutedMessage.AddHop` | core/routing/layer.js:90-101 | throws exactly at 15 hops; otherwise one more hop and one less ttl |
| `RoutedMessages.RoutedMessage.AddSignature` | core/routing/layer.js:106-118 | signs the text with the current ttl at the last hop |
| `RoutedMessages.VerifySignatures` | core/routing/layer.js:123-150 | accepts exactly when every signature is over the text with the ttl as now read, by the key of its hop |
| `RoutedMessages.HopSignatureBinds` | core/routing/layer.js:106-179 | whatever else becomes of a message, the signature of a hop verifies if and only if id, both ends, payload and ttl are those it signed |
| `RoutedMessages.FirstHopVerifies` | core/routing/layer.js:106-150 | the signature of a message that has made one hop verifies if and only if it was not sent with ttl 1 |
| `RoutedMessages.SignatureValidIff` | core/routing/layer.js:106-179 | however far a message has travelled since a hop signed it, that signature verifies if and only if the ttl now read is the ttl then signed |
| `RoutedMessages.RelayInvalidates` | core/routing/layer.js:106-150 | one relay makes the signature of the hop before it, and so the message, invalid |
| `SeenCache.CacheIsExact` | core/routing/layer.js:748-773 | after any run of receipts the purged cache answers as the full history does: seen if and only if some accepted receipt is at most maxSeenAge old |
| `SeenCache.AcceptedApart` | core/routing/layer.js:559-567 | two accepted receipts of one id are more than maxSeenAge apart |
| `RoutingLayers.RoutingLayer.AddRoute` | core/routing/layer.js:230-256 | absent members take their defaults; the new route replaces the old one unless the old metric is smaller, and the entry in force is returned |
| `RoutingLayers.BestRouteKept` | core/routing/layer.js:230-256 | however routes are added, the table holds for every destination the last added of those with the least metric |
| `RoutingLayers.RouteLives` | core/routing/layer.js:230-292 | a route added without an expiry is found up to, and not beyond, the layer's expiry after it was added |
| `RoutingLayers.RoutingLayer.RemoveRoute` | core/routing/layer.js:261-276 | removes the entry and says whether there was one |
| `RoutingLayers.RoutingLayer.Send` | core/routing/layer.js:430-550 | fails exactly when a routed message has no route; otherwise a new message with one hop, with the hop list of its route in the metadata if it is routed |
| `RoutingLayers.RoutingLayer.CheckSeen` | core/routing/layer.js:748-759 | the answer, and the deletion of an entry that is too old |
| `RoutingLayers.RoutingLayer.MarkSeen` | core/routing/layer.js:761-773 | the mark, and above 10000 entries the purge loop removes exactly those that are too old |
| `RoutingLayers.RoutingLayer.Receive` | core/routing/layer.js:559-593 | the action and the outgoing message in every case; the cache is all that changes |
| `RoutingLayers.Outcomes` | core/routing/layer.js:559-656 | each of the seven outcomes of receiving, by an exact condition on cache, ttl, signatures, destination, hops and table |
| `RoutingLayers.RoutingLayer.Forward` | core/routing/layer.js:630-656 | forwards exactly when there is an unexpired route; `addHop` cannot throw here |
| `RoutingNetwork.RunKeepsInv` | core/routing/layer.js:559-656 | what every run of a network of nodes keeps, with arbitrary tables, loss, duplication and misdelivery |
| `RoutingNetwork.PathOfRun` | core/routing/layer.js:90-101 | every forwarding path has at most 15 packets, the hop list names exactly its nodes in order, identity and contents do not change, and each packet's ttl is determined by the origin ttl and its place |
| `RoutingNetwork.TtlConserved` | core/routing/layer.js:80-100 | ttl + hops stays the origin ttl exactly until a ttl of 0 has been sent |
| `RoutingNetwork.ExpiredOnlyWhenSentNegative` | core/routing/layer.js:570-572 | a message is found expired only at its first receiver, and only if it was sent with a negative ttl |
| `RoutingNetwork.LoopsAreSlow` | core/routing/layer.js:559-593 | in every run a node forwards one message id at most once within its maxSeenAge, however the tables loop |
| `RoutingNetwork.BroadcastIsTaken` | core/routing/layer.js:155-157 | a message for everyone is delivered at every node that has not seen it, if live and validly signed, and no node sends it on |
| `RoutingNetwork.DestinationStops` | core/routing/layer.js:559-593 | in every run no node sends on a message that is for itself or for everyone, so a message for everyone makes exactly one hop |
| `RoutingNetwork.HopSignatureValidIff` | core/routing/layer.js:80-179 | in every run: the signature of hop a of a path verifies at the receiver if and only if the ttl it reads is the ttl that hop a left with |
| `RoutingNetwork.HopSignatureSurvives` | core/routing/layer.js:80-179 | that is, if and only if the hop left with a ttl other than 0 and either no relay came between or exactly ten did and that ttl was at most 10 |
| `RoutingNetwork.SecondHopRefused` | core/routing/layer.js:559-593 | where all nodes sign and verify, a message of two hops is neither delivered nor forwarded |
| `RoutingNetwork.SigningStopsAtTwoHops` | core/routing/layer.js:559-656 | so in every run of such a network no message makes more than two hops |
| `Base64.DecodeEncode` | core/crypto/auth.js:293 | base64 decoding undoes encoding on every byte string |
| `Base64.PaddingRepaired` | core/crypto/auth.js:293-310 | cutting the padding off and repairing it gives back the standard text |
| `Base64.UrlRoundTrip` | core/crypto/auth.js:283-311 | `_base64UrlDecode(_base64UrlEncode(b)) = b` for every byte string |
| `Base64.UrlAlphabet` | core/crypto/auth.js:293-296 | the encoding has no dot and no character outside the url alphabet |
| `Base64.UrlText` | core/crypto/auth.js:293-296 | the url form spells the sextets in the url table of RFC 4648 (its table 2) |
| `Base64.GroupValue` | core/crypto/auth.js:293 | every three bytes and their four sextets are the same number |
| `Base64.LeftoverValue` | core/crypto/auth.js:293 | one or two bytes left over are filled up with zeros to that number |
| `AccessTokens.SplitThree` | core/crypto/auth.js:251-256 | three parts without dots come apart as exactly those parts |
| `AccessTokens.SignedTokenVerifies` | core/crypto/auth.js:229-278 | a signed token yields its claims until they expire, then the expiry error |
| `AccessTokens.AcceptedIff` | core/crypto/auth.js:251-278 | any text whatever is accepted with claims c if and only if it is three parts without dots, the third the signature of the first two, the second a text of c, and c has not expired; the header is never looked at |
| `AccessTokens.OtherSecretRefuses` | core/crypto/auth.js:258-267 | under a secret that signs the text differently the token is refused |
| `AccessTokens.TokenLifetime` | core/crypto/auth.js:136-210 | a token is accepted exactly until 1000*floor((now+expiry)/1000), or for ever if that is 0, with its id and expiry |
| `AccessTokens.TokenClaims` | core/crypto/auth.js:136-150 | an accepted access token says newzonecore, nzcore-api, its floored times, its id and access |
| `AccessTokens.LifetimeBounds` | core/crypto/auth.js:136-210 | the lifetime is more than expiry - 1000 and at most expiry milliseconds, except that a token with now + expiry in [0, 1000) never expires |
| `LoginLockout.AuthManager.constructor` | core/crypto/auth.js:31-52 | defaults for absent options only: an option that is given is kept, 0 included |
| `LoginLockout.AuthManager.CheckLockout` | core/crypto/auth.js:421-442 | locked exactly before lockedUntil; an expired lock is deleted |
| `LoginLockout.AuthManager.RecordFailedLogin` | core/crypto/auth.js:447-461 | counts one failure and locks from the limit on |
| `LoginLockout.AuthManager.TryLogin` | core/crypto/auth.js:88-127 | blocked, failed or succeeded, and the table that results |
| `LoginLockout.FailuresPerWindow` | core/crypto/auth.js:421-468 | whatever the options, more than maxLoginAttempts failures of one address without a success between them span at least a lockout |
| `LoginLockout.BlockedWithinDuration` | core/crypto/auth.js:421-461 | a login is blocked only within the duration after a failed one of the same address, and after at least maxLoginAttempts failures without a success between them |
| `LoginLockout.CountsAfresh` | core/crypto/auth.js:421-461 | the first failure after a lock has ended counts as one, and does not lock unless one is enough |
| `LoginLockout.SuccessesReset` | core/crypto/auth.js:466-468 | the proviso is needed: any number of failures can alternate with successes in one instant |

## Left out

- Primality of 2^255 - 19 and the group law of Curve25519: hypotheses, as said above.
- Number widths: `BigInt` values are unbounded as in the source; the `number` counters, times and vector sums are unbounded here, where JavaScript is exact only up to 2^53.
- Numbers with fractions or exponents, dates and `toJSON` in canonical JSON; `undefined` other than as a member or array element.
- The UTF-8 bytes behind `Buffer.from(plaintext)`: the model of `encrypt` starts from them.
- Start-up with `parallelStartup`, `restart`, `restartService`, `unregister`, `crash`, automatic restart, health checks, time stamps, contexts passed to hooks and error details of the service managers.
- Hooks that call back into a manager, and hooks whose outcome changes from call to call: each hook of a service has one outcome.
- The size of the call stack: `ServiceManager.Start` takes the number of nested calls that fit as an argument.
- SecureChannel.CurrentEpochDecrypts: says nothing of packets from another epoch than the receiver's; `ChannelEpochs.OpensIff` does, for an ideal cipher.
- Reading the word list from its file; the seed derivations after the entropy (`mnemonicToSeed` and what follows).
- `hkdf` hash names: an enumeration stands for the lower-cased name; the fallback to SHA-512 for a missing name is the choice of that value.
- Conversions of strings and buffers to bytes (`toBytes`) in the channel, the key derivation and the message payloads.
- Routes: `findPath` (the same as one `getRoute`), `cleanup`, statistics, `maxEntries`, which the source never reads; state, time stamps and metadata of table entries.
- Pending acknowledgements and their timers; handlers, events, and the key lookup order of `_getPublicKey`, which is one map here.
- Aliasing between a received wire object and the message made from it (both share the hop array in the source).
- The leniency of `Buffer.from(text, 'base64')` on malformed text: the model skips foreign characters and stops at the padding. Only texts that the encoder makes matter to the theorems.
- Concurrent logins, `cleanup` (which can drop a lock), refresh tokens, API keys and persistence in `core/crypto/auth.js`.
- `HashBasedSignature`, `he.js`, `zkp.js`, `core/channel/manager.js`, `core/identity/unified.js`, storage, transport, the analytics and learning modules: outside this model.
