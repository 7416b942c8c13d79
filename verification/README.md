# Corona in Dafny

A model of the Corona lattice threshold-signature library and proofs about it. The library signs with a
key that no party holds: shares are dealt, reshared from committee to committee and refreshed, a two-round
protocol turns them into one signature, and a lifecycle on top keeps one group key alive across committee
changes. The model follows the code: loops over buffers are loops here, mutable parties, eras and readers
are classes, errors and panics are results.

What is proved, in the order of the modules:

- **Resharing** (`Zq`, `Polynomials`, `Lagrange`, `Randomness`, `Streams`, `Reshare`, `Refresh`, `Runs`). For every prime q,
  every sharing, committee and random stream, the output of Reshare and Refresh shares the same secret, so any
  threshold subset reconstructs it; by induction this holds over every finite run that mixes the two. Each new share is
  known term by term, and every coefficient in it is a block of the stream.
- **Dealing** (`Shamir`, `Committee`). The running-power evaluator is polynomial evaluation; the shortcut for a
  threshold equal to the number of holders solves its weighted sum; full-committee weights recover the secret.
- **Rounding and rank** (`Rounding`, `Rank`). Exact ranges and a circular Lipschitz bound around
  q = 2^48 + 0x4A01; elimination decides linear independence.
- **Signing** (`Rq`, `Transform`, `VectorOps`, `SignAlgebra`, `SignRounding`, `Sign`, `Protocol`, `Threshold`,
  `LocalRun`, `ThresholdRun`). Pairwise masks cancel, the aggregate satisfies the lattice correctness equation with a rounding error
  of at most 2^29 per coefficient, and a whole run over mutable parties ends in a signature that verifies exactly when
  the norm bound holds, provided no coefficient of the rounded commitment is at the top value. The outer signers
  answer exactly on a complete, repetition-free, authenticated signer set, one wrong MAC refuses, and for any such list their
  answers combine in the same way. With H below QNu the signature is accepted for no message with another hash.
- **Key eras** (`Era`, `Naming`, `Lifecycle`, `Filing`, `KeyEras`, `Pedersen`, `PairTables`, `Pairwise`, `EraRun`). Over
  every run of Bootstrap, Reshare and Reanchor, failed calls included: one key, suite and secret per era, counters that
  count calls on uint64, and a share map that is always a sharing of the secret behind the key, filed with pairwise seeds
  and MAC keys that are complete and agree. The committee a reshare installs signs with what its records hold.
- **Verifiable sharing** (`Commit`, `Dkg`). Horner evaluation commutes with the public linear maps.
- **Wire formats** (`Bytes`, `Wire`, `WireCodec`). The bounded walkers recognise exactly the frame grammar; the
  envelopes round-trip in both directions.
- **Accountability** (`Complaints`, `Transcripts`, `Activation`, `Preimages`). Deterministic disqualification and
  transcript encodings that determine what they commit to.
- **Dealer randomness** (`GenBuffer`). The precomputed buffer is never over-read.

Conventions. `Cong(a, b, q)` is congruence modulo q; q is a parameter with a primality hypothesis wherever a field is
needed, and signing instantiates it with the library's constant. `Share` is a vector of ring elements in coefficient
form, `Vec` one in the transform domain; the transform is a pair of inverse matrices that sends the constant 1 to 1 in
every slot, and a value in Montgomery form is represented by the element it stands for. An `io.Reader` is a byte string
with a cursor. Hashes, samplers and the pseudorandom function are arbitrary functions with outputs of the right shape.

Where comments and code differ the code is followed:

- Reshare weights the share before dealing (the constant term of f_i is lambda_i s_i), not after.
- sampleModQ keeps the first block below q, which for a 49-bit q read as seven bytes is about one block in 256.
- The rounding range includes its top value QNu or QXi. A commitment coefficient at QNu makes the verifier hash a
  different vector, so the agreement of Finalize and Verify is stated with its exact condition, and `Protocol.TopSession`
  gives a session that violates it.
- The exact condition on party ids is distinctness modulo q; the code checks integers. An id that is a multiple of q
  is not refused and still interpolates correctly.
- Validator names are not checked for repetition. Filing by name is safe for every dealt sharing exactly when the
  names are distinct or the threshold is one (`Filing.InstallSafeIff`); `Era.SharedNameLosesSecret` gives an input that
  loses the secret.
- A coalition of max(1, tOld - 1) complainers suffices to disqualify a sender; the comment at
  reshare/complaint.go:198-203 says it does not.
- ReanchorPedersen inherits the suite only when it is one of the two known ones; any other becomes the default.
- The minimum-length checks in front of both decoders never decide anything: shorter inputs fail later as well.

## Model

| member | source | states |
|---|---|---|
| `Zq.ModInverse` | reshare/reshare.go:501-524 | big.Int.ModInverse as extended Euclid: modulo a prime an inverse exists exactly for non-multiples of q, and it inverts |
| `Polynomials.Interpolate` | reshare/reshare.go:501-524 | the Lagrange weights at zero of any points distinct modulo a prime recover the constant term of every polynomial of degree below the number of points |
| `Polynomials.WeightsExist` | reshare/reshare.go:501-524 | such weights exist for all points distinct modulo a prime |
| `Lagrange.BasisAtZero` | reshare/reshare.go:508-521 | one coefficient: the inverse is nil exactly when the id collides with another modulo q; otherwise the reduced basis value at zero |
| `Lagrange.LagrangeAtZero` | reshare/reshare.go:501-524 | the whole map exists exactly when the ids are pairwise distinct modulo q, keyed by the quorum, and is a vector of interpolation weights |
| `Lagrange.Reconstruct` | reshare/reshare.go:604-636 | correct weights applied to shares of any polynomial of degree below the quorum size give its value at zero |
| `Sorting.InsertionSortInts` | reshare/activation.go:155-161 | in place on the array: sorted, and the same multiset |
| `Sorting.SortedCanonical` | reshare/activation.go:155-161 | two sorted arrangements of one multiset are the same list, so the order every party computes is the same |
| `Sorting.SortedKeys` | reshare/reshare.go:640-653 | the keys of a map in ascending order, whatever order the map is ranged in |
| `Randomness.SampleModQ` | reshare/reshare.go:579-595 | returns the first block of ByteLen(q) bytes at or after the cursor whose value is below q; panics exactly when no such block is left |
| `Streams.DrawIff` | reshare/reshare.go:579-595 | the value is that of the first block at or behind the cursor below q, every earlier block is at least q, the cursor ends right behind it; none exactly when every block left is at least q |
| `Streams.BlockValue` | reshare/reshare.go:579-595 | a block stands for its bytes with the first one weighing most |
| `Streams.DealersTook` | reshare/reshare.go:258-281 | the coefficients of all dealers, in order of dealer, slot, degree and coefficient, are exactly the blocks below q that were passed; the drawing fails exactly when the stream holds fewer than there are coefficients |
| `Bytes.BigEndianDecode` | reshare/transcript.go:72-83 | reading back a big-endian integer that fits its width returns it |
| `Bytes.LittleEndianEncode` | wire/wire.go:127-141 | every byte string is the little-endian form of the value read from it |
| `Reshare.SelectQuorum` | reshare/reshare.go:486-493 | the t smallest ids, with their own shares |
| `Reshare.ScaleShare` | reshare/reshare.go:529-543 | every coefficient multiplied by the weight and reduced |
| `Reshare.HornerAt` | reshare/reshare.go:560-567 | the loop from the top coefficient down equals the polynomial value modulo q |
| `Reshare.EvaluateAt` | reshare/reshare.go:548-572 | every slot of the result is the value of that slot's polynomial at x, reduced |
| `Reshare.DealOne` | reshare/reshare.go:258-281 | slot by slot the constant term is the weighted share, reduced, and the coefficients above it are exactly those drawn; consumes exactly the stream positions the draw order prescribes |
| `Reshare.Distribute` | reshare/reshare.go:283-294 | after delivering f_i every new share is the value of the summed dealer polynomials at its id |
| `Reshare.Deal` | reshare/reshare.go:258-295 | the loop over the quorum fails exactly when the stream runs dry; otherwise every dealer polynomial carries its own draws above the constant term and every new share is the value at its id of their sum |
| `Reshare.CheckReshare` | reshare/reshare.go:171-228 | the guards pass exactly on the accepted arguments: thresholds in range, nonzero distinct new ids, nonzero old ids, one common positive dimension |
| `Reshare.AcceptsIff` | reshare/reshare.go:171-228 | the accepted arguments without reference to a first share: any two old shares have one positive dimension, no id is zero, no new id occurs twice, both thresholds fit |
| `Reshare.DealtConstant` | reshare/reshare.go:236-295 | at zero the summed dealer polynomials give the weighted sum of the old shares |
| `Reshare.DealtAt` | reshare/reshare.go:258-295 | at every point the summed dealer polynomials are the weighted old shares plus the sum over dealers and degrees of drawn coefficient times power: nothing drawn is left out |
| `Reshare.ReshareKeepsSecret` | reshare/reshare.go:164-298 | for every prime q and every secret the old table shares with degree below tOld, the new table shares the same secret with degree below tNew |
| `Reshare.Reshare` | reshare/reshare.go:164-298 | refuses exactly outside the accepted arguments; panics exactly when two of the tOld smallest ids collide modulo q or the stream runs dry; otherwise each new share is, term by term, the weighted old shares plus every drawn coefficient times its power of the id, and the table shares whatever secret the old one shared |
| `Reshare.AnySubsetReconstructs` | reshare/reshare.go:604-636 | every list of at least t ids distinct modulo q, not only the smallest, interpolates to the secret in every slot |
| `Refresh.RefreshAll` | reshare/reshare.go:432-477 | the accumulating loop fails exactly when the stream runs dry; otherwise each share moves by the sum over parties and degrees of drawn coefficient times power of its id, reduced |
| `Refresh.ShiftIsZeroPoly` | reshare/reshare.go:432-477 | the summed zero polynomials, at every point, are that sum of drawn coefficients times powers |
| `Refresh.ZeroAtZero` | reshare/reshare.go:432-477 | the summed zero polynomials vanish at zero |
| `Refresh.RefreshKeepsSecret` | reshare/reshare.go:355-480 | the refreshed table shares the secret the old one shared, with the same degree bound |
| `Refresh.Refresh` | reshare/reshare.go:355-480 | refuses exactly on a threshold out of range, a zero id or unequal dimensions; the identity for threshold one; otherwise every share moves by its drawn shift and every shared secret is kept |
| `Runs.VerifyShares` | reshare/reshare.go:604-636 | recovers whatever secret the table shares; refuses exactly when the threshold exceeds the table, panics exactly when quorum ids collide modulo q |
| `Runs.StepKeepsSecret` | reshare/reshare.go:164-480 | one successful kernel call keeps the secret |
| `Runs.RunKeepsSecret` | reshare/reshare.go:164-480 | over every finite run of Reshare and Refresh, with any committees and thresholds, every table shares the first secret |
| `Runs.RunAgrees` | reshare/reshare.go:164-480 | two committees anywhere in a run reconstruct the same value, whichever quorums they use |
| `Shamir.EvaluateByPowers` | primitives/shamir.go:45-54 | the running-power loop with the unreduced power equals the polynomial value modulo q |
| `Shamir.ShamirSecretSharingGeneral` | primitives/shamir.go:18-67 | party i holds, slot by slot, the secret coefficient plus the sum of the drawn coefficients times the powers of i + 1, reduced |
| `Shamir.DealtIsSharing` | primitives/shamir.go:18-67 | keyed by evaluation point the dealt table is a sharing of the secret with degree below t |
| `Shamir.ShareSlot` | primitives/shamir.go:164-197 | the shortcut succeeds exactly when the last weight is invertible; the first k - 1 shares are the drawn ones and the weighted sum of all k is the secret |
| `Committee.ShamirSecretSharing` | primitives/shamir.go:147-200 | all slots of the vector: the first k - 1 parties hold exactly the drawn values, the last what the weights leave, and the weights recover the secret in every slot; it panics exactly on a last weight without inverse |
| `Committee.WeightsInvertible` | primitives/shamir.go:204-236 | for a committee smaller than q every full-committee weight is invertible, so that panic cannot happen in Gen |
| `Committee.SumSupport` | sign/sign.go:369-373 | a sum over any signer list that covers the share holders equals the sum over the holders alone |
| `Committee.CommitteeSecret` | sign/sign.go:351-355 | for any signer set that contains every share holder, the weighted shares sum to the secret in the transform domain; parties without a share add nothing |
| `Committee.SufficesIff` | sign/sign.go:351-355 | with invertible weights, a signer list sums to the secret of every sharing the weights recover exactly when it contains every holder |
| `Committee.SharingRecovers` | keyera/keyera.go:521-527 | the n-point full-committee weights recover a secret shared with any threshold up to n |
| `Committee.FullCommitteeResidual` | sign/sign.go:301-392 | a committee holding a Shamir sharing of the key's secret satisfies the lattice correctness equation when all of it signs |
| `Committee.SplitIsEnough` | threshold/threshold.go:166-198 | the trusted dealer that shares among the first k parties only: any signer set containing them sums to the secret |
| `Committee.DealerResidual` | threshold/threshold.go:134-201 | so the trusted dealer's keys satisfy the correctness equation |
| `Rounding.RoundRange` | utils/utils.go:437-445 | for x below q the rounded value lies in [0, 2^19] (2^18 for Xi) and is the top value exactly for x at or above 2^48 minus half a step |
| `Rounding.RestoreClose` | utils/utils.go:457-465 | restoring stays below q and within half a step |
| `Rounding.RoundRestore` | utils/utils.go:437-465 | rounding undoes restoring on every value a rounding can produce |
| `Rounding.RoundLipschitz` | utils/utils.go:437-445 | inputs at circular distance d modulo q round to values at circular distance at most ceil(d / 2^k) modulo the rounding modulus, across the wrap too |
| `Rounding.RoundCoefficients` | utils/utils.go:437-445 | coefficient by coefficient, with uint64 arithmetic |
| `Rank.ScaleKeepsIndependence` | utils/utils.go:534-537 | scaling a row by a unit keeps linear independence, both ways |
| `Rank.SubtractKeepsIndependence` | utils/utils.go:538-545 | subtracting a multiple of another row keeps linear independence, both ways |
| `Rank.EchelonIndependent` | utils/utils.go:517-548 | rows with unit pivots and zeros below them are independent |
| `Rank.PivotsFit` | utils/utils.go:517-548 | independent rows are no more than the columns |
| `Rank.GaussianEliminationModQ` | utils/utils.go:517-561 | for integer entries of any size and prime q: the answer is true exactly when the rows are linearly independent over Z_q, and false whenever rows exceed columns; it panics never when every row's first nonzero entry is a unit, and always when that of row 0 is not; works on a copy and leaves its input alone |
| `Rank.FullRankCheck` | sign/sign.go:504-530 | true exactly when in every coefficient slot the rows without column 0 are linearly independent |
| `VectorOps.MatrixVectorMul` | utils/utils.go:152-158 | the in-place accumulator equals the matrix-vector product |
| `VectorOps.MatrixMatrixMul` | utils/utils.go:161-178 | fails exactly on a dimension mismatch; otherwise the matrix product |
| `VectorOps.VectorPolyMul` | utils/utils.go:181-185 | writes the products of the given entries and leaves zeros behind a shorter vector |
| `Rq.DoubleSum` | sign/sign.go:332-345 | row sums and column sums of a table have the same total |
| `Rq.VSumOrder` | sign/sign.go:369-373 | a sum over map entries does not depend on the order of iteration |
| `Transform.WeightedSum` | sign/sign.go:351-355 | weights that recover each coefficient of s from those of the shares recover the transform of s from their transforms |
| `SignAlgebra.MasksCancel` | sign/sign.go:332-358 | for every table of pairwise masks the total added equals the total subtracted |
| `SignAlgebra.AggregateResponse` | sign/sign.go:301-373 | the responses sum to (sum of R_i) u + c (sum of lambda_i s_i) |
| `SignAlgebra.CorrectnessEquation` | sign/sign.go:202-383 | A z - (b + eps) c = D_sum u - (sum of E_i) u - c (e + eps), from D_i = A R_i + E_i and b = A s + e |
| `SignRounding.KeyErrorBound` | utils/utils.go:437-465 | the restored key is b + eps with every coefficient of eps at most 2^29 in absolute value |
| `SignRounding.RecomputedIsH` | sign/sign.go:385-451 | adding the published difference back gives H exactly when every coefficient of H is below QNu |
| `SignRounding.DeltaBound` | sign/sign.go:385-451 | a noise coefficient of size d moves the rounded vector by at most ceil(d / 2^29) around the circle |
| `SignRounding.CheckL2Norm` | sign/sign.go:459-501 | accepts exactly when the sum of min(x, q - x)^2 over all coefficients of Delta and z is at most the bound |
| `SignRounding.NormIff` | sign/sign.go:459-501 | the bound is on the total over both vectors of every coefficient's squared distance to zero around the circle of size q |
| `Sign.Party.SignRound1` | sign/sign.go:150-220 | answers exactly when the session id has a nonzero byte and a salt with a nonzero byte could be read, and changes nothing otherwise; D = A R + E for the nonce of share, session and salt, with one MAC per other signer |
| `Sign.Party.SignRound2Preprocess` | sign/sign.go:259-295 | accepts exactly when all MACs match, all commitments are present with the right shape and their sum has full rank: then each other signer's MAC for this party is, byte for byte, the one it computes on that signer's commitment, and in every slot the rows without column 0 are independent |
| `Sign.Party.SignRound2` | sign/sign.go:301-359 | stores the rounded commitment and the challenge hashed from it, and returns the masked response; the masks come from column seeds and row seeds keyed by transcript hash and message, the challenge vector is 1 followed by the Gaussian hash of the two |
| `Sign.Party.SignFinalize` | sign/sign.go:362-392 | the summed responses and H minus the rounded residual, modulo QNu, independent of the order responses arrive in |
| `Sign.Verify` | sign/sign.go:403-456 | accepts exactly on exact dimensions, a challenge equal to the hash of the rounded residual plus Delta with this very message, and a squared norm within the bound |
| `Protocol.ResponsesSum` | sign/sign.go:332-373 | for any seeds the honest responses of a session sum to (sum of R_i) u + c (sum of lambda_i s_i) |
| `Protocol.HonestResidual` | sign/sign.go:369-383 | the verifier's residual of an honest run is D_sum u minus the noise (sum of E_i) u + c (e + eps) |
| `Protocol.HonestDelta` | sign/sign.go:385-391 | every coefficient of H and of the verifier's vector differ around the QNu circle by at most the noise coefficient over 2^29, rounded up |
| `Protocol.FinalizedVerifies` | sign/sign.go:385-456 | with H below QNu, a finalized signature verifies exactly when the norm check holds |
| `Protocol.AcceptedMessage` | sign/sign.go:385-456 | with H below QNu a finalized signature is accepted for exactly those messages whose hash with H is its challenge, if the norm holds |
| `Protocol.ChallengeRehashes` | sign/sign.go:431-449 | any accepted signature: the challenge is the hash of what it makes the verifier recompute, so a replaced challenge is accepted only if it is its own hash |
| `Protocol.TopCoefficientChangesHash` | sign/sign.go:431-447 | with a coefficient of H at the top, the verifier hashes a vector other than H |
| `SignRounding.BelowNuIff` | sign/sign.go:325-330 | H stays below QNu exactly when every coefficient of D_sum u is below 2^48 - 2^28 |
| `Protocol.TopSession` | sign/sign.go:150-330 | for every suite, matrix and message some session has a coefficient of H at the top, so the disagreement is reached |
| `Protocol.HonestMacsMatch` | primitives/hash.go:129-148 | with symmetric keys every MAC an honest signer sends is the one its peer expects |
| `LocalRun.Round1All` | sign/local.go:73-93 | every party commits; refused exactly on a zero session id or a bad salt |
| `LocalRun.Round2All` | sign/local.go:95-111 | with symmetric MAC keys refused exactly when the summed commitments lack full rank; otherwise every party holds the same H and challenge and returns its session response |
| `LocalRun.Run` | sign/local.go:73-124 | a whole run over mutable parties: nonces from each share, session and salt, hash from the commitments; the signature carries the summed responses, and if H is below QNu, Verify answers exactly the norm check |
| `Threshold.Pigeonhole` | threshold/threshold.go:259-290 | at least as many distinct senders as list entries, all of them on the list: the list has no repetition and everybody sent |
| `Threshold.CollectRound1` | threshold/threshold.go:259-290 | the guard passes exactly when the list is repetition-free, all senders are distinct members and every member sent; the collected maps hold each sender's own data |
| `Threshold.CollectRound2` | threshold/threshold.go:325-340 | passes exactly on nonempty data with distinct senders; collects each response once |
| `Threshold.Signer.Round2` | threshold/threshold.go:259-321 | answers exactly when the guard passes and the collected messages are authentic: every MAC matches, every commitment is present, their sum has full rank; any other party's message whose MAC differs from the one computed on its sender and commitment, or is missing, means MAC failure; a refusal leaves the party untouched; the answer is the masked response on the collected sum |
| `Threshold.CompleteDataAccepted` | threshold/threshold.go:259-290 | one message from each member of a repetition-free list passes the guard |
| `Threshold.OneBadMac` | threshold/threshold.go:291-303 | one message with another MAC, or none, makes the collected messages inauthentic |
| `Threshold.Signer.Finalize` | threshold/threshold.go:325-349 | the signature over the collected responses |
| `ThresholdRun.AnswerAll` | threshold/threshold.go:259-321 | several signers on the same messages, any list: all answer exactly when the guard accepts the list and each finds the messages authentic, which makes every MAC for every signer the right one; then all hold the same H and challenge and return their session responses |
| `ThresholdRun.CollectedSum` | sign/sign.go:369-373 | responses collected under party ids sum to the sum over the signer list, whatever the order |
| `ThresholdRun.SignTogether` | threshold/threshold.go:259-367 | for any accepted signer list, whoever finalizes: the signature carries the summed responses of the session, and with H below QNu it verifies exactly when its norm is within the bound |
| `ThresholdRun.SignsOneHash` | sign/sign.go:431-456 | a finished signature with H below QNu is accepted for exactly the messages whose hash with H is its challenge, if the norm holds |
| `Era.ConversionRoundTrip` | keyera/keyera.go:568-586 | cloneVectorAsStandard undoes stdShareToNTT |
| `Era.FiledDistinct` | keyera/keyera.go:347-362 | every position reads back the record filed for it exactly when the validator names are distinct |
| `Era.SharedNameLosesSecret` | keyera/keyera.go:347-362 | for every modulus above 2: two equal names, threshold 2, the line f(x) = x; the weights recover 2 instead of the secret 0 |
| `Naming.FilingSafeIff` | keyera/keyera.go:301-362 | over every dealt polynomial and every map its values were filed into: what is read back by name is again a sharing of the dealt secret exactly when the names are distinct or the threshold is one |
| `Filing.InstallSafeIff` | keyera/keyera.go:301-362 | the same of the era's own state: every dealt table, installed under the names, leaves a state whose shares share the secret exactly when the names are distinct or the threshold is one |
| `Lifecycle.InstalledCommitted` | keyera/keyera.go:347-362 | under distinct names an installed table is the sharing that was dealt, with the right index, weight and key in every record |
| `Lifecycle.PairedKeyed` | keyera/keyera.go:347-362 | records filed with complete pairwise tables: every position reads the one seed table and MAC keys for exactly the other positions, the same key at both ends of a pair |
| `Lifecycle.InstalledParts` | keyera/keyera.go:347-362 | under distinct names every position holds, in the transform domain, the very share dealt to it |
| `Lifecycle.ReshareKeeps` | keyera/keyera.go:283-366 | a successful Reshare to distinct names keeps the whole era invariant for the same secret |
| `Lifecycle.EveryStateValid` | keyera/keyera.go:196-454 | every state of every run of Reshare, Reanchor and failed calls satisfies the invariant for some secret |
| `Lifecycle.EraConstant` | keyera/keyera.go:283-366 | between Reanchors the group key, suite, era id, genesis epoch and shared secret never change |
| `Lifecycle.Counters` | keyera/keyera.go:330-345 | epochs count the successful calls and era ids count the Reanchors, on uint64 |
| `Lifecycle.NoWrapIncreases` | keyera/keyera.go:438-454 | a successful call increases the epoch, and a Reanchor the era id, exactly when the counter is not at 2^64 - 1 |
| `Lifecycle.EraSigns` | keyera/keyera.go:283-366 | the full committee of any valid state, with the shares, weights and seeds its records hold and any nonces, is a signing session and satisfies the correctness equation under the era's key |
| `EraRun.EraHoldings` | threshold/threshold.go:211-227 | the records of a valid state give every signer a share of the right length, seeds for every pair of signers and one MAC key per pair |
| `EraRun.CommitteeRun` | sign/local.go:73-124 | the committee of any valid state runs both rounds on its records alone: never refused for a MAC, and the signature meets the equation under the era's key |
| `EraRun.ReshareAndSign` | keyera/keyera.go:283-366 | Reshare to distinct names, then sign: whatever committee took over signs under the unchanged key |
| `KeyEras.FullCommitteeLagrange` | keyera/keyera.go:521-527 | weights for the points 1, ..., n; panics exactly when n reaches q |
| `KeyEras.DerivePairwiseMaterial` | keyera/keyera.go:540-563 | every seed is the stream slice of its cell and every MAC key that of its pair's turn behind them, zero-filled past the end; MAC keys are present for every other party and symmetric |
| `KeyEras.KeyEra.OldShares` | keyera/keyera.go:300-308 | the kernel's input table, or an error naming a validator without a share, exactly when there is one |
| `KeyEras.KeyEra.Reshare` | keyera/keyera.go:283-366 | refusals and panics characterised exactly, and then nothing changes; success replaces only the state: counters advanced by one, shares term by term from the drawn coefficients, and behind them in the stream each record's seed table and the MAC keys of its position; under distinct names each position holds its dealt share, pairs agree on their keys, and every valid secret stays valid |
| `KeyEras.ValidEraRefuses` | keyera/keyera.go:287-293 | in a valid era only an empty list or a threshold out of range is refused |
| `KeyEras.ValidEraPanics` | keyera/keyera.go:283-345 | in a valid era Reshare panics exactly when the new committee is as large as q or the stream holds fewer values below q than the dealing has coefficients |
| `KeyEras.GenGroupKey` | keyera/keyera.go:460-516 | the key is the rounding of A s + e for this matrix, secret and noise |
| `KeyEras.BootstrapTrustedDealer` | keyera/keyera.go:196-269 | refusals exact; every field of the new era, its key with the drawn noise, each share as secret plus drawn coefficients times powers, each record's seeds and MAC keys as stream slices; under distinct names the invariant holds for the dealer's secret |
| `KeyEras.ReanchorTrustedDealer` | keyera/keyera.go:438-454 | the bootstrap under the next era id, starting one epoch after the old state (zero without one), with the same key, shares and pairwise material; invariant for a fresh secret under distinct names |
| `Pedersen.BetaSum` | keyera/bootstrap_pedersen.go:416-476 | the contributions sum to A s + (sum of e_j') for every n and t |
| `Pedersen.SumBetas` | keyera/bootstrap_pedersen.go:430-471 | the loop that scales, multiplies, floods and accumulates is that sum of contributions |
| `Pedersen.AggregateKey` | keyera/bootstrap_pedersen.go:416-476 | the rounded aggregate is a key of the shared secret with the summed noise |
| `KeyEras.BootstrapPedersen` | keyera/bootstrap_pedersen.go:219-259 | refuses exactly n < 2, t out of 1..n-1 or a failed ceremony; the key carries the summed noise, records hold the aggregate shares and the seeds and MAC keys derived from the pairs' sealed shares; the new era satisfies the invariant |
| `Pairwise.LabelsSeparate` | keyera/bootstrap_pedersen.go:749-755 | seed labels of different cells differ and none is the MAC label |
| `Pairwise.KexBinds` | keyera/bootstrap_pedersen.go:707-725 | without hash collisions a pair's secret changes exactly when one of the two shares sealed between them does |
| `Pairwise.DerivePairwiseFromShares` | keyera/bootstrap_pedersen.go:698-744 | every seed and MAC key is derived from its own pair's secret; the MAC table is total off the diagonal and symmetric |
| `KeyEras.ReanchorPedersen` | keyera/reanchor_pedersen.go:65-81 | the ceremony's era under the next era id, starting one epoch after the old state (zero without one), with the same key, shares and derived pairwise material; invariant for the ceremony's secret under distinct names |
| `KeyEras.ReanchorInheriting` | keyera/reanchor_pedersen.go:41-49 | the suite is inherited exactly when it is one of the two known ones |
| `Commit.Horner` | reshare/commit.go:159-168 | the in-place loop equals the sum of x^k c_k |
| `Commit.ComboSlot` | reshare/commit.go:159-168 | slot by slot that sum is the scalar polynomial value the resharing kernel computes |
| `Commit.LinearCombo` | reshare/commit.go:92-184 | evaluating and mapping through a public matrix commute |
| `Commit.CommitToPoly` | reshare/commit.go:92-121 | C_k = A c_k + B r_k; fails exactly on a length mismatch |
| `Commit.VerifyShareAgainstCommits` | reshare/commit.go:126-184 | accepts exactly when A share + B blind is the sum of beta^k C_k; an empty commit list is the wrong length |
| `Commit.HonestShareVerifies` | reshare/commit.go:92-184 | honest share and blind pairs satisfy that equation at every point, for any matrices |
| `Dkg.DKGSession.Round1` | dkg/dkg.go:138-205 | commitments are the images of the coefficients, shares their values at j + 1 |
| `Dkg.DKGSession.Round2` | dkg/dkg.go:211-291 | succeeds exactly when everything arrived and every share matches its commitments; the share is the sum, the key depends on the constant commitments only |
| `Dkg.EvaluationSum` | dkg/dkg.go:267-276 | the evaluations of the dealers' polynomials sum to the evaluation of their sum |
| `Dkg.HonestAccepted` | dkg/dkg.go:224-265 | honest dealings pass at every party, and the aggregate share is the value of the summed polynomial |
| `Dkg.AggregateConsistent` | dkg/dkg.go:224-282 | whoever dealt: after all checks the aggregate share matches the aggregate commitments |
| `Dkg.AggregateIsSharing` | dkg/dkg.go:267-276 | all aggregate shares form one sharing, of degree below t, of the sum of the dealers' constants |
| `Wire.TakeCountIff` | wire/wire.go:127-141 | a count is taken exactly when the bytes start with it, enough bytes follow and it is within the cap |
| `Wire.GuardExact` | wire/wire.go:165-174 | the division guard admits exactly the products that fit, and levels * n * 8 never wraps |
| `Wire.WalkPolySound` | wire/wire.go:156-175 | a successful walk passed over the encoding of a poly within the bounds |
| `Wire.WalkPolyComplete` | wire/wire.go:156-175 | every such encoding is walked, and decodes to that poly |
| `Wire.ParseVectorIff` | wire/wire.go:143-154 | the vector walk consumes exactly the encodings of vectors within the bounds |
| `Wire.WalkVector` | wire/wire.go:143-154 | the loop returns what is left after the parsed vector, or fails with the parser |
| `Wire.ValidatePolyFrame` | wire/wire.go:78-87 | accepts exactly the encodings of a poly within the bounds |
| `Wire.ValidateVectorPolyFrame` | wire/wire.go:64-73 | accepts exactly the encodings of a vector within the bounds |
| `Wire.ValidateMatrixPolyFrame` | wire/wire.go:91-105 | accepts exactly the encodings of a matrix within the bounds |
| `Wire.ParseUnique` | wire/wire.go:64-175 | an accepted frame has one reading |
| `Wire.PolyFitsIff` | wire/wire.go:127-175 | beyond the caps the bounds bite only on a poly with no level or no coefficient |
| `Wire.HonestFramesAccepted` | wire/wire.go:64-105 | every frame whose polys have a level and a coefficient, within caps and size, is accepted |
| `Wire.MatrixPrefix` | wire/wire.go:46-53 | the encodings are prefix-free: a matrix can be read off the front of any byte string in one way |
| `WireCodec.ReadLenPrefixed` | threshold/wire.go:283-296 | one length-prefixed frame; an empty body at the very end of the input fails |
| `WireCodec.WireSignature.MarshalBinary` | threshold/wire.go:43-71 | the step-by-step append is the envelope of the three frames |
| `WireCodec.WireSignature.UnmarshalBinary` | threshold/wire.go:84-155 | accepts exactly the wire forms of signatures whose frames the walk accepts, then holds that signature; on an error the receiver is unchanged |
| `WireCodec.SignatureRoundTrip` | threshold/wire.go:43-155 | a signature survives the wire exactly when its frames are within the limits, and is never read back as another one |
| `WireCodec.SignatureBytesInjective` | threshold/wire.go:43-155 | two acceptable signatures never share a wire form |
| `WireCodec.WireGroupKey.MarshalBinary` | threshold/wire.go:165-185 | the step-by-step append is the envelope of the two frames |
| `WireCodec.WireGroupKey.UnmarshalBinary` | threshold/wire.go:192-256 | accepts exactly the wire forms of acceptable keys; on an error the receiver is unchanged |
| `WireCodec.GroupKeyRoundTrip` | threshold/wire.go:165-256 | a group key survives the wire exactly when its frames are within the limits, and is never read back as another one |
| `WireCodec.GroupKeyBytesInjective` | threshold/wire.go:165-256 | two acceptable keys never share a wire form, nor does a key with a signature |
| `Complaints.ComputeDisqualifiedSet` | reshare/complaint.go:230-254 | contains a sender exactly when at least max(1, tOld - 1) distinct complainers of the list itself named it |
| `Complaints.SamePairs` | reshare/complaint.go:230-254 | order and repetition of complaints do not matter |
| `Complaints.DisqualifiedMonotone` | reshare/complaint.go:230-254 | more complaints never rehabilitate a sender |
| `Complaints.CoalitionPower` | reshare/complaint.go:195-212 | a coalition can disqualify a sender on its own word exactly when it has max(1, tOld - 1) members |
| `Complaints.FilterQualifiedQuorum` | reshare/complaint.go:264-287 | fails exactly when fewer than tOld survive; otherwise the survivors, with multiplicity, in ascending order |
| `Complaints.SurvivorsCount` | reshare/complaint.go:264-287 | however the survivors are listed, the count compared with tOld is their number |
| `Complaints.QuorumAgreement` | reshare/complaint.go:214-287 | parties with the same accusations and quorum, in any order, compute the same list |
| `Complaints.ComplaintBytesIff` | reshare/complaint.go:141-155 | two complaints sign the same bytes exactly when all fields agree, ids modulo 2^32 |
| `Transcripts.BuildExchangeTranscriptParts` | reshare/activation.go:54-98 | the appended list is the sectioned list over sorted ids |
| `Transcripts.ExchangePartsIff` | reshare/activation.go:54-98 | part lists are equal exactly when digest tables and complaint lists are equal and the disqualified and qualified lists are equal as multisets |
| `Activation.InvocationPartsIff` | reshare/transcript.go:72-102 | the part list determines every binding field |
| `Activation.SignableBytesIff` | reshare/activation.go:102-110 | the signed bytes of two certificates agree exactly when both digests do |
| `Activation.ActivationBindsView` | reshare/activation.go:102-150 | an accepted certificate was made for the local view unless the hash collides |
| `Preimages.WriteHash` | primitives/hash.go:192-220 | the buffer written field by field is the specified preimage |
| `Preimages.HashPreimageIff` | primitives/hash.go:192-220 | the preimage determines A, b, the session id, the ordered signer list and every signer's commitment |
| `Preimages.MacPreimageIff` | primitives/hash.go:129-148 | a MAC preimage determines sender, commitment, session id and signer list |
| `GenBuffer.Buffer.GetRandomBytes` | utils/utils.go:491-495 | the next slice, disjoint from all earlier ones, or the out-of-range panic |
| `GenBuffer.CellLayout` | sign/sign.go:117-129 | the places of seeds and MAC keys follow each other without overlap, row by row |
| `GenBuffer.PlacesDisjoint` | sign/sign.go:88-130 | any two different drawn integers, seeds or MAC keys lie in disjoint slices of the buffer |
| `GenBuffer.DealPairwise` | sign/sign.go:112-130 | the seed and MAC-key loops consume exactly 32 (K^2 + K (K - 1) / 2) bytes; every cell's seed and every pair's key is the slice at its own place; the MAC table is total off the diagonal and symmetric |
| `GenBuffer.DealAll` | sign/sign.go:88-130 | for every K and threshold between 1 and K no read runs past the buffer, every drawn integer, seed and key is the slice at its own place, and the bytes left are known exactly: at least 32 when K is 2 or more |

## Left out

- The number-theoretic transform and Montgomery arithmetic: the model takes the transform as inverse linear bijections and identifies Montgomery representatives.
- The prime: that 0x1000000004A01 is prime is a hypothesis.
- Addition and subtraction in the QNu ring: taken as arithmetic modulo QNu with results in [0, QNu), also on the top value QNu.
- Sign.Verify: a restored key coefficient or response coefficient at or above q enters the transform as its residue; what the ring library does with unreduced words is not modelled.
- Samplers, hash functions, the pseudorandom function, MACs and signatures: arbitrary functions; no distribution, hiding or unforgeability claim, and the norm bound stays a hypothesis on the run.
- The lattice library's own frame codec: represented by the documented grammar, with decoding as its inverse.
- The Pedersen VSS library: its result is assumed to be evaluations of polynomials of degree below t; sealed envelopes, blame evidence and the bootstrap transcript hash are not modelled.
- Aliasing of key material and states: shares, states and frames are values, so that two records share one seed table or that a returned state is the era's own object is not captured; erasure and constant-time behaviour are not either.
- Nil receivers and nil eras: `Reshare` on a nil era, nil signatures and nil certificates are not modelled.
- Ragged matrices and vectors of the wrong length inside signing and commitments: dimensions that Go would meet with an index panic are preconditions, except where the code checks them.
- Dkg.DKGSession.Round2: the conversion and rounding of the aggregated commitments is an arbitrary function of their sum, because the code applies a Montgomery conversion to plain values; only agreement of all parties is claimed.
- GenBuffer.DealAll: the buffer's content is arbitrary bytes; its expansion from the dealer key is not modelled.
- Committee.SufficesIff: the necessary direction is over all shares the weights recover, not only those of a threshold below the committee size.
- Preimages.HashPreimageIff: ids and the number of signers are taken within int32, the session id within int64.
- Transcripts.ExchangePartsIff: party ids are taken within uint32.
- Session set-up and parameter guards (NewDKGSession, NewParams, NewSigner): modelled where needed, not listed as results.
- ValidatorSetHash, GroupKey.Bytes, VerifyBytes, CommitDigest and the TupleHash framing underneath: each would add only a variant of a property already stated.
- Matrix products on plain NTT operands (utils/utils.go:61-147) and the naive multiplication in utils/utils-naive.go: not on the signing path.
- Networking, command-line tools, GPU dispatch, timing harnesses and known-answer generators.
