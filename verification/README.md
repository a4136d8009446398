# A verified model of ZeroTier's core

This project models the parts of ZeroTier One whose correctness is hardest to see from the code, and proves what they are for.
`dafny verify dfyconfig.toml` checks everything.

**Curve25519 (node/C25519.cpp).** `Common` holds the types all modules share. `Limbs`, `Columns`, `Products` and `Bits` give arrays of 32-bit limbs their numeric meaning.
Every limb operation is stated on `array<uint32>`, where `uint32` is a subset type, so each assignment proves that no 32-bit
accumulator wraps. On top of that:

- `Curve25519` and `X25519` prove the Montgomery ladder, limb by limb, against `Rfc7748`, which states the algorithm of section 5 of
  RFC 7748 over integers modulo p. `MontgomeryLadder` says what that algorithm is for: a step doubles and adds on the curve with
  coefficient 486662, and the ladder multiplies by the scalar.
- `Sc25519` proves that Barrett reduction returns x mod L for every 512-bit x. The truncated quotient estimate is never too large
  and at most 2 too small.
- `Fe25519` does the same for the arithmetic used by signatures, and says exactly for which values freezing is canonical.
- `Recoding`, `Group` and `Ed25519` prove the digit expansions, the two scalar multiplication loops over any commutative group, and
  that `verify` accepts what `sign` makes.

**The controller (controller/).** `Certificate` is the certificate of membership and its agreement test. `Controller` is the
authorisation of members and the time window of the certificates issued: over every run on a private network, a new certificate
disagrees with those of deauthorised members once the window has reached its minimum. `Summaries` and `JsonDb` are the database's
cached summaries, kept exact by a background thread under every interleaving with writers and erasers. `IpPool` is the IPv4 allocator.

**Stores and codecs.** `Hashtable` is the chained hash table with its iterator, on linked nodes in the heap. `Dictionary` is the packed
key=value text. `Buffer` and `Capability` are the binary codec of capabilities, and `CapabilityWire` gives
its bytes one by one. `Membership` is the store of a peer's credentials.
`SendQueue` and `Framing` are the cluster's pooled send queue and its batching of messages into datagrams.

Where the code departs from its documentation, or from what one would expect, the model keeps the code and proves the exact condition
under which the expectation holds:

- `agreesWith` compares values in the wrong slot unless the qualifiers of the two certificates are aligned (`Certificate.DocumentedExactly`).
- The certificate window shuts deauthorised members out from its minimum onwards, and not before (`Controller.WindowExactly`, `Controller.TooEarly`).
- `fe25519_freeze` gives the canonical residue exactly for numbers below 2^255 (`Fe25519.FrozenIsResidue`).
- `fe25519_mul` can leave more than that; such a product is packed and compared wrongly (`Fe25519.MulFreezes`, `Fe25519.MulThenPack`).
- `verify` looks at S only modulo L (`Ed25519.OnlySModuloL`), and `crypto_scalarmult` counts the top bit of u (`X25519.ScalarMult`).
- `getByDest` leaves a handed-out entry in one index when the result array fills up, and misdelivers a later one (`SendQueue.SendQueue.GetByDest`, `SendQueue.MisdeliveryRun`).
- The IPv4 trials can miss addresses of a pool when the 32-bit trial counter wraps (`IpPool.CoversExactly`).
- Revoking another credential can lower the threshold for certificates (`Membership.Membership.AddRevocation`).
- Assigning a hash table to itself empties it (`Hashtable.Assign`).

## Model

| member | source | states |
|---|---|---|
| `Curve25519.AddLimbs` | node/C25519.cpp:34-41 | the carried sum denotes the sum of the two numbers, with limbs in the ladder's loose bounds, also when the output aliases an input |
| `Curve25519.SubLimbs` | node/C25519.cpp:43-55 | the result denotes a - b + 2p exactly, so it is congruent to a - b and never negative |
| `Curve25519.Squeeze` | node/C25519.cpp:57-67 | any limbs up to 2^31 are brought into the reduced bounds, and the number becomes its fold at bit 255 |
| `Curve25519.Mult` | node/C25519.cpp:85-98 | congruent to the product mod p, reduced, without 32-bit wrap for all loose inputs |
| `Curve25519.Square` | node/C25519.cpp:113-131 | congruent to the square mod p, and denotes the same number as mult of the input with itself |
| `Curve25519.SquareIsMult` | node/C25519.cpp:85-131 | the half-work square and mult(a, a) agree limb for limb, since reduced limbs of a number are unique |
| `Curve25519.Mult121665` | node/C25519.cpp:100-111 | congruent to 121665 times the input, reduced |
| `Curve25519.Freeze` | node/C25519.cpp:69-83 | the 32 bytes denote the residue below p, for every reduced input |
| `Curve25519.Select` | node/C25519.cpp:133-145 | the masked exclusive-or swap yields (r, s) or (s, r) by the bit |
| `Rfc7748.EagerIsDeferred` | node/C25519.cpp:176-200 | swapping back at the end of every round computes what the RFC's deferred swap computes, for any number of rounds |
| `Rfc7748.EngineStepIsStep` | node/C25519.cpp:180-198 | the step in the code's order of operations, with its 121665 constant, equals the RFC's ladder step |
| `MontgomeryLadder.StepDoubles` | node/C25519.cpp:184-196 | the coordinates a step leaves first are (x^2 - z^2)^2 and 4xz(x^2 + 486662xz + z^2) mod p, the doubling of the curve |
| `MontgomeryLadder.StepAdds` | node/C25519.cpp:186-198 | those it leaves second are 4(x2 x3 - z2 z3)^2 and 4 x1 (z2 x3 - x2 z3)^2 mod p, the sum of two points whose difference has coordinate x1 |
| `MontgomeryLadder.LadderMultiplies` | node/C25519.cpp:147-202 | over any commutative group in which such steps double and add, the ladder returns the coordinate of k times the base point, for every k below 2^255 |
| `MontgomeryLadder.DecodeScalarBits` | node/C25519.cpp:277-279 | the decoded scalar has bits 0, 1, 2 and 255 clear, bit 254 set and every other bit that of the number |
| `X25519.Double` | node/C25519.cpp:184-196 | the limb operations compute the doubled point's coordinates mod p within bounds |
| `X25519.DifferentialAdd` | node/C25519.cpp:186-198 | the limb operations compute the differential sum's coordinates mod p within bounds |
| `X25519.LadderStep` | node/C25519.cpp:180-198 | one round on limbs is one ladder step of section 5 of RFC 7748 on residues, and keeps the bounds |
| `X25519.LadderRound` | node/C25519.cpp:176-200 | a round with the select before and after it is the step conjugated by the conditional swap |
| `X25519.BitOfBytes` | node/C25519.cpp:177-178 | the bit picked out of the byte array is that bit of the scalar as a number |
| `X25519.MainLoop` | node/C25519.cpp:147-202 | 255 rounds on limbs equal 255 rounds of the mathematical ladder, for every scalar and every u |
| `X25519.Recip` | node/C25519.cpp:204-269 | z^(p-2) mod p for every z, through all squaring chains |
| `X25519.ClampValue` | node/C25519.cpp:277-279 | clamping the bytes is decodeScalar25519 on the number |
| `X25519.EmitBytes` | node/C25519.cpp:284-285 | the bytes emitted denote the frozen limbs |
| `X25519.ScalarMult` | node/C25519.cpp:271-287 | the 32 bytes are the canonical x-coordinate of the multiple; with the top bit of u clear, X25519 of section 5 of RFC 7748; with it set, X25519 at the masked u plus 19, mod p |
| `Sc25519.ModulusValue` | node/C25519.cpp:634-636 | the modulus table denotes the group order L, and its limb sum is 2524 |
| `Sc25519.OrderIs` | node/C25519.cpp:634-636 | L is 2^252 + 27742317777372353535851937790883648493 |
| `Sc25519.MuValue` | node/C25519.cpp:637-638 | the mu table denotes the quotient of 2^512 by L, and its limb sum is 5440 |
| `Sc25519.ReduceAddSub` | node/C25519.cpp:649-667 | subtracts L exactly when the number is at least L |
| `Sc25519.QuotientEstimate` | node/C25519.cpp:670-719 | the truncated estimate lies between x/L - 2 and x/L, so the difference is in [0, 3L) |
| `Sc25519.QuotientColumns` | node/C25519.cpp:682-691 | the partial columns give such an estimate for every 512-bit x, without 32-bit wrap |
| `Sc25519.RemainderColumns` | node/C25519.cpp:693-703 | the low columns of the estimate times L, carried, are that product mod 2^256 |
| `Sc25519.BarrettReduce` | node/C25519.cpp:670-719 | the result is x mod L for every 64 byte limbs; the subtraction never goes negative and two conditional subtractions suffice |
| `Sc25519.From32Bytes` | node/C25519.cpp:721-728 | 256-bit input reduced mod L |
| `Sc25519.From64Bytes` | node/C25519.cpp:730-736 | 512-bit input reduced mod L |
| `Sc25519.AddScalars` | node/C25519.cpp:744-755 | sum mod L of reduced scalars |
| `Sc25519.MulScalars` | node/C25519.cpp:757-776 | product mod L of reduced scalars |
| `Recoding.PlainDigits` | node/C25519.cpp:778-800 | three-bit digits in [0, 7] with weights 8^i denote the scalar, the top one at most 1 |
| `Recoding.MakeSigned` | node/C25519.cpp:802-813 | carrying digits above 3 leaves the number unchanged and all 85 digits in [-4, 3] |
| `Recoding.Window3` | node/C25519.cpp:778-813 | 85 digits in [-4, 3] whose weighted sum is the scalar |
| `Recoding.Interleave2` | node/C25519.cpp:815-828 | 127 digits whose low and high halves denote the two scalars in base 4 |
| `Ed25519.ChooseT` | node/C25519.cpp:1843-1854 | the table look-up with sign gives the digit times its power of 8 times the base point |
| `Ed25519.ScalarMultBase` | node/C25519.cpp:1968-1983 | the windowed loop computes s times the base point, over any commutative group |
| `Ed25519.Precompute` | node/C25519.cpp:1931-1947 | entry k of the table is (k mod 4) P1 + (k div 4) P2 |
| `Ed25519.DoubleScalarMult` | node/C25519.cpp:1923-1966 | the interleaved loop computes s1 P1 + s2 P2, over any commutative group |
| `Ed25519.CalcPubED` | node/C25519.cpp:2102-2121 | the public key is the packed multiple of the base point by the decoded first half of the hashed secret |
| `Ed25519.SecretScalar` | node/C25519.cpp:2109-2113 | the first half of the hashed secret, clamped, is the scalar of section 5 of RFC 7748 of that half; the second half is as hashed |
| `Ed25519.GetHram` | node/C25519.cpp:1985-1995 | hashes R, public key and digest even when its scratch area is the signature itself |
| `Ed25519.Sign` | node/C25519.cpp:2016-2063 | all 96 bytes, written out: the digest is the first half of SHA-512 of the message, k is SHA-512 of the second half of the hashed secret and the digest mod L, R is k B packed, S = (k + SHA-512(R, A, digest) a) mod L |
| `Ed25519.SignatureIs` | node/C25519.cpp:2016-2063 | what it takes to be the signature of a message is exactly that |
| `Ed25519.ScalarBytes` | node/C25519.cpp:738-742 | the bytes of a reduced scalar denote it |
| `Ed25519.Verify` | node/C25519.cpp:2065-2093 | accepts exactly when the digest is that of the message, A unpacks, and S B - SHA-512(R, A, digest) A packed equals R |
| `Ed25519.VerificationEquation` | node/C25519.cpp:2065-2093 | S B - H A = k B whenever S = (k + H a) mod L, using only L B = 0 |
| `Ed25519.SignedIsAccepted` | node/C25519.cpp:2016-2093 | every signature of sign is accepted by verify under the matching public key |
| `Ed25519.OnlySModuloL` | node/C25519.cpp:2065-2093 | acceptance depends on S only modulo L, where section 5.1.7 of RFC 8032 also demands S below L |
| `Ed25519.SecondForm` | node/C25519.cpp:2065-2093 | an accepted signature with S + L below 2^256 is accepted with S + L too |
| `Fe25519.ReducePass` | node/C25519.cpp:338-356 | one pass of folding bit 255 and carrying takes off a multiple of p |
| `Fe25519.ReduceAddSub` | node/C25519.cpp:338-356 | four passes make limbs up to 1023 canonical and keep the residue |
| `Fe25519.ReduceMul` | node/C25519.cpp:358-376 | two passes bring the folded product into the reduced bounds, keep the residue, and leave exactly TwoPasses |
| `Fe25519.FeAdd` | node/C25519.cpp:461-466 | sum mod p, within bounds closed under all three operations, aliasing allowed |
| `Fe25519.FeSub` | node/C25519.cpp:468-477 | difference mod p, likewise; adding 2p keeps every limb non-negative |
| `Fe25519.FeMul` | node/C25519.cpp:479-494 | product mod p, likewise, without 32-bit wrap; and exactly which number below 129 * 2^248 is left |
| `Fe25519.EqualMeaning` | node/C25519.cpp:311-317 | the branch-free comparison is equality on 16-bit values |
| `Fe25519.Freeze` | node/C25519.cpp:379-393 | subtracts p exactly when the limbs of p are matched from the top |
| `Fe25519.FrozenIsResidue` | node/C25519.cpp:379-393 | the frozen value is the residue below p if and only if the number is below 2^255 |
| `Fe25519.MulFreezes` | node/C25519.cpp:358-393 | a product is frozen to its residue exactly if what one pass leaves, folded at 2^255, is below 2^255 |
| `Fe25519.MulLeavesMore` | node/C25519.cpp:479-494 | two residues below p with product 20 that mul leaves as 2^255 + 1 and freeze does not change |
| `Fe25519.MulThenPack` | node/C25519.cpp:403-422 | packed, that product is 2^255 + 1; compared with 20, to which it is equal mod p, it is different |
| `Fe25519.Pack` | node/C25519.cpp:403-410 | the 32 bytes are those of the frozen value, so the residue for canonical limbs |
| `Fe25519.IsEqual` | node/C25519.cpp:412-422 | equality of residues for canonical limbs |
| `Fe25519.Invert` | node/C25519.cpp:501-566 | x^(p-2) mod p for every x |
| `Fe25519.Pow2523` | node/C25519.cpp:568-620 | x^((p-5)/8) mod p for every x |
| `Fe25519.InversePower` | node/C25519.cpp:501-620 | the exponents the two addition chains reach are p - 2 and (p - 5)/8 |
| `Certificate.AgreementWalk` | node/CertificateOfMembership.cpp:163-197 | the two-index walk decides: every id of mine occurs in other, and the values in equal slots are within my deltas |
| `Certificate.DocumentedExactly` | node/CertificateOfMembership.hpp:242-255 | for any two certificates, repeated ids included: the documented comparison is what the code computes, for all values, if and only if an id is missing or every limited qualifier stands in the same slot of both and nowhere else |
| `Certificate.MisalignedDiffers` | node/CertificateOfMembership.cpp:187-191 | for every misaligned pair of id lists there are values on which the code refuses what the documentation accepts |
| `Certificate.ExtraQualifierMisleads` | node/CertificateOfMembership.cpp:187-191 | a concrete pair that meets the documentation and is refused |
| `Certificate.IssuedAgree` | node/CertificateOfMembership.hpp:133-147 | issued certificates are aligned: they agree when the networks are equal and the timestamps within the delta |
| `Certificate.IssuedSays` | node/CertificateOfMembership.hpp:133-147 | the three qualifiers of an issued certificate: timestamp with its delta, network without one, holder with any |
| `Certificate.ValueOf` | node/CertificateOfMembership.hpp:179-210 | the value of the first qualifier with the id, 0 without one |
| `Certificate.CertificateOfMembership.SetQualifier` | node/CertificateOfMembership.cpp:35-54 | ids stay strictly increasing and the signer is cleared; the qualifier is replaced or added, unless all eight slots are used by others |
| `Certificate.CertificateOfMembership.AgreesWith` | node/CertificateOfMembership.cpp:163-197 | certificates built with setQualifier agree as documented whenever other starts with the same ids, by comparing value by value |
| `Controller.StaleAgrees` | controller/EmbeddedNetworkController.cpp:1388-1399 | for any limits of the delta, exactly when a new certificate agrees with one from before the last deauthorisation |
| `Controller.NewAgrees` | controller/EmbeddedNetworkController.cpp:1388-1399 | a new certificate agrees with any other exactly if the networks are the same and the timestamps at most a bound apart: the greatest delta without a recent deauthorisation, the time since it less five seconds after one, the least delta right after one |
| `Controller.DefaultWindow` | controller/EmbeddedNetworkController.cpp:1388-1399 | with the default limits these are two hours and 185 seconds |
| `Controller.WindowExactly` | controller/EmbeddedNetworkController.cpp:1388-1399 | for any limits, the window shuts out all older certificates if and only if the last deauthorisation is at least the minimum ago |
| `Controller.TooEarly` | controller/EmbeddedNetworkController.cpp:1388-1399 | a run in which a certificate issued ten milliseconds after a deauthorisation agrees with the certificate of the deauthorised member |
| `Controller.CountUses` | controller/EmbeddedNetworkController.cpp:1302-1310 | counts the grants a token gave in the member's history |
| `Controller.UsesCount` | controller/EmbeddedNetworkController.cpp:1302-1310 | the uses of a token are the number of granting entries of the history that name it |
| `Controller.FindToken` | controller/EmbeddedNetworkController.cpp:1290-1323 | finds a token exactly when an entry has the presented text, has not expired and is unlimited or used fewer times than allowed |
| `Controller.UseKeepsLimits` | controller/EmbeddedNetworkController.cpp:1299-1312 | using a token keeps its uses per member within the largest limit of its entries |
| `Controller.Controller.Admit` | controller/EmbeddedNetworkController.cpp:1270-1342 | exactly who is authorised, with the condition on tokens written out, and the whole record: on a public network a member without history, on a private one a member with a good token, gets one entry, the time and a new revision |
| `Controller.NewRecord` | controller/EmbeddedNetworkController.hpp:129-149 | a member not seen before is not authorised and has no history |
| `Controller.Controller.SetAuthorized` | controller/EmbeddedNetworkController.cpp:636-726 | the whole new record with its revision; certificates of deauthorised members are never younger than their deauthorisation |
| `Controller.Controller.Request` | controller/EmbeddedNetworkController.cpp:1235-1399 | who gets a certificate, the whole new state with version and address of the sender, identities that never change, token limits; on a private network with a fresh summary and the window at its minimum the certificate disagrees with all those of deauthorised members |
| `Controller.ShutOut` | controller/EmbeddedNetworkController.cpp:1733-1739 | the last clause as a statement about the members and all certificates ever issued |
| `Controller.FreshAtRest` | controller/JSONDB.cpp:385-437 | the cached summary of a database at rest, after any interleaving, is the fresh one the controller needs |
| `Controller.RestShutsOut` | controller/EmbeddedNetworkController.cpp:1388-1399 | so a request reading it shuts out the certificates of all deauthorised members |
| `Summaries.SummaryUnique` | controller/JSONDB.cpp:385-437 | a network's members have exactly one summary, in whatever order they are visited |
| `Summaries.DefaultIsSummary` | controller/JSONDB.hpp:51-60 | the summary a network starts with is the exact one for no members |
| `Summaries.Summarize` | controller/JSONDB.cpp:385-437 | recomputation over the readable records gives the exact summary for any visiting order, and the number of authorised members whose log was written to within two minutes |
| `Summaries.ExactSays` | controller/JSONDB.cpp:385-437 | an exact summary lists the authorised active bridges in increasing order, counts authorised and all readable records, and has the latest deauthorisation of those not authorised |
| `Summaries.ExactIps` | controller/JSONDB.cpp:412-421 | its addresses are those of the authorised members, each as often as they hold it |
| `JsonDb.RecomputeAll` | controller/JSONDB.cpp:379-443 | the thread's loop makes exactly the listed networks' summaries exact |
| `JsonDb.NextKeeps` | controller/JSONDB.cpp:203-304 | every step of writers, erasers and the thread keeps: an inexact summary is queued, taken, written-not-queued or being erased; and every membership is indexed |
| `JsonDb.RunKeeps` | controller/JSONDB.cpp:365-443 | so in every state of every interleaving from loading on |
| `JsonDb.QuiescentExact` | controller/JSONDB.cpp:365-443 | when nothing is under way each cached summary equals recomputation, and the member index is complete |
| `JsonDb.ThreadCatchesUp` | controller/JSONDB.cpp:365-443 | once writers are done, at most one pass over each list makes every summary exact |
| `JsonDb.InitHolds` | controller/JSONDB.cpp:79-96 | after loading from the file system the invariant holds |
| `JsonDb.JsonDb.constructor` | controller/JSONDB.cpp:79-96 | loading any list of records gives the initial state: a network for every record that names one, the last record of each member, the index of exactly these memberships, and every network queued |
| `JsonDb.JsonDb.RecomputeSummaryInfo` | controller/JSONDB.cpp:531-538 | appends a network to the queue unless it is there, and is the step between write and queueing |
| `JsonDb.JsonDb.SaveNetwork` | controller/JSONDB.cpp:203-213 | the whole new state: an empty network is added if there is none and nothing else changes, it is queued once, the invariant holds |
| `JsonDb.JsonDb.SaveNetworkMember` | controller/JSONDB.cpp:215-226 | the whole new state: the record stored in the network, its other members, its summary and every other network unchanged, exactly one membership added to the index, the network queued once |
| `JsonDb.JsonDb.EraseNetworkMember` | controller/JSONDB.cpp:271-304 | the whole new state: only that member leaves the network, whose other members and summary stay, every other network is unchanged, the index loses exactly that membership, and the network is queued exactly if there was a record |
| `JsonDb.JsonDb.EraseQuietly` | controller/JSONDB.cpp:271-304 | the same as part of erasing the network, without queueing it |
| `JsonDb.JsonDb.EraseNetwork` | controller/JSONDB.cpp:228-269 | only that network goes, the index loses exactly the memberships in it, nothing is queued, and the invariant holds at every step |
| `JsonDb.JsonDb.ThreadRound` | controller/JSONDB.cpp:365-442 | takes the queue and makes exactly those networks' summaries exact |
| `IpPool.RoutedBits` | controller/EmbeddedNetworkController.cpp:1690-1702 | the bits of the first matching IPv4 route, -1 exactly if none matches; for 1 to 32 bits that route has an aligned target and the address is in its block |
| `IpPool.MatchesRange` | controller/EmbeddedNetworkController.cpp:1693-1699 | a route of 1 to 32 bits holds an address exactly if its target is a multiple of the block size and the address is within that block |
| `IpPool.FirstBitsMatch` | controller/EmbeddedNetworkController.cpp:1690-1702 | the bits are those of a route that contains the address, and -1 exactly if none does |
| `IpPool.EligibleSays` | controller/EmbeddedNetworkController.cpp:1688-1707 | an address is eligible exactly if it does not end in .255, is free, and the first route it is in has bits |
| `IpPool.TrialsAre` | controller/EmbeddedNetworkController.cpp:1676-1686 | the number of trials, and the address of each of them by its own number |
| `IpPool.TryPool` | controller/EmbeddedNetworkController.cpp:1676-1719 | sound, takes the first eligible trial, and finds one exactly if a trial is eligible, with all 32-bit wraps |
| `IpPool.Assign` | controller/EmbeddedNetworkController.cpp:1668-1722 | the address comes from the first usable pool that yields one, lies in it, is free, does not end in .255, and is in the block of a route with the bits returned |
| `IpPool.CoversExactly` | controller/EmbeddedNetworkController.cpp:1682-1686 | the trials reach every address of the range if and only if Reaches, a condition on the start counter, the length and the number of trials |
| `IpPool.PoolComplete` | controller/EmbeddedNetworkController.cpp:1684-1719 | under Reaches, an eligible address below the last means one is assigned |
| `IpPool.PoolMisses` | controller/EmbeddedNetworkController.cpp:1684-1719 | without Reaches, some address is not assigned even if it is the only one left |
| `IpPool.SmallPoolReaches` | controller/EmbeddedNetworkController.cpp:1684-1686 | up to 1000 addresses and no wrap of the counter are enough |
| `IpPool.WrapMisses` | controller/EmbeddedNetworkController.cpp:1682-1686 | a concrete pool of ten that a wrap keeps from being covered |
| `Hashtable.Hashtable.constructor` | node/Hashtable.hpp:116-125 | an empty map with the given number of buckets |
| `Hashtable.Hashtable.Find` | node/Hashtable.hpp:249-258 | the chain walk finds the node of a key exactly if the map has it |
| `Hashtable.Hashtable.Get` | node/Hashtable.hpp:249-258 | the map's value, or none |
| `Hashtable.Hashtable.Set` | node/Hashtable.hpp:305-329 | updates the map at one key, growing or not, with memory for it or not |
| `Hashtable.Hashtable.Index` | node/Hashtable.hpp:335-357 | the value at the key, after putting the default there if it was missing |
| `Hashtable.Hashtable.Erase` | node/Hashtable.hpp:280-298 | removes the key from the map and exactly one node from its chain |
| `Hashtable.Hashtable.Clear` | node/Hashtable.hpp:171-185 | leaves the empty map |
| `Hashtable.Hashtable.Grow` | node/Hashtable.hpp:388-409 | relinks the same nodes in place into twice the buckets; the map is unchanged |
| `Hashtable.RehashDone` | node/Hashtable.hpp:388-409 | the relinked chains keep keys unique and every node in the chain of its hash |
| `Hashtable.Iterator.constructor` | node/Hashtable.hpp:78-83 | starts before all nodes, in bucket order |
| `Hashtable.Iterator.Next` | node/Hashtable.hpp:90-104 | returns the next node that remains, null after the last |
| `Hashtable.Iterator.EraseLast` | node/Hashtable.hpp:66-104 | erasing the key returned last leaves the nodes still to come unchanged |
| `Hashtable.OrderEnumerates` | node/Hashtable.hpp:72-104 | iteration order lists every key of the map exactly once |
| `Hashtable.Assign` | node/Hashtable.hpp:153-166 | takes over the other table's map and leaves that table alone; a table assigned to itself is emptied |
| `Hashtable.EraseWhere` | node/Membership.hpp:213-223 | the cleaning loop visits every key once and keeps exactly the entries that pass |
| `Dictionary.UnescapeEscape` | node/Dictionary.hpp:320-393 | every binary value survives escaping and unescaping |
| `Dictionary.EscapesAre` | node/Dictionary.hpp:188-219 | which two bytes stand for 0, CR, LF, the equals sign and the backslash, and which byte every pair stands for |
| `Dictionary.LookupRender` | node/Dictionary.hpp:162-238 | looking a key up line by line in the text of any entries gives the first value with that key |
| `Dictionary.LookupText` | node/Dictionary.hpp:162-238 | in any text, CR and LF end lines; a line that starts with the key and an equals sign gives the unescaped rest of it, and any other line is passed over |
| `Dictionary.FirstValueIs` | node/Dictionary.hpp:162-238 | the first value is that of the first entry with the key, and none exactly if no entry has it |
| `Dictionary.RenderIs` | node/Dictionary.hpp:334-390 | the text of entries, byte by byte |
| `Dictionary.Dictionary.constructor` | node/Dictionary.hpp:65-68 | an empty text |
| `Dictionary.Dictionary.Add` | node/Dictionary.hpp:320-393 | succeeds exactly if the longer text and its terminator fit, and otherwise leaves the text as it was |
| `Dictionary.Dictionary.AppendLine` | node/Dictionary.hpp:334-390 | the bytes written are separator, key, equals sign and escaped value |
| `Dictionary.Dictionary.CopyValue` | node/Dictionary.hpp:188-219 | unescapes into the destination all of the value, or as much as fits with its terminator |
| `Dictionary.Dictionary.Get` | node/Dictionary.hpp:162-238 | byte for byte the first value successfully added under the key, cut to the destination; -1 and an empty string without one |
| `Buffer.FromBigEndianInverts` | node/Buffer.hpp:203-242 | reading inverts writing for every value that fits |
| `Buffer.BigEndianAt` | node/Buffer.hpp:229-243 | byte i is the value shifted and masked |
| `Buffer.Buffer.Append` | node/Buffer.hpp:229-243 | appends the big-endian bytes, or fails and changes nothing if they do not fit |
| `Buffer.Buffer.AppendBytes` | node/Buffer.hpp:280-286 | appends the bytes, or fails and changes nothing |
| `Buffer.Buffer.At` | node/Buffer.hpp:203-221 | the big-endian integer at a position, none if it crosses the end |
| `Capability.WireBack` | node/Capability.hpp:286-373 | rules come back in order at any offset, and bytes of unknown types or later versions are skipped without losing the place |
| `Capability.RoundTrip` | node/Capability.hpp:376-446 | a capability read where it was written, at any offset of any buffer, is the same, and exactly its bytes are consumed |
| `Capability.ChainBack` | node/Capability.hpp:422-440 | the chain of custody comes back with its end marker |
| `Capability.SerializeRules` | node/Capability.hpp:178-283 | appends the rules one after the other in the form `CapabilityWire` gives for each type, failing exactly if it does not fit |
| `Capability.SerializeChain` | node/Capability.hpp:389-401 | appends the links and the zero address |
| `Capability.Serialize` | node/Capability.hpp:376-408 | appends the capability's wire form, failing exactly if it does not fit |
| `Capability.DeserializeRules` | node/Capability.hpp:286-373 | reads on every input, malformed ones included, what `CapabilityWire.RulesRead` and `CapabilityWire.RuleRead` say |
| `Capability.DeserializeChain` | node/Capability.hpp:422-440 | reads on every input what `CapabilityWire.LinkRead` says |
| `Capability.Deserialize` | node/Capability.hpp:411-446 | reads on every input what `CapabilityWire.CapabilityRead` says, with the error each check raises |
| `CapabilityWire.OneField` | node/Capability.hpp:186-280 | the bytes of every rule type with one field: the type, 5, 2, 1, 6, 8 or 4 as length, and the field |
| `CapabilityWire.TwoFields` | node/Capability.hpp:186-280 | the bytes of every rule type with two fields, of 4 and 1, 16 and 1, 2 and 2, or 4 and 4 bytes |
| `CapabilityWire.ThreeFields` | node/Capability.hpp:186-280 | the bytes of every rule type with three fields, of 8, 4 and 2, or 1 byte each |
| `CapabilityWire.NoFields` | node/Capability.hpp:186-188 | every other type is followed by a length of 0 |
| `CapabilityWire.RulesWritten` | node/Capability.hpp:178-283 | rules are written one after the other |
| `CapabilityWire.RuleRead` | node/Capability.hpp:286-373 | for every rule type, which bytes after type and length its fields are read from, and that the next rule is where the length says |
| `CapabilityWire.RulesRead` | node/Capability.hpp:286-373 | rules are read one after the other while more are expected and bytes are left, and the first failure is the result |
| `CapabilityWire.CapabilityWritten` | node/Capability.hpp:376-408 | the whole wire form in order |
| `CapabilityWire.ChainWritten` | node/Capability.hpp:389-401 | each link is two addresses, signature type 1, length 96 and the signature; five zero bytes end the chain |
| `CapabilityWire.SignedWritten` | node/Capability.hpp:376-408 | the signed form is the wire form without the chain between eight 0x7f bytes and eight more |
| `CapabilityWire.CapabilityRead` | node/Capability.hpp:411-446 | at most 64 rules, a custody limit of 1 to 7, the position of every part, and the additional fields skipped and counted |
| `CapabilityWire.LinkRead` | node/Capability.hpp:422-440 | where a chain ends, when it is too long, which signatures are kept, skipped or refused |
| `Capability.SignatureBinds` | node/Capability.hpp:376-408 | capabilities with the same signed bytes differ in nothing but the chain of custody |
| `Capability.Sign` | node/Capability.hpp:128-168 | the first free slot is found and filled; succeeds exactly if the chain has room and the signer its secret; every link signs the same bytes, and the capability is issued to the new recipient |
| `Membership.Membership.constructor` | node/Membership.hpp:67 | no credentials and no thresholds |
| `Membership.Membership.AddCom` | node/Membership.cpp:128-155 | the whole result and new state: exactly when a certificate is rejected, deferred, redundant or newly accepted, and only then stored |
| `Membership.Membership.AddCredential` | node/Membership.cpp:157-190 | the whole result and new state: newly accepted exactly if above the threshold recorded for it, not older than the stored one, different and well signed |
| `Membership.Membership.AddRevocation` | node/Membership.cpp:196-231 | the whole result and new state: a new threshold is recorded for the credential and, whatever credential it is, for certificates; the latter falls exactly if it was higher |
| `Membership.RunLater` | node/Membership.cpp:128-231 | over every sequence of additions the stored certificate, each stored credential and each threshold of one only gets newer |
| `Membership.RevokedStaysOut` | node/Membership.cpp:157-231 | over every run, a credential newly accepted is above the threshold of every well-signed revocation of it before |
| `Membership.RevokedIsUnused` | node/Membership.hpp:201-211 | over every run, a stored credential at or below the threshold of any revocation so far is never used, whenever it was stored |
| `Membership.ComRevocationLasts` | node/Membership.cpp:128-231 | a revoked certificate stays rejected as long as no revocation of another credential has a lower threshold |
| `Membership.Membership.IsValid` | node/Membership.hpp:201-211 | a stored credential counts exactly if its timestamp is near the configuration's and above its threshold |
| `Membership.ThresholdFalls` | node/Membership.cpp:214-222 | a concrete run in which the certificate threshold falls from 100 to 50 |
| `SendQueue.SendQueue.constructor` | attic/Cluster.cpp:87-88 | an empty queue without memory |
| `SendQueue.SendQueue.Oldest` | attic/Cluster.cpp:98-108 | counts the sender's entries and finds one with the least timestamp |
| `SendQueue.SendQueue.Take` | attic/Cluster.cpp:116-126 | a slot from the pool or a new chunk of 32, failing exactly when both are exhausted |
| `SendQueue.SendQueue.Enqueue` | attic/Cluster.cpp:91-137 | pool, queued and handed-out slots partition the memory, both indexes hold the queued ones, at most 16 per sender; a refused entry changes nothing |
| `SendQueue.LimitsAre` | attic/Cluster.cpp:94-122 | refused exactly beyond 1500 bytes or without memory to take or free; the sixteenth entry of a sender is made room for by its oldest |
| `SendQueue.SoundMeans` | attic/Cluster.cpp:91-137 | what every operation keeps, in terms of the two indexes, the pool and the entries |
| `SendQueue.SendQueue.Expire` | attic/Cluster.cpp:139-149 | keeps exactly the entries no older than 3000 milliseconds and not from the future |
| `SendQueue.SendQueue.GetByDest` | attic/Cluster.cpp:161-174 | hands out distinct entries listed for the destination, all of them if there is room; from a consistent queue it leaves one if and only if fewer than the maximum matched, and otherwise one stale pair in the index |
| `SendQueue.SendQueue.ReturnToPool` | attic/Cluster.cpp:182-187 | the slots go back to the pool, which never overflows |
| `SendQueue.Misdeliver` | attic/Cluster.cpp:161-174 | whenever the memory of a stale pair is reused, the new entry is handed to whoever asks for the old destination |
| `SendQueue.MisdeliveryRun` | attic/Cluster.cpp:161-174 | a run from an empty queue in which an entry for 3 is handed to whoever asks for 2 |
| `Framing.ParseBack` | attic/Cluster.cpp:299-307 | the receiver's length-prefixed loop over the frames of any messages gives them back in order |
| `Framing.EncodeIs` | attic/Cluster.cpp:936-947 | a message is two bytes of length, its kind and its body |
| `Framing.ParseIs` | attic/Cluster.cpp:299-307 | frames are read behind their lengths until one is not all there |
| `Framing.ReceivedIs` | attic/Cluster.cpp:247-307 | a datagram that is too short or long, has the wrong authenticator, or is from oneself, to somebody else or from no member is dropped; every other one is taken apart |
| `Framing.SealedIsReceived` | attic/Cluster.cpp:247-307 | a datagram sealed for a member and within the limit is received as its messages |
| `Framing.Link.constructor` | attic/Cluster.cpp:799-805 | a queue that holds only the header |
| `Framing.Link.Send` | attic/Cluster.cpp:936-947 | accepted exactly if the message fits a datagram by itself; the queue is flushed first exactly if it would not fit; accepted messages are flushed or queued in order, once each; no append overflows |
| `Framing.Link.Flush` | attic/Cluster.cpp:949-987 | sends one datagram of IV, authenticator and enciphered queue if there is a message; the datagrams sent so far, each within the limit, are received as exactly the messages flushed so far |
| `Framing.Receive` | attic/Cluster.cpp:247-499 | the receiver's checks and loop compute Received for every datagram |

## Left out

- SHA-512, the stream cipher and the authenticator are parameters: functions of which only output lengths and, for the cipher, being its own inverse are used.
- The Edwards group law, the point formulas and the contents of the base point table are parameters of `Ed25519.Curve`: a commutative group, a base point of order L, an encoding and its inverse. That p and L are prime is not used. In the source the encoding packs a product of `fe25519_mul`, so this clause leaves out the points whose affine y comes out at 2^255 or more (`Fe25519.MulLeavesMore`).
- Timing: that the branch-free code takes the same time for all inputs is not modelled.
- The Diffie-Hellman key agreement after the scalar multiplication, and key generation, which is random.
- The ladder's 64-limb work arrays are pairs of 32-limb arrays here, and the squarings of the addition chains share one loop with the number of squarings as its bound.
- The copy constructor of hash tables. Failing to allocate a larger table is a parameter.
- `Dictionary`: values given as C strings, the typed getters and setters, loading foreign text into the buffer, and the guards against a text without terminator.
- `Dictionary.Dictionary.Add`: keys are legal (no null, line break or equals sign) and values are given with their length, as callers give binary ones.
- Checking the signatures of certificates, and converting them to and from text. `std::sort` in setQualifier is insertion at the sorted place.
- The certificate codec, tags, revocations and certificates of ownership as wire formats; they would repeat the capability's proofs on simpler layouts.
- The controller's HTTP interface other than the authorisation flag, the rate limit on requests, the IPv6 pool, rules, tags and capabilities in the configuration sent, and changing a network's tokens or privacy while it runs.
- `Controller.Controller.Request`: the summary it reads is a parameter; the safety clause is for a fresh one, as `Controller.FreshAtRest` gives at rest. Members are not deleted.
- `JsonDb`: the modes that talk HTTP or standard input instead of files. The count of recently active members, which depends on the clock, is computed and not kept in the state.
- `IpPool`: the mask for a route of 0 bits, or more than 32, is a parameter, since that shift is undefined in the source.
- `Capability`: verifying the chain of custody; the signature scheme is a parameter of signing. Fields copied as raw bytes are read as big-endian numbers of the same length. Positions do not wrap at 32 bits.
- `Framing`: the maximum datagram size is a parameter, since its definition is not part of this model; what the receiver does with each kind of message.
- `Membership`: pushing credentials to the peer, and the cleaning of stale ones other than `Hashtable.EraseWhere`.
- `SendQueue.SendQueue.GetByDest`: the order of entries in an index, which follows addresses in memory, is arbitrary here; the result array has room for at least one entry.
