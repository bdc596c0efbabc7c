# A model of StarMiner and proofs about it

StarMiner looks for secp256k1 private keys with Pollard's kangaroo method, alone or in a pool, and with a
zone-by-zone search of a key range. This project models its arithmetic, its walks, its codecs, its pool protocol,
its rule interpreter and its resumable search in Dafny 4.11, and proves what each of them is for.
`dafny verify dfyconfig.toml` checks everything.

## How the model is laid out

| files | what they model |
|---|---|
| `Limbs`, `FieldMul`, `FieldPow`, `Decompress` | 256-bit numbers as four 64-bit limbs with explicit carries, multiplication and powers modulo p, point decompression |
| `Curve`, `Associativity`, `Jacobian`, `JacobianLaw`, `Aliasing`, `ScalarMul` | the group law of SEC 1 section 2.2.1 and its associativity, the Jacobian formulas written through result parameters, double-and-add |
| `Kangaroo`, `KangarooStart`, `Worker`, `KangarooRun`, `DpTable`, `WorkFile` | jump table, walks, the table of distinguished points, the work file, runs of many workers |
| `Blocks`, `Sha256`, `Ripemd160` | the two streaming hash objects over an arbitrary compression function |
| `Base58`, `Base58Growing`, `ByteCodec`, `RangeWidth`, `Wire` | codecs, range widths, the pool's wire format |
| `PoolClient`, `PoolClientRun`, `PoolServer`, `PoolServerRun`, `PoolLeases`, `PoolIds` | the client's threads as atomic steps, the server's tables, runs of both, how long an assignment lasts, and the work ids that pass between them |
| `SearchState`, `ZoneSearch`, `ZoneSession`, `ZoneStops`, `ZoneBoundary` | the checksummed state file, zones, sessions that end at any moment, searches stopped and resumed, and the floating-point boundaries |
| `Rules`, `RuleEngine`, `RuleLaws` | rule strings as operation lists, the direct interpreter, and what each letter does |
| `Arith`, `NumberTheory`, `Digits`, `BigEndian`, `Hex`, `Bits`, `Xor`, `Text`, `Results` | shared mathematics and text handling |

Objects whose methods change fields are classes with those fields; buffers changed in place are arrays; loops are
loops. Each such method is proved equal to a function of the old state, and the properties are lemmas about those
functions and about runs built from them.

What is taken on trust is three facts about the numbers of secp256k1, each a finite computation, and each a hypothesis
where it is used. `NumberTheory.Prime(P)` is one wherever a field inverse or a square root is used.
`ScalarMul.CurveFacts()` adds that N is prime and that N * G is infinity, where a multiple of G must not be infinity or
must be told from another. Everything else is proved: Fermat's theorem, that addition stays on the curve, that it is
commutative and associative, that the Jacobian formulas compute it, and that the generator has order exactly N.

## Where the code differs from what it says or intends

* `ec_add` writes `R.Y` before it last reads `P.Y` (src/core/crypto_cpu.hpp:760-761), and the wild kangaroo is started
  with one object as both (src/core/kangaroo.hpp:768). With Z = 1, points (x, y) and (qx, qy) of different x are added
  rightly exactly if 8 (qy - y) ((qx - x)^2 (qx + 2x) - (qy - y)^2) = y modulo p, opposite points always, and a point is
  doubled rightly exactly if 36 x^3 y^2 - 27 x^6 - 8 y^4 is y or, with 9 x^4 = 8 x y^2, a cube root of y^3:
  `Aliasing.InPlacePointIff`, `KangarooStart.WildStartInPlaceIff`. Target G with offset 2 is a failing start:
  `KangarooStart.StartAtGFails`. Runs of walks assume kangaroos that do stand where their distances say.
* The comments on the jump table say that jumps span from the square root of the square root of the range, with exponents
  growing by 3/4 each (src/core/kangaroo.hpp:83-89); they start at its eighth root, and the step depends on the range:
  `Kangaroo.ShiftIs`.
* A wild offset of zero adds the pair (0, 0) (src/core/kangaroo.hpp:765-768); then no target is the start:
  `KangarooStart.ZeroOffsetFails`.
* The table compares X only and subtracts modulo 2^256 (src/core/kangaroo.hpp:285-293): `KangarooRun.KeyRightIffSamePoint`,
  `KangarooRun.KeyRightIffTameAhead` and `KangarooRun.KeyRightIff` say exactly when the reported key is right.
* The last comment of `range_bits_from_be` calls its final return unreachable (src/core/byte_codec.hpp:153-157); the
  full range of 2^256 keys reaches it: `RangeWidth.WidthIsBitLength`. The comment on `hex_decode` says a length above
  the buffer's fails; the code also refuses a shorter one, and so does `ByteCodec.HexDecode`.
* `std::strchr` finds the terminator, so the growing Base58 decoder takes a NUL character as digit 58
  (src/tools/utxo_bloom_builder.hpp:673): `Base58Growing.DecodersAgree`.
* The zones are half-open, and the upper boundary is the range end after rounding (src/runtime/puzzle_solver.cpp:250-266).
  If the size of the range fits the mantissa, no zone holds the last key: `ZoneSession.LastKeyIff` says when a batch
  runs over it, and `ZoneBoundary.LastKeyMissed` gives a range and the default batch size for which none does. If the
  size is rounded up, as for the puzzles from 66 to 127 with 64 bits of mantissa, the last key is always searched:
  `ZoneBoundary.PuzzleLastKey`. For keys of 128 bits the boundary wraps to 0 and the upper zone is skipped:
  `ZoneBoundary.UpperZoneLost`.
* A shutdown noticed after the last zone saves a zone index past the table, which is accepted on loading:
  `ZoneSession.LateShutdownSticks`.
* The bounds check of the state file (src/core/search_state.hpp:145-151) refuses positions from 2^N on for puzzle N above
  64. The batches of the upper zone run up to or past the key after the last one, which for puzzles 66 to 127 with 64
  bits of mantissa is 2^N. So a state saved after the last batch of that zone and before the next turn is refused: a
  stop at that moment makes the next start begin again: `ZoneStops.UpperZoneStopLoses`. `ZoneStops.Sit` says exactly
  which stops keep what was searched.
* The `dps` table has no uniqueness constraint, so `INSERT OR IGNORE` ignores nothing (pool/jlp_server/server.py:106-116,
  203-221): a batch is credited in full every time it arrives, and the branch for a batch with nothing new
  (pool/jlp_server/server.py:471-487) is not taken. The rejection of stale work ids and repeated sequence numbers that
  src/pool/jlp_wire_generated.hpp:94-105 describes is not in this server.
* The client's sequence counter has 32 bits: `PoolClientRun.RepeatsIff`. Its first work id is whatever the field holds;
  `PoolIds.ServerNeverReissues` needs it not to be one that the server hands out later.

## Model

| member | source | states |
|---|---|---|
| `Limbs.Add256` | src/core/crypto_cpu.hpp:406-415 | the four limbs and the carry out are the exact sum of any two 256-bit numbers |
| `Limbs.Sub256` | src/core/crypto_cpu.hpp:418-426 | the borrow says whether the first is smaller, and the limbs are the difference modulo 2^256 |
| `Limbs.LessThan` | src/core/crypto_cpu.hpp:332-338 | the limb comparison from the top is the comparison of the values |
| `Limbs.ModAdd` | src/core/crypto_cpu.hpp:444-448 | the sum modulo p whenever the operands add to less than 2p |
| `Limbs.ModSub` | src/core/crypto_cpu.hpp:451-455 | the difference modulo p for a reduced minuend |
| `Limbs.MulIs` | src/core/crypto_cpu.hpp:457-541 | the product of the specification, added up from copies, is the product modulo p |
| `FieldMul.Mul64To128` | src/core/crypto_cpu.hpp:428-432 | low and high word of the full product of two words |
| `FieldMul.Schoolbook` | src/core/crypto_cpu.hpp:459-494 | eight limbs holding exactly the product of any two 256-bit numbers, no carry lost |
| `FieldMul.Fold` | src/core/crypto_cpu.hpp:496-530 | one folding round replaces the high half by 2^32+977 times itself, in place, without overflow |
| `FieldMul.FoldShrinks` | src/core/crypto_cpu.hpp:496-530 | the bound each folding round lowers; three rounds leave the high half zero |
| `FieldMul.FoldedCong` | src/core/crypto_cpu.hpp:496-530 | folding keeps the value modulo p |
| `FieldMul.ModMul` | src/core/crypto_cpu.hpp:459-541 | exactly a*b mod p for all 256-bit inputs |
| `FieldPow.ModPow` | src/core/crypto_cpu.hpp:565-578 | base^exp mod p for every base and every 256-bit exponent |
| `FieldPow.InvCorrect` | src/core/crypto_cpu.hpp:544-562 | with p prime, the power p-2 is a true inverse of every nonzero residue |
| `FieldPow.ModInv` | src/core/crypto_cpu.hpp:544-562 | the code computes that power for every input |
| `NumberTheory.Fermat` | src/core/crypto_cpu.hpp:543-545 | Fermat's little theorem, on which the inverse rests |
| `NumberTheory.SquareRoot` | src/core/crypto_cpu.hpp:635-648 | for a prime that is 3 modulo 4, the power (p+1)/4 squares back exactly when the number is a square |
| `Decompress.HexToUint256` | src/core/crypto_cpu.hpp:581-613 | parsing succeeds exactly on at most 64 hex digits behind an optional prefix, with their value |
| `Decompress.DecompressPubkey` | src/core/crypto_cpu.hpp:616-660 | success exactly when x^3+7 is a square mod p (SEC 1 section 2.3.4); then y^2 = x^3+7 and y has the parity the prefix asks for |
| `Curve.AddOnCurve` | src/core/crypto_cpu.hpp:717-768 | the chord-and-tangent sum of two points of the curve is on the curve |
| `Curve.DoubleOnCurve` | src/core/crypto_cpu.hpp:676-714 | so is the double of a point |
| `Curve.AddCommutes` | src/core/crypto_cpu.hpp:717-768 | the sum does not depend on the order |
| `Associativity.Associative` | src/core/crypto_cpu.hpp:717-788 | (p + q) + r = p + (q + r) for any three points of the curve, chords, tangents, opposite points and infinity included; sums of jumps and double-and-add rest on it |
| `Associativity.NegCancels` | src/core/crypto_cpu.hpp:717-768 | -p + (p + q) = q for any two points of the curve |
| `Associativity.LineSum` | src/core/crypto_cpu.hpp:717-768 | any line that meets the curve in two points, doubly if they are one, gives their sum |
| `Aliasing.TangentAtG` | src/core/crypto_cpu.hpp:676-714 | the tangent at the generator, whose slope is found by its numbers, is such a line |
| `Jacobian.EcDouble` | src/core/crypto_cpu.hpp:676-714 | the triple the formulas give, for distinct objects and for one object |
| `Jacobian.EcAdd` | src/core/crypto_cpu.hpp:717-768 | the same for mixed addition, with the infinity, equal and opposite cases |
| `Jacobian.EcToAffine` | src/core/crypto_cpu.hpp:791-804 | the affine point of a triple, (0, 0) at infinity |
| `JacobianLaw.DoubleCorrect` | src/core/crypto_cpu.hpp:676-714 | the doubled triple stands for the double of the point, infinity and y = 0 included |
| `JacobianLaw.AddCorrect` | src/core/crypto_cpu.hpp:717-768 | the sum triple stands for the sum of the points: infinity, P = Q, P = -Q and the general case |
| `Aliasing.ChordEarly` | src/core/crypto_cpu.hpp:748-760 | what is written to R.Y before P.Y is last read, as one polynomial in the inputs |
| `Aliasing.TangentEarly` | src/core/crypto_cpu.hpp:694-711 | the same for the X and Y that `ec_double` has written by then |
| `Aliasing.InPlaceAgreesIff` | src/core/crypto_cpu.hpp:717-768 | with result and operand one object the triple is right exactly when that polynomial gives back the old Y; infinity and opposite points are always safe |
| `Aliasing.InPlacePointIff` | src/core/crypto_cpu.hpp:717-768 | in all four branches the point, not just the triple, is right exactly then, or for a tangent with X = 0 when the two Ys have one cube |
| `Aliasing.DoubleOfG` | src/core/crypto_cpu.hpp:676-714 | the double of the generator |
| `Aliasing.InPlaceAdditionFails` | src/core/kangaroo.hpp:768 | G + 2G computed in place is not 3G |
| `ScalarMul.GOnCurve` | src/core/crypto_cpu.hpp:771-788 | the generator's coordinates satisfy the curve equation |
| `ScalarMul.MulSum` | src/core/crypto_cpu.hpp:771-788 | multiples of G add as their factors do |
| `ScalarMul.EcMul` | src/core/crypto_cpu.hpp:771-788 | k times G for every 256-bit k |
| `ScalarMul.OrderOf` | pool/jlp_server/server.py:239-247 | if N is prime and N * G is infinity, exactly the multiples of N give infinity |
| `Kangaroo.ShiftBounds` | src/core/kangaroo.hpp:87-93 | every jump is between 2 and below 2^128, for every range |
| `Kangaroo.ShiftIs` | src/core/kangaroo.hpp:83-93 | the exponent of jump i is a quarter of half the range's bits plus the share 3i/128 of it, both cut off, and at least 1 |
| `Kangaroo.ShiftGrows` | src/core/kangaroo.hpp:83-93 | the exponents grow with i and stay below half the bits of the range |
| `Kangaroo.JumpTable.Init` | src/core/kangaroo.hpp:70-114 | 32 jumps of the stated powers of two, each with its point distance * G, and their mean |
| `Kangaroo.JumpTable.GetJumpIndex` | src/core/kangaroo.hpp:119-121 | the index is x modulo 32 |
| `Kangaroo.StepKangaroo` | src/core/kangaroo.hpp:956-975 | point and distance move by the jump the current x selects; a jump point at infinity, which the order of G excludes, would be added as (0, 0) |
| `KangarooStart.StartTame` | src/core/kangaroo.hpp:730-747 | a tame kangaroo stands at its distance times G, at the middle of the range plus the offset |
| `KangarooStart.StartWild` | src/core/kangaroo.hpp:749-769 | a valid point at the stated distance for every key; for a target on the curve, its coordinates reduced or not, target + offset * G exactly when the offset is not zero and a polynomial in the two points' coordinates gives back the target's y |
| `KangarooStart.SameResidueTarget` | src/core/kangaroo.hpp:753-768 | the in-place addition sees only the residues of the target's coordinates |
| `KangarooStart.WildStartByValueIff` | src/core/kangaroo.hpp:749-769 | a value-returning addition would start right exactly when the offset is not zero |
| `KangarooStart.WildStartInPlaceIff` | src/core/kangaroo.hpp:768 | the in-place call starts right exactly under the further polynomial condition, a target equal or opposite to the offset point included |
| `KangarooStart.StartAtGFails` | src/core/kangaroo.hpp:763-769 | target G and offset 2 meet neither: 2G is computed, and the start is not 3G |
| `KangarooStart.ZeroOffsetFails` | src/core/kangaroo.hpp:763-769 | with offset zero no target on the curve is the start, in place or not |
| `Worker.StepAndReport` | src/core/kangaroo.hpp:774-799 | one half-turn of the worker loop: step, test, store, stop on a hit |
| `KangarooRun.IsDistinguished` | src/core/kangaroo.hpp:615-620 | true exactly when x is divisible by 2^dp_bits, capped at 64 bits |
| `KangarooRun.WalkOnTrack` | src/core/kangaroo.hpp:956-975 | over fewer than 2^64 steps the distance stays between start + n and start + n * 2^128, below 2^256, and the point stays start + distance * G |
| `KangarooRun.OnTrackIff` | src/core/kangaroo.hpp:749-769 | standing at (key + distance) * G, as runs keep it, is standing at target + distance * G, as the start of a wild kangaroo establishes it |
| `KangarooRun.MeetingWalksStayTogether` | src/core/kangaroo.hpp:956-975 | two walks at one point agree at every later step, their distance difference constant |
| `KangarooRun.KeyRightIffSamePoint` | src/core/kangaroo.hpp:283-295 | with the tame distance not smaller, the reported key times G is the target exactly when the points, not just their X, are equal |
| `KangarooRun.KeyRightIffTameAhead` | src/core/kangaroo.hpp:289-293 | for equal points, the difference modulo 2^256 is the key exactly when the tame distance is not smaller |
| `KangarooRun.KeyRightIff` | src/core/kangaroo.hpp:283-295 | without any condition: right exactly when the tame distance is not smaller and the points agree, or it is smaller, the points differ and the wrapped difference happens to be the key |
| `KangarooRun.SameXTwoPoints` | src/core/kangaroo.hpp:285 | equal X leaves two possibilities: equal points or opposite ones |
| `KangarooRun.RunKeepsInvariant` | src/core/kangaroo.hpp:771-823 | over every interleaving of the tests and half-turns of any number of workers, also after a key was found, kangaroos stay on track, stored points are honest, and the key stored last is explained by two honest points |
| `KangarooRun.WalkInRun` | src/core/kangaroo.hpp:771-823 | whatever the interleaving, each kangaroo is where its own walk takes it |
| `KangarooRun.MeetingRecoversKey` | src/core/kangaroo.hpp:774-823 | after a meeting, whichever of the two stores a shared distinguished point first, the second one reports a key, the right one exactly if the tame distance was not smaller at the meeting |
| `KangarooRun.MeetingBelowOrder` | src/core/kangaroo.hpp:289-293 | at a meeting below the group order the distances differ by the key, so the tame one is not smaller |
| `KangarooRun.SearchFindsKey` | src/core/kangaroo.hpp:771-823 | in any run, the second kangaroo to report a point kept in its slot is a hit, and the stored key is right exactly if the tame distance is not smaller; below the group order it is the key |
| `KangarooRun.MeetingFindsKey` | src/core/kangaroo.hpp:771-823 | so it is at the distinguished point that two kangaroos of a run reach equally many steps after they met |
| `KangarooRun.SlotKeptInRun` | src/core/kangaroo.hpp:277-301 | in any run the entries with one x are left alone as long as every point stored differs from it in the parity of some bit over the four limbs |
| `DpTable.ThreadSafeDPTable.InsertAndCheck` | src/core/kangaroo.hpp:277-301 | the new table, when it hits, and the key it then returns |
| `DpTable.ThreadSafeDPTable.GetAll` | src/core/kangaroo.hpp:308-315 | every entry once |
| `DpTable.ThreadSafeDPTable.Load` | src/core/kangaroo.hpp:317-323 | entries are put into their slots in order |
| `DpTable.InsertKeepsHashes` | src/core/kangaroo.hpp:277-301 | every entry stays in the slot of its own x |
| `DpTable.HashBit` | src/core/kangaroo.hpp:173-178 | bit i of the slot is the parity of the four bits i |
| `DpTable.SlotsDifferIff` | src/core/kangaroo.hpp:173-178 | two points have different slots exactly when one of the 64 parities differs |
| `DpTable.OneLimb` | src/core/kangaroo.hpp:173-178 | a number of one limb is its own slot, and x coordinates that differ in exactly one limb have different slots |
| `DpTable.InsertFinds` | src/core/kangaroo.hpp:277-301 | which points the table finds after an insertion: the inserted one, every other one with another parity, and none with another x and the same parities |
| `DpTable.FoundLater` | src/core/kangaroo.hpp:277-301 | a point stays findable through any number of insertions with other parities |
| `DpTable.ArrivalOrderIrrelevant` | src/core/kangaroo.hpp:289-295 | tame first or wild first, the key is the same |
| `DpTable.ReloadRestores` | src/core/kangaroo.hpp:308-323 | listing and loading in any order restores the very table |
| `WorkFile.SerializedBack` | src/core/kangaroo.hpp:138-167 | a serialized point deserializes to itself |
| `WorkFile.SerializedLayout` | src/core/kangaroo.hpp:138-146 | 16 hexadecimal digits for each limb of x and of the distance, the top one first, and T or W behind the second colon |
| `WorkFile.SaveLines` | src/core/kangaroo.hpp:221-238 | the lines of the file |
| `WorkFile.Load` | src/core/kangaroo.hpp:240-268 | what a file of any lines is read as, malformed numbers included |
| `WorkFile.WorkFileBack` | src/core/kangaroo.hpp:221-269 | what is saved is what is loaded |
| `WorkFile.TableThroughFile` | src/core/kangaroo.hpp:221-323 | a table listed, saved, loaded and refilled is the same table |
| `Sha256.SHA256.Update` | src/core/crypto_cpu.hpp:80-89 | the object's invariant after any further bytes |
| `Sha256.SHA256.Finalize` | src/core/crypto_cpu.hpp:91-125 | the digest is the compression function folded over the padded message |
| `Sha256.HashParts` | src/core/crypto_cpu.hpp:80-125 | every splitting of a message into updates gives the digest of the whole |
| `Sha256.InitialValue` | src/core/crypto_cpu.hpp:71-76 | each word of the initial value is the first 32 bits of the fractional part of the square root of one of the first eight primes (FIPS 180-4 section 5.3.3) |
| `Sha256.DigestLayout` | src/core/crypto_cpu.hpp:118-124 | 32 bytes, word j of the last chaining value big-endian at byte 4j |
| `Ripemd160.RIPEMD160.Update` | src/core/crypto_cpu.hpp:194-212 | the same invariant with block-wise copying and a bit counter that wraps |
| `Ripemd160.RIPEMD160.Finalize` | src/core/crypto_cpu.hpp:214-236 | the fold over the message padded with the length little-endian |
| `Ripemd160.HashParts` | src/core/crypto_cpu.hpp:194-236 | independence of the splitting |
| `Ripemd160.InitialValue` | src/core/crypto_cpu.hpp:187-191 | the initial value is the bytes 01 23 45 67 89 AB CD EF FE DC BA 98 76 54 32 10 F0 E1 D2 C3 |
| `Ripemd160.DigestLayout` | src/core/crypto_cpu.hpp:226-236 | 20 bytes, word j of the last chaining value little-endian at byte 4j |
| `Blocks.FoldConcat` | src/core/crypto_cpu.hpp:80-89 | folding whole blocks first and the rest later is folding everything |
| `Blocks.FoldBlock` | src/core/crypto_cpu.hpp:80-89 | one more block is compressed into the value of the blocks before it |
| `Blocks.ShaPadding` | src/core/crypto_cpu.hpp:91-116 | the message, 0x80, zeros, the least multiple of 64 with room, and the last eight bytes big-endian are 8 times the length, above 2^61 bytes modulo 2^64 (FIPS 180-4 section 5.1.1) |
| `Blocks.Md4Padding` | src/core/crypto_cpu.hpp:214-224 | the same with the last eight bytes little-endian (RFC 1320 sections 3.1 and 3.2) |
| `Blocks.PaddingInjective` | src/core/crypto_cpu.hpp:91-116 | below 2^61 bytes no two messages share a padded form, for either padding |
| `Base58.AlphabetDigits` | src/core/puzzle_config.hpp:381-392 | the 58 characters carry the digits 0 to 57 one for one |
| `Base58.AlphabetOrder` | src/core/puzzle_config.hpp:381-392 | the alphabet is the digits and letters without 0, I, O and l, and digits grow with the character code |
| `Base58.MultiplyAdd` | src/core/puzzle_config.hpp:417-422 | the in-place inner loop multiplies and adds exactly, up to the carry it drops |
| `Base58.BuffersHold` | src/core/puzzle_config.hpp:404-406 | len * 733/1000 + 1 bytes and len * 138/100 + 1 digits are enough at every length |
| `Base58.Decode` | src/core/puzzle_config.hpp:386-438 | refuses exactly strings with a foreign character and decodes every other one exactly |
| `Base58.Encode` | src/core/puzzle_config.hpp:478-513 | encodes every byte string exactly |
| `Base58.DecodeEncode` | src/core/puzzle_config.hpp:386-513 | decoding undoes encoding for every byte string |
| `Base58.EncodeDecode` | src/core/puzzle_config.hpp:386-513 | encoding undoes decoding for every string over the alphabet |
| `BigEndian.RecodeInverse` | src/core/puzzle_config.hpp:386-513 | changing the base and back keeps the digits, leading zeros one for one |
| `Base58Growing.MultiplyAddGrowing` | src/tools/utxo_bloom_builder.hpp:678-687 | the growing accumulator multiplies and adds exactly and keeps no zero on top |
| `Base58Growing.Base58CheckDecode` | src/tools/utxo_bloom_builder.hpp:665-713 | both errors, and the 20 bytes of the 25 decoded |
| `Base58Growing.DecodersAgree` | src/tools/utxo_bloom_builder.hpp:671-701 | same bytes as the fixed buffer for every alphabet string; the only further strings accepted contain NUL |
| `ByteCodec.Be32ToLimbsLe` | src/core/byte_codec.hpp:26-34 | the four limbs of a big-endian string |
| `ByteCodec.LimbsLeToBe32` | src/core/byte_codec.hpp:37-44 | the 32 bytes of the number |
| `ByteCodec.CodecsInverse` | src/core/byte_codec.hpp:26-44 | each undoes the other and both keep the number |
| `ByteCodec.HexEncodeLower` | src/core/byte_codec.hpp:52-59 | two lowercase digits a byte and a NUL |
| `Hex.NibbleOrder` | src/core/byte_codec.hpp:77-82 | the digits are 0 to 9 and a to f in the order of their codes, capitals as their small letters |
| `ByteCodec.HexDecode` | src/core/byte_codec.hpp:67-90 | success exactly on hex text of the buffer's length, and what the buffer holds in every case |
| `ByteCodec.HexRoundTrip` | src/core/byte_codec.hpp:52-90 | bytes written as text, with or without a prefix, decode to themselves |
| `ByteCodec.HexRoundTripText` | src/core/byte_codec.hpp:52-90 | text decoded and written again is the text in lowercase |
| `RangeWidth.RangeBitsFromBe` | src/core/byte_codec.hpp:105-159 | the bit length of end - start + 1 for start < end, 0 otherwise and for the full range |
| `RangeWidth.WidthIsBitLength` | src/core/byte_codec.hpp:139-158 | the full range is the one exception among proper ranges |
| `RangeWidth.AddSmall` | src/core/puzzle_config.hpp:87-95 | addition of a word modulo 2^256 |
| `RangeWidth.RangeStart` | src/core/puzzle_config.hpp:149-157 | 2^(N-1), or 0 past 256 bits |
| `RangeWidth.RangeEnd` | src/core/puzzle_config.hpp:159-172 | 2^N - 1, or 2^256 - 1 past 256 bits |
| `RangeWidth.PuzzleWidth` | src/core/byte_codec.hpp:105-159 | puzzle N has width N for 2 <= N <= 256, and puzzle 1 width 0 |
| `Bits.BitLength` | src/core/puzzle_config.hpp:122-131 | the bit length of every 256-bit number |
| `Wire.ParseDpBatchV2` | pool/jlp_server/protocol.py:115-139 | every outcome of parsing any bytes |
| `Wire.BatchRoundTrip` | pool/jlp_server/protocol.py:115-139 | what the client builds parses back to the same points, ids and sequences, and batches past 10000 are refused |
| `Wire.EntryLayout` | src/pool/jlp_pool_client.cpp:1076-1099 | work id, sequence number, x, distance, kind and dp_bits at bytes 0, 8, 12, 44, 76 and 77 |
| `Wire.PayloadLayout` | src/pool/jlp_pool_client.cpp:1130-1142 | the number of points in four bytes, then point i at byte 4 + 78i |
| `Wire.FrameLayout` | pool/jlp_server/protocol.py:50-61 | KANG, type, flags 0, the length in two bytes, the payload |
| `Wire.WorkLayout` | pool/jlp_server/protocol.py:81-87 | public key, range start, range end, dp_bits and work id at bytes 0, 33, 65, 97 and 101 |
| `Wire.AcceptedIsPayload` | pool/jlp_server/protocol.py:115-139 | every accepted payload starts with exactly the bytes the client would build for the parsed points |
| `Wire.BatchFitsIff` | src/pool/jlp_pool_client.cpp:765-773 | the 16-bit length is right exactly for batches of at most 840 points |
| `Wire.BatchArrives` | src/pool/jlp_pool_client.cpp:1071-1142 | a batch of at most 100 points takes at most 7804 bytes and arrives as tagged, sequences consecutive |
| `Wire.HeaderRoundTrip` | pool/jlp_server/protocol.py:50-61 | type, flags and length survive, the length modulo 2^16 |
| `Wire.StreamRoundTrip` | pool/jlp_server/server.py:316-325 | a reader of a stream of frames gets back exactly the messages |
| `Wire.WorkRoundTrip` | pool/jlp_server/protocol.py:81-87 | the assignment the server packs is the one the client copies out |
| `PoolClient.JLPPoolClient.constructor` | src/pool/jlp_pool_client.hpp:313-343 | the state before anything happens |
| `PoolClient.JLPPoolClient.SubmitDp` | src/pool/jlp_pool_client.cpp:662-674 | refused exactly when the queue is full, appended otherwise |
| `PoolClient.JLPPoolClient.SubmitDps` | src/pool/jlp_pool_client.cpp:676-690 | all or nothing |
| `PoolClient.JLPPoolClient.Snapshot` | src/pool/jlp_pool_client.cpp:1065-1069 | work id and counter read together |
| `PoolClient.JLPPoolClient.Drain` | src/pool/jlp_pool_client.cpp:1071-1102 | at most 100 points leave the front, tagged from the snapshot in order |
| `PoolClient.JLPPoolClient.Advance` | src/pool/jlp_pool_client.cpp:1110-1120 | the counter moves exactly when the work id is still the snapshot's |
| `PoolClient.JLPPoolClient.Send` | src/pool/jlp_pool_client.cpp:1124-1153 | sent exactly when connected and authenticated, dropped otherwise |
| `PoolClient.JLPPoolClient.HandleServerMessage` | src/pool/jlp_pool_client.cpp:1179-1373 | the new state for every message, and when the work callback fires |
| `PoolClient.TakesWork` | src/pool/jlp_pool_client.cpp:1208-1256 | an authenticated client takes what the server packs, with anything behind it, and counts from 0 again; any other client ignores it |
| `PoolClient.OtherMessages` | src/pool/jlp_pool_client.cpp:1179-1373 | what the two answers to an authentication and an error message do, and that everything else leaves this state alone |
| `PoolClientRun.RunKeepsInvariant` | src/pool/jlp_pool_client.cpp:1041-1256 | over every interleaving: queue and tagged points account for everything accepted, sent batches lie in order, and without reissued ids every point has its rank as sequence number |
| `PoolClientRun.SequencesIncrease` | src/pool/jlp_pool_client.cpp:1041-1256 | within a work id the numbers strictly increase, up to 2^32 points |
| `PoolClientRun.NeverSentTwice` | src/pool/jlp_pool_client.cpp:1041-1256 | no pair of work id and sequence number goes out twice |
| `PoolClientRun.RepeatsIff` | src/pool/jlp_pool_client.cpp:1088-1094 | two points of one id share a number exactly when their ranks differ by a multiple of 2^32 |
| `PoolClientRun.ReissueRepeats` | src/pool/jlp_pool_client.cpp:1241-1256 | an id issued again makes the next point repeat a pair |
| `PoolClientRun.PointsConserved` | src/pool/jlp_pool_client.cpp:662-690 | accepted points are tagged first in first out or still queued, none lost, none changed |
| `PoolClientRun.ServerReadsSent` | src/pool/jlp_pool_client.cpp:1124-1142 | the server reads from the stream exactly the batches sent |
| `PoolServer.PoolDb.AssignWork` | pool/jlp_server/server.py:153-200 | which assignments end, which draw is taken, the new row and id, and the error when all draws are taken |
| `PoolServer.PoolDb.SaveDps` | pool/jlp_server/server.py:203-221 | the whole batch is stored and credited, or nothing when a work id does not fit |
| `PoolServer.PoolDb.CheckCollision` | pool/jlp_server/server.py:250-273 | what may be found, whichever matching row the query returns |
| `PoolServer.PoolDb.UpsertWorker` | pool/jlp_server/server.py:136-142 | a new worker starts at zero, a known one keeps its credit |
| `PoolServer.PoolDb.HandleWorkReq` | pool/jlp_server/server.py:403-428 | solution notice, work, or error, and the tables after each |
| `PoolServer.PoolDb.HandleDpBatch` | pool/jlp_server/server.py:430-515 | every branch of a parsed batch and the tables after it |
| `PoolServer.PoolDb.HandleSolution` | pool/jlp_server/server.py:552-582 | stored exactly if it passes the verification |
| `PoolServer.ChunksTile` | pool/jlp_server/server.py:52-56 | every key of the range lies in exactly one chunk |
| `PoolServerRun.AssignKeeps` | pool/jlp_server/server.py:153-200 | assignment keeps active chunks whole, disjoint, inside the range and one per worker, and ids increasing |
| `PoolServerRun.NewIdFresh` | pool/jlp_server/server.py:188-197 | the id handed out is larger than every earlier one |
| `PoolLeases.AssignEnds` | pool/jlp_server/server.py:153-174 | a request ends exactly the active rows more than 1800 seconds old, of a worker last seen more than 300 seconds ago, or of the worker that asks, and changes nothing else of any row |
| `PoolLeases.AssignAdds` | pool/jlp_server/server.py:176-200 | the row added is active, the asking worker's, one whole chunk, of the first draw that no active or completed row has; none only if every draw is taken |
| `PoolLeases.EndsIff` | pool/jlp_server/server.py:153-174 | over any run of the helpers an active row has ended exactly if some request found one of the three, and is otherwise as it was |
| `PoolLeases.LastSeenIs` | pool/jlp_server/server.py:136-221 | after every run the workers known are those that connected or had points stored, last seen at the last such step |
| `PoolLeases.ReissuedOnlyAfter` | pool/jlp_server/server.py:153-200 | over every run from an empty server, two rows hold one chunk only if in between a request found the earlier one active and late, its worker quiet, or its worker asking |
| `PoolIds.HandedOutIncreasing` | pool/jlp_server/server.py:188-197 | the ids handed out along a run increase |
| `PoolIds.ServerNeverReissues` | src/pool/jlp_pool_client.cpp:1241-1256 | a client that takes some of them in order, its first arbitrary id apart, never has an id twice, as its run's guarantees require |
| `PoolServerRun.CreditsSumToPool` | pool/jlp_server/server.py:203-221 | the workers' credits add up to the points stored |
| `PoolServerRun.ServerSafe` | pool/jlp_server/server.py:153-582 | all of this after every run of the helpers in any order, and every stored solution times G is the target |
| `PoolServerRun.TargetUnique` | pool/jlp_server/server.py:227-236 | only one point of the curve compresses to the target key |
| `PoolServerRun.VerifiedUnique` | pool/jlp_server/server.py:227-236 | at most one key passes the check |
| `PoolServerRun.KeyCheckAccepts` | pool/jlp_server/server.py:227-236 | the check accepts the target's key and nothing else |
| `KangarooRun.MulCongruent` | pool/jlp_server/server.py:239-247 | two multiples of G are equal exactly when their factors agree modulo N |
| `PoolServerRun.PairKeyIff` | pool/jlp_server/server.py:239-273 | a pair yields the target's key exactly when one of the two differences is it, and never another key |
| `PoolServerRun.MeetingGivesKey` | pool/jlp_server/server.py:262-268 | a tame and a wild point at one position give the key |
| `PoolServerRun.CollisionGivesKey` | pool/jlp_server/server.py:250-273 | if every match is a meeting, a batch finds the key exactly when it has a match, whichever row is returned |
| `Rules.CompleteIff` | src/core/rule_engine.hpp:49-369 | appending never changes how a rule parses exactly if all its operands are present |
| `Rules.ConcatenatedRun` | src/core/rule_engine.hpp:49-369 | running r1+r2 is running r2 from the word and memory r1 leaves |
| `Rules.ConcatenatedRules` | src/core/rule_engine.hpp:49-369 | and equals applying the two in turn if r2 saves before it reads the memory |
| `Rules.MemoryMatters` | src/core/rule_engine.hpp:310-335 | without that condition it does not |
| `RuleEngine.Apply` | src/core/rule_engine.hpp:49-369 | the direct interpreter agrees with parsing to operations and evaluating them, whose effect the next rows say letter by letter |
| `RuleLaws.CaseLaws` | src/core/rule_engine.hpp:64-96 | 'l', 'u' and 't' change exactly the letters of the other case, by 32 |
| `RuleLaws.CapitalLaws` | src/core/rule_engine.hpp:74-89 | 'c' and 'C' treat the first character one way and the rest the other |
| `RuleLaws.ToggleLaw` | src/core/rule_engine.hpp:98-107 | 'T' changes the character at one position as 't' does |
| `RuleLaws.PositionLaw` | src/core/rule_engine.hpp:405-417 | positions 0 to 9 are digits, 10 to 35 letters of either case, anything else is 0 |
| `RuleLaws.ReverseLaw` | src/core/rule_engine.hpp:110-112 | 'r' mirrors the word and is its own inverse |
| `RuleLaws.DoubleLaws` | src/core/rule_engine.hpp:115-132 | 'd' appends a copy, 'f' a mirrored one |
| `RuleLaws.RepeatLaw` | src/core/rule_engine.hpp:120-127 | 'p' appends n copies: character i is character i modulo the length |
| `RuleLaws.RotateLaws` | src/core/rule_engine.hpp:135-150 | '{' puts the first character last and shifts the others down, '}' the other way; each undoes the other |
| `RuleLaws.AppendLaw` | src/core/rule_engine.hpp:153-178 | '$' puts a character behind the word and ']' takes it off |
| `RuleLaws.PrependLaw` | src/core/rule_engine.hpp:160-171 | '^' puts a character before the word and '[' takes it off |
| `RuleLaws.InsertLaw` | src/core/rule_engine.hpp:181-218 | 'i' puts a character at a position up to the end, and 'D' there takes it off again |
| `RuleLaws.DeleteLaw` | src/core/rule_engine.hpp:181-218 | 'D' takes the character at a position off, and 'i' puts it back |
| `RuleLaws.OverwriteLaw` | src/core/rule_engine.hpp:221-227 | 'o' changes one character, if there is one |
| `RuleLaws.TruncateLaw` | src/core/rule_engine.hpp:230-236 | '\'' keeps what is before a position |
| `RuleLaws.PartLaws` | src/core/rule_engine.hpp:190-209 | 'x' takes at most m characters from a position, 'O' leaves exactly the others |
| `RuleLaws.SubstituteLaw` | src/core/rule_engine.hpp:239-248 | 's' changes every occurrence of one character and nothing else |
| `RuleLaws.PurgeLaw` | src/core/rule_engine.hpp:251-260 | '@' takes out every occurrence of a character and nothing else, piece by piece |
| `RuleLaws.RepeatEndLaws` | src/core/rule_engine.hpp:263-278 | 'z' and 'Z' repeat the first and the last character |
| `RuleLaws.TweakLaws` | src/core/rule_engine.hpp:281-296 | '+' and '-' move the code of one character by one, modulo 256, and undo each other |
| `RuleLaws.SwapEndLaws` | src/core/rule_engine.hpp:299-310 | 'k' and 'K' exchange the first two and the last two characters |
| `RuleLaws.SwapAtLaw` | src/core/rule_engine.hpp:313-320 | '*' exchanges the characters at two positions, if both are there |
| `RuleLaws.MemoryLaw` | src/core/rule_engine.hpp:323-330 | 'M' keeps the word and remembers it, and 'Q' after any complete rule that does not save appends it |
| `RuleLaws.InsertSavedLaw` | src/core/rule_engine.hpp:323-341 | 'X' inserts the part that 'x' would take of the word remembered, if both positions are there |
| `RuleLaws.SkipLaw` | src/core/rule_engine.hpp:343-364 | every other letter does nothing, with the one or two characters it takes |
| `RuleLaws.MissingLaw` | src/core/rule_engine.hpp:153-260 | a letter whose character is missing at the end of the rule does nothing |
| `RuleLaws.LoneSubstituteLaw` | src/core/rule_engine.hpp:239-248 | an 's' with one character behind it does nothing, and that character is an operation of its own |
| `SearchState.ComputeChecksum` | src/core/search_state.hpp:109-125 | the FNV-1a hash of the six numbers' bytes |
| `SearchState.MixBits` | src/core/search_state.hpp:109-125 | a byte flips those of the low eight bits of the hash that it has set; then the hash is multiplied by 16777619 modulo 2^32 |
| `SearchState.FnvVectors` | src/core/search_state.hpp:109-125 | the published test vectors of FNV-1a for the texts "" and "a" |
| `SearchState.HashedLayout` | src/core/search_state.hpp:109-125 | six numbers of eight bytes, least significant first, in the order of the state's fields |
| `SearchState.OneByteChangesHash` | src/core/search_state.hpp:109-125 | strings that differ in one byte have different hashes |
| `SearchState.InRangeWithinBounds` | src/core/search_state.hpp:131-160 | below 128 bits the check is that the position is below the puzzle's range end |
| `SearchState.LoadPuzzleState` | src/core/search_state.hpp:238-305 | what any file is loaded as and when it is accepted |
| `SearchState.SaveLoad` | src/core/search_state.hpp:168-305 | a saved state loads as itself, accepted exactly if within bounds |
| `SearchState.OneByteRefused` | src/core/search_state.hpp:284-293 | numbers that differ from the saved ones in one byte are refused |
| `ZoneSearch.ZonesTile` | src/runtime/puzzle_solver.cpp:126-132 | for any boundaries in order every position below the upper one lies in exactly one zone |
| `ZoneSearch.CompleteCovers` | src/runtime/puzzle_solver.cpp:1825-1857 | all zones done means everything below the upper boundary searched |
| `ZoneSession.Advance` | src/runtime/puzzle_solver.cpp:1959-1962 | the two-limb advance is exact |
| `ZoneSession.Session` | src/runtime/puzzle_solver.cpp:1792-2023 | for every file, turns and batch size, one puzzle or several: what is searched is the beginning of what the file leaves to do, at least a batch in each turn but five, all of it if it says so; a shutdown, and every save in between, leaves the zone, the position and the counts where the session stands, the total being the restored one plus the keys of the batches since, modulo 2^64; what the file skips has been searched |
| `ZoneSession.Search` | src/runtime/puzzle_solver.cpp:1792-2023 | after any number of kills, stops, losses of the file and resumptions, a completed search has skipped nothing |
| `ZoneSession.SearchOrder` | src/runtime/puzzle_solver.cpp:126-132 | the zones are searched in the order of the table, 60 to 85 percent first |
| `ZoneStops.Sit` | src/runtime/puzzle_solver.cpp:1792-2023 | a search stopped and resumed any number of times with one batch size has searched the batches of an undisturbed search, each once and in order, and all of them when a sitting goes through, exactly if every stop kept what was searched: nothing yet, or a position below the limit and a count that is not 0 modulo 2^64 |
| `ZoneStops.KeptTotal` | src/core/search_state.hpp:131-160 | the file of a stop resumes exactly if the stop keeps, and holds the keys counted over all sittings |
| `ZoneStops.EveryStopKeeps` | src/runtime/puzzle_solver.cpp:1825-1857 | every stop keeps if no zone's batches run past the limit and fewer than 2^64 keys are counted |
| `ZoneStops.SmallPuzzleKeeps` | src/core/search_state.hpp:131-160 | so it does for puzzles up to 62 and batches of at most 2^62 keys |
| `ZoneStops.UpperZoneStopLoses` | src/core/search_state.hpp:145-151 | for puzzles 66 to 127 a stop after the last batch of the upper zone loses everything |
| `ZoneSession.PastEndIff` | src/runtime/puzzle_solver.cpp:1825-1857 | a key at or past the upper boundary is searched exactly if the batches of some nonempty zone run over it |
| `ZoneSession.LastKeyIff` | src/runtime/puzzle_solver.cpp:126-132 | the last key is always searched if it lies below the upper boundary, and if it is the boundary exactly if the upper zone is no whole number of batches |
| `ZoneBoundary.RoundMonotone` | src/runtime/puzzle_solver.cpp:250-266 | rounding to any number of significant bits, ties to even, keeps the order |
| `ZoneBoundary.RoundNear` | src/runtime/puzzle_solver.cpp:250-266 | and moves a number by at most half a unit |
| `ZoneBoundary.TiesToEven` | src/runtime/puzzle_solver.cpp:250-266 | of two numbers half a unit away the rounding takes the even one |
| `ZoneBoundary.BoundaryNear` | src/runtime/puzzle_solver.cpp:250-266 | with 53 bits of mantissa or more every boundary is within one key and 2^-51 of the range of where its percentage puts it |
| `ZoneBoundary.UnixMonotone` | src/runtime/puzzle_solver.cpp:250-266 | the native boundaries are in order, from the first key to the rounded end, for every range and every mantissa |
| `ZoneBoundary.PuzzleEnd` | src/runtime/puzzle_solver.cpp:250-266 | the upper boundary of a puzzle is its last key if the size fits the mantissa and the key after it otherwise |
| `ZoneBoundary.PuzzleLastKey` | src/runtime/puzzle_solver.cpp:1825-1857 | which puzzles have their last key searched, and with which batch sizes |
| `ZoneBoundary.PuzzleCovered` | src/runtime/puzzle_solver.cpp:1825-1857 | a completed search of a puzzle has covered its range, but for the last key where the size fits the mantissa |
| `ZoneBoundary.LastKeyMissed` | src/runtime/puzzle_solver.cpp:1013-1017 | a custom range whose last key an undisturbed search with the default batch size misses |
| `ZoneBoundary.UpperZoneLost` | src/runtime/puzzle_solver.cpp:250-266 | for keys of 128 bits nothing above the 85% boundary is searched but the batch that runs over it |
| `ZoneSession.LateShutdownSticks` | src/runtime/puzzle_solver.cpp:2013-2025 | the state saved after the last zone is accepted and names no zone |

## Left out

- GPU kernels and back ends, sockets, TLS, threads and condition variables as such: only the state each step reads and writes is kept.
- The compression functions of SHA-256 and RIPEMD-160 are parameters; the hash objects are proved for every compression function.
- Floating point other than the native zone boundaries: the boundaries of the MSVC path are only assumed to be in order, elapsed times and statistics are text or absent.
- The hash160 hybrid worker, the reconnect supervisor, authentication, statistics messages, the callback for solutions, bloom filters, bech32, user interface, configuration and installers.
- 256-bit numbers are values; that `add256` and its relatives may write over an operand is visible only for `ec_double` and `ec_add`, where it matters.
- The compiler-intrinsic variants of addition, subtraction and multiplication (src/core/crypto_cpu.hpp:378-403) compute the same words and are not modelled twice.
- `assign_work` and the other server helpers are atomic steps: interleaving between their own SELECT and INSERT is not modelled. x and d columns are numbers instead of hex text; `ByteCodec.HexRoundTrip` is why that loses nothing.
- PoolServer.PoolDb.CheckCollision: which of several matching rows the query returns is left open, as SQL leaves it.
- PoolServerRun.ServerSafe: stored points are not assumed genuine; only the key check stands between them and a solution.
- Worker.StepAndReport: the new state is the step of the walk under `CurveFacts`; without it `Kangaroo.StepKangaroo` still says what is added.
- KangarooStart.StartWild: for a target x of p or more that exceeds the offset point's x by more than p, where the first difference of `ec_add` falls below -p, only validity of the point and the distance are promised.
- KangarooRun.RunKeepsInvariant: starts from kangaroos that stand where their distances say; see the section on the in-place start.
- ZoneSession.Session: the last batch may not run past 2^128, since the code keeps two limbs only; `ZoneBoundary.UpperZoneLost` says what happens there.
- ZoneStops.Sit: for puzzles below 128 bits, where the bounds check is a bound on the position; a sitting that is killed instead of stopped starts again from the last save, as `ZoneSession.Session` says, and ends this run.
- SearchState.InRangeWithinBounds: at exactly 128 bits the code shifts by 64, which C++ leaves undefined; the model takes the count modulo 64 there.
- RuleEngine.Apply: case conversion is that of ASCII letters, as in the C locale.
- Decompress.DecompressPubkey: a key whose right-hand side is zero comes back as y = p for prefix 03; the contract admits that case.
- Probabilistic statements, expected running times, the primality of p and N, and the computation that N * G is infinity.
