# A verified model of a Telegram client library

The library behind this model speaks MTProto. The model covers the parts of it whose
correctness is hardest to see from the code:

- **The hash map of `tg/stb_ds.h`** (`Probing`, `Placement`, `HashIndex`, `Dictionary`, `HashMap`): a
  dense element array plus a bucketed index with stored hashes, tombstones, triangular probing,
  growth, shrinking, rebuilding and swap-delete. Whatever the hash function, any sequence of
  operations is answered as a finite map answers it, and every probe loop ends.
- **The string arena of `tg/stb_ds.h`** (`Arena`): strings handed out never overlap and keep their bytes.
- **The factoriser of `mtx/src/fact.cpp`** (`NumberTheory`, `ModArith`, `PrimeTable`, `Primality`,
  `ExponentLoop`, `MonteCarlo`, `Splitters`, `Ferma`, `Factorization`, `FactorWitness`): modular
  arithmetic inside 64 bits, the static prime table, Miller-Rabin, Pollard's four methods, Fermat's search
  and the recursive factorisation, with the number theory they rest on proved from scratch.
- **The Type Language codec** (`Bytes`, `TlPrimitives`, `TlSchema`, `TlRoundTrip`, `TlCodec`, `TlDecoder`,
  `WireForm`): the serialisers and deserialisers that `tl_generator/generator.c` emits, as interpreters over a
  schema. Which value trees come back from their bytes is stated exactly, and what lies where on the wire
  byte by byte.
- **SHA-256, SHA-1 and HMAC** (`Fips180`, `Sha256`, `Sha1`, `ShaVectors`, `ShaConstants`): the streaming code
  with its circular schedules equals FIPS 180-4 and section 2 of RFC 2104; the constants are derived from
  their roots, and the digests of "abc" computed step by step.
- **The message layer** (`Framing`, `Session`, `LinkedList`, `QueueProtocol`): containers, padding and
  frames; sequence numbers, acknowledgements and drops, with other threads entering between any two
  stretches of code that run under a mutex; the list of queries in flight as a system of steps, one for
  each such stretch, with safety over every interleaving.
- **Base64 and the byte buffer** (`Base64`, `Buffer`).

Code that updates state in place is modelled by classes and methods over arrays and fields; each is
proved against a function on values, and the theorems are about those functions and about whole runs.
`Arith` and `Pigeonhole` hold arithmetic and counting facts, `Option` a datatype.

Where code and intent differ, the model follows the code:

- `get_primes` asked for the bound 1 on an untouched table leaves it damaged; this is the only such
  call (`PrimeTables.PrimeTable.GetPrimes`).
- `ferma` never stops for numbers that are twice an odd number (`Fermats.NothingToFind`).
- `factor` takes an unsigned number and factorises it as a signed one: from 2^63 on, and only there and on
  what `pollard_bent` spoils, it divides by zero (`Factorization.Factor`). `FactorWitnesses.LargePrimes`
  are two 32-bit primes with such a product.
- `pollard_rho` can return n itself, so that `factorize` calls itself with the number it was given;
  `Factorization.Factorizer.FindDivisor` says exactly when, and `FactorWitnesses.NeverReturns` gives random
  numbers with which this goes on for ever.
- The inner loop of `pollard_bent` never runs, as its guard asks a gcd to be 1 and n at once, and the result
  can be negative (`Splitters.BentIsNegative` says exactly when); `factorize` then divides by zero.
  `FactorWitnesses.DividesByZero` gives such random numbers.
- The exponent loop of `pollard_monte_carlo` overflows exactly for numbers from 79^9 on
  (`ExponentLoops.OverflowsExactly`), which the numbers of a handshake usually are. With wrapped products
  it ends, for every prime of the list, exactly below 2^63 - 33 (`ExponentLoops.LoopsEndExactly`).
- The deserialiser gives up on vectors of more than 100 elements although the serialiser writes them
  (`TlRoundTrip.LongVectorIsLost` is one), and fields that share a flag bit without being present together
  do not come back (`TlRoundTrip.LoneFieldIsLost` is an object with such fields), anywhere in a tree;
  `TlRoundTrip.RoundTripExactly` says exactly which trees come back.
- SHA-1 counts bytes in 32 bits, so longer messages are padded wrongly (`Sha1Stream.PaddingExact`).
- `tg_deheader` stores the salt and queues the message id before it notices that a message is too short
  (`Sessions.Session.Deheader`).

## Model

| member | source | states |
|---|---|---|
| Probing.ProbeCoversOnce | tg/stb_ds.h:1246-1277 | with a power-of-two slot count, stepping 8, 16, 24, ... reaches every slot at exactly one of the first slot_count probes |
| Probing.ProbeInjective | tg/stb_ds.h:1384-1435 | no two of the first slot_count probes look at the same slot |
| HashMaps.ThresholdsLeaveRoom | tg/stb_ds.h:903-935 | staying within the grow and rebuild thresholds leaves an empty slot |
| Placement.EmptySlotAhead | tg/stb_ds.h:976-1002 | while one slot is empty, a probe path meets it before running out of slots |
| Placement.Fill | tg/stb_ds.h:1445-1447 | writing an element into a free slot at the end of an occupied stretch keeps every element reachable before any empty slot |
| Placement.Bury | tg/stb_ds.h:1494-1501 | turning a slot into a tombstone removes one element and keeps all others reachable |
| Placement.Renumber | tg/stb_ds.h:1506-1520 | redirecting the slot of a moved element keeps slots and elements in step |
| Placement.MetBeforeEmpty | tg/stb_ds.h:1246-1277 | an indexed element is met on its probe path before any empty slot |
| HashIndexes.MakeHashIndex | tg/stb_ds.h:884-1011 | a fresh index of any size that fits holds exactly the elements of the old one, without tombstones |
| HashIndexes.HashIndex.FindEmpty | tg/stb_ds.h:971-1002 | following the probe path ends at its first empty slot |
| Dictionary.PutEntryMeans | tg/stb_ds.h:1337-1459 | overwriting or appending an entry is updating the finite map, and keys stay distinct |
| Dictionary.DeleteEntryMeans | tg/stb_ds.h:1472-1538 | deleting an entry removes its key from the finite map and nothing else |
| Dictionary.SwapDeleteMeans | tg/stb_ds.h:1502-1519 | moving the last entry into the hole removes exactly one binding |
| HashMaps.View.StopMeans | tg/stb_ds.h:1246-1277 | where the probe loop stops tells whether the key is indexed |
| HashMaps.GrownCapacity | tg/stb_ds.h:762-797 | capacity covers the request, never shrinks, and at least doubles when it grows from more than nothing |
| HashMaps.HashMap.FindSlot | tg/stb_ds.h:1232-1279 | returns the slot of the element with this key, or -1 exactly when there is none |
| HashMaps.HashMap.Get | tg/stb_ds.h:1281-1318 | returns the value bound to the key, else the default |
| HashMaps.HashMap.Put | tg/stb_ds.h:1337-1459 | binds the key to the value and leaves every other binding, through growth and rebuilding |
| HashMaps.HashMap.Delete | tg/stb_ds.h:1472-1538 | unbinds the key and leaves every other binding, through shrinking and rebuilding; tells whether it was bound |
| HashMaps.HashMap.PutDefault | tg/stb_ds.h:1320-1335 | changes the default and no binding |
| HashMaps.HashMap.ValidHasEmptySlot | tg/stb_ds.h:933-935 | in every valid table some slot is empty, so every probe loop ends |
| HashMaps.HashMap.Run | tg/stb_ds.h:1281-1538 | any sequence of puts, gets, deletes and defaults is answered as a finite map answers it, for any hash function |
| Arenas.SizeBelowMax | tg/stb_ds.h:1563-1571 | block sizes are below one megabyte exactly up to the 22nd step, where the counter stays |
| Arenas.BlockSizes | tg/stb_ds.h:1563-1567 | block sizes are 512 twice, then each twice as large as the last but one |
| Arenas.OneMore | tg/stb_ds.h:1598-1602 | carving below everything in the first block, or in an unused block, keeps all strings disjoint |
| Arenas.Arena.Stralloc | tg/stb_ds.h:1557-1603 | the new string, up to its first NUL, is placed in a live block apart from all others, every string handed out before still reads as written, and the block counter stays at most 22 |
| Arenas.Arena.AddSecond | tg/stb_ds.h:1573-1588 | a block for an oversized string joins the chain behind the first one, whose free room is not lost |
| NumberTheory.Euclid | mtx/src/fact.cpp:312-351 | a prime dividing a product divides a factor |
| NumberTheory.SquareRootsOfOne | mtx/src/fact.cpp:344-349 | only 1 and -1 square to 1 modulo a prime |
| NumberTheory.Fermat | mtx/src/fact.cpp:312-351 | Fermat's little theorem |
| ModArith.MulModU | mtx/src/fact.cpp:94-128 | for 0 < n < 2^63 the doubling multiplication yields the product modulo n and no intermediate value leaves 64 bits |
| ModArith.MulMod | mtx/src/fact.cpp:130-149 | the signed form yields the remainder of the product with the sign of the product |
| ModArith.PowMod | mtx/src/fact.cpp:151-167 | the result is congruent to the power, and equal to its remainder for non-negative bases and n > 1 |
| ModArith.TransformNum | mtx/src/fact.cpp:169-180 | a positive number is split into a power of two and an odd factor |
| ModArith.GcdIsGreatest | mtx/src/fact.cpp:182-186 | the result divides both numbers and every common divisor divides it |
| ModArith.NegativeExactly | mtx/src/fact.cpp:182-186 | of a negative and a positive number the result is negative if and only if the algorithm makes an odd number of divisions |
| PrimeTables.PrimesUpToIs | mtx/src/fact.cpp:231-275 | the table is increasing and holds the primes up to the bound and nothing else |
| PrimeTables.PrimeTable.GetPrimes | mtx/src/fact.cpp:231-275 | afterwards the table is exactly the primes up to the largest bound asked, unless the bound is 1 on an untouched table, and the count is that of the primes up to this bound |
| PrimeTables.PrimeTable.History | mtx/src/fact.cpp:231-275 | after any history of calls without the bound 1 the table is exactly the primes up to the largest bound |
| PrimeTables.SmallestFactor | mtx/src/fact.cpp:277-310 | every number above 1 has a smallest prime factor, itself or at most the square root |
| Primality.PrimeDivTrivial | mtx/src/fact.cpp:277-310 | 1 means prime, d > 1 means d is the smallest prime factor of a larger number, and 0 is returned exactly below 2 and for numbers from m squared on that no prime up to m, or in the table, divides |
| Primality.SequenceEnds | mtx/src/fact.cpp:334-349 | for a prime and a coprime base the Miller-Rabin sequence ends in 1 |
| Primality.MillerRabin | mtx/src/fact.cpp:312-351 | exactly 2 and the odd numbers that are coprime to the base used, and strong probable primes to it, are accepted; the base used is the one asked for, at least 2, or the next one if n divides it; no prime is ever rejected |
| Primality.BaseIsLeast | mtx/src/fact.cpp:323-331 | the base used is the least one, from the one asked for or 2 on, that n does not divide |
| Primality.StrongExactly | mtx/src/fact.cpp:331-349 | the one split of n - 1 into a power of two and an odd factor decides the strong probable-prime condition |
| Primality.IsPrimeTest | mtx/src/fact.cpp:485-509 | exact below 29 squared; from there on exactly the strong probable primes to base 2 without a small factor that pass the last test, so exact wherever that test is |
| Splitters.IterateModDivisor | mtx/src/fact.cpp:546-580 | modulo a divisor of n the iterates are the iterates modulo that divisor |
| Splitters.PollardRho | mtx/src/fact.cpp:546-580 | returns a divisor of n, stops at the first step with a gcd other than 1 and n, returns n (or 1) if and only if every gcd is 1 or n and the last one n (or 1), and every divisor modulo which the two sequences meet at the last step divides the result |
| Splitters.FixedPointSticks | mtx/src/fact.cpp:546-580 | from a start that is its own successor modulo n Pollard's rho ends with n, however long it runs |
| Splitters.TwoCycleFails | mtx/src/fact.cpp:546-580 | from a start that comes back after two steps, coprime to its successor's distance, Pollard's rho ends with 1 after any even number of steps |
| Splitters.NextBaseIs | mtx/src/fact.cpp:517-524 | while n is at least three below the signed limit, the base after a is congruent to a squared plus 3 modulo n |
| Splitters.PollardMinusOne | mtx/src/fact.cpp:511-544 | if the search for a base ends, the result is 1 or a proper divisor |
| Splitters.SmallPowersAre | mtx/src/fact.cpp:514-531 | the powers tried are the largest ones not above 13 of all primes up to 13 |
| Splitters.TryPowersMeans | mtx/src/fact.cpp:525-540 | from a base that is not negative the first gcd between 1 and n of a power less 1 is found, else 1 |
| Splitters.PollardBent | mtx/src/fact.cpp:582-607 | the result is that of the first difference alone: 1, a proper divisor, or a negative number |
| Splitters.BentIsNegative | mtx/src/fact.cpp:582-607 | the result is negative if and only if the first difference is, and Euclid's algorithm divides an odd number of times |
| ExponentLoops.OverflowsExactly | mtx/src/fact.cpp:649-656 | the exponent loop stays inside 64 bits for every odd prime below 100 if and only if n is below 79^9 |
| ExponentLoops.PowersReach | mtx/src/fact.cpp:649-656 | the powers of 1 + 2^s u, with s at least 2 and u odd, reach every number that is 1 modulo 2^s, modulo every power of two |
| ExponentLoops.LoopsEndExactly | mtx/src/fact.cpp:649-656 | with products that wrap around, the exponent loops of all odd primes below 100 end, within 2^62 products, if and only if n is below 2^63 - 33 |
| ExponentLoops.LargestPowerIs | mtx/src/fact.cpp:646-653 | below 79^9 the exponent is the largest power of its prime not above n |
| ExponentLoops.LoopPowerMeans | mtx/src/fact.cpp:646-653 | in general it is the first power whose wrapped value is above n, divided once by its prime |
| MonteCarlos.MonteCarloEnds | mtx/src/fact.cpp:609-667 | all loops of the call end within 62 products each below 79^9, and within 2^62 below 2^63 - 33 |
| MonteCarlos.MonteCarloMeans | mtx/src/fact.cpp:644-666 | with the product of the exponents of the first primes, the result is the first gcd of the power less 1 with n that is neither 1 nor n, and 1 if there is none; every divisor of n modulo which the power is 1 there divides it |
| MonteCarlos.PollardMonteCarlo | mtx/src/fact.cpp:609-667 | for every n and every random start, if the loops end the result is that one, and so 1 or a proper divisor; with rounds enough they end below 2^63 - 33 |
| Fermats.FirstIsClosest | mtx/src/fact.cpp:669-688 | the first representation as a difference of squares has the largest smaller factor |
| Fermats.Ferma | mtx/src/fact.cpp:669-688 | from any start not above the rounded-up root the search ends at the largest divisor not above the root whose cofactor has the same parity |
| Fermats.OddFactors | mtx/src/fact.cpp:669-688 | for odd n every divisor pair has equal parity |
| Fermats.LargestBelowRoot | mtx/src/fact.cpp:669-688 | for odd n that is the largest of all divisors not above the root |
| Fermats.NothingToFind | mtx/src/fact.cpp:669-688 | twice an odd number is no difference of squares |
| Factorization.IncrementMultiplies | mtx/src/fact.cpp:690-724 | counting one more prime multiplies the product of the map by it |
| Factorization.Factorizer.FindDivisor | mtx/src/fact.cpp:701-719 | a divisor found for a composite number is above 1; it is n itself if and only if Monte Carlo finds nothing and Pollard's rho is stuck for all its rounds, and negative if and only if `pollard_bent` is reached and gives a negative number; nothing is found if and only if a loop does not end |
| Factorization.Factorizer.Factorize | mtx/src/fact.cpp:690-724 | a call that returns multiplies the product of the map by n and adds only primes; zero and negative numbers end in a division by zero; primes and numbers below a million are done; for larger products of two primes the outcome is that of the first round that is not stuck |
| Factorization.World.RunMeans | mtx/src/fact.cpp:700-723 | the first round of splitters that is not stuck, two random numbers after the one before, decides whether the call returns, divides by zero or does not end |
| Factorization.World.OpenExactly | mtx/src/fact.cpp:700-723 | for a product of two primes from a million to 2^63 - 33, other than twice a prime, the call is still open after some rounds if and only if all of them were stuck |
| Factorization.TwoPrimes | mtx/src/fact.cpp:731-749 | a map of primes with product p q holds exactly p and q |
| Factorization.Factor | mtx/src/fact.cpp:731-749 | a product of two different 32-bit primes ends in a division by zero from 2^63 on; below, the primes are returned in increasing order, always below a million, and otherwise if and only if the first round that is not stuck finds one of them; it is still open if and only if all rounds were stuck |
| FactorWitnesses.NeverReturns | mtx/src/fact.cpp:546-580 | for 1241143 = 547 * 2269 there are random numbers with which every round is stuck and the call never returns |
| FactorWitnesses.DividesByZero | mtx/src/fact.cpp:582-607 | for 1241143 = 547 * 2269 there are random numbers with which `pollard_bent` gives a negative number and the call divides by zero |
| FactorWitnesses.FourFinds | mtx/src/fact.cpp:644-666 | from 4 on 1241143 the primes 3, 5, 7 and 11 find nothing, and 13 finds 547 |
| FactorWitnesses.FoundAtOnce | mtx/src/fact.cpp:644-723 | with a first random number that gives 4 the call on 1241143 returns |
| FactorWitnesses.LargePrimes | mtx/src/fact.cpp:731-737 | 3221225473 and 3489660929 are primes of 32 bits whose product is between 2^63 and 2^64 |
| Bytes.LeByte | tl/buf.c:190-219 | byte i of a word is the i-th from the low end, as little-endian machines store it |
| Bytes.FromLeSum | tl/buf.c:190-219 | a word read is the sum of its bytes, each times its power of 256, the first one counting least |
| TlPrimitives.BytesRoundTrip | tl/deserialize.c:45-98 | a byte string comes back, with the rest untouched, exactly when it is shorter than 2^24 |
| TlPrimitives.PackedForm | tl/serialize.c:6-36 | the length in one byte, or 0xfe and the length in three, low byte first; the bytes; at most three zeros up to a multiple of four |
| TlPrimitives.UnpackedForm | tl/deserialize.c:45-98 | what is read from any bytes: the length as it stands there, so many bytes, and what fills up to a multiple of four; an overrun if they are not there |
| TlPrimitives.SerializeBytes | tl/serialize.c:6-36 | length prefix, low byte first, bytes and zero padding to a multiple of four |
| TlPrimitives.Reader.Bytes | tl/deserialize.c:45-98 | consumes one byte string and its padding, or reports that the buffer is too short |
| TlRoundTrip.StringRoundTrip | tl/serialize.c:38-42 | a C string comes back exactly when it has no NUL inside and is shorter than 2^24 |
| TlRoundTrip.FlagBit | tl_generator/generator.c:1267-1286 | a bit of a flag word is set exactly when some present argument uses it |
| TlRoundTrip.WantedMeansDemanded | tl_generator/generator.c:593-600 | the deserialiser wants an optional argument exactly when some argument with its bit was present |
| TlRoundTrip.VectorRoundTrip | tl_generator/generator.c:684-705 | a vector comes back exactly when it has at most 100 elements and each of them survives |
| TlRoundTrip.LongVectorIsLost | tl_generator/generator.c:684-705 | 101 zeros are written and do not come back |
| TlRoundTrip.MessageRoundTrip | tl/deserialize.c:138-158 | a message of a container comes back |
| TlRoundTrip.RoundTripExactly | tl_generator/generator.c:522-824 | a value tree comes back if and only if in every object of it fields that share a flag bit are present together, no vector has more than 100 elements, no C string has a NUL inside and no string of bytes has 2^24 or more |
| TlRoundTrip.ObjectExactly | tl_generator/generator.c:522-824 | and otherwise another value is read, or the buffer is overrun, whatever follows the bytes |
| TlRoundTrip.LoneFieldIsLost | tl_generator/generator.c:522-824 | two optional numbers under one bit, one of them given: the object does not come back |
| TlRoundTrip.ObjectRoundTrip | tl_generator/generator.c:522-824 | a tree of which all this holds comes back from its bytes and exactly what follows them is left |
| TlRoundTrip.LookupFinds | tl/deserialize.c:100-110 | the table lookup finds the first entry with the id, or there is none |
| WireForms.ItemWords | tl/buf.c:190-203 | numbers take four bytes, long ones and doubles eight, low byte first |
| WireForms.ObjectStarts | tl_generator/generator.c:1250-1266 | an object starts with the id of its constructor |
| WireForms.VectorStarts | tl_generator/generator.c:1525-1545 | a vector starts with 0x1cb5c415 and its length, low bytes first |
| WireForms.SampleObject | tl_generator/generator.c:1250-1622 | the bytes of an object with flags, a number, a string, a sign and a vector |
| WireForms.UnknownIsNull | tl/deserialize.c:112-131 | the id 0 and unknown ids give null and leave the input as it was |
| WireForms.LongVectorStops | tl_generator/generator.c:684-705 | a length above 100 ends the reading of the object there, with all later fields absent |
| TlCodec.PatchHead | tl_generator/generator.c:1267-1286 | overwriting a flag word where it was first written is writing the final value from the start |
| TlCodec.Serialize | tl_generator/generator.c:1250-1622 | one pass with flag words patched in place emits what the specification describes |
| TlDecoder.GetFun | tl/deserialize.c:100-110 | the loop over the table is the lookup |
| TlDecoder.DeserializeMessage | tl/deserialize.c:138-158 | consumes one message as specified |
| TlDecoder.DeserializeArgs | tl_generator/generator.c:522-824 | reading the arguments in turn, with early return on a bad vector length, is the specified decoder |
| TlDecoder.DeserializeVector | tl_generator/generator.c:678-800 | the optional vector id, the length and the elements are read as specified |
| TlDecoder.DeserializeObject | tl/deserialize.c:112-131 | dispatch on the id is the specified decoder; id zero and unknown ids consume nothing |
| Sha256Stream.UpdateW | mtx/src/sha256.c:15-33 | the circular schedule holds the sixteen words of the full schedule that come next |
| Sha256Stream.RoundInPlace | mtx/src/sha256.c:74-76 | writing two registers and renaming is one round of the standard |
| Sha256Stream.FourRounds | mtx/src/sha256.c:72-86 | the unrolled loop body is four rounds of the standard |
| Sha256Stream.Block | mtx/src/sha256.c:35-97 | the block function is the compression of section 6.2.2 of FIPS 180-4 |
| Sha256Stream.Sha256State.AppendByte | mtx/src/sha256.c:112-120 | the state is always the chain over the whole blocks so far and the buffer the rest |
| Sha256Stream.Sha256State.Finalize | mtx/src/sha256.c:131-145 | finishing absorbs exactly the padding of section 5.1.1 |
| Sha256Stream.Sha256Bytes | mtx/src/sha256.c:183-191 | the digest is SHA-256 of the message, and nothing behind it is written |
| Sha256Stream.Sha256Parts | mtx/src/sha256.c:122-129 | however the message is cut into append calls, the digest is that of the whole |
| ShaVectors.Sha256OfAbc | mtx/src/sha256.c:15-97 | SHA-256 of "abc", word by word and round by round |
| ShaConstants.FirstPrimesAre | mtx/src/sha256.c:38-57 | the primes up to 311 are these 64 |
| ShaConstants.CubeRoots | mtx/src/sha256.c:38-57 | the 64 constants are the first 32 bits of the fractions of the cube roots of the first 64 primes |
| ShaConstants.SquareRoots | mtx/src/sha256.c:99-108 | the first hash value is that of the square roots of the first eight primes |
| Fips180.BigEndianMod | mtx/src/sha256.c:141-144 | the length field depends on the length modulo 2^64 only |
| Sha1Stream.NextWord | mtx/src/sha1.c:61-64 | the circular schedule computes the next word of the full schedule |
| Sha1Stream.ChooseForm | mtx/src/sha1.c:66-67 | the code's choice function is Ch |
| Sha1Stream.MajorityForm | mtx/src/sha1.c:70-71 | the code's majority function is Maj |
| Sha1Stream.HashBlock | mtx/src/sha1.c:50-89 | the block function is the compression of section 6.1.2 of FIPS 180-4, the bytes lying reversed in the words |
| Sha1Stream.Sha1State.AddUncounted | mtx/src/sha1.c:91-100 | a byte stored at the offset xor 3 extends the message by that byte |
| Sha1Stream.Sha1State.PadMessage | mtx/src/sha1.c:115-134 | padding with the length field made of the 32-bit byte counter |
| Sha1Stream.Sha1State.Result | mtx/src/sha1.c:136-156 | turning the words around in place gives the digest bytes in order |
| Sha1Stream.PaddingExact | mtx/src/sha1.c:125-133 | the padding is the standard one if and only if the message is shorter than 2^32 bytes |
| Sha1Stream.CodeIsSha1 | mtx/src/sha1.c:204-212 | on messages of less than 2^32 bytes the result is SHA-1 |
| ShaVectors.Sha1OfAbc | mtx/src/sha1.c:50-89 | SHA-1 of "abc", word by word and round by round |
| ShaConstants.RootsOfSha1 | mtx/src/sha1.c:21-24 | the constants are the square roots of 2, 3, 5 and 10, times 2^30 |
| Sha1Stream.CountRepeats | mtx/src/sha1.c:125-133 | a message 2^32 bytes longer has the same length field |
| Sha1Stream.Sha1Parts | mtx/src/sha1.c:108-113 | however the message is cut into write calls, the hash is that of the whole |
| Sha1Stream.Sha1State.InitHmac | mtx/src/sha1.c:158-183 | the key block is the padded key, or the padded hash of a long key, and the inner hash has started with it |
| Sha1Stream.Sha1State.ResultHmac | mtx/src/sha1.c:185-202 | the outer hash is taken over the other key block and the inner hash |
| Sha1Stream.HmacSha1 | mtx/src/sha1.c:158-202 | key, text in any number of writes and result make the HMAC of section 2 of RFC 2104, for every key length |
| Sha1Stream.KeyBlockIs | mtx/src/sha1.c:158-175 | the block for a key byte by byte: the key, or the hash of a key of more than 64 bytes, then zeros |
| Sha1Stream.HmacParts | mtx/src/sha1.c:177-202 | what is hashed: the key block xor 0x5c, then the hash of the key block xor 0x36 and the text |
| Sha1Stream.HmacIsStandard | mtx/src/sha1.c:158-202 | below 2^32 bytes that is HMAC-SHA-1 |
| LinkedLists.CutMeans | tg/list.h:69-89 | cutting removes the first match and keeps everything else in order |
| LinkedLists.List.Add | tg/list.h:57-66 | a new first node, the others untouched |
| LinkedLists.List.Cut | tg/list.h:69-89 | splicing the nodes removes the first matching item and returns it |
| LinkedLists.List.Items | tg/list.h:92-95 | the loop visits every item in order |
| LinkedLists.List.Free | tg/list.h:98-107 | nothing is left |
| QueueProtocol.StepKeeps | tg/queue.c:92-801 | every region keeps: listed queries are free and unanswered, none is answered twice |
| QueueProtocol.ListedAreFree | tg/queue.c:122-124 | the mutex of a listed query is never held, so locking it under the list mutex never blocks and trylock succeeds |
| QueueProtocol.AtMostOnce | tg/queue.c:92-216 | in every interleaving on_done runs at most once for each query |
| QueueProtocol.CancelAllIsFinal | tg/queue.c:745-765 | a query listed when everything is cancelled stops, and on_done never runs for it |
| QueueProtocol.CancelIsFinal | tg/queue.c:767-801 | a query found by cancellation never has on_done run |
| QueueProtocol.ReplyFindsItsQuery | tg/queue.c:97-124 | with unique ids an answer takes exactly the query with its id off the list |
| QueueProtocol.AnswerReachesItsQuery | tg/queue.c:92-216 | in every run with fresh ids, the query an answer arrives for is given that answer, once, and nothing else ever |
| QueueProtocol.AnswerIsGiven | tg/queue.c:126-216 | after an answer, `on_done` has been given the result itself, the error, what a packed answer held, or null for a complaint or a null answer; the receive loop is off for ever, except after a null answer, which leaves it as it was |
| QueueProtocol.StoppedForEver | tg/queue.c:584-801 | a query that is cancelled or cannot be sent never receives again |
| QueueProtocol.EnlistRun | tg/queue.c:576 | a query is listed in front |
| QueueProtocol.ReplyRun | tg/queue.c:97-124 | an answer takes its query off the list and holds its mutex |
| QueueProtocol.FinishRun | tg/queue.c:209-215 | the callback is given the result, and the loop ends |
| QueueProtocol.CancelAllRun | tg/queue.c:745-765 | cancelling all stops all and empties the list |
| QueueProtocol.FailedRun | tg/queue.c:584-585 | a query that cannot be sent stops but stays listed |
| QueueProtocol.StartRun | tg/queue.c:630-672 | a new query has its loop on, no id, and is not listed yet |
| QueueProtocol.ResendRun | tg/queue.c:587-602 | a query sent again loses its id until it has a new one, and stays listed |
| QueueProtocol.CancelRun | tg/queue.c:767-785 | cancelling one takes it off the list with its mutex held |
| QueueProtocol.StopRun | tg/queue.c:787-801 | then its loop ends and the mutex is free again |
| QueueProtocol.ExitRun | tg/queue.c:603-616 | a thread that ends takes its own entry off the list |
| QueueProtocol.ExitCutsItself | tg/queue.c:606-616 | a thread that ends removes exactly its own entry if and only if no entry with the same id stands ahead of it |
| QueueProtocol.ExitIsExact | tg/queue.c:606-616 | in every run with fresh ids a thread that ends takes exactly its own entry off the list |
| Sessions.ContentNumbersAreOdd | tg/header.c:57-68 | the i-th content message since a reset has number 2(s+i)+1 |
| Sessions.NumberedNext | tg/header.c:57-68 | a new message numbered by the counter keeps the numbering: twice the content messages before it, plus one if it is one itself |
| Sessions.TakenInOrder | tg/header.c:57-68 | whatever other threads do, the numbers a thread takes rise from message to message, and those of content messages are odd |
| Sessions.Session.NextSeqno | tg/header.c:174-187 | the numbering survives every region that takes a number |
| Sessions.Session.Reset | tg/queue.c:501 | a new key restarts the numbering |
| Sessions.Session.Ack | tg/ack.c:28-60 | one acknowledgement holds all pending ids in order, and every id ever added is in exactly one acknowledgement or still pending |
| Sessions.Session.MakeDrop | tg/ack.c:88-95 | one drop message, numbered in its own region while the list of drops stays locked |
| Sessions.Session.ToDrop | tg/ack.c:73-104 | one content message for each answer to drop that is pending, in order, with numbers in the order they were taken, while other threads number messages between any two of them; exactly these are dropped, none is lost or added |
| Sessions.Session.Interleaving | tg/ack.c:17-86 | the state after any interleaving of regions, the single messages of a drop list among them, is that of the regions one after the other; the content messages are numbered 2s+1, 2s+3, ..., and every id added is in exactly one acknowledgement or still pending, in order; likewise for answers to drop |
| Sessions.Session.MtpMessage | tg/header.c:35-77 | id, number, length and body, the number taken in its own region |
| Sessions.Session.Pack | tg/header.c:114-148 | the container holds query, acknowledgement and one message for each answer dropped, with the numbers this thread took, whatever other threads do between its regions; every answer to drop added before is dropped, and in this container if the others leave it alone |
| Sessions.Session.Header | tg/header.c:79-198 | the frame around the query, or around the container when ids are pending, with its number, its id and 16 to 31 random bytes, whatever other threads do between its regions; all pending ids are acknowledged and all pending answers dropped then, and nothing is lost |
| Sessions.Session.Deheader | tg/header.c:220-260 | gives the declared bytes, remembers the salt and queues the id for acknowledgement, both already when the rest turns out too short |
| Sessions.Session.PlainHeader | tg/header.c:198-214 | before the key exchange: eight zeros, the time as id, the length, the message; nothing pending goes along |
| Sessions.Session.PlainDeheader | tg/header.c:263-290 | everything behind the header is the message; the declared length is only compared, for the log; a message for a key is given back as it is |
| Framing.FrameLength | tg/header.c:153-197 | the plaintext is a multiple of 16 with padding between 16 and 31 |
| Framing.FrameRoundTrip | tg/header.c:231-260 | the body comes back exactly |
| Framing.PlainRoundTrip | tg/header.c:199-214 | an unencrypted body comes back exactly |
| WireForms.PlainForm | tg/header.c:203-214 | eight zeros, id, length and body, low bytes first |
| WireForms.FrameForm | tg/header.c:153-197 | salt, session, id, number, length, body, padding, at these places |
| WireForms.MessageForm | tg/header.c:35-77 | id, number, length and body of a message in a container |
| WireForms.ContainerForm | tg/header.c:123-143 | 0x73f1f8dc, low byte first, the number of messages, the messages |
| WireForms.BundleForm | tg/header.c:114-148 | the query first, then the acknowledgement, then one message for each drop |
| WireForms.AckForm | tg/ack.c:51-52 | 0x62d6b459 and the vector of ids, eight bytes each |
| WireForms.ConcatStarts | tg/header.c:123-143 | the messages of a container follow one another in order |
| WireForms.DropForm | tg/ack.c:89-95 | 0x58e4a740 and the id |
| Framing.ContainerRoundTrip | tl/deserialize.c:138-158 | a container parses back into its messages if and only if there are at most 100 |
| Framing.BundleRoundTrip | tg/header.c:114-148 | query, acknowledgement and drops parse back, whatever numbers they got, if and only if there are at most 98 drops |
| Framing.AckRoundTrip | tg/ack.c:51-52 | an acknowledgement parses back into its ids if and only if there are at most 100 |
| Framing.DropRoundTrip | tg/ack.c:89-95 | a drop request parses back into its id |
| Base64.DecodeOfEncode | tl/base64.h:75-145 | decoding undoes encoding for every byte string that is not empty |
| Base64.EncodeOfDecode | tl/base64.h:75-145 | encoding undoes decoding for every canonical text |
| Base64.SurvivesExactly | tl/base64.h:75-145 | among texts of whole groups exactly the canonical ones survive decoding and encoding |
| Base64.Alphabet | tl/base64.h:55-62 | letters, digits, plus and slash, in the order of section 4 of RFC 4648 |
| Base64.Examples | tl/base64.h:75-102 | the examples "f", "fo", "foo" and "foobar" of section 10 of RFC 4648 |
| Base64.EncodeData | tl/base64.h:75-102 | the loop with zero-filled last group and padding written over it yields the standard encoding |
| Base64.DecodeData | tl/base64.h:104-145 | the table loop with truncated last group decodes; lengths that are no multiple of four are refused |
| Base64.BuildDecodingTable | tl/base64.h:66-71 | the table inverts the alphabet |
| Buffers.Buffer.Realloc | tl/buf.c:72-88 | growing keeps the contents and zeroes the new room |
| Buffers.Buffer.Cat | tl/buf.c:129-146 | the contents are extended by those of the other buffer, or by its own when they fit |
| Buffers.Buffer.Swap | tl/buf.c:175-188 | the bytes are turned around in place |
| Buffers.Buffer.Cmp | tl/buf.c:160-173 | equality of buffers of one size; only a prefix is compared otherwise |
| Buffers.Buffer.XorWith | tl/buf.c:236-255 | the bytewise exclusive or |
| Buffers.Involutions | tl/buf.c:175-255 | turning around twice and xoring twice with the same bytes change nothing |

## Left out

- `lucas_selfridge`, `jacobi` and `perfect_square`: the last test of `isprime` is a parameter; factorisation assumes it exact from 29 squared on.
- `rand` and the rounded square root are functions of the factorisation's `World`.
- Primality.MillerRabin: the base 2^63 - 1 is excluded when n is above 2 and divides it, because stepping past it would overflow.
- Fermats.Ferma: numbers that are twice an odd number are excluded, because the search does not end on them; the square root is a parameter that may be off as rounding of a double allows.
- MonteCarlos.PollardMonteCarlo: products that leave 64 bits wrap around, as the compiled code usually does where the language leaves the result open; a loop not done after `fuel` products counts as one that does not end.
- Splitters.PollardMinusOne: the search for a base is given up after `fuel` steps; squares and sums that leave 64 bits wrap around, here and in `pollard_bent`.
- Factorization.Factorizer.Factorize: calls nested deeper than `depth` count as not ended. From a million on, the outcome is exact for products of two primes only; of others it is said what a call that returns has done.
- Factorization.Factor: a number with more than two prime factors, for which the code writes behind an array of two, and one with fewer, for which it reads what was never written.
- The generic integer template arguments: the model is the 64-bit instance.
- The hash functions of `tg/stb_ds.h` (an arbitrary function takes their place), its string-key modes, its statistics, and masks by a power of two minus one written as remainders.
- Capacities and sizes that leave the machine word, failing allocations, and any use of memory after it is freed.
- The constructor `vector` itself, whose deserialiser keeps the raw rest of the buffer.
- TlCodec.Serialize: flag words are positions in the output; the pointers the generated code keeps into a buffer that may move are not modelled.
- TlDecoder.DeserializeObject: the code does not check that the buffer is long enough; the model reports an overrun where the code would read on.
- The text emission of the generator: files, headers, name tables.
- Sessions.Session.Header: the clock readings and the random bytes are parameters; a null message id pointer is not passed; no other thread changes the salt or the session id during the call.
- Sessions.Session.Deheader: a session id that does not match is only logged, so it does not change the result.
- `handle_tl`'s unpacking of containers and packed answers before an answer reaches its query.
- Encryption, key exchange, compression, sockets, the database.
- QueueProtocol.AnswerReachesItsQuery: liveness is not claimed, and message ids are assumed fresh; errors from the mutex functions and the receive loop's socket are left out.
- The thread of a query frees it when it ends; lifetimes are not modelled.
- Base64.DecodeData: the empty text and characters outside the alphabet, for which the code reads memory it never wrote.
- Buffers.Buffer.Cat: appending a buffer to itself when it has to grow, for which the code reads memory it has given back; buffers whose data pointer was moved forward, and sizes above 32 bits.
- Machines that store words high byte first: the model writes what little-endian ones do.
- `sha256_hex` and its relatives: they print the same digest.
- `crypto/fact.cpp`, `crypto/sha1.c`, `crypto/sha256.c`: copies of the modelled files.
