# Verified core of the file-sharing application

A Dafny model of the parts of the program in which mistakes would go unnoticed, with proofs of what they promise:

- **The hybrid cipher** (`NumberTheory`, `Fermat`, `Words`, `Algorithm`, `PrimeBound`, `FewPrimes`, `Convert`,
  `Rotation`, `Camellia`, `DmRsa`, `Rsa`, `Hybrid`). A file is encrypted under a fresh Camellia key, and that key with
  dual-modulus RSA. Opening an envelope gives back the sealed bytes for data of every length, every key and every key
  pair the generator can produce. Everything below that is proved from scratch: prime search, exponent search,
  extended Euclid in mixed 64-bit arithmetic, square and multiply, Fermat's little theorem, the Chinese-remainder step
  for blocks that share a factor with a modulus, the inverse of the 18-round network with its FL layers, and lower and
  upper bounds on the number of primes, by which every random-key constructor fits its words and the default one
  yields keys under which sealing never fails. What a cipher word is, what the key schedule computes and what the 18
  rounds compute are also stated apart from the functions that compute them.
- **The rectangle packer** (`Skyline`, `Placement`, `BestPosition`, `Floor`, `Columns`, `Support`, `RectPack`,
  `PackRects`, `NodeBudget`, `Overhang`). The linked skyline and free list are classes changed in place. Packed
  rectangles never overlap and stay inside the target over any sequence of calls, under either heuristic and any
  alignment; each goes to the position that is best among all columns of the target, by exact heights and exact wasted
  areas, although the search looks at corners only; the two lists always hold all nodes, each once; the caller's array
  comes back in its own order.
- **The server** (`Framing`, `Registry`, `Presence`, `Answers`, `Server`). Messages survive the byte stream. In every
  run the three views of who is connected agree, every logged-in client can work out who is online from what it was
  sent, files reach exactly the target's connections, and every login, register, online-list, details, store-key and
  send-file request gets one answer. `Server` holds the objects; each of its handlers is proved to take the step that
  `Registry` defines; `Presence` proves what all runs of those steps keep, and `Answers` says what each of them adds
  to which queue, over the states before and after it.

Each module opens with a comment that says what it is about. Reading order is the order above.

## Where the code and its description differ

- `nth_prime` counts from 1 before it has found a prime, so for arguments from 2 on it returns the prime before the one its
  name promises (`Algorithm.NthPrimeHasItsRankOnlyAtOne`). Key generation needs only "prime and increasing".
- `mod_exponential` returns 0 early when the base is a multiple of the modulus, which is wrong exactly for exponent 0 and a
  modulus above 1 (`Algorithm.EarlyReturnIsWrongIff`). No caller uses exponent 0.
- The packer's header comments (`thirdparty/imgui/imstb_rectpack.h` lines 145-153 and 258-262) promise that rounding widths
  keeps it from running out of nodes. With fewer nodes than columns it does not, on any target at least two high, under
  either heuristic; on a target one high it fails exactly when a rounded unit box still fits beside one box per node
  (`NodeBudget.CanRunOutIff`). With a node per column nothing is rounded, and nothing runs out.
- With rounded widths a box can be put strictly inside one skyline step, and then the rest of that step is raised with it;
  `Overhang.BoxRaisesMoreThanItself` is a run in which it happens. That wastes room but is safe. Without rounding the new
  skyline is exactly the box over its own columns (`Floor.RaisesOwnColumns`).
- Sealing can fail on a valid key pair. It works for every fresh key exactly when every 32-bit block encrypts
  (`Hybrid.AlwaysSealsIffBlocks`). That needs both moduli to be at least 2^32, and in a pair with n1 <= n2 it holds exactly
  when n1 is at least 2^32 (`Hybrid.AlwaysSealsIff`). The low-prime and mid-prime constructors only yield keys on which some
  block is refused (`DmRsa.GenerateLow`, `DmRsa.GenerateMid`), and the original then ends the process; under keys of the
  default constructor no block is ever refused (`DmRsa.GenerateDefault`).
- On targets more than 2^30 high the packer passes over positions at or above that height, because its search starts from
  that score (`Columns.BestFitsIff`). Up to that height it finds a place exactly when some column has room.
- Registering a taken name is answered with the text for an unknown user (`server/src/server.cpp` line 244). The model
  keeps that.

## Model

| member | source | states |
|---|---|---|
| Algorithm.SubtractiveGcd | common/util/algorithm.h:15-33 | the subtraction loop ends for all arguments and yields the greatest common divisor |
| NumberTheory.GcdIsGcd | common/util/algorithm.h:15-33 | the specification of gcd divides both arguments and every common divisor divides it |
| Algorithm.GcdExtended | common/util/algorithm.h:38-56 | gcd with Bezout coefficients, each bounded by the opposite argument or 1, so that no signed word overflows |
| Words.MixedUpdateIsExact | common/util/algorithm.h:52-53 | the update through unsigned wrap-around and back gives the exact signed value whenever it fits |
| Algorithm.ModInverse | common/util/algorithm.h:60-83 | succeeds exactly for coprime arguments, with an inverse below the modulus |
| Algorithm.IsPrimeNumber | common/util/algorithm.h:116-133 | trial division up to the n/2 cut-off decides primality of every n |
| Algorithm.NthPrime | common/util/algorithm.h:139-159 | the naive search ends for every argument, with a prime of rank one below the argument from 2 on |
| NumberTheory.PrimesAreUnbounded | common/util/algorithm.h:149-154 | there is a prime above every number, which is why the search ends |
| Algorithm.RankOrdersPrimes | common/util/algorithm.h:139-159 | primes of larger rank are larger, so results of the search strictly increase |
| Algorithm.NthPrimeHasItsRankOnlyAtOne | common/util/algorithm.h:144-155 | the result is the nth prime exactly for argument 1 |
| PrimeBound.ManyPrimes | common/util/algorithm.h:139-159 | 2^k is at most (2k) to the number of primes up to 2k, for every k |
| PrimeBound.RankBoundsPrime | common/crypto/dm_rsa.cpp:90-112 | every prime of rank up to 26214 is below 2^20, which bounds all primes that key generation draws |
| PrimeBound.SmallRankBelow | common/crypto/dm_rsa.cpp:98-112 | every prime of rank below 2048 is below 2^16 |
| FewPrimes.SuperIs | common/util/algorithm.h:139-159 | the triangle Super(a, b) C(2b, b) = C(2a, a) C(a, b), so its entries are whole |
| FewPrimes.SuperBoundsProduct | common/util/algorithm.h:139-159 | the primes above 2b up to 2a, for a at most 3b, have a product of at most 6^a / 2^b |
| FewPrimes.RankExceeds | common/crypto/dm_rsa.cpp:90-96 | every prime of rank 7999 or more is above 2^16 |
| Algorithm.ModExponential | common/util/algorithm.h:171-193 | square and multiply yields the power modulo m for m up to 2^64, no product wrapping, but for the early return |
| Algorithm.EarlyReturnIsWrongIff | common/util/algorithm.h:177-180 | the early return differs from the power exactly when base mod m and the exponent are 0 and m exceeds 1 |
| Algorithm.FindExponent | common/crypto/dm_rsa.cpp:43-64 | the search from phi/5 stops below phi at the first exponent that is coprime to phi, for every phi from 2 on |
| Fermat.FermatLittle | common/crypto/dm_rsa.cpp:182-199 | a^p = a modulo every prime p, for all a |
| NumberTheory.ChineseRemainder | common/crypto/dm_rsa.cpp:182-199 | what two different primes divide, their product divides |
| Fermat.ExponentsCancel | common/crypto/dm_rsa.cpp:114-199 | d undoes e modulo p q for every message below it, shared factors included |
| DmRsa.GenerateHalf | common/crypto/dm_rsa.cpp:28-76 | modulus, totient, exponent and inverse of one half are computed without wrapping; it fails exactly when a given exponent is not coprime to the totient; one that is not given is the first coprime one from a fifth of the totient on; the private exponent is below the totient |
| DmRsa.Generate | common/crypto/dm_rsa.cpp:28-76 | key generation succeeds exactly when the given exponents are coprime to their totients, and then gives a valid pair from the given primes, with the first coprime exponent from a fifth of the totient on for each one not given |
| DmRsa.GenerateFromIndices | common/crypto/dm_rsa.cpp:90-112 | drawn by increasing indices up to 11000, of which the middle two may be equal, generation cannot fail and n1 is below n2; the four primes have the drawn ranks less one, both exponents are searched ones and both inverses reduced |
| DmRsa.GenerateDefault | common/crypto/dm_rsa.cpp:90-96 | for every draw of the default constructor generation succeeds with 2^32 <= n1 < n2, primes of the drawn ranks less one and searched exponents, and no block is refused |
| DmRsa.GenerateLow | common/crypto/dm_rsa.cpp:98-104 | for every draw of the low-prime constructor generation succeeds with n1 < n2 and n1 < 2^32, primes of the drawn ranks less one and searched exponents, and some block is refused |
| DmRsa.GenerateMid | common/crypto/dm_rsa.cpp:106-112 | for every draw of the mid-prime constructor generation succeeds with n1 < n2 and n1 < 2^32, primes of the drawn ranks less one and searched exponents, and some block is refused |
| DmRsa.Encrypt | common/crypto/dm_rsa.cpp:114-139 | every error case; the cipher word is (block^e1 mod n1)^e2 mod n2, and for every valid pair with this public key it is below n2 and its power by d2 modulo n2 is block^e1 mod n1 |
| DmRsa.Decrypt | common/crypto/dm_rsa.cpp:182-199 | the low 32 bits of (cipher^d2 mod n2)^d1 mod n1 |
| DmRsa.CipherWordIs | common/crypto/dm_rsa.cpp:114-139 | under every valid pair, a block that encrypts becomes the only number below n2 whose power by d2 modulo n2 is block^e1 mod n1 |
| DmRsa.DecryptedWordIs | common/crypto/dm_rsa.cpp:182-199 | under every valid pair, any word decrypts to the low 32 bits of the only number below n1 whose power by e1 modulo n1 is the residue of cipher^d2 mod n2 |
| DmRsa.WordRoundTrip | common/crypto/dm_rsa.cpp:114-199 | whatever block encrypts under a valid pair decrypts to itself |
| DmRsa.EncryptsIff | common/crypto/dm_rsa.cpp:118-137 | exactly which blocks encrypt; with n1 not above n2 these are the blocks below n1, so the intermediate check never fails |
| DmRsa.SmallSecondModulusRefuses | common/crypto/dm_rsa.cpp:129-130 | a second modulus below 2^32 and below n1 refuses some block, because the first results are all different |
| DmRsa.AlwaysEncryptsNeeds | common/crypto/dm_rsa.cpp:114-139 | if every block encrypts, both moduli are at least 2^32; with n1 <= n2 that is also enough |
| DmRsa.Encrypts | common/crypto/dm_rsa.cpp:141-179 | little-endian blocks, the last filled with zeros, encrypted in order; the first failing block decides the error; under every valid pair each word of the result is the cipher word of its four bytes |
| DmRsa.Decrypts | common/crypto/dm_rsa.cpp:201-221 | rejects exactly the lengths that are not whole cipher words, else each eight bytes give one block by both private exponents |
| DmRsa.BytesRoundTrip | common/crypto/dm_rsa.cpp:141-221 | bytes of every length come back through cipher words on the wire, filler removed |
| DmRsa.LargeKeysAlwaysEncrypt | common/crypto/dm_rsa.cpp:141-179 | with 2^32 <= n1 <= n2 every byte string encrypts |
| DmRsa.KeyRoundTrip | common/crypto/dm_rsa.cpp:233-270 | deserializing a serialized key gives the key |
| DmRsa.WireRoundTrip | common/crypto/dm_rsa.cpp:253-270 | every 48 bytes are a key that serializes to them |
| DmRsa.KeyLayout | common/crypto/dm_rsa.cpp:233-251 | e1, e2, n1 and n2 lie at offsets 0, 8, 16 and 32 of a serialized key, lowest byte first |
| Rsa.GeneratePair | common/crypto/rsa.cpp:13-47 | single-modulus key generation, with its exact success condition, the searched exponent and the reduced inverse |
| Rsa.GenerateDefault | common/crypto/rsa.cpp:54-58 | generation cannot fail for any draw of the default constructor; primes have the drawn ranks less one, the modulus is at least 2^32 and no block is refused |
| Rsa.Encrypt | common/crypto/rsa.cpp:60-73 | succeeds exactly for a nonzero exponent and a block below the modulus, with block^e mod n |
| Rsa.Decrypt | common/crypto/rsa.cpp:113-118 | the low 32 bits of cipher^d mod n |
| Rsa.RoundTrip | common/crypto/rsa.cpp:60-118 | exactly the blocks below n encrypt, each decrypts to itself, and its cipher is the only number below n whose power by d is the block |
| Rsa.KeyRoundTrip | common/crypto/rsa.cpp:152-179 | keys and 24-byte strings correspond one to one |
| Rsa.KeyLayout | common/crypto/rsa.cpp:152-165 | e and n lie at offsets 0 and 8 of a serialized key, lowest byte first |
| Convert.LeNatOfLeBytes | common/util/convert.h:69-140 | a word written as little-endian bytes and read back is the word |
| Convert.LeBytesOfLeNat | common/util/convert.h:23-56 | bytes read as a word and written back are the bytes |
| Convert.LeByteAt | common/util/convert.h:69-140 | byte i of a word is its value divided by 256^i, modulo 256 |
| Convert.ByteOrder | common/util/convert.h:23-56 | byte j of eight bytes is bits 8 j to 8 j + 7 of the word that they are read as |
| Convert.WordsToBytesOfBytesToWords | common/util/convert.h:95-99 | bytes viewed as words and written back are the bytes |
| Convert.BytesToWordsOfWordsToBytes | common/util/convert.h:95-99 | words viewed as bytes and read back are the words |
| Convert.CombineOfParts | common/util/convert.h:69-74 | combining the halves of a word gives the word |
| Camellia.FLInverse | common/crypto/camellia.cpp:241-265 | FLINV undoes FL and FL undoes FLINV, for every word and subkey |
| Camellia.FLBits | common/crypto/camellia.cpp:241-265 | bit by bit, as RFC 3713 section 2.4.2: FL flips the low half by the rotated conjunction of the high half and the subkey, then the high half by the disjunction with the new low half; FLINV the other way round |
| Camellia.FeistelInverse | common/crypto/camellia.cpp:66-73 | the rounds with swapped halves and reversed keys undo the rounds, for any round function |
| Camellia.CipherInverse | common/crypto/camellia.cpp:52-93 | rounds, FL layers and whitening under reversed subkeys undo the whole network up to the half swap |
| Camellia.CipherIsNetwork | common/crypto/camellia.cpp:52-93 | the cipher is eighteen single rounds with exchanged halves, FL and FLINV before rounds 7 and 13, between two whitenings |
| Camellia.BlockIs | common/crypto/camellia.cpp:52-93 | the low eight bytes of a block are the left half that enters the rounds, and the right half that leaves them |
| Camellia.BlockRoundTrip | common/crypto/camellia.cpp:52-164 | decryption undoes encryption and encryption undoes decryption on every 16-byte block |
| Camellia.Cipher128.ScheduleKey | common/crypto/camellia.cpp:296-348 | the key tables hold the rotations and halves of the key and the derived key, in the terms of Camellia.ScheduleIs |
| Camellia.ScheduleIs | common/crypto/camellia.cpp:296-348 | bit by bit, as RFC 3713 section 2.2: bit i of the key or of the derived key is bit i + r modulo 128 of each pair of subkeys, with r for every pair spelled out, two words being single halves; the derived key's halves are given by the round function alone |
| Rotation.RotationMovesBits | common/crypto/camellia.cpp:322-345 | rotating a 128-bit word by 15, 30, 45, 60, 77, 94 or 111 moves bit i to bit i + r modulo 128 |
| Camellia.Cipher128.RoundsForward | common/crypto/camellia.cpp:67-73 | three double rounds with ascending subkeys |
| Camellia.Cipher128.RoundsBackward | common/crypto/camellia.cpp:138-144 | three double rounds with descending subkeys |
| Camellia.Cipher128.Encrypt | common/crypto/camellia.cpp:52-93 | the object's loops compute the network's specification, with both error cases |
| Camellia.Cipher128.Decrypt | common/crypto/camellia.cpp:124-164 | the mirrored loops compute the network under reversed subkeys |
| Camellia.Cipher128.Encrypts | common/crypto/camellia.cpp:95-122 | every block in order, the last one filled with 1 to 16 zeros |
| Camellia.Cipher128.Decrypts | common/crypto/camellia.cpp:166-184 | every block in order with the fill cut off; other lengths are refused |
| Camellia.BytesRoundTrip | common/crypto/camellia.cpp:95-184 | byte strings of every length come back, fill removed |
| Camellia.CipherBytesAre | common/crypto/camellia.cpp:95-122 | the output is a block longer than the whole blocks of the input; every sixteen bytes of it are the cipher of the same sixteen bytes of the input, zeros following its end |
| Camellia.PlainBytesAre | common/crypto/camellia.cpp:166-184 | whatever whole blocks arrive, decryption gives the bytes that encrypt to them, cut by the garbage |
| Hybrid.Encrypt | common/crypto/hybrid.h:24-43 | composes both ciphers, paddings cast to one byte |
| Hybrid.Decrypt | common/crypto/hybrid.h:45-69 | opens the key, checks its size, then opens the data |
| Hybrid.SealThenOpen | common/crypto/hybrid.h:24-69 | whatever is sealed opens to the same bytes; key padding is 0 and data padding 1 to 16 |
| Hybrid.SealedIs | common/crypto/hybrid.h:24-43 | the data part decrypts under the fresh key, and the key part is the cipher words of the fresh key's four blocks |
| Hybrid.OpenIs | common/crypto/hybrid.h:45-69 | which envelopes open, and under which key bytes: the deciphered blocks without the padding |
| Hybrid.AlwaysSealsIffBlocks | common/crypto/hybrid.h:24-43 | under any public key, sealing works for every fresh key if and only if every block encrypts |
| Hybrid.AlwaysSealsIff | common/crypto/hybrid.h:24-43 | under any valid pair this needs n1 and n2 of at least 2^32, and with n1 <= n2 it holds if and only if n1 is at least 2^32 |
| Skyline.MeasureIsMax | thirdparty/imgui/imstb_rectpack.h:291-339 | the span's y is the greatest skyline height over its columns |
| Skyline.WasteIsArea | thirdparty/imgui/imstb_rectpack.h:314-337 | on a skyline whose only floor step is the last, the waste of every span is exactly the area between its height and the skyline |
| RectPack.Context.FindMinY | thirdparty/imgui/imstb_rectpack.h:291-339 | the walk over the linked nodes yields the greatest height of the span and, as waste, exactly the area between it and the skyline, wherever the search asks for it |
| RectPack.Context.FindBottomLeft | thirdparty/imgui/imstb_rectpack.h:365-391 | over all columns of the target the lowest place, the leftmost of those, and the link to its node |
| RectPack.Context.FitLeft | thirdparty/imgui/imstb_rectpack.h:365-391 | the best place below the top among those with the left edge at a node |
| RectPack.Context.FitRight | thirdparty/imgui/imstb_rectpack.h:410-441 | after both passes, the best place below the top over all columns of the target |
| RectPack.Context.FindBestPos | thirdparty/imgui/imstb_rectpack.h:347-447 | the position that the chosen heuristic defines, or none; it is the best over all columns of the target |
| BestPosition.BestIsUnique | thirdparty/imgui/imstb_rectpack.h:347-447 | the heuristics leave no freedom: best positions are equal |
| Columns.OffCornerLoses | thirdparty/imgui/imstb_rectpack.h:393-441 | every place of a box is beaten by one with an edge at a node, or is one: between corners the height does not rise and the waste changes by a constant per column |
| Columns.BestIsBestColumn | thirdparty/imgui/imstb_rectpack.h:347-447 | the position the search defines is the one with the least greatest height over all columns of the target, of those (best fit) the least wasted area, of those the leftmost; and the other way round |
| Columns.BestColumnIsUnique | thirdparty/imgui/imstb_rectpack.h:347-447 | that leaves no freedom either |
| Columns.BestFitsIff | thirdparty/imgui/imstb_rectpack.h:347-467 | a place below the top is found exactly when some column has room for the box and beats the starting score; on targets up to 2^30 high, exactly when some column has room |
| BestPosition.BestIsSupported | thirdparty/imgui/imstb_rectpack.h:347-447 | a best position lies in the target and rests on the highest skyline column under it |
| Floor.BestStartsFloorStep | thirdparty/imgui/imstb_rectpack.h:365-441 | no best position lies strictly inside a step on the floor |
| Floor.BestKeepsSky | thirdparty/imgui/imstb_rectpack.h:449-499 | placing a box at its best position keeps the skyline ordered and the floor to its last step |
| Floor.FloorIsBest | thirdparty/imgui/imstb_rectpack.h:365-441 | the left end of a wide enough floor step is the best position under either heuristic |
| Floor.RaisesOwnColumns | thirdparty/imgui/imstb_rectpack.h:485-499 | without alignment a box at its best position raises exactly its own columns |
| Support.BestKeepsTight | thirdparty/imgui/imstb_rectpack.h:464-499 | without alignment the skyline stays, over each column, exactly the greatest top of the placed boxes |
| Support.BestRests | thirdparty/imgui/imstb_rectpack.h:347-447 | without alignment every box is put on the floor or on top of a box that shares a column with it |
| Overhang.BoxRaisesMoreThanItself | thirdparty/imgui/imstb_rectpack.h:353-499 | a run under default rounding in which the best position raises a column that the box does not cover |
| Placement.InsertHeights | thirdparty/imgui/imstb_rectpack.h:464-499 | the new skyline is the box's top over the raised columns and the old one elsewhere |
| Placement.InsertKeepsSky | thirdparty/imgui/imstb_rectpack.h:464-507 | the list still starts at 0, increases strictly and ends at the sentinel |
| Placement.RaisesExactlyIff | thirdparty/imgui/imstb_rectpack.h:485-499 | at any position in a step, the raised part ends at the box's end unless the box lies strictly inside the step |
| Placement.InsertNodes | thirdparty/imgui/imstb_rectpack.h:464-507 | the new list has exactly the old nodes outside the raised part and one node at each of its ends |
| Placement.PlaceKeepsSafe | thirdparty/imgui/imstb_rectpack.h:449-526 | a box at or above the skyline overlaps nothing placed before, and the new skyline covers it |
| RectPack.Context.InitTarget | thirdparty/imgui/imstb_rectpack.h:265-288 | a flat valid context with all given nodes free and the default settings |
| RectPack.Context.SetupAllowOutOfMem | thirdparty/imgui/imstb_rectpack.h:245-263 | align 1, or the default rounding; a valid context stays valid |
| RectPack.Context.SetupHeuristic | thirdparty/imgui/imstb_rectpack.h:233-243 | sets the heuristic; a valid context stays valid |
| RectPack.AlignIsLeastCover | thirdparty/imgui/imstb_rectpack.h:253-262 | the default alignment is the least with num_nodes * align >= width |
| RectPack.Context.PlaceNode | thirdparty/imgui/imstb_rectpack.h:464-523 | the in-place surgery yields the inserted skyline and two disjoint lists that together hold the same nodes |
| RectPack.Rearranged | thirdparty/imgui/imstb_rectpack.h:509-522 | no node is lost, doubled or on both lists |
| RectPack.Context.PackRectangle | thirdparty/imgui/imstb_rectpack.h:449-526 | packed exactly when some column has room below the top and a node is left, and then at the best position over all columns; else nothing changes; without alignment the skyline stays the outline of the boxes and every box rests on something |
| RectPack.Context.NodesSuffice | thirdparty/imgui/imstb_rectpack.h:145-153 | with a node per column a valid context always has a free node |
| NodeBudget.CanRunOutIff | thirdparty/imgui/imstb_rectpack.h:145-153 | under default rounding some run is refused for lack of nodes alone if and only if there are fewer nodes than columns and the target is at least 2 high, or it is 1 high and a rounded unit box fits beside one box per node; for both heuristics |
| PackRects.Qsort | thirdparty/imgui/imstb_rectpack.h:556-556 | an ordered permutation |
| PackRects.PackAll | thirdparty/imgui/imstb_rectpack.h:557-569 | the rectangles are packed greedily in the given order, each at the best place over all columns, and each keeps id and size |
| PackRects.GreedyIsDeterministic | thirdparty/imgui/imstb_rectpack.h:557-569 | sizes and their order decide every position and the final skyline |
| PackRects.SortingBackRestores | thirdparty/imgui/imstb_rectpack.h:548-573 | sorting by the kept index puts every rectangle back where it was |
| PackRects.PackedNeverOverlaps | thirdparty/imgui/imstb_rectpack.h:546-584 | the array's placed rectangles overlap neither each other nor anything placed by earlier calls, and lie in the target |
| PackRects.PackRects | thirdparty/imgui/imstb_rectpack.h:546-584 | tallest first, greedily, order restored, flag 0 exactly for the refused, result 1 exactly when none was refused, no overlap across calls, and without alignment every box still rests on something |
| Framing.ParseOfRaw | common/message/message.h:55-101 | the header's fields survive the copy into its bytes |
| Framing.RawOfParse | common/message/message.h:95-101 | any 16 bytes are a header that gives those bytes back |
| Framing.HeaderLayout | common/message/message.h:55-101 | size, filler, encryption, type and opponent lie at offsets 0, 8, 10, 11 and 12 of the header, lowest byte first |
| Framing.OnlyOpponentChanges | common/message/message.h:108-111 | writing the opponent through the header changes that field alone and can be undone |
| Framing.CreatedIsFramed | common/message/payload.h:218-233 | a created message tells the size of its body and carries the given fields |
| Framing.Writer | server/src/connection.cpp:211-265 | the socket gets header and body of every queued message in order |
| Framing.Reader | server/src/connection.cpp:158-209 | the loop with its reused message delivers the complete messages of the stream |
| Framing.StreamRoundTrip | server/src/connection.cpp:158-244 | what was written is read back with nothing left over |
| Framing.StreamGrows | server/src/connection.cpp:211-265 | a further message follows the others, its header first |
| Framing.StreamOfFrames | server/src/connection.cpp:158-204 | reading loses no byte of any stream |
| Framing.ArrivalsDoNotMatter | server/src/connection.cpp:163-204 | how the bytes are cut into arrivals does not change what is delivered |
| Framing.CutStream | server/src/connection.cpp:168-199 | when the peer goes away, exactly the messages sent whole are delivered |
| Framing.RealSizeAlwaysMatches | server/src/server.h:285-300 | the size check after decryption never rejects a framed message |
| Framing.PayloadRoundTrip | server/src/server.h:285-323 | an encrypted and framed payload is opened to itself |
| Presence.PresenceStreamsAreFaithful | server/src/server.cpp:98-122 | in every run, from any point on, each logged-in connection's signals turn the then online users into the now online users, its own user left out |
| Presence.ClientsKnowWhoIsOnline | server/src/server.cpp:258-277 | in every run, a client that asks who is online and then follows its signals knows exactly who else is online, for as long as it stays |
| Presence.EnterKeeps | server/src/server.cpp:203-212 | logging in keeps the registry in agreement and every presence stream faithful |
| Presence.CloseKeeps | server/src/server.cpp:98-122 | so does closing, whether or not it was the user's last connection |
| Presence.RunKeeps | server/src/server.cpp:47-145 | so does every run of accepts, messages and closes |
| Presence.OnlineIff | server/src/server.h:105-106 | a user is a key of the registry if and only if some connection is logged in as that user |
| Presence.OnlineListIsRegistry | server/src/server.cpp:258-277 | the answer to "who is online" names exactly the registry's users but the asker |
| Presence.LoginIff | server/src/server.cpp:160-213 | a connection that is not logged in becomes so exactly for an acceptable request with a registered name and its password |
| Presence.RegisterThenLogin | server/src/server.cpp:215-256 | a new name makes one account, whose credentials then log in; a taken name makes none |
| Presence.StoredKeyIsServed | server/src/server.cpp:279-409 | in every run, details requests return the key that the user stored last |
| Presence.FileFanOut | server/src/server.cpp:411-475 | one copy on every connection of the target and on no other, the reply on the sender's; the copy's header reads as the message's with the sender's id, of 16 bits, as opponent, and its body is unchanged; no listed id is without a connection |
| Presence.FileDeliveredIff | server/src/server.cpp:413-474 | a file reaches somebody if and only if it is accepted; otherwise its one refusal is all that is written |
| Presence.EveryRequestIsAnswered | server/src/server.cpp:160-475 | every login, register, online-list, details, store-key and send-file request adds one reply on its own connection, and only signals or files on others |
| Answers.RegisterAnswer | server/src/server.cpp:215-256 | an account under the next id and the answer success for an acceptable request with a new name; otherwise no account and the answer failure, with its text |
| Answers.RegisterAnswerTells | server/src/server.cpp:215-256 | success is answered exactly when an account was made, and failure exactly when none was |
| Answers.LoginAnswer | server/src/server.cpp:160-213 | an acceptable request with a name and its password makes the connection that user, tells it success, tells every connection of another user who came, and adds it to the user's list; any other request changes nothing and is told why |
| Answers.OnlineAnswer | server/src/server.cpp:258-277 | the users of the other connections, once per connection and in their order; or the refusal |
| Answers.DetailsAnswer | server/src/server.cpp:279-315 | id, name and key of the account asked for, or the refusal with its text |
| Answers.StoreKeyAnswer | server/src/server.cpp:380-409 | the key of the asking user changes and success is told, or nothing changes and the reason is told |
| Answers.FileAnswer | server/src/server.cpp:411-475 | a file for a user who is online goes to that user's connections alone, with the sender in bytes 12 and 13 and every other byte unchanged, and success is told; any other file goes nowhere and the reason is told |
| Answers.CloseAnswer | server/src/server.cpp:98-122 | the connection goes and the others stay in order; exactly with a user's last connection the user goes offline and every connection of another user is told |
| Answers.EveryAnswerIs | server/src/server.cpp:47-91 | every modelled request has the answer that its kind demands, and no other message changes anything |
| Server.Server.SendMessage | server/src/server.cpp:147-158 | one message on one connection's queue |
| Server.Server.BroadcastMessage | server/src/server.h:325-359 | one message on every authenticated connection of any other user |
| Server.Server.ExpectPrologue | server/src/server.h:229-245 | passes exactly for the expected authentication and encryption, else answers with the first reason |
| Server.Server.LoginMessageHandler | server/src/server.cpp:160-213 | the registry's login step, which Answers.LoginAnswer describes |
| Server.Server.RegisterMessageHandler | server/src/server.cpp:215-256 | the registry's register step, which Answers.RegisterAnswer describes |
| Server.Server.GetUserOnlineHandler | server/src/server.cpp:258-277 | the registry's online-list step, which Answers.OnlineAnswer describes |
| Server.Server.GetUserDetailsHandler | server/src/server.cpp:279-315 | the registry's details step, which Answers.DetailsAnswer describes |
| Server.Server.StorePublicKeyHandler | server/src/server.cpp:380-409 | the registry's store-key step, which Answers.StoreKeyAnswer describes, on the account the connection is logged in as |
| Server.Server.SendFileHandler | server/src/server.cpp:411-475 | the registry's send-file step, which Answers.FileAnswer describes |
| Server.Server.OnMessageIn | server/src/server.cpp:47-91 | the switch on the header's type takes the registry's step, gives the answer that the request demands, and keeps the registry valid and presence faithful |
| Server.Server.ConnectionAcceptor | server/src/server.cpp:124-145 | an accept adds one connection under the next id that is sent the server's details, with the same guarantees |
| Server.Server.OnConnectionClosed | server/src/server.cpp:98-122 | a close takes the registry's step, removes that connection alone and tells the others exactly when its user is gone, with the same guarantees |

## Left out

- Asio coroutines, sockets, timers and threads: each handler is one atomic step, a socket is a sequence of bytes, and a read error other than the end of the stream does not occur. What a client received is what was put into its connection's queue; writes that are dropped because a socket is just closing are not modelled.
- Alpaca serialization and the symmetric decryption in front of it: what parsing a request's body yields is part of the event, success or error.
- The exchange of the symmetric key, `get_server_details_handler` and `store_symmetric_key_handler`: the modelled requests come after it.
- Wrap-around of 16-bit connection and user ids: ids are naturals and fresh.
- Randomness: keys and prime indices are parameters.
- Camellia's round function and S-boxes: the network is proved for any round function, so no published cipher vectors follow.
- `common/crypto/aes.cpp`, whose block cipher is not part of this model, and the client application.
- Byte strings under single-modulus RSA: its block splitting is the one proved for the dual scheme.
- Library replacements: `is_prime`, `nth_prime` and `mod_exponential` are the naive bodies. `common/crypto/dm_rsa.cpp` selects Boost's `powm`, for which `Algorithm.Powm` stands, and a build may select Primesieve; both are libraries.
- `qsort` itself: PackRects.Qsort is some ordered permutation, and callers know no more of it.
- DmRsa.GenerateHalf: requires given exponents and the totient to be below 2^63 and the primes below 2^32, beyond which signed words overflow or products wrap.
- DmRsa.Generate: requires the same; a failed inverse is an error value, because the original aborts the process there; the key objects are values, because nothing changes them after construction.
- Rsa.GeneratePair: requires the same.
- Rsa.Encrypt: requires moduli of at most 2^64, which all generated keys have; a key received from elsewhere may claim larger ones.
- Rsa.Decrypt: requires the same, and a private exponent.
- DmRsa.Decrypt: requires private exponents, because the original aborts without them.
- DmRsa.Decrypts: requires private exponents, for the same reason.
- DmRsa.Encrypts: the first failing block is an error value, because the original aborts there.
- Algorithm.NthPrime: counts in unbounded naturals and does not model the wrap-around of a 64-bit candidate.
- Algorithm.ModInverse: requires arguments below 2^63, beyond which signed words overflow, and leaves out the arguments 1 and 0, on which the original divides by zero.
- Algorithm.GcdExtended: requires arguments below 2^63 for the same reason.
- Algorithm.ModExponential: says nothing for moduli above 2^64, for which products of 128-bit words wrap.
- Camellia.Cipher128.Decrypts: requires the fill to be no longer than the text, because the original resizes by an unsigned difference.
- Hybrid.Decrypt: requires the data padding to be no longer than the data, for the same reason, and a private key.
- Hybrid.AlwaysSealsIff: gives no exact condition in terms of the moduli for n1 above n2, where it depends on the single blocks; no constructor yields such a pair.
- Framing.RealSizeAlwaysMatches: requires a filler no longer than the body, for the same reason.
- RectPack.Context.PackRectangle: sizes are unbounded integers, so it does not model 32-bit overflow for targets or rectangles near the largest int; width and height of a rectangle are positive, as the packer's caller ensures.
- PackRects.PackAll: requires non-negative sizes, as the packer does not handle others.
- PackRects.PackRects: requires non-negative sizes, as the packer does not handle others.
- RectPack.Context.InitTarget: nodes are a sequence of separate objects, where the original takes an array of them.
- Framing.Writer: does not model writes that fail or are dropped, because the socket here is a sequence of bytes that takes everything.
- Framing.Reader: does not model read errors other than the end of the stream, for the same reason.
- Presence.EveryRequestIsAnswered: does not cover the exchange of keys; `get_server_details_handler` in particular returns without a reply when its checks pass (`server/src/server.cpp` lines 363-365).
- Server.Server.OnMessageIn: takes what decrypting and parsing the body gave as an argument, of the kind that the header's type asks for; header types 3 and 6 belong to the exchange of keys.
