# The loader's algorithms, modelled and proved

A Dafny model of the algorithmic parts of a DS card loader and proofs about them, meant to be kept beside the
repository. `dafny verify dfyconfig.toml` covers the whole project.

The code is modelled in its own form: buffers are arrays or sequences in fields that methods rewrite, loops are loops,
and every such method is proved against a specification function or an equation on numbers, about which lemmas then say
what the code is for. All arithmetic is on unbounded integers with the machine's wrap-around written out.

| files | what they model |
|---|---|
| Limbs, Bits, BnMul, Mpi, MpiShift, MpiBinary | multi-precision integers on 32-bit limbs: comparison, signed sums, products, shifts, bytes |
| IntDiv, MpiDiv, MpiMod | two-by-one division in both variants, multi-limb division, residues |
| Congruence, MpiMont, MpiExp, MpiExpSign | Montgomery multiplication, sliding-window exponentiation, and when its result is reduced |
| Handshake, BootWindow | the ARM7/ARM9 boot protocol as an interleaving of single reads and writes of the shared flag, and which schedules boot |
| CheatEngine, CheatNesting, CheatLaws | the cheat-code interpreter as a register machine, which of its conditions nest, and what each code does |
| Bytes, U128, FXy, DsiCtr, NandCrypt | 128-bit numbers as bytes, key scrambling, byte-reversed counter mode and its users |
| DsiCcm, EsContainer | byte-reversed CCM and the ES container |
| AesBoxes, AesBoxLaw, Galois, Aes, AesTables, AesCipher | AES: the cipher of FIPS-197, the round tables, the key schedules, the block operation |
| AesLaws, AesKnownAnswers | its steps byte by byte, and the worked examples of FIPS-197 round by round |
| AesModes | CBC and CFB128 |
| Decompress, Wrappers | the in-place backward LZ decoder and the search that starts it |
| MachineWords, Key1, CardCommands | KEY1, secure-area decryption and encrypted card commands |
| Tonccpy, CardRead | halfword/word copy and fill, and card reads through blocks |

Beside the specification functions stand lemmas that say what they are byte by byte, bit by bit or as numbers, so that two
forms of each have to agree. The block modes are proved for every block function; `AesCipher.AesBlocks` says that AES is
one with an inverse.

## Where the code and its comments differ, and where a property needs a condition

- `cardengine_arm7/source/cheat_engine.s` line 43 says that conditions nest 32 deep. They do not: a condition is pushed
  only while execution is switched on, so the next D0, D1 or D2 ends the skipping whatever lies between
  (`CheatEngine.SkipTo`, `CheatEngine.CloserResumes`). A condition behaves as if it nested exactly when no other condition
  is opened before its next closing code or that code is no D0 (`CheatNesting.NestsExactlyWhen`);
  `CheatNesting.WriteExecuted` is a list in which a write inside a false condition is carried out.
- `bignum.c` line 1691 describes the first table entry as `W[1] ^ (wsize - 1)`; the loop squares `wsize - 1` times, which
  gives the power 2^(wsize - 1), and that is what the window needs (`BignumExp.FillTable`).
- `mbedtls_mpi_mod_int` gives the residue for every number exactly when b <= 2^16 or b divides 2^32, because the shifted
  half-limb remainder loses bits otherwise (`BignumMod.ModIntExactlyWhen`).
- `mbedtls_mpi_exp_mod` returns N itself, not 0, when A has a negative sign, E is odd and N divides the power
  (`BignumExp.ModPowerLaw`): (-3)^1 modulo 3 gives 3 (`BignumExpSign.MinusThreeModThree`). A base of magnitude a is safe
  from this for every exponent exactly when a is prime to some divisor of N above 1 (`BignumExpSign.ReducedExactlyWhen`).
- ARM9 does not wait between its second START and MEMCLR. If ARM7 does not poll there, it waits for START for ever
  (`BootWindow.FairButStuck` is such a schedule); that is the only way a fair run fails to boot, and it can be read off the
  schedule (`BootWindow.BootsIfPolled`, `BootWindow.BootsExactlyWhen`).
- `dsi_es_decrypt` after `dsi_es_encrypt` succeeds exactly for sizes below 2^24; above, it answers -2
  (`EsContainer.RoundTrip`).
- A run of `dsi_nand_crypt` and single-block calls use the same counters exactly while offset + i stays below 2^32
  (`NandCrypt.OffsetsAgreeExactlyBelow`).
- A card read serves each address under the key set of the block it lies in, so it follows the plain address map exactly
  when the switch point romSize is a multiple of 0x200 (or below 0x8000) and no second secure area starts before it;
  otherwise the byte at romSize, read together with the one before, comes under the old key set
  (`CardRead.Reader.BlocksDoNotShow`, `CardRead.Reader.UnevenShows`).
- A stream decodes in place exactly when every token keeps off the bytes still to be read (`Decompress.DecodeStream`).
- A card command gives back its fields exactly while kkkkk is below 2^20 (`CardCommands.OpenedSealed`).

Preconditions that the code forces: the quotient of a division is neither operand, because the signs are read after it
was written (line 1415 of `bignum.c`); the result of `mod_mpi` is not its modulus, whose value is read after the result was
written (lines 1464 to 1468); the base and the modulus of `exp_mod` are allocated, because their limbs are
read, X is neither E nor N, and a filled cache holds R^2 modulo N; Montgomery multiplication has a temporary of 2n + 2
limbs, or one so short that it is refused, and a target of n + 1. Copies between buffers are between separate ranges or
exactly in place. Lengths are natural numbers, as the `size_t` and `unsigned` of the signatures are; a counter-mode run is at
most 0xFFFFFFF0 bytes long, because its loop does not end otherwise (`DsiCtr.RunEndsExactlyWhen`), and a card read ends
within the 32-bit address space.

## Model

| member | source | states |
|---|---|---|
| BnMul.MulAddDouble | bootloader/source/polarssl/bn_mul.h:848-854 | d' + 2^32 * c' = d + s * b + c exactly, for all limbs: nothing is lost in the 64-bit form |
| BnMul.MulAddHalf | bootloader/source/polarssl/bn_mul.h:860-879 | the same exact sum from four 16-bit products, although every partial sum is taken modulo 2^32 |
| Bignum.Used | bootloader/source/polarssl/bignum.c:810-835 | the number of limbs up to the highest non-zero one, and that the value is zero exactly when there is none |
| Bignum.Mpi.Grow | bootloader/source/polarssl/bignum.c:114-138 | a larger buffer with zero limbs on top stands for the same number; a buffer is never made smaller |
| Bignum.Mpi.Copy | bootloader/source/polarssl/bignum.c:180-209 | the copy has the value and sign of the original, a larger buffer is kept, an unallocated source frees the target |
| Bignum.Mpi.Lset | bootloader/source/polarssl/bignum.c:290-303 | any signed limb becomes the value, the buffer is kept and cleared |
| Bignum.Mpi.CmpAbs | bootloader/source/polarssl/bignum.c:810-835 | the result is the sign of the difference of the magnitudes, whatever zero limbs lie on top |
| Bignum.Mpi.CmpMpi | bootloader/source/polarssl/bignum.c:840-868 | the result is the sign of the difference of the signed values; a negative zero equals zero |
| Bignum.Mpi.CmpInt | bootloader/source/polarssl/bignum.c:873-884 | the result is the sign of the difference to a signed limb |
| Bignum.Mpi.CarryUp | bootloader/source/polarssl/bignum.c:926-935 | a carry out of the added limbs is added at its place, growing the buffer only when it leaves the top |
| Bignum.Mpi.AddDigits | bootloader/source/polarssl/bignum.c:908-924 | the limbs of one number are added to another's, or to its own, with the carry out accounted for |
| Bignum.Mpi.AddAbs | bootloader/source/polarssl/bignum.c:889-940 | the magnitude becomes |A| + |B| for every aliasing of the three operands |
| Bignum.Mpi.SubHlp | bootloader/source/polarssl/bignum.c:945-961 | the lowest limbs are subtracted and the borrow dies out inside the buffer when the value can pay for it |
| Bignum.Mpi.SubAbs | bootloader/source/polarssl/bignum.c:966-1004 | the magnitude becomes |A| - |B| for every aliasing, and exactly |A| < |B| is refused |
| Bignum.Mpi.AddMpi | bootloader/source/polarssl/bignum.c:1009-1035 | X becomes A + B as signed numbers for every aliasing of X, A and B |
| Bignum.Mpi.SubMpi | bootloader/source/polarssl/bignum.c:1040-1066 | X becomes A - B as signed numbers for every aliasing of X, A and B |
| Bignum.Mpi.MulHlp | bootloader/source/polarssl/bignum.c:1111-1170 | b times the limbs of a number is added at a limb offset; the carry stays inside the buffer when the sum fits it |
| Bignum.ProductRoom | bootloader/source/polarssl/bignum.c:1197-1198 | each row of the schoolbook product fits the buffer of i + j limbs, so no carry runs past its end |
| Bignum.Mpi.MulRows | bootloader/source/polarssl/bignum.c:1197-1198 | the rows together are the product of the magnitudes |
| Bignum.Mpi.MulMpi | bootloader/source/polarssl/bignum.c:1175-1207 | X becomes A * B as signed numbers for every aliasing of X, A and B |
| Bignum.Mpi.MulInt | bootloader/source/polarssl/bignum.c:1212-1223 | X becomes A times a limb, X and A possibly the same |
| BignumShift.Clz | bootloader/source/polarssl/bignum.c:362-375 | the count of leading zero bits places the limb between two powers of two |
| BignumShift.Bitlen | bootloader/source/polarssl/bignum.c:380-394 | the bit length is the least r with |X| < 2^r |
| BignumShift.ShiftL | bootloader/source/polarssl/bignum.c:717-762 | the magnitude is multiplied by 2^count exactly, for every count |
| BignumShift.ShiftR | bootloader/source/polarssl/bignum.c:767-805 | the magnitude becomes the floor of its quotient by 2^count, zero when everything is shifted out |
| IntDiv.DividesUnique | bootloader/source/polarssl/bignum.c:1229-1319 | two-by-one division leaves no freedom, so the two variants return the same quotient and remainder |
| IntDiv.IntDivDouble | bootloader/source/polarssl/bignum.c:1252-1262 | the double-limb variant returns the quotient and remainder, or all ones when u1 >= d |
| IntDiv.TestDecides | bootloader/source/polarssl/bignum.c:1292-1292 | the correction test fires exactly on guesses above the digit |
| IntDiv.HalfGuess | bootloader/source/polarssl/bignum.c:1289-1289 | with a normalised divisor the first half-limb guess is at most two above the digit |
| IntDiv.TestExact | bootloader/source/polarssl/bignum.c:1292-1310 | no product or sum in the correction test wraps at 2^32 while the guess is at most two above the digit |
| IntDiv.HalfQuotient | bootloader/source/polarssl/bignum.c:1289-1310 | the corrected guess is the half-limb quotient digit |
| IntDiv.IntDivHalf | bootloader/source/polarssl/bignum.c:1263-1317 | Knuth's algorithm D on half limbs returns the same quotient and remainder as the double-limb variant |
| BignumDiv.RejectedIsTooBig | bootloader/source/polarssl/bignum.c:1382-1397 | a quotient guess that the three-by-two test rejects is above the true quotient |
| BignumDiv.AcceptedIsClose | bootloader/source/polarssl/bignum.c:1382-1397 | an accepted guess is at most one above the true quotient, although the divisor is only normalised to bit length 31 modulo 32 |
| BignumDiv.FirstGuessHigh | bootloader/source/polarssl/bignum.c:1374-1380 | the first guess is never below the quotient, so counting down finds it |
| BignumDiv.GuessDigit | bootloader/source/polarssl/bignum.c:1374-1397 | the chosen quotient limb is right or exactly one too big |
| BignumDiv.AddBack | bootloader/source/polarssl/bignum.c:1403-1409 | a single add-back restores a remainder that went negative |
| BignumDiv.SubtractDigit | bootloader/source/polarssl/bignum.c:1372-1410 | one step leaves the remainder of the dividend by the placed divisor, and the digit accounts for the difference |
| BignumDiv.TopDigit | bootloader/source/polarssl/bignum.c:1363-1370 | the top digit is the number of placed divisors taken off, and what is left is below one of them |
| BignumDiv.LowerDigits | bootloader/source/polarssl/bignum.c:1372-1410 | over all digits dividend = quotient * divisor + remainder is kept and the remainder ends below the divisor |
| BignumDiv.DivMpi | bootloader/source/polarssl/bignum.c:1324-1434 | Q is the truncated quotient and R the remainder of A by B for all signed A and B != 0, R aliasing A or B allowed; zero B is refused and nothing is written |
| BignumDiv.DivisionLaw | bootloader/source/polarssl/bignum.c:1324-1434 | truncated quotient and remainder satisfy A = Q * B + R with |R| < |B| and R zero or signed like A |
| BignumMod.ModMpi | bootloader/source/polarssl/bignum.c:1455-1473 | the residue of A modulo B lies in [0, B) and is congruent to A; negative and zero B give their own errors |
| BignumMod.ModInt | bootloader/source/polarssl/bignum.c:1478-1530 | the result is the half-limb fold of the limbs, flipped for a negative A; the error and trivial cases as in the code |
| BignumMod.ModIntExactlyWhen | bootloader/source/polarssl/bignum.c:1507-1518 | the fold is the true residue for every number if and only if b <= 2^16 or b divides 2^32; beyond that a concrete number shows the lost bits |
| BignumMod.ModIntCorrect | bootloader/source/polarssl/bignum.c:1507-1527 | for such b the result agrees with the mathematical residue, negative A included |
| BignumMont.FourBits | bootloader/source/polarssl/bignum.c:1540-1541 | the starting value is an inverse of every odd limb modulo 2^4 |
| BignumMont.Newton | bootloader/source/polarssl/bignum.c:1543-1544 | each Newton step doubles the number of correct bits, wrap-around included |
| BignumMont.MontgInit | bootloader/source/polarssl/bignum.c:1535-1547 | for every odd lowest limb m0 the constant satisfies m0 * mm = -1 modulo 2^32 |
| BignumMont.MontRow | bootloader/source/polarssl/bignum.c:1566-1578 | one row keeps the exact invariant and the partial result stays below B + N |
| BignumMont.DummyCovered | bootloader/source/polarssl/bignum.c:1586-1587 | the dummy subtraction in the else branch never borrows past T |
| BignumMont.MontMul | bootloader/source/polarssl/bignum.c:1552-1590 | A * R is congruent to old A * B modulo N and A ends below N; a T that is too small is refused |
| BignumMont.MontRed | bootloader/source/polarssl/bignum.c:1595-1604 | A * R is congruent to old A modulo N and A ends below N |
| BignumExp.RepProduct | bootloader/source/polarssl/bignum.c:1552-1590 | the Montgomery product of the forms of a^e and a^f is the form of a^(e+f) |
| BignumExp.FillTable | bootloader/source/polarssl/bignum.c:1688-1710 | table entry i is the Montgomery form of a^i for every index the window can take |
| BignumExp.PrefixBit | bootloader/source/polarssl/bignum.c:1721-1733 | each turn of the loop appends one bit of E to the prefix read so far |
| BignumExp.WindowBit | bootloader/source/polarssl/bignum.c:1738-1756 | skipped, squared and windowed bits all keep prefix = accumulated part * 2^pending + pending bits |
| BignumExp.TakeBit | bootloader/source/polarssl/bignum.c:1733-1774 | for each exponent bit the accumulator and the window state keep standing for the prefix of E |
| BignumExp.Windows | bootloader/source/polarssl/bignum.c:1719-1775 | when the bits run out, accumulator and pending window together stand for the whole exponent |
| BignumExp.Remaining | bootloader/source/polarssl/bignum.c:1780-1788 | the pending bits are worked off one at a time and the accumulator ends as the form of a^E |
| BignumExp.EnterForms | bootloader/source/polarssl/bignum.c:1672-1686 | W[1] becomes the form of A and X the form of one, for A reduced or not |
| BignumExp.CachedSquareOfR | bootloader/source/polarssl/bignum.c:1657-1670 | a filled cache is used, an empty one is filled with R^2 modulo N |
| BignumExp.ExpMod | bootloader/source/polarssl/bignum.c:1609-1812 | X becomes the modular power for every odd N > 0, E >= 0, signed A and window size; X may alias A; bad inputs leave X alone |
| BignumExp.ModPowerLaw | bootloader/source/polarssl/bignum.c:1793-1799 | the result is congruent to A^E, lies in [0, N], and is below N except exactly when a negative sign, an odd E and a power divisible by N meet, where the code returns N |
| BignumExpSign.ReducedExactlyWhen | bootloader/source/polarssl/bignum.c:1793-1799 | for a negative base of magnitude a the result is below N for every exponent if and only if a has an inverse modulo some divisor of N above 1 |
| BignumExpSign.UnitReduced | bootloader/source/polarssl/bignum.c:1793-1799 | a base prime to N > 1 gives a result below N with every sign and exponent |
| BignumExpSign.PowerOrUnit | bootloader/source/polarssl/bignum.c:1793-1799 | a power of a is a multiple of N, or a is a unit modulo a divisor of N above 1: Euclid's algorithm decides |
| BignumExpSign.MinusThreeModThree | bootloader/source/polarssl/bignum.c:1609-1812 | exponentiation of -3 to the power 1 modulo 3 returns 3 |
| BignumBinary.ReadBinary | bootloader/source/polarssl/bignum.c:674-692 | X becomes the big-endian number, leading zero bytes and the empty buffer included |
| BignumBinary.WriteBinary | bootloader/source/polarssl/bignum.c:697-712 | the buffer holds |X| big-endian, and it is refused and untouched exactly when |X| >= 256^length |
| BignumBinary.ReadThenWrite | bootloader/source/polarssl/bignum.c:674-712 | reading bytes and writing them to a buffer of the same length gives the same bytes |
| BignumBinary.ValueBytes | bootloader/source/polarssl/bignum.c:686-687 | byte j of the number is byte j mod 4 of limb j / 4 |
| Handshake.Always | bootloader/source/main.arm7.c:1034-1038 | the invariant of flag, program counters, requests and settings holds after every interleaving |
| Handshake.ServedOnce | bootloader/source/main.arm7.c:147-156 | in every interleaving the requests served are a prefix of those made, which are a prefix of the program's script, with at most one pending |
| Handshake.NothingOverwritten | bootloader/source/main.arm9.c:376-425 | a pending request is never overwritten: the only write to the flag is ARM9's reply to it |
| Handshake.ClearedAfterMbk | bootloader/source/main.arm7.c:1037-1047 | ARM7 clears memory only after ARM9 has run initMBKARM9 |
| Handshake.FinalSettings | bootloader/source/main.arm9.c:382-428 | after any schedule every acknowledged SETMBK and SETSCFG, and the boot once BOOTBIN is acknowledged, have been carried out on the settings ARM7 wrote last; SETMBK never where it is not asked for |
| Handshake.ClearedExactlyWhen | bootloader/source/main.arm7.c:1037-1047 | after any schedule memory is cleared exactly when ARM7 has gone past its clearing step |
| Handshake.JumpsLast | bootloader/source/main.arm9.c:375-442 | a core that jumps does so after the whole script was acknowledged, with every action taken on the final settings, SETMBK exactly when it is asked for, initMBKARM9 run and memory cleared |
| Handshake.HowStartIsMissed | bootloader/source/main.arm9.c:284-305 | START is missed only by ARM9 writing MEMCLR while ARM7 still waits for START |
| Handshake.OnePollIsEnough | bootloader/source/main.arm7.c:1037-1038 | one poll by ARM7 between the second START and MEMCLR gets it past the wait |
| Handshake.MissedForever | bootloader/source/main.arm7.c:1037-1038 | a missed START is never made good |
| Handshake.BootsUnlessMissed | bootloader/source/main.arm7.c:1034-1038 | every fair run reaches both jumps or ends up with ARM7 waiting for a START that is gone; nothing else can stop it |
| BootWindow.BootsIfPolled | bootloader/source/main.arm9.c:286-305 | a fair run boots if and only if ARM7 takes a step while ARM9 is between its second START and MEMCLR |
| BootWindow.WindowWhen | bootloader/source/main.arm9.c:284-305 | whatever else is scheduled, ARM9 is between the two exactly from the seventh to the ninth turn of the opening Arm9, three of Arm7, five of Arm9 |
| BootWindow.BootsExactlyWhen | bootloader/source/main.arm9.c:284-305 | a fair schedule boots, with every configuration, if and only if it gives ARM7 a turn between the seventh and the ninth turn of the opening |
| BootWindow.FairButStuck | bootloader/source/main.arm9.c:286-305 | a schedule that gives both cores turns for ever and yet never boots |
| CheatEngine.StepKeeps | cardengine_arm7/source/cheat_engine.s:61-86 | every step keeps status 0 or 1, saved status 0 and the fetch on the static parse, and goes down in the measure list end minus loop start, repeats, list end minus code pointer |
| CheatEngine.EveryState | cardengine_arm7/source/cheat_engine.s:40-86 | in every state of every run the status is 0 or 1, the saved status 0 and the fetch on the static parse |
| CheatEngine.FetchesInside | cardengine_arm7/source/cheat_engine.s:61-64 | every fetch lies inside the list at a multiple of eight |
| CheatEngine.Terminates | cardengine_arm7/source/cheat_engine.s:61-86 | every run over a well-formed list reaches the end code after finitely many codes |
| CheatEngine.StraightStep | cardengine_arm7/source/cheat_engine.s:236-258 | every code that is no loop code moves the pointer to the same next place, executed or skipped, inline data included |
| CheatEngine.SkipTo | cardengine_arm7/source/cheat_engine.s:74-86 | after a false condition nothing but the code pointer changes up to the next D0, D1, D2 or end of the parse, whatever conditions lie between |
| CheatEngine.CloserResumes | cardengine_arm7/source/cheat_engine.s:274-311 | D0, D1 and D2 all switch execution on again, so conditions do not nest |
| CheatNesting.NestsExactlyWhen | cardengine_arm7/source/cheat_engine.s:274-311 | a condition is left at the closing code that nesting would choose if and only if no other condition is opened before its next D0, D1, D2 or end, or that code is no D0 |
| CheatNesting.SkipsAsNested | cardengine_arm7/source/cheat_engine.s:74-86 | in the run execution is off up to the next closing code and on behind it, and that is the matching one exactly under this condition on the list |
| CheatNesting.UnnestedCloser | cardengine_arm7/source/cheat_engine.s:274-311 | a list whose outer condition is left at the D0 of the inner one, not at its own |
| CheatNesting.WriteExecuted | cardengine_arm7/source/cheat_engine.s:74-118 | in that list the write between the two D0 codes is executed although the outer condition is false |
| CheatLaws.WordCondition | cardengine_arm7/source/cheat_engine.s:108-146 | codes 3 to 6 leave execution on exactly when the argument is above, below, equal to or different from the word at the address, the lowest bit adding the offset and the offset standing for 0; nothing else changes |
| CheatLaws.HalfCondition | cardengine_arm7/source/cheat_engine.s:153-194 | codes 7 to A do the same with the argument's lower half and the halfword without the bits that the upper half sets, each bit named |
| CheatLaws.CounterCondition | cardengine_arm7/source/cheat_engine.s:261-268 | code C5 leaves execution on exactly when each of the sixteen counter bits under the mask is the bit of the argument's upper half |
| CheatLaws.RawWrites | cardengine_arm7/source/cheat_engine.s:96-102 | codes 0 to 2 change exactly the 4, 2 or 1 bytes from the address plus the offset on, to those of the argument |
| CheatLaws.DataWrites | cardengine_arm7/source/cheat_engine.s:328-342 | codes D6 to D8 do so with the data register and move the offset behind what they wrote |
| CheatLaws.OffsetWrite | cardengine_arm7/source/cheat_engine.s:226-228 | the codes behind C5 write the four bytes of the offset to the argument's address |
| CheatLaws.Loads | cardengine_arm7/source/cheat_engine.s:199-202 | codes B, D9, DA and DB load the number in the 4, 4, 2 or 1 bytes at the address plus the offset, addresses wrapping around |
| CheatLaws.Settings | cardengine_arm7/source/cheat_engine.s:208-234 | codes C0, C3, C4, D3, D5 and those from DC on set the registers they name and nothing else |
| CheatLaws.DataArithmetic | cardengine_arm7/source/cheat_engine.s:363-401 | D4 adds or multiplies modulo 2^32 and does nothing behind selector 8 |
| CheatLaws.DataBits | cardengine_arm7/source/cheat_engine.s:363-376 | D4 with selectors 1 to 3 is or, and, exclusive or, for each binary digit |
| CheatLaws.DataShifts | cardengine_arm7/source/cheat_engine.s:378-391 | D4 with selectors 4 to 7: digit j of the result is the digit that far away, 0, around the word, or the sign, for every amount |
| CheatLaws.Closers | cardengine_arm7/source/cheat_engine.s:274-311 | D0 drops a status digit; D1 and D2 go back while repeats are left; then D2 clears data register, status and offset and D1 none of them |
| CheatLaws.RemoteCall | cardengine_arm7/source/cheat_engine.s:236-244 | C1 calls the function at the argument and goes on at the next multiple of eight behind its inline bytes |
| CheatLaws.InlineCall | cardengine_arm7/source/cheat_engine.s:246-254 | C2 calls the function that follows in the list and goes on at the next multiple of eight behind it |
| CheatLaws.Patch | cardengine_arm7/source/cheat_engine.s:403-432 | code E changes exactly as many bytes as it says, to the bytes that follow it in the list |
| CheatLaws.MemoryCopy | cardengine_arm7/source/cheat_engine.s:439-458 | code F on separate ranges: byte i of the target is byte i of the source, no other byte changes, and a negative count copies nothing |
| CheatLaws.GreaterWrites | cardengine_arm7/source/cheat_engine.s:108-142 | in every memory the list 30000100 5, 200 7, D0, CF writes 7 to 0x200 exactly when the word at 0x100 is below 5 |
| CheatEngine.LoopStep | cardengine_arm7/source/cheat_engine.s:230-234 | C0 records status, count and start while switched on and does nothing while switched off |
| CheatEngine.CloseStep | cardengine_arm7/source/cheat_engine.s:290-311 | D1 and D2 go back to the loop start while repeats are left and fall through otherwise |
| CheatEngine.LoopTheorem | cardengine_arm7/source/cheat_engine.s:230-311 | a loop C0 n without inner C0, D1 or D2 makes exactly max(n, 0) + 1 passes, each fetching every code of its body once |
| CheatEngine.CopyWord | cardengine_arm7/source/cheat_engine.s:414-420 | a word copied from the list is its four bytes |
| CheatEngine.Engine.CopyData | cardengine_arm7/source/cheat_engine.s:414-428 | the word loop and the byte loop together copy exactly the inline bytes |
| CheatEngine.Engine.MemCopy | cardengine_arm7/source/cheat_engine.s:439-458 | code F copies words and then bytes within memory as the step function says |
| CheatEngine.Engine.Data | cardengine_arm7/source/cheat_engine.s:313-401 | the D3 to DF codes change offset, data register and memory as the step function says |
| CheatEngine.Engine.Conditional | cardengine_arm7/source/cheat_engine.s:108-194 | the comparison codes push the outcome of the comparison they name |
| CheatEngine.Engine.Cycle | cardengine_arm7/source/cheat_engine.s:61-86 | one turn of the main loop, by branches as in the assembler, is one step of the specification |
| CheatEngine.Engine.Run | cardengine_arm7/source/cheat_engine.s:61-86 | the main loop ends, in the final state of the specification |
| U128.Add | bootloader/source/u128_math.c:67-76 | the byte-wise sum is the sum modulo 2^128, for two numbers or one number twice |
| U128.Sub | bootloader/source/u128_math.c:89-98 | the byte-wise difference is the difference modulo 2^128 |
| U128.Add32 | bootloader/source/u128_math.c:79-86 | a 32-bit number is added modulo 2^128 |
| U128.LrotInPlace | bootloader/source/u128_math.c:7-20 | the rotated bytes are those of the rotation function, for every shift |
| U128.RrotInPlace | bootloader/source/u128_math.c:23-36 | the rotated bytes are those of the rotation function, for every shift |
| U128.RotationMovesBits | bootloader/source/u128_math.c:7-20 | rotation by n moves binary digit j to j + n modulo 128, for every n |
| U128.RotationUndone | bootloader/source/u128_math.c:23-36 | the right rotation undoes the left one for every shift |
| U128.Swap | bootloader/source/u128_math.c:100-106 | the output is the input reversed |
| U128.XorWith | bootloader/source/u128_math.c:39-45 | each byte becomes the exclusive or of the two |
| FXy.Scramble | bootloader/source/gm9i/f_xy.c:30-41 | the key is the sum of the exclusive or of the keys and the constant modulo 2^128, rotated by 42; the output may be one of the inputs |
| FXy.Unscramble | bootloader/source/gm9i/f_xy.c:44-49 | the value computed is the one that the inverse function names |
| FXy.Unscrambled | bootloader/source/gm9i/f_xy.c:44-49 | F_XY_reverse gives back the exclusive or of the two keys, for all keys |
| FXy.NormalBits | bootloader/source/gm9i/f_xy.c:18-41 | binary digit j of the key is digit j - 42 modulo 128 of the sum of the exclusive or and 0xFFFEFB4E295902582A680F5F1A4F3E79 modulo 2^128 |
| FXy.ScrambleInline | bootloader/source/main.arm7.c:1103-1105 | the derivation written inline in the loader, and in generate_key, leaves the same key as F_XY |
| DsiCtr.DsiContext.CountOn | bootloader/source/twltool/dsi.c:17-48 | the word-wise big-endian increment is addition modulo 2^128 |
| DsiCtr.CountersAgree | bootloader/source/twltool/dsi.c:17-57 | a little-endian counter counted up and then reversed is the reversed one counted up: the two implementations agree |
| DsiCtr.AddCtrAdd | bootloader/source/twltool/dsi.c:17-48 | counting up twice is counting up by the sum |
| DsiCtr.DsiContext.SetCtr | bootloader/source/twltool/dsi.c:50-57 | the counter is stored reversed |
| DsiCtr.DsiContext.SetKey | bootloader/source/twltool/dsi.c:8-15 | the key is reversed before the key schedule |
| DsiCtr.DsiContext.CryptBlock | bootloader/source/twltool/dsi.c:79-104 | the block is exclusive-ored with the reversed key stream, or is it without an input; the rest of the output is untouched and the counter goes up by one |
| DsiCtr.DsiContext.Crypt | bootloader/source/twltool/dsi.c:67-77 | a run is counter mode over the blocks, in place or not, and advances the counter by their number |
| DsiCtr.RunEndsExactlyWhen | bootloader/source/twltool/dsi.c:67-77 | the byte loop ends if and only if the length is at most 0xFFFFFFF0; above, its 32-bit counter wraps around below the length for ever |
| DsiCtr.CtrUndo | bootloader/source/twltool/dsi.c:67-77 | counter mode from the same counter is its own inverse, for every text |
| DsiCtr.CtrAppend | bootloader/source/twltool/dsi.c:67-77 | a run over whole blocks followed by another is one longer run |
| DsiCtr.CtrByte | bootloader/source/twltool/dsi.c:67-101 | byte j of the output is byte j of the input with byte 15 - j mod 16 of the encrypted counter plus j / 16 exclusive-ored in |
| NandCrypt.Nand.Crypt1 | bootloader/source/gm9i/crypto.c:80-87 | one block at counter iv + offset |
| NandCrypt.Nand.Crypt | bootloader/source/gm9i/crypto.c:89-102 | count blocks equal one counter-mode run from counter iv + offset, in place or not |
| NandCrypt.RunIsSingleBlocks | bootloader/source/gm9i/crypto.c:80-102 | block i of a run from an offset is the single block at offset + i |
| NandCrypt.OffsetsAgreeExactlyBelow | bootloader/source/gm9i/crypto.c:80-102 | a single-block call with the 32-bit offset uses the counter of the run if and only if offset + i < 2^32 |
| NandCrypt.Boot2.SetCtr | bootloader/source/gm9i/crypto.c:104-113 | the counter's words are the size, its negative, its complement and zero |
| NandCrypt.Boot2.Crypt | bootloader/source/gm9i/crypto.c:115-125 | the run starts at the kept counter and leaves it advanced by the number of blocks |
| NandCrypt.CryptTwice | bootloader/source/gm9i/crypto.c:115-125 | two calls one behind the other, in place or not, leave buffer and kept counter as one call over both parts |
| NandCrypt.DecryptModcryptArea | bootloader/source/main.arm7.c:780-792 | the whole blocks of the area are one counter-mode run in place; a partial block at the end is left alone |
| DsiCcm.InitCcm | bootloader/source/twltool/dsi.c:107-149 | the chain starts from the encrypted first block and S0 is the reversed encrypted counter block, whichever block has their bytes; the counter is left behind the one used for S0 |
| DsiCcm.FirstBlock | bootloader/source/twltool/dsi.c:120-135 | the first block is the flags, the nonce backwards and, big-endian in three bytes, the least multiple of 16 not below the size, modulo 2^24 |
| DsiCcm.FirstCounter | bootloader/source/twltool/dsi.c:141-146 | the first counter block is 2, the nonce backwards and three zeros |
| DsiCcm.ChainMeans | bootloader/source/twltool/dsi.c:151-161 | the chained code is the answer to the last of the blocks that go into the cipher, each the last answer with the next 16 bytes, last to first and zero behind the end, exclusive-ored in |
| DsiCcm.TagMeans | bootloader/source/twltool/dsi.c:163-167 | byte i of the tag is byte 15 - i of that answer exclusive-ored with byte i of S0 |
| DsiCcm.FlagsInRange | bootloader/source/twltool/dsi.c:120-131 | for tag lengths from 2 to 16 the flag byte is that of CCM: nothing wraps and the associated-data bit is above the length |
| DsiCcm.EncryptBlock | bootloader/source/twltool/dsi.c:151-171 | the plain block is absorbed and then encrypted; tag and output are optional |
| DsiCcm.DecryptBlock | bootloader/source/twltool/dsi.c:174-204 | the block is decrypted and what comes out is absorbed; without an output the input is absorbed |
| DsiCcm.StreamPadding | bootloader/source/twltool/dsi.c:228-235 | key stream behind the encrypted rest decrypts to zeros, so both sides absorb the same padded block |
| DsiCcm.EncryptCcm | bootloader/source/twltool/dsi.c:240-264 | the output is counter-mode text and the tag, when wanted, has the bytes that the chain over the plain text gives, for every size, in place or not; the null pointers of the empty message are allowed |
| DsiCcm.DecryptCcm | bootloader/source/twltool/dsi.c:207-237 | the output is counter-mode text and the tag, when wanted, has the bytes that the chain over what comes out gives, for every size, in place or not; the counter is put back before the last block |
| EsContainer.EsContext.Encrypt | bootloader/source/twltool/dsi.c:337-379 | buffer and meta block are the sealed text: every byte of tag, nonce, masked size and text as the counter blocks and the chain make it, and no other byte of the buffer changes |
| EsContainer.ContainerIsSealed | bootloader/source/twltool/dsi.c:337-379 | the tag from first block and chain, the nonce at byte 17, magic number and size under the key stream of the nonce between zeros, and the text under the counters behind the first, byte by byte |
| EsContainer.EsContext.Decrypt | bootloader/source/twltool/dsi.c:286-334 | the answer is -1, -2, -3 or 0 by magic, size and tag; on -1 and -2 the buffer is untouched |
| EsContainer.RoundTrip | bootloader/source/twltool/dsi.c:286-379 | for every key, nonce and text, decryption after encryption restores the text, and it answers 0 if and only if the size is below 2^24, otherwise -2 |
| EsContainer.AcceptedExactlyWhen | bootloader/source/twltool/dsi.c:286-334 | decryption answers 0 if and only if the size is below 2^24 and the meta block is the one that encryption makes of the decrypted text |
| EsContainer.WrongSize | bootloader/source/twltool/dsi.c:318-321 | a container opened with another size answers -2 |
| EsContainer.EncryptThenDecrypt | bootloader/source/twltool/dsi.c:286-379 | under a chosen or a drawn nonce the container is that of the nonce, and decryption by any context with the same key answers 0 and restores the buffer in place |
| AesBoxes.BoxesInverse | bootloader/source/polarssl/aes.c:66-230 | each substitution box undoes the other on every byte |
| AesBoxLaw.BoxLaw | bootloader/source/polarssl/aes.c:66-135 | every entry of the forward box is the affine image of the inverse in the field |
| Galois.XtimeLinear | bootloader/source/polarssl/aes.c:357-357 | multiplication by x distributes over exclusive or |
| Galois.TimesTimes | bootloader/source/polarssl/aes.c:411-426 | multiplying by two table polynomials in turn is multiplying by their product |
| Aes.MixColUndone | bootloader/source/polarssl/aes.c:420-436 | InvMixColumns undoes MixColumns on every column |
| Aes.InvMixLinear | bootloader/source/polarssl/aes.c:581-592 | InvMixColumns distributes over AddRoundKey, which the inverse key schedule needs |
| Aes.Meets | bootloader/source/polarssl/aes.c:652-754 | round by round the equivalent inverse cipher stands where encryption stood |
| Aes.DecryptionUndoes | bootloader/source/polarssl/aes.c:652-754 | under any schedule and its inverse schedule, for any number of rounds, decryption undoes encryption |
| AesTables.ForwardTables | bootloader/source/polarssl/aes.c:411-425 | the four forward tables hold the substituted byte times 2, 1, 1, 3 in their rotations |
| AesTables.ReverseTables | bootloader/source/polarssl/aes.c:427-436 | the four reverse tables hold the reverse-substituted byte times E, 9, D, B in their rotations |
| AesTables.ForwardRoundMeans | bootloader/source/polarssl/aes.c:603-624 | a forward round by tables is SubBytes, ShiftRows, MixColumns and AddRoundKey |
| AesTables.ReverseRoundMeans | bootloader/source/polarssl/aes.c:626-647 | a reverse round by tables is InvSubBytes, InvShiftRows, InvMixColumns and AddRoundKey |
| AesTables.LastForwardMeans | bootloader/source/polarssl/aes.c:723-745 | the last forward round is SubBytes, ShiftRows and AddRoundKey |
| AesTables.LastReverseMeans | bootloader/source/polarssl/aes.c:689-711 | the last reverse round is InvSubBytes, InvShiftRows and AddRoundKey |
| AesLaws.ShiftedByte | bootloader/source/polarssl/aes.c:603-624 | the byte in row r and column c of the substituted and shifted state is the box of the one r columns on |
| AesLaws.MixedByte | bootloader/source/polarssl/aes.c:411-425 | row r of a mixed column is 2 b[r] + 3 b[r + 1] + b[r + 2] + b[r + 3] in the field |
| AesLaws.XorIsBits | bootloader/source/polarssl/aes.c:482-492 | exclusive or of numbers below 256 is that of bit vectors |
| AesLaws.ExpandedBytes | bootloader/source/polarssl/aes.c:482-538 | byte j of every key word: the word nk before, with the box of byte j + 1 of the word before and a power of x, the box of byte j, or byte j itself |
| AesCipher.FirstWordMeans | bootloader/source/polarssl/aes.c:482-486 | the first word of a key group is SubWord(RotWord) with the round constant |
| AesCipher.AesContext.SetKeyEnc | bootloader/source/polarssl/aes.c:444-544 | for 128, 192 and 256 bits the buffer holds the key expansion of section 5.2 of FIPS-197, word by word and byte by byte; other sizes are refused |
| AesCipher.MixedWordMeans | bootloader/source/polarssl/aes.c:586-589 | a key word through the box and the reverse tables is InvMixColumns of it |
| AesCipher.AesContext.SetKeyDec | bootloader/source/polarssl/aes.c:549-601 | the buffer holds the encryption schedule backwards with the inner round keys mixed |
| AesCipher.AesContext.CryptEcb | bootloader/source/polarssl/aes.c:652-754 | the block operation by tables is the cipher or the equivalent inverse cipher of FIPS-197, in place or not |
| AesCipher.EncryptThenDecrypt | bootloader/source/polarssl/aes.c:444-754 | for every key of the three sizes and every block, decryption restores the block |
| AesCipher.AesBlocks | bootloader/source/polarssl/aes.c:652-754 | AES under an inverse pair of schedules is a block function with its inverse, as CBC needs |
| AesKnownAnswers.ScheduleA1 | bootloader/source/polarssl/aes.c:476-494 | the expansion of the key of appendix A.1 of FIPS-197 is the printed one, all 44 words |
| AesKnownAnswers.ScheduleA2 | bootloader/source/polarssl/aes.c:495-512 | the expansion of the key of appendix A.2 is the printed one, all 52 words |
| AesKnownAnswers.ScheduleA3 | bootloader/source/polarssl/aes.c:513-538 | the expansion of the key of appendix A.3 is the printed one, all 60 words |
| AesKnownAnswers.RoundsC1 | bootloader/source/polarssl/aes.c:713-745 | the states of appendix C.1 between the ten rounds and the block at the end are the printed ones |
| AesKnownAnswers.RoundsC2 | bootloader/source/polarssl/aes.c:713-745 | the same for the twelve rounds of appendix C.2 |
| AesKnownAnswers.RoundsC3 | bootloader/source/polarssl/aes.c:713-745 | the same for the fourteen rounds of appendix C.3 |
| AesKnownAnswers.EncryptExample | bootloader/source/polarssl/aes.c:444-754 | key set-up and block operation, on the key 00 01 02 ... of any size and the block 00 11 22 ... ff, leave the ciphertexts of appendix C in the buffer |
| AesModes.CryptCbc | bootloader/source/polarssl/aes.c:759-818 | output and vector are those of CBC, in place or not; other lengths than multiples of 16 are refused and nothing is written |
| AesModes.CbcUndo | bootloader/source/polarssl/aes.c:784-815 | CBC decryption from the same vector gives the text back |
| AesModes.CbcEncBlock | bootloader/source/polarssl/aes.c:803-815 | block i of the output is the cipher of the block that is, byte by byte, the text exclusive-ored with the block before |
| AesModes.CbcDecByte | bootloader/source/polarssl/aes.c:784-800 | each byte of the output is the deciphered block's byte exclusive-ored with that of the block before |
| AesModes.CbcEncCallsJoin | bootloader/source/polarssl/aes.c:803-815 | any sequence of encrypting calls gives the bytes and vector of one call |
| AesModes.CbcDecCallsJoin | bootloader/source/polarssl/aes.c:784-800 | any sequence of decrypting calls gives the bytes and vector of one call |
| AesModes.CbcRoundTrip | bootloader/source/polarssl/aes.c:759-818 | a message encrypted by any sequence of calls and decrypted by any other comes back, and both sides end with the same vector |
| AesModes.CryptCfb128 | bootloader/source/polarssl/aes.c:823-863 | output, vector and offset are those of CFB128, for every length and starting offset, in place or not |
| AesModes.CfbUndo | bootloader/source/polarssl/aes.c:833-858 | CFB128 decryption from the same vector and offset gives the text back |
| AesModes.CfbIsStandard | bootloader/source/polarssl/aes.c:833-858 | started at offset zero the byte-wise form is the block-wise mode of the standard |
| AesModes.CfbBlocksByte | bootloader/source/polarssl/aes.c:847-858 | each byte of that is the text exclusive-ored with a byte of the encrypted block before |
| AesModes.CfbEncCallsJoin | bootloader/source/polarssl/aes.c:847-858 | any sequence of encrypting calls of any lengths gives the bytes and state of one call |
| AesModes.CfbDecCallsJoin | bootloader/source/polarssl/aes.c:833-845 | any sequence of decrypting calls of any lengths gives the bytes and state of one call |
| AesModes.CfbRoundTrip | bootloader/source/polarssl/aes.c:823-863 | a message encrypted by any sequence of calls and decrypted by any other comes back, and both sides end with the same vector and offset |
| Decompress.CopyRepeats | bootloader/source/decompress.c:117-122 | a reference repeats the bytes off + 1 behind, also where it overlaps the bytes it writes |
| Decompress.DecodeGrows | bootloader/source/decompress.c:100-129 | the text only grows in front, the cursor only goes down and the write cursor ends at or above it |
| Decompress.Reference | bootloader/source/decompress.c:111-122 | the copy loop in place puts hi / 16 + 3 bytes in front of the text, each repeating the one 256 * (hi mod 16) + lo + 3 places behind it |
| Decompress.Group | bootloader/source/decompress.c:101-128 | up to eight flags in place follow the frozen decoder |
| Decompress.Run | bootloader/source/decompress.c:100-130 | whenever the frozen decoder meets no overrun, the loop ends with its text in place and every other byte unchanged |
| Decompress.FirstMarkMeans | bootloader/source/decompress.c:77-86 | the search finds a mark exactly when a word of the binary starts one, and then the lowest |
| Decompress.MarkBytes | bootloader/source/decompress.c:77-79 | a mark is the eight bytes 21 06 C0 DE DE C0 06 21 |
| Decompress.FooterBytes | bootloader/source/decompress.c:93-98 | end, start and stop are 32, 8 and 24 bits of the eight bytes below the address, byte by byte |
| Decompress.Decompressor.Search | bootloader/source/decompress.c:77-86 | the word two below the mark is remembered and cleared, and nothing else changes |
| Decompress.Decompressor.DecompressBinary | bootloader/source/decompress.c:68-131 | without a mark, or with a zero word at it, 0 and memory as it was; else the word is cleared, the footer at it gives end, start and stop, memory holds the decoded text and the result is the new length |
| Decompress.MarkStep | bootloader/source/decompress.c:101-124 | the flags are read from the highest bit down |
| Decompress.MarkNumber | bootloader/source/decompress.c:101-109 | bit 7 - i of a flag byte is set exactly when token i is a reference |
| Decompress.Encoded | bootloader/source/decompress.c:111-122 | a reference of any distance from 3 to 4098 and length from 3 to 18 reads back from its two bytes |
| Decompress.DecodeStream | bootloader/source/decompress.c:100-129 | a stream laid out from a token list decodes if and only if every token reaches back into what is there and keeps off the bytes still unread; then it gives exactly what the tokens say and ends at its own end |
| Decompress.RunStream | bootloader/source/decompress.c:100-130 | on a stream whose tokens fit, the loop in place leaves below end exactly the bytes that the tokens spell by distance and length, and every other byte as it was |
| Decompress.ApplySpelled | bootloader/source/decompress.c:100-130 | each plain token is its byte and each byte of a reference repeats the one that far behind it, for every token list that reaches back into what is there |
| Key1.DownUp | bootloader/source/encryption.c:31-69 | crypt_64bit_down undoes crypt_64bit_up for every key buffer |
| Key1.UpDown | bootloader/source/encryption.c:31-69 | crypt_64bit_up undoes crypt_64bit_down for every key buffer |
| Key1.RoundIs | bootloader/source/encryption.c:38-44 | a round keys a word, looks its four bytes up and joins the entries by sum, exclusive or and sum modulo 2^32, then adds that to the other word |
| Key1.Directions | bootloader/source/encryption.c:31-69 | up is sixteen such rounds with the round keys 0 to 15 and ends with 16 and 17; down is the same with 17 to 2 and ends with 1 and 0 |
| Key1.Crypto.CryptUp | bootloader/source/encryption.c:31-49 | the sixteen rounds in place are the function, and only the two words change |
| Key1.Crypto.CryptDown | bootloader/source/encryption.c:51-69 | the sixteen rounds in place are the function, and only the two words change |
| Key1.SwappedBytes | bootloader/source/encryption.c:71-81 | the swapped word has the same four bytes in the opposite order |
| Key1.Crypto.ApplyKeycode | bootloader/source/encryption.c:83-100 | key code and key buffer become those of the pure key application, the buffer refilled with itself as it changes |
| Key1.Applied | bootloader/source/encryption.c:83-100 | the code's pairs are encrypted, upper one first; byte-reversed words of it are added to the eighteen round keys; then each pair of the buffer is the last pair encrypted once more, with the buffer so far |
| Key1.Crypto.InitKeycode | bootloader/source/encryption.c:102-127 | the state left is a function of the arguments and tables alone, whatever the state before |
| Key1.Levels | bootloader/source/encryption.c:115-127 | levels 0, 1, 2 and 3 or more apply the code so many times, with the code shifted back before the third |
| CardCommands.AreaUndone | bootloader/source/read_card.c:77-87 | decryption undoes the two-level encryption and the reverse, and nothing beyond the first 0x800 bytes changes |
| CardCommands.AreaPairs | bootloader/source/read_card.c:77-87 | the first pair goes down through both levels, the other 255 through the second only |
| CardCommands.DecryptSecureArea | bootloader/source/read_card.c:77-87 | the area becomes the pure decryption under the two key levels |
| CardCommands.ParsePacked | bootloader/source/read_card.c:138-145 | the packed fields are read back if and only if kkkkk fits in 20 bits |
| CardCommands.PackedNumber | bootloader/source/read_card.c:138-145 | the eight bytes are the number kkkkk + 2^20 jjj + 2^32 iii + 2^44 block + 2^56 command |
| CardCommands.SealedWords | bootloader/source/read_card.c:147-147 | the eight bytes are encrypted as two little-endian words, the lower one first |
| CardCommands.OpenedSealed | bootloader/source/read_card.c:122-150 | decrypting and unpacking an encrypted command gives its fields if and only if kkkkk is below 2^20 |
| CardCommands.Card.CreateEncryptedCommand | bootloader/source/read_card.c:122-150 | the eight bytes are the encrypted packing of the fields the command selects, and kkkkk goes up by one |
| CardCommands.RunIsConsecutive | bootloader/source/read_card.c:122-150 | over a run below 2^20 the card sees each command with consecutive kkkkk: 0x40 with mmm, nnn and llll, 0x20 with iii, jjj and its own block, every other with iii, jjj and llll |
| Tonccpy.Copy | common/source/tonccpy/tonccpy.c:16-75 | for every alignment and size the bytes copied are the source's and no other byte changes; a null pointer copies nothing |
| Tonccpy.DuffCopy | common/source/tonccpy/tonccpy.c:29-40 | the unrolled loop copies exactly the whole words |
| Tonccpy.FillPattern | common/source/tonccpy/tonccpy.c:89-132 | for every alignment and size each byte becomes the byte of the pattern at its place in a word and no other byte changes |
| Tonccpy.Fill | common/source/tonccpy/tonccpy.c:89-132 | with the byte in all four places it is a plain fill |
| Tonccpy.MergePart | common/source/tonccpy/tonccpy.c:101-104 | (word & ~mask) | (fill & mask) with a shifted mask of the bytes lo to hi takes exactly those bytes from the pattern |
| Tonccpy.MergeHead | common/source/tonccpy/tonccpy.c:107-108 | (word & mask) | (fill & ~mask) keeps exactly the bytes below the head |
| Tonccpy.MaskedBytes | common/source/tonccpy/tonccpy.c:98-131 | storing such a word fills only the bytes under the mask |
| MachineWords.MaskedWord | common/source/tonccpy/tonccpy.c:103-130 | under any mask of whole bytes the two ands and the or select byte by byte |
| CardRead.Reader.Fetch | bootloader/source/read_card.c:743-768 | up to the end of the card's block the bytes are those of the region of the block's start |
| CardRead.Reader.ReadBlock | bootloader/source/read_card.c:733-769 | one block from any address, with the switch of key set it brings |
| CardRead.Reader.ReadDirect | bootloader/source/read_card.c:771-786 | for every address and size the destination gets the bytes of the flat map; outside the blocks' extent, the scratch block and the second secure area nothing changes |
| CardRead.Reader.BlocksDoNotShow | bootloader/source/read_card.c:733-786 | every address is served as in the address map, whatever the start of the read, if and only if the switch point is a block boundary or below the card's data and no second secure area lies before it |
| CardRead.Reader.UnevenShows | bootloader/source/read_card.c:738-741 | with an uneven switch point romSize, the byte at romSize comes under the old key set in a read from romSize - 1, although the map has it under the new one |
| CardRead.Reader.SidesAgreeExactlyWhen | bootloader/source/read_card.c:771-786 | an address is on the same side of a limit as its block, for every read, if and only if the limit is a multiple of 0x200 |
| CardRead.Reader.SmoothRead | bootloader/source/read_card.c:771-786 | on such a card a read of any address and size gives the bytes of the plain address map |

## Left out

- Bignum.Mpi.Grow: allocation always succeeds and there is no limb limit, so the out-of-memory returns of the callers
  are not modelled.
- Bignum.Mpi.MulHlp: one limb per turn; the sixteen- and eightfold unrolling and the assembler variants are not modelled.
- BignumExp.ExpMod: requires an allocated base, because the code reads the limbs of an unallocated one through a null
  pointer.
- CheatEngine.StepKeeps: the list is not modified by its own run, functions called by C1 and C2 change memory only, inline
  sizes are below 2^31, and word accesses at unaligned addresses are taken byte by byte, without the processor's rotation.
- Decompress.Run: nothing is said about a run in which a write lands below the read cursor or an access leaves memory.
- Decompress.Decompressor.DecompressBinary: the memory offset is 0, as in the only call; the stream must decode without
  overrun, and the words around the binary that the search may read lie in memory.
- Handshake.Always: display output, vertical-blank waits, MBK and SCFG values and everything else that does not touch the
  flag or the shared settings are single opaque steps.
- AesBoxLaw.BoxLaw: the boxes are tables; their generation from logarithm tables is not modelled.
- CheatLaws.MemoryCopy: for ranges that overlap only the word-and-byte loop itself is stated (`CheatEngine.Engine.MemCopy`).
- DsiCtr.DsiContext.Crypt: lengths above 0xFFFFFFF0, for which the loop never ends, are excluded.
- DsiCcm.EncryptCcm: null input or output for a message that is not empty, where the code copies through the null pointer,
  is not modelled.
- DsiCcm.DecryptCcm: as for DsiCcm.EncryptCcm.
- EsContainer.EsContext.Encrypt: the random nonce is a parameter.
- Key1.Crypto.InitKeycode: the three built-in key tables are arbitrary tables of 0x412 words.
- CardRead.Reader.ReadDirect: reads that run over the end of the 32-bit address space are excluded.
- CardRead.Reader.ReadBlock: card transfers and the switch of the key set are functions of the address and of whether the
  switch has happened; the bytes of a transfer behind the end of the card's block may be anything.
- generate_key and dsi_crypt_init beyond the scrambling they share with F_XY: the console-specific words are plain
  assignments.
- The thin wrappers of the multi-precision integers (add_int, sub_int, div_int, swap, shrink, conditional assignment, single bits)
  and the code that is compiled out (string input, gcd, inverse, primality, self-tests).
- Timing behaviour, the PadLock path, hardware registers, DMA, delays and the card bus.
- The menu, file access, settings, signature search, hooking and patching.
