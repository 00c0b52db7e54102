# evm-sail host and guest runtime: verified models

Dafny models of four parts of evm-sail, with proofs of what each part promises.

**Multi-limb arithmetic.** `Knuth`, `U256` and `RustU256` are the two providers of the 256-bit contract: Knuth's
Algorithm D (The Art of Computer Programming, volume 2, section 4.3.1) over 64-bit limbs in C, and bit-serial
restoring division in Rust. `Providers` proves that they return the same limbs. `Magnitude` to `IntPower`,
`TwosComplement` and `Decimal` are the sign-magnitude integer of at most 768 bits: every operation is exact or traps,
and traps exactly when the result does not fit. `WideDivision` is the 128-bit division of the guest.

**The frame journal.** `Journal` is the theory of an undo stream with checkpoint and commit markers, for any state and
any undo function: `Snapshots` computes the states at the open checkpoints, and the lemmas say what recording,
checkpoint, commit and revert do to them. `HostModel`, `HostOps`, `HostLogs` and `HostListings` instantiate it for the
host state, `HostReference` is a machine without journal, generations and epochs that saves whole states,
`HostRefinement` proves that every run of the host behaves as on that machine, and `HostContract` is the mutable class.
`WarmVectors` is the C side of the warm sets and its agreement with the Python side.

**The code table.** `Jumpdest`, `ProbingTable` and `CodeDb`: jump-destination analysis, linear probing, and the
content-addressed table over append-only arenas.

**The guest runtime and the access list.** `Heapsort`, `Blocks` and `Heap` are qsort and the first-fit allocator;
`AccessRecording`, `AccessEvents` and `AccessFacts` are the block-access event stream of EIP-7928. `HashBytes`
converts and compares digests.

## How to read the model

- Code that changes arrays or fields is a method over arrays or a class. Its `ensures` states the result outright, or
  equates the new state with a function whose properties are lemmas.
- A trap, an abort or a RuntimeError is `ok == false`, `None`, or `0` for a pointer. The contracts say exactly when.
- Unsigned wrap-around is explicit (`Low`, `Wide`, `AlignUp`). Where the source joins bits with a bitwise or, the
  bits are disjoint and the model adds them; `OrBit` in `BitSerial` is the general case of one bit.
- Addresses, words and digests are numbers. The hash function of the code table is any function, and the digest of a
  code is an argument of the insertion.
- Observable state leaves out keys that hold their default value (`Observed`), `storage_next_generation`, which is not
  rolled back, and `current_log`, which the reference machine keeps as the flag `logOpen`. `storage_cleared` is derived
  from the generations; `HostRefinement.RevertRestoresFlags` says when a revert restores it.

## What the code relies on

Some promises hold under a condition, and the model says which one exactly.

- `log_add_topic` and `log_add_data_*` are not journaled. They keep the snapshots if and only if no frame is open or
  the open frame began a log itself (`HostLogs.TopicKeepsSnapshots`, `HostLogs.DataKeepsSnapshots`);
  `HostLogs.TopicAcrossCheckpoint` shows what happens otherwise.
- `storage_tx_update` keeps the original value of a stale row, and so does the reference machine. It acts as if the
  clear had forgotten it if and only if the original value it brings is the one the row holds
  (`HostRefinement.UpdateForgets`); `HostRefinement.StaleOriginal` shows what happens otherwise.
- A pop of a transaction table keeps the snapshots if and only if no frame is open
  (`HostListings.TakeSlotKeepsSnapshots`, `HostListings.TakeAccountKeepsSnapshots`). The runs of
  `HostRefinement.Disciplined` pop and reset the tables outside open frames, as `sail/kernel/lifecycle.sail` does.
- A warm reset empties the warm sets if and only if no stamp is newer than its epoch (`HostRefinement.ResetWarmRefines`);
  `HostRefinement.ResetForgets` says it of one account. A block meets this: it starts with `warm_reset(0)` on a fresh
  host, and every later epoch is a higher one.
- `malloc` and `realloc` give the bytes asked for unless the request is less than sixteen below 2^64, where the
  alignment wraps, and then never (`Heap.Heap.Malloc`, `Heap.Heap.MallocNearLimit`).

The comments at `zkvm/runtime/runtime.c:11` and `zkvm/runtime/runtime.c:267` speak of coalescing. The code neither
coalesces nor splits blocks, and neither does the model.

## Model

| member | source | states |
|---|---|---|
| Knuth.KnuthDivRem | zkvm/runtime/bigint_portable.c:32-115 | for every dividend of m limbs and divisor of n limbs with a nonzero top limb and 2 <= n <= m: u = q*v + r with 0 <= r < v, and limbs above the quotient and remainder keep their values |
| Knuth.EstimateDigit | zkvm/runtime/bigint_portable.c:62-74 | step D3: the correction loop runs at most twice and leaves a digit below 2^64 that satisfies the two-limb test |
| Knuth.DigitTheorem | zkvm/runtime/bigint_portable.c:62-74 | the digit theorem: when the estimate passes the test against the top two divisor limbs, it is the true quotient digit or one more |
| Knuth.MultiplySubtract | zkvm/runtime/bigint_portable.c:76-88 | step D4: the window minus digit times divisor, modulo B^(n+1), and the borrow that says whether the true difference is negative |
| Knuth.AddBack | zkvm/runtime/bigint_portable.c:90-100 | steps D5 and D6: after a negative difference one addition of the divisor suffices, and its carry out is exactly one and cancels the borrow |
| Knuth.DivideDigit | zkvm/runtime/bigint_portable.c:62-101 | one round of D3 to D6 divides an (n+1)-limb window below divisor*B: exact digit, exact remainder below the divisor |
| Knuth.DivideDigits | zkvm/runtime/bigint_portable.c:61-102 | all rounds, most significant digit first: the quotient and remainder of the normalized dividend |
| Shifts.ShlValue | zkvm/runtime/bigint_portable.c:41-60 | step D1: the joined limbs are the number times 2^s, and the bits that leave the top limb are kept |
| Knuth.Normalize | zkvm/runtime/bigint_portable.c:41-60 | step D1: both numbers are scaled by the same power of two, the highest bit of the divisor is set, and the leading window is below the divisor |
| Shifts.ShrExact | zkvm/runtime/bigint_portable.c:104-114 | step D8: a number that 2^s divides comes back exactly |
| Shifts.ShrWhole | zkvm/runtime/bigint_portable.c:104-114 | the joined limbs of a right shift lose exactly the low bits of the lowest limb |
| Knuth.CountLeadingZeros | zkvm/runtime/runtime.c:114-123 | the number of zero bits above the highest set bit; 64 for zero |
| BitSerial.LimbsUsed | zkvm/runtime/bigint_portable.c:20-26 | the shortest prefix with the same value: its top limb is nonzero or it is empty |
| U256.DivideByLimb | zkvm/runtime/bigint_portable.c:132-141 | division by one limb: u = q*d + r with r < d |
| U256.DivRemWide | zkvm/runtime/bigint_portable.c:119-149 | quotient and remainder of a dividend of up to eight limbs for every nonzero 256-bit divisor, through each of the three cases |
| U256.U256DivRem | zkvm/runtime/bigint_portable.c:151-161 | integer quotient and remainder of two 256-bit values |
| U256.MulWide | zkvm/runtime/bigint_portable.c:163-173 | the full 512-bit product |
| U256.U256MulMod | zkvm/runtime/bigint_portable.c:163-179 | (a*b) mod n over the full 512-bit product; an output may alias a factor |
| U256.AddWide | zkvm/runtime/bigint_portable.c:181-190 | the full 257-bit sum |
| U256.U256AddMod | zkvm/runtime/bigint_portable.c:181-195 | (a+b) mod n over the full 257-bit sum; an output may alias a summand |
| RustU256.Ge | zkvm/accel-host/src/lib.rs:606-613 | the limbwise comparison is the comparison of the values |
| RustU256.SubAssign | zkvm/accel-host/src/lib.rs:616-625 | exact difference for x >= y: the last borrow vanishes |
| RustU256.DivideBit | zkvm/accel-host/src/lib.rs:640-650 | one bit of restoring division keeps: prefix = q*v + r with r < v |
| RustU256.DivRemWide | zkvm/accel-host/src/lib.rs:630-653 | bit-serial division gives the integer quotient and remainder of a dividend of up to eight limbs |
| RustU256.MulWide | zkvm/accel-host/src/lib.rs:656-668 | the full 512-bit product |
| RustU256.AddWide | zkvm/accel-host/src/lib.rs:671-682 | the full 257-bit sum |
| RustU256.DivRem | zkvm/accel-host/src/lib.rs:691-700 | quotient and remainder of 256-bit operands: the four limbs kept hold the whole quotient |
| RustU256.MulMod | zkvm/accel-host/src/lib.rs:703-712 | (a*b) mod n over the full product |
| RustU256.AddMod | zkvm/accel-host/src/lib.rs:715-724 | (a+b) mod n over the full sum |
| Providers.DivRems | zkvm/accel-host/src/lib.rs:691-700 | the C and the Rust provider return the same limbs for quotient and remainder on every input with a nonzero divisor |
| Providers.MulMods | zkvm/accel-host/src/lib.rs:703-712 | the C and the Rust provider of mulmod return the same limbs, (a*b) mod n |
| Providers.AddMods | zkvm/accel-host/src/lib.rs:715-724 | the C and the Rust provider of addmod return the same limbs, (a+b) mod n |
| WideDivision.DivMod | zkvm/runtime/runtime.c:69-100 | the integer quotient and remainder of 128-bit values, by shifting and subtracting; fails exactly for a zero divisor |
| WideDivision.Width | zkvm/runtime/runtime.c:59-67 | the number of significant bits: value < 2^width, and 2^(width-1) <= value unless it is zero |
| WideDivision.FirstShift | zkvm/runtime/runtime.c:83-85 | the first shifted divisor loses no bit of 128 and is more than half of the dividend |
| Magnitude.Compare | zkvm/runtime/sail256/sail.c:71-78 | for normalized magnitudes, the sign of the difference of the values |
| Magnitude.MagnitudeBits | zkvm/runtime/sail256/sail.h:61 | twelve limbs are 768 bits: every trap bound is 2^768 |
| Magnitude.Add | zkvm/runtime/sail256/sail.c:80-96 | exact normalized sum; traps exactly when it needs a thirteenth limb; the result may alias an operand |
| Magnitude.Subtract | zkvm/runtime/sail256/sail.c:98-112 | exact normalized difference for lhs >= rhs; the result may alias either operand |
| Magnitude.Multiply | zkvm/runtime/sail256/sail.c:117-143 | exact normalized product; traps exactly when it is 2^768 or more |
| MagnitudeDivision.DivideLimb | zkvm/runtime/sail256/sail.c:176-191 | for high < divisor: (high*B + low) = q*divisor + r with r < divisor, including the bit shifted out of 64 |
| MagnitudeDivision.DivideByOneLimb | zkvm/runtime/sail256/sail.c:207-217 | division of a magnitude by one limb; the running remainder stays below the divisor |
| MagnitudeDivision.SubtractWithImplicitBit | zkvm/runtime/sail256/sail.c:162-171 | when the shifted-out carry stands for a 769th bit, the wrapped subtraction still gives the true remainder |
| MagnitudeDivision.DivideBit | zkvm/runtime/sail256/sail.c:226-239 | one round of long division, with or without the 769th bit: the remainder stays below the divisor |
| MagnitudeDivision.DivideByLimbs | zkvm/runtime/sail256/sail.c:219-243 | long division by a divisor of two or more limbs: exact quotient and remainder |
| MagnitudeDivision.Divide | zkvm/runtime/sail256/sail.c:193-243 | normalized quotient and remainder for every nonzero divisor |
| SailInt.Int.constructor | zkvm/runtime/sail256/sail.c:268 | a new integer is zero in normal form |
| SailInt.ValidFacts | zkvm/runtime/sail256/sail.c:66-69 | the normal form: magnitude below 2^768, no limb exactly for zero, negative exactly below zero |
| SailInt.IntegerCompare | zkvm/runtime/sail256/sail.c:261-266 | the integer order, for all normalized integers |
| SailInt.CopySailInt | zkvm/runtime/sail256/sail.c:271-277 | the copy has the value of the original, which keeps it |
| SailInt.AddInt | zkvm/runtime/sail256/sail.c:385-406 | exact sum in normal form for all signs and aliasings; traps exactly when its magnitude is 2^768 or more |
| SailInt.NegInt | zkvm/runtime/sail256/sail.c:408-411 | exact negation; never traps; no negative zero |
| SailInt.SubInt | zkvm/runtime/sail256/sail.c:418-423 | exact difference; traps exactly when its magnitude is 2^768 or more |
| SailInt.MultInt | zkvm/runtime/sail256/sail.c:430-435 | exact product; traps exactly when its magnitude is 2^768 or more |
| IntDivision.DivideMagnitudes | zkvm/runtime/sail256/sail.c:437-449 | quotient and remainder of the absolute values; traps exactly for a zero divisor |
| IntDivision.TDivInt | zkvm/runtime/sail256/sail.c:451-459 | truncating quotient; traps only for a zero divisor |
| IntDivision.TModInt | zkvm/runtime/sail256/sail.c:461-469 | truncating remainder; traps only for a zero divisor |
| IntDivision.EDivInt | zkvm/runtime/sail256/sail.c:472-486 | Euclidean quotient for all sign combinations; traps only for a zero divisor, the quotient+1 step never |
| IntDivision.EModInt | zkvm/runtime/sail256/sail.c:488-502 | Euclidean remainder; traps only for a zero divisor |
| IntDivision.FDivInt | zkvm/runtime/sail256/sail.c:505-520 | flooring quotient for all sign combinations; traps only for a zero divisor, the quotient+1 step never |
| IntDivision.FModInt | zkvm/runtime/sail256/sail.c:522-536 | flooring remainder; traps only for a zero divisor |
| IntDivision.TruncLaws | zkvm/runtime/sail256/sail.c:451-469 | the truncating pair: x = q*y + r with |r| < |y| and r of the sign of x, and no other pair |
| IntDivision.FloorLaws | zkvm/runtime/sail256/sail.c:505-536 | the flooring pair: x = q*y + r with |r| < |y| and r of the sign of y, and no other pair |
| IntDivision.StepFits | zkvm/runtime/sail256/sail.c:472-520 | the quotient+1 step stays below 2^768: it is taken only when a remainder is left |
| IntShift.SmallUnsigned | zkvm/runtime/sail256/sail.c:256-259 | the shift amount as one limb; traps exactly when it is negative or needs a second limb |
| IntShift.ShlInt | zkvm/runtime/sail256/sail.c:564-590 | value * 2^amount in normal form; traps exactly when the amount is not a single limb or the magnitude of the result is 2^768 or more |
| IntShift.ShrInt | zkvm/runtime/sail256/sail.c:592-632 | floor division by 2^amount for every sign and every single-limb amount; the value itself never traps |
| IntShift.FloorOfSigned | zkvm/runtime/sail256/sail.c:592-632 | flooring a negative number is truncating its magnitude and adding one exactly when a set bit is discarded |
| IntPower.PowInt | zkvm/runtime/sail256/sail.c:641-658 | base^e for every single-limb exponent; traps exactly when |base^e| is 2^768 or more |
| IntPower.PowerLaws | zkvm/runtime/sail256/sail.c:641-658 | b^0 is one, b^1 is b, and b^(i+k) is the product of b^i and b^k |
| IntPower.SquareNeeded | zkvm/runtime/sail256/sail.c:641-658 | a square that does not fit is only computed when the final power does not fit either |
| TwosComplement.ToArray | zkvm/runtime/sail256/sail.c:281-295 | the value modulo 2^(64k), for every integer and every limb count, with limbs above untouched |
| TwosComplement.FromUnsignedArray | zkvm/runtime/sail256/sail.c:297-305 | the unsigned value; traps exactly on more than twelve limbs |
| TwosComplement.FromArray | zkvm/runtime/sail256/sail.c:307-326 | the signed value; traps exactly on more than twelve limbs |
| TwosComplement.NegateInto | zkvm/runtime/sail256/sail.c:314-325 | complement and carry give the magnitude of a negative integer, trimmed |
| TwosComplement.ExportImport | zkvm/runtime/sail256/sail.c:281-326 | the limbs of x modulo 2^(64k) denote x again for every x in [-2^(64k-1), 2^(64k-1)) |
| TwosComplement.ExportThenImport | zkvm/runtime/sail256/sail.c:281-326 | exporting to k limbs and importing gives the value back, without a trap, for every value in [-2^(64k-1), 2^(64k-1)) and every k up to twelve |
| Decimal.DecStr | zkvm/runtime/sail256/sail_native.c:8-34 | the decimal text of the integer: sign, digits without leading zeros, terminator |
| Decimal.PrintLoop | zkvm/runtime/sail256/sail_native.c:17-28 | the digits in reverse; at most 232 of them, within the 234-byte buffer |
| Decimal.DigitsFit | zkvm/runtime/sail256/sail_native.c:8-34 | 2^768 < 10^232 |
| Decimal.DivideByTen | zkvm/runtime/sail256/sail_native.c:19-24 | in-place division of the magnitude by ten, and the digit |
| Decimal.MpzSetStr | zkvm/runtime/sail256/sail.c:690-711 | the signed value of a decimal text; -1 for other bases and for texts that are not numbers; traps exactly when the digits read denote 2^768 or more |
| Decimal.FormIsNumber | zkvm/runtime/sail256/sail.c:690-711 | every text of blanks, tabs and line feeds, at most one sign, and digits up to the end is a number with these digits and this sign |
| Decimal.NumberHasForm | zkvm/runtime/sail256/sail.c:690-711 | and no other text is |
| Decimal.DigitsSnoc | zkvm/runtime/sail256/sail.c:700-706 | a further digit makes ten times the number plus its distance from the character 0 |
| Decimal.SignedTextForm | zkvm/runtime/sail256/sail_native.c:8-34 | a minus sign exactly for negative numbers, then digits without a leading zero |
| Decimal.PrintedIsNumber | zkvm/runtime/sail256/sail.c:690-711 | every printed integer is a number to the parser and denotes the integer |
| Decimal.PrintThenParse | zkvm/runtime/sail256/sail.c:690-711 | parsing a printed integer gives it back, without a trap, for every normalized 768-bit integer |
| Journal.OpenCheckpointIndex | extractions/python/contract/HostContract.py:1437-1449 | the backward scan finds the innermost checkpoint that no commit closes |
| Journal.CommitDrops | extractions/python/contract/HostContract.py:1470-1475 | a commit drops the innermost snapshot and keeps the others: the mutations now belong to the parent |
| Journal.RevertRestores | extractions/python/contract/HostContract.py:1462-1467 | replaying the inverses behind the open checkpoint succeeds and gives the innermost snapshot; what is left of the journal keeps the others |
| Journal.CheckpointSaves | extractions/python/contract/HostContract.py:1456-1459 | a checkpoint saves the current state on top of the snapshots |
| Journal.RecordKeeps | extractions/python/contract/HostContract.py:1322-1334 | recording an inverse that undoes the mutation keeps every snapshot |
| HostModel.RewindObserved | extractions/python/contract/HostContract.py:1462-1467 | replaying a segment and looking at the observable part commute |
| HostOps.StoreTransientSaved | extractions/python/contract/HostContract.py:1322-1334 | a transient store keeps every snapshot |
| HostOps.MarkAccountSaved | extractions/python/contract/HostContract.py:2078-2090 | marking an account warm keeps every snapshot |
| HostOps.ListStorageSaved | extractions/python/contract/HostContract.py:1495-1503 | undoing the listing of a storage row removes exactly that row, though the entry names only the address |
| HostOps.UpdateStorageSaved | extractions/python/contract/HostContract.py:1482-1517 | a storage update, new row or old, current or stale, keeps every snapshot |
| HostOps.ClearStorageSaved | extractions/python/contract/HostContract.py:1553-1569 | a storage clear keeps every snapshot although the generation counter is not rolled back |
| HostOps.ListAccountSaved | extractions/python/contract/HostContract.py:1732-1737 | undoing the listing of an account removes exactly that row, though the entry names nothing |
| HostOps.UpdateAccountSaved | extractions/python/contract/HostContract.py:1708-1779 | an account update keeps every snapshot whatever set of fields it changes; it fails exactly for an account that is neither listed nor cached |
| HostOps.SetFieldSaved | extractions/python/contract/HostContract.py:1782-1856 | setting balance, nonce or code hash keeps every snapshot; it fails exactly for an account that is neither listed nor cached |
| HostOps.BeginLogSaved | extractions/python/contract/HostContract.py:2162-2170 | beginning a log keeps every snapshot |
| HostOps.RevertFrameSaved | extractions/python/contract/HostContract.py:1462-1467 | a revert fails exactly when no frame is open, never on a missing row, and restores the innermost snapshot |
| HostOps.CommitFrameSaved | extractions/python/contract/HostContract.py:1470-1475 | a commit fails exactly when no frame is open, and drops the innermost snapshot |
| HostListings.ListingOrder | extractions/python/contract/HostContract.py:1398-1411 | the rows of the innermost snapshot come first, and behind them stands one row for each listing entry of the open frame, in the order of the entries |
| HostLogs.TopicKeepsSnapshots | extractions/python/contract/HostContract.py:2180-2181 | adding a topic keeps every snapshot if and only if no frame is open or the open frame began a log itself |
| HostLogs.TopicAcrossCheckpoint | extractions/python/contract/HostContract.py:2180-2181 | for every state: a topic added across a checkpoint survives the revert of that checkpoint |
| HostLogs.LogInFrameCounts | extractions/python/contract/HostContract.py:2162-2170 | a frame began a log exactly when there are more logs than at its checkpoint |
| HostLogs.DataKeepsSnapshots | extractions/python/contract/HostContract.py:2184-2196 | appending data keeps every snapshot if and only if the payload is empty, no frame is open, or the open frame began a log itself |
| HostRefinement.UpdateSeen | extractions/python/contract/HostContract.py:1482-1517 | an update of the generation-gated table is one of the plain map, where a slot keeps the original value it was first written with since the reset |
| HostRefinement.UpdateForgets | extractions/python/contract/HostContract.py:1482-1517 | an update acts as if a clear had forgotten the original values if and only if a stale row, where there is one, already holds the original it brings |
| HostRefinement.StaleOriginal | extractions/python/contract/HostContract.py:1482-1517 | for every unlisted slot: written, cleared and written again with another original value, it reads back with the first one |
| HostRefinement.ClearSeen | extractions/python/contract/HostContract.py:1553-1569 | a clear empties the plain map for the address and nothing else: no row carries the new generation |
| HostRefinement.ClearedReads | extractions/python/contract/HostContract.py:1520-1535 | after a clear every slot of the address reads as cleared |
| HostRefinement.StorageSeen | extractions/python/contract/HostContract.py:1520-1535 | hit exactly for the slots of the plain map, otherwise cleared exactly for the cleared addresses |
| HostRefinement.WarmSeen | extractions/python/contract/HostContract.py:2073-2098 | the epoch stamps answer as the warm sets do |
| HostRefinement.RevertRefines | extractions/python/contract/HostContract.py:1462-1467 | a revert is the restoring of the innermost whole-state snapshot, with the open log forgotten exactly when a log was removed |
| HostRefinement.CommitRefines | extractions/python/contract/HostContract.py:1470-1475 | a commit is the dropping of the innermost whole-state snapshot |
| HostRefinement.StepRefines | extractions/python/contract/HostContract.py:1348-1475 | one step: the host fails exactly where the reference machine does, and otherwise they show the same world and the same snapshots |
| HostRefinement.RunRefines | extractions/python/contract/HostContract.py:1348-1475 | every disciplined run of account, storage, transient, warm, log, frame, pop and reset operations behaves as on a machine that saves whole states |
| HostRefinement.BlockRunRefines | sail/executor/block.sail:274-282 | a fresh host that starts with warm_reset(0), as a block does, behaves so on every disciplined run that follows |
| HostRefinement.TakeSlotRefines | extractions/python/contract/HostContract.py:1538-1550 | a pop of the gated table gives out the slot that the plain map gives out, and leaves what it leaves |
| HostRefinement.TakeAccountRefines | extractions/python/contract/HostContract.py:1859-1878 | a pop of the account rows takes the account listed last out of the account map, and gives out what the map has for it |
| HostOps.PopAccountLast | extractions/python/contract/HostContract.py:1859-1878 | the popped row is the last one as it is, current and original account and flags, and only it goes |
| HostOps.DrainGivesRows | sail/kernel/lifecycle.sail:66-106 | popping until the table is exhausted gives out every account row once, with its current and its original account |
| HostListings.TakeSlotKeepsSnapshots | extractions/python/contract/HostContract.py:1538-1550 | a pop of listed storage rows keeps every snapshot if and only if no frame is open |
| HostListings.TakeAccountKeepsSnapshots | extractions/python/contract/HostContract.py:1859-1878 | a pop of an account row keeps every snapshot if and only if no frame is open |
| HostRefinement.DrainTakesAll | sail/kernel/lifecycle.sail:108-126 | popping until the table is exhausted gives out exactly the slots of the plain map, each once, whatever rows are stale |
| HostRefinement.RevertUndoesRun | extractions/python/contract/HostContract.py:1456-1475 | checkpoint, any disciplined run that leaves that frame open, revert: the observable state is back |
| HostRefinement.InitialRefines | extractions/python/contract/HostContract.py:489-526 | the fresh host and the fresh reference machine are related |
| HostRefinement.RevertRestoresFlags | extractions/python/contract/HostContract.py:1421-1430 | where storage_cleared follows the generations at the checkpoint and at the revert, the revert restores it too |
| HostRefinement.PopTakesVisible | extractions/python/contract/HostContract.py:1538-1550 | a pop takes one slot out of the plain map with its value, skips stale rows, and reports exhaustion only when the map is empty |
| HostContract.HostState.TransientStore | extractions/python/contract/HostContract.py:1322-1334 | the slot holds the value, the prior value is journaled, and every snapshot is kept |
| HostContract.HostState.AccountMarkWarm | extractions/python/contract/HostContract.py:2078-2090 | the account is warm, and every snapshot is kept |
| HostContract.HostState.StorageMarkWarm | extractions/python/contract/HostContract.py:2101-2116 | the slot is warm, and every snapshot is kept |
| HostContract.HostState.StorageTxUpdate | extractions/python/contract/HostContract.py:1482-1517 | the row has the value and the current generation, rows stay listed once, and every snapshot is kept |
| HostContract.HostState.StorageTxGet | extractions/python/contract/HostContract.py:1520-1535 | hit, cleared or miss as the generations say |
| HostContract.HostState.StorageTxClear | extractions/python/contract/HostContract.py:1553-1569 | the address has a generation that was never issued before, and every snapshot is kept |
| HostContract.HostState.StorageTxPop | extractions/python/contract/HostContract.py:1538-1550 | the popped row and the rows left, through the loop over stale rows |
| HostContract.HostState.AcctTxPop | extractions/python/contract/HostContract.py:1859-1878 | the last account row as it is, and the rows without it; exhausted exactly when there is none |
| HostContract.HostState.AcctTxUpdate | extractions/python/contract/HostContract.py:1708-1779 | the row holds the account as given, its storage_cleared flag included, over the original it had or the block has, and every snapshot is kept; false, with nothing changed, for an account that is neither listed nor cached |
| HostContract.HostState.AcctTxSetField | extractions/python/contract/HostContract.py:1802-1856 | balance, nonce or code hash, as called, has the value, the other fields and the flags stay, and every snapshot is kept; false, with nothing changed, for an account that is neither listed nor cached |
| HostContract.HostState.StateJournalCommit | extractions/python/contract/HostContract.py:1470-1475 | the innermost snapshot is dropped; false exactly when there is none |
| HostContract.HostState.StateJournalRevert | extractions/python/contract/HostContract.py:1462-1467 | the innermost snapshot is restored and the others are kept; false exactly when there is none; from a state with a row missing the replay stops at the entry that names it |
| HostContract.HostState.JournalRestore | extractions/python/contract/HostContract.py:1348-1434 | one undo for every kind of entry; false exactly where a row is missing |
| HostContract.HostState.StateJournalCheckpoint | extractions/python/contract/HostContract.py:1456-1459 | the current state becomes the innermost snapshot |
| HostContract.HostState.LogBegin | extractions/python/contract/HostContract.py:2162-2170 | an empty record at the end of the data, and every snapshot is kept |
| HostContract.HostState.LogAddTopic | extractions/python/contract/HostContract.py:2173-2181 | the current record gains the topic; false exactly before a log_begin |
| HostContract.HostState.constructor | extractions/python/contract/HostContract.py:489-526 | the defaults: empty tables, generation 1, epoch 1, empty journal |
| HostContract.HostState.AccountIsWarm | extractions/python/contract/HostContract.py:2073-2075 | warm exactly when the stamp has reached the current epoch |
| HostContract.HostState.StorageIsWarm | extractions/python/contract/HostContract.py:2093-2098 | warm exactly when the stamp has reached the current epoch |
| HostContract.HostState.WarmReset | extractions/python/contract/HostContract.py:2069-2070 | only the epoch changes |
| HostContract.HostState.AccountTxRequired | extractions/python/contract/HostContract.py:1782-1799 | the account is listed afterwards; false, with nothing changed, when it is neither listed nor cached |
| HostContract.HostState.AcctBlockCache | extractions/python/contract/HostContract.py:1908-1919 | an account that is cached already keeps its entry |
| HostContract.HostState.AppendLogData | extractions/python/contract/HostContract.py:2184-2188 | the payload is appended to the data and counted in the current record; false exactly before a log_begin |
| HostContract.HostState.TransientReset | extractions/python/contract/HostContract.py:1318-1319 | only the transient slots are emptied |
| HostContract.HostState.AcctTxReset | extractions/python/contract/HostContract.py:1881-1882 | only the account rows are emptied |
| HostContract.HostState.StorageTxReset | extractions/python/contract/HostContract.py:1572-1576 | rows and generations are emptied and the counter restarts |
| HostContract.HostState.LogsTxReset | extractions/python/contract/HostContract.py:2156-2159 | the start of the transaction moves to the end of the logs, no log is current; records and data stay |
| HostContract.HostState.StateJournalReset | extractions/python/contract/HostContract.py:1452-1453 | only the journal is emptied |
| HostContract.HostState.FindLastListed | extractions/python/contract/HostContract.py:1402-1409 | the reversed search finds the last row of the address, if there is one |
| HostRefinement.TopicRefines | extractions/python/contract/HostContract.py:2180-2181 | a topic under the discipline extends the last record of the reference machine |
| HostRefinement.PutAccountRefines | extractions/python/contract/HostContract.py:1708-1779 | up to the derived flag, an account update is one update of the account map, or one listing from the block cache |
| HostOps.UpdateAccountWrites | extractions/python/contract/HostContract.py:1708-1779 | the account is stored as it is given, flag included, a new row keeps the block account as its original, and no other row changes |
| HostRefinement.SetFieldRefines | extractions/python/contract/HostContract.py:1782-1856 | a field setter is one assignment of that field in the account map, or one listing from the block cache with the field assigned |
| HostOps.SetFieldWrites | extractions/python/contract/HostContract.py:1782-1856 | a setter assigns its own field and leaves the other fields and the flags, and no other row changes |
| HostModel.GenerationRestored | extractions/python/contract/HostContract.py:1421-1430 | undoing a clear sets the generation back and makes the flag say whether the account was cleared before the transaction or still is in it |
| HostRefinement.UpdateRefines | extractions/python/contract/HostContract.py:1482-1517 | a storage update of the host, current or over a stale row, is one update of the reference machine |
| HostRefinement.ClearRefines | extractions/python/contract/HostContract.py:1553-1569 | a storage clear empties the plain map for the address |
| HostRefinement.ResetForgets | extractions/python/contract/HostContract.py:2069-2090 | for every state: a reset forgets what was just marked if and only if its epoch is not below the current one |
| HostRefinement.ResetWarmRefines | extractions/python/contract/HostContract.py:2069-2070 | outside frames a warm reset empties the warm sets if and only if no stamp is newer than its epoch |
| HostRefinement.NewerEpoch | extractions/python/contract/HostContract.py:2069-2090 | an epoch that is not below the current one reaches every stamp |
| WarmVectors.SwapHitsLast | extractions/c/spec/contract/kernel_state.c:77-81 | a swap-with-last removal on a vector without duplicates hits the last element where the undo of the last mark is due |
| WarmVectors.SwapReplay | extractions/c/spec/contract/kernel_state.c:561-590 | a whole replay by swap removals is a replay by truncation |
| WarmVectors.KernelStepRefines | extractions/c/spec/contract/kernel_state.c:540-620 | one step of the C warm vectors refines the same reference machine, with the same failures |
| WarmVectors.WarmAgree | extractions/c/spec/contract/kernel_state.c:62-144 | after every disciplined run of marks, frames and resets, the C vectors and the Python epoch stamps fail together and give the same warm answers |
| WarmVectors.WarmAgreeFromStart | extractions/c/spec/contract/kernel_state.c:62-144 | from the fresh host and empty vectors, every disciplined run of marks, frames and resets gives the same failures and the same warm answers |
| WarmVectors.WarmKernel.constructor | extractions/c/spec/contract/kernel_state.c:85-90 | empty vectors and an empty journal, which refine the fresh reference machine |
| WarmVectors.WarmKernel.AccountMarkWarm | extractions/c/spec/contract/kernel_state.c:119-126 | the vector and the journal after the mark |
| WarmVectors.WarmKernel.AccountIsWarm | extractions/c/spec/contract/kernel_state.c:114-117 | warm exactly when the address is in the vector |
| WarmVectors.WarmKernel.StorageIsWarm | extractions/c/spec/contract/kernel_state.c:128-133 | warm exactly when the slot is in the vector |
| WarmVectors.WarmKernel.StateJournalRevert | extractions/c/spec/contract/kernel_state.c:605-613 | the vectors and the journal after the revert; false exactly for the aborts |
| WarmVectors.WarmKernel.RevertTo | extractions/c/spec/contract/kernel_state.c:561-590 | the undo loop is the replay of the popped entries |
| WarmVectors.WarmKernel.StorageMarkWarm | extractions/c/spec/contract/kernel_state.c:134-144 | the vector and the journal after the mark |
| WarmVectors.WarmKernel.WarmReset | extractions/c/spec/contract/kernel_state.c:108-113 | both vectors are emptied and the journal stays |
| WarmVectors.WarmKernel.StateJournalCommit | extractions/c/spec/contract/kernel_state.c:615-620 | a commit marker; false exactly when no frame is open |
| WarmVectors.WarmKernel.StateJournalCheckpoint | extractions/c/spec/contract/kernel_state.c:599-603 | a checkpoint marker |
| Heapsort.Qsort | zkvm/runtime/runtime.c:482-496 | for any total preorder the array becomes a sorted permutation of itself, in place |
| Heapsort.ComparatorLaws | zkvm/runtime/runtime.c:449-453 | what qsort asks of a comparator: it opposes every two values and is transitive |
| Heapsort.HeapSortSorts | zkvm/runtime/runtime.c:482-496 | for every input and every total preorder: a sorted permutation |
| Heapsort.SortIgnoresOrder | zkvm/runtime/runtime.c:449-453 | for a total order the result depends only on the multiset of elements |
| Heapsort.SortedUnique | zkvm/runtime/runtime.c:449-453 | under a total order there is one sorted arrangement |
| Heapsort.SiftHeap | zkvm/runtime/runtime.c:463-480 | a sift turns a heap with a hole at its root into a heap |
| Heapsort.SiftPermutes | zkvm/runtime/runtime.c:463-480 | a sift permutes the prefix and leaves the rest |
| Heapsort.SiftInPlace | zkvm/runtime/runtime.c:463-480 | the loop terminates because the root index grows, and leaves the sifted array |
| Heapsort.RootIsFinal | zkvm/runtime/runtime.c:492-495 | the root swapped behind the heap is at its final place |
| Jumpdest.ForkKeepsTable | extractions/c/spec/contract/code_db.c:278-313 | setting the Amsterdam flag never changes the table, for every code |
| Jumpdest.ScansAgree | extractions/c/spec/contract/code_db.c:295-306 | from a common position the scans with and without the fork reach the same JUMPDEST bytes |
| Jumpdest.ForkMovesBoundaries | extractions/c/spec/contract/code_db.c:295-306 | the fork does move instruction boundaries |
| Jumpdest.TableIsYellowPaper | extractions/c/spec/contract/code_db.c:278-313 | under either flag a position is marked exactly when it is in the set D_J of section 9.4.3 of the Ethereum Yellow Paper, built from its own N(i, w) |
| Jumpdest.InstructionSpan | extractions/c/spec/contract/code_db.c:295-309 | from an instruction start with opcode 0x60 to 0x7f none of the next opcode - 0x5f bytes is marked or starts an instruction, and the byte behind them does; a valid immediate of 0xe6 to 0xe8 is skipped from Amsterdam on |
| Jumpdest.MarkedStarts | extractions/c/spec/contract/code_db.c:290-294 | the first byte starts an instruction, and exactly the bytes 0x5b that start one are marked |
| Jumpdest.DestinationsAreBoundaries | extractions/c/spec/contract/code_db.c:278-313 | that set holds the JUMPDEST bytes that are instruction boundaries |
| ProbingTable.Find | extractions/c/spec/contract/code_db.c:151-159 | the probe ends, and finds the slot of the key exactly when the key is stored |
| ProbingTable.FreeSlot | extractions/c/spec/contract/code_db.c:151-159 | fewer keys than slots leave a free slot |
| ProbingTable.PutRepresents | extractions/c/spec/contract/code_db.c:160-168 | writing where a probe ended keeps every other key findable |
| ProbingTable.Grow | extractions/c/spec/contract/code_db.c:160-168 | the grown table holds the same entries under the same keys |
| CodeDb.Db.constructor | extractions/c/spec/contract/code_db.c:131-142 | an empty map over empty arenas |
| CodeDb.Db.Reserve | extractions/c/spec/contract/code_db.c:244-246 | the new key has a slot, the others keep their entries, and the table grows at seven tenths |
| CodeDb.Db.Intern | extractions/c/spec/contract/code_db.c:220-270 | a new hash gets the code and its table; a stored one succeeds exactly for the same code and table, and nothing else changes |
| CodeDb.Db.InsertAnalyzed | extractions/c/spec/contract/code_db.c:278-320 | the table refines an append-only map: under either fork flag re-inserting the stored code succeeds without altering it, other bytes under a stored hash fail, and earlier spans keep their bytes |
| CodeDb.Db.Analyze | extractions/c/spec/contract/code_db.c:288-313 | the scanning loop leaves exactly the jump table in the arena |
| CodeDb.Db.AllocTable | extractions/c/spec/contract/code_db.c:91-100 | a zeroed table at the end of the arena, and no stored code changes |
| CodeDb.Db.Lookup | extractions/c/spec/contract/code_db.c:345-362 | found exactly for stored hashes, with spans that resolve to the stored code and table |
| CodeDb.ArenasGrow | extractions/c/spec/contract/code_db.c:202-214 | appending to the arenas moves no stored span |
| CodeDb.StoredAnalyzed | extractions/c/spec/contract/code_db.c:230-243 | where every stored table is the table of its code, the bytes alone decide whether a re-insertion succeeds |
| ProbingTable.ProbeDecides | extractions/c/spec/contract/code_db.c:151-159 | a probe that ends at a free slot or at the key decides whether the key is stored |
| Heap.Heap.Malloc | zkvm/runtime/runtime.c:329-356 | the first free block that fits, or a new one of exactly the aligned size; it fails exactly when neither fits; the pointer was not live; the block holds the bytes asked for if and only if the request is not less than sixteen below 2^64; live payloads keep their bytes |
| Heap.Heap.CanAllocateMeans | zkvm/runtime/runtime.c:340-355 | a request can be met exactly when some free block is large enough or header and payload fit behind the frontier |
| Heap.Heap.PayloadBytes | zkvm/runtime/runtime.c:317-327 | the bytes of a block start at its pointer, a multiple of sixteen |
| Heap.Heap.MallocNearLimit | zkvm/runtime/runtime.c:337 | a request of 2^64 - 8 bytes succeeds with an empty block, on every heap without free blocks and with room for a header |
| Heap.Heap.Free | zkvm/runtime/runtime.c:358-373 | exactly the block goes to the head of the free list; a second free and NULL change nothing; every address that is no block is refused, where the source goes by the magic tag |
| Heap.Heap.Calloc | zkvm/runtime/runtime.c:375-384 | zeroed memory of the full product, for all arguments; it fails exactly when the product overflows or no block fits; the memset runs past the block exactly for products less than sixteen below 2^64 |
| Heap.CallocOverflow | zkvm/runtime/runtime.c:377-380 | dividing the wrapped product detects the overflow of a size_t exactly |
| Heap.Heap.Realloc | zkvm/runtime/runtime.c:386-406 | the old prefix is kept, at the old place exactly when the block is large enough; says when it fails in every case and when the block handed out is not live; the block holds the bytes asked for if and only if the request is not less than sixteen below 2^64; other live payloads keep their bytes |
| Heap.Heap.LiveApart | zkvm/runtime/runtime.c:267-290 | payloads, live or free, are disjoint |
| Heap.Heap.Unlink | zkvm/runtime/runtime.c:342-347 | exactly one block leaves the free list, and the blocks still tile the heap |
| Heap.Heap.constructor | zkvm/runtime/runtime.c:297-311 | an empty heap from the aligned start |
| Heap.Heap.BumpNew | zkvm/runtime/runtime.c:313-327 | a block at the frontier, or NULL exactly when it would pass the end |
| Heap.Heap.FindFit | zkvm/runtime/runtime.c:340-351 | the walk stops at the first block that fits |
| Blocks.PayloadsApart | zkvm/runtime/runtime.c:313-327 | blocks that tile the heap share no byte and end below the frontier |
| Blocks.BumpTiles | zkvm/runtime/runtime.c:313-327 | a block at the frontier extends the tiling without gap or overlap |
| Blocks.UnlinkFrees | zkvm/runtime/runtime.c:341-349 | unlinking leaves a free list of exactly the other free blocks, once each |
| Blocks.PushFrees | zkvm/runtime/runtime.c:369-372 | pushing leaves a free list of exactly the free blocks, once each |
| Blocks.AlignUpRounds | zkvm/runtime/runtime.c:279 | the alignment rounds up, except within sixteen of 2^64, where it wraps to zero |
| Blocks.HeaderSize | zkvm/runtime/runtime.c:282-290 | the header is its fields rounded up to the alignment of sixteen |
| HashBytes.FromWord | extractions/c/spec/contract/hash_bytes.h:24-32 | the bytes denote the number of the word, most significant byte first |
| HashBytes.ToWord | extractions/c/spec/contract/hash_bytes.h:34-42 | the word denotes the number of the bytes; every or falls on zero bits |
| HashBytes.ThereAndBack | extractions/c/spec/contract/hash_bytes.h:24-42 | a word survives the way to bytes and back |
| HashBytes.Compare | extractions/c/spec/contract/hash_bytes.h:14-22 | the byte order is the order of the numbers, and equality is equality of the bytes |
| HashBytes.FieldOfVal | extractions/c/spec/contract/hash_bytes.h:24-32 | a field of bits of a multi-limb number is that field of the limb it lies in |
| AccessEvents.EventsCanonical | extractions/python/contract/HostContract.py:2003-2059 | accounts strictly ascend, events of an account strictly ascend by phase, slot and index, and no slot is both changed and read (EIP-7928) |
| AccessEvents.IncreasingMeans | extractions/python/contract/HostContract.py:2018-2059 | in an account, storage changes by slot and index come before reads by slot, then balances, nonces and codes, each by index |
| AccessEvents.EventsOfFacts | extractions/python/contract/HostContract.py:2018-2059 | a change of a kind is told by an event of that kind with its index and value |
| AccessEvents.DecodeEvents | extractions/python/contract/HostContract.py:2003-2059 | decoding the stream of any recording gives back exactly its touched accounts, its changes, and its reads that no change shadows |
| AccessFacts.StreamTells | extractions/python/contract/HostContract.py:1965-2059 | for all facts in any order: the stream tells exactly the accounts that some fact is about, the changes that no later fact overwrites, and the reads of slots that no fact changes |
| AccessFacts.IndependentTold | extractions/python/contract/HostContract.py:1965-2059 | where no two facts disagree about an entry, a change is told exactly when it was recorded |
| AccessFacts.ReadShows | extractions/python/contract/HostContract.py:2003-2059 | no slot that was read vanishes: it shows as a read or as a change |
| AccessFacts.RecordAllKeeps | extractions/python/contract/HostContract.py:1965-2000 | no recording has an empty entry or an entry of an untouched account |
| AccessFacts.HoldsLast | extractions/python/contract/HostContract.py:1977-2000 | an entry holds exactly the change that no later fact overwrites |
| AccessEvents.ParseFlatten | extractions/python/contract/HostContract.py:2003-2059 | the flat stream determines the accounts and their events |
| AccessEvents.EventsIgnoreOrder | extractions/python/contract/HostContract.py:1965-2059 | recording independent facts in any order gives the same stream |
| AccessRecording.RecordingIgnoresOrder | extractions/python/contract/HostContract.py:1965-2000 | the recording of pairwise independent facts does not depend on their order |
| AccessRecording.SortedUnique | extractions/python/contract/HostContract.py:2018-2059 | there is one strictly ascending arrangement of a set of keys |
| AccessEvents.Recorder.AddStorageChange | extractions/python/contract/HostContract.py:1977-1980 | the account is touched and the slot has the value at the index |
| AccessEvents.Recorder.AddStorageRead | extractions/python/contract/HostContract.py:1983-1985 | the account is touched and the slot is among the reads |
| AccessEvents.Recorder.AddBalanceChange | extractions/python/contract/HostContract.py:1988-1990 | the account is touched and the balance has the value at the index |
| AccessEvents.Recorder.AddNonceChange | extractions/python/contract/HostContract.py:1993-1995 | the account is touched and the nonce has the value at the index |
| AccessEvents.Recorder.AddCodeChange | extractions/python/contract/HostContract.py:1998-2000 | the account is touched and the code has the value at the index |
| AccessEvents.Recorder.AccountTouch | extractions/python/contract/HostContract.py:1973-1974 | the account is touched |
| AccessEvents.Recorder.PrepareIter | extractions/python/contract/HostContract.py:2003-2059 | the loops produce the canonical stream of what was recorded |
| AccessEvents.Recorder.IterNext | extractions/python/contract/HostContract.py:2062-2066 | the events come out one by one, in order |

## Left out

- Cryptography: keccak, signatures, curves, pairings, KZG, BLAKE2.
- Transport and platform: ctypes, memory-mapped registers, HTIF, trap handlers.
- `devtools/`, `mkdocstrings-sail/`, the Sail sources (except how they call the host) and the generated code; `state_db.c`, `transient_storage.c` and
  `value_convert.h` are not part of this model.
- The block tables (`storage_block_*`, `acct_block_write`, the trie iterators) except the account cache that the
  transaction rows are listed from, and `storage_has_writes`: reads and writes of one dictionary.
- The log getters, `logs_tx_start` and `logs_tx_count`: they read one field.
- The C account and storage undo arenas and the C log arenas: in `WarmVectors` their entries are journal entries
  without an effect on the warm vectors.
- The EIP-7702 authority trackers: the C one ORs `originally_delegated` on a repeat commit, the Python one keeps the
  first value.
- `frame_stack.c`, `capacity.c` and the region accessors.
- Allocation failure inside the code table, arenas past 2^32 bytes, and code sources that alias the arena: arenas and
  vectors are sequences, so growing and moving them is not visible.
- The byte representation of block headers and of sorted elements: headers are records beside the memory, and qsort
  swaps whole elements.
- Pointer arithmetic past 2^64 in the allocator: the end of a new block is computed without wrap, which C leaves
  undefined. Memory is shorter than 2^64 bytes.
- Heap.Heap.Free: refuses every address that is no block; the source tests only the magic tag, which the bytes of a
  payload can hold too.
- Heap.Heap.Calloc: where the memset runs past the block, what it overwrites is not modelled.
- U256.U256DivRem: requires distinct outputs, as the contract of the provider does.
