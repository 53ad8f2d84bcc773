# Lending core: a verified model

This project models the parts of the lending backend and its Soroban contract where a mistake costs money, and proves
what they promise. Check it with Dafny 4.11: `dafny verify dfyconfig.toml`.

| files | models |
|---|---|
| `Wrappers`, `LoanTypes`, `FixedPoint`, `Accrual`, `AccrualLaws` | the contract's records and its fixed-point accrual, ideal and in checked 128-bit arithmetic |
| `LoanBook`, `LoanInvariant`, `LoanManager` | the contract as a state machine, its invariant, and the contract object whose entry points commit exactly those transitions |
| `LoanRuns`, `LoanConservation`, `LoanInterest`, `LoanSchedules`, `LoanWaiting`, `LoanDiscipline`, `LoanDefaults`, `LoanGrants` | whole runs: conservation, cost of a loan, late charges, loans that waiting makes cheaper, opening, payoff and default discipline, and the grants they rest on |
| `LoanTerms` | the entry points in figures: records, arguments and numbers only |
| `Base32`, `Crc16`, `Crc16Division`, `StrKey` | account ids: decoder, checksum as polynomial remainder, encoding |
| `StrKeyAnswers` | published values the decoder must agree with |
| `StrKeySyndrome`, `StrKeyPowers`, `StrKeyErrors` | what wrong characters do to the checksum equation, and exactly which corruptions of an id go undetected |
| `CctpBytes`, `CctpMessage`, `CctpForwarder`, `CctpLayout` | the CCTP V2 message and hook codec, the delivery plan, and both by byte positions |
| `CctpTransfer`, `CctpExecutor`, `CctpRuns`, `CctpDeliver`, `CctpOutcomes` | the transfer state machine, its delivery under crashes, and the outcome of every poll and call |
| `ChainSync`, `ChainSyncService`, `ChainSyncRuns`, `ChainSyncScan`, `ChainSyncContents` | reconciliation of the loans table with the chain, the event scanner, and what the rows say |
| `SignerQueue`, `Preflight` | the signer's two-lane queue with its retry loop, and the repayment preflight |

## Where code and comments part

The model follows the code. In these places its own comments promise more than it does, and the exact condition is proved:

- The total at the due date is `P + P*fee/10000` only while the whole-term product fits in i128, terms of one day and dust fees aside (`LoanInterest.ExactAtDueExactly`, `LoanInterest.UnpaidRunsExactAtDue`).
- "Overflow never blocks a payoff" fails once due + grace leaves u64, which an unbounded grace period brings about (`LoanDiscipline.PayoffExactly`, `LoanDiscipline.UnboundedGraceBlocksPayoff`).
- Skipping a stretch that overflows makes the balance fall with time, the late fee past grace and the interest even before the due date (`AccrualLaws.MonotoneExactly`, `LoanWaiting.WaitingCanWipeTheFee`, `LoanWaiting.WaitingCanWipeTheInterest`).
- A poll that finds the nonce consumed delivers a vault transfer without its deposit (`CctpRuns.DepositGuaranteeExactly`, `CctpRuns.PollDeliversUnrecordedExactly`).
- A completed Iris answer without a message erases a stored message in some states (`CctpTransfer.MessageLostExactly`).
- The scanner's cursor passes failed inserts, which no later scan retries (`ChainSyncScan.MirroredForGoodExactly`, `ChainSyncScan.LoanCanBeLost`).

## Assumptions

- The ledger clock does not go back. Callers are authorized. Storage entries do not expire.
- One worker delivers a given transfer at a time; the chain consumes a nonce at most once; transaction hashes are not empty strings.
- Database transactions are atomic. The unsettled-rows query returns what it asks for, in its order.
- What clocks, HTTP, RPC, queries and other relayers answer is an arbitrary parameter of every statement.

## Model

| member | source | states |
|---|---|---|
| Accrual.AccruedInMemory | contratos/loan-manager/src/lib.rs:530-584 | the checked 128-bit accrual returns exactly the accrued loan of the unbounded-integer definition, or traps exactly where that says so; `LoanTerms.AccrualInFigures` and `AccrualLaws.TrapsExactly` say what that is |
| Accrual.CumAt | contratos/loan-manager/src/lib.rs:544-561 | the checked cumulative total is the floored exact one when the whole product fits, and absent otherwise; in figures in `LoanTerms.AccrualInFigures` |
| Accrual.ChargeInterest | contratos/loan-manager/src/lib.rs:540-561 | the telescoping pre-due stretch adds the difference of two cumulative totals and nothing else |
| Accrual.ChargeLate | contratos/loan-manager/src/lib.rs:562-582 | the late stretch adds the floored linear fee from the end of grace, skips it when the product does not fit, traps only on the two checked additions |
| Accrual.AccrueLoan | contratos/loan-manager/src/lib.rs:530-584 | accrual of a sound loan keeps it sound and changes nothing but the balance |
| Accrual.MaterializedAt | contratos/loan-manager/src/lib.rs:505-521 | charging moves the anchor to the later of anchor and now, never back, and keeps the loan sound |
| Accrual.CumMono | contratos/loan-manager/src/lib.rs:544-561 | cumulative interest never decreases with time |
| AccrualLaws.FloorIsFirstDay | contratos/loan-manager/src/lib.rs:379-404 | the twice-floored one-day fee charged at opening equals the cumulative total of the first day |
| AccrualLaws.CumAtDue | contratos/loan-manager/src/lib.rs:544-561 | from the due date on the cumulative total is the full fee, to the unit |
| LoanTerms.AccrualInFigures | contratos/loan-manager/src/lib.rs:530-584 | the whole accrual of any live loan on its fields and numbers: two floored cumulative totals up to now or the due date, a floored linear fee from the anchor or the end of grace, each left out when its product exceeds i128 |
| LoanTerms.ProRataExactly | contratos/loan-manager/src/lib.rs:544-561 | over every unpaid run up to the end of grace a loan whose term fits owes its principal plus the fee share of the seconds gone, floored once, of one day at least and the term at most; loans without a daily fee owe the whole fee |
| AccrualLaws.RepricingCostsAtMostOne | contratos/loan-manager/src/lib.rs:592-629 | lowering the principal lets at most one extra unit of interest through |
| AccrualLaws.CheckedRefinesIdeal | contratos/loan-manager/src/lib.rs:530-584 | checked accrual never exceeds unbounded accrual, equals it when products fit, and charges no fee for a stretch that does not fit |
| AccrualLaws.InterestRefinesIdeal | contratos/loan-manager/src/lib.rs:544-561 | the same for pre-due interest alone |
| AccrualLaws.TrapsExactly | contratos/loan-manager/src/lib.rs:530-584 | for every live loan accrual faults exactly when time has passed the anchor and either a late rate meets a due plus grace outside u64 or the balance leaves i128; up to half of i128 the latter cannot be |
| AccrualLaws.MonotoneExactly | contratos/loan-manager/src/lib.rs:544-582 | for every live loan, rate and two instants: waiting does not lower the balance exactly when no late fee is at stake or the later late product fits, or, where interest shown earlier is skipped later, when the later late fee makes up for it |
| AccrualLaws.FallsBeforeLateExactly | contratos/loan-manager/src/lib.rs:544-561 | up to the end of grace the balance falls exactly when interest it showed is skipped later because the product no longer fits |
| LoanWaiting.WaitingCanWipeTheFee | contratos/loan-manager/src/lib.rs:574-582 | a run of the contract from its construction after which one more second of lateness wipes the late fee from the preview |
| LoanWaiting.WaitingCanWipeTheInterest | contratos/loan-manager/src/lib.rs:544-561 | a run with no late rate after which interest previewed a day and a half in is gone at the due date |
| LoanWaiting.OpeningReached | contratos/loan-manager/src/lib.rs:329-408 | the opening run ends with exactly the loan opening writes |
| AccrualLaws.CompoundAtLeastSingle | contratos/loan-manager/src/lib.rs:562-582 | accruing in n stretches gives at least the single accrual less n - 1 units |
| AccrualLaws.CompoundAtMostGrowth | contratos/loan-manager/src/lib.rs:562-582 | the compounded balance times WAD^n is at most the opening balance times the product of the growth factors |
| AccrualLaws.StretchesAddUp | contratos/loan-manager/src/lib.rs:562-582 | the late seconds of any schedule add up to the late seconds of its last instant; time inside grace adds nothing however it is split |
| AccrualLaws.AccruedAlongBetween | contratos/loan-manager/src/lib.rs:505-584 | charging along any ascending schedule that skips no late fee, on every live loan: the balance lies between the compounding of what the end shows with interest and that of the interest ideally due |
| AccrualLaws.AccruedAlongCompounds | contratos/loan-manager/src/lib.rs:505-584 | and is exactly that compounding when the product of the end fits or the interest is in |
| AccrualLaws.LateScheduleBounds | contratos/loan-manager/src/lib.rs:505-584 | for any ascending schedule that skips no late fee, on every live loan: at most n - 1 units below one charge at the end, at most the growth factors times the balance with all interest in |
| LoanSchedules.RunIsSchedule | contratos/loan-manager/src/lib.rs:505-521 | any run without payments of this borrower and changes of its late rate makes of the loan what charging along its charge times does |
| LoanSchedules.ChargedRunBounds | contratos/loan-manager/src/lib.rs:505-584 | the same two bounds over such runs, whoever charges and whenever |
| LoanInvariant.StepOk | contratos/loan-manager/src/lib.rs:203-641 | every entry point and every passing of time keeps the state invariant: records all-zero or 0 < principal <= balance, due = start + tenor, anchor past the first day |
| LoanInvariant.StepNow | contratos/loan-manager/src/lib.rs:203-641 | the ledger clock never moves back |
| LoanInvariant.PaymentEffect | contratos/loan-manager/src/lib.rs:592-629 | a payment splits, interest first, into two parts that add up to it; a partial one lowers the balance by exactly what was paid, a full one zeroes the record, and a defaulted loan takes no partial one |
| LoanTerms.PartialPaymentExactly | contratos/loan-manager/src/lib.rs:592-629 | exactly when a payment succeeds and leaves the loan alive, and then the whole new state: balance less the payment, principal the smaller of itself and that balance, anchor at now, and the receipt |
| LoanTerms.PaymentRefusals | contratos/loan-manager/src/lib.rs:592-641 | each error of a payment, if and only if |
| LoanTerms.PayoffRefusals | contratos/loan-manager/src/lib.rs:412-426 | each error of a payoff, if and only if |
| LoanTerms.DefaultRefusals | contratos/loan-manager/src/lib.rs:430-457 | each error of a default, if and only if |
| LoanInvariant.OpenLoanOk | contratos/loan-manager/src/lib.rs:329-408 | opening keeps the invariant |
| LoanInvariant.CloseLoanOk | contratos/loan-manager/src/lib.rs:412-426 | closing keeps the invariant |
| LoanInvariant.ApplyPaymentOk | contratos/loan-manager/src/lib.rs:592-629 | payments keep the invariant |
| LoanInvariant.AccrueLateOk | contratos/loan-manager/src/lib.rs:505-521 | charging keeps the invariant |
| LoanInvariant.MarkDefaultOk | contratos/loan-manager/src/lib.rs:430-457 | marking a default keeps the invariant |
| LoanManagerContract.LoanManager.constructor | contratos/loan-manager/src/lib.rs:206-222 | storage starts as the constructor seeds it |
| LoanManagerContract.LoanManager.CreditLimit | contratos/loan-manager/src/lib.rs:295-308 | the stored limit of a profile with KYC that has not expired, otherwise zero |
| LoanManagerContract.LoanManager.SetUserRisk | contratos/loan-manager/src/lib.rs:265-277 | commits exactly the modelled transition, or refuses and leaves no trace |
| LoanManagerContract.LoanManager.SetLoanOffer | contratos/loan-manager/src/lib.rs:311-323 | commits exactly the modelled transition, or refuses and leaves no trace |
| LoanManagerContract.LoanManager.SetPremiumConfig | contratos/loan-manager/src/lib.rs:468-477 | commits exactly the modelled transition, or refuses and leaves no trace |
| LoanManagerContract.LoanManager.SetDefaultGracePeriod | contratos/loan-manager/src/lib.rs:241-247 | commits exactly the modelled transition |
| LoanManagerContract.LoanManager.SetMinHoldForTenor | contratos/loan-manager/src/lib.rs:249-255 | commits exactly the modelled transition |
| LoanManagerContract.LoanManager.BuildLoan | contratos/loan-manager/src/lib.rs:371-404 | the stored record of a new loan, or the trap, with the one-day floor and the moved anchor |
| LoanManagerContract.LoanManager.OpenLoan | contratos/loan-manager/src/lib.rs:329-408 | guards in the contract's order, then the whole new state; a refusal leaves no trace; in figures in `LoanTerms.OpeningInFigures` |
| LoanManagerContract.LoanManager.CloseLoan | contratos/loan-manager/src/lib.rs:412-426 | closes when at least the accrued balance is paid; a refusal leaves no trace |
| LoanManagerContract.LoanManager.FinishClose | contratos/loan-manager/src/lib.rs:633-641 | zeroes the record and sets the cooldown to the later of now and the end of the hold, whose tenor `LoanDiscipline.CloseEffect` pins |
| LoanManagerContract.LoanManager.MarkDefault | contratos/loan-manager/src/lib.rs:430-457 | only after due, grace and late period; zeroes the limit and sets the 30-day cooldown |
| LoanManagerContract.LoanManager.PreviewOwed | contratos/loan-manager/src/lib.rs:486-499 | the balance accrual would give, without writing |
| LoanManagerContract.LoanManager.Materialize | contratos/loan-manager/src/lib.rs:511-521 | charged loan with its anchor moved forward |
| LoanManagerContract.LoanManager.AccrueLate | contratos/loan-manager/src/lib.rs:505-521 | writes the charged loan back, nothing for an inactive one |
| LoanManagerContract.LoanManager.ApplyPayment | contratos/loan-manager/src/lib.rs:592-629 | interest first, payoff when the balance is covered, refusal of partial payments on a defaulted loan; whole new state and receipt |
| LoanConservation.StepBalances | contratos/loan-manager/src/lib.rs:329-641 | every call moves a borrower's books by exactly its flow, no part of which is negative |
| LoanConservation.RunBalances | contratos/loan-manager/src/lib.rs:329-641 | over any run principal = opened - repaid, and balance = principal flows + fees charged - payments |
| LoanConservation.PrincipalConserved | contratos/loan-manager/src/lib.rs:329-641 | across all borrowers and all runs: principal opened = outstanding + repaid |
| LoanConservation.PaidOffInFull | contratos/loan-manager/src/lib.rs:592-641 | a loan that ends a run paid off, with no other opened meanwhile, has repaid exactly its principal, and every fee charged on it |
| LoanConservation.LivingLoan | contratos/loan-manager/src/lib.rs:505-629 | while a loan lives its terms never change and its anchor never moves back |
| LoanInterest.OpenedIsFresh | contratos/loan-manager/src/lib.rs:371-404 | what opening writes is a loan on the opening formula |
| LoanInterest.FreshOnFormula | contratos/loan-manager/src/lib.rs:379-404 | at opening the balance already is the formula at the moved anchor |
| LoanInterest.FormulaAtDue | contratos/loan-manager/src/lib.rs:505-561 | the formula gives principal plus full fee from the due date on |
| LoanInterest.OwedIgnoresSchedule | contratos/loan-manager/src/lib.rs:505-561 | up to due + grace, over any run without this borrower's payments, the amount owed is a function of the opening terms and the time alone; asks only that the term product fits or opening leaves nothing to accrue |
| LoanInterest.ExactAtDueExactly | contratos/loan-manager/src/lib.rs:544-561 | charged once, the promised exact total at the due date holds if and only if the whole-term product fits in i128, or the term is one day, or the fee was charged whole at opening |
| LoanInterest.UnpaidRunsExactAtDue | contratos/loan-manager/src/lib.rs:505-561 | over every unpaid run that ends between due and end of grace the same condition decides; otherwise no such run reaches the total |
| LoanInterest.InterestCapped | contratos/loan-manager/src/lib.rs:544-629 | with any interleaving of payments and charges, interest still to come is at most the remaining fee plus one unit per principal-reducing payment |
| LoanInterest.LifetimeInterestCapped | contratos/loan-manager/src/lib.rs:544-629 | counted from opening: at most the full fee plus the repricings |
| LoanDiscipline.PayoffExactly | contratos/loan-manager/src/lib.rs:412-426 | for every live loan and every sum: it closes the loan, through either entry point, if and only if it covers the balance, the hold fits in u64 and so does the late window unless no rate is set or no time has passed the anchor; record zeroed, receipt as reported |
| LoanDiscipline.UnboundedGraceBlocksPayoff | contratos/loan-manager/src/lib.rs:241-247 | the comment that overflow never blocks a payoff is false: three calls with an unbounded grace period after which no payment of any size succeeds, for every borrower with a late rate and every loan that can be opened |
| LoanDiscipline.CloseByPaying | contratos/loan-manager/src/lib.rs:592-641 | paying everything owed and closing are the same transition |
| LoanDiscipline.CreditExactly | contratos/loan-manager/src/lib.rs:295-308 | there is credit for a sum if and only if a stored profile has KYC, has not expired and its limit covers it |
| LoanTerms.OpeningInFigures | contratos/loan-manager/src/lib.rs:329-408 | a loan opens if and only if offer, KYC, expiry, limit, cooldown and i128 and u64 allow it, all on stored fields; then the whole new state with the floored day of the fee and the anchor |
| LoanTerms.OpeningRefusals | contratos/loan-manager/src/lib.rs:329-370 | each error is returned if and only if its guard is the first that does not hold |
| LoanTerms.AdministrationExactly | contratos/loan-manager/src/lib.rs:265-323 | what the operator's calls accept and store, and that nothing else changes |
| LoanGrants.EveryLoanWasGranted | contratos/loan-manager/src/lib.rs:295-351 | for every loan opened in a run from construction the run holds a last call that wrote this borrower's profile, with KYC confirmed, an unexpired date and a limit of at least the principal |
| LoanDiscipline.OpensExactly | contratos/loan-manager/src/lib.rs:329-408 | a loan opens if and only if the stored offer, the KYC, expiry and limit of the stored profile, cooldown and no live loan allow it and no product of the opening formula traps |
| LoanDiscipline.OpenInBounds | contratos/loan-manager/src/lib.rs:329-370 | a loan opens only within limit and offer, after the cooldown, with none alive, and consumes the offer |
| LoanDiscipline.OffersCoverOpens | contratos/loan-manager/src/lib.rs:311-408 | over any run loans opened never outnumber offers written |
| LoanDiscipline.OpeningsSpaced | contratos/loan-manager/src/lib.rs:633-641 | after a payoff the next opening waits for the payoff and for previous start plus hold |
| LoanDiscipline.CloseEffect | contratos/loan-manager/src/lib.rs:412-426 | only a payment of everything owed ends a loan, and the next opening is set to the later of now and start plus the hold stored for the loan's own tenor |
| LoanGrants.HoldAsSet | contratos/loan-manager/src/lib.rs:249-255 | after a hold was set for a tenor, and until it is set again, a payoff of a loan of that tenor makes its borrower wait for that many days from its start |
| LoanGrants.HoldAsConstructed | contratos/loan-manager/src/lib.rs:206-222 | and with none set: four days for tenors 3 and 7, seven for 14, 21 and 30, none for others |
| LoanDiscipline.FindPayoff | contratos/loan-manager/src/lib.rs:412-641 | whenever a loan has ended in a run, the call that paid it off is in the run |
| LoanDiscipline.BorrowingAfterDefault | contratos/loan-manager/src/lib.rs:430-457 | after a default the borrower opens a loan only if the run holds a full payoff and a new positive limit |
| LoanDefaults.DefaultsExactly | contratos/loan-manager/src/lib.rs:430-457 | a default succeeds if and only if the live loan is 15 days past due and grace; then the whole new state: flag, zero limit, 30 days of cooldown |
| LoanDefaults.DefaultedMeansOverdue | contratos/loan-manager/src/lib.rs:430-457 | over every run: a defaulted record is live and overdue past grace and late period |
| LoanDefaults.EveryDefaultIsOverdue | contratos/loan-manager/src/lib.rs:206-222 | in particular in every state from construction on |
| LoanDefaults.DefaultedPaysInFull | contratos/loan-manager/src/lib.rs:592-629 | on a defaulted loan every payment that goes through ends it |
| Base32.DecodeBase32 | backend/src/common/stellar-strkey.ts:4-25 | the wrapping 32-bit loop returns the regrouped digit stream for inputs of every length, or the character error |
| Base32.RegroupsBits | backend/src/common/stellar-strkey.ts:10-22 | bit p of byte k is bit 8k + p of the digit stream |
| Base32.PushDigit | backend/src/common/stellar-strkey.ts:16 | what `<<` pushes out at the top never reaches a byte |
| Base32.EncodesBits | backend/src/common/stellar-strkey.ts:2-25 | the encoder of section 6 of RFC 4648, bit for bit |
| Base32.DecodeEncode | backend/src/common/stellar-strkey.ts:4-25 | decoding undoes encoding for byte strings of every length |
| Base32.EncodeDecode | backend/src/common/stellar-strkey.ts:4-25 | encoding undoes decoding on whole 40-bit groups |
| Base32.CharRoundTrip | backend/src/common/stellar-strkey.ts:2 | characters and digits correspond |
| Crc16.Crc16Xmodem | backend/src/common/stellar-strkey.ts:27-38 | the nested loops compute the register of the whole string |
| Crc16Division.LongDivision | backend/src/common/stellar-strkey.ts:27-38 | fed bit by bit, the register is the remainder of long division by x^16 + x^12 + x^5 + 1 |
| Crc16Division.EnterIsEightBits | backend/src/common/stellar-strkey.ts:30-35 | folding a byte and shifting eight times is feeding its eight bits |
| Crc16Division.CrcIsRemainder | backend/src/common/stellar-strkey.ts:27-38 | the checksum of every byte string is the remainder of its polynomial division |
| Crc16.CrcLinear | backend/src/common/stellar-strkey.ts:27-38 | the checksum is linear over exclusive or |
| Crc16.ShiftsInvertible | backend/src/common/stellar-strkey.ts:32-34 | shifting never loses a nonzero register |
| Crc16.LeadingZeros | backend/src/common/stellar-strkey.ts:27-38 | leading zero bytes do not matter |
| Crc16.TrailingZeros | backend/src/common/stellar-strkey.ts:27-38 | trailing zero bytes cannot hide a nonzero register |
| StrKey.DecodeStellarPublicKey | backend/src/common/stellar-strkey.ts:40-57 | checks in order: characters, length, version byte, little-endian checksum; returns the 32 key bytes |
| StrKey.IsValidStellarPublicKey | backend/src/common/stellar-strkey.ts:59-66 | true exactly when decoding succeeds |
| StrKey.DecodesExactlyEncodings | backend/src/common/stellar-strkey.ts:40-57 | a 56-character string decodes to a key if and only if it is the SEP-0023 encoding of that key |
| StrKey.FiftySixCharacters | backend/src/common/stellar-strkey.ts:4-25 | 56 alphabet characters and 35 bytes correspond one to one |
| StrKey.OtherLengths | backend/src/common/stellar-strkey.ts:40-57 | only 56 or 57 characters can decode, and 57 decode exactly as their first 56 do |
| StrKeySyndrome.SyndromeOfLinear | backend/src/common/stellar-strkey.ts:27-57 | what an error in the characters does to the checksum equation depends on the error alone, and adds up over errors |
| StrKeySyndrome.SyndromeOfOne | backend/src/common/stellar-strkey.ts:27-57 | one wrong character counts as a power of x times its error in the payload, and as its own bits where the little-endian checksum is stored |
| StrKeyPowers.AllPlacesApart | backend/src/common/stellar-strkey.ts:27-38 | errors at two places never agree, for every distance within the payload and every payload place against the four with checksum bits, three distances aside |
| StrKeyErrors.TwoCharactersDetected | backend/src/common/stellar-strkey.ts:40-57 | changing any two characters of a valid 56-character id, wherever they stand, invalidates it, but for the places (20, 55), (21, 53) and (24, 52) |
| StrKeyErrors.TwoCharactersExactly | backend/src/common/stellar-strkey.ts:40-57 | for every id and every two places: a valid twin that differs only there exists if and only if they are one of those three pairs |
| StrKeyErrors.NeighbouringCorruptionDetected | backend/src/common/stellar-strkey.ts:40-57 | so changing one character, or two neighbouring ones, always invalidates an id, also across the checksum boundary |
| StrKeyErrors.ThreeCharactersDetected | backend/src/common/stellar-strkey.ts:40-57 | changing any three neighbouring characters invalidates an id unless the first stands at place 50 or 52 |
| StrKeyErrors.ThreeCharactersExactly | backend/src/common/stellar-strkey.ts:40-57 | for every id and every place: a valid twin that differs only in the three characters from there exists if and only if the place is 50 or 52 |
| StrKeyAnswers.AlphabetExactly | backend/src/common/stellar-strkey.ts:2 | exactly the letters and the digits 2 to 7 decode, letters from 0, digits from 26 |
| StrKeyAnswers.StartsWithG | backend/src/common/stellar-strkey.ts:1-57 | every valid id starts with G and one of A to D, and these alone pass the version check |
| StrKeyAnswers.CheckValue | backend/src/common/stellar-strkey.ts:27-38 | the checksum of `123456789` is the published check value of CRC-16/XMODEM |
| CctpBytes.U32IsBigEndian | backend/src/cctp/cctp-message.ts:53-61 | shift-or and `>>> 0` give the big-endian value over the whole 32-bit range, reading zero past the end |
| CctpBytes.SignedIsWrongExactly | backend/src/cctp/cctp-message.ts:53-61 | without `>>> 0` the value is wrong exactly when the first byte is 0x80 or more |
| CctpBytes.OrAdds | backend/src/cctp/cctp-message.ts:55-58 | or of patterns without common bits is their sum |
| CctpBytes.U256 | backend/src/cctp/cctp-message.ts:63-69 | the loop gives the big-endian value, below 2^256, reading zero past the end |
| CctpBytes.ReadWritten | backend/src/cctp/cctp-test-helpers.ts:43-46 | writing then reading keeps a number modulo the width |
| CctpBytes.WriteRead | backend/src/cctp/cctp-message.ts:53-69 | reading then writing gives the bytes back |
| CctpBytes.HexRoundTrip | backend/src/cctp/cctp-message.ts:71-81 | decoding the hex text of any bytes gives them back |
| CctpBytes.HexNormalForm | backend/src/cctp/cctp-message.ts:71-81 | writing back what a text decodes to gives it with prefix and in lower case |
| CctpMessage.ParseCctpBurnBody | backend/src/cctp/cctp-message.ts:83-100 | the body parser returns the fields at their offsets, or the length error |
| CctpMessage.ParseCctpMessage | backend/src/cctp/cctp-message.ts:102-126 | the message parser: hex, header length, fields, body |
| CctpMessage.MessageRoundTrip | backend/src/cctp/cctp-message.ts:102-126 | every field of every message survives encoding, hex and parsing |
| CctpMessage.ParsedRebuilds | backend/src/cctp/cctp-message.ts:102-126 | whatever parses encodes back to the very bytes that were read |
| CctpMessage.BodyRoundTrip | backend/src/cctp/cctp-message.ts:83-100 | body fields survive, for hook data of every length |
| CctpForwarder.BuildForwarderHookData | backend/src/cctp/cctp-message.ts:150-163 | the buffer filled in place is zeros, version, length, recipient, payload |
| CctpForwarder.HookRoundTrip | backend/src/cctp/cctp-message.ts:150-188 | a built hook parses back to its parts if and only if the recipient's length fits 32 bits |
| CctpForwarder.ParsedHookLayout | backend/src/cctp/cctp-message.ts:171-188 | whatever parses has that layout, apart from the unchecked reserved bytes and version |
| CctpForwarder.DeliverablePlans | backend/src/cctp/stellar-mint.ts:89-123 | a sound burn for our forwarder is planned to its own recipient for ten times its amount |
| CctpForwarder.PlansAreSafe | backend/src/cctp/stellar-mint.ts:89-123 | every plan comes from such a burn: domain, both forwarder fields, positive amount, address, attestation |
| CctpForwarder.BuildTestMessage | backend/src/cctp/cctp-test-helpers.ts:17-49 | the in-place builder lays the message out exactly as the encoder does, amounts in two's complement modulo 2^256 |
| CctpLayout.MessageInFigures | backend/src/cctp/cctp-message.ts:83-126 | exactly hex texts of 376 bytes or more parse, and every field lies at its place in the whole message |
| CctpLayout.DigitExactly | backend/src/cctp/cctp-message.ts:71-77 | the hexadecimal digits by code point, in either case, and their values |
| CctpLayout.HexExactly | backend/src/cctp/cctp-message.ts:71-77 | exactly which texts are hex, and each byte from its two digits |
| CctpLayout.BuiltHookInFigures | backend/src/cctp/cctp-message.ts:150-163 | built hook data byte by byte |
| CctpLayout.BuiltMessageParses | backend/src/cctp/cctp-test-helpers.ts:17-49 | what the built test message parses to |
| CctpLayout.HookInFigures | backend/src/cctp/cctp-message.ts:171-188 | exactly when hook data parses, and what its parts are |
| CctpLayout.PlansExactly | backend/src/cctp/stellar-mint.ts:89-123 | a plan is made if and only if domain, forwarder fields, amount, hook, recipient and attestation are in order, stated on the raw bytes, and everything in it is read off those bytes |
| CctpLayout.PlanRefusals | backend/src/cctp/stellar-mint.ts:89-123 | which error refuses a plan: that of the first check that fails |
| CctpLayout.RescaleExactly | backend/src/cctp/stellar-mint.ts:43-46 | six decimals become seven, negative amounts are refused |
| CctpTransfer.TerminalStates | backend/src/cctp/cctp-transfer.ts:51-65 | no legal path leaves delivered, and failed only leads to delivered |
| CctpOutcomes.TransitionExactly | backend/src/cctp/cctp-transfer.ts:113-138 | the choke point whole: throws exactly off the table's edges; patch keys written, errors cleared along edges only and not on the way to failed |
| CctpTransfer.IrisMeaning | backend/src/cctp/cctp-transfer.ts:171-200 | complete exactly on 200 with a real attestation, terminal exactly on 400 with a reason |
| CctpOutcomes.IrisExactly | backend/src/cctp/cctp-transfer.ts:171-200 | every answer with its contents: attestation, refusal text, waiting times |
| CctpOutcomes.SentinelExactly | backend/src/cctp/cctp-transfer.ts:171-181 | the texts that upper-case to PENDING, and no others, are no attestation |
| CctpTransfer.Reconcile | backend/src/cctp/cctp-transfer.ts:209-256 | reconciliation never throws, from any state, on any answer; what it returns is in `CctpOutcomes.ReconcileExactly` |
| CctpOutcomes.ReconcileExactly | backend/src/cctp/cctp-transfer.ts:209-256 | the whole row after reconciliation from every state on every answer: attested with this attestation and message, failed with this text, one attempt more, delivered, or unchanged |
| CctpTransfer.ReconcileNeverIllegal | backend/src/cctp/cctp-transfer.ts:209-256 | it moves along legal edges only, a consumed nonce always ends delivered, nothing else does, identity and hashes stay |
| CctpTransfer.AttestationKept | backend/src/cctp/cctp-transfer.ts:214-237 | a stored attestation never disappears and this poll's one is not lost |
| CctpTransfer.MessageLostExactly | backend/src/cctp/cctp-transfer.ts:218-245 | exactly when a stored message is overwritten by an absent one |
| CctpOutcomes.PollExactly | backend/src/cctp/cctp-executor.ts:66-70 | a persisted poll stores exactly the reconciled row of this row's nonce |
| CctpRuns.StepKeeps | backend/src/cctp/cctp-executor.ts:66-153 | every step of poll, deliver, crash, persistence and other relayers keeps the invariant |
| CctpRuns.RunKeeps | backend/src/cctp/cctp-executor.ts:66-153 | so does every run |
| CctpRuns.RowNeverRegresses | backend/src/cctp/cctp-executor.ts:66-144 | over every run: identity fixed, legal paths of states, delivered absorbing, attestation never lost |
| CctpRuns.RowNeverRegressesBetween | backend/src/cctp/cctp-executor.ts:66-144 | the same between any two points of a run |
| CctpRuns.DeliveredMeansConsumed | backend/src/cctp/cctp-executor.ts:66-144 | a delivered row means the nonce is consumed on chain |
| CctpRuns.AtMostOneBesidesLost | backend/src/cctp/cctp-executor.ts:112-153 | at no point have more deposits landed than were lost to interruptions plus one, all of them identical |
| CctpRuns.DepositGuaranteeExactly | backend/src/cctp/cctp-executor.ts:66-144 | a delivered vault row stands for lost + 1 deposits, one recorded, if and only if it was not a poll that delivered it |
| CctpRuns.DeliverDepositsOnce | backend/src/cctp/cctp-executor.ts:78-153 | runs of deliver alone: exactly one recorded deposit besides those lost between landing and persisting, each ten times the message amount for the beneficiary |
| CctpRuns.PollDeliversUnrecordedExactly | backend/src/cctp/cctp-executor.ts:66-70 | in every reachable state a persisted poll leaves an undelivered vault row delivered without a recorded deposit if and only if its nonce is consumed |
| CctpRuns.PollSkipsDeposit | backend/src/cctp/cctp-executor.ts:66-70 | so an attested vault row whose nonce another relayer consumed is delivered with no deposit at all |
| CctpDeliver.Executor.Deliver | backend/src/cctp/cctp-executor.ts:78-144 | the straight-line code performs the steps of the step system and no others, on row and chain; their outcomes are in `CctpOutcomes` |
| CctpDeliver.Executor.DepositToVault | backend/src/cctp/cctp-executor.ts:146-153 | one deposit at most, with the plan's amount, hash only when confirmed |
| CctpDeliver.DeliverIsARun | backend/src/cctp/cctp-executor.ts:78-144 | every call is a run without polls, so all run theorems hold of it |
| CctpOutcomes.UndisturbedDelivery | backend/src/cctp/cctp-executor.ts:78-144 | every attested row with a sound plan, direct or vault: one undisturbed call leaves it delivered with its mint hash recorded unless the nonce was consumed before, exactly one recorded deposit in vault mode and none in direct mode |
| CctpOutcomes.UnsoundDelivery | backend/src/cctp/cctp-executor.ts:78-110 | any other row costs no fee: it stays as it is without attestation or message, and fails for a refused plan, another nonce or a stranger as recipient |
| CctpOutcomes.InterruptedMint | backend/src/cctp/cctp-executor.ts:129-135 | a call that loses its mint leaves the row for another try, with no deposit |
| CctpOutcomes.InterruptedDeposit | backend/src/cctp/cctp-executor.ts:112-153 | a call that loses its deposit leaves the row as it was; what landed unheard is the deposit that is lost |
| CctpOutcomes.CompletedPollDelivers | backend/src/cctp/cctp-executor.ts:66-144 | progress: a completed answer to a pending row, persisted, then one undisturbed call, persisted, end delivered with that attestation, message and mint hash |
| ChainSyncService.Service.ReconcileLoan | backend/src/loan/chain-sync.service.ts:584-740 | one transaction: the row is closed exactly when it has no receipt, an event was found, no closer loan exists and the hash is free; otherwise the table is unchanged |
| ChainSyncService.Service.AssignReceipt | backend/src/loan/chain-sync.service.ts:683-704 | amount, receipt, closing time, punctuality, status and late fee as assigned |
| ChainSyncContents.ReconciledExactly | backend/src/loan/chain-sync.service.ts:608-709 | one attempt on the rows' fields: exactly when the row is closed, and then its paid units, hash, time, punctuality by a day of grace, status and late fee |
| ChainSyncContents.RunsCloseByEvents | backend/src/loan/chain-sync.service.ts:584-740 | over any interleaving of transactions and scans every row is as it was or closed by an event a transaction of the run found for it |
| ChainSyncService.Service.SyncAddress | backend/src/loan/chain-sync.service.ts:137-237 | one wallet: ghosts or all rows, errors as caught or passed on |
| ChainSyncService.Service.GroupByAddress | backend/src/loan/chain-sync.service.ts:107-120 | unsettled rows grouped by wallet in query order |
| ChainSyncService.Service.SyncLoansWithChain | backend/src/loan/chain-sync.service.ts:58-262 | a whole cycle over every wallet |
| ChainSyncService.Service.InsertMissingLoan | backend/src/loan/chain-sync.service.ts:380-459 | inserts exactly when the hash is new and the wallet has a user; what the row says is in `ChainSyncContents.InsertedExactly` |
| ChainSyncContents.InsertedExactly | backend/src/loan/chain-sync.service.ts:380-459 | an event is inserted if and only if its hash is new and its wallet has a user; the row then holds the event's wallet, units, seconds, nearest whole days and hash, open and unpaid |
| ChainSyncContents.ScansAddOnlyEvents | backend/src/loan/chain-sync.service.ts:331-353 | over any run of scans rows stay as they are and every added one is the mirror of an event a scan got to |
| ChainSyncService.Service.ScanLoanOpenedEvents | backend/src/loan/chain-sync.service.ts:278-366 | one scan: bootstrap, window, inserts, cursor, counts |
| ChainSyncRuns.ReceiptsUniqueAndFinal | backend/src/loan/chain-sync.service.ts:608-709 | over any interleaving of transactions and scans: closing and opening hashes unique, terms fixed, rows with a receipt never written again |
| ChainSyncRuns.ClosedLoansDoNotOverlap | backend/src/loan/chain-sync.service.ts:645-667 | over any attempts on fixed rows: a loan closed by the sync ends before any later loan of its wallet starts, with the status its due date gives |
| ChainSyncRuns.EventGoesToItsOwner | backend/src/loan/chain-sync.service.ts:645-681 | an event is accepted by exactly the latest loan started by then, if unspent |
| ChainSyncRuns.CycleClosesInOrder | backend/src/loan/chain-sync.service.ts:58-262 | the same for a whole cycle, on every query result and answer |
| ChainSyncContents.CycleClosesTargets | backend/src/loan/chain-sync.service.ts:58-262 | a cycle closes every row it gets to whose found event the row owns, by that event, if and only if no other row carries the hash afterwards |
| ChainSyncContents.CyclePassesOver | backend/src/loan/chain-sync.service.ts:122-236 | rows and wallets without a user, unreadable slots, and with the slot inactive all rows behind the first failing lookup stay as they are |
| ChainSyncRuns.OnlyTargetsChange | backend/src/loan/chain-sync.service.ts:154-236 | a cycle writes only the rows it targets |
| ChainSyncRuns.SparedExactly | backend/src/loan/chain-sync.service.ts:159-181 | spared is exactly the latest unsettled row of a wallet, when the active loan started within a minute of it |
| ChainSyncContents.MatchesExactly | backend/src/loan/chain-sync.service.ts:161-167 | starts match when at most sixty seconds apart, milliseconds cut off |
| ChainSyncRuns.ActiveRowUntouched | backend/src/loan/chain-sync.service.ts:159-181 | the row of the loan that is live on chain survives the cycle unchanged |
| ChainSyncScan.WindowsTile | backend/src/loan/chain-sync.service.ts:286-353 | for any heads, failures and crashes the cursor never moves back and committed windows follow each other without gap or overlap up to it |
| ChainSyncScan.FirstWindow | backend/src/loan/chain-sync.service.ts:290-325 | the first window starts right behind the stored cursor, or on a fresh deployment 100,000 blocks behind the first head that is further out than that |
| ChainSyncContents.WindowExactly | backend/src/loan/chain-sync.service.ts:290-325 | a committed scan reads 10,000 blocks or up to the head, from behind the cursor or 100,000 blocks back, and saves its end |
| ChainSyncScan.CoveredExactlyOnce | backend/src/loan/chain-sync.service.ts:317-353 | every block between the first window and the cursor is in exactly one window |
| ChainSyncScan.WindowMirrorsExactly | backend/src/loan/chain-sync.service.ts:331-343 | a loan is in the table after a window exactly when it was before, or its insert was possible and did not fail |
| ChainSyncScan.RescanIsIdempotent | backend/src/loan/chain-sync.service.ts:331-353 | scanning a window again after a failure completes it, and once complete scanning changes nothing |
| ChainSyncScan.PassedBlocksAreFinal | backend/src/loan/chain-sync.service.ts:345-353 | an insert that failed inside a committed window is never retried by the scanner |
| ChainSyncScan.RunMirrorsExactly | backend/src/loan/chain-sync.service.ts:331-353 | after any run of scans, failures and crashes included, a loan is mirrored if and only if it was before, or some scan got to its event with a user for the wallet and an insert that did not fail |
| ChainSyncScan.MirroredForGoodExactly | backend/src/loan/chain-sync.service.ts:331-353 | once the cursor is past its block the same condition, over the scans so far, decides whether the loan is mirrored after all later scans |
| ChainSyncScan.LoanCanBeLost | backend/src/loan/chain-sync.service.ts:331-353 | two scans over an honest gateway with one failed insert after which the loan is missing and its block passed |
| SignerQueue.TxQueue.Enqueue | backend/src/config/contractConfig.ts:133-149 | appends to its lane and schedules a callback |
| SignerQueue.TxQueue.Dispatch | backend/src/config/contractConfig.ts:122-131 | starts the head of the high lane, else of the low lane, unless busy |
| SignerQueue.TxQueue.Complete | backend/src/config/contractConfig.ts:127-130 | frees the queue and schedules a callback |
| SignerQueue.AtMostOneRunsAndNoLostWakeup | backend/src/config/sorobanConfig.ts:72-99 | in every interleaving at most one task runs, and waiting tasks have a running task or a scheduled callback |
| SignerQueue.LanesAreFifo | backend/src/config/sorobanConfig.ts:72-99 | in each lane started tasks followed by waiting ones are the enqueued ones: in order, once, none lost |
| SignerQueue.CallbacksExactly | backend/src/config/contractConfig.ts:122-149 | over every interleaving one callback is scheduled per enqueued and per completed task, and started tasks run until completed |
| SignerQueue.StartsExactly | backend/src/config/contractConfig.ts:122-131 | a task starts exactly on a callback with nothing running, low only behind no high |
| SignerQueue.EveryStepCounts | backend/src/config/contractConfig.ts:122-149 | without new tasks every step uses up exactly one unit of remaining work |
| SignerQueue.Drains | backend/src/config/contractConfig.ts:122-149 | from any reachable state every schedule without new tasks ends after that many steps with all tasks started |
| SignerQueue.WithChainWriteRetry | backend/src/config/contractConfig.ts:373-421 | the result is that of the first deciding attempt; earlier ones all failed retryably and were waited for in order |
| Preflight.PreflightRepayment | backend/src/loan/loan-repayment.service.ts:123-179 | which branch is taken, what is reported skipped, and the instant derived in each |
| Preflight.DerivedExactly | backend/src/loan/loan-repayment.service.ts:158-179 | the derived instant: now before grace ends or without rate, balance or visible fee, otherwise as far back as the visible fee takes to earn, not a second more, and not less unless grace ended |
| Preflight.NeverTooLong | backend/src/loan/loan-repayment.service.ts:169-177 | dividing the floored fee back never overstates the time |
| Preflight.NotMuchTooShort | backend/src/loan/loan-repayment.service.ts:169-177 | and understates it by less than one unit of balance takes |
| Preflight.NeverBeforeAnchor | backend/src/loan/loan-repayment.service.ts:158-179 | past grace the derived instant is never before the true accrual anchor nor after now, overflow or not |
| Preflight.AfterAnchorByOneUnit | backend/src/loan/loan-repayment.service.ts:158-179 | when the fee product fits it exceeds the anchor by at most ceil(WAD / (rate * amount)) seconds |
| Preflight.SkippedFeeReadsAsNow | contratos/loan-manager/src/lib.rs:574-582 | with interest already charged, when the contract skips the fee for overflow the service sees nothing outstanding |

## Left out

- Soroban authorization, storage lifetimes, events and contract upgrade: taken as given by the callers.
- The vault, the credit ladder and the blockchain gateways: a caller, unread inputs, and arbitrary answers here.
- Two workers delivering the same row at once: the row, not the chain, is what such a race would corrupt, and nothing in the code guards it.
- The error texts that deliver stores are three fixed words in the model; the amount recorded on the row is not compared with the message's, as in the code.
- Batches of five wallets are processed one after the other; runs quantify over arbitrary sequences of transactions, so interleavings are covered by the run theorems.
- Database decimals: amounts of reconciled rows are exact reals, without the rounding to two places.
- The unique index on closeTxHash is not needed by the proofs and not modelled; the one on openTxHash is the insert's own check.
- Credit-score updates and risk renewals after a reconciliation, metrics, notifications.
- Iris transport, nonce auto-clearing, fee bumps and receipt polling: loops around remote calls.
- Address checks delegated to the Stellar SDK: an arbitrary predicate on the address bytes.
- JavaScript numbers above 2^53, UTF-16 and UTF-8 decoding: seconds, counters and addresses stay far below, and addresses are ASCII.
- The chain's balance of the relayer: a deposit may be refused for any reason.
- CctpForwarder.BuildTestMessage: asks for recipient and caller fields of at most 32 bytes; longer ones overlap the neighbouring fields or the end of the buffer, and no caller passes them.
- Floating-point display values, pricing tables, onboarding, KYC, OTP and the frontend: they would only add easy members or rest on library rounding.
