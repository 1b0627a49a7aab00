# DBarter: the ledger, the exchange and their supports

A verified model of the parts of DBarter where correctness is not obvious: the central ledger with its
automatic exchange, the challenge-response signatures, the texts that numbers, values, commands and replies
are exchanged in, the readers/writer lock, and the transaction log.

`dafny verify dfyconfig.toml` checks everything.

## How it is built

- **Ledger and exchange.** `Ledger` says what each operation does to the tables, `Invariants` what all of
  them keep, `Conservation` what they do to the supply. `Market` is one trade and the matching loop, `Merge`
  the reading of value arguments, `Commands` and `Effects` the commands of the shell and what they mean, and
  `Exchange` the running server as a state machine: commands inside and outside of parent transactions,
  trader threads, and theorems over every run. `Database` and `Server` are the objects that update tables in
  place, each method proved against those specifications. `KeyScan` is the cursor scan over composite keys,
  `Sums` sums over tables.
- **Signatures.** `NumberTheory` (up to Fermat's little theorem) and `Rsa`. For one digit this is RSAEP and
  RSADP of RFC 8017, sections 5.1.1 and 5.1.2; the code extends it to numbers of any length.
- **Texts.** `Text` (C strings and decimal numbers), `Rational`, `Portfolio`, `CommandLine`, `Reply`.
- **Lock and log.** `RwLock` and `TxLog`.

## What is taken for granted

- A Berkeley DB table is a finite map; a B-tree is ordered by bytes; sorted duplicates are a list in the order
  of the comparator. Where a new duplicate goes among equal ones is left open (a parameter of the step), and
  equal ones are admitted.
- Each database transaction is one step that happens whole or not at all. While a parent transaction is open,
  its locks make the traders wait.
- GMP is exact. Primality, random numbers and modular inverses are inputs with their contracts.
- Ids drawn by `gen_id` are new, and ids contain no NUL. The index stores a ratio as text; by
  `Rational.RoundTrip` that text is the ratio, so the model keeps the number.
- `%0<n>s` fills with zeros; the round trip of rationals is proved for blanks too. Characters are bytes, in the
  C locale.
- The clock and the network are outside; a new challenge, a parsed response and new ids are parameters.

## Where the code differs from what one would expect

- `rsa_keygen` does not check that its primes differ; `Rsa.RoundTripIffPrimesDiffer` says exactly what that costs.
- `offer_destroy` credits the calling account, not the issuer of the offer (`Effects.IssuerRefunded`).
- `error_check` clears `parent` before it tests it, so every such error is reported as a database error and
  never as an aborted transaction; the model replies the same.
- A withdrawal refused in a parent transaction because no challenge can be made leaves the new note behind,
  empty; no balance and no supply changes. `Effects.RefusalLeaves` says exactly when, `Effects.RefusalExample` shows it.
- A withdrawal in a parent transaction needs the funds even for accounts that may go below zero
  (`Effects.WithdrawCommits`).
- A denied `txn_create` does not close the transaction it began; nothing was written in it, and the model forgets it.
- Destroying an account leaves its offers in the exchange; they go on trading and credit an account without keys
  (`Effects.OrphansLeft`, `Effects.OrphanExample`, `Exchange.OrphansArePaid`).
- `open` appends aborts behind a torn last line without ending that line first; `TxLog.RecoveryIff` says exactly
  when that loses the first of them, and `TxLog.TornExample` shows it.
- Lists of values are not read back in every case: `Portfolio.PortfolioRoundTrip` has the exact condition.

## Model

| member | source | states |
|---|---|---|
| Rsa.RsaCrypt | dmath/rsa.cc:64-104 | The two loops compute the digit recurrence `Crypt`: every base-km digit is raised to the key modulo km, and Horner's rule puts the results together, for inputs of any size. |
| Rsa.RsaKeygen | dmath/rsa.cc:27-49 | The keys it returns: km is the product of the two primes and ks*kp is 1 modulo (p-1)(q-1), after kp was reduced. |
| Rsa.SingleDigit | dmath/rsa.cc:83-86 | One digit x is encrypted to x to the power of the key, modulo km (RSAEP of RFC 8017, section 5.1.1), if and only if x or the key is not 0. |
| Rsa.EveryDigit | dmath/rsa.cc:83-102 | Every digit is encrypted for itself, and the results are the digits of the result, in their places. |
| Rsa.CryptIsPower | dmath/rsa.cc:64-104 | A number of any length is encrypted to something congruent to its power modulo km. |
| Rsa.Challenge | dmath/rsa.cc:51-62 | The challenge is the reduced number congruent to the one drawn. |
| Rsa.DigitRoundTrip | dmath/rsa.cc:83-86 | One digit raised to ks and then to kp is the digit again (Fermat for both primes, then the product of the primes). |
| Rsa.Digitwise | dmath/rsa.cc:83-102 | If every digit survives both exponentiations, every number of any length does, through both loops. |
| Rsa.RoundTrip | dmath/rsa.cc:27-104 | `rsa_crypt` with ks and then kp gives back every x >= 0, for different primes, also when x is larger than the modulus. |
| Rsa.RoundTripIffPrimesDiffer | dmath/rsa.cc:37-46 | Key generation does not compare its primes: the round trip holds for all numbers if and only if they differ, or both keys are 1. |
| Rsa.SquareLosesPrime | dmath/rsa.cc:37-46 | The failing case: with the same prime twice, the number p itself is lost by all keys but the trivial ones. |
| Rsa.VerifyResponse | bom/acct.cc:605-622 | A modulus that is not positive is refused, otherwise the response encrypted with the public key is compared with the challenge. |
| Rsa.OnlyTheSignature | bom/acct.cc:588-622 | Against a challenge of `rsa_challenge` exactly one non-negative response is accepted: the challenge encrypted with the secret key. |
| NumberTheory.Fermat | dmath/rsa.cc:39-45 | Fermat's little theorem, which the choice of phi = (p-1)(q-1) rests on. |
| NumberTheory.PrimeProduct | dmath/rsa.cc:39-46 | What two different primes divide, their product divides. |
| Rational.ToDecimal | dmath/bq.cc:197-213 | The two loops end and compute `Decimal`; the result is 0 exactly when the remaining denominator is 1. |
| Rational.DecimalValue | dmath/bq.cc:197-213 | On success den = 2^a*5^b, exp = a + b, and num/den = k/10^exp. |
| Rational.DecimalIff | dmath/bq.cc:201-212 | It succeeds exactly for denominators of the form 2^a*5^b. |
| Rational.FieldWidth | dmath/bq.cc:241-284 | For a fraction below 1 the padded field has exactly exp characters. |
| Rational.PaddedNumber | dmath/bq.cc:277-284 | The padded field reads as the same number, whether `%0<n>s` fills with zeros or with blanks. |
| Rational.BqToString | dmath/bq.cc:215-301 | The branches print `BqText`: sign, whole part, and a decimal or a fraction. |
| Rational.StringToBq | dmath/bq.cc:303-390 | The reader with its four forms, its sign and its refusals computes `Parse`. |
| Rational.ReadDecimals | dmath/bq.cc:316-324 | The decimal form: the part behind the point is divided by ten once per character. |
| Rational.RoundTrip | dmath/bq.cc:215-390 | Every rational is read back from its text: integers, decimals, fractions, mixed and negative numbers, with either filling. |
| Rational.TextShape | dmath/bq.cc:241-288 | Which form a number is printed in: a decimal exactly for denominators 2^a*5^b above 1, otherwise a fraction, mixed from 1 on; a minus in front exactly for negative numbers. |
| Rational.DecimalText | dmath/bq.cc:316-324 | Digits around a point, also none on either side, read as whole part plus digits over a power of ten. |
| Rational.FractionText | dmath/bq.cc:359-372 | Digits around a slash read as the fraction, and are refused when the denominator is 0. |
| Rational.MixedText | dmath/bq.cc:325-358 | Whole part, plus and fraction; refused when the denominator is 0. |
| Rational.NegativeText | dmath/bq.cc:309-312 | A minus in front negates what stands behind it. |
| Rational.BadCharacter | dmath/bq.cc:373-380 | Any other character makes a text no number. |
| Portfolio.ValueText | bom/value.cc:43-81 | The texts of a value are exactly: an id without an opening brace, a quantity in braces, nothing behind. |
| Portfolio.ValueRoundTrip | bom/value.cc:43-99 | A value is read back from its text if and only if its denomination contains no opening brace. |
| Portfolio.PortfolioToString | bom/value.cc:101-142 | The writer prints the list in the order of a list collected by prepending, that is backwards. |
| Portfolio.PrintAll | bom/value.cc:125-139 | The second loop: texts separated by single blanks. |
| Portfolio.ReadPortfolio | bom/value.cc:144-183 | The reader cuts at blanks, skips further white space and prepends what it reads. |
| Portfolio.PortfolioRoundTrip | bom/value.cc:101-183 | A list is read back in its order (the two reversals cancel) if and only if it is not empty, no denomination contains a blank or an opening brace, and none but the last starts with white space. |
| Portfolio.ReadTrimmed | bom/value.cc:101-183 | What the reader makes of every non-empty list without blanks and opening braces in its denominations: the value printed first, the last of the list, keeps its denomination, the others lose their leading white space. |
| Portfolio.LastFirst | bom/value.cc:101-142 | The text of a list is that of its last value, one blank, and the text of the others. |
| Portfolio.MoreBlanks | bom/value.cc:144-183 | White space behind a blank counts for nothing. |
| Portfolio.EmptyPortfolio | bom/value.cc:101-183 | The empty list prints as the empty string, which the reader refuses. |
| CommandLine.DecodeCharacter | bif/common.cc:104-199 | One character with quotes opened and closed on the way; escapes count inside quotes only. |
| CommandLine.DecodeArgument | bif/common.cc:201-228 | Characters up to an unquoted blank or the end. |
| CommandLine.DecodeString | bif/common.cc:236-288 | Arguments until the line is used up; the 257th is refused. |
| CommandLine.ContainsMetacharacters | bif/common.cc:290-297 | Whether an argument has to be quoted. |
| CommandLine.EncodeOne | bif/common.cc:308-356 | One argument: quoted and escaped when it is empty or has metacharacters. |
| CommandLine.EncodeString | bif/common.cc:299-364 | All arguments, separated by single blanks. |
| CommandLine.EscapeRoundTrip | bif/common.cc:49-199 | Every escaped byte is read back inside quotes, and the cursor stands behind it. |
| CommandLine.QuotedRoundTrip | bif/common.cc:104-228 | A quoted argument is read back up to its closing quote. |
| CommandLine.PlainRoundTrip | bif/common.cc:104-228 | An argument without metacharacters stands for itself. |
| CommandLine.RoundTrip | bif/common.cc:236-364 | Every list of at most 256 arguments is read back, with empty arguments, quotes, backslashes and unprintable bytes; longer lists are refused. |
| CommandLine.EscapeShape | bif/common.cc:313-350 | Which characters stand for themselves inside quotes, which take two characters, and that all others take four. |
| CommandLine.EncodeArgShape | bif/common.cc:305-356 | An argument stands for itself exactly when it is not empty and has no metacharacters. |
| CommandLine.EncodedIsPrintable | bif/common.cc:299-364 | An encoded line is one line of printable characters, whatever the arguments are. |
| CommandLine.OctalEscape | bif/common.cc:49-63 | A backslash and three octal digits stand for the character of that number, up to 377. |
| CommandLine.HexEscape | bif/common.cc:77-102 | Hexadecimal digits are read in either case. |
| CommandLine.Glued | bif/common.cc:201-228 | Quotes may open in the middle of an argument; both parts belong to it. |
| CommandLine.UnclosedLine | bif/common.cc:104-228 | A quote that is never closed is refused. |
| CommandLine.UnprintableLine | bif/common.cc:107-116 | An unprintable character outside of quotes makes a line unreadable. |
| CommandLine.BadEscape | bif/common.cc:140-192 | What may stand behind a backslash in quotes, and which digits have to follow; anything else is refused. |
| CommandLine.HexDigits | bif/common.cc:77-102 | What is a hexadecimal digit, of which value. |
| Reply.Connection.ReadDescription | bif/client.cc:60-79 | The bytes up to the first newline, which is consumed; without one everything is consumed and the read fails. |
| Reply.Connection.ReadData | bif/client.cc:83-103 | The bytes up to a line with a single dot. |
| Reply.Connection.ReadOneMessage | bif/client.cc:55-110 | One reply: exactly its bytes are consumed; on failure everything is. |
| Reply.ReadsBack | bif/client.cc:55-110 | A reply followed by anything gives back its two parts and leaves the rest, if and only if no line of its body is a single dot. |
| Reply.CodedReply | bif/client.cc:55-110 | A reply with a code and words behind it is read back with the number of the code, if and only if no line of its body is a single dot. |
| Reply.ManyReadBack | bif/client.cc:55-110 | n replies in a row are returned in turn by n calls, and exactly their bytes are consumed. |
| RwLock.MutexRw.constructor | dthread/mutex_rw.cc:8-11 | The free lock. |
| RwLock.MutexRw.RLock | dthread/mutex_rw.cc:17-24 | One pass of the wait loop: enter, or go to sleep while there is a writer. |
| RwLock.MutexRw.RLockNb | dthread/mutex_rw.cc:26-37 | EBUSY instead of sleeping; the result is 0 exactly when the caller is inside afterwards. |
| RwLock.MutexRw.RUnlock | dthread/mutex_rw.cc:40-51 | The last reader signals; without readers it is an error. |
| RwLock.MutexRw.WLock | dthread/mutex_rw.cc:53-60 | One pass of the wait loop: enter, or go to sleep while anybody is inside. |
| RwLock.MutexRw.WLockNb | dthread/mutex_rw.cc:62-73 | EBUSY instead of sleeping; the result is 0 exactly when the caller is inside afterwards. |
| RwLock.MutexRw.WUnlock | dthread/mutex_rw.cc:75-86 | The writer leaves and wakes everybody; without a writer it is an error. |
| RwLock.InvStep | dthread/mutex_rw.cc:17-86 | Every step of every thread keeps the invariant: the counters count the threads inside, a writer is alone, readers wait only for a writer, and a free lock with waiters has a woken thread. |
| RwLock.MutualExclusion | dthread/mutex_rw.cc:17-86 | Over every interleaving of any number of threads no two writers and no writer with a reader hold the lock. |
| RwLock.NoLostWakeup | dthread/mutex_rw.cc:40-86 | When the lock is free and somebody waits, some thread has been woken, and its next step gets the lock, although the last reader signals only one. |
| RwLock.Granted | dthread/mutex_rw.cc:17-73 | A reader gets in exactly when nobody writes, a writer exactly when nobody is inside; otherwise the blocking calls wait and the others change nothing. |
| RwLock.OthersStay | dthread/mutex_rw.cc:17-86 | A call moves no other thread, but for the wakeups of an unlock. |
| RwLock.Wakeups | dthread/mutex_rw.cc:40-86 | Who is woken: everybody by a writer, those the signal releases by the last reader, nobody by other readers. |
| RwLock.Left | dthread/mutex_rw.cc:40-86 | After unlocking the thread is outside. |
| RwLock.NeverStuck | dthread/mutex_rw.cc:17-86 | As long as a request is unfinished some step can be taken that finishes one. |
| RwLock.FinishingShrinks | dthread/mutex_rw.cc:17-86 | Every unlock and every step of a woken thread lowers a measure. |
| RwLock.Drains | dthread/mutex_rw.cc:17-86 | Without new requests and spurious wakeups every schedule is bounded, and it ends exactly when every thread is idle again. |
| RwLock.Served | dthread/mutex_rw.cc:17-86 | A request that was made and is over was granted in between. |
| TxLog.Log.StateGrow | dx/log.cc:136-154 | 64 entries at first, later doubled or up to the id; old entries stay and new ones are null. |
| TxLog.Log.ReplayLoop | dx/log.cc:180-208 | The first loop of `sync`: every complete line is decoded and applied. |
| TxLog.Log.Sweep | dx/log.cc:209-217 | The second loop: an abort is appended for every transaction still begun. |
| TxLog.Log.Sync | dx/log.cc:180-218 | Replay and sweep together. |
| TxLog.Log.NewXId | dx/log.cc:220-222 | The counter is handed out and raised. |
| TxLog.X.Begin | dx/x.cc:34-42 | A transaction still begun is aborted first; then a new id is logged as begun: the steps of `TxLog.Next`, whatever other transactions are live. |
| TxLog.X.Commit | dx/x.cc:44-51 | Only a begun transaction commits, and one line says so: the commit step of `TxLog.Next`. |
| TxLog.X.Abort | dx/x.cc:53-60 | Only a begun transaction aborts, and one line says so: the abort step of `TxLog.Next`. |
| TxLog.Open | dx/log.cc:25-38 | Opening a file with a new object succeeds exactly when the file replays, and is the crash-and-recover step of `TxLog.Next`, whatever was in memory before. |
| TxLog.ReplayRecords | dx/log.cc:180-208 | The lines written for records replay to the records, one by one. |
| TxLog.ReplayAppend | dx/log.cc:180-208 | A terminated file followed by more replays as the file and then the rest. |
| TxLog.SweepAborts | dx/log.cc:209-217 | Replaying the appended aborts turns exactly the begun transactions into aborted ones. |
| TxLog.Recovery | dx/log.cc:180-218 | After recovery nothing is begun, every outcome is kept, the counter is above every id, and a second recovery appends nothing. |
| TxLog.ReplayTail | dx/log.cc:94-119 | What is appended to a file continues its torn last line. |
| TxLog.RecoveryIff | dx/log.cc:180-218 | For every file, with a torn last line or not: recovery is complete if and only if nothing was unfinished or the first appended abort is still read as such behind the torn line. |
| TxLog.TornExample | dx/log.cc:180-218 | A file whose torn last line swallows the abort appended to it. |
| TxLog.StepKeeps | dx/x.cc:34-60 | Begin, commit, abort and crash with recovery keep file, counter and live transactions consistent and change no outcome. |
| TxLog.StepMeans | dx/log.cc:156-178 | A begin makes its id begun, a commit committed, an abort aborted, a recovery aborts what was begun, and the status of every other id stays. |
| TxLog.CommittedForever | dx/log.cc:172-178 | An id that is committed once is committed in every later replay of the file, over every run with crashes. |
| TxLog.AbortedForever | dx/log.cc:164-170 | So is an id that its owner or a recovery aborts. |
| TxLog.StrangeLine | dx/log.cc:187-202 | Any other line of words is passed over by the replay. |
| TxLog.Lines | dx/x.cc:16-32 | The lines as they stand in the file. |
| TxLog.GrownReaches | dx/log.cc:136-154 | The state array reaches an id exactly when it is not the first one or below 64. |
| TxLog.OutcomesAreFinal | dx/log.cc:180-222 | Over every run with any number of crashes, what is committed or aborted stays so. |
| TxLog.NewIdsAreNew | dx/log.cc:220-222 | In every reachable state the ids from the counter on have never been used. |
| KeyScan.PrefixConvex | bom/acct.cc:439-505 | Between a prefix and a key that starts with it lie only keys that start with it. |
| KeyScan.RawInjective | bom/acct.cc:360-370 | Two ids with their NULs behind them, one after the other, are two ids again in one way only. |
| KeyScan.First | bom/acct.cc:439-472 | The cursor set to `id\0` finds the least key of this id, or nothing if it has none. |
| KeyScan.Following | bom/acct.cc:474-505 | The next key of this id, or nothing behind its last one. |
| KeyScan.GetPortfolio | bom/acct.cc:507-545 | The scan lists the entries of the id, the last key first. |
| KeyScan.DelPortfolio | bom/note.cc:484-516 | The scan deletes every entry of the id and leaves all others as they are. |
| KeyScan.ListingExact | bom/note.cc:432-475 | A value is listed if and only if the table holds it for this id. |
| KeyScan.ListingOrder | bom/acct.cc:507-545 | The list starts with the last key and goes backwards. |
| KeyScan.ListingDistinct | bom/note.cc:432-475 | No denomination is listed twice. |
| Database.Tables.NewEvent | bom/event.cc:94-110 | Event ids are consecutive; the log is only appended to. |
| Database.Tables.PutValue | bom/acct.cc:390-437 | A balance of zero is deleted instead of stored. |
| Database.Tables.Credit | bom/acct.cc:624-648 | The balance grows by the value and a credit event is logged, nothing else changes. |
| Database.Tables.Debit | bom/acct.cc:650-693 | A debit below zero goes through only for super accounts and flagged issuers of the denomination; it is refused or fails without a change otherwise. |
| Database.Tables.DebitForced | bom/acct.cc:695-719 | The balance shrinks by the value, below zero if need be, and a debit event is logged. |
| Database.Tables.GetNoteList | bom/acct.cc:721-780 | The notes of an account, the last one first. |
| Database.Tables.DelNoteList | bom/acct.cc:782-797 | All notes of an account are destroyed. |
| Database.Tables.DestroyAcct | bom/acct.cc:921-942 | Event, notes, balances, keys and flags; the offers of the account stay. |
| Database.Tables.SetNoteIssuer | bom/note.cc:124-160 | Issuer and list of the account, without a second entry. |
| Database.Tables.DelNoteIssuer | bom/note.cc:162-220 | Both are removed; a missing issuer is no error. |
| Database.Tables.DestroyNote | bom/note.cc:572-587 | Event, issuer, challenge and all values of the note. |
| Database.Tables.SetOfferIssuer | bom/offer.cc:134-180 | Issuer and list of the account, at the front. |
| Database.Tables.DelOfferIssuer | bom/offer.cc:182-240 | Both are removed; a missing issuer is no error. |
| Database.Tables.SetIndex | bom/offer.cc:360-411 | An entry with the ratio ask/bid goes to its place in the sorted list; a bid of zero is an error. |
| Database.Tables.DelIndex | bom/offer.cc:413-478 | The cursor finds the entry of this offer and deletes only it. |
| Database.Tables.DestroyOffer | bom/offer.cc:480-510 | Event, both values, issuer and index entry; nothing but the event for an offer that is not there. |
| Database.Tables.FindBestOffer | bom/offer.cc:512-562 | None means that no offer of the pair is live; an entry is a live offer of least current ratio, with that ratio, whenever the offers are in order. |
| Database.Tables.FindAllOffers | bom/offer.cc:564-627 | All entries, the worst first. |
| Invariants.InsertFacts | bom/db.cc:47-53 | A put among sorted duplicates keeps the list sorted and adds exactly the new entry, wherever it goes among equals. |
| Invariants.IndexInsert | bom/offer.cc:360-411 | Creating an offer keeps the index in agreement with the offers: every list holds exactly the live offers of its pair, sorted by their current ratio. |
| Invariants.IndexRemove | bom/offer.cc:413-478 | Destroying an offer keeps it so. |
| Invariants.IndexScale | bif/trader.cc:131-177 | A partial fill keeps it so without touching the index, because it keeps the ratio. |
| Invariants.ReverseAddLast | bom/note.cc:124-160 | The list of notes of every account and the issuers of the notes agree both ways after `set_issuer`. |
| Invariants.ReverseAddFirst | bom/offer.cc:134-180 | The same for offers. |
| Invariants.ReverseDrop | bom/offer.cc:182-240 | The same after `del_issuer`. |
| Invariants.JournalStep | bom/event.cc:443-496 | If the log replays to the balances before an event it does so after it, and no balance of zero is stored. |
| Invariants.InvDestroyAcct | bom/acct.cc:921-942 | Destroying an account keeps the whole invariant, though its event is logged before its notes are destroyed. |
| Invariants.OffersUnlist | bom/offer.cc:480-510 | Destroying an offer keeps offers, issuers and index in agreement. |
| Invariants.OffersList | bif/shell.cc:2668-2679 | The four writes of a new offer keep them in agreement. |
| Market.TradeIsFair | bif/trader.cc:94-129 | In all three cases nothing is overfilled, one side is filled in full, each issuer trades at its own ratio, and nobody receives more than the other gives; the gap closes on the side of a partial fill. |
| Market.BestIsBest | bom/offer.cc:512-562 | The offer found has the smallest ratio of all live offers of the pair, by the ratios they have now. |
| Market.TradeFills | bif/trader.cc:121-177 | The writes in their order amount to filling the two offers by their fractions. |
| Market.FillPreserves | bif/trader.cc:136-177 | Filling an offer keeps the offers' invariant; what is left keeps pair and ratio. |
| Market.TradePreserves | bif/trader.cc:121-177 | A trade keeps the whole invariant, creates no offer, keeps pair and ratio of the survivors and destroys at least one offer. |
| Market.StoppedIsUncrossed | bif/trader.cc:82-95 | When the two best offers do not cross, no two live offers of the pair do. |
| Market.ProcessUncrosses | bif/trader.cc:184-213 | The loop ends; then the pair is uncrossed, the invariant holds, and the survivors keep pair and ratio. |
| Market.TradesIff | bif/trader.cc:82-95 | A pair trades exactly when two live offers can pay for each other: the product of the asks is at most the product of the bids, in the quantities they have now. |
| Market.UncrossedMeans | bif/trader.cc:94-95 | Uncrossed means that no two live offers of the pair can pay for each other. |
| Market.ProcessSettles | bif/trader.cc:184-213 | When the matching has ended, no two live offers of the pair can. |
| Market.SupplyTrade | bif/trader.cc:121-177 | A trade lowers the supply by exactly its unclaimed spread, which is never negative and zero in other denominations. |
| Market.SupplyProcess | bif/trader.cc:184-213 | So does a whole matching, by the sum of its spreads. |
| Merge.ParseValues | bif/shell.cc:1210-1237 | The loop over the arguments of credit, debit and note_withdraw. |
| Merge.Place | bif/shell.cc:1228-1236 | The inner loop: the first entry of the same denomination takes the new quantity. |
| Merge.Gathered | bif/shell.cc:1435-1462 | The list exists exactly when every argument is a positive value; it has one positive entry per denomination with the sum of its arguments. |
| Merge.GatheredOrder | bif/shell.cc:1435-1462 | The denominations stand in the reverse order of their first appearance. |
| Commands.CheckedWithdraw | bif/shell.cc:1469-1523 | In a parent transaction the funds check at the start decides: every debit behind it succeeds. |
| Commands.FundedSucceeds | bif/shell.cc:1507-1523 | With the funds for every entry of a list without repeated denominations, no debit of the loop is refused. |
| Commands.WithdrawCmdInv | bif/shell.cc:1418-1535 | A withdrawal keeps the invariant, also when a refusal leaves half a note in a parent transaction. |
| Commands.DepositCmdInv | bif/shell.cc:1595-1691 | A deposit keeps the invariant. |
| Commands.OfferCreateCmdInv | bif/shell.cc:2609-2692 | Creating an offer keeps the invariant. |
| Effects.WithdrawCommits | bif/shell.cc:1418-1535 | A withdrawal succeeds exactly when all arguments are positive values, the account has a positive modulus, and it covers the total of every denomination; in a parent transaction privilege does not help. |
| Effects.AdminCommits | bif/shell.cc:1192-1416 | Credit and debit go through exactly for super accounts, existing accounts, positive values and existing denominations. |
| Effects.CreditCmdIs | bif/shell.cc:1286-1290 | What an admin's credit leaves: exactly the amounts of the command line went to the named account and to nobody else, and are logged. |
| Effects.DebitCmdIs | bif/shell.cc:1398-1401 | The same for a debit. |
| Effects.AdminReplies | bif/shell.cc:1192-1416 | What both are answered when they do not go through. |
| Effects.WithdrawReplies | bif/shell.cc:1418-1535 | What a withdrawal is answered when it does not go through. |
| Effects.DepositReplies | bif/shell.cc:1595-1691 | What a deposit is answered when it does not go through. |
| Effects.OtherReplies | bif/shell.cc:2539-2692 | What the offer commands and acct_destroy are answered when they do not go through. |
| Effects.WithdrawOthers | bif/shell.cc:1487-1523 | A withdrawal touches no note but its own, refused or not. |
| Effects.DepositOthers | bif/shell.cc:1658-1675 | A deposit touches no note but its own, and logs its credits and the destroyed note. |
| Effects.WithdrawLog | bif/shell.cc:1507-1528 | The log of a withdrawal: its debits, then the new note. |
| Effects.OfferCreateCommits | bif/shell.cc:2609-2692 | An offer is taken exactly when both sides are positive values of different denominations and the bid is covered. |
| Effects.DestroyersCommit | bif/shell.cc:2539-2607 | Who may destroy an offer, and who an account. |
| Effects.WithdrawnIs | bif/shell.cc:1418-1535 | What a withdrawal leaves: the amounts are gone from the account and in the note, which has its issuer and challenge. |
| Effects.DepositedIs | bif/shell.cc:1595-1691 | What a deposit leaves: all the note held is with the depositor and the note is gone. |
| Effects.NoteIsPayment | bif/shell.cc:1418-1691 | Withdrawn by one account and deposited by another, exactly the amounts of the command line have gone from the one to the other. |
| Effects.DepositCommits | bif/shell.cc:1621-1656 | A deposit goes through exactly when the note exists and the response answers its challenge under the keys of its issuer. |
| Effects.OnlySignerDeposits | bom/note.cc:543-570 | A note is deposited with exactly one response: its challenge encrypted with the secret key of its issuer. |
| Effects.OfferCreatedIs | bif/shell.cc:2655-2684 | What a new offer leaves: the bid is gone from the account and held by the offer, with the two events. |
| Effects.OfferDestroyedIs | bif/shell.cc:2586-2604 | What a cancelled offer leaves: the rest of the bid is with the caller, whoever issued the offer. |
| Effects.WithdrawCmdSupply | bif/shell.cc:1418-1535 | A withdrawal leaves the supply of every denomination as it is, refused or not. |
| Effects.DepositCmdSupply | bif/shell.cc:1595-1691 | So does a deposit. |
| Effects.OfferCreateCmdSupply | bif/shell.cc:2609-2692 | So does creating an offer. |
| Effects.OfferDestroyCmdSupply | bif/shell.cc:2539-2607 | So does destroying one, though the caller gets the bid. |
| Effects.CreditCmdSupply | bif/shell.cc:1192-1304 | An admin's credit adds exactly the sum of its arguments. |
| Effects.DebitCmdSupply | bif/shell.cc:1306-1416 | An admin's debit removes exactly the sum of its arguments. |
| Effects.AcctDestroyCmdSupply | bif/shell.cc:734-786 | Destroying an account removes its balance and what its notes hold. |
| Effects.RefusalLeaves | bif/shell.cc:1486-1503 | A withdrawal refused in a parent transaction leaves the tables as they were if and only if it is not the modulus alone that stands in its way; then exactly the issuer of the new note stays behind. |
| Effects.RefusalExample | bif/shell.cc:1486-1503 | An account with funds and the modulus 0 for which that happens. |
| Effects.AcctDestroyedIs | bom/acct.cc:921-942 | What a destroyed account leaves: its keys, flags and balances are gone, those of others and all offers stay. |
| Effects.AcctDestroyedNotes | bom/acct.cc:782-797 | The notes of a destroyed account are gone, all others stay as they are. |
| Effects.AcctDestroyedLog | bom/acct.cc:921-942 | Its log: the account first, then its notes, the newest first. |
| Effects.OfferDestroyedLog | bif/shell.cc:2586-2604 | The log of a cancelled offer. |
| Effects.NewestFirst | bom/note.cc:124-160 | A new note is the first that the list of its account gives, and a new offer too. |
| Effects.OrphansLeft | bom/acct.cc:921-942 | It orphans exactly the offers in its own list, so it orphans some if and only if that list is not empty. |
| Effects.OrphanExample | bom/acct.cc:921-942 | An account whose one offer outlives it. |
| Effects.IssuerRefunded | bif/shell.cc:2586-2604 | The issuer of a cancelled offer has the bid back if and only if it is the issuer who cancels. |
| Effects.RefusedInside | bif/shell.cc:1469-1523 | A withdrawal refused in a parent transaction has touched no balance. |
| Exchange.NextValid | bif/shell.cc:289-370 | Every command, transaction boundary and trader step keeps the invariant, in the tables and in the state a parent transaction would go back to. |
| Exchange.RunValid | bom/acct.cc:624-719 | In every reachable state the index agrees with the offers, lists agree with issuers, notes are positive, and the log replays to exactly the stored balances. |
| Exchange.RunJournal | bom/event.cc:443-496 | In every reachable state the log alone tells every balance: credits minus debits since the account was last destroyed; an entry is stored exactly when that is not zero. |
| Exchange.RunBest | bom/offer.cc:512-562 | In every reachable state the offer found is live and no live offer of the pair has a smaller ratio, though fills never touch the index. |
| Exchange.CommandMoves | bif/shell.cc:1192-2692 | Every command that does not end in an error moves exactly what its arguments say, between the accounts they name and for those who may, inside a parent transaction or outside; everything else moves nothing. |
| Exchange.CreateOpens | bif/shell.cc:2263-2305 | Who can open a parent transaction, and that opening changes no table. |
| Exchange.CommitIsFinal | bif/shell.cc:2307-2332 | A commit keeps the tables, no abort and no error goes back behind it, and the traders run again. |
| Exchange.AllOrNothing | bif/shell.cc:2263-2354 | Whatever commands were taken since txn_create, an abort or an error restores every table as it was then, and a commit keeps every table. |
| Exchange.ErrorRestores | bif/shell.cc:342-362 | An error in any command restores the tables of its start, or of the start of the parent transaction, which is lost. |
| Exchange.WorkKept | bif/shell.cc:302-322 | A committed command keeps its work; a refused one keeps nothing outside of a parent transaction and what it had written inside. |
| Exchange.TradersOf | bif/market.cc:51-58 | A trader is started by a committed offer_create on its pair and by nothing else. |
| Exchange.RunSettled | bif/trader.cc:184-213 | In every reachable state no two live offers of a pair without a trader can pay for each other. |
| Exchange.TraderTrades | bif/trader.cc:69-182 | A running trader with two offers that can pay for each other trades. |
| Exchange.TradeLog | bif/trader.cc:131-177 | The log of a trade: both credits, then the offers that were filled in full. |
| Exchange.RunCalm | bif/trader.cc:184-213 | In every reachable state every pair is uncrossed on which no trader runs; when all traders have ended no two offers cross. |
| Exchange.TraderShrinks | bif/trader.cc:184-213 | Every transaction of a trader uses up an offer or ends the trader. |
| Exchange.TradersEnd | bif/trader.cc:184-213 | However many traders take turns, between two commands they take at most as many steps as there are offers and traders. |
| Exchange.CreateAndMatch | bif/shell.cc:2609-2692 | An exchange uncrossed in all pairs is so again after `offer_create` and the matching it starts. |
| Exchange.TradeMoves | bif/trader.cc:121-177 | What a trade does to every balance and every offer, and that nothing else changes. |
| Exchange.BothPaid | bif/trader.cc:131-147 | Both issuers of a trade have more of what they asked for than before. |
| Exchange.OrphansArePaid | bif/trader.cc:131-147 | A trade pays an account without a public key if and only if one of its offers is orphaned. |
| Exchange.RunBalanced | bif/shell.cc:1192-1691 | Along every run, with rollbacks, the supply and the books agree at every point. |
| Exchange.RunSupply | bif/shell.cc:1192-1691 | Over every run the supply changes by exactly the admin credits and debits, the spreads of trades and the destroyed accounts. |
| Exchange.NothingCreated | bif/trader.cc:131-177 | Without those commands the supply of no denomination ever grows. |
| Exchange.RunNonNeg | bom/acct.cc:650-693 | While flags and issuers stay and nobody is debited by force, only super accounts and flagged issuers are ever below zero, over every run with trades. |
| Exchange.RefusedWithdrawal | bif/shell.cc:1418-1535 | A refused withdrawal changes no balance, inside a parent transaction or outside. |
| Server.Trader.Execute | bif/trader.cc:69-182 | One match: success says whether the best offers cross, and the tables are those after the trade, or unchanged. |
| Server.Trader.Process | bif/trader.cc:184-213 | The loop ends with the pair uncrossed and the invariant intact. |
| Server.Shell.ErrorCheck | bif/shell.cc:342-362 | An error goes back to the start of the command, or of the parent transaction, which is lost. |
| Server.Shell.Credit | bif/shell.cc:1192-1304 | All tables, the parent transaction and the traders afterwards are those of the step of `Exchange.Next` for this command, and the reply is the one of its outcome, with every error path. |
| Server.Shell.Debit | bif/shell.cc:1306-1416 | All tables, the parent transaction and the traders afterwards are those of the step of `Exchange.Next` for this command, and the reply is the one of its outcome, with every error path. |
| Server.Shell.CheckFunds | bif/shell.cc:1469-1485 | The check at the start of a withdrawal in a parent transaction. |
| Server.Shell.MoveToNote | bif/shell.cc:1507-1523 | The loop of the withdrawal: debit, then set the value of the note. |
| Server.Shell.NoteWithdraw | bif/shell.cc:1418-1535 | All tables, the parent transaction and the traders afterwards are those of the step of `Exchange.Next` for this command, and the reply is the one of its outcome, with every error path. |
| Server.Shell.NoteDeposit | bif/shell.cc:1595-1691 | All tables, the parent transaction and the traders afterwards are those of the step of `Exchange.Next` for this command, and the reply is the one of its outcome, with every error path. |
| Server.Shell.OfferCreate | bif/shell.cc:2609-2692 | The same for an offer; on success, and only then, a trader is started on its pair. |
| Server.Shell.OfferDestroy | bif/shell.cc:2539-2607 | All tables, the parent transaction and the traders afterwards are those of the step of `Exchange.Next` for this command, and the reply is the one of its outcome, with every error path. |
| Server.Shell.AcctDestroy | bif/shell.cc:734-786 | All tables, the parent transaction and the traders afterwards are those of the step of `Exchange.Next` for this command, and the reply is the one of its outcome, with every error path. |
| Server.Shell.TxnCreate | bif/shell.cc:2263-2305 | Opens a parent transaction for accounts that may, the step of `Exchange.Next`. |
| Server.Shell.TxnCommit | bif/shell.cc:2307-2332 | Closes the parent transaction and keeps what was done in it, the step of `Exchange.Next`. |
| Server.Shell.TxnAbort | bif/shell.cc:2334-2354 | Restores the tables of its start, the step of `Exchange.Next`. |
| Server.Shell.RunTrader | bif/trader.cc:184-213 | One transaction of a running trader is a step of the model. |
| Server.Shell.OfferListByDenom | bif/shell.cc:2470-2537 | The offers of a pair in the order of the index, after two reversals. |
| Server.ListedBestFirst | bif/shell.cc:2470-2537 | That list holds exactly the live offers of the pair, once each, the best current ratio first. |

## Left out

- Sockets, threads as such, file descriptors, CGI, the Perl bindings, the session layer and everything that only reads or writes attributes.
- Memory: buffer sizes, reallocation and deletion. Strings are sequences.
- Retries after `EAGAIN`: a step that would be retried is taken once. An error in a command is a step of its own (`FaultStep`), so losing a parent transaction is covered.
- Login: the commands are modelled for an authenticated session.
- The tables of transaction ids, promises and per-account event lists, and the reverse table of denominations, whose writers do not agree with their readers.
- Several parent transactions at a time: one is open at most, and other commands in between are attributed to it.
- Rsa.RsaCrypt: requires a modulus of at least 2 or an input that is not positive, because with modulus 1 the digit loop does not end; exponents are not negative.
- Rsa.RsaKeygen: starts from the drawn primes, the drawn exponent and its inverse; drawing them is left to its contract.
- Rsa.VerifyResponse: does not answer for the modulus 1 with a positive response, nor for negative exponents, for which `mpz_powm` needs an inverse.
- Server.Shell.NoteDeposit: replies that the signature is wrong in those two cases, in which the server would not reply or would end.
- Rational.StringToBq: a denominator of 0 behind a plain `/` is refused, where `string_to_bq` leaves the outcome to GMP.
- Reply.Connection.ReadOneMessage: does not bound the length of a message.
- RwLock.Drains: excludes spurious wakeups, which could go on for ever; the safety results include them.
- TxLog.Log.ReplayLoop: ids that do not fit the state array (a first id of 64 or more, or ids from 2^31 on) end the replay with an overrun, where `_state_grow` makes an array that is too short.
- TxLog.Recovery: requires a terminated file, as `x::begin`, `x::commit` and `x::abort` write it; `TxLog.RecoveryIff` covers every other file.
- TxLog.StepKeeps: opening the log a second time while transactions are live is not a step.
- Server.Shell.TxnCreate: does not write the tables of transaction ids, and a denied command leaves no open transaction behind.
- Server.Shell.OfferCreate: the trader thread starts with the commit of the command; inside a parent transaction it waits for the end of that transaction.
- The remaining commands of the shell (creating accounts and denominations, setting flags and keys, messages): their effect on the model is an arbitrary change of flags, keys and issuers (`AdminStep`).
