# Wallet ledger

A model of the in-memory wallet of `pkg/wallet/service.go`. The `Service`
type keeps an account counter and the lists of accounts, payments and
favourite payment templates. It registers accounts by phone, deposits,
pays, saves a payment as a favourite, pays again from a favourite, updates
records in place, and exports each list as a plain-text dump.

The project is structured as follows:

- `types.dfy` (modules `Types` and `Lookup`) has the three record types and
  the six errors. It also has the first-match search that every `Find*`
  lookup uses.
- `ledger.dfy` (module `Ledger`) is the specification. Each operation is a
  pure function from a `State` (the counter and the three lists) to the new
  state and the result. The lemmas beside these functions state what each
  operation does on every path, error paths included. They also state which
  invariants each operation keeps, relative to an invariant named `Valid`:
  - account ids are increasing and no larger than the counter;
  - every payment and every favourite names an existing account;
  - payment ids are unique, and so are favourite ids.
- `wallet.dfy` (module `Wallet`) has `class Service`. Its four fields are
  updated in place by methods that follow the source statement by statement:
  `for` scans with early return, the `+=` loops of Export, and the
  cumulative `dir`. Each state-changing method is proved to leave exactly
  the state and result of its `Ledger` function. Each loop method is proved
  to compute its specification function.
- `dump.dfy` (module `Dump`) covers the Export side:
  - the three line formats and the text a loop builds from them;
  - the nested dump paths, and the order in which Export writes and stops;
  - readers that show which formats can be parsed back.
- `decimal.dfy` (module `Decimal`) is `strconv.Itoa` of a mathematical
  integer, together with the parser that reads it back.
- `scenarios.dfy` is a client that registers, deposits and pays using
  only the `Service` contracts.

Records are values. The three `Find*` lookups return an index into their
list, which stands for the pointer they return. The service's own updates
through such a pointer become a replacement of that list element.
`RegisterAccount`, `Deposit`, `Pay`, `FavoritePayment` and `PayFromFavorite`
return a copy of the record as it is when the call returns. Later updates
of the stored record do not reach that copy, whereas in Go the caller holds
an alias of it. In the source, `UpdateServiceAccount`, `UpdateServicePayment` and
`UpdateServiceFavorite` dereference a nil pointer when the lookup misses.
The model gives a miss the outcome `Panicked`, with the state as the source
leaves it just before the panic.

Export adds each suffix to the path of the previous dump FILE, not to the
directory. So with two or more non-empty lists, every write after the first
targets a path beneath a regular file. On a real file system such a write
fails, and Export returns at that point. The model states exactly which
paths are written for every mix of non-empty lists, and which of those
writes a failure leaves out.

## Model

| member | source | states |
|---|---|---|
| Wallet.Service.constructor | pkg/wallet/service.go:23-28 | the zero `Service`: counter 0 and three empty lists, which satisfy `Valid` |
| Ledger.EmptyIsValid | pkg/wallet/service.go:23-28 | the empty ledger is valid, has unique phones and has no negative balance |
| Lookup.FirstIndex | pkg/wallet/service.go:46-53 | the result is the first index whose key matches; it is `None` exactly when no element matches |
| Ledger.FindAccountById | pkg/wallet/service.go:46-53 | Ok with the first account carrying the id; `AccountNotFound` exactly when no account carries it |
| Wallet.Service.FindAccountById | pkg/wallet/service.go:46-53 | the loop returns the index the specification lookup returns; state is unchanged |
| Ledger.FoundAccountIsUnique | pkg/wallet/service.go:46-53 | with increasing ids, the account found is the only one with that id |
| Ledger.FindPaymentById | pkg/wallet/service.go:92-99 | first payment with the id, or `PaymentNotFound` exactly when none has it |
| Wallet.Service.FindPaymentById | pkg/wallet/service.go:92-99 | the loop returns what the specification lookup returns |
| Ledger.FindFavoriteByID | pkg/wallet/service.go:116-123 | first favourite with the id, or `FavoriteNotFound` exactly when none has it |
| Wallet.Service.FindFavoriteByID | pkg/wallet/service.go:116-123 | the loop returns what the specification lookup returns |
| Ledger.RegisterAccountOutcome | pkg/wallet/service.go:30-44 | fails with `PhoneRegistered` exactly when the phone is taken, and then changes nothing; otherwise the counter goes up by one and one account is appended, with that id, the phone and balance 0 |
| Ledger.RegisterAccountKeepsInvariants | pkg/wallet/service.go:36-43 | the new id exceeds every existing id; validity, unique phones and non-negative balances are kept |
| Ledger.RegisterAccountTwice | pkg/wallet/service.go:31-35 | registering the same phone again fails with `PhoneRegistered` and leaves the state as it was |
| Wallet.Service.RegisterAccount | pkg/wallet/service.go:30-44 | the phone scan and append leave exactly the specification's state and result, and keep `Valid` |
| Ledger.DepositOutcome | pkg/wallet/service.go:55-65 | amount <= 0 gives `AmountMostBePositive` before any lookup, with no change; an unknown id gives `AccountNotFound`, with no change; otherwise only that account changes, its balance rising by exactly the amount |
| Ledger.DepositKeepsInvariants | pkg/wallet/service.go:55-65 | a deposit keeps validity, unique phones and non-negative balances |
| Wallet.Service.Deposit | pkg/wallet/service.go:55-65 | the in-place credit has exactly the specification's effect and keeps `Valid` |
| Ledger.PayOutcome | pkg/wallet/service.go:67-90 | only amount < 0 is refused, so zero is allowed; an unknown id changes nothing; balance < amount gives `NotEnouthBalance` and changes nothing; otherwise that balance drops by exactly the amount and stays >= 0, no other account changes, and one in-progress payment is appended with the account, amount and category |
| Ledger.PayKeepsInvariants | pkg/wallet/service.go:67-90 | a payment with a fresh id keeps validity (unique payment ids, existing account), unique phones and non-negative balances |
| Wallet.Service.Pay | pkg/wallet/service.go:67-90 | the in-place debit and append have exactly the specification's effect and keep `Valid` |
| Ledger.FavoritePaymentOutcome | pkg/wallet/service.go:100-115 | a missing payment gives `PaymentNotFound` and changes nothing; otherwise one favourite is appended, with the given id and name and the payment's account, amount and category |
| Ledger.FavoritePaymentKeepsInvariants | pkg/wallet/service.go:100-115 | a favourite with a fresh id keeps the ledger valid (unique favourite ids, existing account), and the accounts are untouched |
| Wallet.Service.FavoritePayment | pkg/wallet/service.go:100-115 | given a fresh favourite id, the append has exactly the specification's effect and keeps `Valid` |
| Ledger.PayFromFavoriteOutcome | pkg/wallet/service.go:124-130 | fails with `FavoriteNotFound` and no change when no favourite has the id; otherwise has exactly the effect of `Pay` on the favourite's account, category and amount |
| Ledger.FavoriteThenPay | pkg/wallet/service.go:100-130 | saving a payment as a favourite and then paying from the favourite repeats the payment: same account, category and amount, and the same account is debited by that amount (or the same refusal when the amount is negative or the balance is short) |
| Wallet.Service.PayFromFavorite | pkg/wallet/service.go:124-130 | the lookup and the call to `Pay` have exactly the specification's effect and keep `Valid` |
| Wallet.Service.IsServiceEmpty | pkg/wallet/service.go:133-135 | each flag is true exactly when its list is NOT empty; the flags are those of `Ledger.IsServiceEmpty`, which the Export specification tests |
| Ledger.UpdateServiceAccountOutcome | pkg/wallet/service.go:138-151 | on a hit, only that account's balance and phone are overwritten, and the list length and counter are kept; on a miss, the counter goes up, an account with the new id is appended, and the outcome is `Panicked` |
| Ledger.UpdateServiceAccountKeepsInvariants | pkg/wallet/service.go:138-151 | both branches keep `Valid`; phones stay unique when the new phone is no other account's; balances stay non-negative when the new balance is |
| Ledger.OverwrittenAccountKeepsInvariants | pkg/wallet/service.go:149-150 | overwriting an account's fields but not its id keeps the ledger valid |
| Ledger.AppendedAccountKeepsInvariants | pkg/wallet/service.go:141-147 | appending an account numbered one past the counter keeps the ledger valid |
| Wallet.Service.UpdateServiceAccount | pkg/wallet/service.go:138-151 | the two in-place field writes, or the append before the nil dereference, have exactly the specification's effect and keep `Valid` |
| Ledger.UpdateServicePaymentOutcome | pkg/wallet/service.go:152-160 | on a hit, only the matching payment's amount, category and status are overwritten, with its id and account kept; on a miss, the given payment is appended and the outcome is `Panicked` |
| Ledger.UpdateServicePaymentKeepsInvariants | pkg/wallet/service.go:152-160 | payment ids stay unique and accounts are untouched; a hit keeps `Valid`, as does a miss whose payment names an existing account |
| Wallet.Service.UpdateServicePayment | pkg/wallet/service.go:152-160 | has exactly the specification's effect |
| Ledger.UpdateServiceFavoriteOutcome | pkg/wallet/service.go:161-168 | the id is looked up among the PAYMENTS; a hit overwrites that payment's amount and category and leaves the favourites alone; a miss appends the favourite and the outcome is `Panicked` |
| Ledger.UpdateServiceFavoriteKeepsInvariants | pkg/wallet/service.go:161-168 | accounts are untouched; a hit keeps `Valid`, as does a miss whose favourite names an existing account and has an id no stored favourite uses |
| Wallet.Service.UpdateServiceFavorite | pkg/wallet/service.go:161-168 | has exactly the specification's effect |
| Decimal.NatToString | pkg/wallet/service.go:174 | the decimal digits of a natural number: non-empty, digits only, no leading zero, one digit exactly below 10 |
| Decimal.IntToString | pkg/wallet/service.go:174 | `Itoa` text: non-empty, starting with '-' exactly for negatives, and holding no space, ';' or newline |
| Decimal.ParseIntString | pkg/wallet/service.go:174 | the `Itoa` text of every integer reads back as that integer |
| Dump.AccountLineAppends | pkg/wallet/service.go:174 | one pass of the accounts loop appends the account's record and a newline |
| Dump.PaymentLineAppends | pkg/wallet/service.go:185-186 | the two `+=` of the payments loop append the payment's record and a newline |
| Dump.FavoriteLineAppends | pkg/wallet/service.go:197-198 | the two `+=` of the favourites loop append the favourite's record and a newline |
| Dump.LinesCons | pkg/wallet/service.go:173-175 | a dump is one line per record in list order: the first record's line comes first |
| Dump.LinesAppend | pkg/wallet/service.go:173-175 | the dump of two lists one after the other is the first dump followed by the second |
| Dump.SplitLines | pkg/wallet/service.go:173-175 | cutting a dump at its newlines gives each record in order, then the empty text after the last newline |
| Wallet.Service.AccountsDump | pkg/wallet/service.go:172-175 | the `+=` loop builds exactly the accounts text |
| Wallet.Service.PaymentsDump | pkg/wallet/service.go:183-187 | the `+=` loop builds exactly the payments text |
| Wallet.Service.FavoritesDump | pkg/wallet/service.go:195-199 | the `+=` loop builds exactly the favourites text |
| Dump.AccountRecordReads | pkg/wallet/service.go:174 | an account whose phone has no space or newline reads back from its line as the same account |
| Dump.PaymentRecordReads | pkg/wallet/service.go:185-186 | a payment whose id, category and status have no space or newline reads back from its line |
| Dump.AccountsTextReads | pkg/wallet/service.go:172-175 | an accounts dump reads back as the same accounts in order |
| Dump.PaymentsTextReads | pkg/wallet/service.go:183-187 | a payments dump reads back as the same payments in order |
| Dump.FavoriteRecordsCollide | pkg/wallet/service.go:197-198 | two different favourites give the same line, because amount and category run together, so that format cannot be read back |
| Dump.RunStagesAt | pkg/wallet/service.go:171-205 | one `if` block: an empty list is skipped; otherwise the write goes to the path extended by the suffix, and the run stops there when that write fails |
| Dump.StageAdvance | pkg/wallet/service.go:171-205 | the writes so far, followed by what the remaining blocks produce, are unchanged by taking one block |
| Dump.ExportStagesAre | pkg/wallet/service.go:170-205 | Export has three blocks: accounts, payments and favourites, in that order, with their suffixes, texts and non-empty flags |
| Dump.RunStagesWritesPresent | pkg/wallet/service.go:170-206 | when no write fails, exactly the non-empty blocks are written, in order, each with its own text |
| Dump.ExportWritesNonEmpty | pkg/wallet/service.go:170-206 | when no write fails, Export writes the accounts, payments and favourites texts, in that order, each exactly when its list is non-empty |
| Dump.ExportPathsAccumulate | pkg/wallet/service.go:176-200 | with all three lists non-empty, the paths are dir/accounts.dump, dir/accounts.dump/payments.dump and dir/accounts.dump/payments.dump/favorites.dump |
| Dump.RunStagesNestsPaths | pkg/wallet/service.go:176-200 | the first write lies under `dir`, and each later write lies under the previous write's path |
| Dump.ExportNestsPaths | pkg/wallet/service.go:176-200 | every write of Export after the first lies under the previous write's path |
| Dump.RunStagesPrefix | pkg/wallet/service.go:176-204 | whatever fails, the writes attempted are the first writes of the run in which every write succeeds |
| Dump.ExportPrefix | pkg/wallet/service.go:169-207 | whatever fails, Export attempts, with the same paths and texts, the first writes of its failure-free run |
| Dump.RunStagesPaths | pkg/wallet/service.go:176-200 | for every failing set, write k goes to `dir` followed by the suffixes of the first k + 1 non-empty blocks |
| Dump.PathsStep | pkg/wallet/service.go:171-181 | a non-empty block adds one path and moves the current path on; an empty block changes neither |
| Dump.RunThreePaths | pkg/wallet/service.go:170-206 | the paths of three blocks: each suffix is added to the path of the previous non-empty block, or to `dir` if there is none |
| Dump.ExportPaths | pkg/wallet/service.go:170-206 | for any mix of non-empty lists, the paths are `dir` plus the accounts suffix (if accounts are non-empty), then that path plus the payments suffix (if payments are non-empty), then that path plus the favourites suffix (if favourites are non-empty); a failing write only cuts this list short |
| Dump.ExportPathsTwo | pkg/wallet/service.go:176-188 | with accounts and payments but no favourites, the paths are dir/accounts.dump and dir/accounts.dump/payments.dump |
| Dump.RunStagesStopsEarly | pkg/wallet/service.go:177-204 | a failed run ends with the failing write, and every earlier write succeeded; a run with no failure had no failing write |
| Dump.RunStagesCompletes | pkg/wallet/service.go:171-206 | a run ends without failure exactly when no write of the failure-free run fails, and it then makes every one of those writes |
| Dump.RunStagesStopsAtFailure | pkg/wallet/service.go:171-206 | a failed run ends with its only failing write; a run ends without failure exactly when none of the failure-free run's writes fails, and it then writes every non-empty block |
| Dump.ExportStopsAtFailure | pkg/wallet/service.go:171-206 | Export returns at the first failing write, after at most three writes; it returns success exactly when none of its failure-free writes fails, and it then writes every non-empty list |
| Dump.ExportEmpty | pkg/wallet/service.go:170-206 | on an empty service, Export writes nothing and succeeds |
| Wallet.Service.Export | pkg/wallet/service.go:169-207 | the blocks, with their `+=` loops and cumulative `dir`, produce exactly the specification's writes and the failing path |
| Scenarios.OpenAccounts | pkg/wallet/service.go:30-65 | registering "111", depositing 1000 and registering "222" gives accounts 1 and 2, with balances 1000 and 0 |
| Scenarios.DepositAndPay | pkg/wallet/service.go:67-90 | paying 400 succeeds with an in-progress payment and leaves 600; paying 10000 is refused with `NotEnouthBalance`; id 999 is not found |

## Left out

- File I/O: the writes of Export (`ioutil.WriteFile`) are not performed. The set of paths whose write fails is a parameter, and a run records the writes attempted and the path that failed.
- `Import` and `ImportFromFile`: these are file reading and logging, and they never change the service, so they have no state effect to model. `ImportFromFile` logs every line that ends in '\n' and returns the first read error, which is `io.EOF` for a readable file. A last line without '\n' comes back together with that error and is not logged. Its `io.EOF` branch is never reached. `Import` therefore returns `io.EOF` from the first non-empty list's file and never opens the later ones. The parsers in `Dump` are not in the source; they only show which dump formats can be read back.
- `uuid.New()`: payment and favourite ids are supplied by the caller. `Pay` and `PayFromFavorite` require an id that no payment uses yet. `FavoritePayment` requires an id that no favourite uses yet.
- Ids, balances and amounts are mathematical integers. The `int64` overflow of `types.Money` and of the counter, and the `int(...)` conversions before `Itoa`, are not modelled.
- Pointer aliasing: records are values. Only the `Find*` lookups return an index standing for the pointer. `RegisterAccount`, `Deposit`, `Pay`, `FavoritePayment` and `PayFromFavorite` return a snapshot of the record, which later updates of the stored record do not reach. In Go these five return an alias of the stored record. An in-place update by the service is modelled as the replacement of that element. `UpdateServicePayment` and `UpdateServiceFavorite` append the caller's own pointer on a miss; the model appends a copy, so a later change made through the caller's pointer is not reflected.
- Writes by callers through returned pointers: a Go caller can change a stored record directly, for example `acc.Balance = -1`. The model has no such operation. `Valid`, `PhonesUnique` and `BalancesNonNegative` are proved only on the assumption that no caller writes through a returned pointer.
- The process dies at the nil dereference in the `UpdateService*` miss branches. The model stops there with the outcome `Panicked`, and recovery from the panic is not modelled.
- The `types` package is not part of this model. The value of `types.PaymentStatusInProgress` is taken to be "INPROGRESS"; no property depends on the literal.
- `string(...)` and `[]byte(...)` conversions are identities on text here, with strings as sequences of characters.
- Concurrency: the service has no locking, and none is modelled.
- `cmd/files/main.go` is a demo driver without logic of its own. It is not part of this model.
