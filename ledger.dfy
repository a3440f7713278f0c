/** The wallet service's state as a value and every operation of
    pkg/wallet/service.go as a function from the old state to the new state
    and the result. The class Wallet.Service is proved to follow these
    functions; the lemmas below state what the functions promise. */
module Ledger {
  import opened Types
  import opened Lookup

  /** The four fields of `Service`. A record held through a pointer is an
      element of a sequence; changing it through the pointer replaces that
      element. */
  datatype State = State(
    nextAccountId: int,
    accounts: seq<Account>,
    payments: seq<Payment>,
    favorites: seq<Favorite>)

  /** The state after an operation, with what the operation returned. */
  datatype Step<T> = Step(state: State, result: Result<T>)

  /** How an UpdateService* call ends: normally, or in the nil-pointer
      dereference that follows a missed lookup. */
  datatype Outcome = Updated | Panicked

  datatype Update = Update(state: State, outcome: Outcome)

  /** The zero value `Service{}`. */
  const Empty: State := State(0, [], [], [])

  function AccountId(a: Account): (r: int) { a.id }
  function PaymentId(p: Payment): (r: string) { p.id }
  function FavoriteId(f: Favorite): (r: string) { f.id }

  // ---------------------------------------------------------------------
  // Lookups. The index returned stands for the pointer the source returns.

  function FindAccountById(accounts: seq<Account>, accountId: int): (r: Result<nat>)
    ensures r.Ok? ==> r.value < |accounts| && accounts[r.value].id == accountId
    ensures r.Ok? ==> forall j :: 0 <= j < r.value ==> accounts[j].id != accountId
    ensures r.Err? <==> forall j :: 0 <= j < |accounts| ==> accounts[j].id != accountId
    ensures r.Err? ==> r.error == AccountNotFound
  {
    match FirstIndex(accounts, AccountId, accountId)
    case Some(i) => Ok(i)
    case None => Err(AccountNotFound)
  }

  function FindPaymentById(payments: seq<Payment>, paymentId: string): (r: Result<nat>)
    ensures r.Ok? ==> r.value < |payments| && payments[r.value].id == paymentId
    ensures r.Ok? ==> forall j :: 0 <= j < r.value ==> payments[j].id != paymentId
    ensures r.Err? <==> forall j :: 0 <= j < |payments| ==> payments[j].id != paymentId
    ensures r.Err? ==> r.error == PaymentNotFound
  {
    match FirstIndex(payments, PaymentId, paymentId)
    case Some(i) => Ok(i)
    case None => Err(PaymentNotFound)
  }

  function FindFavoriteByID(favorites: seq<Favorite>, favoriteId: string): (r: Result<nat>)
    ensures r.Ok? ==> r.value < |favorites| && favorites[r.value].id == favoriteId
    ensures r.Ok? ==> forall j :: 0 <= j < r.value ==> favorites[j].id != favoriteId
    ensures r.Err? <==> forall j :: 0 <= j < |favorites| ==> favorites[j].id != favoriteId
    ensures r.Err? ==> r.error == FavoriteNotFound
  {
    match FirstIndex(favorites, FavoriteId, favoriteId)
    case Some(i) => Ok(i)
    case None => Err(FavoriteNotFound)
  }

  predicate HasPhone(accounts: seq<Account>, phone: string) {
    exists i :: 0 <= i < |accounts| && accounts[i].phone == phone
  }

  predicate HasAccount(accounts: seq<Account>, accountId: int) {
    exists i :: 0 <= i < |accounts| && accounts[i].id == accountId
  }

  // ---------------------------------------------------------------------
  // Operations

  function RegisterAccount(st: State, phone: string): (r: Step<Account>) {
    if HasPhone(st.accounts, phone) then Step(st, Err(PhoneRegistered))
    else
      var account := Account(st.nextAccountId + 1, phone, 0);
      Step(st.(nextAccountId := st.nextAccountId + 1, accounts := st.accounts + [account]), Ok(account))
  }

  function Deposit(st: State, accountId: int, amount: int): (r: Step<Account>) {
    if amount <= 0 then Step(st, Err(AmountMostBePositive))
    else match FindAccountById(st.accounts, accountId)
      case Err(e) => Step(st, Err(e))
      case Ok(i) =>
        var account := st.accounts[i].(balance := st.accounts[i].balance + amount);
        Step(st.(accounts := st.accounts[i := account]), Ok(account))
  }

  /** `paymentId` is the identifier the source draws from uuid.New(). */
  function Pay(st: State, accountId: int, category: string, amount: int, paymentId: string): (r: Step<Payment>) {
    if amount < 0 then Step(st, Err(AmountMostBePositive))
    else match FindAccountById(st.accounts, accountId)
      case Err(e) => Step(st, Err(e))
      case Ok(i) =>
        if st.accounts[i].balance < amount then Step(st, Err(NotEnouthBalance))
        else
          var account := st.accounts[i].(balance := st.accounts[i].balance - amount);
          var payment := Payment(paymentId, accountId, amount, category, PaymentStatusInProgress);
          Step(st.(accounts := st.accounts[i := account], payments := st.payments + [payment]), Ok(payment))
  }

  /** `favoriteId` is the identifier the source draws from uuid.New(). */
  function FavoritePayment(st: State, paymentId: string, name: string, favoriteId: string): (r: Step<Favorite>) {
    match FindPaymentById(st.payments, paymentId)
    case Err(_) => Step(st, Err(PaymentNotFound))
    case Ok(i) =>
      var p := st.payments[i];
      var favorite := Favorite(favoriteId, p.accountId, name, p.amount, p.category);
      Step(st.(favorites := st.favorites + [favorite]), Ok(favorite))
  }

  function PayFromFavorite(st: State, favoriteId: string, paymentId: string): (r: Step<Payment>) {
    match FindFavoriteByID(st.favorites, favoriteId)
    case Err(e) => Step(st, Err(e))
    case Ok(i) =>
      var f := st.favorites[i];
      Pay(st, f.accountId, f.category, f.amount, paymentId)
  }

  /** Despite its name, each flag is true when that collection is NOT empty. */
  function IsServiceEmpty(st: State): (bool, bool, bool) {
    (|st.accounts| > 0, |st.payments| > 0, |st.favorites| > 0)
  }

  /** On a miss the source appends a fresh account and then dereferences
      the nil lookup result. */
  function UpdateServiceAccount(st: State, account: Account): (r: Update) {
    match FindAccountById(st.accounts, account.id)
    case Ok(i) =>
      var acc := st.accounts[i].(balance := account.balance, phone := account.phone);
      Update(st.(accounts := st.accounts[i := acc]), Updated)
    case Err(_) =>
      var created := Account(st.nextAccountId + 1, account.phone, account.balance);
      Update(st.(nextAccountId := st.nextAccountId + 1, accounts := st.accounts + [created]), Panicked)
  }

  function UpdateServicePayment(st: State, payment: Payment): (r: Update) {
    match FindPaymentById(st.payments, payment.id)
    case Ok(i) =>
      var p := st.payments[i].(amount := payment.amount, category := payment.category, status := payment.status);
      Update(st.(payments := st.payments[i := p]), Updated)
    case Err(_) =>
      Update(st.(payments := st.payments + [payment]), Panicked)
  }

  /** As written, the favorite's id is looked up among the PAYMENTS, and a
      hit overwrites that payment's amount and category. */
  function UpdateServiceFavorite(st: State, favorite: Favorite): (r: Update) {
    match FindPaymentById(st.payments, favorite.id)
    case Ok(i) =>
      var p := st.payments[i].(amount := favorite.amount, category := favorite.category);
      Update(st.(payments := st.payments[i := p]), Updated)
    case Err(_) =>
      Update(st.(favorites := st.favorites + [favorite]), Panicked)
  }

  // ---------------------------------------------------------------------
  // Invariants

  /** Ids are handed out by incrementing nextAccountId, never reused. */
  ghost predicate AccountIdsIncreasing(st: State) {
    && (forall i, j :: 0 <= i < j < |st.accounts| ==> st.accounts[i].id < st.accounts[j].id)
    && (forall i :: 0 <= i < |st.accounts| ==> 1 <= st.accounts[i].id <= st.nextAccountId)
  }

  /** Every payment and favorite names an account that exists. */
  ghost predicate ReferencesResolve(st: State) {
    && (forall k :: 0 <= k < |st.payments| ==> HasAccount(st.accounts, st.payments[k].accountId))
    && (forall k :: 0 <= k < |st.favorites| ==> HasAccount(st.accounts, st.favorites[k].accountId))
  }

  ghost predicate PaymentIdsUnique(payments: seq<Payment>) {
    forall i, j :: 0 <= i < j < |payments| ==> payments[i].id != payments[j].id
  }

  ghost predicate FavoriteIdsUnique(favorites: seq<Favorite>) {
    forall i, j :: 0 <= i < j < |favorites| ==> favorites[i].id != favorites[j].id
  }

  /** What every operation keeps, given fresh payment and favorite ids and
      no panic. */
  ghost predicate Valid(st: State) {
    && st.nextAccountId >= 0
    && AccountIdsIncreasing(st)
    && ReferencesResolve(st)
    && PaymentIdsUnique(st.payments)
    && FavoriteIdsUnique(st.favorites)
  }

  /** Kept by every operation except UpdateServiceAccount, which may write
      any phone. */
  ghost predicate PhonesUnique(accounts: seq<Account>) {
    forall i, j :: 0 <= i < j < |accounts| ==> accounts[i].phone != accounts[j].phone
  }

  /** Kept by every operation except UpdateServiceAccount, which may write
      any balance. */
  ghost predicate BalancesNonNegative(accounts: seq<Account>) {
    forall i :: 0 <= i < |accounts| ==> accounts[i].balance >= 0
  }

  /** The two sequences have the same length and differ at most at index i. */
  ghost predicate OthersUnchanged<T>(before: seq<T>, after: seq<T>, i: nat) {
    |after| == |before| && forall j :: 0 <= j < |before| && j != i ==> after[j] == before[j]
  }

  lemma EmptyIsValid()
    ensures Valid(Empty) && PhonesUnique(Empty.accounts) && BalancesNonNegative(Empty.accounts)
  {
  }

  /** With unique ids, the first match is the only match. */
  lemma {:induction false} FoundAccountIsUnique(st: State, accountId: int)
    requires AccountIdsIncreasing(st)
    requires FindAccountById(st.accounts, accountId).Ok?
    ensures forall j :: 0 <= j < |st.accounts| && st.accounts[j].id == accountId ==>
      j == FindAccountById(st.accounts, accountId).value
  {
  }

  // ---------------------------------------------------------------------
  // RegisterAccount

  lemma RegisterAccountOutcome(st: State, phone: string)
    ensures var r := RegisterAccount(st, phone);
      (r.result.Err? <==> HasPhone(st.accounts, phone))
      && (r.result.Err? ==> r.result.error == PhoneRegistered && r.state == st)
      && (r.result.Ok? ==>
            && r.state.nextAccountId == st.nextAccountId + 1
            && r.result.value == Account(r.state.nextAccountId, phone, 0)
            && r.state.accounts == st.accounts + [r.result.value]
            && r.state.payments == st.payments && r.state.favorites == st.favorites)
  {
  }

  /** The new account's id exceeds every existing one, and registration
      keeps ids increasing, phones unique and balances non-negative. */
  lemma RegisterAccountKeepsInvariants(st: State, phone: string)
    requires Valid(st)
    ensures var r := RegisterAccount(st, phone);
      && Valid(r.state)
      && (PhonesUnique(st.accounts) ==> PhonesUnique(r.state.accounts))
      && (BalancesNonNegative(st.accounts) ==> BalancesNonNegative(r.state.accounts))
      && (r.result.Ok? ==> forall i :: 0 <= i < |st.accounts| ==> st.accounts[i].id < r.result.value.id)
  {
    if !HasPhone(st.accounts, phone) {
      AppendedAccountKeepsInvariants(st, Account(st.nextAccountId + 1, phone, 0));
    }
  }

  /** Registering the same phone a second time fails and changes nothing. */
  lemma {:induction false} RegisterAccountTwice(st: State, phone: string)
    ensures var first := RegisterAccount(st, phone);
      RegisterAccount(first.state, phone) == Step(first.state, Err(PhoneRegistered))
  {
    var first := RegisterAccount(st, phone);
    if !HasPhone(st.accounts, phone) {
      var n := |st.accounts|;
      assert first.state.accounts[n].phone == phone;
    }
  }

  // ---------------------------------------------------------------------
  // Deposit

  lemma DepositOutcome(st: State, accountId: int, amount: int)
    ensures var r := Deposit(st, accountId, amount);
      && (amount <= 0 ==> r == Step(st, Err(AmountMostBePositive)))
      && (amount > 0 && !HasAccount(st.accounts, accountId) ==> r == Step(st, Err(AccountNotFound)))
      && (amount > 0 && HasAccount(st.accounts, accountId) ==>
            var i := FindAccountById(st.accounts, accountId).value;
            && r.result.Ok?
            && r.result.value.id == accountId
            && r.result.value.phone == st.accounts[i].phone
            && r.result.value.balance == st.accounts[i].balance + amount
            && OthersUnchanged(st.accounts, r.state.accounts, i)
            && r.state.accounts[i] == r.result.value
            && r.state.nextAccountId == st.nextAccountId
            && r.state.payments == st.payments && r.state.favorites == st.favorites)
  {
    if amount > 0 && !HasAccount(st.accounts, accountId) {
      assert FindAccountById(st.accounts, accountId).Err?;
    }
  }

  lemma DepositKeepsInvariants(st: State, accountId: int, amount: int)
    requires Valid(st)
    ensures var r := Deposit(st, accountId, amount);
      && Valid(r.state)
      && (PhonesUnique(st.accounts) ==> PhonesUnique(r.state.accounts))
      && (BalancesNonNegative(st.accounts) ==> BalancesNonNegative(r.state.accounts))
  {
    var r := Deposit(st, accountId, amount);
    if r.result.Ok? {
      var i := FindAccountById(st.accounts, accountId).value;
      SameIdsKeepReferences(st, r.state);
    }
  }

  /** Rewriting accounts without touching their ids keeps references valid. */
  lemma SameIdsKeepReferences(st: State, st': State)
    requires ReferencesResolve(st)
    requires |st'.accounts| == |st.accounts|
    requires forall j :: 0 <= j < |st.accounts| ==> st'.accounts[j].id == st.accounts[j].id
    requires st'.payments == st.payments && st'.favorites == st.favorites
    ensures ReferencesResolve(st')
  {
    forall k | 0 <= k < |st.payments|
      ensures HasAccount(st'.accounts, st.payments[k].accountId)
    {
      var i :| 0 <= i < |st.accounts| && st.accounts[i].id == st.payments[k].accountId;
      assert st'.accounts[i].id == st.payments[k].accountId;
    }
    forall k | 0 <= k < |st.favorites|
      ensures HasAccount(st'.accounts, st.favorites[k].accountId)
    {
      var i :| 0 <= i < |st.accounts| && st.accounts[i].id == st.favorites[k].accountId;
      assert st'.accounts[i].id == st.favorites[k].accountId;
    }
  }

  // ---------------------------------------------------------------------
  // Pay

  lemma PayOutcome(st: State, accountId: int, category: string, amount: int, paymentId: string)
    ensures var r := Pay(st, accountId, category, amount, paymentId);
      && (amount < 0 ==> r == Step(st, Err(AmountMostBePositive)))
      && (amount >= 0 && !HasAccount(st.accounts, accountId) ==> r == Step(st, Err(AccountNotFound)))
      && (amount >= 0 && HasAccount(st.accounts, accountId) ==>
            var i := FindAccountById(st.accounts, accountId).value;
            && (st.accounts[i].balance < amount ==> r == Step(st, Err(NotEnouthBalance)))
            && (st.accounts[i].balance >= amount ==>
                  && r.result == Ok(Payment(paymentId, accountId, amount, category, PaymentStatusInProgress))
                  && r.state.accounts[i].balance == st.accounts[i].balance - amount
                  && r.state.accounts[i].balance >= 0
                  && r.state.accounts[i].id == accountId
                  && r.state.accounts[i].phone == st.accounts[i].phone
                  && OthersUnchanged(st.accounts, r.state.accounts, i)
                  && r.state.payments == st.payments + [r.result.value]
                  && r.state.nextAccountId == st.nextAccountId
                  && r.state.favorites == st.favorites))
  {
    if amount >= 0 && !HasAccount(st.accounts, accountId) {
      assert FindAccountById(st.accounts, accountId).Err?;
    }
  }

  /** A payment with a fresh id keeps the ledger valid (it names an existing
      account), keeps phones unique and never drives a balance negative. */
  lemma PayKeepsInvariants(st: State, accountId: int, category: string, amount: int, paymentId: string)
    requires Valid(st)
    requires forall k :: 0 <= k < |st.payments| ==> st.payments[k].id != paymentId
    ensures var r := Pay(st, accountId, category, amount, paymentId);
      && Valid(r.state)
      && (PhonesUnique(st.accounts) ==> PhonesUnique(r.state.accounts))
      && (BalancesNonNegative(st.accounts) ==> BalancesNonNegative(r.state.accounts))
  {
    var r := Pay(st, accountId, category, amount, paymentId);
    if r.result.Ok? {
      var i := FindAccountById(st.accounts, accountId).value;
      var mid := r.state.(payments := st.payments, favorites := st.favorites);
      SameIdsKeepReferences(st, mid);
      assert r.state.accounts[i].id == accountId;
      forall k | 0 <= k < |r.state.payments|
        ensures HasAccount(r.state.accounts, r.state.payments[k].accountId)
      {
        if k < |st.payments| {
          assert r.state.payments[k] == st.payments[k];
        }
      }
    }
  }

  // ---------------------------------------------------------------------
  // Favorites

  lemma FavoritePaymentOutcome(st: State, paymentId: string, name: string, favoriteId: string)
    ensures var r := FavoritePayment(st, paymentId, name, favoriteId);
      && (FindPaymentById(st.payments, paymentId).Err? ==> r == Step(st, Err(PaymentNotFound)))
      && (FindPaymentById(st.payments, paymentId).Ok? ==>
            var p := st.payments[FindPaymentById(st.payments, paymentId).value];
            && r.result.Ok?
            && r.result.value.id == favoriteId
            && r.result.value.name == name
            && r.result.value.accountId == p.accountId
            && r.result.value.amount == p.amount
            && r.result.value.category == p.category
            && r.state == st.(favorites := st.favorites + [r.result.value]))
  {
  }

  /** A favorite with a fresh id keeps the ledger valid: it names the
      payment's account and its id is unique. */
  lemma FavoritePaymentKeepsInvariants(st: State, paymentId: string, name: string, favoriteId: string)
    requires Valid(st)
    requires forall k :: 0 <= k < |st.favorites| ==> st.favorites[k].id != favoriteId
    ensures var r := FavoritePayment(st, paymentId, name, favoriteId);
      && Valid(r.state)
      && r.state.accounts == st.accounts
  {
    var r := FavoritePayment(st, paymentId, name, favoriteId);
    if r.result.Ok? {
      var p := st.payments[FindPaymentById(st.payments, paymentId).value];
      forall k | 0 <= k < |r.state.favorites|
        ensures HasAccount(r.state.accounts, r.state.favorites[k].accountId)
      {
        if k < |st.favorites| {
          assert r.state.favorites[k] == st.favorites[k];
        } else {
          assert HasAccount(st.accounts, p.accountId);
        }
      }
    }
  }

  lemma PayFromFavoriteOutcome(st: State, favoriteId: string, paymentId: string)
    ensures var r := PayFromFavorite(st, favoriteId, paymentId);
      && ((forall k :: 0 <= k < |st.favorites| ==> st.favorites[k].id != favoriteId) ==>
            r == Step(st, Err(FavoriteNotFound)))
      && (FindFavoriteByID(st.favorites, favoriteId).Ok? ==>
            var f := st.favorites[FindFavoriteByID(st.favorites, favoriteId).value];
            r == Pay(st, f.accountId, f.category, f.amount, paymentId))
  {
  }

  /** Favoriting a payment and paying from that favorite repeats the
      original payment: same account, category and amount, and the same
      account is debited by that amount, when the balance covers it. */
  lemma {:induction false} FavoriteThenPay(st: State, paymentId: string, name: string, favoriteId: string, newPaymentId: string)
    requires Valid(st)
    requires FindPaymentById(st.payments, paymentId).Ok?
    requires forall k :: 0 <= k < |st.favorites| ==> st.favorites[k].id != favoriteId
    ensures var p := st.payments[FindPaymentById(st.payments, paymentId).value];
      var s1 := FavoritePayment(st, paymentId, name, favoriteId);
      var s2 := PayFromFavorite(s1.state, favoriteId, newPaymentId);
      && FindAccountById(st.accounts, p.accountId).Ok?
      && var i := FindAccountById(st.accounts, p.accountId).value;
      && (0 <= p.amount <= st.accounts[i].balance ==>
            && s2.result.Ok?
            && s2.result.value.accountId == p.accountId
            && s2.result.value.category == p.category
            && s2.result.value.amount == p.amount
            && s2.state.accounts[i].balance == st.accounts[i].balance - p.amount
            && OthersUnchanged(st.accounts, s2.state.accounts, i))
      && (p.amount < 0 ==> s2 == Step(s1.state, Err(AmountMostBePositive)))
      && (0 <= p.amount && p.amount > st.accounts[i].balance ==> s2 == Step(s1.state, Err(NotEnouthBalance)))
  {
    var pi := FindPaymentById(st.payments, paymentId).value;
    var p := st.payments[pi];
    var s1 := FavoritePayment(st, paymentId, name, favoriteId);
    var n := |st.favorites|;
    assert s1.state.favorites[n].id == favoriteId;
    var fi := FindFavoriteByID(s1.state.favorites, favoriteId);
    assert fi == Ok(n) by {
      forall j | 0 <= j < n ensures s1.state.favorites[j].id != favoriteId {
        assert s1.state.favorites[j] == st.favorites[j];
      }
    }
    assert HasAccount(st.accounts, p.accountId);
    PayOutcome(s1.state, p.accountId, p.category, p.amount, newPaymentId);
  }

  // ---------------------------------------------------------------------
  // UpdateService*

  lemma UpdateServiceAccountOutcome(st: State, account: Account)
    ensures var u := UpdateServiceAccount(st, account);
      && (HasAccount(st.accounts, account.id) ==>
            var i := FindAccountById(st.accounts, account.id).value;
            && u.outcome == Updated
            && u.state.accounts[i] == Account(account.id, account.phone, account.balance)
            && OthersUnchanged(st.accounts, u.state.accounts, i)
            && u.state.nextAccountId == st.nextAccountId
            && u.state.payments == st.payments && u.state.favorites == st.favorites)
      && (!HasAccount(st.accounts, account.id) ==>
            && u.outcome == Panicked
            && u.state.nextAccountId == st.nextAccountId + 1
            && u.state.accounts == st.accounts + [Account(st.nextAccountId + 1, account.phone, account.balance)]
            && u.state.payments == st.payments && u.state.favorites == st.favorites)
  {
    if !HasAccount(st.accounts, account.id) {
      assert FindAccountById(st.accounts, account.id).Err?;
    }
  }

  /** Both branches keep the ledger valid; phones stay unique when the new
      phone belongs to no other account, balances stay non-negative when
      the new balance is. */
  lemma UpdateServiceAccountKeepsInvariants(st: State, account: Account)
    requires Valid(st)
    ensures var u := UpdateServiceAccount(st, account);
      && Valid(u.state)
      && (PhonesUnique(st.accounts)
          && (forall j :: 0 <= j < |st.accounts| && st.accounts[j].id != account.id ==> st.accounts[j].phone != account.phone)
          ==> PhonesUnique(u.state.accounts))
      && (BalancesNonNegative(st.accounts) && account.balance >= 0 ==> BalancesNonNegative(u.state.accounts))
  {
    match FindAccountById(st.accounts, account.id)
    case Ok(i) =>
      OverwrittenAccountKeepsInvariants(st, i, st.accounts[i].(balance := account.balance, phone := account.phone));
    case Err(_) =>
      var created := Account(st.nextAccountId + 1, account.phone, account.balance);
      AppendedAccountKeepsInvariants(st, created);
      assert forall j :: 0 <= j < |st.accounts| ==> st.accounts[j].id != account.id;
  }

  /** Overwriting account i with a record of the same id keeps the ledger
      valid. */
  lemma OverwrittenAccountKeepsInvariants(st: State, i: nat, acc: Account)
    requires Valid(st) && i < |st.accounts| && acc.id == st.accounts[i].id
    ensures var st' := st.(accounts := st.accounts[i := acc]);
      && Valid(st')
      && (PhonesUnique(st.accounts)
          && (forall j :: 0 <= j < |st.accounts| && j != i ==> st.accounts[j].phone != acc.phone)
          ==> PhonesUnique(st'.accounts))
      && (BalancesNonNegative(st.accounts) && acc.balance >= 0 ==> BalancesNonNegative(st'.accounts))
  {
    var st' := st.(accounts := st.accounts[i := acc]);
    SameIdsKeepReferences(st, st');
  }

  /** Appending an account numbered one past the counter keeps the ledger
      valid. */
  lemma AppendedAccountKeepsInvariants(st: State, created: Account)
    requires Valid(st) && created.id == st.nextAccountId + 1
    ensures var st' := st.(nextAccountId := st.nextAccountId + 1, accounts := st.accounts + [created]);
      && Valid(st')
      && (PhonesUnique(st.accounts)
          && (forall j :: 0 <= j < |st.accounts| ==> st.accounts[j].phone != created.phone)
          ==> PhonesUnique(st'.accounts))
      && (BalancesNonNegative(st.accounts) && created.balance >= 0 ==> BalancesNonNegative(st'.accounts))
  {
    var st' := st.(nextAccountId := st.nextAccountId + 1, accounts := st.accounts + [created]);
    AppendedAccountKeepsReferences(st, st');
    assert forall j :: 0 <= j < |st.accounts| ==> st'.accounts[j] == st.accounts[j];
  }

  /** Appending an account keeps references valid. */
  lemma AppendedAccountKeepsReferences(st: State, st': State)
    requires ReferencesResolve(st)
    requires |st'.accounts| == |st.accounts| + 1 && st'.accounts[..|st.accounts|] == st.accounts
    requires st'.payments == st.payments && st'.favorites == st.favorites
    ensures ReferencesResolve(st')
  {
    forall k | 0 <= k < |st.payments|
      ensures HasAccount(st'.accounts, st.payments[k].accountId)
    {
      var i :| 0 <= i < |st.accounts| && st.accounts[i].id == st.payments[k].accountId;
      assert st'.accounts[i] == st.accounts[i];
    }
    forall k | 0 <= k < |st.favorites|
      ensures HasAccount(st'.accounts, st.favorites[k].accountId)
    {
      var i :| 0 <= i < |st.accounts| && st.accounts[i].id == st.favorites[k].accountId;
      assert st'.accounts[i] == st.accounts[i];
    }
  }

  lemma UpdateServicePaymentOutcome(st: State, payment: Payment)
    ensures var u := UpdateServicePayment(st, payment);
      && (FindPaymentById(st.payments, payment.id).Ok? ==>
            var i := FindPaymentById(st.payments, payment.id).value;
            && u.outcome == Updated
            && u.state.payments[i] == Payment(payment.id, st.payments[i].accountId, payment.amount, payment.category, payment.status)
            && OthersUnchanged(st.payments, u.state.payments, i)
            && u.state == st.(payments := u.state.payments))
      && (FindPaymentById(st.payments, payment.id).Err? ==>
            u == Update(st.(payments := st.payments + [payment]), Panicked))
  {
  }

  /** Overwriting a payment keeps its id and account, so the ledger stays
      valid; a miss appends a payment with an unused id. */
  lemma UpdateServicePaymentKeepsInvariants(st: State, payment: Payment)
    requires Valid(st)
    ensures var u := UpdateServicePayment(st, payment);
      && PaymentIdsUnique(u.state.payments)
      && u.state.accounts == st.accounts
      && (u.outcome == Updated || HasAccount(st.accounts, payment.accountId) ==> Valid(u.state))
  {
    var u := UpdateServicePayment(st, payment);
    match FindPaymentById(st.payments, payment.id)
    case Ok(i) =>
      forall k | 0 <= k < |u.state.payments|
        ensures HasAccount(u.state.accounts, u.state.payments[k].accountId)
      {
        assert u.state.payments[k].accountId == st.payments[k].accountId;
      }
    case Err(_) =>
      forall k | 0 <= k < |st.payments|
        ensures HasAccount(u.state.accounts, u.state.payments[k].accountId)
      {
        assert u.state.payments[k] == st.payments[k];
      }
  }

  /** As written, an Updated call rewrites a payment and never a favorite;
      a favorite whose id is no payment's id makes the call panic. */
  lemma UpdateServiceFavoriteOutcome(st: State, favorite: Favorite)
    ensures var u := UpdateServiceFavorite(st, favorite);
      && (FindPaymentById(st.payments, favorite.id).Ok? ==>
            var i := FindPaymentById(st.payments, favorite.id).value;
            && u.outcome == Updated
            && u.state.payments[i] == st.payments[i].(amount := favorite.amount, category := favorite.category)
            && OthersUnchanged(st.payments, u.state.payments, i)
            && u.state == st.(payments := u.state.payments))
      && (FindPaymentById(st.payments, favorite.id).Err? ==>
            u == Update(st.(favorites := st.favorites + [favorite]), Panicked))
      && (u.outcome == Updated ==> u.state.favorites == st.favorites)
  {
  }

  lemma UpdateServiceFavoriteKeepsInvariants(st: State, favorite: Favorite)
    requires Valid(st)
    ensures var u := UpdateServiceFavorite(st, favorite);
      && u.state.accounts == st.accounts
      && (u.outcome == Updated
          || (HasAccount(st.accounts, favorite.accountId)
              && forall k :: 0 <= k < |st.favorites| ==> st.favorites[k].id != favorite.id)
          ==> Valid(u.state))
  {
    var u := UpdateServiceFavorite(st, favorite);
    match FindPaymentById(st.payments, favorite.id)
    case Ok(i) =>
      forall k | 0 <= k < |u.state.payments|
        ensures HasAccount(u.state.accounts, u.state.payments[k].accountId)
      {
        assert u.state.payments[k].accountId == st.payments[k].accountId;
      }
    case Err(_) =>
      forall k | 0 <= k < |st.favorites|
        ensures HasAccount(u.state.accounts, u.state.favorites[k].accountId)
      {
        assert u.state.favorites[k] == st.favorites[k];
      }
  }
}
