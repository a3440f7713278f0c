/** The `Service` type of pkg/wallet/service.go: four fields that its
    methods update in place. Each method is proved to have exactly the effect
    of the matching function of module Ledger (or Dump, for Export), whose
    properties are proved there. */
module Wallet {
  import opened Types
  import Ledger
  import Dump
  import Decimal

  class Service {
    var nextAccountId: int
    var accounts: seq<Account>
    var payments: seq<Payment>
    var favorites: seq<Favorite>

    function State(): Ledger.State
      reads this
    {
      Ledger.State(nextAccountId, accounts, payments, favorites)
    }

    /** The zero value `&Service{}`. */
    constructor ()
      ensures State() == Ledger.Empty
      ensures Ledger.Valid(State())
    {
      nextAccountId := 0;
      accounts := [];
      payments := [];
      favorites := [];
    }

    method RegisterAccount(phone: string) returns (r: Result<Account>)
      modifies this
      ensures Ledger.Step(State(), r) == Ledger.RegisterAccount(old(State()), phone)
      ensures Ledger.Valid(old(State())) ==> Ledger.Valid(State())
    {
      ghost var before := State();
      if Ledger.Valid(before) {
        Ledger.RegisterAccountKeepsInvariants(before, phone);
      }
      for k := 0 to |accounts|
        invariant forall j :: 0 <= j < k ==> accounts[j].phone != phone
      {
        if accounts[k].phone == phone {
          return Err(PhoneRegistered);
        }
      }
      nextAccountId := nextAccountId + 1;
      var account := Account(nextAccountId, phone, 0);
      accounts := accounts + [account];
      return Ok(account);
    }

    /** The index returned stands for the pointer to the stored account. */
    method FindAccountById(accountId: int) returns (r: Result<nat>)
      ensures r == Ledger.FindAccountById(accounts, accountId)
    {
      for k := 0 to |accounts|
        invariant forall j :: 0 <= j < k ==> accounts[j].id != accountId
      {
        if accounts[k].id == accountId {
          return Ok(k);
        }
      }
      return Err(AccountNotFound);
    }

    method Deposit(accountId: int, amount: int) returns (r: Result<Account>)
      modifies this
      ensures Ledger.Step(State(), r) == Ledger.Deposit(old(State()), accountId, amount)
      ensures Ledger.Valid(old(State())) ==> Ledger.Valid(State())
    {
      ghost var before := State();
      if Ledger.Valid(before) {
        Ledger.DepositKeepsInvariants(before, accountId, amount);
      }
      if amount <= 0 {
        return Err(AmountMostBePositive);
      }
      var found := FindAccountById(accountId);
      if found.Err? {
        return Err(found.error);
      }
      var i := found.value;
      var account := accounts[i].(balance := accounts[i].balance + amount);
      accounts := accounts[i := account];
      return Ok(account);
    }

    /** `paymentId` replaces the source's uuid.New(): any id not yet used. */
    method Pay(accountId: int, category: string, amount: int, paymentId: string) returns (r: Result<Payment>)
      requires forall k :: 0 <= k < |payments| ==> payments[k].id != paymentId
      modifies this
      ensures Ledger.Step(State(), r) == Ledger.Pay(old(State()), accountId, category, amount, paymentId)
      ensures Ledger.Valid(old(State())) ==> Ledger.Valid(State())
    {
      ghost var before := State();
      if Ledger.Valid(before) {
        Ledger.PayKeepsInvariants(before, accountId, category, amount, paymentId);
      }
      if amount < 0 {
        return Err(AmountMostBePositive);
      }
      var found := FindAccountById(accountId);
      if found.Err? {
        return Err(found.error);
      }
      var i := found.value;
      if accounts[i].balance < amount {
        return Err(NotEnouthBalance);
      }
      accounts := accounts[i := accounts[i].(balance := accounts[i].balance - amount)];
      var payment := Payment(paymentId, accountId, amount, category, PaymentStatusInProgress);
      payments := payments + [payment];
      return Ok(payment);
    }

    method FindPaymentById(paymentId: string) returns (r: Result<nat>)
      ensures r == Ledger.FindPaymentById(payments, paymentId)
    {
      for k := 0 to |payments|
        invariant forall j :: 0 <= j < k ==> payments[j].id != paymentId
      {
        if payments[k].id == paymentId {
          return Ok(k);
        }
      }
      return Err(PaymentNotFound);
    }

    /** `favoriteId` replaces the source's uuid.New(). */
    method FavoritePayment(paymentId: string, name: string, favoriteId: string) returns (r: Result<Favorite>)
      requires forall k :: 0 <= k < |favorites| ==> favorites[k].id != favoriteId
      modifies this
      ensures Ledger.Step(State(), r) == Ledger.FavoritePayment(old(State()), paymentId, name, favoriteId)
      ensures Ledger.Valid(old(State())) ==> Ledger.Valid(State())
    {
      ghost var before := State();
      if Ledger.Valid(before) {
        Ledger.FavoritePaymentKeepsInvariants(before, paymentId, name, favoriteId);
      }
      var found := FindPaymentById(paymentId);
      if found.Err? {
        return Err(PaymentNotFound);
      }
      var payment := payments[found.value];
      var favorite := Favorite(favoriteId, payment.accountId, name, payment.amount, payment.category);
      favorites := favorites + [favorite];
      return Ok(favorite);
    }

    method FindFavoriteByID(favoriteId: string) returns (r: Result<nat>)
      ensures r == Ledger.FindFavoriteByID(favorites, favoriteId)
    {
      for k := 0 to |favorites|
        invariant forall j :: 0 <= j < k ==> favorites[j].id != favoriteId
      {
        if favorites[k].id == favoriteId {
          return Ok(k);
        }
      }
      return Err(FavoriteNotFound);
    }

    method PayFromFavorite(favoriteId: string, paymentId: string) returns (r: Result<Payment>)
      requires forall k :: 0 <= k < |payments| ==> payments[k].id != paymentId
      modifies this
      ensures Ledger.Step(State(), r) == Ledger.PayFromFavorite(old(State()), favoriteId, paymentId)
      ensures Ledger.Valid(old(State())) ==> Ledger.Valid(State())
    {
      var found := FindFavoriteByID(favoriteId);
      if found.Err? {
        return Err(found.error);
      }
      var favorite := favorites[found.value];
      r := Pay(favorite.accountId, favorite.category, favorite.amount, paymentId);
    }

    /** Each flag is true when that collection is NOT empty. */
    method IsServiceEmpty() returns (a: bool, p: bool, f: bool)
      ensures a <==> accounts != []
      ensures p <==> payments != []
      ensures f <==> favorites != []
      ensures (a, p, f) == Ledger.IsServiceEmpty(State())
    {
      return |accounts| > 0, |payments| > 0, |favorites| > 0;
    }

    /** A miss appends a new account and then ends in the nil dereference. */
    method UpdateServiceAccount(account: Account) returns (outcome: Ledger.Outcome)
      modifies this
      ensures Ledger.Update(State(), outcome) == Ledger.UpdateServiceAccount(old(State()), account)
      ensures Ledger.Valid(old(State())) ==> Ledger.Valid(State())
    {
      ghost var before := State();
      if Ledger.Valid(before) {
        Ledger.UpdateServiceAccountKeepsInvariants(before, account);
      }
      var found := FindAccountById(account.id);
      if found.Err? {
        nextAccountId := nextAccountId + 1;
        var accountNew := Account(nextAccountId, account.phone, account.balance);
        accounts := accounts + [accountNew];
        return Ledger.Panicked;
      }
      var i := found.value;
      ghost var updated := accounts[i := accounts[i].(balance := account.balance, phone := account.phone)];
      accounts := accounts[i := accounts[i].(balance := account.balance)];
      accounts := accounts[i := accounts[i].(phone := account.phone)];
      assert accounts == updated;
      return Ledger.Updated;
    }

    method UpdateServicePayment(payment: Payment) returns (outcome: Ledger.Outcome)
      modifies this
      ensures Ledger.Update(State(), outcome) == Ledger.UpdateServicePayment(old(State()), payment)
    {
      var found := FindPaymentById(payment.id);
      if found.Err? {
        payments := payments + [payment];
        return Ledger.Panicked;
      }
      var i := found.value;
      payments := payments[i := payments[i].(amount := payment.amount, category := payment.category, status := payment.status)];
      return Ledger.Updated;
    }

    /** Looks the favorite's id up among the payments, as the source does. */
    method UpdateServiceFavorite(favorite: Favorite) returns (outcome: Ledger.Outcome)
      modifies this
      ensures Ledger.Update(State(), outcome) == Ledger.UpdateServiceFavorite(old(State()), favorite)
    {
      var found := FindPaymentById(favorite.id);
      if found.Err? {
        favorites := favorites + [favorite];
        return Ledger.Panicked;
      }
      var i := found.value;
      payments := payments[i := payments[i].(amount := favorite.amount, category := favorite.category)];
      return Ledger.Updated;
    }

    /** The text of Export's accounts loop. */
    method AccountsDump() returns (result: string)
      ensures result == Dump.AccountsText(accounts)
    {
      result := "";
      for k := 0 to |accounts|
        invariant result == Dump.AccountsText(accounts[..k])
      {
        var acc := accounts[k];
        Dump.AccountLineAppends(result, acc);
        Dump.LinesExtend(accounts, k, Dump.AccountRecord);
        result := result + Decimal.IntToString(acc.id) + " " + acc.phone + " " + Decimal.IntToString(acc.balance) + ";\n";
      }
      assert accounts[..|accounts|] == accounts;
    }

    /** The text of Export's payments loop. */
    method PaymentsDump() returns (result: string)
      ensures result == Dump.PaymentsText(payments)
    {
      result := "";
      for k := 0 to |payments|
        invariant result == Dump.PaymentsText(payments[..k])
      {
        var payment := payments[k];
        Dump.PaymentLineAppends(result, payment);
        Dump.LinesExtend(payments, k, Dump.PaymentRecord);
        result := result + payment.id + " " + Decimal.IntToString(payment.accountId) + " " + Decimal.IntToString(payment.amount);
        result := result + " " + payment.category + " " + payment.status + ";\n";
      }
      assert payments[..|payments|] == payments;
    }

    /** The text of Export's favorites loop. */
    method FavoritesDump() returns (result: string)
      ensures result == Dump.FavoritesText(favorites)
    {
      result := "";
      for k := 0 to |favorites|
        invariant result == Dump.FavoritesText(favorites[..k])
      {
        var favorite := favorites[k];
        Dump.FavoriteLineAppends(result, favorite);
        Dump.LinesExtend(favorites, k, Dump.FavoriteRecord);
        result := result + favorite.id + " " + Decimal.IntToString(favorite.accountId) + " " + favorite.name + " ";
        result := result + Decimal.IntToString(favorite.amount) + favorite.category + ";\n";
      }
      assert favorites[..|favorites|] == favorites;
    }

    /** Builds each dump's text and the path it is written to; `failing`
        holds the paths whose write fails. */
    method Export(dir: string, failing: set<string>) returns (run: Dump.Run)
      ensures run == Dump.Export(State(), dir, failing)
    {
      ghost var ss := Dump.ExportStages(State());
      ghost var goal := Dump.Export(State(), dir, failing);
      Dump.ExportStagesAre(State());
      var a, p, f := IsServiceEmpty();
      var path := dir;
      var writes: seq<Dump.Write> := [];
      assert ss[0..] == ss;
      assert goal == Dump.Prepend(writes, Dump.RunStages(path, ss[0..], failing));
      Dump.StageAdvance(goal, writes, path, ss, 0, failing);
      if a {
        var result := AccountsDump();
        path := path + "/accounts.dump";
        writes := writes + [Dump.Write(path, result)];
        if path in failing {
          return Dump.Run(writes, Some(path));
        }
      }
      Dump.StageAdvance(goal, writes, path, ss, 1, failing);
      if p {
        var result := PaymentsDump();
        path := path + "/payments.dump";
        writes := writes + [Dump.Write(path, result)];
        if path in failing {
          return Dump.Run(writes, Some(path));
        }
      }
      Dump.StageAdvance(goal, writes, path, ss, 2, failing);
      if f {
        var result := FavoritesDump();
        path := path + "/favorites.dump";
        writes := writes + [Dump.Write(path, result)];
        if path in failing {
          return Dump.Run(writes, Some(path));
        }
      }
      Dump.RunStagesAt(path, ss, 3, failing);
      return Dump.Run(writes, None);
    }
  }
}
