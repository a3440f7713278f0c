/** Callers of Wallet.Service that rely on its contracts alone. */
module Scenarios {
  import opened Types
  import Ledger
  import Wallet

  /** A new service; register "111" and deposit 1000; register "222". */
  method OpenAccounts() returns (s: Wallet.Service, first: Result<Account>, second: Result<Account>)
    ensures fresh(s)
    ensures first == Ok(Account(1, "111", 0)) && second == Ok(Account(2, "222", 0))
    ensures s.State() == Ledger.State(2, [Account(1, "111", 1000), Account(2, "222", 0)], [], [])
    ensures Ledger.Valid(s.State())
  {
    s := new Wallet.Service();
    first := s.RegisterAccount("111");
    assert s.accounts == [Account(1, "111", 0)];
    var deposited := s.Deposit(1, 1000);
    assert s.State() == Ledger.State(1, [Account(1, "111", 1000)], [], []);
    assert "222" != "111";
    second := s.RegisterAccount("222");
  }

  /** Open the two accounts; pay 400 for "food"; try to pay 10000; look up
      the unregistered id 999. */
  method DepositAndPay() returns (first: Result<Account>, second: Result<Account>, paid: Result<Payment>,
                                  refused: Result<Payment>, missing: Result<nat>, balance: int)
    ensures first.Ok? && second.Ok? && first.value.id != second.value.id
    ensures paid.Ok? && paid.value.accountId == first.value.id && paid.value.amount == 400
    ensures paid.Ok? && paid.value.category == "food" && paid.value.status == PaymentStatusInProgress
    ensures refused == Err(NotEnouthBalance)
    ensures missing == Err(AccountNotFound)
    ensures balance == 600
  {
    var s;
    s, first, second := OpenAccounts();
    paid := s.Pay(1, "food", 400, "p1");
    assert paid == Ok(Payment("p1", 1, 400, "food", PaymentStatusInProgress));
    assert s.accounts == [Account(1, "111", 600), Account(2, "222", 0)];
    assert s.payments == [Payment("p1", 1, 400, "food", PaymentStatusInProgress)];
    assert "p1" != "p2";
    refused := s.Pay(1, "food", 10000, "p2");
    assert s.accounts == [Account(1, "111", 600), Account(2, "222", 0)];
    missing := s.FindAccountById(999);
    var found := s.FindAccountById(1);
    assert found == Ok(0);
    balance := s.accounts[found.value].balance;
  }
}
