/** Records and errors of the wallet ledger.
    The Go package that declares Account, Payment and Favorite is not part of
    this model; their fields are the ones pkg/wallet/service.go reads and writes.
    Money, ids and balances are mathematical integers. */
module Types {

  datatype Option<T> = None | Some(value: T)

  /** The error values of pkg/wallet/service.go, named as in the source
      (including its spelling of AmountMostBePositive and NotEnouthBalance). */
  datatype Error =
    | PhoneRegistered
    | AccountNotFound
    | AmountMostBePositive
    | NotEnouthBalance
    | PaymentNotFound
    | FavoriteNotFound

  /** A Go `(value, error)` pair: exactly one of the two is meaningful. */
  datatype Result<T> = Ok(value: T) | Err(error: Error)

  datatype Account = Account(id: int, phone: string, balance: int)

  datatype Payment = Payment(id: string, accountId: int, amount: int, category: string, status: string)

  datatype Favorite = Favorite(id: string, accountId: int, name: string, amount: int, category: string)

  /** The status every new payment gets. Its literal lives in the types
      package, which is not part of this model. */
  const PaymentStatusInProgress: string := "INPROGRESS"
}

/** First-match search, the shape of every `for ... range` lookup with an
    early return in the service. */
module Lookup {
  import opened Types

  function FirstIndex<T, K(==)>(s: seq<T>, key: T -> K, k: K): (r: Option<nat>)
    ensures r.Some? ==> r.value < |s| && key(s[r.value]) == k
    ensures r.Some? ==> forall j :: 0 <= j < r.value ==> key(s[j]) != k
    ensures r.None? <==> forall j :: 0 <= j < |s| ==> key(s[j]) != k
  {
    if |s| == 0 then None
    else if key(s[0]) == k then Some(0)
    else match FirstIndex(s[1..], key, k)
      case None => None
      case Some(i) => Some(i + 1)
  }
}
