/** Contracting a product: the validation rules that depend on the product type and the new
    account row with its initial state. */
module Contracting {
  import opened Common
  import opened Tables
  import opened Ledger
  import Products

  datatype ContractError =
    | InvalidNumber           // "Capital y plazo deben ser numéricos."
    | UnknownClient           // "El cliente no existe."
    | CreditTermsNotPositive  // "Crédito debe tener capital y plazo > 0."
    | SavingsBelowMinimum     // "Ahorros mínimo de $100.000"

  /** The type rules: a credit needs a positive capital and term; any other product needs at least
      the minimum opening deposit and has no term, whatever term was entered. The result is the
      term to store. */
  function TermsCheck(kind: int, capital: real, term: int): (r: Result<int, ContractError>)
    ensures kind == CREDIT ==> (r.Ok? <==> capital > 0.0 && term > 0)
    ensures kind == CREDIT && r.Err? ==> r.error == CreditTermsNotPositive
    ensures kind != CREDIT ==> (r.Ok? <==> capital >= MIN_SAVINGS)
    ensures kind != CREDIT && r.Err? ==> r.error == SavingsBelowMinimum
    ensures r.Ok? ==> r.value == (if kind == CREDIT then term else 0)
  {
    if kind == CREDIT then
      if capital <= 0.0 || term <= 0 then Err(CreditTermsNotPositive) else Ok(term)
    else
      if capital < MIN_SAVINGS then Err(SavingsBelowMinimum) else Ok(0)
  }

  /** contratar: capital and term must both parse, then the client must exist, then the type
      rules apply; a new account gets the next identifier, balance = capital, no interest paid,
      and its whole term pending. The product is one of the catalogue's, as offered by the list
      the screen fills at start-up. */
  function Contract(d: Db, clientId: int, productId: int, capital: Option<real>, term: Option<int>,
                    date: string): (r: (Result<Account, ContractError>, Db))
    requires productId in d.products
    ensures r.0 == Err(InvalidNumber) <==> capital.None? || term.None?
    ensures r.0 == Err(UnknownClient) <==> capital.Some? && term.Some? && clientId !in d.clients
    ensures r.0.Err? && capital.Some? && term.Some? && clientId in d.clients ==>
      && TermsCheck(d.products[productId].kind, capital.value, term.value).Err?
      && r.0.error == TermsCheck(d.products[productId].kind, capital.value, term.value).error
    ensures r.0.Err? ==> r.1 == d
    ensures r.0.Ok? <==>
      && capital.Some? && term.Some? && clientId in d.clients
      && TermsCheck(d.products[productId].kind, capital.value, term.value).Ok?
    ensures r.0.Ok? ==>
      var t := TermsCheck(d.products[productId].kind, capital.value, term.value).value;
      && r.0.value == Account(d.nextAccountId, productId, clientId, capital.value, t, date,
                              capital.value, 0.0, t)
      && r.1 == d.(accounts := d.accounts[d.nextAccountId := r.0.value],
                   nextAccountId := d.nextAccountId + 1)
  {
    if capital.None? || term.None? then (Err(InvalidNumber), d)
    else if clientId !in d.clients then (Err(UnknownClient), d)
    else
      match TermsCheck(d.products[productId].kind, capital.value, term.value)
      case Err(e) => (Err(e), d)
      case Ok(t) =>
        var a := Account(d.nextAccountId, productId, clientId, capital.value, t, date,
                         capital.value, 0.0, t);
        (Ok(a), d.(accounts := d.accounts[d.nextAccountId := a], nextAccountId := d.nextAccountId + 1))
  }

  /** The identifier a contract assigns is fresh, and contracting keeps the database consistent:
      a new credit starts on its schedule and a new savings account in its shape. */
  lemma ContractKeepsConsistent(d: Db, clientId: int, productId: int, capital: Option<real>,
                                term: Option<int>, date: string)
    requires Consistent(d)
    requires productId in d.products
    ensures Contract(d, clientId, productId, capital, term, date).0.Ok? ==> d.nextAccountId !in d.accounts
    ensures Consistent(Contract(d, clientId, productId, capital, term, date).1)
  {
    var r := Contract(d, clientId, productId, capital, term, date);
    if r.0.Ok? {
      var d' := r.1;
      forall k | k in d.accounts ensures k < d.nextAccountId {
        assert AccountOk(d, k);
      }
      forall k | k in d'.accounts ensures AccountOk(d', k) {
        if k != d.nextAccountId { assert AccountOk(d, k); }
      }
    }
  }

  /** A new credit can be paid at once: its first installment repays capital / term plus one
      period's interest on the whole capital. */
  lemma NewCreditIsPayable(d: Db, clientId: int, productId: int, capital: real, term: int, date: string)
    requires Consistent(d)
    requires productId in d.products && d.products[productId].kind == CREDIT
    requires Contract(d, clientId, productId, Some(capital), Some(term), date).0.Ok?
    ensures
      var d' := Contract(d, clientId, productId, Some(capital), Some(term), date).1;
      var id := d.nextAccountId;
      && Payable(d', id)
      && InstallmentQuote(d', id).value.principal == capital / (term as real)
      && InstallmentQuote(d', id).value.interest == capital * (d.products[productId].rate / 100.0)
  {
  }

  /** A new savings account holds at least the minimum deposit, has no term and answers the
      projection. */
  lemma NewSavingsAccount(d: Db, clientId: int, productId: int, capital: real, term: int, date: string)
    requires Consistent(d)
    requires productId in d.products && d.products[productId].kind == SAVINGS
    requires Contract(d, clientId, productId, Some(capital), Some(term), date).0.Ok?
    ensures
      var d' := Contract(d, clientId, productId, Some(capital), Some(term), date).1;
      var id := d.nextAccountId;
      && id in d'.accounts
      && d'.accounts[id].balance >= MIN_SAVINGS
      && d'.accounts[id].termMonths == 0 && d'.accounts[id].pendingTerm == 0
      && Projection(d', id).Ok?
  {
  }

  /** The label the product list shows names the rules a contract is checked against: "Crédito"
      exactly for the products whose contracts need a positive capital and term. */
  lemma LabelNamesRules(kind: int, capital: real, term: int)
    ensures Products.TypeLabel(kind) == "Crédito" ==> (TermsCheck(kind, capital, term).Ok? <==> capital > 0.0 && term > 0)
    ensures Products.TypeLabel(kind) == "Ahorros" ==> (TermsCheck(kind, capital, term).Ok? <==> capital >= MIN_SAVINGS)
    ensures Products.TypeLabel(kind) == "Ahorros" && TermsCheck(kind, capital, term).Ok? ==> TermsCheck(kind, capital, term).value == 0
  {
  }

  /** contratar on the store in place. */
  method ContractProduct(s: Store, clientId: int, productId: int, capital: Option<real>, term: Option<int>,
                         date: string) returns (r: Result<Account, ContractError>)
    requires s.Valid()
    requires productId in s.products
    modifies s
    ensures s.Valid()
    ensures (r, s.Snapshot()) == Contract(old(s.Snapshot()), clientId, productId, capital, term, date)
    ensures r.Err? ==> unchanged(s)
  {
    ContractKeepsConsistent(s.Snapshot(), clientId, productId, capital, term, date);
    if capital.None? || term.None? {
      return Err(InvalidNumber);
    }
    if clientId !in s.clients {
      return Err(UnknownClient);
    }
    var storedTerm := term.value;
    if s.products[productId].kind == CREDIT {
      if capital.value <= 0.0 || term.value <= 0 {
        return Err(CreditTermsNotPositive);
      }
    } else {
      if capital.value < MIN_SAVINGS {
        return Err(SavingsBelowMinimum);
      }
      storedTerm := 0;
    }
    var a := Account(s.nextAccountId, productId, clientId, capital.value, storedTerm, date,
                     capital.value, 0.0, storedTerm);
    s.accounts := s.accounts[s.nextAccountId := a];
    s.nextAccountId := s.nextAccountId + 1;
    r := Ok(a);
  }
}
