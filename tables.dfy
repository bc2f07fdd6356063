/** The four tables of the bank database (CLIENTES, PRODUCTOS,
    PRODUCTOSCONTRATADOS, TRANSACCIONES), as values and as the mutable
    store the handlers update. */
module Tables {
  import opened Common

  /** Product type codes (TipoProducto). */
  const CREDIT: int := 1
  const SAVINGS: int := 2

  /** Minimum opening deposit of a savings account. */
  const MIN_SAVINGS: real := 100000.0

  /** A row of CLIENTES. */
  datatype Client = Client(id: int, name: string, surname: string, address: string, phone: int, email: string)

  /** A row of PRODUCTOS; `rate` is the percentage applied per period (Remuneracion). */
  datatype Product = Product(id: int, name: string, kind: int, rate: real)

  /** A row of PRODUCTOSCONTRATADOS. */
  datatype Account = Account(
    id: int,
    productId: int,
    clientId: int,
    initialCapital: real,   // capitalInicial
    termMonths: int,        // plazoMeses
    deliveryDate: string,   // fechaEntrega
    balance: real,          // saldoCapital
    interestPaid: real,     // sumatoriaInteresesPagados
    pendingTerm: int)       // plazoPendiente

  /** A row of TRANSACCIONES: positive amounts are payments or deposits, negative ones withdrawals. */
  datatype Txn = Txn(id: int, accountId: int, date: string, amount: real)

  /** The whole database. `nextAccountId` is the identifier storage assigns to the next contracted
      account; transaction identifiers are positions in the log, counted from 1. */
  datatype Db = Db(
    clients: map<int, Client>,
    products: map<int, Product>,
    accounts: map<int, Account>,
    txns: seq<Txn>,
    nextAccountId: int)

  const EmptyDb: Db := Db(map[], map[], map[], [], 1)

  /** A credit follows its amortisation schedule: the balance is the initial capital prorated by
      the installments still pending, so every installment repays capital / term. */
  predicate OnSchedule(a: Account)
  {
    && a.termMonths > 0
    && a.initialCapital > 0.0
    && 0 <= a.pendingTerm <= a.termMonths
    && a.balance * (a.termMonths as real) == a.initialCapital * (a.pendingTerm as real)
  }

  /** A savings account has no term and never a negative balance. */
  predicate SavingsShape(a: Account)
  {
    && a.termMonths == 0
    && a.pendingTerm == 0
    && a.initialCapital >= MIN_SAVINGS
    && a.balance >= 0.0
  }

  predicate AccountOk(d: Db, k: int)
    requires k in d.accounts
  {
    var a := d.accounts[k];
    && a.id == k
    && 1 <= k < d.nextAccountId
    && a.clientId in d.clients
    && a.productId in d.products
    && (if d.products[a.productId].kind == CREDIT then OnSchedule(a) else SavingsShape(a))
  }

  /** The invariant every handler keeps. */
  predicate Consistent(d: Db)
  {
    && d.nextAccountId >= 1
    && (forall k :: k in d.clients ==> d.clients[k].id == k)
    && (forall k :: k in d.products ==> d.products[k].id == k && (d.products[k].kind == CREDIT || d.products[k].kind == SAVINGS))
    && (forall k :: k in d.accounts ==> AccountOk(d, k))
    && (forall i :: 0 <= i < |d.txns| ==> d.txns[i].id == i + 1 && d.txns[i].accountId in d.accounts)
  }

  /** The database as the application holds it: one store that every handler reads and updates. */
  class Store {
    var clients: map<int, Client>
    var products: map<int, Product>
    var accounts: map<int, Account>
    var txns: seq<Txn>
    var nextAccountId: int

    function Snapshot(): Db
      reads this
    {
      Db(clients, products, accounts, txns, nextAccountId)
    }

    predicate Valid()
      reads this
    {
      Consistent(Snapshot())
    }

    constructor ()
      ensures Valid()
      ensures Snapshot() == EmptyDb
    {
      clients, products, accounts, txns, nextAccountId := map[], map[], map[], [], 1;
    }
  }
}
