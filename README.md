# Neobanco Digital: the banking core in Dafny

This project models the business logic behind the screens of the Neobanco Digital desktop
application: a client registry, a product catalogue (credits and savings products), contracting a
product, and the account ledger (installment quote and payment for credits, projection and
deposits / withdrawals for savings accounts). The application keeps four tables (CLIENTES,
PRODUCTOS, PRODUCTOSCONTRATADOS and the append-only TRANSACCIONES log). Every handler either
rejects its input and writes nothing, or applies one fully specified update.

The model has two layers:

- `Tables.Db` is the database as a value. Each handler is a function `Db -> (Result, Db)`:
  `Ledger.Payment`, `Ledger.SavingsPosting`, `Contracting.Contract`, `Clients.Registration`,
  `Clients.AddressUpdate` and `Products.ProductInsertion`. The read-only handlers are functions of
  the database alone: `Ledger.InstallmentQuote`, `Ledger.Projection`, `Clients.LookupClient` and
  `Products.LookupProduct`.
- `Tables.Store` is the single store the handlers update in place. Each state-changing handler is
  also a method on the store (`Ledger.PayInstallment`, `Ledger.PostSavings`,
  `Contracting.ContractProduct`, `Clients.RegisterClient`, `Clients.UpdateAddress`,
  `Products.InsertProduct`). Each method is proved to leave the store equal to what the function
  gives for the old state, to return the same result, and to write nothing on an error.

`Tables.Consistent` is the invariant every handler keeps:

- identifiers match their keys;
- product types are 1 or 2;
- every account refers to an existing client and product;
- transaction identifiers are positions in the log, counted from 1;
- a savings account has no term, was opened with at least the minimum deposit and never has a negative balance;
- a credit stays *on schedule*: balance × term = initial capital × pending installments.

The schedule invariant makes the declining-balance formula repay a constant principal. The
principal charged is balance / pending term, and on a credit as contracted that always equals
capital / term (`Ledger.InstallmentKeepsSchedule`). So the clamp `max(0, …)` never bites, and after
exactly *term* payments the credit is closed. Over n installments the interest paid grows by
rate% × capital / term times the sum of the pending terms seen (`Ledger.InstallmentsInterest`). For
a whole credit of t installments that sum is t + (t − 1) + … + 1 = t (t + 1) / 2
(`Ledger.TriangleSum`). The model proves these two facts separately and does not state their
product as one lemma.

Three points of the code shape the model:

- **The principal does not change.** The principal portion of an installment is balance / pending
  term (transacciones_gui.py:158), and each payment lowers the balance by that amount and the
  pending term by one (transacciones_gui.py:162-163). On a credit as contracted the balance
  therefore stays proportional to the pending term, so every installment repays the same
  principal, capital / term.
- **A missing account is reported as the wrong type.** `tipo_producto` joins the account with its
  product and yields no type for an unknown account (transacciones_gui.py:97-106). The callers
  test only the type (transacciones_gui.py:110-112, 141-143, 193-195, 220-222), so an unknown
  account gets "No es un crédito." or "No es una cuenta de ahorros.". The "Cuenta no encontrada."
  branches after that test (transacciones_gui.py:205-207, 233-235) are never reached, and the
  model has no such error.
- **A paid-off credit has its own message.** With no installments pending, the quote reports
  "No hay cuotas pendientes." (transacciones_gui.py:123) and the payment reports "Crédito ya
  pagado." (transacciones_gui.py:154). The model keeps the two errors apart:
  `NoPendingInstallments` and `CreditAlreadyPaid`.

The e-mail rule keeps Python's meaning of `strip()` and `split("@")`. These are modelled in module
`Text`, with the split / join round trips proved.

## Model

| member | source | states |
|---|---|---|
| Ledger.ProductType | transacciones_gui.py:97-106 | a type exists iff the account exists and its product exists, and it is that product's type; on a consistent database it exists exactly for existing accounts and is 1 or 2 |
| Ledger.Due | transacciones_gui.py:126-129 | principal × pending = balance, interest × 100 = balance × rate, total = principal + interest |
| Ledger.InstallmentQuote | transacciones_gui.py:108-137 | succeeds iff the account is a credit with installments pending; "not a credit" iff the type is not 1; "no installments pending" iff it is a credit with pending term ≤ 0; the quote relates principal, interest and total to balance, pending term and rate |
| Ledger.Installment | transacciones_gui.py:157-173 | one installment: balance max(0, b − b/t) ≥ 0, pending term t − 1, interest paid grows by the interest due, no other field changes; the last installment leaves balance 0 |
| Ledger.InstallmentKeepsSchedule | transacciones_gui.py:158-163 | on a credit on schedule the principal due is capital / term, the balance drops by exactly that, and the schedule is kept |
| Ledger.Payment | transacciones_gui.py:139-189 | succeeds iff payable; "not a credit" iff the type is not 1, "already paid" iff it is a credit with pending term ≤ 0; every error writes nothing; a success appends exactly one transaction for the total with the next identifier, changes only balance, pending term and interest paid of that one account, and returns the receipt |
| Ledger.PaymentKeepsConsistent | transacciones_gui.py:162-173 | a payment keeps the database consistent |
| Ledger.InstallmentsKeepSchedule | transacciones_gui.py:158-173 | n installments keep a credit on schedule, take n off the pending term and change no other field than balance, pending term and interest paid |
| Ledger.InstallmentInterest | transacciones_gui.py:159-171 | one installment on a credit on schedule charges rate% × capital / term for every installment still pending |
| Ledger.InstallmentsInterest | transacciones_gui.py:159-171 | over n installments the interest paid grows by rate% × capital / term times the sum of the pending terms seen |
| Ledger.PendingSumClosedForm | transacciones_gui.py:163 | the pending terms p, p − 1, …, p − n + 1 sum to n (2p − n + 1) / 2 |
| Ledger.TriangleSum | transacciones_gui.py:163 | over a whole credit of t installments the pending terms sum to t (t + 1) / 2 |
| Ledger.PaymentsFollowSchedule | transacciones_gui.py:139-189 | n payments (n ≤ pending) apply n installments to that account, append n transactions after the old log, keep consistency and leave other accounts, clients and products untouched |
| Ledger.InstallmentsClose | transacciones_gui.py:153-163 | paying every pending installment of a credit on schedule leaves balance 0 and pending term 0 |
| Ledger.CreditClosesAfterTerm | transacciones_gui.py:153-163 | after exactly as many payments as were pending, the credit has balance 0 and pending 0, the log grew by that many entries, and the next payment is refused with no writes |
| Ledger.Projection | transacciones_gui.py:191-216 | succeeds iff the account is a savings account; (projection − b) × 100 = b × rate; not below the balance when the rate is not negative |
| Ledger.SavingsPosting | transacciones_gui.py:218-264 | succeeds iff the account is a savings account, the value parses and b + v ≥ 0; each error holds iff its condition holds, in the source's order (type, number, funds), and writes nothing; a success sets balance b + v ≥ 0, appends one transaction for v and keeps consistency |
| Ledger.DepositThenWithdrawRestores | transacciones_gui.py:237-249 | a deposit of v then a withdrawal of v restores every account and adds exactly two log entries |
| Ledger.WithdrawWholeBalance | transacciones_gui.py:237-242 | withdrawing the whole balance leaves exactly 0; withdrawing more is refused with no writes |
| Ledger.ProjectionIsInterestDeposit | transacciones_gui.py:209-210 | the projection equals the balance a deposit of one period's interest would produce |
| Ledger.PayInstallment | transacciones_gui.py:139-189 | the payment on the store in place: same result and new state as `Payment`, consistency kept, nothing written on an error |
| Ledger.PostSavings | transacciones_gui.py:218-264 | the savings posting on the store in place: same result and new state as `SavingsPosting`, consistency kept, nothing written on an error |
| Contracting.TermsCheck | contratar_gui.py:107-115 | a credit is accepted iff capital > 0 and term > 0; any other type iff capital ≥ 100000, and then the stored term is 0 whatever was entered |
| Contracting.Contract | contratar_gui.py:80-129 | a parse error is reported before anything else, then an unknown client, then the type rules with exactly the error they give; every error writes nothing; a success adds exactly one account with the next identifier, balance = capital, no interest paid, pending = stored term |
| Contracting.ContractKeepsConsistent | contratar_gui.py:117-125 | the new identifier is fresh and contracting keeps the database consistent |
| Contracting.NewCreditIsPayable | contratar_gui.py:107-125 | a new credit can be paid at once; its first installment repays capital / term plus rate% of the capital |
| Contracting.NewSavingsAccount | contratar_gui.py:111-125 | a new savings account holds at least 100000, has no term and answers the projection |
| Contracting.LabelNamesRules | contratar_gui.py:77-115 | the product labelled "Crédito" in the list is checked with the credit rules, one labelled "Ahorros" with the savings rules and a term of 0 |
| Contracting.ContractProduct | contratar_gui.py:80-129 | contracting on the store in place: same result and new state as `Contract`, consistency kept, nothing written on an error |
| Text.SkipSpace | clientes_gui.py:88 | the index of the first non-whitespace character at or after i: everything skipped is whitespace and the character there is not |
| Text.SkipSpaceBack | clientes_gui.py:88 | the index just past the last non-whitespace character before e: everything skipped is whitespace and the character before it is not |
| Text.Strip | clientes_gui.py:88 | the stripped text is no longer than the input and neither begins nor ends with whitespace |
| Text.StripIsInnerSlice | clientes_gui.py:88 | the stripped text is a slice of the input, and everything it drops in front and behind is whitespace |
| Text.StripCharacterised | clientes_gui.py:88 | whitespace, then a text that neither begins nor ends with whitespace, then whitespace strips to exactly that middle text |
| Text.StripUntrimmed | clientes_gui.py:88 | a text that neither begins nor ends with whitespace is its own strip |
| Text.StripIdempotent | clientes_gui.py:88 | stripping twice is stripping once |
| Text.CountZero | clientes_gui.py:89 | no occurrence counted iff the character is absent |
| Text.Split | clientes_gui.py:89 | one more piece than occurrences of the separator, and no piece contains it |
| Text.JoinSplit | clientes_gui.py:89 | joining the pieces of a split gives the text back |
| Text.SplitJoin | clientes_gui.py:89 | splitting the join of separator-free pieces gives the pieces back |
| Text.SplitInTwo | clientes_gui.py:89-90 | two pieces iff exactly one separator, and then the pieces are what lies before and after it |
| Clients.EmailCheck | clientes_gui.py:87-98 | an accepted address is the stripped text and holds exactly one '@' |
| Clients.EmailCheckAccepts | clientes_gui.py:88-91 | accepted iff the stripped text has exactly one '@' with a '.' somewhere after it |
| Clients.EmptyLocalPartAccepted | clientes_gui.py:88-91 | an address with an empty local part, such as "@a.b", is accepted as it stands |
| Clients.EmailCheckIgnoresSurroundingSpace | clientes_gui.py:88 | surrounding whitespace makes no difference to the check |
| Clients.Registration | clientes_gui.py:100-125 | succeeds iff the e-mail passes the check, identifier and phone parse and the identifier is new; an invalid e-mail is reported first, then a non-integer identifier or phone, then a duplicate identifier; every error writes nothing; a success inserts exactly the given row with the stripped e-mail |
| Clients.LookupClient | clientes_gui.py:127-138 | the stored row iff the identifier is registered, not found otherwise |
| Clients.AddressUpdate | clientes_gui.py:140-149 | an unknown identifier is reported and nothing is written; otherwise only the address of that client changes |
| Clients.RegisterThenLookup | clientes_gui.py:107-118 | a registered client is found with exactly the given fields; other clients are as before |
| Clients.RegisterTwiceRefused | clientes_gui.py:116-121 | registering the same identifier again is refused and writes nothing |
| Clients.RegistrationKeepsConsistent | clientes_gui.py:107-118 | registration keeps the database consistent |
| Clients.UpdateThenLookup | clientes_gui.py:144 | after an update the lookup gives the old row with the new address; other clients and tables are untouched; updating twice is updating once |
| Clients.AddressUpdateKeepsConsistent | clientes_gui.py:144 | the address update keeps the database consistent |
| Clients.RegisterClient | clientes_gui.py:100-125 | registration on the store in place: same result and new state as `Registration`, consistency kept, nothing written on an error |
| Clients.UpdateAddress | clientes_gui.py:140-149 | the address update on the store in place: same result and new state as `AddressUpdate`, consistency kept, nothing written on an error |
| Products.TypeLabel | productos_gui.py:119 | "Crédito" iff the type is 1, "Ahorros" iff it is not |
| Products.ProductInsertion | productos_gui.py:82-107 | succeeds iff the three numbers parse, the type is 1 or 2 and the identifier is new; a parse error is reported first, then a type other than 1 or 2, then a duplicate identifier; every error writes nothing; a success stores exactly (id, name, type, rate) |
| Products.LookupProduct | productos_gui.py:109-124 | the stored row, labelled with the label of its type, iff the identifier is present; not found otherwise |
| Products.InsertThenLookup | productos_gui.py:101-102 | an inserted product is found with exactly the values given; other products and other tables are untouched |
| Products.InsertTwiceRefused | productos_gui.py:104-105 | inserting the same identifier again is refused and writes nothing |
| Products.InsertionKeepsConsistent | productos_gui.py:95-102 | insertion keeps the database consistent, in particular every stored type is 1 or 2 |
| Products.InsertProduct | productos_gui.py:82-107 | insertion on the store in place: same result and new state as `ProductInsertion`, consistency kept, nothing written on an error |

## Left out

- The user interface is not modelled: widgets, message boxes, the HTML and receipt texts, `:.2f` formatting and the PDF export of receipts.
- The receipt's client name is not modelled. It is looked up after the commit (transacciones_gui.py:176-179, 251-254), so the model's receipts carry the transaction identifier, amounts, new balance and term, but not the name.
- SQLite is not modelled: the tables are maps and the log a sequence. The insert, update and commit pair of a payment or posting is one atomic step.
- The identifier storage assigns to a new account is `nextAccountId`. Because accounts are never deleted, this is the next free row identifier.
- The identifier a new transaction gets is its position in the log.
- The schema file is not part of this model. Only the primary keys are known: client, product and account identifiers. `Products.ProductInsertion` rejects only a duplicate identifier. Its error message also mentions a duplicate name, which would need a unique constraint the schema may hold.
- Parsing of typed text is not modelled: `int()` and `float()` (whitespace, signs, `nan`, `inf`) become `Option` parameters, where `None` is input that does not parse.
- Identifiers typed into lookup, payment and contract fields are taken as integers. Such text is taken as the integer it denotes; how SQLite compares other text with the identifier column is not modelled.
- Floating point is not modelled: money and rates are exact reals, with no rounding, overflow or NaN.
- The date comes from the clock (`datetime.now()`) or the date widget. It is a parameter.
- Handling of unexpected exceptions is not modelled (the generic `except Exception` branches). The product insertion reports a parse failure through that branch; the model names it `InvalidNumber`.
- The product list of the contract screen is not modelled, except for its type label. `Contracting.Contract` requires the chosen product to be in the catalogue, as every entry of that list is. An empty list, where the screen would fail, is not modelled.
- Listing all products and all clients is not modelled: it is presentation of the whole tables.
- The account lookups that follow `tipo_producto` in each ledger handler are not modelled separately. Their "not found" branches cannot be taken once the join has found the account.
