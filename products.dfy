/** The product catalogue: insertion with type-code validation and duplicate-key rejection,
    lookup, and the label a type code is shown with. */
module Products {
  import opened Common
  import opened Tables

  datatype ProductError =
    | InvalidNumber  // identifier or type not an integer, or rate not a number (the exception text is shown)
    | InvalidType    // "El tipo debe ser 1 (Crédito) o 2 (Ahorros)."
    | DuplicateId    // "El ID ya existe o el nombre está duplicado."
    | NotFound       // "Producto no encontrado."

  /** The label a type code is shown with: code 1 is a credit, every other code a savings product. */
  function TypeLabel(kind: int): (r: string)
    ensures r == "Crédito" <==> kind == CREDIT
    ensures r == "Ahorros" <==> kind != CREDIT
  {
    if kind == CREDIT then "Crédito" else "Ahorros"
  }

  /** insertar_producto: the three numbers must parse, the type must be 1 or 2, the identifier must
      be new; then exactly the tuple (id, name, type, rate) is stored. */
  function ProductInsertion(d: Db, id: Option<int>, name: string, kind: Option<int>, rate: Option<real>)
    : (r: (Result<Product, ProductError>, Db))
    ensures r.0.Ok? <==>
      id.Some? && kind.Some? && rate.Some? && (kind.value == CREDIT || kind.value == SAVINGS)
      && id.value !in d.products
    ensures r.0 == Err(InvalidNumber) <==> id.None? || kind.None? || rate.None?
    ensures r.0 == Err(InvalidType) <==>
      id.Some? && kind.Some? && rate.Some? && kind.value != CREDIT && kind.value != SAVINGS
    ensures r.0 == Err(DuplicateId) <==>
      id.Some? && kind.Some? && rate.Some? && (kind.value == CREDIT || kind.value == SAVINGS)
      && id.value in d.products
    ensures r.0.Err? ==> r.1 == d
    ensures r.0.Ok? ==>
      && id.Some? && kind.Some? && rate.Some? && id.value !in d.products
      && r.0.value == Product(id.value, name, kind.value, rate.value)
      && r.1 == d.(products := d.products[id.value := r.0.value])
  {
    if id.None? || kind.None? || rate.None? then (Err(InvalidNumber), d)
    else if kind.value != CREDIT && kind.value != SAVINGS then (Err(InvalidType), d)
    else if id.value in d.products then (Err(DuplicateId), d)
    else
      var p := Product(id.value, name, kind.value, rate.value);
      (Ok(p), d.(products := d.products[id.value := p]))
  }

  /** consultar_producto: the stored row with the label of its type, or not found; a pure read. */
  function LookupProduct(d: Db, id: int): (r: Result<(Product, string), ProductError>)
    ensures r.Ok? <==> id in d.products
    ensures r.Ok? ==> r.value.0 == d.products[id]
    ensures r.Ok? ==> r.value.1 == TypeLabel(d.products[id].kind)
    ensures r.Err? ==> r.error == NotFound
  {
    if id in d.products then Ok((d.products[id], TypeLabel(d.products[id].kind))) else Err(NotFound)
  }

  /** An inserted product is found with exactly the values given, labelled by its type, and every
      other product is as before. */
  lemma InsertThenLookup(d: Db, id: int, name: string, kind: int, rate: real, other: int)
    requires ProductInsertion(d, Some(id), name, Some(kind), Some(rate)).0.Ok?
    ensures
      var d' := ProductInsertion(d, Some(id), name, Some(kind), Some(rate)).1;
      && LookupProduct(d', id) == Ok((Product(id, name, kind, rate), if kind == CREDIT then "Crédito" else "Ahorros"))
      && (other != id ==> LookupProduct(d', other) == LookupProduct(d, other))
      && d'.clients == d.clients && d'.accounts == d.accounts && d'.txns == d.txns
  {
  }

  /** Inserting an identifier a second time is refused, whatever the other fields hold. */
  lemma InsertTwiceRefused(d: Db, id: int, name: string, kind: int, rate: real,
                           name2: string, kind2: int, rate2: real)
    requires ProductInsertion(d, Some(id), name, Some(kind), Some(rate)).0.Ok?
    requires kind2 == CREDIT || kind2 == SAVINGS
    ensures
      var d' := ProductInsertion(d, Some(id), name, Some(kind), Some(rate)).1;
      ProductInsertion(d', Some(id), name2, Some(kind2), Some(rate2)) == (Err(DuplicateId), d')
  {
  }

  /** Insertion keeps the database consistent: every stored type code is 1 or 2. */
  lemma InsertionKeepsConsistent(d: Db, id: Option<int>, name: string, kind: Option<int>, rate: Option<real>)
    requires Consistent(d)
    ensures Consistent(ProductInsertion(d, id, name, kind, rate).1)
  {
    var d' := ProductInsertion(d, id, name, kind, rate).1;
    forall k | k in d'.accounts ensures AccountOk(d', k) {
      assert AccountOk(d, k);
    }
  }

  /** insertar_producto on the store in place. */
  method InsertProduct(s: Store, id: Option<int>, name: string, kind: Option<int>, rate: Option<real>)
    returns (r: Result<Product, ProductError>)
    requires s.Valid()
    modifies s
    ensures s.Valid()
    ensures (r, s.Snapshot()) == ProductInsertion(old(s.Snapshot()), id, name, kind, rate)
    ensures r.Err? ==> unchanged(s)
  {
    InsertionKeepsConsistent(s.Snapshot(), id, name, kind, rate);
    if id.None? || kind.None? || rate.None? {
      return Err(InvalidNumber);
    }
    if kind.value != CREDIT && kind.value != SAVINGS {
      return Err(InvalidType);
    }
    if id.value in s.products {
      return Err(DuplicateId);
    }
    var p := Product(id.value, name, kind.value, rate.value);
    s.products := s.products[id.value := p];
    r := Ok(p);
  }
}
