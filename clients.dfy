/** The client registry: the e-mail check, registration with duplicate-key rejection, lookup
    and the address update. */
module Clients {
  import opened Common
  import opened Tables
  import opened Text

  datatype ClientError =
    | InvalidEmail   // "Correo inválido"
    | InvalidNumber  // "Verifica que el ID y Teléfono sean numéricos."
    | DuplicateId    // "Ya existe un cliente con ese ID."
    | NotFound       // "Cliente no encontrado."

  /** The structural e-mail rule: the stripped text splits on '@' into exactly two pieces and the
      second one holds a '.'. The accepted address is the stripped text. */
  function EmailCheck(raw: string): (r: Option<string>)
    ensures r.Some? ==> r.value == Strip(raw) && Count(r.value, '@') == 1
  {
    var email := Strip(raw);
    var parts := Split(email, '@');
    if |parts| == 2 && '.' in parts[1] then Some(email) else None
  }

  /** An address with exactly one '@' at position i and a '.' somewhere after it. */
  predicate WellFormedAt(email: string, i: int)
  {
    && 0 <= i < |email|
    && email[i] == '@'
    && '@' !in email[..i]
    && '@' !in email[i + 1..]
    && '.' in email[i + 1..]
  }

  /** The rule accepts exactly the addresses whose stripped text has one '@' followed, somewhere,
      by a '.'. */
  lemma EmailCheckAccepts(raw: string)
    ensures EmailCheck(raw).Some? <==> exists i :: WellFormedAt(Strip(raw), i)
  {
    var email := Strip(raw);
    SplitInTwo(email, '@');
    if EmailCheck(raw).Some? {
      var i :| 0 <= i < |email| && email[i] == '@' && '@' !in email[..i] && '@' !in email[i + 1..];
      assert WellFormedAt(email, i);
    }
    if exists i :: WellFormedAt(email, i) {
      var i :| WellFormedAt(email, i);
      assert Split(email, '@') == [email[..i], email[i + 1..]];
    }
  }

  /** The local part may be empty: '@' followed by any domain that holds a '.', no '@' and no
      trailing whitespace is accepted as it stands. */
  lemma EmptyLocalPartAccepted(domain: string)
    requires '@' !in domain && '.' in domain
    requires !IsSpace(domain[|domain| - 1])
    ensures EmailCheck("@" + domain) == Some("@" + domain)
  {
    var e := "@" + domain;
    assert e[0] == '@' && e[1..] == domain;
    assert Split(domain, '@') == [domain] by {
      CountZero(domain, '@');
      JoinSplit(domain, '@');
    }
    assert Split(e, '@') == [""] + [domain];
    assert e[|e| - 1] == domain[|domain| - 1];
    StripUntrimmed(e);
  }

  /** Whitespace around the address makes no difference to the check. */
  lemma EmailCheckIgnoresSurroundingSpace(raw: string)
    ensures EmailCheck(Strip(raw)) == EmailCheck(raw)
  {
    StripIdempotent(raw);
  }

  /** registrar_cliente: the e-mail is checked first, then the identifier and phone must be
      integers, then the identifier must be new; only then is the row inserted. */
  function Registration(d: Db, id: Option<int>, name: string, surname: string, address: string,
                        phone: Option<int>, rawEmail: string): (r: (Result<Client, ClientError>, Db))
    ensures r.0.Ok? <==> EmailCheck(rawEmail).Some? && id.Some? && phone.Some? && id.value !in d.clients
    ensures r.0 == Err(InvalidEmail) <==> EmailCheck(rawEmail).None?
    ensures r.0 == Err(InvalidNumber) <==> EmailCheck(rawEmail).Some? && (id.None? || phone.None?)
    ensures r.0 == Err(DuplicateId) <==>
      EmailCheck(rawEmail).Some? && id.Some? && phone.Some? && id.value in d.clients
    ensures r.0.Err? ==> r.1 == d
    ensures r.0.Ok? ==>
      && id.Some? && phone.Some? && id.value !in d.clients
      && r.0.value == Client(id.value, name, surname, address, phone.value, Strip(rawEmail))
      && r.1 == d.(clients := d.clients[id.value := r.0.value])
  {
    var email := EmailCheck(rawEmail);
    if email.None? then (Err(InvalidEmail), d)
    else if id.None? || phone.None? then (Err(InvalidNumber), d)
    else if id.value in d.clients then (Err(DuplicateId), d)
    else
      var c := Client(id.value, name, surname, address, phone.value, email.value);
      (Ok(c), d.(clients := d.clients[id.value := c]))
  }

  /** consultar_cliente: the stored row, or not found; a pure read. */
  function LookupClient(d: Db, id: int): (r: Result<Client, ClientError>)
    ensures r.Ok? <==> id in d.clients
    ensures r.Ok? ==> r.value == d.clients[id]
    ensures r.Err? ==> r.error == NotFound
  {
    if id in d.clients then Ok(d.clients[id]) else Err(NotFound)
  }

  /** actualizar_direccion: the address of that one client is replaced; an unknown identifier is
      reported and nothing is written. */
  function AddressUpdate(d: Db, id: int, address: string): (r: (Result<(), ClientError>, Db))
    ensures r.0.Ok? <==> id in d.clients
    ensures r.0.Err? ==> r.0.error == NotFound && r.1 == d
    ensures r.0.Ok? ==>
      r.1 == d.(clients := d.clients[id := d.clients[id].(address := address)])
  {
    if id in d.clients then (Ok(()), d.(clients := d.clients[id := d.clients[id].(address := address)]))
    else (Err(NotFound), d)
  }

  /** A registered client is found with exactly the fields given, the address as stripped, and
      every other client is as before. */
  lemma RegisterThenLookup(d: Db, id: int, name: string, surname: string, address: string,
                           phone: int, rawEmail: string, other: int)
    requires Registration(d, Some(id), name, surname, address, Some(phone), rawEmail).0.Ok?
    ensures
      var d' := Registration(d, Some(id), name, surname, address, Some(phone), rawEmail).1;
      && LookupClient(d', id) == Ok(Client(id, name, surname, address, phone, Strip(rawEmail)))
      && (other != id ==> LookupClient(d', other) == LookupClient(d, other))
  {
  }

  /** Registering an identifier a second time is refused, whatever the other fields hold. */
  lemma RegisterTwiceRefused(d: Db, id: int, name: string, surname: string, address: string,
                             phone: int, rawEmail: string,
                             name2: string, surname2: string, address2: string, phone2: int)
    requires Registration(d, Some(id), name, surname, address, Some(phone), rawEmail).0.Ok?
    ensures
      var d' := Registration(d, Some(id), name, surname, address, Some(phone), rawEmail).1;
      Registration(d', Some(id), name2, surname2, address2, Some(phone2), rawEmail) == (Err(DuplicateId), d')
  {
  }

  /** Registration keeps the database consistent. */
  lemma RegistrationKeepsConsistent(d: Db, id: Option<int>, name: string, surname: string, address: string,
                                    phone: Option<int>, rawEmail: string)
    requires Consistent(d)
    ensures Consistent(Registration(d, id, name, surname, address, phone, rawEmail).1)
  {
    var d' := Registration(d, id, name, surname, address, phone, rawEmail).1;
    forall k | k in d'.accounts ensures AccountOk(d', k) {
      assert AccountOk(d, k);
    }
  }

  /** After an update the lookup returns the old row with the new address; other clients and the
      other tables are untouched, and updating twice with the same address is updating once. */
  lemma UpdateThenLookup(d: Db, id: int, address: string, other: int)
    requires id in d.clients
    ensures
      var d' := AddressUpdate(d, id, address).1;
      && LookupClient(d', id) == Ok(d.clients[id].(address := address))
      && (other != id ==> LookupClient(d', other) == LookupClient(d, other))
      && d'.products == d.products && d'.accounts == d.accounts && d'.txns == d.txns
      && AddressUpdate(d', id, address).1 == d'
  {
  }

  /** The address update keeps the database consistent. */
  lemma AddressUpdateKeepsConsistent(d: Db, id: int, address: string)
    requires Consistent(d)
    ensures Consistent(AddressUpdate(d, id, address).1)
  {
    var d' := AddressUpdate(d, id, address).1;
    forall k | k in d'.accounts ensures AccountOk(d', k) {
      assert AccountOk(d, k);
    }
  }

  /** registrar_cliente on the store in place. */
  method RegisterClient(s: Store, id: Option<int>, name: string, surname: string, address: string,
                        phone: Option<int>, rawEmail: string) returns (r: Result<Client, ClientError>)
    requires s.Valid()
    modifies s
    ensures s.Valid()
    ensures (r, s.Snapshot()) == Registration(old(s.Snapshot()), id, name, surname, address, phone, rawEmail)
    ensures r.Err? ==> unchanged(s)
  {
    RegistrationKeepsConsistent(s.Snapshot(), id, name, surname, address, phone, rawEmail);
    var email := EmailCheck(rawEmail);
    if email.None? {
      return Err(InvalidEmail);
    }
    if id.None? || phone.None? {
      return Err(InvalidNumber);
    }
    if id.value in s.clients {
      return Err(DuplicateId);
    }
    var c := Client(id.value, name, surname, address, phone.value, email.value);
    s.clients := s.clients[id.value := c];
    r := Ok(c);
  }

  /** actualizar_direccion on the store in place. */
  method UpdateAddress(s: Store, id: int, address: string) returns (r: Result<(), ClientError>)
    requires s.Valid()
    modifies s
    ensures s.Valid()
    ensures (r, s.Snapshot()) == AddressUpdate(old(s.Snapshot()), id, address)
    ensures r.Err? ==> unchanged(s)
  {
    AddressUpdateKeepsConsistent(s.Snapshot(), id, address);
    if id !in s.clients {
      return Err(NotFound);
    }
    s.clients := s.clients[id := s.clients[id].(address := address)];
    r := Ok(());
  }
}
