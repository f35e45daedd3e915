/** The local database as immutable tables keyed by Id, with the relations,
    delete behaviours and unique indexes the Entity Framework model declares:
    a sale restricts deletion of its client, a sale's line items cascade with
    it, a line item restricts deletion of its caravana, a caravana's SENASA
    authorisations cascade with it, and DNI, Matricula, NumeroSenasa and
    Serie are unique. */
module Store {
  import opened Wrappers
  import opened Models

  datatype Db = Db(
    clientes: map<int, Cliente>,
    caravanas: map<int, Caravana>,
    ventas: map<int, Venta>,
    items: map<int, VentaCaravana>,
    autorizaciones: map<int, AutorizacionSenasa>)

  /** Why the database refused a change (a `DbUpdateException`, or a row
      that is not there). */
  datatype DbError = NotFound | Restricted | UniqueViolation | ForeignKeyViolation

  // ---------------------------------------------------------------------
  // Integrity
  // ---------------------------------------------------------------------

  /** Every row is stored under its own primary key. */
  predicate KeysAreIds(db: Db) {
    && (forall k :: k in db.clientes ==> db.clientes[k].id == k)
    && (forall k :: k in db.caravanas ==> db.caravanas[k].id == k)
    && (forall k :: k in db.ventas ==> db.ventas[k].id == k)
    && (forall k :: k in db.items ==> db.items[k].id == k)
    && (forall k :: k in db.autorizaciones ==> db.autorizaciones[k].id == k)
  }

  /** Every foreign key names an existing row. */
  predicate ForeignKeysHold(db: Db) {
    && (forall k :: k in db.ventas ==> db.ventas[k].clienteId in db.clientes)
    && (forall k :: k in db.items ==> db.items[k].ventaId in db.ventas)
    && (forall k :: k in db.items ==> db.items[k].caravanaId in db.caravanas)
    && (forall k :: k in db.autorizaciones ==> db.autorizaciones[k].caravanaId in db.caravanas)
  }

  predicate UniqueDni(clientes: map<int, Cliente>) {
    forall a, b :: a in clientes && b in clientes && a != b ==> clientes[a].dni != clientes[b].dni
  }

  predicate UniqueCaravanaKeys(caravanas: map<int, Caravana>) {
    forall a, b :: a in caravanas && b in caravanas && a != b ==>
      && caravanas[a].matricula != caravanas[b].matricula
      && caravanas[a].numeroSenasa != caravanas[b].numeroSenasa
      && caravanas[a].serie != caravanas[b].serie
  }

  /** The schema's invariants. */
  predicate Valid(db: Db) {
    && KeysAreIds(db)
    && ForeignKeysHold(db)
    && UniqueDni(db.clientes)
    && UniqueCaravanaKeys(db.caravanas)
  }

  // ---------------------------------------------------------------------
  // Queries
  // ---------------------------------------------------------------------

  /** Some sale belongs to the client. */
  predicate HasVentas(db: Db, clienteId: int) {
    exists k :: k in db.ventas && db.ventas[k].clienteId == clienteId
  }

  /** Some line item of some sale refers to the caravana. */
  predicate IsSold(db: Db, caravanaId: int) {
    exists k :: k in db.items && db.items[k].caravanaId == caravanaId
  }

  /** A line item of a sale other than `ventaId` refers to the caravana. */
  predicate UsedByOtherVenta(db: Db, caravanaId: int, ventaId: int) {
    exists k :: k in db.items && db.items[k].caravanaId == caravanaId && db.items[k].ventaId != ventaId
  }

  /** The line items of one sale. */
  predicate IsItemOf(db: Db, k: int, ventaId: int) {
    k in db.items && db.items[k].ventaId == ventaId
  }

  /** The caravanas a sale holds. */
  function HeldBy(db: Db, ventaId: int): (ids: set<int>)
    ensures forall id :: id in ids <==> exists k :: IsItemOf(db, k, ventaId) && db.items[k].caravanaId == id
  {
    set k | k in db.items && db.items[k].ventaId == ventaId :: db.items[k].caravanaId
  }

  /** The availability ledger agrees with the line items: a caravana is
      unavailable exactly when some sale holds it. */
  predicate LedgerConsistent(db: Db) {
    forall c :: c in db.caravanas ==> (!db.caravanas[c].disponible <==> IsSold(db, c))
  }

  /** In a valid store a sale holds only stored caravanas, and a sale that
      is not stored holds nothing. With the ledger in step, a stored
      caravana is unavailable exactly when some stored sale holds it. */
  lemma HeldByStored(db: Db, ventaId: int)
    requires Valid(db)
    ensures forall id :: id in HeldBy(db, ventaId) ==> id in db.caravanas
    ensures ventaId !in db.ventas ==> HeldBy(db, ventaId) == {}
    ensures LedgerConsistent(db) ==> forall c :: c in db.caravanas ==>
      (!db.caravanas[c].disponible <==> exists v :: v in db.ventas && c in HeldBy(db, v))
  {
    forall id | id in HeldBy(db, ventaId)
      ensures id in db.caravanas && ventaId in db.ventas
    {
      var k :| IsItemOf(db, k, ventaId) && db.items[k].caravanaId == id;
    }
    forall c | c in db.caravanas && IsSold(db, c)
      ensures exists v :: v in db.ventas && c in HeldBy(db, v)
    {
      var k :| k in db.items && db.items[k].caravanaId == c;
      assert IsItemOf(db, k, db.items[k].ventaId);
    }
  }

  /** No sale holds the same caravana twice. */
  predicate NoDuplicateItems(db: Db) {
    forall a, b :: a in db.items && b in db.items && a != b && db.items[a].ventaId == db.items[b].ventaId ==>
      db.items[a].caravanaId != db.items[b].caravanaId
  }

  // ---------------------------------------------------------------------
  // Deletes
  // ---------------------------------------------------------------------

  /** Deleting a client: refused while any sale refers to it
      (`DeleteBehavior.Restrict`). */
  function RemoveCliente(db: Db, id: int): (r: Result<Db, DbError>)
    ensures r.Success? <==> id in db.clientes && !HasVentas(db, id)
    ensures r.Failure? ==> r.error == (if id in db.clientes then Restricted else NotFound)
    ensures r.Success? ==>
      && r.value.clientes.Keys == db.clientes.Keys - {id}
      && (forall k :: k in r.value.clientes ==> r.value.clientes[k] == db.clientes[k])
      && r.value.(clientes := db.clientes) == db
    ensures Valid(db) && r.Success? ==> Valid(r.value)
  {
    if id !in db.clientes then Failure(NotFound)
    else if HasVentas(db, id) then Failure(Restricted)
    else Success(db.(clientes := db.clientes - {id}))
  }

  /** Deleting a sale deletes its line items with it
      (`DeleteBehavior.Cascade`); no other row goes. */
  function RemoveVenta(db: Db, id: int): (r: Result<Db, DbError>)
    ensures r.Success? <==> id in db.ventas
    ensures r.Failure? ==> r.error == NotFound
    ensures r.Success? ==>
      && r.value.ventas.Keys == db.ventas.Keys - {id}
      && (forall k :: k in r.value.ventas ==> r.value.ventas[k] == db.ventas[k])
      && (forall k :: k in r.value.items <==> k in db.items && db.items[k].ventaId != id)
      && (forall k :: k in r.value.items ==> r.value.items[k] == db.items[k])
      && r.value.clientes == db.clientes
      && r.value.caravanas == db.caravanas
      && r.value.autorizaciones == db.autorizaciones
    ensures Valid(db) && r.Success? ==> Valid(r.value)
  {
    if id !in db.ventas then Failure(NotFound)
    else
      Success(db.(
        ventas := db.ventas - {id},
        items := map k | k in db.items && db.items[k].ventaId != id :: db.items[k]))
  }

  /** Deleting a caravana: refused while a line item refers to it
      (`DeleteBehavior.Restrict`); its SENASA authorisations go with it
      (`DeleteBehavior.Cascade`). */
  function RemoveCaravana(db: Db, id: int): (r: Result<Db, DbError>)
    ensures r.Success? <==> id in db.caravanas && !IsSold(db, id)
    ensures r.Failure? ==> r.error == (if id in db.caravanas then Restricted else NotFound)
    ensures r.Success? ==>
      && r.value.caravanas.Keys == db.caravanas.Keys - {id}
      && (forall k :: k in r.value.caravanas ==> r.value.caravanas[k] == db.caravanas[k])
      && (forall k :: k in r.value.autorizaciones <==>
            k in db.autorizaciones && db.autorizaciones[k].caravanaId != id)
      && (forall k :: k in r.value.autorizaciones ==> r.value.autorizaciones[k] == db.autorizaciones[k])
      && r.value.clientes == db.clientes
      && r.value.ventas == db.ventas
      && r.value.items == db.items
    ensures Valid(db) && r.Success? ==> Valid(r.value)
  {
    if id !in db.caravanas then Failure(NotFound)
    else if IsSold(db, id) then Failure(Restricted)
    else
      Success(db.(
        caravanas := db.caravanas - {id},
        autorizaciones := map k | k in db.autorizaciones && db.autorizaciones[k].caravanaId != id
                              :: db.autorizaciones[k]))
  }

  // ---------------------------------------------------------------------
  // Inserts and updates
  // ---------------------------------------------------------------------

  /** Writing a caravana row (insert or update by Id): refused when another
      caravana already has its Matricula, NumeroSenasa or Serie. */
  function PutCaravana(db: Db, c: Caravana): (r: Result<Db, DbError>)
    ensures r.Success? <==>
      forall k :: k in db.caravanas && k != c.id ==>
        && db.caravanas[k].matricula != c.matricula
        && db.caravanas[k].numeroSenasa != c.numeroSenasa
        && db.caravanas[k].serie != c.serie
    ensures r.Failure? ==> r.error == UniqueViolation
    ensures r.Success? ==>
      && r.value.caravanas.Keys == db.caravanas.Keys + {c.id}
      && r.value.caravanas[c.id] == c
      && (forall k :: k in db.caravanas && k != c.id ==> r.value.caravanas[k] == db.caravanas[k])
      && r.value.(caravanas := db.caravanas) == db
    ensures Valid(db) && r.Success? ==> Valid(r.value)
  {
    if exists k :: k in db.caravanas && k != c.id &&
         (|| db.caravanas[k].matricula == c.matricula
          || db.caravanas[k].numeroSenasa == c.numeroSenasa
          || db.caravanas[k].serie == c.serie)
    then Failure(UniqueViolation)
    else
      PutCaravanaValid(db, c);
      Success(db.(caravanas := db.caravanas[c.id := c]))
  }

  /** Changing nothing but the availability flags keeps the invariants. */
  lemma FlagsOnlyKeepValid(db: Db, m: map<int, Caravana>)
    requires m.Keys == db.caravanas.Keys
    requires forall k :: k in m ==> m[k] == db.caravanas[k].(disponible := m[k].disponible)
    ensures Valid(db) ==> Valid(db.(caravanas := m))
  {
    if Valid(db) {
      var d := db.(caravanas := m);
      assert KeysAreIds(d);
      assert ForeignKeysHold(d);
      assert UniqueCaravanaKeys(m) by {
        forall a, b | a in m && b in m && a != b
          ensures m[a].matricula != m[b].matricula
          ensures m[a].numeroSenasa != m[b].numeroSenasa
          ensures m[a].serie != m[b].serie
        {
          assert m[a] == db.caravanas[a].(disponible := m[a].disponible);
          assert m[b] == db.caravanas[b].(disponible := m[b].disponible);
        }
      }
    }
  }

  /** Rewriting clients under the same keys, each keeping its Id and DNI,
      keeps the invariants. */
  lemma SameIdsKeepValid(db: Db, m: map<int, Cliente>)
    requires m.Keys == db.clientes.Keys
    requires forall k :: k in m ==> m[k].id == db.clientes[k].id && m[k].dni == db.clientes[k].dni
    ensures Valid(db) ==> Valid(db.(clientes := m))
  {
    if Valid(db) {
      var d := db.(clientes := m);
      assert KeysAreIds(d);
      assert ForeignKeysHold(d);
      assert UniqueDni(m);
    }
  }

  lemma PutCaravanaValid(db: Db, c: Caravana)
    requires forall k :: k in db.caravanas && k != c.id ==>
      && db.caravanas[k].matricula != c.matricula
      && db.caravanas[k].numeroSenasa != c.numeroSenasa
      && db.caravanas[k].serie != c.serie
    ensures Valid(db) ==> Valid(db.(caravanas := db.caravanas[c.id := c]))
  {
    if Valid(db) {
      var d := db.(caravanas := db.caravanas[c.id := c]);
      assert KeysAreIds(d);
      assert ForeignKeysHold(d);
      assert UniqueCaravanaKeys(d.caravanas);
    }
  }

  /** Writing a client row (insert or update by Id): refused when another
      client already has its DNI. */
  function PutCliente(db: Db, c: Cliente): (r: Result<Db, DbError>)
    ensures r.Success? <==> forall k :: k in db.clientes && k != c.id ==> db.clientes[k].dni != c.dni
    ensures r.Failure? ==> r.error == UniqueViolation
    ensures r.Success? ==>
      && r.value.clientes.Keys == db.clientes.Keys + {c.id}
      && r.value.clientes[c.id] == c
      && (forall k :: k in db.clientes && k != c.id ==> r.value.clientes[k] == db.clientes[k])
      && r.value.(clientes := db.clientes) == db
    ensures Valid(db) && r.Success? ==> Valid(r.value)
  {
    if exists k :: k in db.clientes && k != c.id && db.clientes[k].dni == c.dni
    then Failure(UniqueViolation)
    else
      PutClienteValid(db, c);
      Success(db.(clientes := db.clientes[c.id := c]))
  }

  lemma PutClienteValid(db: Db, c: Cliente)
    requires forall k :: k in db.clientes && k != c.id ==> db.clientes[k].dni != c.dni
    ensures Valid(db) ==> Valid(db.(clientes := db.clientes[c.id := c]))
  {
    if Valid(db) {
      var d := db.(clientes := db.clientes[c.id := c]);
      assert KeysAreIds(d);
      assert ForeignKeysHold(d);
      assert UniqueDni(d.clientes);
    }
  }

  /** Writing a sale header (insert or update by Id): refused when its
      client does not exist. */
  function PutVenta(db: Db, v: Venta): (r: Result<Db, DbError>)
    ensures r.Success? <==> v.clienteId in db.clientes
    ensures r.Failure? ==> r.error == ForeignKeyViolation
    ensures r.Success? ==>
      && r.value.ventas.Keys == db.ventas.Keys + {v.id}
      && r.value.ventas[v.id] == v
      && (forall k :: k in db.ventas && k != v.id ==> r.value.ventas[k] == db.ventas[k])
      && r.value.(ventas := db.ventas) == db
    ensures Valid(db) && r.Success? ==> Valid(r.value)
  {
    if v.clienteId !in db.clientes then Failure(ForeignKeyViolation)
    else Success(db.(ventas := db.ventas[v.id := v]))
  }
}
