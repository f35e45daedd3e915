/** The clients list: loading it repairs every client's public code and QR
    image, and its delete button removes a client without sales. */
module ClientsView {
  import opened Wrappers
  import opened Text
  import opened Models
  import opened Store
  import opened Ordering
  import opened QRCode

  // ---------------------------------------------------------------------
  // Ordering
  // ---------------------------------------------------------------------

  /** The list order: by surname, and by name among equal surnames. */
  predicate ClientLe(a: Cliente, b: Cliente) {
    LexLe(a.apellido, b.apellido) && (a.apellido == b.apellido ==> LexLe(a.nombre, b.nombre))
  }

  lemma ClientLeTotal()
    ensures TotalPreorder(ClientLe)
  {
    forall a: Cliente, b: Cliente ensures ClientLe(a, b) || ClientLe(b, a) {
      LexLeTotal(a.apellido, b.apellido);
      LexLeTotal(a.nombre, b.nombre);
      if LexLe(a.apellido, b.apellido) && LexLe(b.apellido, a.apellido) {
        LexLeAntisymmetric(a.apellido, b.apellido);
      }
    }
    forall a: Cliente, b: Cliente, c: Cliente | ClientLe(a, b) && ClientLe(b, c) ensures ClientLe(a, c) {
      LexLeTransitive(a.apellido, b.apellido, c.apellido);
      if a.apellido == c.apellido {
        LexLeAntisymmetric(a.apellido, b.apellido);
        LexLeTransitive(a.nombre, b.nombre, c.nombre);
      }
    }
  }

  // ---------------------------------------------------------------------
  // Loading
  // ---------------------------------------------------------------------

  /** A stored client whose QR image file is missing from the folder. */
  predicate NeedsImage(c: Cliente, folder: string, files: set<string>) {
    c.id > 0 && GetQRImagePath(folder, c.id) !in files
  }

  /** A stored client the load changes in a way that sets `updated`: a
      blank public code or a missing image. */
  predicate NeedsUpdate(c: Cliente, folder: string, files: set<string>) {
    c.id > 0 && (IsNullOrWhiteSpace(c.codigoQR) || GetQRImagePath(folder, c.id) !in files)
  }

  /** The code a client keeps: its own unless blank, else a new one. */
  function CodeFor(existing: Option<string>, g: Guid): (code: string)
    ensures !IsBlank(code)
    ensures !IsNullOrWhiteSpace(existing) ==> code == existing.value
    ensures IsNullOrWhiteSpace(existing) ==> code == GeneratePublicCode(g)
  {
    if IsNullOrWhiteSpace(existing) then GeneratePublicCode(g) else existing.value
  }

  /** One pass of the loop body: a blank public code is replaced by a new
      one, a missing image is generated (`None` when writing it fails) and
      the image path is recorded. Clients without a stored id are left as
      they are. */
  function RefreshClient(c: Cliente, folder: string, files: set<string>, g: Guid, writeOk: bool): (r: Option<Cliente>)
    ensures r.None? <==> NeedsImage(c, folder, files) && !writeOk
    ensures r.Some? && c.id <= 0 ==> r.value == c
    ensures r.Some? && c.id > 0 ==>
      && r.value == c.(codigoQR := r.value.codigoQR, rutaImagenQR := Some(GetQRImagePath(folder, c.id)))
      && r.value.codigoQR.Some? && !IsBlank(r.value.codigoQR.value)
      && (!IsNullOrWhiteSpace(c.codigoQR) ==> r.value.codigoQR == c.codigoQR)
      && (IsNullOrWhiteSpace(c.codigoQR) ==> r.value.codigoQR == Some(GeneratePublicCode(g)))
  {
    if c.id <= 0 then Some(c)
    else
      var code := CodeFor(c.codigoQR, g);
      var path := GetQRImagePath(folder, c.id);
      if path in files then Some(c.(codigoQR := Some(code), rutaImagenQR := Some(path)))
      else
        var a := GenerateForClient(folder, c.id, c.nombre + " " + c.apellido, Some(code), g, writeOk);
        if a.None? then None
        else
          assert a.value.publicCode == code && a.value.imagePath == path;
          Some(c.(rutaImagenQR := Some(a.value.imagePath), codigoQR := Some(a.value.publicCode)))
  }

  /** How loading the list ended: the store as saved, the list as shown
      and the image files afterwards; or the error message, with nothing
      saved. */
  datatype LoadOutcome = Loaded(db: Db, shown: seq<Cliente>, files: set<string>) | LoadFailed

  /** Some stored client needs an image that cannot be written. */
  predicate LoadFails(db: Db, folder: string, files: set<string>, writeOk: int -> bool) {
    exists k :: k in db.clientes && NeedsImage(db.clientes[k], folder, files) && !writeOk(k)
  }

  /** Some stored client sets `updated`, so the load saves. */
  predicate AnyNeedsUpdate(db: Db, folder: string, files: set<string>) {
    exists k :: k in db.clientes && NeedsUpdate(db.clientes[k], folder, files)
  }

  /** Every client refreshed; only defined when no image write fails. */
  function RefreshedClients(db: Db, folder: string, files: set<string>, guids: int -> Guid, writeOk: int -> bool): (cs: map<int, Cliente>)
    requires !LoadFails(db, folder, files, writeOk)
    ensures cs.Keys == db.clientes.Keys
    ensures forall k :: k in cs ==> Some(cs[k]) == RefreshClient(db.clientes[k], folder, files, guids(k), writeOk(k))
    ensures forall k :: k in cs ==> cs[k].id == db.clientes[k].id && cs[k].dni == db.clientes[k].dni
  {
    map k | k in db.clientes :: RefreshClient(db.clientes[k], folder, files, guids(k), writeOk(k)).value
  }

  /** The image files generation writes. */
  function Written(db: Db, folder: string, files: set<string>): set<string> {
    set k | k in db.clientes && NeedsImage(db.clientes[k], folder, files) :: GetQRImagePath(folder, db.clientes[k].id)
  }

  /** The list as shown: by surname, then name. */
  function Shown(cs: map<int, Cliente>): (shown: seq<Cliente>)
    ensures |shown| == |cs|
    ensures forall c :: c in shown <==> c in cs.Values
    ensures SortedBy(shown, ClientLe)
  {
    ClientLeTotal();
    var rows := InKeyOrder(cs);
    var shown := SortBy(rows, ClientLe);
    SameMultiset(shown, rows);
    shown
  }

  /** `CargarClientes`: refresh every client, save only when some client
      set `updated` (the change tracker then writes every change, image
      paths included), and show the clients by surname and name. A failed
      image write ends the load before anything is saved. `guids` and
      `writeOk` stand for the GUID drawn and the image write's success
      for the client with that id. */
  function LoadClients(db: Db, folder: string, files: set<string>, guids: int -> Guid, writeOk: int -> bool): (r: LoadOutcome)
    requires KeysAreIds(db)
    ensures r.LoadFailed? <==> LoadFails(db, folder, files, writeOk)
    ensures r.Loaded? ==>
      var cs := RefreshedClients(db, folder, files, guids, writeOk);
      && r.db == (if AnyNeedsUpdate(db, folder, files) then db.(clientes := cs) else db)
      && |r.shown| == |db.clientes|
      && (forall c :: c in r.shown <==> c in cs.Values)
      && SortedBy(r.shown, ClientLe)
      && r.files == files + Written(db, folder, files)
  {
    if LoadFails(db, folder, files, writeOk) then LoadFailed
    else
      var cs := RefreshedClients(db, folder, files, guids, writeOk);
      var updated := AnyNeedsUpdate(db, folder, files);
      Loaded(if updated then db.(clientes := cs) else db, Shown(cs), files + Written(db, folder, files))
  }

  /** After a load every stored client has a public code and an image file
      at the recorded path; no code that was already there is replaced. */
  lemma {:induction false} LoadRepairsEveryClient(db: Db, folder: string, files: set<string>, guids: int -> Guid,
                                                  writeOk: int -> bool, k: int)
    requires KeysAreIds(db) && k in db.clientes && db.clientes[k].id > 0
    ensures var r := LoadClients(db, folder, files, guids, writeOk);
      r.Loaded? ==>
        var c := RefreshedClients(db, folder, files, guids, writeOk)[k];
        && c.codigoQR.Some? && !IsBlank(c.codigoQR.value)
        && c.rutaImagenQR == Some(GetQRImagePath(folder, k))
        && GetQRImagePath(folder, k) in r.files
        && (!IsNullOrWhiteSpace(db.clientes[k].codigoQR) ==> c.codigoQR == db.clientes[k].codigoQR)
  {
    var r := LoadClients(db, folder, files, guids, writeOk);
    if r.Loaded? {
      if NeedsImage(db.clientes[k], folder, files) {
        assert GetQRImagePath(folder, k) in Written(db, folder, files);
      }
    }
  }

  /** A load that saves keeps the schema's invariants: only codes and image
      paths change. */
  lemma LoadPreservesValid(db: Db, folder: string, files: set<string>, guids: int -> Guid, writeOk: int -> bool)
    requires Valid(db)
    ensures var r := LoadClients(db, folder, files, guids, writeOk);
      r.Loaded? ==> Valid(r.db) && r.db.(clientes := db.clientes) == db
  {
    var r := LoadClients(db, folder, files, guids, writeOk);
    if r.Loaded? {
      var cs := RefreshedClients(db, folder, files, guids, writeOk);
      SameIdsKeepValid(db, cs);
      assert r.db == db || r.db == db.(clientes := cs);
    }
  }

  /** Loading again after a load saves nothing more: every code is set and
      every image exists, whatever GUIDs or write results come next. */
  lemma {:induction false} LoadIsStable(db: Db, folder: string, files: set<string>, guids: int -> Guid,
                                        writeOk: int -> bool, guids2: int -> Guid, writeOk2: int -> bool)
    requires KeysAreIds(db)
    ensures var r := LoadClients(db, folder, files, guids, writeOk);
      r.Loaded? && r.db != db ==>
        var r2 := LoadClients(r.db, folder, r.files, guids2, writeOk2);
        r2.Loaded? && r2.db == r.db && r2.files == r.files
  {
    var r := LoadClients(db, folder, files, guids, writeOk);
    if r.Loaded? && r.db != db {
      var cs := RefreshedClients(db, folder, files, guids, writeOk);
      assert r.db == db.(clientes := cs);
      forall k | k in cs && cs[k].id > 0
        ensures !IsNullOrWhiteSpace(cs[k].codigoQR) && GetQRImagePath(folder, cs[k].id) in r.files
      {
        LoadRepairsEveryClient(db, folder, files, guids, writeOk, k);
      }
      LoadOfRepairedStore(r.db, folder, r.files, guids2, writeOk2);
    }
  }

  /** A store whose clients all have codes and images loads without
      saving or writing anything. */
  lemma LoadOfRepairedStore(db: Db, folder: string, files: set<string>, guids: int -> Guid, writeOk: int -> bool)
    requires KeysAreIds(db)
    requires forall k :: k in db.clientes && db.clientes[k].id > 0 ==>
      !IsNullOrWhiteSpace(db.clientes[k].codigoQR) && GetQRImagePath(folder, db.clientes[k].id) in files
    ensures var r := LoadClients(db, folder, files, guids, writeOk);
      r.Loaded? && r.db == db && r.files == files
  {
    assert forall k :: k in db.clientes ==> !NeedsUpdate(db.clientes[k], folder, files);
    LoadWithoutUpdates(db, folder, files, guids, writeOk);
    NothingWritten(db, folder, files);
  }

  /** When no client needs an update, a load saves nothing. */
  lemma LoadWithoutUpdates(db: Db, folder: string, files: set<string>, guids: int -> Guid, writeOk: int -> bool)
    requires KeysAreIds(db)
    requires forall k :: k in db.clientes ==> !NeedsUpdate(db.clientes[k], folder, files)
    ensures var r := LoadClients(db, folder, files, guids, writeOk);
      r.Loaded? && r.db == db && r.files == files + Written(db, folder, files)
  {
    assert !LoadFails(db, folder, files, writeOk);
  }

  /** No image is written when no client needs one. */
  lemma NothingWritten(db: Db, folder: string, files: set<string>)
    requires forall k :: k in db.clientes ==> !NeedsUpdate(db.clientes[k], folder, files)
    ensures Written(db, folder, files) == {}
  {
  }

  // ---------------------------------------------------------------------
  // Deleting a client
  // ---------------------------------------------------------------------

  /** How the delete button ended: cancelled, refused because the client
      has sales, told the client no longer exists, or deleted. */
  datatype DeleteOutcome = Cancelled | Refused | Missing | Deleted(db: Db, files: set<string>)

  /** The delete button (`BtnEliminar_Click`): after confirmation, a client
      with sales is kept; otherwise it is removed and its QR image deleted,
      a failure to delete the image being ignored. */
  function DeleteClient(db: Db, files: set<string>, folder: string, id: int, confirmed: bool, deleteOk: bool): (r: DeleteOutcome)
    requires Valid(db)
    ensures r.Cancelled? <==> !confirmed
    ensures r.Refused? <==> confirmed && HasVentas(db, id)
    ensures r.Missing? <==> confirmed && !HasVentas(db, id) && id !in db.clientes
    ensures r.Deleted? ==>
      && r.db.clientes.Keys == db.clientes.Keys - {id}
      && (forall k :: k in r.db.clientes ==> r.db.clientes[k] == db.clientes[k])
      && r.db.(clientes := db.clientes) == db
      && Valid(r.db)
      && r.files == (if deleteOk then files - {GetQRImagePath(folder, id)} else files)
  {
    if !confirmed then Cancelled
    else if HasVentas(db, id) then Refused
    else if id !in db.clientes then Missing
    else
      var db1 := RemoveCliente(db, id).value;
      Deleted(db1, if deleteOk then files - {GetQRImagePath(folder, id)} else files)
  }

  /** Deleting a client never touches another client's image. */
  lemma DeleteKeepsOtherImages(db: Db, files: set<string>, folder: string, id: int, confirmed: bool,
                               deleteOk: bool, other: int)
    requires Valid(db) && other != id
    ensures var r := DeleteClient(db, files, folder, id, confirmed, deleteOk);
      r.Deleted? ==> (GetQRImagePath(folder, other) in r.files <==> GetQRImagePath(folder, other) in files)
  {
    var mine, theirs := GetQRImagePath(folder, id), GetQRImagePath(folder, other);
    ImagePathsDiffer(folder, other, id);
    var r := DeleteClient(db, files, folder, id, confirmed, deleteOk);
    if r.Deleted? {
      assert r.files == files - {mine} || r.files == files;
    }
  }
}
