/** The client form: loading a client into its fields and the save button,
    which validates, creates or edits the client and then gives it a QR
    code and image. */
module ClientForm {
  import opened Wrappers
  import opened Text
  import opened Models
  import opened Store
  import opened QRCode

  /** The form's text fields, as typed. */
  datatype Fields = Fields(nombre: string, apellido: string, dni: string, telefono: string, email: string)

  /** `CargarCliente`: the stored client's fields, or nothing when it is
      gone (the fields then stay empty). */
  function LoadFields(db: Db, id: int): (f: Option<Fields>)
    ensures f.Some? <==> id in db.clientes
    ensures f.Some? ==>
      var c := db.clientes[id];
      f.value == Fields(c.nombre, c.apellido, c.dni, c.telefono, c.email)
  {
    if id in db.clientes then
      var c := db.clientes[id];
      Some(Fields(c.nombre, c.apellido, c.dni, c.telefono, c.email))
    else None
  }

  /** The three fields the form insists on. */
  predicate MissingRequired(f: Fields) {
    IsBlank(f.nombre) || IsBlank(f.apellido) || IsBlank(f.dni)
  }

  /** How a save ended. `Failed` is the error message of the outer catch
      (the edited client is gone, or the DNI is taken), with nothing
      written. */
  datatype SaveOutcome = Refused | Failed | Saved(db: Db, clienteId: int, files: set<string>)

  /** The client the first write stores: the edited client, or a new one
      registered `now`, with the typed fields. */
  function Typed(f: Fields, base: Cliente): Cliente {
    base.(nombre := f.nombre, apellido := f.apellido, dni := f.dni, telefono := f.telefono, email := f.email)
  }

  /** A client as `new Cliente()` leaves it before the fields are set. */
  function NewClient(id: int, now: Instant): Cliente {
    Cliente(id, "", "", "", "", "", now, None, None)
  }

  /** The DNI is free for the client with this id. */
  predicate DniFree(db: Db, id: int, dni: string) {
    forall k :: k in db.clientes && k != id ==> db.clientes[k].dni != dni
  }

  /** The save button (`BtnGuardar_Click`). `clienteId` is the client being
      edited, if any; `newId` is the key the database assigns on create;
      `g` and `imageSaved` are the GUID drawn and whether the QR image was
      written. A failed image only skips the second write. */
  function SaveClient(f: Fields, clienteId: Option<int>, db: Db, now: Instant, newId: int,
                      folder: string, files: set<string>, g: Guid, imageSaved: bool): (r: SaveOutcome)
    requires Valid(db) && forall k :: k in db.clientes ==> k < newId
    ensures r.Refused? <==> MissingRequired(f)
    ensures r.Failed? <==>
      && !MissingRequired(f)
      && ((clienteId.Some? && clienteId.value !in db.clientes) || !DniFree(db, clienteId.GetOr(newId), f.dni))
    ensures r.Saved? ==>
      && r.clienteId == clienteId.GetOr(newId)
      && (clienteId.Some? ==> clienteId.value in db.clientes)
      && r.db.clientes.Keys == db.clientes.Keys + {r.clienteId}
    ensures r.Saved? ==>
      var id := r.clienteId;
      var before := if clienteId.Some? then db.clientes[id] else NewClient(id, now);
      var c := r.db.clientes[id];
      && (forall k :: k in db.clientes && k != id ==> r.db.clientes[k] == db.clientes[k])
      && r.db.(clientes := db.clientes) == db
      && Valid(r.db)
      && LoadFields(r.db, id) == Some(f)
      && c.fechaRegistro == before.fechaRegistro
      && (imageSaved ==>
            && c.codigoQR.Some? && !IsBlank(c.codigoQR.value)
            && (!IsNullOrWhiteSpace(before.codigoQR) ==> c.codigoQR == before.codigoQR)
            && (IsNullOrWhiteSpace(before.codigoQR) ==> c.codigoQR == Some(GeneratePublicCode(g)))
            && c.rutaImagenQR == Some(GetQRImagePath(folder, id))
            && r.files == files + {GetQRImagePath(folder, id)})
      && (!imageSaved ==>
            c.codigoQR == before.codigoQR && c.rutaImagenQR == before.rutaImagenQR && r.files == files)
  {
    if MissingRequired(f) then Refused
    else if clienteId.Some? && clienteId.value !in db.clientes then Failed
    else
      var id := clienteId.GetOr(newId);
      var base := if clienteId.Some? then db.clientes[id] else NewClient(id, now);
      var c := Typed(f, base);
      match PutCliente(db, c)
      case Failure(_) => Failed
      case Success(db1) =>
        match GenerateForClient(folder, id, c.nombre + " " + c.apellido, c.codigoQR, g, imageSaved)
        case None => Saved(db1, id, files)
        case Some(a) =>
          var c2 := c.(codigoQR := Some(a.publicCode), rutaImagenQR := Some(a.imagePath));
          var db2 := PutCliente(db1, c2).value;
          Saved(db2, id, files + {a.imagePath})
  }

  /** Saving the fields a client was loaded with, when the image cannot be
      written, leaves the store as it was. */
  lemma {:induction false} SaveUnchangedIsNoOp(db: Db, id: int, now: Instant, newId: int,
                                               folder: string, files: set<string>, g: Guid)
    requires Valid(db) && forall k :: k in db.clientes ==> k < newId
    requires id in db.clientes
    ensures var f := LoadFields(db, id).value;
      !MissingRequired(f) ==> SaveClient(f, Some(id), db, now, newId, folder, files, g, false) == Saved(db, id, files)
  {
    var f := LoadFields(db, id).value;
    if !MissingRequired(f) {
      var r := SaveClient(f, Some(id), db, now, newId, folder, files, g, false);
      assert DniFree(db, id, f.dni);
      assert r.Saved?;
      assert r.db.clientes[id] == db.clientes[id];
      assert r.db.clientes == db.clientes;
    }
  }
}
