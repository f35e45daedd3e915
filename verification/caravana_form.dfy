/** The caravana form: its fields as loaded from a stored caravana and its
    save button, which validates, trims, parses and writes the caravana. */
module CaravanaForm {
  import opened Wrappers
  import opened Text
  import opened Models
  import opened Store

  /** The form's inputs: eight required text boxes, the availability check
      box (which may be unset) and two optional text boxes (which may be
      null). */
  datatype Fields = Fields(
    serie: string,
    marca: string,
    modelo: string,
    anio: string,
    matricula: string,
    senasa: string,
    tipo: string,
    precio: string,
    disponible: Option<bool>,
    caracteristicas: Option<string>,
    descripcion: Option<string>)

  /** Some required box is null or white space. */
  predicate MissingRequired(f: Fields) {
    || IsBlank(f.serie) || IsBlank(f.marca) || IsBlank(f.modelo) || IsBlank(f.anio)
    || IsBlank(f.matricula) || IsBlank(f.senasa) || IsBlank(f.tipo) || IsBlank(f.precio)
  }

  /** An optional box's text, trimmed; empty when the box has no text. */
  function TrimOptional(s: Option<string>): (r: string)
    ensures s.None? ==> r == []
    ensures s.Some? ==> r == Trim(s.value)
  {
    match s
    case None => []
    case Some(t) => Trim(t)
  }

  /** How a save ended: refused by validation, the format-error message,
      the generic error message (the edited caravana is gone, a number is
      out of range, or a unique key is taken), or saved. Only `Saved`
      writes. */
  datatype SaveOutcome = Refused | FormatError | Failed | Saved(db: Db, caravanaId: int)

  /** The caravana the form builds from its inputs and the two parsed
      numbers; every text is trimmed. */
  function Built(f: Fields, id: int, anio: int, precio: Money): (c: Caravana)
    ensures c.id == id && c.anio == anio && c.precio == precio
    ensures c.serie == Trim(f.serie) && c.marca == Trim(f.marca) && c.modelo == Trim(f.modelo)
    ensures c.matricula == Trim(f.matricula) && c.numeroSenasa == Trim(f.senasa) && c.tipo == Trim(f.tipo)
    ensures c.disponible == f.disponible.GetOr(false)
    ensures c.caracteristicas == TrimOptional(f.caracteristicas) && c.descripcion == TrimOptional(f.descripcion)
  {
    Caravana(id, Trim(f.serie), Trim(f.marca), Trim(f.modelo), anio, Trim(f.matricula), Trim(f.senasa),
             Trim(f.tipo), precio, f.disponible.GetOr(false), TrimOptional(f.caracteristicas),
             TrimOptional(f.descripcion))
  }

  /** The save button (`BtnGuardar_Click`). The assignments run in source
      order, so the year is parsed before the price: a malformed year is a
      format error whatever the price says. `parseDecimal` stands for the
      culture's `decimal.Parse`, in cents; `newId` is the key the database
      assigns on create. */
  function SaveCaravana(f: Fields, caravanaId: Option<int>, db: Db, newId: int,
                        parseDecimal: string -> NumberParse): (r: SaveOutcome)
    requires Valid(db) && forall k :: k in db.caravanas ==> k < newId
    ensures r.Refused? <==> MissingRequired(f)
    ensures r.FormatError? <==>
      && !MissingRequired(f)
      && !(caravanaId.Some? && caravanaId.value !in db.caravanas)
      && (|| ParseInt32(Trim(f.anio)).BadFormat?
          || (ParseInt32(Trim(f.anio)).Parsed? && parseDecimal(Trim(f.precio)).BadFormat?))
    ensures r.Saved? ==>
      && r.caravanaId == caravanaId.GetOr(newId)
      && ParseInt32(Trim(f.anio)).Parsed? && parseDecimal(Trim(f.precio)).Parsed?
      && WritesRow(db, r.db, Built(f, r.caravanaId, ParseInt32(Trim(f.anio)).value, parseDecimal(Trim(f.precio)).value))
    ensures r.Failed? ==>
      || (caravanaId.Some? && caravanaId.value !in db.caravanas)
      || ParseInt32(Trim(f.anio)).Overflow?
      || parseDecimal(Trim(f.precio)).Overflow?
      || (&& ParseInt32(Trim(f.anio)).Parsed? && parseDecimal(Trim(f.precio)).Parsed?
          && PutCaravana(db, Built(f, caravanaId.GetOr(newId), ParseInt32(Trim(f.anio)).value,
                                   parseDecimal(Trim(f.precio)).value)).Failure?)
  {
    if MissingRequired(f) then Refused
    else if caravanaId.Some? && caravanaId.value !in db.caravanas then Failed
    else
      WriteParsed(db, f, caravanaId.GetOr(newId), ParseInt32(Trim(f.anio)), parseDecimal(Trim(f.precio)))
  }

  /** The steps after validation: the year is parsed first, then the
      price, and the caravana they build is written. */
  function WriteParsed(db: Db, f: Fields, id: int, anio: NumberParse, precio: NumberParse): (r: SaveOutcome)
    requires Valid(db)
    ensures !r.Refused?
    ensures r.FormatError? <==> anio.BadFormat? || (anio.Parsed? && precio.BadFormat?)
    ensures r.Saved? ==>
      && anio.Parsed? && precio.Parsed? && r.caravanaId == id
      && WritesRow(db, r.db, Built(f, id, anio.value, precio.value))
    ensures r.Failed? ==>
      || anio.Overflow? || precio.Overflow?
      || (anio.Parsed? && precio.Parsed? && PutCaravana(db, Built(f, id, anio.value, precio.value)).Failure?)
  {
    match anio
    case BadFormat => FormatError
    case Overflow => Failed
    case Parsed(a) =>
      match precio
      case BadFormat => FormatError
      case Overflow => Failed
      case Parsed(p) => Write(db, Built(f, id, a, p))
  }

  /** `db1` is `db` with the caravana `c` written under its Id, every other
      row as it was, and the store rules still holding. */
  predicate WritesRow(db: Db, db1: Db, c: Caravana) {
    && db1.caravanas.Keys == db.caravanas.Keys + {c.id}
    && c.id in db1.caravanas && db1.caravanas[c.id] == c
    && (forall k :: k in db.caravanas && k != c.id ==> db1.caravanas[k] == db.caravanas[k])
    && db1.(caravanas := db.caravanas) == db
    && Valid(db1)
  }

  /** The final `SaveChanges`: the built caravana is written, or a unique
      key is taken and nothing is. */
  function Write(db: Db, c: Caravana): (r: SaveOutcome)
    requires Valid(db)
    ensures r.Saved? <==> PutCaravana(db, c).Success?
    ensures !r.Saved? ==> r.Failed?
    ensures r.Saved? ==> r.caravanaId == c.id && r.db == PutCaravana(db, c).value && WritesRow(db, r.db, c)
  {
    match PutCaravana(db, c)
    case Failure(_) => Failed
    case Success(db1) => Saved(db1, c.id)
  }

  /** The boxes showing a caravana. */
  function FieldsOf(c: Caravana, formatDecimal: Money -> string): Fields {
    Fields(c.serie, c.marca, c.modelo, IntToString(c.anio), c.matricula, c.numeroSenasa, c.tipo,
           formatDecimal(c.precio), Some(c.disponible), Some(c.caracteristicas), Some(c.descripcion))
  }

  /** `CargarCaravana`: a stored caravana's values in the boxes.
      `formatDecimal` stands for the culture's `decimal.ToString()`. */
  function LoadFields(db: Db, id: int, formatDecimal: Money -> string): (f: Option<Fields>)
    ensures f.Some? <==> id in db.caravanas
    ensures f.Some? ==>
      var c := db.caravanas[id];
      && f.value.serie == c.serie && f.value.marca == c.marca && f.value.modelo == c.modelo
      && f.value.anio == IntToString(c.anio) && f.value.precio == formatDecimal(c.precio)
      && f.value.matricula == c.matricula && f.value.senasa == c.numeroSenasa && f.value.tipo == c.tipo
      && f.value.disponible == Some(c.disponible)
      && f.value.caracteristicas == Some(c.caracteristicas) && f.value.descripcion == Some(c.descripcion)
  {
    if id !in db.caravanas then None else Some(FieldsOf(db.caravanas[id], formatDecimal))
  }

  /** Text as the form stores it: non-blank and already trimmed. */
  predicate Stored(s: string) {
    s != [] && !IsWhiteSpace(s[0]) && !IsWhiteSpace(s[|s| - 1])
  }

  /** Text as the form stores an optional box: empty or already trimmed. */
  predicate StoredOptional(s: string) {
    s == [] || Stored(s)
  }

  /** A caravana as the form would have stored it, whose price survives
      formatting and parsing. */
  predicate AsStored(c: Caravana, formatDecimal: Money -> string, parseDecimal: string -> NumberParse) {
    && Stored(c.serie) && Stored(c.marca) && Stored(c.modelo) && Stored(c.matricula)
    && Stored(c.numeroSenasa) && Stored(c.tipo)
    && StoredOptional(c.caracteristicas) && StoredOptional(c.descripcion)
    && Int32Min <= c.anio <= Int32Max
    && Stored(formatDecimal(c.precio)) && parseDecimal(formatDecimal(c.precio)) == Parsed(c.precio)
  }

  /** Loading a stored caravana into the form and saving it unchanged
      writes it back as it was, when its texts are as the form stores
      them, its year is a 32-bit value and the price survives formatting
      and parsing. */
  lemma {:induction false} LoadSaveRoundTrip(db: Db, id: int, newId: int, formatDecimal: Money -> string,
                                             parseDecimal: string -> NumberParse)
    requires Valid(db) && forall k :: k in db.caravanas ==> k < newId
    requires id in db.caravanas && AsStored(db.caravanas[id], formatDecimal, parseDecimal)
    ensures SaveCaravana(LoadFields(db, id, formatDecimal).value, Some(id), db, newId, parseDecimal) == Saved(db, id)
  {
    var c := db.caravanas[id];
    var f := FieldsOf(c, formatDecimal);
    assert LoadFields(db, id, formatDecimal).value == f;
    FieldsRebuild(c, formatDecimal, parseDecimal, f);
    OwnRowPut(db, c);
    SaveStoredRow(db, c, newId, parseDecimal, f);
    var r := Write(db, c);
    SameRows(r.db.caravanas, db.caravanas, id);
  }

  /** Fields that pass validation and parse to a stored caravana `c` save
      it by writing `c` over itself. */
  lemma SaveStoredRow(db: Db, c: Caravana, newId: int, parseDecimal: string -> NumberParse, f: Fields)
    requires Valid(db) && forall k :: k in db.caravanas ==> k < newId
    requires c.id in db.caravanas && !MissingRequired(f)
    requires ParseInt32(Trim(f.anio)) == Parsed(c.anio)
    requires parseDecimal(Trim(f.precio)) == Parsed(c.precio)
    requires Built(f, c.id, c.anio, c.precio) == c
    ensures SaveCaravana(f, Some(c.id), db, newId, parseDecimal) == Write(db, c)
  {
  }

  /** Writing a stored caravana over itself cannot clash with another row. */
  lemma OwnRowPut(db: Db, c: Caravana)
    requires Valid(db) && c.id in db.caravanas && db.caravanas[c.id] == c
    ensures PutCaravana(db, c).Success?
  {
  }

  /** The boxes showing a stored caravana pass validation and parse back to
      it. */
  lemma FieldsRebuild(c: Caravana, formatDecimal: Money -> string, parseDecimal: string -> NumberParse, f: Fields)
    requires AsStored(c, formatDecimal, parseDecimal) && f == FieldsOf(c, formatDecimal)
    ensures !MissingRequired(f)
    ensures ParseInt32(Trim(f.anio)) == Parsed(c.anio)
    ensures parseDecimal(Trim(f.precio)) == Parsed(c.precio)
    ensures Built(f, c.id, c.anio, c.precio) == c
  {
    StoredTrim(c.serie);
    StoredTrim(c.marca);
    StoredTrim(c.modelo);
    StoredTrim(c.matricula);
    StoredTrim(c.numeroSenasa);
    StoredTrim(c.tipo);
    StoredTrim(formatDecimal(c.precio));
    if c.caracteristicas != [] {
      StoredTrim(c.caracteristicas);
    }
    if c.descripcion != [] {
      StoredTrim(c.descripcion);
    }
    YearText(c.anio);
  }

  /** Rewriting one row with its own value leaves the table as it was. */
  lemma SameRows(m1: map<int, Caravana>, m2: map<int, Caravana>, id: int)
    requires id in m2 && m1.Keys == m2.Keys + {id} && m1[id] == m2[id]
    requires forall k :: k in m2 && k != id ==> m1[k] == m2[k]
    ensures m1 == m2
  {
  }

  lemma StoredTrim(s: string)
    requires Stored(s)
    ensures Trim(s) == s && !IsBlank(s)
  {
    TrimUnchanged(s);
  }

  /** The year as the form shows it parses back to itself. */
  lemma YearText(n: int)
    requires Int32Min <= n <= Int32Max
    ensures Trim(IntToString(n)) == IntToString(n) && !IsBlank(IntToString(n))
    ensures ParseInt32(IntToString(n)) == Parsed(n)
  {
    var a := IntToString(n);
    if n >= 0 {
      assert IsDigit(a[0]);
    }
    StoredTrim(a);
    ParseIntToString(n);
  }
}
