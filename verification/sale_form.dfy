/** The sale window: two working lists of caravanas ("available" and
    "selected") that the add and remove buttons move units between, the
    displayed total, and the save that reconciles the selection with the
    sale's stored line items and the caravanas' availability flags. */
module SaleForm {
  import opened Wrappers
  import opened Models
  import opened Store
  import opened Ordering

  /** The window's state. `importe` is the total text box, `None` while it
      has never been filled. */
  datatype Form = Form(
    ventaId: Option<int>,
    clienteId: Option<int>,
    fecha: Option<Instant>,
    disponibles: seq<Caravana>,
    seleccionadas: seq<Caravana>,
    importe: Option<Money>)

  // ---------------------------------------------------------------------
  // Lists of caravanas
  // ---------------------------------------------------------------------

  function IdSet(cs: seq<Caravana>): set<int> {
    set c | c in cs :: c.id
  }

  predicate NoDupIds(cs: seq<Caravana>) {
    forall i, j :: 0 <= i < j < |cs| ==> cs[i].id != cs[j].id
  }

  /** The sum of the units' prices. */
  function Total(cs: seq<Caravana>): Money {
    if cs == [] then 0 else Total(cs[..|cs| - 1]) + cs[|cs| - 1].precio
  }

  /** The same list, in order, without the units carrying that Id. */
  function WithoutId(cs: seq<Caravana>, id: int): (r: seq<Caravana>)
    ensures IdSet(r) == IdSet(cs) - {id}
    ensures forall c :: c in r <==> c in cs && c.id != id
    ensures NoDupIds(cs) ==> NoDupIds(r)
  {
    if cs == [] then []
    else
      var rest := WithoutId(cs[1..], id);
      assert cs == [cs[0]] + cs[1..];
      NoDupTail(cs);
      ConsNewId(cs[0], cs[1..]);
      MinusCons(cs[0].id, IdSet(cs[1..]), id);
      if cs[0].id == id then rest
      else
        ConsNewId(cs[0], rest);
        [cs[0]] + rest
  }

  /** Removing an element from a set with one more element. */
  lemma MinusCons(x: int, t: set<int>, id: int)
    ensures ({x} + t) - {id} == if x == id then t - {id} else {x} + (t - {id})
  {
  }

  /** A list without duplicate Ids is its head followed by a tail without
      that Id or duplicates. */
  lemma NoDupTail(cs: seq<Caravana>)
    requires cs != []
    ensures NoDupIds(cs) ==> NoDupIds(cs[1..]) && cs[0].id !in IdSet(cs[1..])
  {
    if NoDupIds(cs) {
      forall c | c in cs[1..] ensures c.id != cs[0].id {
        var j :| 0 <= j < |cs[1..]| && cs[1..][j] == c;
        assert cs[j + 1] == c;
      }
    }
  }

  /** Putting a unit with a new Id in front of a list without duplicates. */
  lemma ConsNewId(c: Caravana, rest: seq<Caravana>)
    ensures IdSet([c] + rest) == {c.id} + IdSet(rest)
    ensures NoDupIds(rest) && c.id !in IdSet(rest) ==> NoDupIds([c] + rest)
  {
    var r := [c] + rest;
    assert forall x :: x in r <==> x == c || x in rest;
    if NoDupIds(rest) && c.id !in IdSet(rest) {
      forall i, j | 0 <= i < j < |r| ensures r[i].id != r[j].id {
        assert r[j] == rest[j - 1] && rest[j - 1] in rest;
        if i > 0 {
          assert r[i] == rest[i - 1];
        }
      }
    }
  }

  /** The Ids of a list, in order. */
  function Ids(cs: seq<Caravana>): (ids: seq<int>)
    ensures |ids| == |cs|
    ensures forall i :: 0 <= i < |cs| ==> ids[i] == cs[i].id
    ensures forall id :: id in ids <==> id in IdSet(cs)
  {
    if cs == [] then [] else [cs[0].id] + Ids(cs[1..])
  }

  /** The set of a list's Ids, read off the list or off its Ids. */
  lemma IdsAsSet(cs: seq<Caravana>)
    ensures (set id | id in Ids(cs)) == IdSet(cs)
  {
    var ids := Ids(cs);
    forall id | id in IdSet(cs) ensures id in ids {
    }
  }

  lemma NoDupIdsDistinct(cs: seq<Caravana>)
    requires NoDupIds(cs)
    ensures forall i, j :: 0 <= i < j < |Ids(cs)| ==> Ids(cs)[i] != Ids(cs)[j]
  {
  }

  /** What the window keeps true of its lists: no Id is listed twice in
      either list, and a filled-in total is the sum of the selected prices. */
  predicate FormInvariant(f: Form) {
    && NoDupIds(f.disponibles)
    && NoDupIds(f.seleccionadas)
    && (f.importe.Some? ==> f.importe.value == Total(f.seleccionadas))
  }

  // ---------------------------------------------------------------------
  // Adding and removing units
  // ---------------------------------------------------------------------

  /** One unit of the add button's loop: a unit whose Id is already
      selected is skipped; otherwise it is appended to the selection and
      every unit with its Id leaves the available list. */
  function AddOne(f: Form, car: Caravana): (g: Form)
    ensures car.id in IdSet(f.seleccionadas) ==> g == f
    ensures car.id !in IdSet(f.seleccionadas) ==> g.seleccionadas == f.seleccionadas + [car]
    ensures IdSet(g.seleccionadas) == IdSet(f.seleccionadas) + {car.id}
    ensures IdSet(g.disponibles) == IdSet(f.disponibles) - ({car.id} - IdSet(f.seleccionadas))
    ensures forall c :: c in g.disponibles ==> c in f.disponibles
    ensures NoDupIds(f.seleccionadas) ==> NoDupIds(g.seleccionadas)
    ensures NoDupIds(f.disponibles) ==> NoDupIds(g.disponibles)
    ensures g.(seleccionadas := f.seleccionadas, disponibles := f.disponibles) == f
  {
    if car.id in IdSet(f.seleccionadas) then f
    else
      assert NoDupIds(f.seleccionadas) ==> NoDupIds(f.seleccionadas + [car]) by {
        assert forall i :: 0 <= i < |f.seleccionadas| ==> f.seleccionadas[i] in f.seleccionadas;
      }
      f.(seleccionadas := f.seleccionadas + [car],
         disponibles := WithoutId(f.disponibles, car.id))
  }

  function AddAll(f: Form, picked: seq<Caravana>): (g: Form)
    ensures |f.seleccionadas| <= |g.seleccionadas| && g.seleccionadas[..|f.seleccionadas|] == f.seleccionadas
    ensures forall c :: c in g.seleccionadas ==> c in f.seleccionadas || c in picked
    ensures g.(seleccionadas := f.seleccionadas, disponibles := f.disponibles) == f
    decreases |picked|
  {
    if picked == [] then f
    else
      var h := AddOne(f, picked[0]);
      var g := AddAll(h, picked[1..]);
      assert h.seleccionadas[..|f.seleccionadas|] == f.seleccionadas;
      assert g.seleccionadas[..|f.seleccionadas|] == g.seleccionadas[..|h.seleccionadas|][..|f.seleccionadas|];
      assert forall c :: c in h.seleccionadas ==> c in f.seleccionadas || c == picked[0];
      g
  }

  lemma {:induction false} AddAllIds(f: Form, picked: seq<Caravana>)
    ensures IdSet(AddAll(f, picked).seleccionadas) == IdSet(f.seleccionadas) + IdSet(picked)
    ensures IdSet(AddAll(f, picked).disponibles) == IdSet(f.disponibles) - (IdSet(picked) - IdSet(f.seleccionadas))
    decreases |picked|
  {
    if picked != [] {
      var x, tail := picked[0].id, picked[1..];
      var h := AddOne(f, picked[0]);
      var g := AddAll(h, tail);
      assert AddAll(f, picked) == g;
      assert IdSet(picked) == {x} + IdSet(tail) by {
        assert picked == [picked[0]] + tail;
      }
      assert IdSet(g.seleccionadas) == IdSet(h.seleccionadas) + IdSet(tail)
          && IdSet(g.disponibles) == IdSet(h.disponibles) - (IdSet(tail) - IdSet(h.seleccionadas)) by {
        AddAllIds(h, tail);
      }
      AddStep(IdSet(f.disponibles), IdSet(f.seleccionadas), IdSet(h.disponibles), IdSet(h.seleccionadas),
              IdSet(g.disponibles), IdSet(g.seleccionadas), x, IdSet(tail), IdSet(picked));
    }
  }

  /** The set algebra of one step of the add loop: adding `x` and then the
      rest is adding all of them at once. */
  lemma AddStep(a0: set<int>, s0: set<int>, a1: set<int>, s1: set<int>, a2: set<int>, s2: set<int>,
                x: int, rest: set<int>, all: set<int>)
    requires s1 == s0 + {x} && a1 == a0 - ({x} - s0)
    requires s2 == s1 + rest && a2 == a1 - (rest - s1)
    requires all == {x} + rest
    ensures s2 == s0 + all && a2 == a0 - (all - s0)
  {
  }

  lemma {:induction false} AddAllNoDup(f: Form, picked: seq<Caravana>)
    ensures NoDupIds(f.seleccionadas) ==> NoDupIds(AddAll(f, picked).seleccionadas)
    ensures NoDupIds(f.disponibles) ==> NoDupIds(AddAll(f, picked).disponibles)
    decreases |picked|
  {
    if picked != [] {
      AddAllNoDup(AddOne(f, picked[0]), picked[1..]);
    }
  }

  /** The add button (`BtnAgregarCaravanas_Click`): every picked unit not
      yet selected joins the selection and leaves the available list, and
      the total is recomputed. */
  function AddCaravanas(f: Form, picked: seq<Caravana>): (g: Form)
    ensures IdSet(g.seleccionadas) == IdSet(f.seleccionadas) + IdSet(picked)
    ensures IdSet(g.disponibles) == IdSet(f.disponibles) - (IdSet(picked) - IdSet(f.seleccionadas))
    ensures |f.seleccionadas| <= |g.seleccionadas| && g.seleccionadas[..|f.seleccionadas|] == f.seleccionadas
    ensures forall c :: c in g.seleccionadas ==> c in f.seleccionadas || c in picked
    ensures g.importe == Some(Total(g.seleccionadas))
    ensures FormInvariant(f) ==> FormInvariant(g)
    ensures g.ventaId == f.ventaId && g.clienteId == f.clienteId && g.fecha == f.fecha
  {
    AddAllIds(f, picked);
    AddAllNoDup(f, picked);
    var h := AddAll(f, picked);
    h.(importe := Some(Total(h.seleccionadas)))
  }

  /** One unit of the remove button's loop: every unit with its Id leaves
      the selection, and the unit joins the available list when its own
      availability flag is set and its Id is not listed there yet. */
  function RemoveOne(f: Form, car: Caravana): (g: Form)
    ensures IdSet(g.seleccionadas) == IdSet(f.seleccionadas) - {car.id}
    ensures car.disponible && car.id !in IdSet(f.disponibles) ==> g.disponibles == f.disponibles + [car]
    ensures !car.disponible || car.id in IdSet(f.disponibles) ==> g.disponibles == f.disponibles
    ensures IdSet(g.disponibles) == IdSet(f.disponibles) + (if car.disponible then {car.id} else {})
    ensures NoDupIds(f.seleccionadas) ==> NoDupIds(g.seleccionadas)
    ensures NoDupIds(f.disponibles) ==> NoDupIds(g.disponibles)
  {
    var sel := WithoutId(f.seleccionadas, car.id);
    if car.id !in IdSet(f.disponibles) && car.disponible then
      AppendNewId(f.disponibles, car);
      f.(seleccionadas := sel, disponibles := f.disponibles + [car])
    else
      f.(seleccionadas := sel)
  }

  /** The Ids of the picked units whose flag says available. */
  function AvailableIds(cs: seq<Caravana>): set<int> {
    set c | c in cs && c.disponible :: c.id
  }

  function RemoveAll(f: Form, picked: seq<Caravana>): (g: Form)
    ensures IdSet(g.seleccionadas) == IdSet(f.seleccionadas) - IdSet(picked)
    ensures IdSet(g.disponibles) == IdSet(f.disponibles) + AvailableIds(picked)
    ensures forall c :: c in g.seleccionadas ==> c in f.seleccionadas
    ensures forall c :: c in g.disponibles ==> c in f.disponibles || c in picked
    ensures NoDupIds(f.seleccionadas) ==> NoDupIds(g.seleccionadas)
    ensures NoDupIds(f.disponibles) ==> NoDupIds(g.disponibles)
    ensures g.(seleccionadas := f.seleccionadas, disponibles := f.disponibles) == f
    decreases |picked|
  {
    if picked == [] then f
    else
      var h := RemoveOne(f, picked[0]);
      PickedCons(picked);
      var x := picked[0].id;
      RemoveStep(IdSet(f.seleccionadas), IdSet(f.disponibles), x, if picked[0].disponible then {x} else {},
                 IdSet(picked[1..]), AvailableIds(picked[1..]));
      RemoveAll(h, picked[1..])
  }

  /** Appending a unit whose Id is not listed yet. */
  lemma AppendNewId(cs: seq<Caravana>, car: Caravana)
    requires car.id !in IdSet(cs)
    ensures IdSet(cs + [car]) == IdSet(cs) + {car.id}
    ensures NoDupIds(cs) ==> NoDupIds(cs + [car])
  {
    var r := cs + [car];
    if NoDupIds(cs) {
      forall i, j | 0 <= i < j < |r| ensures r[i].id != r[j].id {
        if j == |cs| {
          assert r[i] == cs[i] && cs[i] in cs;
        } else {
          assert r[i] == cs[i] && r[j] == cs[j];
        }
      }
    }
  }

  /** The Ids of a non-empty pick, split into its first unit and the
      rest. */
  lemma PickedCons(picked: seq<Caravana>)
    requires picked != []
    ensures IdSet(picked) == {picked[0].id} + IdSet(picked[1..])
    ensures AvailableIds(picked) == (if picked[0].disponible then {picked[0].id} else {}) + AvailableIds(picked[1..])
  {
    assert picked == [picked[0]] + picked[1..];
  }

  /** The set algebra of one step of the remove loop. */
  lemma RemoveStep(sel: set<int>, avail: set<int>, x: int, back: set<int>, rest: set<int>, restBack: set<int>)
    ensures sel - {x} - rest == sel - ({x} + rest)
    ensures avail + back + restBack == avail + (back + restBack)
  {
  }

  /** The remove button (`BtnQuitarCaravanas_Click`): the picked units leave
      the selection; a picked unit returns to the available list only when
      its own flag says available; the total is recomputed. */
  function RemoveCaravanas(f: Form, picked: seq<Caravana>): (g: Form)
    ensures IdSet(g.seleccionadas) == IdSet(f.seleccionadas) - IdSet(picked)
    ensures IdSet(g.disponibles) == IdSet(f.disponibles) + AvailableIds(picked)
    ensures forall c :: c in g.seleccionadas ==> c in f.seleccionadas
    ensures g.importe == Some(Total(g.seleccionadas))
    ensures FormInvariant(f) ==> FormInvariant(g)
    ensures g.ventaId == f.ventaId && g.clienteId == f.clienteId && g.fecha == f.fecha
  {
    var h := RemoveAll(f, picked);
    h.(importe := Some(Total(h.seleccionadas)))
  }

  /** Removing a unit that was loaded as unavailable does not put it back on
      the available list: after remove, add and remove again, a caravana of
      the sale being edited is listed nowhere. */
  lemma SoldUnitVanishesAfterReAdd(x: Caravana, cliente: int, fecha: Instant)
    requires !x.disponible
    ensures var f0 := Form(Some(1), Some(cliente), Some(fecha), [x], [x], Some(x.precio));
            var f1 := RemoveCaravanas(f0, [x]);
            var f2 := AddCaravanas(f1, [x]);
            var f3 := RemoveCaravanas(f2, [x]);
            && IdSet(f1.disponibles) == {x.id} && IdSet(f1.seleccionadas) == {}
            && IdSet(f2.disponibles) == {} && IdSet(f2.seleccionadas) == {x.id}
            && IdSet(f3.disponibles) == {} && IdSet(f3.seleccionadas) == {}
  {
    assert IdSet([x]) == {x.id};
    assert AvailableIds([x]) == {};
  }

  // ---------------------------------------------------------------------
  // Opening the window
  // ---------------------------------------------------------------------

  /** The rows at the given keys whose flag says available, in key order. */
  function AvailableAt(cs: map<int, Caravana>, keys: seq<int>): (r: seq<Caravana>)
    requires forall k :: k in keys ==> k in cs
    ensures forall c :: c in r <==> exists k :: k in keys && cs[k] == c && c.disponible
    ensures forall c :: c in r ==> c.disponible
  {
    if keys == [] then []
    else
      var rest := AvailableAt(cs, keys[1..]);
      assert forall k :: k in keys <==> k == keys[0] || k in keys[1..];
      (if cs[keys[0]].disponible then [cs[keys[0]]] else []) + rest
  }

  /** The caravanas referenced by the given line items of one sale, in key
      order. */
  function HeldAt(db: Db, keys: seq<int>, ventaId: int): (r: seq<Caravana>)
    requires forall k :: k in keys ==> k in db.items && db.items[k].caravanaId in db.caravanas
    ensures forall c :: c in r <==>
      exists k :: k in keys && db.items[k].ventaId == ventaId && db.caravanas[db.items[k].caravanaId] == c
  {
    if keys == [] then []
    else
      var rest := HeldAt(db, keys[1..], ventaId);
      var k := keys[0];
      assert forall j :: j in keys <==> j == k || j in keys[1..];
      (if db.items[k].ventaId == ventaId then [db.caravanas[db.items[k].caravanaId]] else []) + rest
  }

  /** The loop that lists the sale's own caravanas as available too: each
      unit whose Id is not listed yet is appended. */
  function AppendMissing(cs: seq<Caravana>, extra: seq<Caravana>): (r: seq<Caravana>)
    ensures IdSet(r) == IdSet(cs) + IdSet(extra)
    ensures forall c :: c in r ==> c in cs || c in extra
    ensures NoDupIds(cs) ==> NoDupIds(r)
    decreases |extra|
  {
    if extra == [] then cs
    else
      assert extra == [extra[0]] + extra[1..];
      assert IdSet(extra) == {extra[0].id} + IdSet(extra[1..]);
      var next := if extra[0].id in IdSet(cs) then cs else cs + [extra[0]];
      assert IdSet(next) == IdSet(cs) + {extra[0].id};
      AppendMissing(next, extra[1..])
  }

  /** Caravanas in the store with their flag set. */
  function AvailableIdsIn(db: Db): set<int> {
    set k | k in db.caravanas && db.caravanas[k].disponible
  }

  /** The window's constructor: `CargarCaravanas`, then `CargarVenta` when
      editing, or today's date when creating. An edited sale's total is
      recomputed from its caravanas' current prices; the stored `Importe`
      is not read. */
  function Open(db: Db, ventaId: Option<int>, now: Instant): (f: Form)
    requires Valid(db)
    ensures f.ventaId == ventaId
    ensures ventaId.None? ==>
      && IdSet(f.disponibles) == AvailableIdsIn(db)
      && f.seleccionadas == [] && f.importe == None
      && f.clienteId == None && f.fecha == Some(now)
    ensures ventaId.Some? ==>
      && IdSet(f.disponibles) == AvailableIdsIn(db) + HeldBy(db, ventaId.value)
      && IdSet(f.seleccionadas) == HeldBy(db, ventaId.value)
      && (forall c :: c in f.seleccionadas ==> c.id in db.caravanas && db.caravanas[c.id] == c)
    ensures forall c :: c in f.disponibles ==> c.id in db.caravanas && db.caravanas[c.id] == c
    ensures ventaId.Some? && ventaId.value in db.ventas ==>
      && f.clienteId == Some(db.ventas[ventaId.value].clienteId)
      && f.fecha == Some(db.ventas[ventaId.value].fecha)
      && f.importe == Some(Total(f.seleccionadas))
    ensures NoDupIds(f.disponibles)
    ensures NoDuplicateItems(db) ==> FormInvariant(f)
  {
    var keys := SortedKeys(db.caravanas.Keys);
    var available := AvailableAt(db.caravanas, keys);
    AvailableNoDup(db, keys);
    AvailableIdsAt(db, keys);
    if ventaId.None? then
      Form(None, None, Some(now), available, [], None)
    else
      var v := ventaId.value;
      var itemKeys := SortedKeys(db.items.Keys);
      var held := HeldAt(db, itemKeys, v);
      HeldIds(db, itemKeys, v);
      var listed := AppendMissing(available, held);
      HeldNoDup(db, itemKeys, v);
      if v in db.ventas then
        Form(ventaId, Some(db.ventas[v].clienteId), Some(db.ventas[v].fecha), listed, held, Some(Total(held)))
      else
        Form(ventaId, None, None, listed, held, None)
  }

  lemma {:induction false} AvailableNoDup(db: Db, keys: seq<int>)
    requires Valid(db)
    requires forall k :: k in keys ==> k in db.caravanas
    requires forall i, j :: 0 <= i < j < |keys| ==> keys[i] != keys[j]
    ensures NoDupIds(AvailableAt(db.caravanas, keys))
    decreases |keys|
  {
    if keys != [] {
      AvailableNoDup(db, keys[1..]);
      var rest := AvailableAt(db.caravanas, keys[1..]);
      assert keys[0] !in keys[1..];
      assert forall c :: c in rest ==> c.id != keys[0];
      ConsNewId(db.caravanas[keys[0]], rest);
    }
  }

  lemma AvailableIdsAt(db: Db, keys: seq<int>)
    requires Valid(db)
    requires forall k :: k in keys ==> k in db.caravanas
    requires forall k :: k in db.caravanas ==> k in keys
    ensures IdSet(AvailableAt(db.caravanas, keys)) == AvailableIdsIn(db)
  {
    var r := AvailableAt(db.caravanas, keys);
    forall id | id in AvailableIdsIn(db) ensures id in IdSet(r) {
      assert db.caravanas[id] in r;
    }
  }

  lemma HeldIds(db: Db, keys: seq<int>, ventaId: int)
    requires Valid(db)
    requires forall k :: k in keys ==> k in db.items
    requires forall k :: k in db.items ==> k in keys
    ensures IdSet(HeldAt(db, keys, ventaId)) == HeldBy(db, ventaId)
  {
    var r := HeldAt(db, keys, ventaId);
    forall id | id in HeldBy(db, ventaId) ensures id in IdSet(r) {
      var k :| IsItemOf(db, k, ventaId) && db.items[k].caravanaId == id;
      assert db.caravanas[id] in r;
    }
  }

  lemma HeldNoDup(db: Db, keys: seq<int>, ventaId: int)
    requires Valid(db)
    requires forall k :: k in keys ==> k in db.items
    requires forall i, j :: 0 <= i < j < |keys| ==> keys[i] != keys[j]
    ensures NoDuplicateItems(db) ==> NoDupIds(HeldAt(db, keys, ventaId))
    decreases |keys|
  {
    if keys != [] && NoDuplicateItems(db) {
      HeldNoDup(db, keys[1..], ventaId);
      var k := keys[0];
      var rest := HeldAt(db, keys[1..], ventaId);
      if db.items[k].ventaId == ventaId {
        forall c | c in rest ensures c.id != db.items[k].caravanaId {
          var k2 :| k2 in keys[1..] && db.items[k2].ventaId == ventaId && db.caravanas[db.items[k2].caravanaId] == c;
          assert k2 != k;
        }
        assert forall i :: 0 <= i < |rest| ==> rest[i] in rest;
      }
    }
  }

  // ---------------------------------------------------------------------
  // Saving
  // ---------------------------------------------------------------------

  predicate Distinct(s: seq<int>) {
    forall i, j :: 0 <= i < j < |s| ==> s[i] != s[j]
  }

  /** The selected Ids the sale does not hold yet, in selection order. */
  function Fresh(ids: seq<int>, held: set<int>): (r: seq<int>)
    ensures forall id :: id in r <==> id in ids && id !in held
    ensures Distinct(ids) ==> Distinct(r)
  {
    if ids == [] then []
    else
      var rest := Fresh(ids[1..], held);
      assert forall id :: id in ids <==> id == ids[0] || id in ids[1..];
      assert Distinct(ids) ==> ids[0] !in ids[1..];
      if ids[0] in held then rest else [ids[0]] + rest
  }

  /** The sale's line items whose caravana is no longer selected. */
  function RemovedKeys(db: Db, ventaId: int, sel: set<int>): (ks: set<int>)
    ensures forall k :: k in ks <==> IsItemOf(db, k, ventaId) && db.items[k].caravanaId !in sel
  {
    set k | k in db.items && db.items[k].ventaId == ventaId && db.items[k].caravanaId !in sel
  }

  /** The caravanas the removal loop marks available again: dropped from
      this sale and held by no other. */
  function Released(db: Db, ventaId: int, sel: set<int>): (ids: set<int>)
    ensures forall c :: c in ids <==> c in HeldBy(db, ventaId) && c !in sel && !UsedByOtherVenta(db, c, ventaId)
  {
    set k | k in RemovedKeys(db, ventaId, sel) && !UsedByOtherVenta(db, db.items[k].caravanaId, ventaId)
      :: db.items[k].caravanaId
  }

  /** The line items the add loop inserts, numbered from `next` in the
      order of `ids`, each with the caravana's stored price. */
  function NewItems(ventaId: int, ids: seq<int>, next: int, cs: map<int, Caravana>): (m: map<int, VentaCaravana>)
    requires forall j :: 0 <= j < |ids| ==> ids[j] in cs
    ensures forall k :: k in m <==> next <= k < next + |ids|
    ensures forall j :: 0 <= j < |ids| ==>
      m[next + j] == VentaCaravana(next + j, ventaId, ids[j], cs[ids[j]].precio)
    decreases |ids|
  {
    if ids == [] then map[]
    else
      var n := |ids| - 1;
      NewItems(ventaId, ids[..n], next, cs)[next + n := VentaCaravana(next + n, ventaId, ids[n], cs[ids[n]].precio)]
  }

  /** A caravana's availability after the save: reserved units become
      unavailable, released ones available, the rest keep their flag. */
  function Flagged(c: Caravana, reserved: set<int>, released: set<int>): (d: Caravana)
    ensures d == c.(disponible := d.disponible)
    ensures c.id in reserved ==> !d.disponible
    ensures c.id !in reserved && c.id in released ==> d.disponible
    ensures c.id !in reserved && c.id !in released ==> d.disponible == c.disponible
  {
    if c.id in reserved then c.(disponible := false)
    else if c.id in released then c.(disponible := true)
    else c
  }

  /** The caravanas newly selected for the sale. */
  function Reserved(db: Db, ventaId: int, sel: seq<int>): (ids: set<int>)
    ensures forall id :: id in ids <==> id in sel && id !in HeldBy(db, ventaId)
  {
    set id | id in Fresh(sel, HeldBy(db, ventaId))
  }

  /** Every newly selected caravana exists, so the add loop's `First`
      succeeds. */
  predicate CanReserve(db: Db, ventaId: int, sel: seq<int>) {
    forall id :: id in sel && id !in HeldBy(db, ventaId) ==> id in db.caravanas
  }

  /** The line items left once the dropped ones are removed. */
  function KeptItems(db: Db, ventaId: int, sel: set<int>): (m: map<int, VentaCaravana>)
    ensures forall k :: k in m <==> k in db.items && (db.items[k].ventaId != ventaId || db.items[k].caravanaId in sel)
    ensures forall k :: k in m ==> m[k] == db.items[k]
  {
    map k | k in db.items && k !in RemovedKeys(db, ventaId, sel) :: db.items[k]
  }

  /** Every newly selected caravana exists, given that every selected one
      the sale does not hold does. */
  lemma FreshExist(db: Db, held: set<int>, sel: seq<int>, nuevos: seq<int>)
    requires forall id :: id in sel && id !in held ==> id in db.caravanas
    requires nuevos == Fresh(sel, held)
    ensures forall j :: 0 <= j < |nuevos| ==> nuevos[j] in db.caravanas
  {
    forall j | 0 <= j < |nuevos| ensures nuevos[j] in db.caravanas {
      var id := nuevos[j];
      assert id in nuevos;
      assert id in sel && id !in held;
    }
  }

  /** The line items inserted for newly selected caravanas. */
  function AddedItems(db: Db, ventaId: int, sel: seq<int>, next: int): (m: map<int, VentaCaravana>)
    requires CanReserve(db, ventaId, sel)
    ensures forall k :: k in m ==> next <= k
    ensures forall k :: k in m ==>
      && m[k].id == k
      && m[k].ventaId == ventaId
      && m[k].caravanaId in sel
      && m[k].caravanaId !in HeldBy(db, ventaId)
      && m[k].caravanaId in db.caravanas
      && m[k].importe == db.caravanas[m[k].caravanaId].precio
    ensures forall id :: id in sel && id !in HeldBy(db, ventaId) ==>
      exists k :: k in m && m[k].caravanaId == id
    ensures Distinct(sel) ==>
      forall a, b :: a in m && b in m && a != b ==> m[a].caravanaId != m[b].caravanaId
  {
    var nuevos := Fresh(sel, HeldBy(db, ventaId));
    FreshExist(db, HeldBy(db, ventaId), sel, nuevos);
    var m := NewItems(ventaId, nuevos, next, db.caravanas);
    NewItemsFacts(ventaId, nuevos, next, db.caravanas);
    m
  }

  /** Each inserted line item carries its own key, the sale, one of the
      ids and that caravana's price; every id gets an item, and distinct
      ids get items for distinct caravanas. */
  lemma NewItemsFacts(ventaId: int, ids: seq<int>, next: int, cs: map<int, Caravana>)
    requires forall j :: 0 <= j < |ids| ==> ids[j] in cs
    ensures var m := NewItems(ventaId, ids, next, cs);
      && (forall k :: k in m ==>
            && m[k].id == k && m[k].ventaId == ventaId
            && m[k].caravanaId in ids && m[k].caravanaId in cs
            && m[k].importe == cs[m[k].caravanaId].precio)
      && (forall id :: id in ids ==> exists k :: k in m && m[k].caravanaId == id)
      && (Distinct(ids) ==> forall a, b :: a in m && b in m && a != b ==> m[a].caravanaId != m[b].caravanaId)
  {
    var m := NewItems(ventaId, ids, next, cs);
    forall k | k in m
      ensures m[k].id == k && m[k].ventaId == ventaId
      ensures m[k].caravanaId in ids && m[k].caravanaId in cs
      ensures m[k].importe == cs[m[k].caravanaId].precio
    {
      assert m[next + (k - next)] == VentaCaravana(k, ventaId, ids[k - next], cs[ids[k - next]].precio);
      assert ids[k - next] in ids;
    }
    forall id | id in ids ensures exists k :: k in m && m[k].caravanaId == id {
      var j :| 0 <= j < |ids| && ids[j] == id;
      assert m[next + j].caravanaId == id;
    }
    if Distinct(ids) {
      forall a, b | a in m && b in m && a != b ensures m[a].caravanaId != m[b].caravanaId {
        assert m[next + (a - next)].caravanaId == ids[a - next];
        assert m[next + (b - next)].caravanaId == ids[b - next];
      }
    }
  }

  /** The second half of the save, run once the header is committed:
      drop the items of unselected caravanas, release those no other sale
      holds, add items for newly selected ones and reserve them. */
  function Reconcile(db: Db, ventaId: int, sel: seq<int>, next: int): (r: Db)
    requires CanReserve(db, ventaId, sel)
    ensures r.clientes == db.clientes && r.ventas == db.ventas && r.autorizaciones == db.autorizaciones
  {
    var selSet := set id | id in sel;
    var reserved := Reserved(db, ventaId, sel);
    var released := Released(db, ventaId, selSet);
    db.(
      items := KeptItems(db, ventaId, selSet) + AddedItems(db, ventaId, sel, next),
      caravanas := map c | c in db.caravanas :: Flagged(db.caravanas[c], reserved, released))
  }

  /** The conditions under which `Reconcile` runs inside the save: the
      sale's header exists and `next` is past every line item's key. */
  predicate ReconcileReady(db: Db, ventaId: int, sel: seq<int>, next: int) {
    && Valid(db)
    && ventaId in db.ventas
    && (forall k :: k in db.items ==> k < next)
    && CanReserve(db, ventaId, sel)
  }

  /** Line items after reconciling: other sales' items and the sale's
      still-selected items are untouched, items of dropped caravanas are
      gone, and every new item belongs to the sale, refers to a newly
      selected caravana and copies its stored price. */
  lemma ReconcileItems(db: Db, ventaId: int, sel: seq<int>, next: int)
    requires ReconcileReady(db, ventaId, sel, next)
    ensures var r := Reconcile(db, ventaId, sel, next);
      && (forall k :: k in db.items && db.items[k].ventaId != ventaId ==> k in r.items && r.items[k] == db.items[k])
      && (forall k :: IsItemOf(db, k, ventaId) ==> (k in r.items <==> db.items[k].caravanaId in sel))
      && (forall k :: k in r.items && k in db.items ==> r.items[k] == db.items[k])
      && (forall k :: k in r.items && k !in db.items ==>
            && r.items[k].id == k
            && r.items[k].ventaId == ventaId
            && r.items[k].caravanaId in sel
            && r.items[k].caravanaId !in HeldBy(db, ventaId)
            && r.items[k].caravanaId in db.caravanas
            && r.items[k].importe == db.caravanas[r.items[k].caravanaId].precio)
  {
    var selSet := set id | id in sel;
    var kept := KeptItems(db, ventaId, selSet);
    var added := AddedItems(db, ventaId, sel, next);
    assert forall k :: k in db.items ==> k !in added;
  }

  /** After reconciling, the sale holds exactly the selected caravanas. */
  lemma ReconcileHeld(db: Db, ventaId: int, sel: seq<int>, next: int)
    requires ReconcileReady(db, ventaId, sel, next)
    ensures HeldBy(Reconcile(db, ventaId, sel, next), ventaId) == set id | id in sel
  {
    var r := Reconcile(db, ventaId, sel, next);
    ReconcileItems(db, ventaId, sel, next);
    forall id | id in sel ensures id in HeldBy(r, ventaId) {
      if id in HeldBy(db, ventaId) {
        var k :| IsItemOf(db, k, ventaId) && db.items[k].caravanaId == id;
        assert IsItemOf(r, k, ventaId);
      } else {
        var added := AddedItems(db, ventaId, sel, next);
        var k :| k in added && added[k].caravanaId == id;
        assert k !in db.items;
        assert IsItemOf(r, k, ventaId);
      }
    }
  }

  /** Availability flags after reconciling: a newly selected caravana is
      unavailable, a dropped one that no other sale holds is available,
      and every other flag and every other field is as it was. */
  lemma ReconcileFlags(db: Db, ventaId: int, sel: seq<int>, next: int)
    requires ReconcileReady(db, ventaId, sel, next)
    ensures var r := Reconcile(db, ventaId, sel, next);
      && r.caravanas.Keys == db.caravanas.Keys
      && (forall c :: c in db.caravanas ==>
            r.caravanas[c] == db.caravanas[c].(disponible := r.caravanas[c].disponible))
      && (forall c :: c in db.caravanas && c in sel && c !in HeldBy(db, ventaId) ==>
            !r.caravanas[c].disponible)
      && (forall c :: (c in db.caravanas && c in HeldBy(db, ventaId) && c !in sel
            && !UsedByOtherVenta(db, c, ventaId)) ==> r.caravanas[c].disponible)
      && (forall c :: c in db.caravanas && (c in sel <==> c in HeldBy(db, ventaId)) ==>
            r.caravanas[c].disponible == db.caravanas[c].disponible)
      && (forall c :: (c in db.caravanas && c in HeldBy(db, ventaId) && c !in sel
            && UsedByOtherVenta(db, c, ventaId)) ==> r.caravanas[c].disponible == db.caravanas[c].disponible)
  {
  }

  lemma ReconcileValid(db: Db, ventaId: int, sel: seq<int>, next: int)
    requires ReconcileReady(db, ventaId, sel, next)
    ensures Valid(Reconcile(db, ventaId, sel, next))
  {
    var r := Reconcile(db, ventaId, sel, next);
    ReconcileItems(db, ventaId, sel, next);
    ReconcileFlags(db, ventaId, sel, next);
    assert KeysAreIds(r);
    assert ForeignKeysHold(r);
    assert UniqueCaravanaKeys(r.caravanas) by {
      forall a, b | a in r.caravanas && b in r.caravanas && a != b
        ensures r.caravanas[a].matricula != r.caravanas[b].matricula
        ensures r.caravanas[a].numeroSenasa != r.caravanas[b].numeroSenasa
        ensures r.caravanas[a].serie != r.caravanas[b].serie
      {
      }
    }
  }

  /** After reconciling, a caravana is held by some sale exactly when it
      is selected or held by another sale. */
  lemma ReconcileSold(db: Db, ventaId: int, sel: seq<int>, next: int, c: int)
    requires ReconcileReady(db, ventaId, sel, next)
    ensures IsSold(Reconcile(db, ventaId, sel, next), c) <==> c in sel || UsedByOtherVenta(db, c, ventaId)
  {
    var r := Reconcile(db, ventaId, sel, next);
    ReconcileItems(db, ventaId, sel, next);
    ReconcileHeld(db, ventaId, sel, next);
    if c in sel {
      assert c in HeldBy(r, ventaId);
    }
    if UsedByOtherVenta(db, c, ventaId) {
      var k :| k in db.items && db.items[k].caravanaId == c && db.items[k].ventaId != ventaId;
      assert k in r.items;
    }
    if IsSold(r, c) {
      var k :| k in r.items && r.items[k].caravanaId == c;
      if k in db.items && db.items[k].ventaId == ventaId {
        assert IsItemOf(db, k, ventaId);
      }
    }
  }

  /** Reconciling keeps the availability ledger in step with the line
      items. */
  lemma ReconcileLedger(db: Db, ventaId: int, sel: seq<int>, next: int)
    requires ReconcileReady(db, ventaId, sel, next)
    requires LedgerConsistent(db)
    ensures LedgerConsistent(Reconcile(db, ventaId, sel, next))
  {
    var r := Reconcile(db, ventaId, sel, next);
    ReconcileFlags(db, ventaId, sel, next);
    forall c | c in r.caravanas ensures !r.caravanas[c].disponible <==> IsSold(r, c) {
      ReconcileSold(db, ventaId, sel, next, c);
      if c in HeldBy(db, ventaId) {
        var k :| IsItemOf(db, k, ventaId) && db.items[k].caravanaId == c;
        assert IsSold(db, c);
      } else if c !in sel && IsSold(db, c) {
        var k :| k in db.items && db.items[k].caravanaId == c;
        assert db.items[k].ventaId != ventaId;
      }
    }
  }

  /** With no caravana selected twice, reconciling never gives a sale two
      line items for one caravana. */
  lemma ReconcileNoDuplicates(db: Db, ventaId: int, sel: seq<int>, next: int)
    requires ReconcileReady(db, ventaId, sel, next)
    requires NoDuplicateItems(db) && Distinct(sel)
    ensures NoDuplicateItems(Reconcile(db, ventaId, sel, next))
  {
    var r := Reconcile(db, ventaId, sel, next);
    ReconcileItems(db, ventaId, sel, next);
    var added := AddedItems(db, ventaId, sel, next);
    forall a, b | a in r.items && b in r.items && a != b && r.items[a].ventaId == r.items[b].ventaId
      ensures r.items[a].caravanaId != r.items[b].caravanaId
    {
      if a in db.items && b !in db.items {
        assert IsItemOf(db, a, ventaId);
      } else if a !in db.items && b in db.items {
        assert IsItemOf(db, b, ventaId);
      } else if a !in db.items && b !in db.items {
        assert a in added && b in added;
      }
    }
  }

  /** What the save button ended in. `Aborted` is an exception the
      handler does not catch; it carries whatever had been committed. */
  datatype SaveOutcome = Saved(db: Db, ventaId: int) | Refused | Aborted(db: Db)

  /** The Id the save writes the header under. */
  function SaleId(f: Form, newVentaId: int): int {
    f.ventaId.GetOr(newVentaId)
  }

  /** The header the save writes. */
  function Header(f: Form, now: Instant, newVentaId: int): Venta
    requires f.clienteId.Some?
  {
    Venta(SaleId(f, newVentaId), f.fecha.GetOr(now), Total(f.seleccionadas), f.clienteId.value)
  }

  /** The save's preconditions: a valid store, and autoincrement values
      past every existing key. */
  predicate SaveReady(db: Db, newVentaId: int, nextItemId: int) {
    && Valid(db)
    && (forall k :: k in db.ventas ==> k < newVentaId)
    && (forall k :: k in db.items ==> k < nextItemId)
  }

  lemma HeldBySameItems(db: Db, db1: Db, ventaId: int, sel: seq<int>)
    requires db1.items == db.items && db1.caravanas == db.caravanas
    ensures HeldBy(db1, ventaId) == HeldBy(db, ventaId)
    ensures CanReserve(db1, ventaId, sel) <==> CanReserve(db, ventaId, sel)
  {
  }

  /** The part of the save after the header is committed to `db`. */
  function Finish(f: Form, db: Db, ventaId: int, nextItemId: int): (r: SaveOutcome)
    requires Valid(db) && ventaId in db.ventas
    requires forall k :: k in db.items ==> k < nextItemId
    ensures !r.Refused?
    ensures r.Saved? <==> CanReserve(db, ventaId, Ids(f.seleccionadas))
    ensures r.Aborted? ==> r.db == db
    ensures r.Saved? ==>
      && r.ventaId == ventaId
      && r.db.ventas == db.ventas
      && HeldBy(r.db, ventaId) == IdSet(f.seleccionadas)
      && (forall k :: k in db.items && db.items[k].ventaId != ventaId ==> k in r.db.items && r.db.items[k] == db.items[k])
      && r.db.clientes == db.clientes && r.db.autorizaciones == db.autorizaciones
      && Valid(r.db)
  {
    var sel := Ids(f.seleccionadas);
    if !CanReserve(db, ventaId, sel) then Aborted(db)
    else
      var r := Reconcile(db, ventaId, sel, nextItemId);
      ReconcileValid(db, ventaId, sel, nextItemId);
      ReconcileHeld(db, ventaId, sel, nextItemId);
      ReconcileKeepsOtherSales(db, ventaId, sel, nextItemId);
      IdsAsSet(f.seleccionadas);
      Saved(r, ventaId)
  }

  /** Reconciling one sale leaves every other sale's line items alone. */
  lemma ReconcileKeepsOtherSales(db: Db, ventaId: int, sel: seq<int>, next: int)
    requires ReconcileReady(db, ventaId, sel, next)
    ensures var r := Reconcile(db, ventaId, sel, next);
      forall k :: k in db.items && db.items[k].ventaId != ventaId ==> k in r.items && r.items[k] == db.items[k]
  {
    ReconcileItems(db, ventaId, sel, next);
  }

  /** The save button (`BtnGuardar_Click`). `now` is `DateTime.Now`,
      `newVentaId` and `nextItemId` the next autoincrement values. The
      save is refused without a client or a caravana; it aborts, leaving
      the store as it was, when the edited sale or the chosen client is
      gone, and aborts with only the header written when a newly selected
      caravana is gone. Otherwise the header carries the selection's total
      and the sale holds exactly the selected caravanas. */
  function Save(f: Form, db: Db, now: Instant, newVentaId: int, nextItemId: int): (r: SaveOutcome)
    requires SaveReady(db, newVentaId, nextItemId)
    ensures r.Refused? <==> f.clienteId.None? || f.seleccionadas == []
    ensures r.Saved? <==>
      && f.clienteId.Some? && f.seleccionadas != []
      && (f.ventaId.Some? ==> f.ventaId.value in db.ventas)
      && f.clienteId.value in db.clientes
      && CanReserve(db, SaleId(f, newVentaId), Ids(f.seleccionadas))
    ensures r.Aborted? && ((f.ventaId.Some? && f.ventaId.value !in db.ventas) || f.clienteId.value !in db.clientes) ==>
      r.db == db
    ensures r.Aborted? ==>
      && r.db.items == db.items && r.db.caravanas == db.caravanas
      && r.db.clientes == db.clientes && r.db.autorizaciones == db.autorizaciones
      && Valid(r.db)
    ensures (&& r.Aborted? && f.clienteId.Some? && f.seleccionadas != []
             && (f.ventaId.Some? ==> f.ventaId.value in db.ventas)
             && f.clienteId.value in db.clientes) ==>
      r.db.ventas == db.ventas[SaleId(f, newVentaId) := Header(f, now, newVentaId)]
    ensures r.Saved? ==>
      && r.ventaId == SaleId(f, newVentaId)
      && r.db.ventas == db.ventas[r.ventaId := Header(f, now, newVentaId)]
      && HeldBy(r.db, r.ventaId) == IdSet(f.seleccionadas)
      && (forall k :: k in db.items && db.items[k].ventaId != r.ventaId ==> k in r.db.items && r.db.items[k] == db.items[k])
      && r.db.clientes == db.clientes && r.db.autorizaciones == db.autorizaciones
      && Valid(r.db)
  {
    if f.clienteId.None? || f.seleccionadas == [] then Refused
    else if f.ventaId.Some? && f.ventaId.value !in db.ventas then Aborted(db)
    else
      match PutVenta(db, Header(f, now, newVentaId))
      case Failure(_) => Aborted(db)
      case Success(db1) =>
        HeldBySameItems(db, db1, SaleId(f, newVentaId), Ids(f.seleccionadas));
        Finish(f, db1, SaleId(f, newVentaId), nextItemId)
  }

  /** A successful save is the header write followed by reconciliation. */
  lemma SaveSteps(f: Form, db: Db, now: Instant, newVentaId: int, nextItemId: int)
    requires SaveReady(db, newVentaId, nextItemId)
    requires Save(f, db, now, newVentaId, nextItemId).Saved?
    ensures PutVenta(db, Header(f, now, newVentaId)).Success?
    ensures var db1 := PutVenta(db, Header(f, now, newVentaId)).value;
      && ReconcileReady(db1, SaleId(f, newVentaId), Ids(f.seleccionadas), nextItemId)
      && Save(f, db, now, newVentaId, nextItemId).db == Reconcile(db1, SaleId(f, newVentaId), Ids(f.seleccionadas), nextItemId)
      && db1.items == db.items && db1.caravanas == db.caravanas
  {
    var db1 := PutVenta(db, Header(f, now, newVentaId)).value;
    HeldBySameItems(db, db1, SaleId(f, newVentaId), Ids(f.seleccionadas));
  }

  /** Availability after a successful save: a caravana the sale did not
      hold before and now holds is unavailable; one it dropped that no
      other sale holds is available; every other flag, and every other
      field of every caravana, is as it was. */
  lemma SaveFlags(f: Form, db: Db, now: Instant, newVentaId: int, nextItemId: int)
    requires SaveReady(db, newVentaId, nextItemId)
    requires Save(f, db, now, newVentaId, nextItemId).Saved?
    ensures var r := Save(f, db, now, newVentaId, nextItemId);
      var vid := SaleId(f, newVentaId);
      var sel := IdSet(f.seleccionadas);
      && r.db.caravanas.Keys == db.caravanas.Keys
      && (forall c :: c in db.caravanas ==>
            r.db.caravanas[c] == db.caravanas[c].(disponible := r.db.caravanas[c].disponible))
      && (forall c :: c in sel && c !in HeldBy(db, vid) ==> c in r.db.caravanas && !r.db.caravanas[c].disponible)
      && (forall c :: (c in db.caravanas && c in HeldBy(db, vid) && c !in sel && !UsedByOtherVenta(db, c, vid)) ==>
            r.db.caravanas[c].disponible)
      && (forall c :: (c in db.caravanas && (c in sel <==> c in HeldBy(db, vid))) ==>
            r.db.caravanas[c].disponible == db.caravanas[c].disponible)
  {
    SaveSteps(f, db, now, newVentaId, nextItemId);
    var db1 := PutVenta(db, Header(f, now, newVentaId)).value;
    var vid := SaleId(f, newVentaId);
    var sel := Ids(f.seleccionadas);
    HeldBySameItems(db, db1, vid, sel);
    ReconcileFlags(db1, vid, sel, nextItemId);
    assert forall c :: c in IdSet(f.seleccionadas) <==> c in sel;
    assert forall c :: UsedByOtherVenta(db1, c, vid) <==> UsedByOtherVenta(db, c, vid);
  }

  /** A new sale holds nothing before it is saved, so saving it marks every
      selected caravana unavailable. */
  lemma NewSaleReservesAll(f: Form, db: Db, now: Instant, newVentaId: int, nextItemId: int)
    requires SaveReady(db, newVentaId, nextItemId)
    requires f.ventaId.None?
    requires Save(f, db, now, newVentaId, nextItemId).Saved?
    ensures var r := Save(f, db, now, newVentaId, nextItemId);
      forall c :: c in IdSet(f.seleccionadas) ==> c in r.db.caravanas && !r.db.caravanas[c].disponible
  {
    assert HeldBy(db, newVentaId) == {};
    SaveFlags(f, db, now, newVentaId, nextItemId);
  }

  /** Saving keeps the availability ledger in step with the line items,
      whether it completes or aborts part-way. */
  lemma SavePreservesLedger(f: Form, db: Db, now: Instant, newVentaId: int, nextItemId: int)
    requires SaveReady(db, newVentaId, nextItemId)
    requires LedgerConsistent(db)
    ensures var r := Save(f, db, now, newVentaId, nextItemId);
      !r.Refused? ==> LedgerConsistent(r.db)
  {
    var r := Save(f, db, now, newVentaId, nextItemId);
    if r.Saved? {
      SaveSteps(f, db, now, newVentaId, nextItemId);
      var db1 := PutVenta(db, Header(f, now, newVentaId)).value;
      assert forall c :: IsSold(db1, c) <==> IsSold(db, c);
      ReconcileLedger(db1, SaleId(f, newVentaId), Ids(f.seleccionadas), nextItemId);
    } else if r.Aborted? {
      assert forall c :: IsSold(r.db, c) <==> IsSold(db, c);
    }
  }

  /** With the window's lists free of duplicates, saving never gives a
      sale two line items for one caravana. */
  lemma SavePreservesNoDuplicateItems(f: Form, db: Db, now: Instant, newVentaId: int, nextItemId: int)
    requires SaveReady(db, newVentaId, nextItemId)
    requires NoDuplicateItems(db) && FormInvariant(f)
    ensures var r := Save(f, db, now, newVentaId, nextItemId);
      !r.Refused? ==> NoDuplicateItems(r.db)
  {
    var r := Save(f, db, now, newVentaId, nextItemId);
    if r.Saved? {
      SaveSteps(f, db, now, newVentaId, nextItemId);
      var db1 := PutVenta(db, Header(f, now, newVentaId)).value;
      NoDupIdsDistinct(f.seleccionadas);
      ReconcileNoDuplicates(db1, SaleId(f, newVentaId), Ids(f.seleccionadas), nextItemId);
    }
  }
}
