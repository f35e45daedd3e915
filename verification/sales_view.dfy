/** The sales list: its ordering by date and its delete button, which
    releases the sale's caravanas before the sale and its line items go. */
module SalesView {
  import opened Models
  import opened Store
  import opened Ordering
  import SaleForm

  // ---------------------------------------------------------------------
  // Listing
  // ---------------------------------------------------------------------

  /** The sales list order: later sales first. */
  predicate LaterOrSame(a: Venta, b: Venta) {
    a.fecha >= b.fecha
  }

  lemma LaterOrSameTotal()
    ensures TotalPreorder(LaterOrSame)
  {
  }

  /** `CargarVentas`: every sale, newest first. */
  function ListVentas(db: Db): (r: seq<Venta>)
    ensures |r| == |db.ventas|
    ensures forall v :: v in r <==> v in db.ventas.Values
    ensures forall i, j :: 0 <= i < j < |r| ==> r[i].fecha >= r[j].fecha
  {
    LaterOrSameTotal();
    var rows := InKeyOrder(db.ventas);
    var r := SortBy(rows, LaterOrSame);
    SameMultiset(r, rows);
    r
  }

  // ---------------------------------------------------------------------
  // Deleting a sale
  // ---------------------------------------------------------------------

  /** How the delete button ended. `Failed` is the exception `First`
      throws when the sale is already gone; nothing is written then. */
  datatype DeleteOutcome = Cancelled | Deleted(db: Db) | Failed

  /** The caravanas the delete releases: held by the sale and by no other. */
  function Releasable(db: Db, ventaId: int): (ids: set<int>)
    ensures forall c :: c in ids <==> c in HeldBy(db, ventaId) && !UsedByOtherVenta(db, c, ventaId)
  {
    SaleForm.Released(db, ventaId, {})
  }

  /** The release loop: each releasable caravana is marked available. */
  function ReleaseAll(db: Db, ventaId: int): (r: Db)
    requires Valid(db)
    ensures r.caravanas.Keys == db.caravanas.Keys
    ensures forall c :: c in db.caravanas ==>
      r.caravanas[c] == db.caravanas[c].(disponible := c in Releasable(db, ventaId) || db.caravanas[c].disponible)
    ensures r.(caravanas := db.caravanas) == db
    ensures Valid(r)
  {
    var released := Releasable(db, ventaId);
    var m := map c | c in db.caravanas :: SaleForm.Flagged(db.caravanas[c], {}, released);
    FlagsOnlyKeepValid(db, m);
    db.(caravanas := m)
  }

  /** The delete button (`BtnEliminar_Click`): after confirmation, every
      caravana of the sale that no other sale holds is marked available,
      and the sale goes with its line items. */
  function DeleteVenta(db: Db, ventaId: int, confirmed: bool): (r: DeleteOutcome)
    requires Valid(db)
    ensures r.Cancelled? <==> !confirmed
    ensures r.Deleted? <==> confirmed && ventaId in db.ventas
    ensures r.Deleted? ==>
      && r.db.ventas.Keys == db.ventas.Keys - {ventaId}
      && (forall k :: k in r.db.ventas ==> r.db.ventas[k] == db.ventas[k])
      && (forall k :: k in r.db.items <==> k in db.items && db.items[k].ventaId != ventaId)
      && (forall k :: k in r.db.items ==> r.db.items[k] == db.items[k])
      && r.db.caravanas.Keys == db.caravanas.Keys
      && (forall c :: c in db.caravanas ==>
            r.db.caravanas[c] == db.caravanas[c].(disponible := r.db.caravanas[c].disponible))
      && (forall c :: c in db.caravanas && c in HeldBy(db, ventaId) && !UsedByOtherVenta(db, c, ventaId) ==>
            r.db.caravanas[c].disponible)
      && (forall c :: c in db.caravanas && (c !in HeldBy(db, ventaId) || UsedByOtherVenta(db, c, ventaId)) ==>
            r.db.caravanas[c].disponible == db.caravanas[c].disponible)
      && r.db.clientes == db.clientes && r.db.autorizaciones == db.autorizaciones
      && Valid(r.db)
  {
    if !confirmed then Cancelled
    else if ventaId !in db.ventas then Failed
    else
      var db1 := ReleaseAll(db, ventaId);
      Deleted(RemoveVenta(db1, ventaId).value)
  }

  /** Deleting a sale keeps the availability ledger in step with the line
      items. */
  lemma {:induction false} DeletePreservesLedger(db: Db, ventaId: int, confirmed: bool)
    requires Valid(db) && LedgerConsistent(db)
    ensures var r := DeleteVenta(db, ventaId, confirmed);
      r.Deleted? ==> LedgerConsistent(r.db)
  {
    var r := DeleteVenta(db, ventaId, confirmed);
    if r.Deleted? {
      forall c | c in r.db.caravanas ensures !r.db.caravanas[c].disponible <==> IsSold(r.db, c) {
        assert IsSold(r.db, c) <==> UsedByOtherVenta(db, c, ventaId) by {
          if UsedByOtherVenta(db, c, ventaId) {
            var k :| k in db.items && db.items[k].caravanaId == c && db.items[k].ventaId != ventaId;
            assert k in r.db.items;
          }
        }
        if c in HeldBy(db, ventaId) {
          var k :| IsItemOf(db, k, ventaId) && db.items[k].caravanaId == c;
          assert IsSold(db, c);
        } else if IsSold(db, c) {
          var k :| k in db.items && db.items[k].caravanaId == c;
          assert db.items[k].ventaId != ventaId;
        }
      }
    }
  }

  /** Deleting one sale leaves what every other sale holds unchanged. */
  lemma {:induction false} DeleteKeepsOtherSales(db: Db, ventaId: int, confirmed: bool, other: int)
    requires Valid(db) && other != ventaId
    ensures var r := DeleteVenta(db, ventaId, confirmed);
      r.Deleted? ==> HeldBy(r.db, other) == HeldBy(db, other)
  {
    var r := DeleteVenta(db, ventaId, confirmed);
    if r.Deleted? {
      forall c | c in HeldBy(db, other) ensures c in HeldBy(r.db, other) {
        var k :| IsItemOf(db, k, other) && db.items[k].caravanaId == c;
        assert IsItemOf(r.db, k, other);
      }
    }
  }
}
