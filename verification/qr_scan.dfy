/** The scan screen: normalises what was typed or scanned into a public
    code, looks the client up by it and summarises the client's sales. */
module QRScan {
  import opened Wrappers
  import opened Text
  import opened Models
  import opened Store
  import opened Ordering
  import opened QRCode

  // ---------------------------------------------------------------------
  // From input to public code
  // ---------------------------------------------------------------------

  /** Input that starts with the QR tag in any letter case goes through
      the extractor; anything else is taken as the code itself. */
  function ResolveCode(codigo: string): (r: Option<string>)
    ensures !StartsWithIgnoreCase(codigo, CodePrefix) ==> r == Some(codigo)
    ensures StartsWithIgnoreCase(codigo, CodePrefix) ==> r == ExtractPublicCode(codigo)
  {
    if StartsWithIgnoreCase(codigo, CodePrefix) then ExtractPublicCode(codigo) else Some(codigo)
  }

  // ---------------------------------------------------------------------
  // Lookup and summary
  // ---------------------------------------------------------------------

  /** The first client, in key order, whose public code is exactly `code`. */
  function FindByCode(db: Db, code: string): (r: Option<Cliente>)
    ensures r.Some? ==> exists k :: k in db.clientes && db.clientes[k] == r.value
    ensures r.Some? ==> r.value.codigoQR == Some(code)
    ensures r.None? <==> forall k :: k in db.clientes ==> db.clientes[k].codigoQR != Some(code)
  {
    FindIn(db.clientes, SortedKeys(db.clientes.Keys), code)
  }

  function FindIn(cs: map<int, Cliente>, keys: seq<int>, code: string): (r: Option<Cliente>)
    requires forall k :: k in keys ==> k in cs
    ensures r.Some? ==> exists k :: k in keys && cs[k] == r.value
    ensures r.Some? ==> r.value.codigoQR == Some(code)
    ensures r.None? <==> forall k :: k in keys ==> cs[k].codigoQR != Some(code)
  {
    if keys == [] then None
    else
      assert keys[0] in keys;
      assert forall k :: k in keys <==> k == keys[0] || k in keys[1..];
      if cs[keys[0]].codigoQR == Some(code) then Some(cs[keys[0]])
      else FindIn(cs, keys[1..], code)
  }

  /** One row of the client's sales grid. */
  datatype SaleRow = SaleRow(id: int, fecha: Instant, importe: Money, cantidadCaravanas: nat, series: seq<string>)

  /** The summary panel: the rows, the sum of the sale totals, the number
      of sales, the number of caravanas over all sales, and the spend,
      which is the sales total again. */
  datatype Summary = Summary(rows: seq<SaleRow>, totalVentas: Money, cantidadVentas: nat,
                             totalCaravanas: nat, totalGasto: Money)

  predicate Increasing(s: seq<int>) {
    forall i, j :: 0 <= i < j < |s| ==> s[i] < s[j]
  }

  lemma IncreasingCons(x: int, rest: seq<int>)
    requires Increasing(rest) && forall k :: k in rest ==> x < k
    ensures Increasing([x] + rest)
  {
    var s := [x] + rest;
    forall i, j | 0 <= i < j < |s| ensures s[i] < s[j] {
      if i == 0 {
        assert s[j] == rest[j - 1] && rest[j - 1] in rest;
      } else {
        assert s[i] == rest[i - 1] && s[j] == rest[j - 1];
      }
    }
  }

  /** The keys among `keys` whose line item belongs to the sale. */
  function ItemKeysOf(db: Db, keys: seq<int>, ventaId: int): (r: seq<int>)
    requires forall k :: k in keys ==> k in db.items
    requires Increasing(keys)
    ensures forall k :: k in r <==> k in keys && db.items[k].ventaId == ventaId
    ensures Increasing(r)
  {
    if keys == [] then []
    else
      assert forall k :: k in keys <==> k == keys[0] || k in keys[1..];
      var rest := ItemKeysOf(db, keys[1..], ventaId);
      assert forall k :: k in rest ==> keys[0] < k;
      IncreasingCons(keys[0], rest);
      (if db.items[keys[0]].ventaId == ventaId then [keys[0]] else []) + rest
  }

  /** The serie shown for a line item; a missing caravana shows nothing. */
  function SerieOf(db: Db, k: int): string
    requires k in db.items
  {
    if db.items[k].caravanaId in db.caravanas then db.caravanas[db.items[k].caravanaId].serie else ""
  }

  /** A sale as the grid shows it: its header and its line items' series. */
  function Row(db: Db, v: Venta): (r: SaleRow)
    ensures r.id == v.id && r.fecha == v.fecha && r.importe == v.importe
    ensures r.cantidadCaravanas == |r.series|
    ensures r.cantidadCaravanas == |set k | k in db.items && db.items[k].ventaId == v.id|
  {
    var mine := ItemsOfSale(db, v.id);
    var series := seq(|mine|, i requires 0 <= i < |mine| => SerieOf(db, mine[i]));
    SaleRow(v.id, v.fecha, v.importe, |series|, series)
  }

  /** The keys of a sale's line items, in increasing order. */
  function ItemsOfSale(db: Db, ventaId: int): (ks: seq<int>)
    ensures forall k :: k in ks <==> k in db.items && db.items[k].ventaId == ventaId
    ensures |ks| == |set k | k in db.items && db.items[k].ventaId == ventaId|
  {
    var ks := ItemKeysOf(db, SortedKeys(db.items.Keys), ventaId);
    CountOfDistinct(ks, set k | k in db.items && db.items[k].ventaId == ventaId);
    ks
  }

  /** A strictly increasing sequence has as many elements as its set. */
  lemma {:induction false} CountOfDistinct(s: seq<int>, t: set<int>)
    requires Increasing(s)
    requires forall k :: k in s <==> k in t
    ensures |s| == |t|
    decreases |s|
  {
    if s == [] {
      assert forall k :: k !in t;
    } else {
      var rest := t - {s[0]};
      assert s[0] in s;
      assert forall j :: 1 <= j < |s| ==> s[0] < s[j];
      assert s[0] !in s[1..];
      assert t == rest + {s[0]} && s[0] !in rest;
      assert forall k :: k in s[1..] <==> k in rest by {
        forall k ensures k in s[1..] <==> k in rest {
          if k in s[1..] {
            var j :| 1 <= j < |s| && s[j] == k;
            assert s[0] < s[j];
          }
          if k in rest {
            var j :| 0 <= j < |s| && s[j] == k;
            assert j != 0;
            assert s[1..][j - 1] == k;
          }
        }
      }
      CountOfDistinct(s[1..], rest);
      assert |s| == |s[1..]| + 1;
      assert |t| == |rest| + 1;
    }
  }

  /** The ids of a list of rows. */
  function RowIds(rows: seq<SaleRow>): (ids: seq<int>)
    ensures |ids| == |rows| && forall i :: 0 <= i < |rows| ==> ids[i] == rows[i].id
  {
    seq(|rows|, i requires 0 <= i < |rows| => rows[i].id)
  }

  /** The keys among `keys` whose sale belongs to the client. */
  function SaleKeysOf(db: Db, keys: seq<int>, clienteId: int): (r: seq<int>)
    requires forall k :: k in keys ==> k in db.ventas
    requires Increasing(keys)
    ensures forall k :: k in r <==> k in keys && db.ventas[k].clienteId == clienteId
    ensures Increasing(r)
  {
    if keys == [] then []
    else
      assert forall k :: k in keys <==> k == keys[0] || k in keys[1..];
      var rest := SaleKeysOf(db, keys[1..], clienteId);
      assert forall k :: k in rest ==> keys[0] < k;
      IncreasingCons(keys[0], rest);
      (if db.ventas[keys[0]].clienteId == clienteId then [keys[0]] else []) + rest
  }

  /** The sales of a client, in key order, as grid rows. */
  function RowsOf(db: Db, keys: seq<int>, clienteId: int): (r: seq<SaleRow>)
    requires KeysAreIds(db)
    requires forall k :: k in keys ==> k in db.ventas
    requires Increasing(keys)
    ensures forall i :: 0 <= i < |r| ==> r[i].id in db.ventas && r[i] == Row(db, db.ventas[r[i].id])
    ensures forall k :: k in RowIds(r) <==> k in keys && db.ventas[k].clienteId == clienteId
    ensures Increasing(RowIds(r))
  {
    var ks := SaleKeysOf(db, keys, clienteId);
    var r := seq(|ks|, i requires 0 <= i < |ks| => Row(db, db.ventas[ks[i]]));
    assert RowIds(r) == ks;
    r
  }

  function SumImporte(rows: seq<SaleRow>): Money {
    if rows == [] then 0 else rows[0].importe + SumImporte(rows[1..])
  }

  function SumCaravanas(rows: seq<SaleRow>): nat {
    if rows == [] then 0 else rows[0].cantidadCaravanas + SumCaravanas(rows[1..])
  }

  /** The client's sales: every sale of the client appears once. */
  function SalesOf(db: Db, clienteId: int): (rows: seq<SaleRow>)
    requires KeysAreIds(db)
    ensures forall i :: 0 <= i < |rows| ==> rows[i].id in db.ventas && rows[i] == Row(db, db.ventas[rows[i].id])
    ensures forall k :: k in RowIds(rows) <==> k in db.ventas && db.ventas[k].clienteId == clienteId
    ensures Increasing(RowIds(rows))
    ensures |rows| == |set k | k in db.ventas && db.ventas[k].clienteId == clienteId|
  {
    var keys := SortedKeys(db.ventas.Keys);
    var rows := RowsOf(db, keys, clienteId);
    CountOfDistinct(RowIds(rows), set k | k in db.ventas && db.ventas[k].clienteId == clienteId);
    rows
  }

  /** The summary panel for a client. */
  function Summarise(db: Db, clienteId: int): (s: Summary)
    requires KeysAreIds(db)
    ensures s.rows == SalesOf(db, clienteId)
    ensures s.cantidadVentas == |set k | k in db.ventas && db.ventas[k].clienteId == clienteId|
    ensures s.totalVentas == SumImporte(s.rows) && s.totalGasto == s.totalVentas
    ensures s.totalCaravanas == SumCaravanas(s.rows)
    ensures !HasVentas(db, clienteId) ==> s.rows == [] && s.totalVentas == 0 && s.cantidadVentas == 0 && s.totalCaravanas == 0
  {
    var rows := SalesOf(db, clienteId);
    var total := SumImporte(rows);
    Summary(rows, total, |rows|, SumCaravanas(rows), total)
  }

  // ---------------------------------------------------------------------
  // The search button
  // ---------------------------------------------------------------------

  /** How a search ends. */
  datatype SearchOutcome = EmptyInput | Unrecognised | NoMatch(code: string) | Found(cliente: Cliente, summary: Summary)

  /** Looking a resolved code up: a blank or missing code is not
      recognised; otherwise the first client holding exactly that code is
      shown with its sales summary. */
  function Lookup(code: Option<string>, db: Db): (r: SearchOutcome)
    requires KeysAreIds(db)
    ensures !r.EmptyInput?
    ensures r.Unrecognised? <==> IsNullOrWhiteSpace(code)
    ensures r.NoMatch? ==>
      && code == Some(r.code)
      && forall k :: k in db.clientes ==> db.clientes[k].codigoQR != Some(r.code)
    ensures r.Found? ==>
      && code == r.cliente.codigoQR
      && (exists k :: k in db.clientes && db.clientes[k] == r.cliente)
      && r.summary == Summarise(db, r.cliente.id)
  {
    if IsNullOrWhiteSpace(code) then Unrecognised
    else
      match FindByCode(db, code.value)
      case None => NoMatch(code.value)
      case Some(c) => Found(c, Summarise(db, c.id))
  }

  /** The search button (`BtnBuscar_Click`): trim the input, refuse it when
      empty, resolve it to a public code, refuse a blank code, and show the
      first client with exactly that code and its sales summary. */
  function Search(input: string, db: Db): (r: SearchOutcome)
    requires KeysAreIds(db)
    ensures r.EmptyInput? <==> IsBlank(input)
    ensures r.Unrecognised? <==> !IsBlank(input) && IsNullOrWhiteSpace(ResolveCode(Trim(input)))
    ensures r.NoMatch? ==>
      && ResolveCode(Trim(input)) == Some(r.code)
      && forall k :: k in db.clientes ==> db.clientes[k].codigoQR != Some(r.code)
    ensures r.Found? ==>
      && ResolveCode(Trim(input)) == r.cliente.codigoQR
      && (exists k :: k in db.clientes && db.clientes[k] == r.cliente)
      && r.summary == Summarise(db, r.cliente.id)
  {
    var codigo := Trim(input);
    if codigo == [] then EmptyInput else Lookup(ResolveCode(codigo), db)
  }

  /** Trimming keeps a prefix that starts and ends with non-white
      characters. */
  lemma TrimKeepsPrefix(s: string, p: string)
    requires |p| >= 1 && HasPrefix(s, p)
    requires !IsWhiteSpace(p[0]) && !IsWhiteSpace(p[|p| - 1])
    ensures HasPrefix(Trim(s), p)
  {
    var t := TrimStartBy(s, IsWhiteSpace);
    assert t == s;
    var r := TrimEndBy(t, IsWhiteSpace);
    assert |r| >= |p|;
    assert r[..|p|] == s[..|p|];
  }

  /** Scanning a client's QR text finds a client holding that code, or
      reports that no client holds it; the code is never lost on the way. */
  lemma {:induction false} ScanQRContent(db: Db, code: string, name: Option<string>, count: int, totalText: string)
    requires KeysAreIds(db)
    requires '|' !in code && !IsBlank(code)
    ensures var r := Search(GetQRContent(code, name, count, totalText), db);
      && (r.Found? || r.NoMatch?)
      && (r.Found? ==> r.cliente.codigoQR == Some(code))
      && (r.NoMatch? ==> r.code == code)
      && (r.Found? <==> exists k :: k in db.clientes && db.clientes[k].codigoQR == Some(code))
  {
    var s := GetQRContent(code, name, count, totalText);
    var p := CodePrefix + code + "|";
    PrefixOfConcat(p, Details(name, count, totalText));
    assert p[0] == 'C' && p[|p| - 1] == '|';
    TrimKeepsPrefix(s, p);
    TaggedCodeResolves(Trim(s), code);
    assert !IsBlank(s) by { assert !IsWhiteSpace(s[0]); }
  }

  /** A text starts with its own first part. */
  lemma PrefixOfConcat(a: string, b: string)
    ensures HasPrefix(a + b, a)
  {
    assert (a + b)[..|a|] == a;
  }

  /** Text starting with the tag, a `|`-free code and `|` resolves to that
      code. */
  lemma TaggedCodeResolves(t: string, code: string)
    requires '|' !in code && HasPrefix(t, CodePrefix + code + "|")
    ensures ResolveCode(t) == Some(code) && t != []
  {
    PrefixParts(t, CodePrefix + code, "|");
    PrefixParts(t, CodePrefix, code);
    assert StartsWithIgnoreCase(t, CodePrefix);
    var e := ExtractPublicCode(t);
    SameFieldAfterPrefix(t, code, e.value);
  }

  /** Two `|`-free fields that both follow the tag in the same text are the
      same field. */
  lemma SameFieldAfterPrefix(t: string, a: string, b: string)
    requires '|' !in a && '|' !in b
    requires HasPrefix(t, CodePrefix + a + "|")
    requires HasPrefix(t, CodePrefix + b)
    requires |t| == |CodePrefix + b| || t[|CodePrefix + b|] == '|'
    ensures a == b
  {
    var n := |CodePrefix|;
    assert t[n + |a|] == '|';
    assert forall i :: 0 <= i < |b| ==> t[n + i] == b[i] && b[i] != '|';
    assert forall i :: 0 <= i < |a| ==> t[n + i] == a[i] && a[i] != '|';
    assert forall i :: 0 <= i < |a| ==> a[i] == t[n + i] == b[i];
  }

  /** A code typed on its own, without surrounding white space or the tag,
      is looked up as it stands. */
  lemma {:induction false} TypedCodeLooksUpItself(db: Db, code: string)
    requires KeysAreIds(db)
    requires code != [] && !IsWhiteSpace(code[0]) && !IsWhiteSpace(code[|code| - 1])
    requires !StartsWithIgnoreCase(code, CodePrefix)
    ensures var r := Search(code, db);
      (r.Found? && r.cliente.codigoQR == Some(code)) || r == NoMatch(code)
  {
    TrimKeepsPrefix(code, code);
    assert Trim(code) == code;
    assert !IsBlank(code);
  }

  // ---------------------------------------------------------------------
  // Letter case of the tag
  // ---------------------------------------------------------------------

  /** The tag in lower case. */
  const LowerPrefix: string := "cliente_code|"

  /** The lower-case tag passes the case-insensitive prefix test. */
  lemma LowerPrefixMatches(s: string)
    requires HasPrefix(s, LowerPrefix)
    ensures StartsWithIgnoreCase(s, CodePrefix) && !HasPrefix(s, CodePrefix)
  {
    LowerPrefixUpper();
    assert s[..|CodePrefix|] == LowerPrefix;
    assert CodePrefix[0] == 'C';
  }

  lemma LowerPrefixUpper()
    ensures EqualsIgnoreCase(LowerPrefix, CodePrefix)
    ensures |LowerPrefix| == |CodePrefix| && LowerPrefix[0] == 'c' && LowerPrefix[|LowerPrefix| - 1] == '|'
  {
    var l, u := LowerPrefix, CodePrefix;
    LowerPrefixIsLower();
    forall i | 0 <= i < |l| ensures UpperInvariant(l[i]) == UpperInvariant(u[i]) {
      UpperOfLower(u[i]);
    }
    assert l[0] == 'c' && l[12] == '|';
  }

  /** The lower-case tag is the tag lower-cased. */
  lemma LowerPrefixIsLower()
    ensures |LowerPrefix| == |CodePrefix|
    ensures forall i :: 0 <= i < |CodePrefix| ==> LowerPrefix[i] == LowerAscii(CodePrefix[i])
  {
    var l, u := LowerPrefix, CodePrefix;
    assert l == ['c', 'l', 'i', 'e', 'n', 't', 'e', '_', 'c', 'o', 'd', 'e', '|'];
    assert u == ['C', 'L', 'I', 'E', 'N', 'T', 'E', '_', 'C', 'O', 'D', 'E', '|'];
  }

  /** Lower-casing a character does not change its upper-case form. */
  lemma UpperOfLower(c: char)
    ensures UpperInvariant(LowerAscii(c)) == UpperInvariant(c)
  {
  }

  /** Input carrying the tag in lower case passes the prefix test, but the
      extractor compares the tag exactly, so the scan reports it
      unrecognised whatever code follows. */
  lemma LowerCaseTagRejected(db: Db, input: string)
    requires KeysAreIds(db)
    requires HasPrefix(input, LowerPrefix)
    ensures StartsWithIgnoreCase(input, CodePrefix)
    ensures Search(input, db) == Unrecognised
  {
    LowerPrefixMatches(input);
    LowerTagUnresolved(input);
    assert !IsBlank(input) by {
      LowerPrefixUpper();
      assert !IsWhiteSpace(input[0]);
    }
  }

  lemma LowerTagUnresolved(input: string)
    requires HasPrefix(input, LowerPrefix)
    ensures ResolveCode(Trim(input)) == None
  {
    LowerPrefixUpper();
    TrimKeepsPrefix(input, LowerPrefix);
    LowerPrefixMatches(Trim(input));
  }

  /** The extractor with the tag compared in any letter case, as the prefix
      test compares it. */
  function ExtractPublicCodeIgnoringCase(s: string): (r: Option<string>)
    ensures r.Some? ==> '|' !in r.value
  {
    var parts := Split(s, '|');
    if |parts| >= 2 && EqualsIgnoreCase(parts[0], CodeTag) then Some(parts[1]) else None
  }

  /** Input resolution with the tag matched in any letter case. */
  function ResolveCodeIgnoringCase(codigo: string): (r: Option<string>)
    ensures !StartsWithIgnoreCase(codigo, CodePrefix) ==> r == Some(codigo)
    ensures StartsWithIgnoreCase(codigo, CodePrefix) ==> r == Some(Split(codigo[|CodePrefix|..], '|')[0])
    ensures r.Some? && StartsWithIgnoreCase(codigo, CodePrefix) ==> '|' !in r.value
    ensures HasPrefix(codigo, CodePrefix) ==> r == ResolveCode(codigo)
  {
    if StartsWithIgnoreCase(codigo, CodePrefix) then
      TagFieldIgnoringCase(codigo);
      assert HasPrefix(codigo, CodePrefix) ==> ExtractPublicCodeIgnoringCase(codigo) == ExtractPublicCode(codigo) by {
        if HasPrefix(codigo, CodePrefix) {
          PrefixSplit(codigo);
        }
      }
      ExtractPublicCodeIgnoringCase(codigo)
    else Some(codigo)
  }

  /** Only `|` upper-cases to `|`. */
  lemma UpperBar(c: char)
    ensures UpperInvariant(c) == '|' <==> c == '|'
  {
  }

  /** Text that passes the prefix test splits into a first field equal to
      the tag in any letter case and at least one more field. */
  lemma TagFieldIgnoringCase(s: string)
    requires StartsWithIgnoreCase(s, CodePrefix)
    ensures |Split(s, '|')| >= 2 && EqualsIgnoreCase(Split(s, '|')[0], CodeTag)
    ensures Split(s, '|')[1] == Split(s[|CodePrefix|..], '|')[0]
  {
    var n := |CodeTag|;
    assert UpperInvariant(s[n]) == UpperInvariant(CodePrefix[n]);
    UpperBar(s[n]);
    assert s[n] == '|';
    assert '|' !in s[..n] by {
      forall i | 0 <= i < n ensures s[i] != '|' {
        assert UpperInvariant(s[i]) == UpperInvariant(CodePrefix[i]);
        UpperBar(s[i]);
        UpperBar(CodePrefix[i]);
      }
    }
    assert s == s[..n] + ['|'] + s[n + 1..];
    SplitConcat(s[..n], '|', s[n + 1..]);
    assert forall i :: 0 <= i < n ==> UpperInvariant(s[..n][i]) == UpperInvariant(CodeTag[i]) by {
      forall i | 0 <= i < n ensures UpperInvariant(s[..n][i]) == UpperInvariant(CodeTag[i]) {
        assert UpperInvariant(s[i]) == UpperInvariant(CodePrefix[i]);
      }
    }
  }

  /** With the tag matched in any letter case, input carrying the tag in
      lower case resolves to the code that follows it. */
  lemma LowerCaseTagAccepted(code: string, rest: string)
    requires '|' !in code
    ensures ResolveCodeIgnoringCase(LowerPrefix + code + "|" + rest) == Some(code)
  {
    var s := LowerPrefix + code + "|" + rest;
    var tail := code + "|" + rest;
    Regroup(LowerPrefix, code, rest);
    PrefixOfConcat(LowerPrefix, tail);
    LowerPrefixMatches(s);
    LowerPrefixUpper();
    assert s[|CodePrefix|..] == tail;
    SplitConcat(code, '|', rest);
  }

  /** Regrouping a prefix, a field, its closing `|` and the rest. */
  lemma Regroup(a: string, b: string, c: string)
    ensures a + b + "|" + c == a + (b + "|" + c)
    ensures (a + (b + "|" + c))[|a|..] == b + "|" + c
  {
  }

  /** The search with the tag matched in any letter case, as the prefix
      test already matches it. */
  function SearchIgnoringCase(input: string, db: Db): (r: SearchOutcome)
    requires KeysAreIds(db)
    ensures r.EmptyInput? <==> IsBlank(input)
    ensures r.Unrecognised? <==> !IsBlank(input) && IsNullOrWhiteSpace(ResolveCodeIgnoringCase(Trim(input)))
    ensures r.NoMatch? ==>
      && ResolveCodeIgnoringCase(Trim(input)) == Some(r.code)
      && forall k :: k in db.clientes ==> db.clientes[k].codigoQR != Some(r.code)
    ensures r.Found? ==>
      && ResolveCodeIgnoringCase(Trim(input)) == r.cliente.codigoQR
      && (exists k :: k in db.clientes && db.clientes[k] == r.cliente)
      && r.summary == Summarise(db, r.cliente.id)
  {
    var codigo := Trim(input);
    if codigo == [] then EmptyInput else Lookup(ResolveCodeIgnoringCase(codigo), db)
  }

  /** The corrected search differs from the search as written only on
      input whose tag is not in capitals. */
  lemma SearchIgnoringCaseAgrees(input: string, db: Db)
    requires KeysAreIds(db)
    requires HasPrefix(Trim(input), CodePrefix) || !StartsWithIgnoreCase(Trim(input), CodePrefix)
    ensures SearchIgnoringCase(input, db) == Search(input, db)
  {
  }

  /** With the corrected search, scanning text that carries the tag in
      lower case finds a client holding the code that follows it, or
      reports that no client holds it. */
  lemma {:induction false} ScanLowerCaseTag(db: Db, code: string, rest: string)
    requires KeysAreIds(db)
    requires '|' !in code && !IsBlank(code)
    ensures var r := SearchIgnoringCase(LowerPrefix + code + "|" + rest, db);
      && (r.Found? || r.NoMatch?)
      && (r.Found? ==> r.cliente.codigoQR == Some(code))
      && (r.NoMatch? ==> r.code == code)
      && (r.Found? <==> exists k :: k in db.clientes && db.clientes[k].codigoQR == Some(code))
  {
    LowerTagResolves(LowerPrefix + code + "|" + rest, code);
  }

  /** Text starting with the lower-case tag, a `|`-free code and `|`
      resolves, once trimmed, to that code. */
  lemma LowerTagResolves(s: string, code: string)
    requires '|' !in code && HasPrefix(s, LowerPrefix + code + "|")
    ensures !IsBlank(s) && ResolveCodeIgnoringCase(Trim(s)) == Some(code)
  {
    LowerPrefixUpper();
    TrimKeepsPrefix(s, LowerPrefix + code + "|");
    var t := Trim(s);
    PrefixParts(t, LowerPrefix, code + "|");
    LowerPrefixMatches(t);
    var u := t[|LowerPrefix|..];
    PrefixParts(u, code + "|", []);
    assert u == code + "|" + u[|code| + 1..];
    SplitConcat(code, '|', u[|code| + 1..]);
    assert !IsWhiteSpace(s[0]);
  }

  /** A text starting with `a + b` starts with `a`, and `b` follows it. */
  lemma PrefixParts(t: string, a: string, b: string)
    requires HasPrefix(t, a + b)
    ensures HasPrefix(t, a) && HasPrefix(t[|a|..], b)
    ensures t == a + t[|a|..]
  {
    assert t[..|a|] == (a + b)[..|a|];
    assert t[|a|..][..|b|] == (a + b)[|a|..];
  }
}
