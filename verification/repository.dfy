/**
  The product repository (repository.py) with the database taken out:
  the `productos` table is a map from primary key to row, every SQL
  statement is a pure function on that map, and every read rebuilds its
  products through the validating constructor `Models.NewProducto`.

  The UPDATE statements write raw column values without validation, so
  an update can leave a row that no read can turn back into a product;
  the lemmas at the end of this module make that precise.
 */
module Repository {
  import opened Outcomes
  import opened Text
  import opened Models
  import opened Keys

  /** The non-key columns of one `productos` row, as stored. */
  datatype Row = Row(nombre: string, cantidad: int, precio: real)

  /** The `productos` table, keyed by its INTEGER PRIMARY KEY `id`. */
  type Table = map<int, Row>

  /** The database file: the `productos` table exists or it does not. */
  datatype Database = Database(productos: Option<Table>)

  /** The row `crear_producto` writes for `p`. */
  function RowOf(p: Producto): Row {
    Row(p.nombre, p.cantidad, p.precio)
  }

  /** A row the constructor accepts, so that reading it succeeds. */
  predicate Readable(row: Row) {
    Acceptable(row.nombre, row.cantidad, row.precio)
  }

  /** Every row of the table can be read back as a product. */
  predicate AllReadable(t: Table) {
    forall k :: k in t ==> Readable(t[k])
  }

  /** `p` is the product that reading row `row` under key `id` yields. */
  predicate ReadsAs(id: int, row: Row, p: Producto) {
    p.id == id && p.nombre == Strip(row.nombre) && p.cantidad == row.cantidad && p.precio == row.precio
  }

  // ------------------------------------------------------------------
  // Schema (repository.py:21-34)
  // ------------------------------------------------------------------

  /**
    `init_db()`: `CREATE TABLE IF NOT EXISTS productos`. Afterwards the
    table exists; a table that existed keeps its rows.
   */
  function InitDb(db: Database): (r: Database)
    ensures r.productos.Some?
    ensures db.productos.Some? ==> r == db
    ensures db.productos.None? ==> r.productos == Some(map[])
  {
    if db.productos.Some? then db else Database(Some(map[]))
  }

  /** Calling `init_db()` again, as every process start does, changes nothing. */
  lemma InitDbIdempotent(db: Database)
    ensures InitDb(InitDb(db)) == InitDb(db)
  {
  }

  // ------------------------------------------------------------------
  // Writes (repository.py:38-64)
  // ------------------------------------------------------------------

  /**
    `crear_producto(p)`: INSERT of one row under `p.id`. A taken id is a
    primary-key violation and the table stays as it was.
   */
  function CrearProducto(t: Table, p: Producto): (r: Step<Table>)
    ensures r.Raised() <==> p.id in t
    ensures r.Raised() ==> r.raised == Some(PrimaryKeyViolation(p.id)) && r.state == t
    ensures !r.Raised() ==> r.state.Keys == t.Keys + {p.id} && |r.state| == |t| + 1
    ensures !r.Raised() ==> r.state[p.id] == RowOf(p)
    ensures !r.Raised() ==> forall k :: k in t ==> r.state[k] == t[k]
  {
    if p.id in t then Step(t, Some(PrimaryKeyViolation(p.id)))
    else Step(t[p.id := RowOf(p)], None)
  }

  /** `eliminar_producto(id_)`: DELETE by id; an absent id deletes nothing. */
  function EliminarProducto(t: Table, id: int): (r: Table)
    ensures id !in r
    ensures r.Keys == t.Keys - {id}
    ensures forall k :: k in r ==> r[k] == t[k]
    ensures id !in t ==> r == t
  {
    t - {id}
  }

  /**
    `actualizar_cantidad(id_, cantidad)`: UPDATE of one column by id. The
    value is written as given; an absent id updates no row.
   */
  function ActualizarCantidad(t: Table, id: int, cantidad: int): (r: Table)
    ensures r.Keys == t.Keys
    ensures forall k :: k in t && k != id ==> r[k] == t[k]
    ensures id in t ==> r[id] == t[id].(cantidad := cantidad)
    ensures id !in t ==> r == t
  {
    if id in t then t[id := t[id].(cantidad := cantidad)] else t
  }

  /** `actualizar_precio(id_, precio)`: as `actualizar_cantidad`, for the price column. */
  function ActualizarPrecio(t: Table, id: int, precio: real): (r: Table)
    ensures r.Keys == t.Keys
    ensures forall k :: k in t && k != id ==> r[k] == t[k]
    ensures id in t ==> r[id] == t[id].(precio := precio)
    ensures id !in t ==> r == t
  {
    if id in t then t[id := t[id].(precio := precio)] else t
  }

  /**
    `actualizar_nombre(id_, nombre)`: as `actualizar_cantidad`, for the
    name column. The name is stored raw, neither stripped nor checked.
   */
  function ActualizarNombre(t: Table, id: int, nombre: string): (r: Table)
    ensures r.Keys == t.Keys
    ensures forall k :: k in t && k != id ==> r[k] == t[k]
    ensures id in t ==> r[id] == t[id].(nombre := nombre)
    ensures id !in t ==> r == t
  {
    if id in t then t[id := t[id].(nombre := nombre)] else t
  }

  // ------------------------------------------------------------------
  // Reads (repository.py:66-85)
  // ------------------------------------------------------------------

  /** Rebuilding a product from a stored row through the constructor. */
  function Hydrate(id: int, row: Row): (r: Result<Producto>)
    ensures r.Ok? <==> Readable(row)
    ensures r.Ok? ==> ReadsAs(id, row, r.value) && r.value.Valid()
    ensures r.Err? ==> r.error.IsValidation()
  {
    NewProducto(id, row.nombre, row.cantidad, row.precio)
  }

  /**
    `obtener_por_id(id_)`: `None` exactly when no row has the id; the
    product the row reads as when it has; the constructor's error when
    the row holds a value the constructor refuses.
   */
  function ObtenerPorId(t: Table, id: int): (r: Result<Option<Producto>>)
    ensures r == Ok(None) <==> id !in t
    ensures r.Err? <==> id in t && !Readable(t[id])
    ensures r.Ok? && r.value.Some? ==> id in t && ReadsAs(id, t[id], r.value.value) && r.value.value.Valid()
    ensures r.Err? ==> r.error == Hydrate(id, t[id]).error && r.error.IsValidation()
  {
    if id !in t then Ok(None)
    else
      var p :- Hydrate(id, t[id]);
      Ok(Some(p))
  }

  /** The search's WHERE clause on one stored name. */
  predicate Matches(nombre: string, patron: string) {
    Contains(Lower(nombre), Lower(Strip(patron)))
  }

  /** The keys among `ks` whose rows satisfy the search, in the order of `ks`. */
  function Matching(t: Table, ks: seq<int>, patron: string): (r: seq<int>)
    requires forall i :: 0 <= i < |ks| ==> ks[i] in t
    ensures forall k :: k in r <==> k in ks && Matches(t[k].nombre, patron)
    ensures StrictlyIncreasing(ks) ==> StrictlyIncreasing(r)
  {
    if ks == [] then []
    else
      var rest := Matching(t, ks[1..], patron);
      var hit := Matches(t[ks[0]].nombre, patron);
      MatchingStep(t, ks, patron, rest, hit);
      if hit then [ks[0]] + rest else rest
  }

  /** The inductive step of `Matching`, on its own. */
  lemma MatchingStep(t: Table, ks: seq<int>, patron: string, rest: seq<int>, hit: bool)
    requires ks != [] && forall i :: 0 <= i < |ks| ==> ks[i] in t
    requires forall k :: k in rest <==> k in ks[1..] && Matches(t[k].nombre, patron)
    requires StrictlyIncreasing(ks[1..]) ==> StrictlyIncreasing(rest)
    requires hit == Matches(t[ks[0]].nombre, patron)
    ensures var r := if hit then [ks[0]] + rest else rest;
            (forall k :: k in r <==> k in ks && Matches(t[k].nombre, patron))
            && (StrictlyIncreasing(ks) ==> StrictlyIncreasing(r))
  {
    assert ks == [ks[0]] + ks[1..];
    if StrictlyIncreasing(ks) {
      assert StrictlyIncreasing(ks[1..]);
      forall k | k in rest ensures ks[0] < k {
        var j :| 0 <= j < |ks[1..]| && ks[1..][j] == k;
        assert ks[j + 1] == k;
      }
      if hit {
        PrependIncreasing(ks[0], rest);
      }
    }
  }

  /** The position of the first row under `ids` that the constructor refuses, if any. */
  function FirstUnreadable(t: Table, ids: seq<int>): (r: Option<nat>)
    requires forall i :: 0 <= i < |ids| ==> ids[i] in t
    ensures r.None? <==> forall i :: 0 <= i < |ids| ==> Readable(t[ids[i]])
    ensures r.Some? ==> r.value < |ids| && !Readable(t[ids[r.value]])
                        && forall i :: 0 <= i < r.value ==> Readable(t[ids[i]])
  {
    if ids == [] then None
    else if !Readable(t[ids[0]]) then Some(0)
    else
      match FirstUnreadable(t, ids[1..])
      case None =>
        assert forall i :: 1 <= i < |ids| ==> ids[i] == ids[1..][i - 1];
        None
      case Some(j) =>
        assert forall i :: 1 <= i < |ids| ==> ids[i] == ids[1..][i - 1];
        Some(j + 1)
  }

  /**
    Rebuilding the rows under `ids`, in order, as the list comprehension
    does: the first row the constructor refuses raises its error, and
    otherwise every row becomes a product.
   */
  function HydrateAll(t: Table, ids: seq<int>): (r: Result<seq<Producto>>)
    requires forall i :: 0 <= i < |ids| ==> ids[i] in t
    ensures r.Ok? <==> forall i :: 0 <= i < |ids| ==> Readable(t[ids[i]])
    ensures r.Ok? ==> |r.value| == |ids|
    ensures r.Ok? ==> forall i :: 0 <= i < |ids| ==> Hydrate(ids[i], t[ids[i]]) == Ok(r.value[i])
    ensures r.Err? ==> r.error.IsValidation()
  {
    match FirstUnreadable(t, ids)
    case Some(i) => Err(Hydrate(ids[i], t[ids[i]]).error)
    case None => Ok(seq(|ids|, i requires 0 <= i < |ids| => Hydrate(ids[i], t[ids[i]]).value))
  }

  /** Readability of the rows under `ks`, by position and by membership. */
  lemma ReadableOver(t: Table, ks: seq<int>)
    requires forall i :: 0 <= i < |ks| ==> ks[i] in t
    ensures (forall i :: 0 <= i < |ks| ==> Readable(t[ks[i]])) <==> (forall k :: k in ks ==> Readable(t[k]))
  {
    if forall i :: 0 <= i < |ks| ==> Readable(t[ks[i]]) {
      forall k | k in ks ensures Readable(t[k]) {
        var i :| 0 <= i < |ks| && ks[i] == k;
      }
    } else {
      var i :| 0 <= i < |ks| && !Readable(t[ks[i]]);
      var k := ks[i];
      assert k in ks && !Readable(t[k]);
    }
  }

  /** What a successful `HydrateAll` returns, product by product. */
  lemma HydratedIds(t: Table, ids: seq<int>, ps: seq<Producto>)
    requires forall i :: 0 <= i < |ids| ==> ids[i] in t
    requires |ps| == |ids| && forall i :: 0 <= i < |ids| ==> Hydrate(ids[i], t[ids[i]]) == Ok(ps[i])
    ensures Ids(ps) == ids
    ensures forall i :: 0 <= i < |ps| ==> ps[i].id in t && ReadsAs(ps[i].id, t[ps[i].id], ps[i])
  {
  }

  /**
    Reading back the rows under `ks`: the products come out in the order
    of `ks`, each one its row read back, unless some row is unreadable.
   */
  function Fetch(t: Table, ks: seq<int>): (r: Result<seq<Producto>>)
    requires forall i :: 0 <= i < |ks| ==> ks[i] in t
    ensures r.Ok? <==> forall k :: k in ks ==> Readable(t[k])
    ensures r.Ok? ==> Ids(r.value) == ks
    ensures r.Ok? ==> forall i :: 0 <= i < |r.value| ==>
                        r.value[i].id in t && ReadsAs(r.value[i].id, t[r.value[i].id], r.value[i])
    ensures r.Err? ==> r.error.IsValidation()
  {
    ReadableOver(t, ks);
    var r := HydrateAll(t, ks);
    if r.Ok? then HydratedIds(t, ks, r.value); r else r
  }

  /**
    `listar_todos()`: every row, once each, in ascending id order. Fails
    when any row is unreadable.
   */
  function ListarTodos(t: Table): (r: Result<seq<Producto>>)
    ensures r.Ok? <==> AllReadable(t)
    ensures r.Ok? ==> StrictlyIncreasing(Ids(r.value)) && |r.value| == |t|
    ensures r.Ok? ==> forall k :: k in t <==> k in Ids(r.value)
    ensures r.Ok? ==> forall i :: 0 <= i < |r.value| ==>
                        r.value[i].id in t && ReadsAs(r.value[i].id, t[r.value[i].id], r.value[i])
    ensures r.Err? ==> r.error.IsValidation()
  {
    Fetch(t, SortedKeys(t.Keys))
  }

  /**
    `buscar_por_nombre(patron)`: the rows whose lower-cased name contains
    the stripped, lower-cased pattern, in ascending id order. Only the
    matching rows are rebuilt, so only an unreadable matching row fails it.
   */
  function BuscarPorNombre(t: Table, patron: string): (r: Result<seq<Producto>>)
    ensures r.Ok? <==> forall k :: k in t && Matches(t[k].nombre, patron) ==> Readable(t[k])
    ensures r.Ok? ==> StrictlyIncreasing(Ids(r.value))
    ensures r.Ok? ==> forall k :: k in Ids(r.value) <==> k in t && Matches(t[k].nombre, patron)
    ensures r.Ok? ==> forall i :: 0 <= i < |r.value| ==>
                        r.value[i].id in t && ReadsAs(r.value[i].id, t[r.value[i].id], r.value[i])
    ensures r.Err? ==> r.error.IsValidation()
  {
    Fetch(t, Matching(t, SortedKeys(t.Keys), patron))
  }

  // ------------------------------------------------------------------
  // Properties across operations
  // ------------------------------------------------------------------

  /** A valid product stored under a fresh id reads back unchanged. */
  lemma CrearThenObtener(t: Table, p: Producto)
    requires p.Valid() && p.id !in t
    ensures !CrearProducto(t, p).Raised()
    ensures ObtenerPorId(CrearProducto(t, p).state, p.id) == Ok(Some(p))
  {
    StripStripped(p.nombre);
    assert !Blank(p.nombre) by {
      assert !IsSpace(p.nombre[0]);
    }
  }

  /** After a delete the id reads as absent, whether or not it was present. */
  lemma EliminarThenObtener(t: Table, id: int)
    ensures ObtenerPorId(EliminarProducto(t, id), id) == Ok(None)
  {
  }

  /** A blank pattern is wrapped as `%%`, which matches every row. */
  lemma {:induction false} MatchingAll(t: Table, ks: seq<int>, patron: string)
    requires forall i :: 0 <= i < |ks| ==> ks[i] in t
    requires Blank(patron)
    ensures Matching(t, ks, patron) == ks
  {
    if ks != [] {
      assert ks[0] in t;
      MatchingAll(t, ks[1..], patron);
      assert Lower(Strip(patron)) == "";
      ContainsEmpty(Lower(t[ks[0]].nombre));
      assert ks == [ks[0]] + ks[1..];
    }
  }

  /** Searching for an empty or whitespace-only pattern is listing everything. */
  lemma BuscarBlankIsListar(t: Table, patron: string)
    requires Blank(patron)
    ensures BuscarPorNombre(t, patron) == ListarTodos(t)
  {
    MatchingAll(t, SortedKeys(t.Keys), patron);
  }

  /**
    An update whose value the constructor accepts, on a readable row,
    reads back with that one field changed.
   */
  lemma ActualizarCantidadThenObtener(t: Table, id: int, cantidad: int)
    requires id in t && Readable(t[id]) && cantidad >= 0
    ensures var r := ObtenerPorId(ActualizarCantidad(t, id, cantidad), id);
            r.Ok? && r.value.Some? && r.value.value == Hydrate(id, t[id]).value.(cantidad := cantidad)
  {
  }

  lemma ActualizarPrecioThenObtener(t: Table, id: int, precio: real)
    requires id in t && Readable(t[id]) && precio >= 0.0
    ensures var r := ObtenerPorId(ActualizarPrecio(t, id, precio), id);
            r.Ok? && r.value.Some? && r.value.value == Hydrate(id, t[id]).value.(precio := precio)
  {
  }

  lemma ActualizarNombreThenObtener(t: Table, id: int, nombre: string)
    requires id in t && Readable(t[id]) && !Blank(nombre)
    ensures var r := ObtenerPorId(ActualizarNombre(t, id, nombre), id);
            r.Ok? && r.value.Some? && r.value.value == Hydrate(id, t[id]).value.(nombre := Strip(nombre))
  {
  }

  /**
    The table stays fully readable under inserts of valid products and
    deletes, and under an update exactly when the update misses or writes
    a value the constructor accepts. A single unvalidated update is thus
    enough to make `listar_todos` fail.
   */
  lemma CrearKeepsReadable(t: Table, p: Producto)
    requires AllReadable(t) && p.Valid()
    ensures AllReadable(CrearProducto(t, p).state)
  {
    assert !Blank(p.nombre) by {
      assert !IsSpace(p.nombre[0]);
    }
  }

  lemma EliminarKeepsReadable(t: Table, id: int)
    requires AllReadable(t)
    ensures AllReadable(EliminarProducto(t, id))
  {
  }

  lemma ActualizarCantidadReadable(t: Table, id: int, cantidad: int)
    requires AllReadable(t)
    ensures AllReadable(ActualizarCantidad(t, id, cantidad)) <==> id !in t || cantidad >= 0
    ensures ListarTodos(ActualizarCantidad(t, id, cantidad)).Ok? <==> id !in t || cantidad >= 0
  {
    var u := ActualizarCantidad(t, id, cantidad);
    if id in t && cantidad < 0 {
      assert !Readable(u[id]);
    }
  }

  lemma ActualizarPrecioReadable(t: Table, id: int, precio: real)
    requires AllReadable(t)
    ensures AllReadable(ActualizarPrecio(t, id, precio)) <==> id !in t || precio >= 0.0
    ensures ListarTodos(ActualizarPrecio(t, id, precio)).Ok? <==> id !in t || precio >= 0.0
  {
    var u := ActualizarPrecio(t, id, precio);
    if id in t && precio < 0.0 {
      assert !Readable(u[id]);
    }
  }

  lemma ActualizarNombreReadable(t: Table, id: int, nombre: string)
    requires AllReadable(t)
    ensures AllReadable(ActualizarNombre(t, id, nombre)) <==> id !in t || !Blank(nombre)
    ensures ListarTodos(ActualizarNombre(t, id, nombre)).Ok? <==> id !in t || !Blank(nombre)
  {
    var u := ActualizarNombre(t, id, nombre);
    if id in t && Blank(nombre) {
      assert !Readable(u[id]);
    }
  }

  // ------------------------------------------------------------------
  // Two scenarios
  // ------------------------------------------------------------------

  /**
    Insert product 1 "Widget" (10 at 2.5) into an empty table; the listing
    is exactly that product; setting the quantity to 5 keeps the price;
    after the delete the id reads as absent.
   */
  lemma WidgetScenario()
    ensures var p := Producto(1, "Widget", 10, 2.5);
            var s := CrearProducto(map[], p);
            && !s.Raised()
            && ListarTodos(s.state) == Ok([p])
            && ObtenerPorId(ActualizarCantidad(s.state, 1, 5), 1) == Ok(Some(p.(cantidad := 5)))
            && ObtenerPorId(EliminarProducto(ActualizarCantidad(s.state, 1, 5), 1), 1) == Ok(None)
  {
    var p := Producto(1, "Widget", 10, 2.5);
    var t := CrearProducto(map[], p).state;
    assert p.Valid();
    StripStripped(p.nombre);
    CrearKeepsReadable(map[], p);
    var ps := ListarTodos(t).value;
    assert 1 in Ids(ps);
    assert |ps| == 1 && ps[0].id == 1;
    assert ps == [p];
    ActualizarCantidadThenObtener(t, 1, 5);
    CrearThenObtener(map[], p);
  }

  /** The pattern "apple" is already stripped and lower-case. */
  lemma ApplePattern()
    ensures Lower(Strip("apple")) == "apple"
  {
    StripStripped("apple");
    assert Lower("apple") == "apple";
  }

  /** The name tests behind the search for "apple". */
  lemma AppleMatches()
    ensures Matches("Apple", "apple") && Matches("Pineapple", "apple") && !Matches("Banana", "apple")
  {
    ApplePattern();
    AppleMatchesApple();
    AppleMatchesPineapple();
    AppleMissesBanana();
  }

  lemma AppleMatchesApple()
    ensures Contains(Lower("Apple"), "apple")
  {
    assert Lower("Apple") == "apple";
    assert OccursAt("apple", "apple", 0);
  }

  lemma AppleMatchesPineapple()
    ensures Contains(Lower("Pineapple"), "apple")
  {
    assert Lower("Pineapple") == "pineapple";
    assert OccursAt("pineapple", "apple", 4);
  }

  lemma AppleMissesBanana()
    ensures !Contains(Lower("Banana"), "apple")
  {
    assert Lower("Banana") == "banana";
    assert "banana"[0..5][0] != "apple"[0];
    assert "banana"[1..6][1] != "apple"[1];
  }

  /** An increasing list holding exactly the keys `a < b` is `[a, b]`. */
  lemma TwoKeysInOrder(ids: seq<int>, a: int, b: int)
    requires StrictlyIncreasing(ids) && a < b
    requires forall k :: k in ids <==> k == a || k == b
    ensures ids == [a, b]
  {
    IncreasingUnique(ids, [a, b]);
  }

  /** The sample table for the search scenario. */
  predicate IsFruitTable(t: Table) {
    t == map[1 := Row("Apple", 1, 1.0), 2 := Row("Pineapple", 1, 1.0), 3 := Row("Banana", 1, 1.0)]
  }

  /** Which rows of the sample table the search for "apple" selects. */
  lemma FruitHits(t: Table)
    requires IsFruitTable(t)
    ensures forall k :: k in t && Matches(t[k].nombre, "apple") <==> k == 1 || k == 2
  {
    AppleMatches();
    assert t.Keys == {1, 2, 3};
    assert t[1].nombre == "Apple" && t[2].nombre == "Pineapple" && t[3].nombre == "Banana";
  }

  lemma FruitReadable(t: Table)
    requires IsFruitTable(t)
    ensures AllReadable(t)
  {
    assert !IsSpace("Apple"[0]) && !IsSpace("Pineapple"[0]) && !IsSpace("Banana"[0]);
  }

  /** A search whose selected rows are readable lists exactly the keys `a < b`. */
  lemma SearchOfTwo(t: Table, patron: string, a: int, b: int)
    requires a < b && AllReadable(t)
    requires forall k :: k in t && Matches(t[k].nombre, patron) <==> k == a || k == b
    ensures BuscarPorNombre(t, patron).Ok?
    ensures Ids(BuscarPorNombre(t, patron).value) == [a, b]
  {
    var r := BuscarPorNombre(t, patron);
    TwoKeysInOrder(Ids(r.value), a, b);
  }

  /**
    With "Apple", "Pineapple" and "Banana" under ids 1, 2 and 3, searching
    for "apple" succeeds and yields the products with ids 1 and 2, in id
    order.
   */
  lemma FruitSearchIds(t: Table)
    requires IsFruitTable(t)
    ensures BuscarPorNombre(t, "apple").Ok?
    ensures Ids(BuscarPorNombre(t, "apple").value) == [1, 2]
  {
    FruitHits(t);
    FruitReadable(t);
    SearchOfTwo(t, "apple", 1, 2);
  }
}
