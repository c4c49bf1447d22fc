/**
  The inventory's domain model (models.py): the `Producto` entity, whose
  setters validate before they assign, and the in-memory `Inventario`, a
  map from id to product kept in step with a set of lower-cased names.

  Python objects are mutable; here a product or an inventory is a value,
  and a call that mutates in place returns a `Step`: the state after the
  call and the exception it raised, if any.
 */
module Models {
  import opened Outcomes
  import opened Text

  /** A product: id, name, quantity in stock and unit price. */
  datatype Producto = Producto(id: int, nombre: string, cantidad: int, precio: real) {

    /**
      What the validating setters guarantee of every `Producto` object:
      a non-empty name with no surrounding whitespace, and a quantity and
      a price that are not negative.
     */
    predicate Valid() {
      nombre != [] && Stripped(nombre) && cantidad >= 0 && precio >= 0.0
    }
  }

  /** The values the three setters accept, taken together. */
  predicate Acceptable(nombre: string, cantidad: int, precio: real) {
    !Blank(nombre) && cantidad >= 0 && precio >= 0.0
  }

  // Validation, shared by the constructor and the setters (models.py:33-66).

  /** The name check: strip surrounding whitespace and refuse what is left if empty. */
  function CheckNombre(valor: string): (r: Result<string>)
    ensures r.Ok? <==> !Blank(valor)
    ensures r.Ok? ==> r.value == Strip(valor) && r.value != [] && Stripped(r.value)
    ensures r.Err? ==> r.error == EmptyName
  {
    var v := Strip(valor);
    if v == [] then Err(EmptyName) else Ok(v)
  }

  /** The quantity check: refuse a negative quantity. */
  function CheckCantidad(valor: int): (r: Result<int>)
    ensures r.Ok? <==> valor >= 0
    ensures r.Ok? ==> r.value == valor
    ensures r.Err? ==> r.error == NegativeQuantity
  {
    if valor < 0 then Err(NegativeQuantity) else Ok(valor)
  }

  /** The price check: refuse a negative price. */
  function CheckPrecio(valor: real): (r: Result<real>)
    ensures r.Ok? <==> valor >= 0.0
    ensures r.Ok? ==> r.value == valor
    ensures r.Err? ==> r.error == NegativePrice
  {
    if valor < 0.0 then Err(NegativePrice) else Ok(valor)
  }

  /**
    `Producto(id_, nombre, cantidad, precio)`: the constructor assigns the
    id and then runs the name, quantity and price setters in that order,
    so the first check that fails decides the error.
   */
  function NewProducto(id: int, nombre: string, cantidad: int, precio: real): (r: Result<Producto>)
    ensures r.Ok? <==> Acceptable(nombre, cantidad, precio)
    ensures r.Ok? ==> r.value.Valid()
    ensures r.Ok? ==> r.value.id == id && r.value.nombre == Strip(nombre)
                      && r.value.cantidad == cantidad && r.value.precio == precio
    ensures r == Err(EmptyName) <==> Blank(nombre)
    ensures r == Err(NegativeQuantity) <==> !Blank(nombre) && cantidad < 0
    ensures r == Err(NegativePrice) <==> !Blank(nombre) && cantidad >= 0 && precio < 0.0
  {
    var n :- CheckNombre(nombre);
    var c :- CheckCantidad(cantidad);
    var p :- CheckPrecio(precio);
    Ok(Producto(id, n, c, p))
  }

  /** The `nombre` setter: on success only the name changes, to the stripped value. */
  function SetNombre(p: Producto, valor: string): (r: Step<Producto>)
    ensures r.Raised() <==> Blank(valor)
    ensures r.Raised() ==> r.raised == Some(EmptyName) && r.state == p
    ensures !r.Raised() ==> r.state == p.(nombre := Strip(valor))
    ensures p.Valid() ==> r.state.Valid()
  {
    match CheckNombre(valor)
    case Err(e) => Step(p, Some(e))
    case Ok(v) => Step(p.(nombre := v), None)
  }

  /** The `cantidad` setter: on success only the quantity changes. */
  function SetCantidad(p: Producto, valor: int): (r: Step<Producto>)
    ensures r.Raised() <==> valor < 0
    ensures r.Raised() ==> r.raised == Some(NegativeQuantity) && r.state == p
    ensures !r.Raised() ==> r.state == p.(cantidad := valor)
    ensures p.Valid() ==> r.state.Valid()
  {
    match CheckCantidad(valor)
    case Err(e) => Step(p, Some(e))
    case Ok(v) => Step(p.(cantidad := v), None)
  }

  /** The `precio` setter: on success only the price changes. */
  function SetPrecio(p: Producto, valor: real): (r: Step<Producto>)
    ensures r.Raised() <==> valor < 0.0
    ensures r.Raised() ==> r.raised == Some(NegativePrice) && r.state == p
    ensures !r.Raised() ==> r.state == p.(precio := valor)
    ensures p.Valid() ==> r.state.Valid()
  {
    match CheckPrecio(valor)
    case Err(e) => Step(p, Some(e))
    case Ok(v) => Step(p.(precio := v), None)
  }

  /**
    Every valid product is what the constructor builds from its own
    fields: the validity predicate describes exactly the reachable objects.
   */
  lemma ValidIsConstructible(p: Producto)
    requires p.Valid()
    ensures NewProducto(p.id, p.nombre, p.cantidad, p.precio) == Ok(p)
  {
    assert !Blank(p.nombre) by {
      assert !IsSpace(p.nombre[0]);
    }
    StripStripped(p.nombre);
  }

  /**
    On a valid product each setter does what the constructor would do with
    the new value in place of the old: it refuses exactly the values the
    constructor refuses, and otherwise yields the product the constructor
    builds.
   */
  lemma SettersAgreeWithConstructor(p: Producto, nombre: string, cantidad: int, precio: real)
    requires p.Valid()
    ensures var s := SetNombre(p, nombre);
            var q := NewProducto(p.id, nombre, p.cantidad, p.precio);
            (s.Raised() <==> q.Err?) && (!s.Raised() ==> q == Ok(s.state))
    ensures var s := SetCantidad(p, cantidad);
            var q := NewProducto(p.id, p.nombre, cantidad, p.precio);
            (s.Raised() <==> q.Err?) && (!s.Raised() ==> q == Ok(s.state))
    ensures var s := SetPrecio(p, precio);
            var q := NewProducto(p.id, p.nombre, p.cantidad, precio);
            (s.Raised() <==> q.Err?) && (!s.Raised() ==> q == Ok(s.state))
  {
    assert !Blank(p.nombre) by {
      assert !IsSpace(p.nombre[0]);
    }
    StripStripped(p.nombre);
  }

  /** The ids of a list of products, in order. */
  function Ids(ps: seq<Producto>): (r: seq<int>)
    ensures |r| == |ps|
    ensures forall i :: 0 <= i < |ps| ==> r[i] == ps[i].id
  {
    seq(|ps|, i requires 0 <= i < |ps| => ps[i].id)
  }

  // ------------------------------------------------------------------
  // Inventario (models.py:73-105)
  // ------------------------------------------------------------------

  /** The lower-cased names of the products in `items`. */
  function NamesOf(items: map<int, Producto>): set<string> {
    set k | k in items :: Lower(items[k].nombre)
  }

  /** Some product in `items` has lower-cased name `n`. */
  predicate NameUsed(items: map<int, Producto>, n: string) {
    exists k :: k in items && Lower(items[k].nombre) == n
  }

  /**
    The in-memory inventory: products by id (`_items`) and the set of
    their lower-cased names (`_nombres`).
   */
  datatype Inventario = Inventario(items: map<int, Producto>, nombres: set<string>) {

    /**
      Every product is filed under its own id and is valid, and the name
      set is exactly the set of lower-cased names of the stored products.
     */
    predicate Valid() {
      && (forall k :: k in items ==> items[k].id == k && items[k].Valid())
      && nombres == NamesOf(items)
    }
  }

  /** `Inventario()`: no products, no names. */
  function EmptyInventario(): (inv: Inventario)
    ensures inv.Valid()
    ensures inv.items == map[] && inv.nombres == {}
  {
    Inventario(map[], {})
  }

  /**
    `agregar(p)`: refuses an id already present, leaving the inventory
    as it was; otherwise files `p` under its id and records its name.
   */
  function Agregar(inv: Inventario, p: Producto): (r: Step<Inventario>)
    ensures r.Raised() <==> p.id in inv.items
    ensures r.Raised() ==> r.raised == Some(DuplicateId(p.id)) && r.state == inv
    ensures !r.Raised() ==> r.state.items.Keys == inv.items.Keys + {p.id}
    ensures !r.Raised() ==> r.state.items[p.id] == p
    ensures !r.Raised() ==> forall k :: k in inv.items ==> r.state.items[k] == inv.items[k]
    ensures !r.Raised() ==> r.state.nombres == inv.nombres + {Lower(p.nombre)}
  {
    if p.id in inv.items then
      Step(inv, Some(DuplicateId(p.id)))
    else
      Step(Inventario(inv.items[p.id := p], inv.nombres + {Lower(p.nombre)}), None)
  }

  /**
    `eliminar(id_)`: refuses an absent id; otherwise removes the product
    and drops its lower-cased name unless another remaining product has it.
   */
  function Eliminar(inv: Inventario, id: int): (r: Step<Inventario>)
    ensures r.Raised() <==> id !in inv.items
    ensures r.Raised() ==> r.raised == Some(MissingId(id)) && r.state == inv
    ensures !r.Raised() ==> r.state.items.Keys == inv.items.Keys - {id}
    ensures !r.Raised() ==> forall k :: k in r.state.items ==> r.state.items[k] == inv.items[k]
    ensures !r.Raised() ==> r.state.nombres <= inv.nombres
    ensures !r.Raised() ==> inv.nombres - r.state.nombres <= {Lower(inv.items[id].nombre)}
    ensures !r.Raised() ==>
      (Lower(inv.items[id].nombre) in r.state.nombres <==>
        Lower(inv.items[id].nombre) in inv.nombres && NameUsed(r.state.items, Lower(inv.items[id].nombre)))
  {
    if id !in inv.items then
      Step(inv, Some(MissingId(id)))
    else
      var nombre := Lower(inv.items[id].nombre);
      var rest := inv.items - {id};
      var nombres := if NameUsed(rest, nombre) then inv.nombres else inv.nombres - {nombre};
      Step(Inventario(rest, nombres), None)
  }

  /**
    `actualizar_cantidad(id_, nueva)`: refuses an absent id; otherwise runs
    the quantity setter on that product, whose refusal leaves everything
    as it was.
   */
  function ActualizarCantidad(inv: Inventario, id: int, nueva: int): (r: Step<Inventario>)
    ensures r.Raised() <==> id !in inv.items || nueva < 0
    ensures id !in inv.items ==> r.raised == Some(MissingId(id))
    ensures id in inv.items && nueva < 0 ==> r.raised == Some(NegativeQuantity)
    ensures r.Raised() ==> r.state == inv
    ensures !r.Raised() ==> r.state.items.Keys == inv.items.Keys && r.state.nombres == inv.nombres
    ensures !r.Raised() ==> r.state.items[id] == inv.items[id].(cantidad := nueva)
    ensures !r.Raised() ==> forall k :: k in inv.items && k != id ==> r.state.items[k] == inv.items[k]
  {
    if id !in inv.items then
      Step(inv, Some(MissingId(id)))
    else
      var s := SetCantidad(inv.items[id], nueva);
      if s.Raised() then Step(inv, s.raised)
      else Step(inv.(items := inv.items[id := s.state]), None)
  }

  /**
    `actualizar_precio(id_, nuevo)`: refuses an absent id; otherwise runs
    the price setter on that product, whose refusal leaves everything as
    it was.
   */
  function ActualizarPrecio(inv: Inventario, id: int, nuevo: real): (r: Step<Inventario>)
    ensures r.Raised() <==> id !in inv.items || nuevo < 0.0
    ensures id !in inv.items ==> r.raised == Some(MissingId(id))
    ensures id in inv.items && nuevo < 0.0 ==> r.raised == Some(NegativePrice)
    ensures r.Raised() ==> r.state == inv
    ensures !r.Raised() ==> r.state.items.Keys == inv.items.Keys && r.state.nombres == inv.nombres
    ensures !r.Raised() ==> r.state.items[id] == inv.items[id].(precio := nuevo)
    ensures !r.Raised() ==> forall k :: k in inv.items && k != id ==> r.state.items[k] == inv.items[k]
  {
    if id !in inv.items then
      Step(inv, Some(MissingId(id)))
    else
      var s := SetPrecio(inv.items[id], nuevo);
      if s.Raised() then Step(inv, s.raised)
      else Step(inv.(items := inv.items[id := s.state]), None)
  }

  // The name set under each change to the map.

  lemma {:induction false} NamesOfInsert(items: map<int, Producto>, p: Producto)
    requires p.id !in items
    ensures NamesOf(items[p.id := p]) == NamesOf(items) + {Lower(p.nombre)}
  {
    var m := items[p.id := p];
    forall n | n in NamesOf(m) ensures n in NamesOf(items) + {Lower(p.nombre)} {
      var k :| k in m && Lower(m[k].nombre) == n;
      if k != p.id {
        assert k in items && Lower(items[k].nombre) == n;
      }
    }
    forall n | n in NamesOf(items) ensures n in NamesOf(m) {
      var k :| k in items && Lower(items[k].nombre) == n;
      assert k in m && m[k] == items[k];
    }
    assert p.id in m && Lower(m[p.id].nombre) == Lower(p.nombre);
  }

  lemma {:induction false} NamesOfRemove(items: map<int, Producto>, id: int)
    requires id in items
    ensures NameUsed(items - {id}, Lower(items[id].nombre)) ==>
      NamesOf(items - {id}) == NamesOf(items)
    ensures !NameUsed(items - {id}, Lower(items[id].nombre)) ==>
      NamesOf(items - {id}) == NamesOf(items) - {Lower(items[id].nombre)}
  {
    var rest := items - {id};
    var n0 := Lower(items[id].nombre);
    forall n | n in NamesOf(rest) ensures n in NamesOf(items) {
      var k :| k in rest && Lower(rest[k].nombre) == n;
      assert k in items && Lower(items[k].nombre) == n;
    }
    forall n | n in NamesOf(items) && n != n0 ensures n in NamesOf(rest) {
      var k :| k in items && Lower(items[k].nombre) == n;
      assert k != id;
      assert k in rest && Lower(rest[k].nombre) == n;
    }
    if NameUsed(rest, n0) {
      var k :| k in rest && Lower(rest[k].nombre) == n0;
      assert n0 in NamesOf(rest);
    } else {
      assert n0 !in NamesOf(rest);
    }
  }

  lemma {:induction false} NamesOfReplace(items: map<int, Producto>, id: int, p: Producto)
    requires id in items && p.nombre == items[id].nombre
    ensures NamesOf(items[id := p]) == NamesOf(items)
  {
    var m := items[id := p];
    forall n | n in NamesOf(m) ensures n in NamesOf(items) {
      var k :| k in m && Lower(m[k].nombre) == n;
      assert k in items && Lower(items[k].nombre) == n;
    }
    forall n | n in NamesOf(items) ensures n in NamesOf(m) {
      var k :| k in items && Lower(items[k].nombre) == n;
      assert k in m && Lower(m[k].nombre) == n;
    }
  }

  // The inventory invariant is preserved by every operation.

  lemma AgregarKeepsValid(inv: Inventario, p: Producto)
    requires inv.Valid() && p.Valid()
    ensures Agregar(inv, p).state.Valid()
  {
    if p.id !in inv.items {
      NamesOfInsert(inv.items, p);
    }
  }

  lemma EliminarKeepsValid(inv: Inventario, id: int)
    requires inv.Valid()
    ensures Eliminar(inv, id).state.Valid()
  {
    if id in inv.items {
      NamesOfRemove(inv.items, id);
    }
  }

  lemma ActualizarCantidadKeepsValid(inv: Inventario, id: int, nueva: int)
    requires inv.Valid()
    ensures ActualizarCantidad(inv, id, nueva).state.Valid()
  {
    if id in inv.items && nueva >= 0 {
      NamesOfReplace(inv.items, id, inv.items[id].(cantidad := nueva));
    }
  }

  lemma ActualizarPrecioKeepsValid(inv: Inventario, id: int, nuevo: real)
    requires inv.Valid()
    ensures ActualizarPrecio(inv, id, nuevo).state.Valid()
  {
    if id in inv.items && nuevo >= 0.0 {
      NamesOfReplace(inv.items, id, inv.items[id].(precio := nuevo));
    }
  }

  /**
    In a valid inventory the name set answers "is this name in use" for
    the stored products, and removing a product drops its name exactly
    when no remaining product shares it.
   */
  lemma EliminarDropsOnlyUnsharedName(inv: Inventario, id: int)
    requires inv.Valid() && id in inv.items
    ensures var after := Eliminar(inv, id).state;
            var n := Lower(inv.items[id].nombre);
            (n in after.nombres <==> NameUsed(after.items, n))
            && (forall m :: m != n ==> (m in after.nombres <==> m in inv.nombres))
  {
    NamesOfRemove(inv.items, id);
    var after := Eliminar(inv, id).state;
    var n := Lower(inv.items[id].nombre);
    assert n in inv.nombres by {
      assert id in inv.items && Lower(inv.items[id].nombre) == n;
    }
    if NameUsed(after.items, n) {
      var k :| k in after.items && Lower(after.items[k].nombre) == n;
      assert n in NamesOf(after.items);
    }
  }

  /**
    Removing a product just added undoes the addition: the name set comes
    back too, because a name that was already in use stays and a new one
    is dropped again.
   */
  lemma AgregarThenEliminar(inv: Inventario, p: Producto)
    requires inv.Valid() && p.id !in inv.items
    ensures Eliminar(Agregar(inv, p).state, p.id) == Step(inv, None)
  {
    var mid := Agregar(inv, p).state;
    var n := Lower(p.nombre);
    assert mid.items - {p.id} == inv.items;
    assert NameUsed(inv.items, n) <==> n in inv.nombres by {
      if NameUsed(inv.items, n) {
        var k :| k in inv.items && Lower(inv.items[k].nombre) == n;
        assert n in NamesOf(inv.items);
      }
    }
    var after := Eliminar(mid, p.id).state;
    assert after.items == inv.items;
    assert after.nombres == inv.nombres by {
      if n in inv.nombres {
        assert mid.nombres == inv.nombres;
      } else {
        assert mid.nombres - {n} == inv.nombres;
      }
    }
  }
}
