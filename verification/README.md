# Inventory core: `Producto`, `Inventario` and the product repository

A Dafny model of the sequential logic of a small inventory CRUD
application. There are two pieces:

- `models.py` holds the `Producto` entity and the in-memory `Inventario`.
  The entity's setters validate before they assign. `Inventario` keeps a
  dict from id to product and a set of lower-cased names.
- `repository.py` holds the SQLite-backed product repository. Here it is a
  set of pure operations on the `productos` table.

Modules:

- `Outcomes` (outcomes.dfy) defines `Option`, `Result` and `Error`, with
  one `Error` constructor per exception the code raises. It also defines
  `Step`, the state after a mutating call together with the exception it
  raised, if any. A Python method that mutates in place and may raise
  becomes a function returning a `Step`. "A failed call changes nothing"
  is then stated as `state == prior`.
- `Text` (text.dfy) models the string operations the code relies on:
  - Python's argument-less `str.strip()`;
  - lower-casing;
  - the substring test that `LIKE '%pattern%'` performs.
- `Models` (models.py) contains:
  - `Producto`, with its validity predicate and its smart constructor
    `NewProducto`;
  - the three validating setters;
  - `Inventario`, a map plus a name set, with its invariant and the four
    operations `agregar`, `eliminar`, `actualizar_cantidad` and
    `actualizar_precio`.
- `Keys` (keys.dfy) models ascending key order, the order `ORDER BY id`
  returns.
- `Repository` (repository.py) contains:
  - the table as `map<int, Row>`;
  - `init_db`;
  - the INSERT, DELETE and UPDATE statements as pure functions with frame
    conditions;
  - the three reads. Each read rebuilds its products through
    `NewProducto`, as the Python code does.

The UPDATE statements write raw values without validation, while every
read goes through the validating constructor. So one update with a
negative quantity, a negative price or a blank name makes every later
read of that row fail. The `Actualizar*Readable` lemmas state exactly
when this happens.

## Model

| member | source | states |
|---|---|---|
| `Text.Strip` | models.py:35 | `strip()` yields the part of the input framed by whitespace on both sides, with no whitespace at either end; the result is empty exactly when the input is all whitespace |
| `Text.StripIdempotent` | models.py:35 | stripping twice is stripping once |
| `Text.Contains` | repository.py:74-77 | true exactly when the pattern occurs at some offset of the string (`LIKE '%p%'`) |
| `Text.Lower` | models.py:84-91 | lower-casing keeps the length and maps each character to its lower-case form (ASCII letters only), as `str.lower()` and SQLite's `LOWER` do on ASCII names |
| `Text.LowerIdempotent` | models.py:90-91 | lower-casing an already lower-cased name changes nothing, so the lower-cased names compared by `eliminar` are stable keys |
| `Models.CheckNombre` | models.py:34-38 | the name check accepts exactly the non-blank inputs and yields the stripped, non-empty value; otherwise it raises EmptyName |
| `Models.CheckCantidad` | models.py:45-52 | the quantity check accepts exactly the non-negative quantities and keeps the value; otherwise it raises NegativeQuantity |
| `Models.CheckPrecio` | models.py:59-66 | the price check accepts exactly the non-negative prices and keeps the value; otherwise it raises NegativePrice |
| `Models.NewProducto` | models.py:19-23 | the constructor succeeds exactly on acceptable values and yields a valid product with the given id, the stripped name, and the given quantity and price; the error is the first failing check in name, quantity, price order |
| `Models.SetNombre` | models.py:33-38 | raises EmptyName exactly on a blank value and then leaves the product unchanged; otherwise only the name changes, to the stripped value; validity is preserved |
| `Models.SetCantidad` | models.py:44-52 | raises NegativeQuantity exactly on a negative value and then leaves the product unchanged; otherwise only the quantity changes; validity is preserved |
| `Models.SetPrecio` | models.py:58-66 | raises NegativePrice exactly on a negative value and then leaves the product unchanged; otherwise only the price changes; validity is preserved |
| `Models.ValidIsConstructible` | models.py:19-23 | every valid product is what the constructor builds from its own fields |
| `Models.SettersAgreeWithConstructor` | models.py:19-66 | on a valid product each setter refuses exactly what the constructor refuses and otherwise yields what the constructor would build with the new value |
| `Models.EmptyInventario` | models.py:76-78 | a new inventory has no items and no names and satisfies the invariant |
| `Models.Agregar` | models.py:80-84 | raises DuplicateId exactly when the id is present and then changes nothing; otherwise adds the product under its id, keeps every other entry, and adds its lower-cased name |
| `Models.Eliminar` | models.py:86-92 | raises MissingId exactly when the id is absent and then changes nothing; otherwise removes that entry only; the removed product's name is the only one that can leave the name set, and it stays exactly when another remaining product has it |
| `Models.ActualizarCantidad` | models.py:94-97 | raises MissingId on an absent id and NegativeQuantity on a negative value, changing nothing; otherwise only that item's quantity changes and the keys and names stay |
| `Models.ActualizarPrecio` | models.py:99-102 | raises MissingId on an absent id and NegativePrice on a negative value, changing nothing; otherwise only that item's price changes and the keys and names stay |
| `Models.NamesOfInsert` | models.py:83-84 | inserting a product under a fresh id adds exactly its lower-cased name to the derived name set |
| `Models.NamesOfRemove` | models.py:87-92 | removing a product keeps the derived name set when its name is still used, and otherwise removes exactly that name |
| `Models.NamesOfReplace` | models.py:97 | replacing a product by one with the same name keeps the derived name set |
| `Models.AgregarKeepsValid` | models.py:80-84 | `agregar` preserves the invariant: entries filed under their own ids, products valid, and name set equal to the lower-cased names |
| `Models.EliminarKeepsValid` | models.py:86-92 | `eliminar` preserves the invariant |
| `Models.ActualizarCantidadKeepsValid` | models.py:94-97 | `actualizar_cantidad` preserves the invariant |
| `Models.ActualizarPrecioKeepsValid` | models.py:99-102 | `actualizar_precio` preserves the invariant |
| `Models.EliminarDropsOnlyUnsharedName` | models.py:90-92 | after `eliminar` the removed name is in the set exactly when a remaining product has it, and no other name changes |
| `Models.AgregarThenEliminar` | models.py:80-92 | removing a product just added restores the inventory exactly, name set included |
| `Keys.SortedKeys` | repository.py:84 | the keys in strictly ascending order, each exactly once |
| `Keys.IncreasingUnique` | repository.py:77 | two strictly ascending lists with the same members are equal, so `ORDER BY id` determines the result |
| `Repository.InitDb` | repository.py:21-34 | afterwards the table exists; an existing table is kept as it was; a missing one is created empty |
| `Repository.InitDbIdempotent` | repository.py:21-34 | running `init_db` a second time changes nothing (`CREATE TABLE IF NOT EXISTS`) |
| `Repository.CrearProducto` | repository.py:38-44 | raises PrimaryKeyViolation exactly when the id is taken and then leaves the table unchanged; otherwise adds exactly one row, holding the product's fields, and keeps every other row |
| `Repository.EliminarProducto` | repository.py:46-49 | the id is absent afterwards, every other row stays, and an absent id leaves the table unchanged |
| `Repository.ActualizarCantidad` | repository.py:51-54 | only the quantity column of the row with that id changes, to the value as given; other rows and the key set stay; an absent id changes nothing |
| `Repository.ActualizarPrecio` | repository.py:56-59 | only the price column of the row with that id changes; an absent id changes nothing |
| `Repository.ActualizarNombre` | repository.py:61-64 | only the name column of the row with that id changes, stored raw; an absent id changes nothing |
| `Repository.Hydrate` | repository.py:71 | rebuilding a row succeeds exactly when the constructor accepts its values, and yields a valid product reading as that row |
| `Repository.ObtenerPorId` | repository.py:66-71 | `None` exactly when no row has the id; the constructor's error exactly when the row is unreadable; otherwise the row read back |
| `Repository.Matching` | repository.py:77 | the keys whose lower-cased names contain the lower-cased, stripped pattern, in an order that stays ascending |
| `Repository.FirstUnreadable` | repository.py:80 | the position of the first row the constructor refuses, or none exactly when all are readable |
| `Repository.HydrateAll` | repository.py:80 | the list comprehension succeeds exactly when every row is readable and then rebuilds each row in order; otherwise it fails with a validation error |
| `Repository.Fetch` | repository.py:80-85 | reading back the rows under a key list yields products with exactly those ids, in that order, each its row read back, unless some row is unreadable |
| `Repository.ListarTodos` | repository.py:82-85 | succeeds exactly when every row is readable; then every row appears exactly once, in strictly ascending id order, as its row read back |
| `Repository.BuscarPorNombre` | repository.py:73-80 | succeeds exactly when every matching row is readable; then returns exactly the rows whose lower-cased name contains the lower-cased, stripped pattern, in strictly ascending id order |
| `Repository.CrearThenObtener` | repository.py:38-71 | after inserting a valid product under a fresh id, looking it up returns that same product |
| `Repository.EliminarThenObtener` | repository.py:46-71 | after a delete the id reads as absent |
| `Repository.MatchingAll` | repository.py:74-77 | a blank pattern (`%%`) selects every key |
| `Repository.BuscarBlankIsListar` | repository.py:73-85 | searching for an empty or whitespace-only pattern gives the same result as listing everything |
| `Repository.ActualizarCantidadThenObtener` | repository.py:51-71 | an accepted quantity written to a readable row reads back with only the quantity changed |
| `Repository.ActualizarPrecioThenObtener` | repository.py:56-71 | an accepted price written to a readable row reads back with only the price changed |
| `Repository.ActualizarNombreThenObtener` | repository.py:61-71 | a non-blank name written to a readable row reads back stripped, with only the name changed |
| `Repository.CrearKeepsReadable` | repository.py:38-44 | inserting a valid product keeps every row readable |
| `Repository.EliminarKeepsReadable` | repository.py:46-49 | deleting keeps every row readable |
| `Repository.ActualizarCantidadReadable` | repository.py:51-54 | on a readable table, the update keeps every row readable, and `listar_todos` succeeding, exactly when the id is absent or the quantity is not negative |
| `Repository.ActualizarPrecioReadable` | repository.py:56-59 | the same for the price: it breaks reads exactly when it writes a negative price to an existing row |
| `Repository.ActualizarNombreReadable` | repository.py:61-64 | the same for the name: it breaks reads exactly when it writes a blank name to an existing row |
| `Repository.WidgetScenario` | repository.py:38-85 | a scenario: insert, list, update the quantity, look up, delete, look up again |
| `Repository.AppleMatches` | repository.py:77 | "Apple" and "Pineapple" match the pattern "apple" and "Banana" does not |
| `Repository.SearchOfTwo` | repository.py:73-80 | on a table whose rows are all readable, a search whose matches are exactly the keys a < b returns their products with ids [a, b] |
| `Repository.FruitSearchIds` | repository.py:73-80 | a scenario: searching "apple" over Apple, Pineapple and Banana returns ids 1 and 2, in that order |

## Left out

- `app.py` is left out. It holds Flask routes, templates and form parsing, and its only logic is a sequence of independent repository calls.
- `test_db.py` is left out. It is a MySQL connectivity smoke test.
- Connection handling, `commit` and the database path (`get_connection`, `DB_PATH`) are I/O. The table is an abstract value instead.
- The operations work on an existing table. A statement issued before `init_db` has created the table fails in SQLite, and the model does not cover that case.
- Python's `int(...)` and `float(...)` coercions in the setters are left out. Quantity is an `int` and price a `real`, so the "must be an integer" and "must be numeric" errors cannot arise. Floating-point behaviour, NaN included, is out of scope.
- `Repository.CrearProducto` and the other statements do not raise sqlite3's `OverflowError` for integers outside [-2^63, 2^63). SQLite stores 64-bit integers, and binding a larger Python int fails: an id in `crear_producto`, `eliminar_producto`, `actualizar_*` and `obtener_por_id`, or a quantity in `crear_producto` and `actualizar_cantidad`. The model's ids and quantities are unbounded, so it stores or looks up such values instead of raising.
- `buscar_por_nombre(None)` is left out as a separate case. `patron or ''` turns `None` into the empty pattern, which `Repository.BuscarBlankIsListar` covers.
- A `None` id and SQLite's rowid assignment are left out. Ids are caller-supplied integers.
- `None` as a name (`valor or ""`) is left out. Dafny strings cannot be `None`, and `None` behaves as the empty string anyway.
- `Text.IsSpace` covers the ASCII whitespace that `str.isspace()` accepts. Non-ASCII whitespace, which `strip()` also removes, is not modelled.
- `Text.LowerChar` lower-cases ASCII letters only. This matches SQLite's `LOWER`. It does not model Python's Unicode `str.lower()`, which `Inventario` uses.
- `LIKE` wildcards are left out. `%` and `_` inside a user pattern act as wildcards in SQLite, but the model treats the pattern as a literal substring.
- `Inventario.buscar_por_nombre` has no contract in the model, because its body is `pass`.
- `Usuario` and `get_id` are left out. They have no logic beyond storing fields and converting the id to a string.
- `__repr__` formatting is left out.
- Object aliasing is left out. A product is a value, so a `Producto` object shared between an `Inventario` and other code is not modelled.
