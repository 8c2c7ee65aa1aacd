# Course registry (cursos) — Dafny model

The service keeps one process-local, ordered list of course records
(`cursos_db`) and exposes five route handlers over it: list all courses, create
a course under a freshly generated id, and get, update or delete a course by
id. A by-id handler that finds no course with the requested id raises HTTP 404
with the detail "Curso no encontrado".

The model has three modules:

- `Cursos` (`cursos.dfy`): the `Curso` record (`id`, `nombre`, `descripcion`,
  `nivel`, `duracion`; `id` and `descripcion` optional), the 404 error value
  `NotFound`, a `Result` type for the by-id handlers, and the registry's
  invariant `UniqueIds` (every stored course has a non-empty id, no two share
  one).
- `Scan` (`scan.dfy`): the read-only scans as recursive functions — `Lookup`,
  the first-match generator scan with a `None` default that every by-id handler
  starts with; `FirstIndex`, the position of that match; `IndexOf`, Python's
  `list.index`, which matches by field equality — and lemmas on what appending,
  overwriting one position and removing one position do to lookups and to the
  invariant.
- `Handlers` (`handlers.dfy`): class `CursosDb` whose field `store: seq<Curso>`
  is the list, updated in place by the three mutating handler methods
  (`CrearCurso`, `ActualizarCurso`, `EliminarCurso`), plus a walk-through
  (`Scenario`) of create, get, update, delete and list on a fresh registry.

`list.index(curso)` and `list.remove(curso)` compare records by value, not by
identity. `Scan.IndexOfFirstMatch` proves that, applied to the record the id
scan found, both land on the position of the first id match, so update and
delete act on that position.

The update handler returns the new record, the payload with the path id
(main.py:41, 44).

## Model

| member | source | states |
|---|---|---|
| Scan.Lookup | main.py:31 | the generator scan returns a stored record carrying the requested id, and returns nothing exactly when no stored record carries it |
| Scan.FirstIndex | main.py:31 | the position found holds the requested id and no earlier position does; there is none exactly when no record carries the id |
| Scan.LookupAtFirstIndex | main.py:31 | the record the scan returns is the one at the first matching position (and none when there is no match) |
| Scan.IndexOf | main.py:42 | `list.index` gives a position holding a record equal to the argument in every field, with no equal record before it |
| Scan.IndexOfFirstMatch | main.py:42 | value matching on the record found by the id scan gives exactly the first id-match position, which is where update writes and delete removes |
| Scan.RemoveAt | main.py:51 | removal at a position shortens the list by one, keeps every earlier record in place and shifts every later one down by one, in order |
| Scan.LookupAppendFresh | main.py:25-26 | after appending a record under a fresh id, looking that id up finds that record |
| Scan.LookupAppendOther | main.py:26 | appending a record changes no lookup of any other id |
| Scan.LookupOverwrite | main.py:41-43 | after overwriting the first match with the payload carrying the path id, looking that id up finds the payload |
| Scan.LookupOverwriteOther | main.py:43 | overwriting a record of one id with a record of the same id changes no lookup of any other id |
| Scan.LookupRemoveOther | main.py:51 | removing a record with one id changes no lookup of any other id |
| Scan.LookupRemoveUnique | main.py:51 | when ids are unique, after removing the first match no record carries that id any more |
| Scan.AppendFreshKeepsUnique | main.py:25-26 | appending a record under a fresh, non-empty id keeps every id present, non-empty and pairwise distinct |
| Scan.OverwriteSameIdKeepsUnique | main.py:41-43 | replacing a record with one carrying the same id keeps ids present, non-empty and distinct |
| Scan.RemoveKeepsUnique | main.py:51 | removing a record keeps ids present, non-empty and distinct |
| Handlers.CursosDb.constructor | main.py:17 | the store starts empty, which satisfies the invariant |
| Handlers.CursosDb.ObtenerCursos | main.py:19-21 | returns the store exactly, in insertion order, and changes nothing |
| Handlers.CursosDb.CrearCurso | main.py:23-27 | the result is the payload with its id replaced by the fresh id and every other field as submitted; it is appended at the end so earlier records are unchanged; looking up the fresh id finds it; lookups of other ids are unchanged; the invariant is kept |
| Handlers.CursosDb.ObtenerCurso | main.py:29-34 | 404 "Curso no encontrado" exactly when no record has the id, otherwise the record at the first match, which is what a lookup of the id finds; the store is never changed |
| Handlers.CursosDb.ActualizarCurso | main.py:36-44 | 404 with the store unchanged exactly when no record has the id; otherwise the payload with the path id is written at the first match, every other position and the length are unchanged, it is returned, a lookup of the id then finds it, other lookups are unchanged and the invariant is kept |
| Handlers.CursosDb.EliminarCurso | main.py:46-52 | 404 with the store unchanged exactly when no record has the id; otherwise the record at the first match is returned and removed, the others keep their order, other lookups are unchanged, the invariant is kept, and with unique ids none with that id is left |

## Left out

- The web framework: application setup, route decorators and response
  serialisation (main.py:5-8 and the decorator lines) are not modelled; each
  handler is a method of `CursosDb`.
- Request-body validation and its 422 response: a `Curso` value is taken as
  already valid.
- `uuid.uuid4()`: the generated id is a parameter of `CrearCurso`, required to
  be non-empty and unused in the store; its 36-character format, its randomness
  and the negligible collision chance are not modelled.
- `HTTPException`: raising it is modelled as returning `Err(NotFound)`, whose
  status is 404 and detail "Curso no encontrado".
- Object identity: records are values, so the aliasing between the object
  `crear_curso` returns and the one it stores, and the in-place assignment to
  the payload's `id` field, are modelled as building a new value.
- Concurrent requests: the source has no concurrency control; each handler is
  one atomic step here.
- Handlers.CursosDb.EliminarCurso: "no record with that id remains" is stated
  only when ids were unique beforehand; with duplicate ids the code removes
  only the first one and a later duplicate stays, which the model also does.
