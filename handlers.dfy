/** The course registry: one ordered, in-memory list of courses that the five
    route handlers read and change in place. */
module Handlers {
  import opened Cursos
  import opened Scan

  class CursosDb {
    /** The stored courses, in insertion order. */
    var store: seq<Curso>

    /** Every stored course has a non-empty id and no two share one. */
    ghost predicate Valid()
      reads this
    {
      UniqueIds(store)
    }

    /** The list starts empty. */
    constructor ()
      ensures store == [] && Valid()
    {
      store := [];
    }

    /** GET /cursos/: the whole store, in insertion order; nothing changes. */
    method ObtenerCursos() returns (r: seq<Curso>)
      ensures r == store
    {
      r := store;
    }

    /** POST /cursos/: store the payload under the fresh id `freshId`, which
        replaces any id the client sent, at the end of the list. The id stands
        for a generated UUID rendered as text: never empty, used by no record. */
    method CrearCurso(curso: Curso, freshId: string) returns (r: Curso)
      requires freshId != "" && Fresh(store, freshId)
      modifies this
      ensures r == WithId(curso, freshId)
      ensures store == old(store) + [r]
      ensures Lookup(store, freshId) == Some(r)
      ensures forall other :: other != freshId ==> Lookup(store, other) == Lookup(old(store), other)
      ensures old(Valid()) ==> Valid()
    {
      r := WithId(curso, freshId);
      ghost var before := store;
      store := store + [r];
      LookupAppendFresh(before, r, freshId);
      forall other | other != freshId
        ensures Lookup(store, other) == Lookup(before, other)
      {
        LookupAppendOther(before, r, freshId, other);
      }
      if UniqueIds(before) {
        AppendFreshKeepsUnique(before, r, freshId);
      }
    }

    /** GET /cursos/{id}: the first course with that id, or 404; nothing changes. */
    method ObtenerCurso(cursoId: string) returns (r: Result<Curso>)
      ensures r.Err? <==> Fresh(store, cursoId)
      ensures r.Err? ==> r.error == NotFound
      ensures r.Ok? ==> FirstIndex(store, cursoId).Some?
      ensures r.Ok? ==> r.value == store[FirstIndex(store, cursoId).value]
      ensures r.Ok? ==> Lookup(store, cursoId) == Some(r.value)
    {
      var curso := Lookup(store, cursoId);
      if curso.None? {
        return Err(NotFound);
      }
      LookupAtFirstIndex(store, cursoId);
      r := Ok(curso.value);
    }

    /** PUT /cursos/{id}: replace the first course with that id by the payload,
        its id forced to the path id; 404 and nothing changes when none has it. */
    method ActualizarCurso(cursoId: string, cursoActualizado: Curso) returns (r: Result<Curso>)
      modifies this
      ensures r.Err? <==> Fresh(old(store), cursoId)
      ensures r.Err? ==> r.error == NotFound && store == old(store)
      ensures r.Ok? ==> r.value == WithId(cursoActualizado, cursoId)
      ensures r.Ok? ==> FirstIndex(old(store), cursoId).Some?
      ensures r.Ok? ==> store == old(store)[FirstIndex(old(store), cursoId).value := r.value]
      ensures r.Ok? ==> Lookup(store, cursoId) == Some(r.value)
      ensures forall other :: other != cursoId ==> Lookup(store, other) == Lookup(old(store), other)
      ensures old(Valid()) ==> Valid()
    {
      var curso := Lookup(store, cursoId);
      if curso.None? {
        return Err(NotFound);
      }
      var actualizado := WithId(cursoActualizado, cursoId);
      LookupAtFirstIndex(store, cursoId);
      ghost var i := FirstIndex(store, cursoId).value;
      IndexOfFirstMatch(store, cursoId, i);
      var index := IndexOf(store, curso.value);
      ghost var before := store;
      store := store[index := actualizado];
      LookupOverwrite(before, cursoId, i, actualizado);
      forall other | other != cursoId
        ensures Lookup(store, other) == Lookup(before, other)
      {
        LookupOverwriteOther(before, cursoId, i, actualizado, other);
      }
      if UniqueIds(before) {
        OverwriteSameIdKeepsUnique(before, i, actualizado);
      }
      r := Ok(actualizado);
    }

    /** DELETE /cursos/{id}: remove the first course with that id and return it;
        404 and nothing changes when none has it. */
    method EliminarCurso(cursoId: string) returns (r: Result<Curso>)
      modifies this
      ensures r.Err? <==> Fresh(old(store), cursoId)
      ensures r.Err? ==> r.error == NotFound && store == old(store)
      ensures r.Ok? ==> FirstIndex(old(store), cursoId).Some?
      ensures r.Ok? ==> r.value == old(store)[FirstIndex(old(store), cursoId).value]
      ensures r.Ok? ==> store == RemoveAt(old(store), FirstIndex(old(store), cursoId).value)
      ensures r.Ok? && old(Valid()) ==> Fresh(store, cursoId)
      ensures forall other :: other != cursoId ==> Lookup(store, other) == Lookup(old(store), other)
      ensures old(Valid()) ==> Valid()
    {
      var curso := Lookup(store, cursoId);
      if curso.None? {
        return Err(NotFound);
      }
      LookupAtFirstIndex(store, cursoId);
      ghost var i := FirstIndex(store, cursoId).value;
      IndexOfFirstMatch(store, cursoId, i);
      var index := IndexOf(store, curso.value);
      ghost var before := store;
      store := RemoveAt(store, index);
      forall other | other != cursoId
        ensures Lookup(store, other) == Lookup(before, other)
      {
        LookupRemoveOther(before, cursoId, i, other);
      }
      if UniqueIds(before) {
        LookupRemoveUnique(before, cursoId, i);
        RemoveKeepsUnique(before, i);
      }
      r := Ok(curso.value);
    }
  }

  /** The create, get, update, delete walk-through on a fresh registry. */
  method Scenario(k: string)
    requires k != ""
  {
    var db := new CursosDb();
    var creado := db.CrearCurso(Curso(None, "Python Basics", None, "beginner", 10), k);
    assert creado.id == Some(k) && creado.nombre == "Python Basics";
    var leido := db.ObtenerCurso(k);
    assert leido == Ok(creado);
    var nuevo := db.ActualizarCurso(k, Curso(None, "Python Advanced", None, "advanced", 20));
    assert nuevo.Ok? && nuevo.value.nombre == "Python Advanced" && nuevo.value.id == Some(k);
    var borrado := db.EliminarCurso(k);
    assert borrado == Ok(nuevo.value);
    var todos := db.ObtenerCursos();
    assert todos == [];
    var otra := db.ObtenerCurso(k);
    assert otra == Err(NotFound);
  }
}
