/** The course record held by the registry, and the values its handlers return. */
module Cursos {

  datatype Option<+T> = None | Some(value: T)

  /** A course. `id` is optional because a submitted payload may leave it out;
      the registry always fills it in before storing the record. */
  datatype Curso = Curso(
    id: Option<string>,
    nombre: string,
    descripcion: Option<string>,
    nivel: string,
    duracion: int)

  /** The HTTP error a handler raises: a status code and a detail message. */
  datatype HttpError = HttpError(status: int, detail: string)

  /** The only domain error: no stored course carries the requested id. */
  const NotFound: HttpError := HttpError(404, "Curso no encontrado")

  /** What a by-id handler answers: the course, or the error it raised. */
  datatype Result<+T> = Ok(value: T) | Err(error: HttpError)

  /** The record with its id replaced by `k`, every other field as given. */
  function WithId(c: Curso, k: string): (r: Curso)
    ensures r.id == Some(k)
    ensures r.nombre == c.nombre && r.descripcion == c.descripcion
    ensures r.nivel == c.nivel && r.duracion == c.duracion
  {
    c.(id := Some(k))
  }

  /** No stored record carries id `k`. */
  predicate Fresh(s: seq<Curso>, k: string)
  {
    forall j :: 0 <= j < |s| ==> s[j].id != Some(k)
  }

  /** The registry's invariant: every stored record has a non-empty id, and no
      two share one. */
  predicate UniqueIds(s: seq<Curso>)
  {
    (forall j :: 0 <= j < |s| ==> s[j].id.Some? && s[j].id.value != "") &&
    (forall i, j :: 0 <= i < |s| && 0 <= j < |s| && i != j ==> s[i].id != s[j].id)
  }
}
