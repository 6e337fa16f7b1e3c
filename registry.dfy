/**
 * The in-memory registry behind the `/alumnos` and `/profesores` routes:
 * two lists of plain objects that the route handlers append to, search by
 * `id`, overwrite in place and splice.
 *
 * The path parameter arrives already parsed: `Some(n)` for what
 * `parseInt(req.params.id)` yields as an integer, `None` for NaN.
 */
module Registry {
  import opened JsValue
  import opened Validation

  // Status codes the handlers send.
  const OK := 200
  const CREATED := 201
  const BAD_REQUEST := 400
  const NOT_FOUND := 404

  const AlumnoNoEncontrado := "Alumno no encontrado"
  const AlumnoEliminado := "Alumno eliminado"
  const ProfesorNoEncontrado := "Profesor no encontrado"
  const ProfesorEliminado := "Profesor eliminado"

  /** What `res.status(code).json(body)` sends. */
  datatype Response = Response(status: int, body: Value)

  /** `{ error: message }` */
  function ErrorBody(message: string): Value
  {
    Obj(map["error" := Str(message)])
  }

  /** `{ message: text }` */
  function MessageBody(text: string): Value
  {
    Obj(map["message" := Str(text)])
  }

  /** The JSON array that `res.json(list)` sends. */
  function ListBody(list: seq<Record>): (v: Value)
    ensures v.Arr? && |v.items| == |list|
    ensures forall i :: 0 <= i < |list| ==> v.items[i] == Obj(list[i])
  {
    Arr(seq(|list|, i requires 0 <= i < |list| => Obj(list[i])))
  }

  /** The callback of `find`/`findIndex`: `a.id === parseInt(req.params.id)`.
      Strict equality of two numbers; NaN equals nothing. */
  predicate HasId(r: Record, id: Option<int>)
    ensures id == None ==> !HasId(r, id)
    ensures HasId(r, id) ==> TypeOf(Field(r, "id")) == "number" && Truthy(Field(r, "id")) == (id.value != 0)
    ensures HasId(r, id) ==> Field(r, "id").x == id.value as real
  {
    id.Some? && Field(r, "id") == Num(id.value as real)
  }

  /** `list.findIndex(a => a.id === id)`: the first matching index, or -1. */
  function FirstIndex(list: seq<Record>, id: Option<int>): (k: int)
    ensures -1 <= k < |list|
    ensures k == -1 <==> forall i :: 0 <= i < |list| ==> !HasId(list[i], id)
    ensures k != -1 ==> HasId(list[k], id) && forall i :: 0 <= i < k ==> !HasId(list[i], id)
    decreases |list|
  {
    if list == [] then -1
    else if HasId(list[0], id) then 0
    else
      var k := FirstIndex(list[1..], id);
      if k == -1 then -1 else k + 1
  }

  /** The linear search `findIndex` performs. */
  method FindIndex(list: seq<Record>, id: Option<int>) returns (index: int)
    ensures index == FirstIndex(list, id)
  {
    index := 0;
    while index < |list|
      invariant 0 <= index <= |list|
      invariant forall i :: 0 <= i < index ==> !HasId(list[i], id)
    {
      if HasId(list[index], id) {
        return;
      }
      index := index + 1;
    }
    index := -1;
  }

  /** `list.find(a => a.id === id)`: the first matching element, if any. */
  method Find(list: seq<Record>, id: Option<int>) returns (found: Option<Record>)
    ensures found == None <==> forall i :: 0 <= i < |list| ==> !HasId(list[i], id)
    ensures found != None ==> found.value == list[FirstIndex(list, id)] && HasId(found.value, id)
  {
    var index := FindIndex(list, id);
    found := if index == -1 then None else Some(list[index]);
  }

  /** `list.splice(k, 1)`: the list without its k-th element. */
  function RemoveAt(list: seq<Record>, k: nat): (r: seq<Record>)
    requires k < |list|
    ensures |r| == |list| - 1
    ensures forall i :: 0 <= i < k ==> r[i] == list[i]
    ensures forall i :: k <= i < |r| ==> r[i] == list[i + 1]
  {
    list[..k] + list[k + 1..]
  }

  /** How many records in the list carry the given id. */
  function CountWithId(list: seq<Record>, id: Option<int>): nat
    decreases |list|
  {
    if list == [] then 0
    else (if HasId(list[0], id) then 1 else 0) + CountWithId(list[1..], id)
  }

  lemma {:induction false} CountWithIdAppend(a: seq<Record>, b: seq<Record>, id: Option<int>)
    ensures CountWithId(a + b, id) == CountWithId(a, id) + CountWithId(b, id)
    decreases |a|
  {
    if a == [] {
      assert a + b == b;
    } else {
      assert (a + b)[1..] == a[1..] + b;
      CountWithIdAppend(a[1..], b, id);
    }
  }

  /** A record with the id is there exactly when at least one is counted. */
  lemma {:induction false} CountWithIdPositive(list: seq<Record>, id: Option<int>)
    ensures CountWithId(list, id) > 0 <==> FirstIndex(list, id) != -1
    decreases |list|
  {
    if list != [] {
      CountWithIdPositive(list[1..], id);
    }
  }

  /** DELETE removes exactly one record carrying the id: the count drops by
      one, so when there was a later duplicate a GET still finds one. */
  lemma RemoveFirstMatchCount(list: seq<Record>, id: Option<int>)
    requires FirstIndex(list, id) != -1
    ensures CountWithId(RemoveAt(list, FirstIndex(list, id)), id) == CountWithId(list, id) - 1
    ensures CountWithId(list, id) >= 2 ==> FirstIndex(RemoveAt(list, FirstIndex(list, id)), id) != -1
  {
    var k := FirstIndex(list, id);
    CountWithIdPositive(RemoveAt(list, k), id);
    assert list == list[..k] + ([list[k]] + list[k + 1..]);
    CountWithIdAppend(list[..k], [list[k]] + list[k + 1..], id);
    CountWithIdAppend([list[k]], list[k + 1..], id);
    CountWithIdAppend(list[..k], list[k + 1..], id);
    assert [list[k]][1..] == [];
  }

  /** After DELETE, a GET for the same id finds the next duplicate (the one
      that came after the removed record), or nothing when there was none. */
  lemma {:induction false} DeleteExposesNextDuplicate(list: seq<Record>, id: Option<int>, k: nat)
    requires k == FirstIndex(list, id) && k < |list|
    ensures var rest := FirstIndex(list[k + 1..], id);
            FirstIndex(RemoveAt(list, k), id) == if rest == -1 then -1 else k + rest
    decreases |list|
  {
    if k == 0 {
      assert RemoveAt(list, k) == list[1..];
    } else {
      var r := RemoveAt(list, k);
      assert r[1..] == RemoveAt(list[1..], k - 1);
      assert list[1..][k..] == list[k + 1..];
      DeleteExposesNextDuplicate(list[1..], id, k - 1);
    }
  }

  /** A matching position with no match before it is the one findIndex
      returns. */
  lemma FirstIndexIs(list: seq<Record>, id: Option<int>, k: nat)
    requires k < |list| && HasId(list[k], id)
    requires forall i :: 0 <= i < k ==> !HasId(list[i], id)
    ensures FirstIndex(list, id) == k
  {
  }

  /** POST appends at the end, so a GET for its id still returns an earlier
      record carrying the same id if there is one (no duplicate check is
      made), and the new record otherwise. */
  lemma AppendThenFind(list: seq<Record>, body: Record, id: Option<int>)
    requires HasId(body, id)
    ensures FirstIndex(list + [body], id) == if FirstIndex(list, id) == -1 then |list| else FirstIndex(list, id)
  {
    var l := list + [body];
    var k := FirstIndex(list, id);
    if k == -1 {
      FirstIndexIs(l, id, |list|);
    } else {
      assert l[k] == list[k];
      FirstIndexIs(l, id, k);
    }
  }

  /** A parameter that parsed to NaN matches nothing, so GET, PUT and DELETE
      all answer 404 for it. */
  lemma NaNNeverFound(list: seq<Record>)
    ensures FirstIndex(list, None) == -1
  {
  }

  /** Every record in the list passed the validator it was admitted by. */
  ghost predicate AllAlumnosValid(list: seq<Record>)
  {
    forall i :: 0 <= i < |list| ==> ValidarAlumno(list[i]) == None
  }

  ghost predicate AllProfesoresValid(list: seq<Record>)
  {
    forall i :: 0 <= i < |list| ==> ValidarProfesor(list[i]) == None
  }

  /** In a list of validated students, every stored id is a non-zero number,
      so a path id of 0 is never found. */
  lemma ValidAlumnosHaveNonZeroIds(list: seq<Record>)
    requires AllAlumnosValid(list)
    ensures forall i :: 0 <= i < |list| ==> Field(list[i], "id").Num? && Field(list[i], "id").x != 0.0
    ensures FirstIndex(list, Some(0)) == -1
  {
    forall i | 0 <= i < |list|
      ensures Field(list[i], "id").Num? && Field(list[i], "id").x != 0.0
    {
      ValidarAlumnoReportsFirstFailing(list[i], 0);
    }
  }

  /** The same for validated professors. */
  lemma ValidProfesoresHaveNonZeroIds(list: seq<Record>)
    requires AllProfesoresValid(list)
    ensures forall i :: 0 <= i < |list| ==> Field(list[i], "id").Num? && Field(list[i], "id").x != 0.0
    ensures FirstIndex(list, Some(0)) == -1
  {
    forall i | 0 <= i < |list|
      ensures Field(list[i], "id").Num? && Field(list[i], "id").x != 0.0
    {
      ValidarProfesorReportsFirstFailing(list[i], 0);
    }
  }

  /** The module-level arrays `alumnos` and `profesores` and the handlers
      of their routes. */
  class Store {
    var alumnos: seq<Record>
    var profesores: seq<Record>

    /** Every stored record passed its validator: only POST and PUT add
        records, and both validate first. */
    ghost predicate Valid()
      reads this
    {
      AllAlumnosValid(alumnos) && AllProfesoresValid(profesores)
    }

    /** `let alumnos = []; let profesores = [];` */
    constructor ()
      ensures Valid()
      ensures alumnos == [] && profesores == []
    {
      alumnos := [];
      profesores := [];
    }

    /** GET /alumnos */
    method ListAlumnos() returns (resp: Response)
      ensures resp.status == OK && resp.body == ListBody(alumnos)
    {
      resp := Response(OK, ListBody(alumnos));
    }

    /** POST /alumnos: validate, then push. */
    method CreateAlumno(body: Record) returns (resp: Response)
      requires Valid()
      modifies this`alumnos
      ensures Valid()
      ensures ValidarAlumno(body) != None ==>
                resp == Response(BAD_REQUEST, ErrorBody(ValidarAlumno(body).value)) && alumnos == old(alumnos)
      ensures ValidarAlumno(body) == None ==>
                resp == Response(CREATED, Obj(body)) && alumnos == old(alumnos) + [body]
    {
      var error := ValidarAlumno(body);
      if error != None {
        return Response(BAD_REQUEST, ErrorBody(error.value));
      }
      alumnos := alumnos + [body];
      resp := Response(CREATED, Obj(body));
    }

    /** GET /alumnos/:id */
    method GetAlumno(id: Option<int>) returns (resp: Response)
      ensures FirstIndex(alumnos, id) == -1 ==> resp == Response(NOT_FOUND, ErrorBody(AlumnoNoEncontrado))
      ensures FirstIndex(alumnos, id) != -1 ==> resp == Response(OK, Obj(alumnos[FirstIndex(alumnos, id)]))
    {
      var alumno := Find(alumnos, id);
      if alumno == None {
        return Response(NOT_FOUND, ErrorBody(AlumnoNoEncontrado));
      }
      resp := Response(OK, Obj(alumno.value));
    }

    /** PUT /alumnos/:id: not-found is decided before the body is
        validated; the body is stored as sent, whatever its own id. */
    method UpdateAlumno(id: Option<int>, body: Record) returns (resp: Response)
      requires Valid()
      modifies this`alumnos
      ensures Valid()
      ensures FirstIndex(old(alumnos), id) == -1 ==>
                resp == Response(NOT_FOUND, ErrorBody(AlumnoNoEncontrado)) && alumnos == old(alumnos)
      ensures FirstIndex(old(alumnos), id) != -1 && ValidarAlumno(body) != None ==>
                resp == Response(BAD_REQUEST, ErrorBody(ValidarAlumno(body).value)) && alumnos == old(alumnos)
      ensures FirstIndex(old(alumnos), id) != -1 && ValidarAlumno(body) == None ==>
                resp == Response(OK, Obj(body)) && alumnos == old(alumnos)[FirstIndex(old(alumnos), id) := body]
    {
      var index := FindIndex(alumnos, id);
      if index == -1 {
        return Response(NOT_FOUND, ErrorBody(AlumnoNoEncontrado));
      }
      var error := ValidarAlumno(body);
      if error != None {
        return Response(BAD_REQUEST, ErrorBody(error.value));
      }
      alumnos := alumnos[index := body];
      resp := Response(OK, Obj(body));
    }

    /** DELETE /alumnos/:id: splice out the first match only. */
    method DeleteAlumno(id: Option<int>) returns (resp: Response)
      requires Valid()
      modifies this`alumnos
      ensures Valid()
      ensures FirstIndex(old(alumnos), id) == -1 ==>
                resp == Response(NOT_FOUND, ErrorBody(AlumnoNoEncontrado)) && alumnos == old(alumnos)
      ensures FirstIndex(old(alumnos), id) != -1 ==>
                resp == Response(OK, MessageBody(AlumnoEliminado))
                && alumnos == RemoveAt(old(alumnos), FirstIndex(old(alumnos), id))
    {
      var index := FindIndex(alumnos, id);
      if index == -1 {
        return Response(NOT_FOUND, ErrorBody(AlumnoNoEncontrado));
      }
      alumnos := RemoveAt(alumnos, index);
      resp := Response(OK, MessageBody(AlumnoEliminado));
    }

    /** GET /profesores */
    method ListProfesores() returns (resp: Response)
      ensures resp.status == OK && resp.body == ListBody(profesores)
    {
      resp := Response(OK, ListBody(profesores));
    }

    /** POST /profesores: validate, then push. */
    method CreateProfesor(body: Record) returns (resp: Response)
      requires Valid()
      modifies this`profesores
      ensures Valid()
      ensures ValidarProfesor(body) != None ==>
                resp == Response(BAD_REQUEST, ErrorBody(ValidarProfesor(body).value)) && profesores == old(profesores)
      ensures ValidarProfesor(body) == None ==>
                resp == Response(CREATED, Obj(body)) && profesores == old(profesores) + [body]
    {
      var error := ValidarProfesor(body);
      if error != None {
        return Response(BAD_REQUEST, ErrorBody(error.value));
      }
      profesores := profesores + [body];
      resp := Response(CREATED, Obj(body));
    }

    /** GET /profesores/:id */
    method GetProfesor(id: Option<int>) returns (resp: Response)
      ensures FirstIndex(profesores, id) == -1 ==> resp == Response(NOT_FOUND, ErrorBody(ProfesorNoEncontrado))
      ensures FirstIndex(profesores, id) != -1 ==> resp == Response(OK, Obj(profesores[FirstIndex(profesores, id)]))
    {
      var profesor := Find(profesores, id);
      if profesor == None {
        return Response(NOT_FOUND, ErrorBody(ProfesorNoEncontrado));
      }
      resp := Response(OK, Obj(profesor.value));
    }

    /** PUT /profesores/:id: not-found is decided before the body is
        validated; the body is stored as sent, whatever its own id. */
    method UpdateProfesor(id: Option<int>, body: Record) returns (resp: Response)
      requires Valid()
      modifies this`profesores
      ensures Valid()
      ensures FirstIndex(old(profesores), id) == -1 ==>
                resp == Response(NOT_FOUND, ErrorBody(ProfesorNoEncontrado)) && profesores == old(profesores)
      ensures FirstIndex(old(profesores), id) != -1 && ValidarProfesor(body) != None ==>
                resp == Response(BAD_REQUEST, ErrorBody(ValidarProfesor(body).value)) && profesores == old(profesores)
      ensures FirstIndex(old(profesores), id) != -1 && ValidarProfesor(body) == None ==>
                resp == Response(OK, Obj(body)) && profesores == old(profesores)[FirstIndex(old(profesores), id) := body]
    {
      var index := FindIndex(profesores, id);
      if index == -1 {
        return Response(NOT_FOUND, ErrorBody(ProfesorNoEncontrado));
      }
      var error := ValidarProfesor(body);
      if error != None {
        return Response(BAD_REQUEST, ErrorBody(error.value));
      }
      profesores := profesores[index := body];
      resp := Response(OK, Obj(body));
    }

    /** DELETE /profesores/:id: splice out the first match only. */
    method DeleteProfesor(id: Option<int>) returns (resp: Response)
      requires Valid()
      modifies this`profesores
      ensures Valid()
      ensures FirstIndex(old(profesores), id) == -1 ==>
                resp == Response(NOT_FOUND, ErrorBody(ProfesorNoEncontrado)) && profesores == old(profesores)
      ensures FirstIndex(old(profesores), id) != -1 ==>
                resp == Response(OK, MessageBody(ProfesorEliminado))
                && profesores == RemoveAt(old(profesores), FirstIndex(old(profesores), id))
    {
      var index := FindIndex(profesores, id);
      if index == -1 {
        return Response(NOT_FOUND, ErrorBody(ProfesorNoEncontrado));
      }
      profesores := RemoveAt(profesores, index);
      resp := Response(OK, MessageBody(ProfesorEliminado));
    }
  }
}
