/**
 * A client of the registry that uses only the handlers' contracts, in the
 * way requests would reach the routes one after another.
 */
module Scenarios {
  import opened JsValue
  import opened Validation
  import opened Registry

  function Alumno(id: real, nombre: string): Record
  {
    map["id" := Num(id), "nombres" := Str(nombre), "apellidos" := Str("Pérez"),
        "matricula" := Str("A01"), "promedio" := Num(0.0)]
  }

  /** A student with a non-zero id and a non-empty name passes validation. */
  lemma AlumnoAccepted(id: real, nombre: string)
    requires id != 0.0 && nombre != ""
    ensures ValidarAlumno(Alumno(id, nombre)) == None
  {
  }

  /** Duplicate ids are admitted; DELETE removes the first and GET then
      finds the second; an id that parsed to NaN is never found. */
  method DuplicateIdsScenario()
  {
    var store := new Store();
    var first := Alumno(1.0, "Ana");
    var second := Alumno(1.0, "Luis");
    AlumnoAccepted(1.0, "Ana");
    AlumnoAccepted(1.0, "Luis");

    var resp := store.CreateAlumno(first);
    resp := store.CreateAlumno(second);
    assert store.alumnos == [first, second];

    assert FirstIndex(store.alumnos, Some(1)) == 0;
    resp := store.DeleteAlumno(Some(1));
    assert store.alumnos == [second];

    FirstIndexIs(store.alumnos, Some(1), 0);
    resp := store.GetAlumno(Some(1));
    assert resp == Response(OK, Obj(second));

    resp := store.GetAlumno(None);
    assert resp.status == NOT_FOUND;
  }

  /** An id of 0 is refused before anything else; PUT on an unknown id
      answers 404 even when its body is invalid. */
  method RefusalScenario()
  {
    var store := new Store();
    var zero := Alumno(0.0, "");
    assert ValidarAlumno(zero) == Some(MsgId);

    var resp := store.CreateAlumno(zero);
    assert resp == Response(BAD_REQUEST, ErrorBody(MsgId));
    assert store.alumnos == [];

    resp := store.UpdateAlumno(Some(7), zero);
    assert resp.status == NOT_FOUND;
  }
}
