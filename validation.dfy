/**
 * The two field validators of the registry. Each runs a fixed chain of
 * guards over a request body and reports the message of the first guard
 * that fails, or nothing when every guard passes.
 *
 * `ValidarAlumno` and `ValidarProfesor` follow the source's if-chains line
 * by line; `FirstFailure` over the guard tables `AlumnoGuards` and
 * `ProfesorGuards` is the independent, table-driven reading of the same
 * rules, and each validator's contract says the two agree on every input.
 */
module Validation {
  import opened JsValue

  /** How a guard tests that its field is present: `!x` (so 0 and "" are
      rejected) or `x === undefined` (so 0 is accepted). */
  datatype Presence = NonFalsy | NotUndefined

  /** One guard: the field it reads, how it tests presence, the `typeof`
      it demands and the message reported when it fails. */
  datatype Guard = Guard(field: string, presence: Presence, typeName: string, message: string)

  predicate Passes(g: Guard, data: Record)
  {
    var v := Field(data, g.field);
    && (match g.presence
        case NonFalsy => Truthy(v)
        case NotUndefined => v != Undefined)
    && TypeOf(v) == g.typeName
  }

  /** The index of the first guard that fails, or |guards| when all pass. */
  function FirstFailing(guards: seq<Guard>, data: Record): (k: nat)
    ensures k <= |guards|
    ensures forall j :: 0 <= j < k ==> Passes(guards[j], data)
    ensures k < |guards| ==> !Passes(guards[k], data)
    decreases |guards|
  {
    if guards == [] then 0
    else if !Passes(guards[0], data) then 0
    else 1 + FirstFailing(guards[1..], data)
  }

  /** The message of the first failing guard, or None when all pass. */
  function FirstFailure(guards: seq<Guard>, data: Record): (r: Option<string>)
    ensures r == None <==> forall j :: 0 <= j < |guards| ==> Passes(guards[j], data)
    ensures r != None ==> exists k :: 0 <= k < |guards| && r == Some(guards[k].message)
                                      && !Passes(guards[k], data)
                                      && forall j :: 0 <= j < k ==> Passes(guards[j], data)
  {
    var k := FirstFailing(guards, data);
    if k < |guards| then Some(guards[k].message) else None
  }

  /** A position is the first failing one as soon as every guard before it
      passes and it fails (or it is the end of the table). */
  lemma FirstFailingIs(guards: seq<Guard>, data: Record, k: nat)
    requires k <= |guards|
    requires forall j :: 0 <= j < k ==> Passes(guards[j], data)
    requires k < |guards| ==> !Passes(guards[k], data)
    ensures FirstFailing(guards, data) == k
  {
  }

  predicate DistinctMessages(guards: seq<Guard>)
  {
    forall i, j :: 0 <= i < j < |guards| ==> guards[i].message != guards[j].message
  }

  /** When no two guards share a message, the message identifies the guard:
      guard k's message is reported exactly when every earlier guard passes
      and guard k fails. */
  lemma FirstFailureIdentifiesGuard(guards: seq<Guard>, data: Record, k: nat)
    requires DistinctMessages(guards)
    requires k < |guards|
    ensures FirstFailure(guards, data) == Some(guards[k].message)
            <==> !Passes(guards[k], data) && forall j :: 0 <= j < k ==> Passes(guards[j], data)
  {
    var f := FirstFailing(guards, data);
    if !Passes(guards[k], data) && forall j :: 0 <= j < k ==> Passes(guards[j], data) {
      assert f == k;
    }
    if FirstFailure(guards, data) == Some(guards[k].message) {
      assert f < |guards| && guards[f].message == guards[k].message;
      assert f == k;
    }
  }

  // The messages of app.js, verbatim.
  const MsgId := "ID inválido o vacío"
  const MsgNombres := "Nombres inválidos o vacíos"
  const MsgApellidos := "Apellidos inválidos o vacíos"
  const MsgMatricula := "Matrícula inválida o vacía"
  const MsgPromedio := "Promedio inválido o vacío"
  const MsgNumeroEmpleado := "Número de empleado inválido o vacío"
  const MsgHorasClase := "Horas de clase inválidas o vacías"

  /** The student rules in the order they fire. */
  const AlumnoGuards: seq<Guard> := [
    Guard("id", NonFalsy, "number", MsgId),
    Guard("nombres", NonFalsy, "string", MsgNombres),
    Guard("apellidos", NonFalsy, "string", MsgApellidos),
    Guard("matricula", NonFalsy, "string", MsgMatricula),
    Guard("promedio", NotUndefined, "number", MsgPromedio)
  ]

  /** The professor rules in the order they fire. */
  const ProfesorGuards: seq<Guard> := [
    Guard("id", NonFalsy, "number", MsgId),
    Guard("numeroEmpleado", NonFalsy, "number", MsgNumeroEmpleado),
    Guard("nombres", NonFalsy, "string", MsgNombres),
    Guard("apellidos", NonFalsy, "string", MsgApellidos),
    Guard("horasClase", NotUndefined, "number", MsgHorasClase)
  ]

  /** No two student messages are alike: they start with different letters. */
  lemma AlumnoMessagesDistinct()
    ensures DistinctMessages(AlumnoGuards)
  {
    var g := AlumnoGuards;
    assert g[0].message[0] == 'I' && g[1].message[0] == 'N' && g[2].message[0] == 'A'
        && g[3].message[0] == 'M' && g[4].message[0] == 'P';
  }

  /** No two professor messages are alike: they differ in their first or
      second letter. */
  lemma ProfesorMessagesDistinct()
    ensures DistinctMessages(ProfesorGuards)
  {
    var g := ProfesorGuards;
    assert g[0].message[0] == 'I' && g[1].message[1] == 'ú' && g[2].message[1] == 'o'
        && g[3].message[0] == 'A' && g[4].message[0] == 'H';
  }

  /** validarAlumno: None plays the part of `null`. The verdict is exactly
      the table's: null when all five guards pass, otherwise the first
      failing one's message in the order id, nombres, apellidos, matricula,
      promedio. */
  function ValidarAlumno(data: Record): (r: Option<string>)
    ensures r == FirstFailure(AlumnoGuards, data)
  {
    var g := AlumnoGuards;
    var id := Field(data, "id");
    var nombres := Field(data, "nombres");
    var apellidos := Field(data, "apellidos");
    var matricula := Field(data, "matricula");
    var promedio := Field(data, "promedio");
    if !Truthy(id) || TypeOf(id) != "number" then FirstFailingIs(g, data, 0); Some(MsgId)
    else if !Truthy(nombres) || TypeOf(nombres) != "string" then FirstFailingIs(g, data, 1); Some(MsgNombres)
    else if !Truthy(apellidos) || TypeOf(apellidos) != "string" then FirstFailingIs(g, data, 2); Some(MsgApellidos)
    else if !Truthy(matricula) || TypeOf(matricula) != "string" then FirstFailingIs(g, data, 3); Some(MsgMatricula)
    else if promedio == Undefined || TypeOf(promedio) != "number" then FirstFailingIs(g, data, 4); Some(MsgPromedio)
    else FirstFailingIs(g, data, 5); None
  }

  /** validarProfesor: None plays the part of `null`. The verdict is
      exactly the table's, in the order id, numeroEmpleado, nombres,
      apellidos, horasClase. */
  function ValidarProfesor(data: Record): (r: Option<string>)
    ensures r == FirstFailure(ProfesorGuards, data)
  {
    var g := ProfesorGuards;
    var id := Field(data, "id");
    var numeroEmpleado := Field(data, "numeroEmpleado");
    var nombres := Field(data, "nombres");
    var apellidos := Field(data, "apellidos");
    var horasClase := Field(data, "horasClase");
    if !Truthy(id) || TypeOf(id) != "number" then FirstFailingIs(g, data, 0); Some(MsgId)
    else if !Truthy(numeroEmpleado) || TypeOf(numeroEmpleado) != "number" then FirstFailingIs(g, data, 1); Some(MsgNumeroEmpleado)
    else if !Truthy(nombres) || TypeOf(nombres) != "string" then FirstFailingIs(g, data, 2); Some(MsgNombres)
    else if !Truthy(apellidos) || TypeOf(apellidos) != "string" then FirstFailingIs(g, data, 3); Some(MsgApellidos)
    else if horasClase == Undefined || TypeOf(horasClase) != "number" then FirstFailingIs(g, data, 4); Some(MsgHorasClase)
    else FirstFailingIs(g, data, 5); None
  }

  /** A guard table only looks at its own fields: two bodies that agree on
      every field the table names get the same verdict. */
  lemma {:induction false} FirstFailingReadsOnlyGuardFields(guards: seq<Guard>, d1: Record, d2: Record)
    requires forall j :: 0 <= j < |guards| ==> Field(d1, guards[j].field) == Field(d2, guards[j].field)
    ensures FirstFailing(guards, d1) == FirstFailing(guards, d2)
    decreases |guards|
  {
    if guards != [] {
      assert Field(d1, guards[0].field) == Field(d2, guards[0].field);
      FirstFailingReadsOnlyGuardFields(guards[1..], d1, d2);
    }
  }

  /** Which error wins: the student validator reports guard k's message
      exactly when guard k fails and every earlier guard passes. */
  lemma ValidarAlumnoReportsFirstFailing(data: Record, k: nat)
    requires k < |AlumnoGuards|
    ensures ValidarAlumno(data) == Some(AlumnoGuards[k].message)
            <==> !Passes(AlumnoGuards[k], data) && forall j :: 0 <= j < k ==> Passes(AlumnoGuards[j], data)
    ensures ValidarAlumno(data) == None <==> forall j :: 0 <= j < |AlumnoGuards| ==> Passes(AlumnoGuards[j], data)
  {
    AlumnoMessagesDistinct();
    FirstFailureIdentifiesGuard(AlumnoGuards, data, k);
  }

  /** Which error wins: the professor validator reports guard k's message
      exactly when guard k fails and every earlier guard passes. */
  lemma ValidarProfesorReportsFirstFailing(data: Record, k: nat)
    requires k < |ProfesorGuards|
    ensures ValidarProfesor(data) == Some(ProfesorGuards[k].message)
            <==> !Passes(ProfesorGuards[k], data) && forall j :: 0 <= j < k ==> Passes(ProfesorGuards[j], data)
    ensures ValidarProfesor(data) == None <==> forall j :: 0 <= j < |ProfesorGuards| ==> Passes(ProfesorGuards[j], data)
  {
    ProfesorMessagesDistinct();
    FirstFailureIdentifiesGuard(ProfesorGuards, data, k);
  }

  /** Fields other than the five it checks (a password, a photo URL, ...)
      never change the student verdict. */
  lemma ValidarAlumnoIgnoresOtherFields(d1: Record, d2: Record)
    requires forall f :: f in ["id", "nombres", "apellidos", "matricula", "promedio"] ==> Field(d1, f) == Field(d2, f)
    ensures ValidarAlumno(d1) == ValidarAlumno(d2)
  {
    FirstFailingReadsOnlyGuardFields(AlumnoGuards, d1, d2);
  }

  /** Fields other than the five it checks never change the professor
      verdict. */
  lemma ValidarProfesorIgnoresOtherFields(d1: Record, d2: Record)
    requires forall f :: f in ["id", "numeroEmpleado", "nombres", "apellidos", "horasClase"] ==> Field(d1, f) == Field(d2, f)
    ensures ValidarProfesor(d1) == ValidarProfesor(d2)
  {
    FirstFailingReadsOnlyGuardFields(ProfesorGuards, d1, d2);
  }

  /** Truthiness: an id of 0 is refused by `!id`, an empty name by
      `!nombres`, but a promedio of 0 passes the `=== undefined` test. */
  lemma AlumnoZeroValues(data: Record)
    ensures Field(data, "id") == Num(0.0) ==> ValidarAlumno(data) == Some(MsgId)
    ensures Passes(AlumnoGuards[0], data) && Field(data, "nombres") == Str("")
            ==> ValidarAlumno(data) == Some(MsgNombres)
    ensures (forall j :: 0 <= j < 4 ==> Passes(AlumnoGuards[j], data)) && Field(data, "promedio") == Num(0.0)
            ==> ValidarAlumno(data) == None
  {
  }

  /** Truthiness: an id or numeroEmpleado of 0 is refused, a horasClase of
      0 is accepted. */
  lemma ProfesorZeroValues(data: Record)
    ensures Field(data, "id") == Num(0.0) ==> ValidarProfesor(data) == Some(MsgId)
    ensures Passes(ProfesorGuards[0], data) && Field(data, "numeroEmpleado") == Num(0.0)
            ==> ValidarProfesor(data) == Some(MsgNumeroEmpleado)
    ensures (forall j :: 0 <= j < 4 ==> Passes(ProfesorGuards[j], data)) && Field(data, "horasClase") == Num(0.0)
            ==> ValidarProfesor(data) == None
  {
  }
}
