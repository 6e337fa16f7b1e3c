# Student and professor registry

A model of the in-memory registry that `app.js` serves over HTTP. It covers
two parts:

- The two field validators, `validarAlumno` and `validarProfesor`. Each runs
  five guards in a fixed order and returns the message of the first guard
  that fails, or `null` when every guard passes.
- The route handlers over the module-level arrays `alumnos` and
  `profesores`. They list, create (`push`), get (`find`), replace
  (`findIndex` and then indexed assignment) and delete (`findIndex` and then
  `splice`). Each one answers with a status code (200, 201, 400 or 404) and a
  JSON body.

Modules:

- `JsValue` (js_value.dfy) holds the JSON values a parsed body can contain,
  `typeof`, JavaScript truthiness, and reading a property that may be
  absent (the result is `undefined`).
- `Validation` (validation.dfy) holds the validators, written as the same
  if-chains as the source. Beside them are the guard tables `AlumnoGuards` and
  `ProfesorGuards` and the table-driven reference `FirstFailure`. Each
  validator's contract says it agrees with its table on every input.
- `Registry` (registry.dfy) holds the class `Store`. It has the two lists as
  `seq` fields and one method per handler. `FindIndex` is the linear search
  of `findIndex`, proved against the recursive `FirstIndex`. The lemmas
  cover what POST, PUT and DELETE do to later lookups. `Store.Valid()` is
  the invariant that every stored record passed its validator. Every handler
  preserves it.
- `Scenarios` (scenarios.dfy) is a client that drives a store through the
  handlers' contracts alone. It posts duplicate ids, is refused an id of 0,
  gets 404 from a PUT with an unknown id and a bad body, and after a DELETE
  finds the second duplicate.

The path parameter enters already parsed, as `Option<int>`. `Some(n)` is an
integer that `parseInt` produced. `None` is NaN, which `===` never matches.

The source files contain no login, session or token code.
`models/alumno.js` declares a `password` column, and nothing in the code
reads it.

## Model

| member | source | states |
|---|---|---|
| `Validation.FirstFailing` | app.js:9-17 | The position of the first failing guard: every guard before it passes, and it fails unless it is the end of the table |
| `Validation.FirstFailure` | app.js:9-17 | None exactly when every guard passes; otherwise the message of a failing guard that has only passing guards before it |
| `Validation.FirstFailureIdentifiesGuard` | app.js:11-16 | When messages are distinct, guard k's message is reported exactly when guard k fails and all earlier guards pass (both directions) |
| `Validation.FirstFailingReadsOnlyGuardFields` | app.js:10 | Two bodies that agree on every field a guard table names get the same verdict |
| `Validation.AlumnoMessagesDistinct` | app.js:11-15 | The five student error messages are pairwise different, so a message names the check that failed |
| `Validation.ProfesorMessagesDistinct` | app.js:21-25 | The five professor error messages are pairwise different |
| `JsValue.Field` | app.js:10 | Reading a property gives its stored value; an absent property and one holding undefined both read as undefined |
| `JsValue.TypeOf` | app.js:11-15 | typeof yields "number" exactly for numbers, "string" exactly for strings, "boolean" exactly for booleans, "undefined" exactly for undefined, and "object" exactly for null, arrays and objects |
| `JsValue.Truthy` | app.js:11-14 | `!x` is true for undefined; a number is falsy exactly when it is 0; a string exactly when it is empty; an object-typed value exactly when it is null |
| `Validation.ValidarAlumno` | app.js:9-17 | validarAlumno returns exactly the table verdict: checks id, nombres, apellidos, matricula, promedio in that order, with their messages, and null when all pass |
| `Validation.ValidarProfesor` | app.js:19-27 | validarProfesor returns exactly the table verdict: checks id, numeroEmpleado, nombres, apellidos, horasClase in that order, and null when all pass |
| `Validation.ValidarAlumnoReportsFirstFailing` | app.js:11-16 | null exactly when all five student checks pass; check k's message exactly when it is the first that fails, so an earlier error always wins |
| `Validation.ValidarProfesorReportsFirstFailing` | app.js:21-26 | The same for the five professor checks |
| `Validation.ValidarAlumnoIgnoresOtherFields` | app.js:10 | Fields other than the five destructured ones never change the student verdict |
| `Validation.ValidarProfesorIgnoresOtherFields` | app.js:20 | Fields other than the five destructured ones never change the professor verdict |
| `Validation.AlumnoZeroValues` | app.js:11-15 | An id of 0 is refused with the id message; an empty nombres is refused; a promedio of 0 is accepted |
| `Validation.ProfesorZeroValues` | app.js:21-25 | An id or numeroEmpleado of 0 is refused with its own message; a horasClase of 0 is accepted |
| `Registry.HasId` | app.js:49 | The callback `a.id === parseInt(param)`: a NaN parameter matches nothing; a match means the stored id is a number equal to the parsed integer, truthy unless the parameter is 0 |
| `Registry.FirstIndex` | app.js:58 | findIndex: -1 exactly when no element has the id; otherwise an index whose element has the id and before which none does |
| `Registry.FindIndex` | app.js:58 | The linear search returns the first index whose element's id equals the parameter, or -1 |
| `Registry.Find` | app.js:49 | find: nothing exactly when no element has the id; otherwise the element at the first matching index |
| `Registry.RemoveAt` | app.js:75 | splice(k, 1): one element fewer, those before k unchanged, those after k shifted down by one in the same order |
| `Registry.RemoveFirstMatchCount` | app.js:72-75 | Deleting removes exactly one record with the id; when there were two or more, a lookup of that id still finds one afterwards |
| `Registry.CountWithIdPositive` | app.js:72 | At least one record carries the id exactly when findIndex does not return -1 |
| `Registry.DeleteExposesNextDuplicate` | app.js:72-75 | After a delete, a lookup of the same id finds the next duplicate, or nothing if there was none |
| `Registry.AppendThenFind` | app.js:39-49 | After a push, a lookup of the new record's id still finds an earlier record with that id (there is no duplicate check), and finds the new one otherwise |
| `Registry.NaNNeverFound` | app.js:49 | A parameter that parses to NaN matches no element |
| `Registry.ValidAlumnosHaveNonZeroIds` | app.js:11 | Every validated student has a non-zero numeric id, so a lookup of id 0 finds nothing |
| `Registry.ValidProfesoresHaveNonZeroIds` | app.js:21 | Every validated professor has a non-zero numeric id, so a lookup of id 0 finds nothing |
| `Scenarios.AlumnoAccepted` | app.js:11-15 | A student body with a non-zero numeric id, non-empty strings and a promedio of 0 passes validation |
| `Registry.Store.constructor` | app.js:5-6 | Both lists start empty, and the store starts valid |
| `Registry.Store.ListAlumnos` | app.js:31-33 | 200 with the whole student list as a JSON array, in order |
| `Registry.Store.CreateAlumno` | app.js:34-44 | Invalid body: 400 with the validator's message, list unchanged. Valid body: 201 with the body, appended as the last element, earlier elements unchanged. Validity is preserved |
| `Registry.Store.GetAlumno` | app.js:47-55 | 404 "Alumno no encontrado" exactly when no element has the id; otherwise 200 with the first match; nothing changes |
| `Registry.Store.UpdateAlumno` | app.js:56-69 | Not-found comes before validation (unknown id: 404 even with a bad body); known id with a bad body: 400; otherwise only the first match is replaced by the body as sent |
| `Registry.Store.DeleteAlumno` | app.js:70-80 | Unknown id: 404, list unchanged; otherwise 200 "Alumno eliminado" and only the first match is spliced out |
| `Registry.Store.ListProfesores` | app.js:84-86 | 200 with the whole professor list as a JSON array, in order |
| `Registry.Store.CreateProfesor` | app.js:87-97 | Invalid body: 400 with the validator's message, list unchanged. Valid body: 201, appended at the end. Validity is preserved |
| `Registry.Store.GetProfesor` | app.js:100-108 | 404 "Profesor no encontrado" exactly when no element has the id; otherwise 200 with the first match |
| `Registry.Store.UpdateProfesor` | app.js:109-122 | Unknown id: 404 before validation; bad body: 400; otherwise only the first match is replaced; the list is otherwise unchanged |
| `Registry.Store.DeleteProfesor` | app.js:123-133 | Unknown id: 404, list unchanged; otherwise 200 "Profesor eliminado" and only the first match is spliced out |

## Left out

- Express wiring is not modelled: `express.json()`, route registration, `app.listen` and the log line. It is HTTP plumbing.
- The 405/404 fallback middleware (app.js:136-142) is not modelled. It depends on how Express matches request paths.
- The 500 error middleware (app.js:145-148) is not modelled, and neither are the `try`/`catch` blocks that forward to it. No modelled operation throws.
- Request bodies are modelled as plain objects (`map<string, Value>`). A body that is not an object would make the destructuring throw and end in a 500. That path is left out with the middleware.
- `parseInt` and JSON parsing are JavaScript builtins. The path id enters already parsed, as `Option<int>`, and body numbers enter as reals. NaN cannot come out of JSON text, so `Value` has no case for it. Its `Undefined` case stands only for reading a property the body lacks. `-0` and `0` are the same real, and both are falsy, as in JavaScript.
- Infinity and -Infinity are not modelled. `JSON.parse` turns a number literal that is too large (`1e999`) into Infinity, and that body passes validation and is stored. `parseInt` turns a path segment of 309 or more digits into Infinity, which then matches such a stored id. Neither `Num(real)` nor `Option<int>` can represent that value.
- Rounding to doubles is not modelled. Body numbers and path ids stand for values already rounded to IEEE doubles by parsing. For example, 9007199254740993 in a body and 9007199254740992 in a path both become 2^53 and match in JavaScript. The model compares the numbers it is given exactly, so it does not reproduce that rounding.
- Aliasing is not modelled. The source stores the `req.body` object itself, and the model stores its value. No handler mutates a stored object afterwards, so the two agree.
- prueba.js (S3 upload and listing through the AWS SDK), the Sequelize models and the migration are not part of this model. They are network, file and database I/O, or schema declarations with no logic.
- Login, sessions, tokens and password checks are not modelled: there is no code for them in the source files.
