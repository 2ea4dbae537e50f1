# pybind11_abseil status casters, modelled in Dafny

This project models the casters that decide what Python sees when a C++
function bound with pybind11 returns an `absl::Status`, an
`absl::StatusOr<T>` or a `NoThrowStatus<...>` wrapper. There are three possible
results:

- `None` comes back;
- a `StatusNotOk` exception is raised, carrying the status;
- an object comes back: the status itself, or the payload cast by the
  payload's own caster.

The choice depends on four things: whether a pointer argument is null,
whether the status is ok, the `throw_exception` flag (default `true`), and
whether a `StatusOr` holds a value.

Files:

- `status_types.dfy` (module `StatusTypes`): status codes and their names,
  `Status`, `StatusOr`, and the string rendering. The rendering is `"OK"`, or
  `"<CODE>: <message>"`. The module also has an inverse parser, used to prove
  that the rendering loses nothing.
- `status_casters.dfy` (module `StatusCasters`): one function for each caster
  entry point (`cast` and `cast_impl` of the `Status` and `StatusOr` casters,
  and the `NoThrowStatus` caster). It also has `Cast`, the `make_caster`
  dispatch pybind11 applies to a returned value or to a `StatusOr` payload.
  The payload of a `StatusOr` is itself a `Native` value, so a
  `StatusOr<absl::Status>` or a `StatusOr<StatusOr<T>>` goes back through
  these casters, exactly as `make_caster<PayloadType>` does.
- `caster_properties.dfy` (module `CasterProperties`): what Python observes,
  stated against definitions that follow the value rather than the casters:
  - the first error on the value's path (`PathError`);
  - the payload at the end of that path (`PathPayload`);
  - whether a `NoThrowStatus` wrapper lies on that path (`PathHasNoThrow`);
  - the status object at the end of that path, if any (`PathStatusObject`).

  It also holds `status.is_ok` as the tests use it.

An empty message does not shorten the rendering to just `"<CODE>"`: the
tests expect `"CANCELLED: "` (`pybind11_abseil/tests/status_test.py:164-169`).
The model follows the tests and keeps `": "`.

Payloads of other types are kept abstract (`Opaque`). So is their caster: it
returns the payload with the policy it was given (`PyPayload`). A
return-value policy is an opaque tag. The model only records which policy
reaches which caster. A failed `StatusOr` always hands its status to the
`Status` caster with policy `move`.

## Model

| member | source | states |
|---|---|---|
| `StatusCasters.CastStatusImpl` | pybind11_abseil/status_casters.h:106-121 | raises exactly when throwing and the status is not ok, carrying that status; returns the status object with the caller's policy exactly when not throwing; returns None exactly when throwing and ok; never a payload |
| `StatusCasters.CastStatus` | pybind11_abseil/status_casters.h:88-103 | a null pointer gives None whatever the flag; otherwise raises iff throwing and not ok (same status), returns the status object iff not throwing; never a payload |
| `StatusCasters.CastStatusOrImpl` | pybind11_abseil/status_casters.h:164-178 | an ok result is its payload's own cast with the caller's policy, independent of the throw flag; a failed one is the Status caster on its status with policy move and the same flag: raises iff throwing, otherwise the status object with policy move |
| `StatusCasters.CastStatusOr` | pybind11_abseil/status_casters.h:143-161 | a null pointer gives None whatever the flag; otherwise the payload or error outcomes of `cast_impl` above |
| `StatusCasters.CastNoThrow` | pybind11_abseil/status_casters.h:61-81 | exactly the wrapped Status or StatusOr caster called with throw_exception false: a null wrapped pointer gives None; a wrapped Status never raises and a non-null one comes back as the status object; a failed StatusOr comes back as its status object (policy move); an ok StatusOr gives its payload's own cast with the caller's policy, so only a payload nested in it can still raise |
| `StatusCasters.Cast` | pybind11_abseil/status_casters.h:139-140 | an opaque value becomes its payload with the caller's policy, and any payload Python receives carries the caller's policy; the rest of the dispatch by type with the default flag is pinned by the three path lemmas below |
| `StatusTypes.StatusOr.IsOk` | pybind11_abseil/status_casters.h:168 | a StatusOr is ok exactly when it holds a value (its status is OK exactly then) |
| `StatusTypes.StatusOr.GetStatus` | pybind11_abseil/status_casters.h:174 | the status of a result is OK, with no message, exactly when it holds a value, and is the stored error otherwise |
| `CasterProperties.PathError` | pybind11_abseil/status_casters.h:114-116 | the error met on a value's path is never an ok status |
| `CasterProperties.CastRaisesOnPathError` | pybind11_abseil/status_casters.h:9-12 | a returned value raises exactly when an error lies on its path, and the exception carries that status with code and message unchanged |
| `CasterProperties.RaisedStatusIsNotOk` | pybind11_abseil/status_casters.h:114-116 | every raised StatusNotOk carries a non-ok status |
| `CasterProperties.StatusObjectOnlyThroughNoThrow` | pybind11_abseil/status_casters.h:61-65 | Python receives a status object only when a NoThrowStatus wrapper lies on the path |
| `CasterProperties.CastYieldsPathStatusObject` | pybind11_abseil/status_casters.h:61-81 | a status object comes back exactly when the path ends in a NoThrowStatus wrapper around a non-null status (that status, caller's policy) or a failed StatusOr (its error, policy move), and it is that object |
| `CasterProperties.CastYieldsPathPayload` | pybind11_abseil/status_casters.h:168-171 | a payload comes back exactly when no error lies on the path and the path ends in a payload, and it is that payload with the caller's policy |
| `CasterProperties.StatusOrDelegates` | pybind11_abseil/status_casters.h:172-177 | an ok StatusOr with an opaque payload yields it whatever the flag; a failed one, by reference or by pointer, yields exactly the Status caster's outcome for its status with policy move and the same flag |
| `CasterProperties.DefaultFlagHidesStatus` | pybind11_abseil/status_casters.h:89-102 | throw_exception defaults to true, so a plain Status return raises or gives None and never exposes the object |
| `CasterProperties.IsOkAgreesWithCode` | pybind11_abseil/tests/status_test.py:145-151 | on what a NoThrowStatus cast returns, is_ok agrees with code == OK, for a Status, and for a StatusOr that failed or holds a plain payload |
| `StatusTypes.CodeName` | pybind11_abseil/tests/status_test.py:101-105 | a code's name is non-empty, has no colon, and is "OK" exactly for code OK |
| `StatusTypes.StatusToString` | pybind11_abseil/tests/status_test.py:95-105 | the rendering is never empty; it is "OK" exactly for an ok status; otherwise it starts with the code's name, ends with the message, and is two characters longer than both together |
| `StatusTypes.StatusToStringExamples` | pybind11_abseil/tests/status_test.py:164-169 | "OK", "ABORTED: test", and "CANCELLED: " / "NOT_FOUND: " for an empty message |
| `StatusTypes.ParseStatusToString` | pybind11_abseil/tests/status_test.py:101-105 | reading a rendered status back gives the same code and message, for every status the library can produce |
| `StatusTypes.StatusToStringInjective` | pybind11_abseil/tests/status_test.py:95-99 | two such statuses render alike only when they are equal |

## Left out

- Module import and registration (`ImportStatusModule`,
  `CheckStatusModuleImported` at `status_casters.h:45-55, 109, 167`). These are
  Python module import and one-time global state. The model assumes the status
  module has been imported. The error raised when the module is missing is
  not modelled.
- pybind11 machinery: handles, reference counting, the `parent` handle, and
  object construction by `type_caster_base<absl::Status>`. An object that
  comes back is an abstract `PyObject` value.
- Ownership semantics of return-value policies (`status_casters.h:124-135`).
  The difference between the lvalue and rvalue overloads (copy or move) is
  also left out. Only the policy tag is carried.
- Aliasing of statuses and results returned by reference or pointer. This
  depends on pybind11's reference policies and on C++ storage, not on this
  header.
- Casters for payload types other than `Status`, `StatusOr` and
  `NoThrowStatus`. Their payloads are abstract values returned unchanged.
- The loading direction (Python to C++), the Python exception class
  hierarchy, and the Python `Status` class. These live in the status module,
  which is not part of this model.
- IsOkObject: the status module's `is_ok` is not part of this model. It is
  modelled from the tests, which show it returning true for a payload and
  `ok()` for a status object. A `None` argument is treated like any other
  non-status value.
- ParseStatusToString: the round trip is stated only for statuses whose ok
  form has an empty message. An ok status renders as `"OK"` whatever message
  it holds, and the library never keeps a message with code OK.
- The integer values of the status codes.
- The duration, time, civil-time, span, string_view, hash-container,
  optional and variant casters. Their implementation is not part of this
  model.
