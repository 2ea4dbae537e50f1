/** What Python observes when a native value crosses the boundary, stated
    against definitions that follow the value rather than the casters: the
    first error met on the path the casters take, the payload or status
    object at the end of that path, and whether a NoThrowStatus wrapper lies
    on it. */
module CasterProperties {
  import opened StatusTypes
  import opened StatusCasters

  /** The first non-ok status met when following `v` through non-null
      pointers and ok payloads, unless that status sits directly inside a
      NoThrowStatus wrapper. */
  ghost function PathError<T>(v: Native<T>): (e: Option<Status>)
    ensures e.Some? ==> !e.value.IsOk()
  {
    match v
    case Opaque(_) => None
    case StatusValue(src) =>
      if src.IsNull() || src.Get().IsOk() then None else Some(src.Get())
    case StatusOrValue(src) =>
      if src.IsNull() then None
      else (match src.Get()
            case Value(p) => PathError(p)
            case Error(e) => Some(e))
    case NoThrow(NoThrowOfStatus(_)) => None
    case NoThrow(NoThrowOfStatusOr(src)) =>
      if src.IsNull() then None
      else (match src.Get()
            case Value(p) => PathError(p)
            case Error(_) => None)
  }

  /** The value of the opaque payload at the end of the path, if the path
      ends in one. */
  ghost function PathPayload<T>(v: Native<T>): Option<T> {
    match v
    case Opaque(p) => Some(p)
    case StatusValue(_) => None
    case StatusOrValue(src) =>
      if src.IsNull() || src.Get().Error? then None else PathPayload(src.Get().value)
    case NoThrow(NoThrowOfStatus(_)) => None
    case NoThrow(NoThrowOfStatusOr(src)) =>
      if src.IsNull() || src.Get().Error? then None else PathPayload(src.Get().value)
  }

  /** Whether a NoThrowStatus wrapper lies on the path. */
  ghost predicate PathHasNoThrow<T>(v: Native<T>) {
    match v
    case Opaque(_) => false
    case StatusValue(_) => false
    case StatusOrValue(src) =>
      !src.IsNull() && src.Get().Value? && PathHasNoThrow(src.Get().value)
    case NoThrow(_) => true
  }

  /** The status object at the end of the path, if the path ends in a
      NoThrowStatus wrapper around a non-null status or failed StatusOr: the
      wrapped status with the caller's policy, or the StatusOr's error with
      policy move. */
  ghost function PathStatusObject<T>(v: Native<T>, policy: Policy): Option<PyObject<T>> {
    match v
    case Opaque(_) => None
    case StatusValue(_) => None
    case StatusOrValue(src) =>
      if src.IsNull() || src.Get().Error? then None
      else PathStatusObject(src.Get().value, policy)
    case NoThrow(NoThrowOfStatus(src)) =>
      if src.IsNull() then None else Some(PyStatus(src.Get(), policy))
    case NoThrow(NoThrowOfStatusOr(src)) =>
      if src.IsNull() then None
      else (match src.Get()
            case Value(p) => PathStatusObject(p, policy)
            case Error(e) => Some(PyStatus(e, Move)))
  }

  /** A returned value comes back as a status object exactly when its path
      ends in one, and it is that object: the wrapped status, code and
      message unchanged, with the policy its caster was given. */
  lemma {:induction false} CastYieldsPathStatusObject<T>(v: Native<T>, policy: Policy)
    ensures Cast(v, policy).ReturnsStatusObject() <==> PathStatusObject(v, policy).Some?
    ensures Cast(v, policy).ReturnsStatusObject() ==>
              Cast(v, policy).obj == PathStatusObject(v, policy).value
  {
    match v
    case Opaque(_) =>
    case StatusValue(_) =>
    case StatusOrValue(src) =>
      if !src.IsNull() && src.Get().Value? {
        CastYieldsPathStatusObject(src.Get().value, policy);
      }
    case NoThrow(NoThrowOfStatus(_)) =>
    case NoThrow(NoThrowOfStatusOr(src)) =>
      if !src.IsNull() && src.Get().Value? {
        CastYieldsPathStatusObject(src.Get().value, policy);
      }
  }

  /** A returned value raises exactly when an error lies on its path, and
      the exception carries that very status (code and message unchanged). */
  lemma {:induction false} CastRaisesOnPathError<T>(v: Native<T>, policy: Policy)
    ensures Cast(v, policy).Raised? <==> PathError(v).Some?
    ensures Cast(v, policy).Raised? ==> Cast(v, policy).exc.status == PathError(v).value
  {
    match v
    case Opaque(_) =>
    case StatusValue(_) =>
    case StatusOrValue(src) =>
      if !src.IsNull() && src.Get().Value? {
        CastRaisesOnPathError(src.Get().value, policy);
      }
    case NoThrow(NoThrowOfStatus(_)) =>
    case NoThrow(NoThrowOfStatusOr(src)) =>
      if !src.IsNull() && src.Get().Value? {
        CastRaisesOnPathError(src.Get().value, policy);
      }
  }

  /** A StatusNotOk never carries an ok status. */
  lemma RaisedStatusIsNotOk<T>(v: Native<T>, policy: Policy)
    requires Cast(v, policy).Raised?
    ensures !Cast(v, policy).exc.status.IsOk()
  {
    CastRaisesOnPathError(v, policy);
  }

  /** Python sees a status object only through a NoThrowStatus wrapper: with
      the default throw flag a status is raised or becomes None. */
  lemma {:induction false} StatusObjectOnlyThroughNoThrow<T>(v: Native<T>, policy: Policy)
    requires Cast(v, policy).ReturnsStatusObject()
    ensures PathHasNoThrow(v)
  {
    match v
    case StatusOrValue(src) =>
      assert !src.IsNull() && src.Get().Value?;
      StatusObjectOnlyThroughNoThrow(src.Get().value, policy);
    case NoThrow(_) =>
  }

  /** When nothing on the path raises, Python gets the payload at its end,
      cast with the caller's policy, and never anything else. */
  lemma {:induction false} CastYieldsPathPayload<T>(v: Native<T>, policy: Policy)
    ensures Cast(v, policy).ReturnsPayload() <==> PathError(v).None? && PathPayload(v).Some?
    ensures Cast(v, policy).ReturnsPayload() ==>
              Cast(v, policy).obj == PyPayload(PathPayload(v).value, policy)
  {
    match v
    case Opaque(_) =>
    case StatusValue(_) =>
    case StatusOrValue(src) =>
      if !src.IsNull() && src.Get().Value? {
        CastYieldsPathPayload(src.Get().value, policy);
      }
    case NoThrow(NoThrowOfStatus(_)) =>
    case NoThrow(NoThrowOfStatusOr(src)) =>
      if !src.IsNull() && src.Get().Value? {
        CastYieldsPathPayload(src.Get().value, policy);
      }
  }

  /** A plain return of an ok StatusOr whose payload is opaque gives that
      payload, whatever the throw flag; a failed one gives exactly what the
      Status caster gives for its status with policy move. */
  lemma StatusOrDelegates<T>(so: StatusOr<Native<T>>, policy: Policy, throwException: bool)
    ensures so.Value? && so.value.Opaque? ==>
              CastStatusOr(ByReference(so), policy, throwException)
              == Returned(PyPayload(so.value.payload, policy))
    ensures so.Error? ==>
              CastStatusOr(ByReference(so), policy, throwException)
              == CastStatus(ByReference(so.err), Move, throwException)
              == CastStatusOr(ByPointer(Some(so)), policy, throwException)
  {
  }

  /** The throw flag defaults to true: a Status returned without a
      NoThrowStatus wrapper is raised or becomes None, never an object. */
  lemma DefaultFlagHidesStatus<T>(src: Src<Status>, policy: Policy)
    ensures !CastStatus<T>(src, policy).ReturnsStatusObject()
    ensures CastStatus<T>(src, policy).Raised? || CastStatus<T>(src, policy) == Returned(PyNone)
  {
  }

  /** status.is_ok as the tests use it: false only for a status object that
      is not ok. */
  function IsOkObject<T>(o: PyObject<T>): bool {
    !(o.PyStatus? && !o.status.IsOk())
  }

  /** is_ok on what a NoThrowStatus cast hands back agrees with the status
      code, for a Status and for a StatusOr with a plain payload. */
  lemma IsOkAgreesWithCode<T>(s: Status, so: StatusOr<Native<T>>, policy: Policy)
    ensures CastNoThrow<T>(NoThrowOfStatus(ByReference(s)), policy).Returned?
    ensures IsOkObject(CastNoThrow<T>(NoThrowOfStatus(ByReference(s)), policy).obj)
            <==> s.code == Ok
    ensures (so.Error? || so.value.Opaque?) ==>
              var r := CastNoThrow(NoThrowOfStatusOr(ByReference(so)), policy);
              r.Returned? && (IsOkObject(r.obj) <==> so.GetStatus().code == Ok)
  {
  }
}
