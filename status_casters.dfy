/** The native-to-Python casters for absl::Status, absl::StatusOr<T> and the
    NoThrowStatus wrapper. Each caster decides between three things Python
    can see: None, a raised StatusNotOk carrying a status, or a returned
    object (the status itself, or the payload cast by its own caster). */
module StatusCasters {
  import opened StatusTypes

  /** pybind11's return_value_policy, carried as an opaque tag: only which
      policy reaches which caster is modelled, not what it does. */
  datatype Policy =
    | Automatic | AutomaticReference | TakeOwnership | Copy | Move
    | Reference | ReferenceInternal

  /** How a native value reaches a cast overload: through a pointer that may
      be null, or through an lvalue or rvalue reference (which the casters
      treat alike: they differ only in copying or moving). */
  datatype Src<+S> = ByPointer(target: Option<S>) | ByReference(value: S) {
    predicate IsNull() { ByPointer? && target.None? }

    function Get(): S
      requires !IsNull()
    {
      if ByPointer? then target.value else value
    }
  }

  /** A native value returned to Python, classified by the caster that
      make_caster picks for its type: a Status, a StatusOr (whose payload is
      again such a value), a NoThrowStatus wrapper, or a type whose caster is
      not part of this model. */
  datatype Native<+T> =
    | Opaque(payload: T)
    | StatusValue(status: Src<Status>)
    | StatusOrValue(statusOr: Src<StatusOr<Native<T>>>)
    | NoThrow(wrapper: NoThrowStatus<T>)

  /** NoThrowStatus<StatusType>: the StatusType is a Status or a StatusOr. */
  datatype NoThrowStatus<+T> =
    | NoThrowOfStatus(status: Src<Status>)
    | NoThrowOfStatusOr(statusOr: Src<StatusOr<Native<T>>>)

  /** What a cast hands back to Python when it does not raise. */
  datatype PyObject<+T> =
    | PyNone
    | PyStatus(status: Status, policy: Policy)
    | PyPayload(payload: T, policy: Policy)

  /** The Python exception raised for a non-ok status. */
  datatype StatusNotOk = StatusNotOk(status: Status)

  datatype Outcome<+T> = Returned(obj: PyObject<T>) | Raised(exc: StatusNotOk) {
    predicate ReturnsStatusObject() { Returned? && obj.PyStatus? }
    predicate ReturnsPayload() { Returned? && obj.PyPayload? }
  }

  // ---------------------------------------------------------------------
  // type_caster<absl::Status>

  /** The shared body of the three Status overloads. */
  function CastStatusImpl<T>(src: Status, policy: Policy, throwException: bool): (r: Outcome<T>)
    ensures r.Raised? <==> throwException && !src.IsOk()
    ensures r.Raised? ==> r.exc.status == src
    ensures r.ReturnsStatusObject() <==> !throwException
    ensures r.ReturnsStatusObject() ==> r.obj == PyStatus(src, policy)
    ensures r == Returned(PyNone) <==> throwException && src.IsOk()
    ensures !r.ReturnsPayload()
  {
    if !throwException then Returned(PyStatus(src, policy))
    else if !src.IsOk() then Raised(StatusNotOk(src))
    else Returned(PyNone)
  }

  /** The Status cast overloads (pointer, lvalue and rvalue reference);
      throw_exception defaults to true. */
  function CastStatus<T>(src: Src<Status>, policy: Policy, throwException: bool := true): (r: Outcome<T>)
    ensures src.IsNull() ==> r == Returned(PyNone)
    ensures r.Raised? <==> !src.IsNull() && throwException && !src.Get().IsOk()
    ensures r.Raised? ==> r.exc.status == src.Get()
    ensures r.ReturnsStatusObject() <==> !src.IsNull() && !throwException
    ensures r.ReturnsStatusObject() ==> r.obj == PyStatus(src.Get(), policy)
    ensures !r.ReturnsPayload()
  {
    if src.IsNull() then Returned(PyNone)
    else CastStatusImpl(src.Get(), policy, throwException)
  }

  // ---------------------------------------------------------------------
  // type_caster<absl::StatusOr<PayloadType>>

  /** The shared body of the three StatusOr overloads. An ok result is its
      payload cast by the payload's caster with the caller's policy (that
      caster gets no throw flag, so its own default applies); a failed one is
      its status cast by the Status caster with policy move and the caller's
      throw flag. */
  function CastStatusOrImpl<T>(src: StatusOr<Native<T>>, policy: Policy, throwException: bool): (r: Outcome<T>)
    decreases src, 1
    ensures src.IsOk() ==> r == Cast(src.value, policy)
    ensures !src.IsOk() ==> r == CastStatus(ByReference(src.GetStatus()), Move, throwException)
    ensures src.Error? ==> (r.Raised? <==> throwException)
    ensures src.Error? && r.Raised? ==> r.exc.status == src.err
    ensures src.Error? && !throwException ==> r == Returned(PyStatus(src.err, Move))
  {
    if src.IsOk() then Cast(src.value, policy)
    else CastStatus(ByReference(src.GetStatus()), Move, throwException)
  }

  /** The StatusOr cast overloads (pointer, lvalue and rvalue reference);
      throw_exception defaults to true. */
  function CastStatusOr<T>(src: Src<StatusOr<Native<T>>>, policy: Policy, throwException: bool := true): (r: Outcome<T>)
    decreases src, 2
    ensures src.IsNull() ==> r == Returned(PyNone)
    ensures !src.IsNull() && src.Get().Value? ==> r == Cast(src.Get().value, policy)
    ensures !src.IsNull() && src.Get().Error? ==> (r.Raised? <==> throwException)
    ensures !src.IsNull() && src.Get().Error? && r.Raised? ==> r.exc.status == src.Get().err
    ensures !src.IsNull() && src.Get().Error? && !throwException ==>
              r == Returned(PyStatus(src.Get().err, Move))
  {
    if src.IsNull() then Returned(PyNone)
    else CastStatusOrImpl(src.Get(), policy, throwException)
  }

  // ---------------------------------------------------------------------
  // type_caster<NoThrowStatus<StatusType>>

  /** NoThrowStatus forwards to the caster of the wrapped type with
      throw_exception = false. */
  function CastNoThrow<T>(src: NoThrowStatus<T>, policy: Policy): (r: Outcome<T>)
    decreases src, 3
    ensures src.NoThrowOfStatus? ==> r == CastStatus(src.status, policy, false)
    ensures src.NoThrowOfStatusOr? ==> r == CastStatusOr(src.statusOr, policy, false)
    ensures src.NoThrowOfStatus? ==> !r.Raised?
    ensures src.NoThrowOfStatus? && src.status.IsNull() ==> r == Returned(PyNone)
    ensures src.NoThrowOfStatusOr? && src.statusOr.IsNull() ==> r == Returned(PyNone)
    ensures src.NoThrowOfStatusOr? && !src.statusOr.IsNull() && src.statusOr.Get().Value? ==>
              r == Cast(src.statusOr.Get().value, policy)
    ensures src.NoThrowOfStatus? && !src.status.IsNull() ==>
              r == Returned(PyStatus(src.status.Get(), policy))
    ensures src.NoThrowOfStatusOr? && !src.statusOr.IsNull() && src.statusOr.Get().Error? ==>
              r == Returned(PyStatus(src.statusOr.Get().err, Move))
    ensures r.Raised? ==>
              src.NoThrowOfStatusOr? && !src.statusOr.IsNull() && src.statusOr.Get().Value?
  {
    match src
    case NoThrowOfStatus(s) => CastStatus(s, policy, false)
    case NoThrowOfStatusOr(so) => CastStatusOr(so, policy, false)
  }

  // ---------------------------------------------------------------------
  // make_caster dispatch

  /** The cast pybind11 applies to a returned value or a StatusOr payload:
      the caster chosen by the value's type, called without a throw flag. */
  function Cast<T>(v: Native<T>, policy: Policy): (r: Outcome<T>)
    decreases v, 4
    ensures v.Opaque? ==> r == Returned(PyPayload(v.payload, policy))
    ensures r.ReturnsPayload() ==> r.obj.policy == policy
  {
    match v
    case Opaque(p) => Returned(PyPayload(p, policy))
    case StatusValue(s) => CastStatus(s, policy)
    case StatusOrValue(so) => CastStatusOr(so, policy)
    case NoThrow(w) => CastNoThrow(w, policy)
  }
}
