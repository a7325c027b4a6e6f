/**
 * The response envelope every server action returns, and the helpers that
 * build, inspect and consume it (lib/action-helpers.ts).
 */
module ActionHelpers {

  /** `{ success: true, data }` or `{ success: false, error }`; `ActionResponse<()>` is the void form. */
  datatype ActionResponse<T> = Success(data: T) | Failure(error: string)

  /**
   * How an action ends: it returns a value, or it throws. A thrown value is
   * either an `Error` (`isError`) with its `message`, or some other value.
   */
  datatype Outcome<T> = Returns(value: T) | Throws(isError: bool, message: string)

  const UnexpectedError := "An unexpected error occurred"

  /** The text `safeAction` reports for a thrown value. */
  function ThrownMessage(isError: bool, message: string): string {
    if isError then message else UnexpectedError
  }

  /** `safeAction(action)`: runs the action and never lets a throw escape. */
  function SafeAction<T>(action: Outcome<T>): (r: ActionResponse<T>)
    ensures r.Success? <==> action.Returns?
    ensures action.Returns? ==> r.data == action.value
    ensures action.Throws? && action.isError ==> r.error == action.message
    ensures action.Throws? && !action.isError ==> r.error == UnexpectedError
  {
    match action
    case Returns(v) => Success(v)
    case Throws(isError, message) => Failure(ThrownMessage(isError, message))
  }

  predicate IsErrorResponse<T>(r: ActionResponse<T>) {
    r.Failure?
  }

  /** The two guards are complementary: every response is exactly one of the two. */
  predicate IsSuccessResponse<T>(r: ActionResponse<T>): (b: bool)
    ensures b <==> !IsErrorResponse(r)
  {
    r.Success?
  }

  /** `unwrapResponse(r)`: the data of a success, or a throw of `new Error(r.error)`. */
  function UnwrapResponse<T>(r: ActionResponse<T>): (o: Outcome<T>)
    ensures IsSuccessResponse(r) ==> o == Returns(r.data)
    ensures IsErrorResponse(r) ==> o == Throws(true, r.error)
  {
    if IsSuccessResponse(r) then Returns(r.data) else Throws(true, r.error)
  }

  /**
   * Unwrapping a wrapped action gives back what the action did, except that a
   * thrown non-`Error` comes back as an `Error` carrying the generic message.
   */
  lemma UnwrapSafeAction<T>(action: Outcome<T>)
    ensures action.Returns? ==> UnwrapResponse(SafeAction(action)) == action
    ensures action.Throws? && action.isError ==> UnwrapResponse(SafeAction(action)) == action
    ensures action.Throws? && !action.isError ==> UnwrapResponse(SafeAction(action)) == Throws(true, UnexpectedError)
  {
  }

  /** Wrapping an unwrap gives back the response itself. */
  lemma SafeActionUnwrap<T>(r: ActionResponse<T>)
    ensures SafeAction(UnwrapResponse(r)) == r
  {
  }

  /** A call of one of the two handlers passed to `handleResponse`. */
  datatype HandlerCall<T> = OnSuccess(data: T) | OnError(error: string)

  /** The handler calls `handleResponse(r, handlers)` makes, in order. */
  function HandleResponse<T>(r: ActionResponse<T>): (calls: seq<HandlerCall<T>>)
    ensures |calls| == 1
    ensures calls[0].OnSuccess? <==> IsSuccessResponse(r)
    ensures calls[0].OnSuccess? ==> calls[0].data == r.data
    ensures calls[0].OnError? ==> calls[0].error == r.error
  {
    if IsSuccessResponse(r) then [OnSuccess(r.data)] else [OnError(r.error)]
  }

  /** Handling a wrapped action calls `onSuccess` with its value, or `onError` with what it threw. */
  lemma HandleSafeAction<T>(action: Outcome<T>)
    ensures action.Returns? ==> HandleResponse(SafeAction(action)) == [OnSuccess(action.value)]
    ensures action.Throws? ==> HandleResponse(SafeAction(action)) == [OnError(ThrownMessage(action.isError, action.message))]
  {
  }
}
