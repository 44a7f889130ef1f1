/** The response envelope every API endpoint returns, and the mapping from exceptions to error codes. */
module Api {
  import opened Wrappers
  import opened JsonValues

  /** The exceptions the endpoints distinguish; `str(e)` is the carried message. */
  datatype PyException = ValidationError(msg: string) | AccessError(msg: string) | OtherError(msg: string)

  const AccessDeniedMessage := "Kh\U{F4}ng c\U{F3} quy\U{1EC1}n truy c\U{1EAD}p"   // "Không có quyền truy cập"
  const SystemErrorMessage := "L\U{1ED7}i h\U{1EC7} th\U{1ED1}ng"                  // "Lỗi hệ thống"

  /**
   * _get_response: success, message and data are always present, a falsy data
   * becomes {}, and error_code is present only for a non-empty code.
   */
  function GetResponse(success: bool, data: Json, message: string, errorCode: Option<string>): (r: map<string, Json>)
    ensures "success" in r && "message" in r && "data" in r
    ensures r["success"] == JBool(success) && r["message"] == JStr(message)
    ensures Truthy(data) ==> r["data"] == data
    ensures !Truthy(data) ==> r["data"] == EmptyObject
    ensures "error_code" in r <==> errorCode.Some? && errorCode.value != ""
    ensures "error_code" in r ==> r["error_code"] == JStr(errorCode.value)
    ensures r.Keys <= {"success", "message", "data", "error_code"}
  {
    var base := map["success" := JBool(success), "message" := JStr(message), "data" := if Truthy(data) then data else EmptyObject];
    if errorCode.Some? && errorCode.value != "" then base["error_code" := JStr(errorCode.value)] else base
  }

  /** Whatever is passed in, the envelope's data is either the given truthy value or the empty object, never null. */
  lemma ResponseDataNeverFalsyUnlessEmpty(success: bool, data: Json, message: string, errorCode: Option<string>)
    ensures var d := GetResponse(success, data, message, errorCode)["data"]; Truthy(d) || d == EmptyObject
  {
  }

  /** The error code an exception is reported under. */
  function ExceptionCode(e: PyException): string {
    match e
    case ValidationError(_) => "VALIDATION_ERROR"
    case AccessError(_) => "ACCESS_ERROR"
    case OtherError(_) => "SYSTEM_ERROR"
  }

  /**
   * _handle_exception: always a failure; a validation error keeps its own
   * message, an access error and anything else get fixed messages.
   */
  function HandleException(e: PyException): (r: map<string, Json>)
    ensures "success" in r && r["success"] == JBool(false)
    ensures "error_code" in r && r["error_code"] == JStr(ExceptionCode(e))
    ensures "message" in r && "data" in r
    ensures e.ValidationError? ==> r["message"] == JStr(e.msg)
    ensures e.AccessError? ==> r["message"] == JStr(AccessDeniedMessage)
    ensures e.OtherError? ==> r["message"] == JStr(SystemErrorMessage)
    ensures r["data"] == EmptyObject
  {
    match e
    case ValidationError(m) => GetResponse(false, JNull, m, Some("VALIDATION_ERROR"))
    case AccessError(_) => GetResponse(false, JNull, AccessDeniedMessage, Some("ACCESS_ERROR"))
    case OtherError(_) => GetResponse(false, JNull, SystemErrorMessage, Some("SYSTEM_ERROR"))
  }
}
