/** The error classifier of utils/errors.ts: an ordered series of substring tests on an
    error's message, from network failures through authentication, validation and server
    errors to a catch-all. */
module Errors {
  import opened Seqs
  import opened Types

  /** A thrown value: an `Error` with its message, or anything else. */
  datatype ErrorValue = ErrorObject(message: string) | NotAnError

  datatype ErrorType = Network | Auth | Validation | Server | Unknown

  datatype ErrorInfo = ErrorInfo(kind: ErrorType, message: string, statusCode: Option<int>)

  const NETWORK_KEYS: seq<string> := ["Failed to fetch", "NetworkError", "Network request failed"]
  const AUTH_KEYS: seq<string> := ["Unauthorized", "Invalid token", "Token expired"]
  const VALIDATION_KEYS: seq<string> := ["validation", "Validation"]
  const SERVER_KEYS: seq<string> := ["Internal Server Error", "500"]

  const NETWORK_MESSAGE: string := "네트워크 연결을 확인해주세요. 잠시 후 다시 시도해주세요."
  const AUTH_MESSAGE: string := "로그인이 필요합니다. 다시 로그인해주세요."
  const VALIDATION_MESSAGE: string := "입력값을 확인해주세요."
  const SERVER_MESSAGE: string := "서버 오류가 발생했습니다. 잠시 후 다시 시도해주세요."
  const UNKNOWN_MESSAGE: string := "오류가 발생했습니다."
  const NON_ERROR_MESSAGE: string := "알 수 없는 오류가 발생했습니다."

  predicate IsNetworkMessage(m: string)
  {
    ContainsAny(m, NETWORK_KEYS)
  }

  /** The authentication test; its exact-match alternative is subsumed by the substring test
      (see `ExactUnauthorizedIsContained`). */
  predicate IsAuthMessage(m: string)
  {
    ContainsAny(m, AUTH_KEYS) || m == "Unauthorized"
  }

  predicate IsValidationMessage(m: string)
  {
    ContainsAny(m, VALIDATION_KEYS)
  }

  predicate IsServerMessage(m: string)
  {
    ContainsAny(m, SERVER_KEYS)
  }

  /** `message || fallback`: the empty message is falsy. */
  function OrDefault(m: string, fallback: string): (r: string)
    ensures |m| > 0 ==> r == m
    ensures |m| == 0 ==> r == fallback
  {
    if |m| > 0 then m else fallback
  }

  /** Classifies a thrown value; the first test that matches decides. */
  function GetErrorInfo(e: ErrorValue): (r: ErrorInfo)
    ensures r.kind == Network <==> e.ErrorObject? && IsNetworkMessage(e.message)
    ensures r.kind == Auth <==> e.ErrorObject? && !IsNetworkMessage(e.message) && IsAuthMessage(e.message)
    ensures r.kind == Validation <==>
              e.ErrorObject? && !IsNetworkMessage(e.message) && !IsAuthMessage(e.message) && IsValidationMessage(e.message)
    ensures r.kind == Server <==>
              e.ErrorObject? && !IsNetworkMessage(e.message) && !IsAuthMessage(e.message)
              && !IsValidationMessage(e.message) && IsServerMessage(e.message)
    ensures r.kind == Unknown <==>
              e.NotAnError? || (!IsNetworkMessage(e.message) && !IsAuthMessage(e.message)
                                && !IsValidationMessage(e.message) && !IsServerMessage(e.message))
    ensures r.statusCode == match r.kind
                            case Auth => Some(401)
                            case Validation => Some(400)
                            case Server => Some(500)
                            case _ => None
    ensures r.kind == Validation ==> r.message == OrDefault(e.message, VALIDATION_MESSAGE)
    ensures r.kind == Unknown && e.ErrorObject? ==> r.message == OrDefault(e.message, UNKNOWN_MESSAGE)
    ensures e.NotAnError? ==> r.message == NON_ERROR_MESSAGE
    ensures r.kind == Network ==> r.message == NETWORK_MESSAGE
    ensures r.kind == Auth ==> r.message == AUTH_MESSAGE
    ensures r.kind == Server ==> r.message == SERVER_MESSAGE
    ensures |r.message| > 0
  {
    match e
    case NotAnError => ErrorInfo(Unknown, NON_ERROR_MESSAGE, None)
    case ErrorObject(m) =>
      if IsNetworkMessage(m) then ErrorInfo(Network, NETWORK_MESSAGE, None)
      else if IsAuthMessage(m) then ErrorInfo(Auth, AUTH_MESSAGE, Some(401))
      else if IsValidationMessage(m) then ErrorInfo(Validation, OrDefault(m, VALIDATION_MESSAGE), Some(400))
      else if IsServerMessage(m) then ErrorInfo(Server, SERVER_MESSAGE, Some(500))
      else ErrorInfo(Unknown, OrDefault(m, UNKNOWN_MESSAGE), None)
  }

  /** The user-facing message of a thrown value; never empty. */
  function GetErrorMessage(e: ErrorValue): (r: string)
    ensures r == GetErrorInfo(e).message && |r| > 0
  {
    GetErrorInfo(e).message
  }

  /** A message is found in itself. */
  lemma ContainsSelf(s: string)
    ensures Contains(s, s)
  {
    ContainsMeansOccurs(s, s);
    assert OccursAt(s, s, 0);
  }

  /** The message exactly "Unauthorized" already passes the substring test. */
  lemma ExactUnauthorizedIsContained(m: string)
    requires m == "Unauthorized"
    ensures ContainsAny(m, AUTH_KEYS)
  {
    ContainsSelf(m);
    assert AUTH_KEYS[0] == m;
  }

  /** A message mentioning a network failure is a network error, whatever else it says: an
      "Unauthorized ... Failed to fetch" message is not an authentication error. */
  lemma NetworkWinsOverAuth(prefix: string, suffix: string)
    ensures GetErrorInfo(ErrorObject(prefix + "Failed to fetch" + suffix)).kind == Network
  {
    var m := prefix + "Failed to fetch" + suffix;
    assert m[|prefix|..|prefix| + |"Failed to fetch"|] == "Failed to fetch";
    assert OccursAt(m, "Failed to fetch", |prefix|);
    ContainsMeansOccurs(m, "Failed to fetch");
    assert NETWORK_KEYS[0] == "Failed to fetch";
  }
}
