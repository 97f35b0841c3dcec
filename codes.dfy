/** Legacy result codes (cl_rv) and the public status taxonomy (as_status).
    The numeric values of cl_rv come from the library's cl_types.h header;
    as_status values are only observed through their names, which
    ERR_ASSIGN writes into the error message. */
module ResultCodes {

  // Legacy result codes returned by the citrusleaf layer.
  const FAIL_ASYNCQ_FULL: int := -3
  const FAIL_TIMEOUT: int := -2
  const FAIL_CLIENT: int := -1
  const OK: int := 0
  const FAIL_UNKNOWN: int := 1
  const FAIL_NOTFOUND: int := 2
  const FAIL_GENERATION: int := 3
  const FAIL_PARAMETER: int := 4
  const FAIL_RECORD_EXISTS: int := 5
  const FAIL_BIN_EXISTS: int := 6
  const FAIL_CLUSTER_KEY_MISMATCH: int := 7
  const FAIL_PARTITION_OUT_OF_SPACE: int := 8
  const FAIL_SERVERSIDE_TIMEOUT: int := 9
  const FAIL_NOXDS: int := 10
  const FAIL_UNAVAILABLE: int := 11
  const FAIL_INCOMPATIBLE_TYPE: int := 12
  const FAIL_RECORD_TOO_BIG: int := 13
  const FAIL_KEY_BUSY: int := 14
  const FAIL_SCAN_ABORT: int := 15
  const FAIL_UNSUPPORTED_FEATURE: int := 16
  const FAIL_BIN_NOT_FOUND: int := 17
  const FAIL_DEVICE_OVERLOAD: int := 18
  const FAIL_KEY_MISMATCH: int := 19
  const QUERY_END: int := 50
  const SECURITY_NOT_SUPPORTED: int := 51
  const SECURITY_NOT_ENABLED: int := 52
  const SECURITY_SCHEME_NOT_SUPPORTED: int := 53
  const INVALID_COMMAND: int := 54
  const INVALID_FIELD: int := 55
  const ILLEGAL_STATE: int := 56
  const INVALID_USER: int := 60
  const USER_ALREADY_EXISTS: int := 61
  const INVALID_PASSWORD: int := 62
  const EXPIRED_PASSWORD: int := 63
  const FORBIDDEN_PASSWORD: int := 64
  const INVALID_CREDENTIAL: int := 65
  const INVALID_ROLE: int := 70
  const INVALID_PRIVILEGE: int := 71
  const NOT_AUTHENTICATED: int := 80
  const ROLE_VIOLATION: int := 81
  const FAIL_INVALID_DATA: int := 99
  const FAIL_UDF_BAD_RESPONSE: int := 100
  const FAIL_UDF_LUA_EXECUTION: int := 101
  const FAIL_LUA_FILE_NOTFOUND: int := 102
  const FAIL_INDEX_FOUND: int := 200
  const FAIL_INDEX_NOTFOUND: int := 201
  const FAIL_INDEX_OOM: int := 202
  const FAIL_INDEX_NOTREADABLE: int := 203
  const FAIL_INDEX_GENERIC: int := 204
  const FAIL_INDEX_NAME_MAXLEN: int := 205
  const FAIL_INDEX_MAXCOUNT: int := 206
  const FAIL_QUERY_ABORTED: int := 210
  const FAIL_QUERY_QUEUEFULL: int := 211
  const FAIL_QUERY_TIMEOUT: int := 212
  const FAIL_QUERY_GENERIC: int := 213

  /** The public status taxonomy, one constructor per as_status value the
      mapping can produce. */
  datatype Status =
    | Ok
    | ErrTimeout
    | ErrServer
    | ErrRecordNotFound
    | ErrRecordGeneration
    | ErrRequestInvalid
    | ErrRecordExists
    | ErrClusterChange
    | ErrServerFull
    | ErrNoXdr
    | ErrCluster
    | ErrBinIncompatibleType
    | ErrRecordTooBig
    | ErrRecordBusy
    | ErrDeviceOverload
    | ErrRecordKeyMismatch
    | ErrScanAborted
    | ErrUnsupportedFeature
    | SecurityNotSupported
    | SecurityNotEnabled
    | SecuritySchemeNotSupported
    | InvalidCommand
    | InvalidField
    | IllegalState
    | InvalidUser
    | UserAlreadyExists
    | InvalidPassword
    | ExpiredPassword
    | ForbiddenPassword
    | InvalidCredential
    | InvalidRole
    | InvalidPrivilege
    | NotAuthenticated
    | RoleViolation
    | ErrUdf
    | ErrLuaFileNotFound
    | ErrIndexFound
    | ErrIndexNotFound
    | ErrIndexOom
    | ErrIndexNotReadable
    | ErrIndex
    | ErrIndexNameMaxlen
    | ErrIndexMaxcount
    | ErrQueryAborted
    | ErrQueryQueueFull
    | ErrQuery
    | ErrClient
  {
    /** The C enumerator's spelling, as the stringifying macro produces it. */
    function Name(): (s: string)
      ensures |s| > 0
    {
      "AEROSPIKE_" + Suffix()
    }

    /** The enumerator's spelling after the common prefix. */
    function Suffix(): string
    {
      match this
      case Ok => "OK"
      case ErrTimeout => "ERR_TIMEOUT"
      case ErrServer => "ERR_SERVER"
      case ErrRecordNotFound => "ERR_RECORD_NOT_FOUND"
      case ErrRecordGeneration => "ERR_RECORD_GENERATION"
      case ErrRequestInvalid => "ERR_REQUEST_INVALID"
      case ErrRecordExists => "ERR_RECORD_EXISTS"
      case ErrClusterChange => "ERR_CLUSTER_CHANGE"
      case ErrServerFull => "ERR_SERVER_FULL"
      case ErrNoXdr => "ERR_NO_XDR"
      case ErrCluster => "ERR_CLUSTER"
      case ErrBinIncompatibleType => "ERR_BIN_INCOMPATIBLE_TYPE"
      case ErrRecordTooBig => "ERR_RECORD_TOO_BIG"
      case ErrRecordBusy => "ERR_RECORD_BUSY"
      case ErrDeviceOverload => "ERR_DEVICE_OVERLOAD"
      case ErrRecordKeyMismatch => "ERR_RECORD_KEY_MISMATCH"
      case ErrScanAborted => "ERR_SCAN_ABORTED"
      case ErrUnsupportedFeature => "ERR_UNSUPPORTED_FEATURE"
      case SecurityNotSupported => "SECURITY_NOT_SUPPORTED"
      case SecurityNotEnabled => "SECURITY_NOT_ENABLED"
      case SecuritySchemeNotSupported => "SECURITY_SCHEME_NOT_SUPPORTED"
      case InvalidCommand => "INVALID_COMMAND"
      case InvalidField => "INVALID_FIELD"
      case IllegalState => "ILLEGAL_STATE"
      case InvalidUser => "INVALID_USER"
      case UserAlreadyExists => "USER_ALREADY_EXISTS"
      case InvalidPassword => "INVALID_PASSWORD"
      case ExpiredPassword => "EXPIRED_PASSWORD"
      case ForbiddenPassword => "FORBIDDEN_PASSWORD"
      case InvalidCredential => "INVALID_CREDENTIAL"
      case InvalidRole => "INVALID_ROLE"
      case InvalidPrivilege => "INVALID_PRIVILEGE"
      case NotAuthenticated => "NOT_AUTHENTICATED"
      case RoleViolation => "ROLE_VIOLATION"
      case ErrUdf => "ERR_UDF"
      case ErrLuaFileNotFound => "ERR_LUA_FILE_NOT_FOUND"
      case ErrIndexFound => "ERR_INDEX_FOUND"
      case ErrIndexNotFound => "ERR_INDEX_NOT_FOUND"
      case ErrIndexOom => "ERR_INDEX_OOM"
      case ErrIndexNotReadable => "ERR_INDEX_NOT_READABLE"
      case ErrIndex => "ERR_INDEX"
      case ErrIndexNameMaxlen => "ERR_INDEX_NAME_MAXLEN"
      case ErrIndexMaxcount => "ERR_INDEX_MAXCOUNT"
      case ErrQueryAborted => "ERR_QUERY_ABORTED"
      case ErrQueryQueueFull => "ERR_QUERY_QUEUE_FULL"
      case ErrQuery => "ERR_QUERY"
      case ErrClient => "ERR_CLIENT"
    }
  }
}
