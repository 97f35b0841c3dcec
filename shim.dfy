/** The translation layer between the legacy citrusleaf API and the public
    aerospike API: result-code mapping into an error object, and the
    conversion of write/operate/remove policies into write parameters. */
module Shim {
  import opened Wrappers
  import opened ResultCodes

  // ---------------------------------------------------------------------
  // Result-code mapping
  // ---------------------------------------------------------------------

  /** Every code the mapping lists explicitly. */
  const Listed: set<int> := {
    OK, FAIL_TIMEOUT, FAIL_UNKNOWN, FAIL_NOTFOUND, FAIL_GENERATION, FAIL_PARAMETER,
    FAIL_RECORD_EXISTS, FAIL_BIN_EXISTS, FAIL_CLUSTER_KEY_MISMATCH,
    FAIL_PARTITION_OUT_OF_SPACE, FAIL_SERVERSIDE_TIMEOUT, FAIL_NOXDS, FAIL_UNAVAILABLE,
    FAIL_INCOMPATIBLE_TYPE, FAIL_RECORD_TOO_BIG, FAIL_KEY_BUSY, FAIL_BIN_NOT_FOUND,
    FAIL_DEVICE_OVERLOAD, FAIL_KEY_MISMATCH, FAIL_SCAN_ABORT, FAIL_UNSUPPORTED_FEATURE,
    QUERY_END, SECURITY_NOT_SUPPORTED, SECURITY_NOT_ENABLED, SECURITY_SCHEME_NOT_SUPPORTED,
    INVALID_COMMAND, INVALID_FIELD, ILLEGAL_STATE, INVALID_USER, USER_ALREADY_EXISTS,
    INVALID_PASSWORD, EXPIRED_PASSWORD, FORBIDDEN_PASSWORD, INVALID_CREDENTIAL,
    INVALID_ROLE, INVALID_PRIVILEGE, NOT_AUTHENTICATED, ROLE_VIOLATION, FAIL_INVALID_DATA,
    FAIL_UDF_BAD_RESPONSE, FAIL_UDF_LUA_EXECUTION, FAIL_LUA_FILE_NOTFOUND,
    FAIL_INDEX_FOUND, FAIL_INDEX_NOTFOUND, FAIL_INDEX_OOM, FAIL_INDEX_NOTREADABLE,
    FAIL_INDEX_GENERIC, FAIL_INDEX_NAME_MAXLEN, FAIL_INDEX_MAXCOUNT, FAIL_QUERY_ABORTED,
    FAIL_QUERY_QUEUEFULL, FAIL_QUERY_TIMEOUT, FAIL_QUERY_GENERIC
  }

  const BinExistsText: string := "got bin-exists error - not supported"
  const BinNotFoundText: string := "got bin-not-found error - not supported"

  /** The status a legacy code is mapped to; None for the one code
      (QUERY_END) that leaves the error object untouched. */
  function StatusOf(rc: int): (r: Option<Status>)
    ensures r.None? <==> rc == QUERY_END
    ensures r == Some(Ok) <==> rc == OK
    ensures r == Some(ErrTimeout) <==>
              rc == FAIL_TIMEOUT || rc == FAIL_SERVERSIDE_TIMEOUT || rc == FAIL_QUERY_TIMEOUT
    ensures r == Some(ErrClient) <==> rc < 0 && rc != FAIL_TIMEOUT
    ensures rc !in Listed ==> r == Some(if rc < 0 then ErrClient else ErrServer)
  {
    if rc == OK then Some(Ok)
    else if rc == FAIL_TIMEOUT then Some(ErrTimeout)
    else if rc == FAIL_UNKNOWN then Some(ErrServer)
    else if rc == FAIL_NOTFOUND then Some(ErrRecordNotFound)
    else if rc == FAIL_GENERATION then Some(ErrRecordGeneration)
    else if rc == FAIL_PARAMETER then Some(ErrRequestInvalid)
    else if rc == FAIL_RECORD_EXISTS then Some(ErrRecordExists)
    else if rc == FAIL_BIN_EXISTS then Some(ErrServer)
    else if rc == FAIL_CLUSTER_KEY_MISMATCH then Some(ErrClusterChange)
    else if rc == FAIL_PARTITION_OUT_OF_SPACE then Some(ErrServerFull)
    else if rc == FAIL_SERVERSIDE_TIMEOUT then Some(ErrTimeout)
    else if rc == FAIL_NOXDS then Some(ErrNoXdr)
    else if rc == FAIL_UNAVAILABLE then Some(ErrCluster)
    else if rc == FAIL_INCOMPATIBLE_TYPE then Some(ErrBinIncompatibleType)
    else if rc == FAIL_RECORD_TOO_BIG then Some(ErrRecordTooBig)
    else if rc == FAIL_KEY_BUSY then Some(ErrRecordBusy)
    else if rc == FAIL_BIN_NOT_FOUND then Some(ErrServer)
    else if rc == FAIL_DEVICE_OVERLOAD then Some(ErrDeviceOverload)
    else if rc == FAIL_KEY_MISMATCH then Some(ErrRecordKeyMismatch)
    else if rc == FAIL_SCAN_ABORT then Some(ErrScanAborted)
    else if rc == FAIL_UNSUPPORTED_FEATURE then Some(ErrUnsupportedFeature)
    else if rc == QUERY_END then None
    else if rc == SECURITY_NOT_SUPPORTED then Some(SecurityNotSupported)
    else if rc == SECURITY_NOT_ENABLED then Some(SecurityNotEnabled)
    else if rc == SECURITY_SCHEME_NOT_SUPPORTED then Some(SecuritySchemeNotSupported)
    else if rc == INVALID_COMMAND then Some(InvalidCommand)
    else if rc == INVALID_FIELD then Some(InvalidField)
    else if rc == ILLEGAL_STATE then Some(IllegalState)
    else if rc == INVALID_USER then Some(InvalidUser)
    else if rc == USER_ALREADY_EXISTS then Some(UserAlreadyExists)
    else if rc == INVALID_PASSWORD then Some(InvalidPassword)
    else if rc == EXPIRED_PASSWORD then Some(ExpiredPassword)
    else if rc == FORBIDDEN_PASSWORD then Some(ForbiddenPassword)
    else if rc == INVALID_CREDENTIAL then Some(InvalidCredential)
    else if rc == INVALID_ROLE then Some(InvalidRole)
    else if rc == INVALID_PRIVILEGE then Some(InvalidPrivilege)
    else if rc == NOT_AUTHENTICATED then Some(NotAuthenticated)
    else if rc == ROLE_VIOLATION then Some(RoleViolation)
    else if rc == FAIL_INVALID_DATA then Some(ErrServer)
    else if rc == FAIL_UDF_BAD_RESPONSE then Some(ErrUdf)
    else if rc == FAIL_UDF_LUA_EXECUTION then Some(ErrUdf)
    else if rc == FAIL_LUA_FILE_NOTFOUND then Some(ErrLuaFileNotFound)
    else if rc == FAIL_INDEX_FOUND then Some(ErrIndexFound)
    else if rc == FAIL_INDEX_NOTFOUND then Some(ErrIndexNotFound)
    else if rc == FAIL_INDEX_OOM then Some(ErrIndexOom)
    else if rc == FAIL_INDEX_NOTREADABLE then Some(ErrIndexNotReadable)
    else if rc == FAIL_INDEX_GENERIC then Some(ErrIndex)
    else if rc == FAIL_INDEX_NAME_MAXLEN then Some(ErrIndexNameMaxlen)
    else if rc == FAIL_INDEX_MAXCOUNT then Some(ErrIndexMaxcount)
    else if rc == FAIL_QUERY_ABORTED then Some(ErrQueryAborted)
    else if rc == FAIL_QUERY_QUEUEFULL then Some(ErrQueryQueueFull)
    else if rc == FAIL_QUERY_TIMEOUT then Some(ErrTimeout)
    else if rc == FAIL_QUERY_GENERIC then Some(ErrQuery)
    else if rc < 0 then Some(ErrClient)
    else Some(ErrServer)
  }

  /** The text the two "not supported" codes write over the message before
      the status is assigned. */
  function FixedText(rc: int): (r: Option<string>)
    ensures r.Some? <==> rc == FAIL_BIN_EXISTS || rc == FAIL_BIN_NOT_FOUND
    ensures r.Some? ==> |r.value| > 0
  {
    if rc == FAIL_BIN_EXISTS then Some(BinExistsText)
    else if rc == FAIL_BIN_NOT_FOUND then Some(BinNotFoundText)
    else None
  }

  /** The contents of an error object. */
  datatype ErrorState = ErrorState(code: Status, message: string)

  /** What as_error_fromrc makes of an error object holding e: the mapped
      status, the fixed text of the two "not supported" codes, and the
      status name only where the message is still empty. */
  function AfterFromRc(e: ErrorState, rc: int): (r: ErrorState)
    ensures rc == QUERY_END ==> r == e
    ensures rc != QUERY_END ==> r.code == StatusOf(rc).value && r.message != ""
    ensures FixedText(rc).Some? ==> r.message == FixedText(rc).value
    ensures FixedText(rc).None? && rc != QUERY_END && e.message != "" ==> r.message == e.message
    ensures FixedText(rc).None? && rc != QUERY_END && e.message == "" ==> r.message == r.code.Name()
  {
    if rc == QUERY_END then e
    else
      var m := if FixedText(rc).Some? then FixedText(rc).value else e.message;
      var code := StatusOf(rc).value;
      ErrorState(code, if m == "" then code.Name() else m)
  }

  /** The error object the public API fills in: a status and a message
      (the message buffer's content up to its first NUL). */
  class AsError {
    var code: Status
    var message: string

    function State(): ErrorState
      reads this
    {
      ErrorState(code, message)
    }

    /** A fresh error object: status OK and an empty message. */
    constructor ()
      ensures code == Ok && message == ""
    {
      code := Ok;
      message := "";
    }

    /** as_error_reset. */
    method Reset()
      modifies this
      ensures code == Ok && message == ""
    {
      code := Ok;
      message := "";
    }

    /** as_error_fromrc: assign the mapped status, and write the status
        name into the message only when the message is empty. */
    method FromRc(rc: int) returns (s: Status)
      modifies this
      ensures s == code
      ensures State() == AfterFromRc(old(State()), rc)
      ensures rc == QUERY_END ==> code == old(code) && message == old(message)
      ensures rc != QUERY_END ==> code == StatusOf(rc).value
      ensures FixedText(rc).Some? ==> message == FixedText(rc).value
      ensures FixedText(rc).None? && rc != QUERY_END ==>
                message == (if old(message) == "" then code.Name() else old(message))
      ensures rc != QUERY_END ==> message != ""
    {
      if rc == QUERY_END {
        s := code;
        return;
      }
      var fixed := FixedText(rc);
      if fixed.Some? {
        message := fixed.value;
      }
      code := StatusOf(rc).value;
      if message == "" {
        message := code.Name();
      }
      s := code;
    }
  }

  // ---------------------------------------------------------------------
  // Policy conversion
  // ---------------------------------------------------------------------

  datatype PolicyExists = ExistsUndef | ExistsIgnore | ExistsCreate | ExistsUpdate
                        | ExistsReplace | ExistsCreateOrReplace
  datatype PolicyGen = GenUndef | GenIgnore | GenEq | GenGt | GenDup
  datatype PolicyRetry = RetryUndef | RetryNone | RetryOnce

  datatype WritePolicy = WritePolicy(timeout: uint32, retry: PolicyRetry, onExists: PolicyExists, gen: PolicyGen)
  datatype OperatePolicy = OperatePolicy(timeout: uint32, retry: PolicyRetry, gen: PolicyGen)
  datatype RemovePolicy = RemovePolicy(timeout: uint32, retry: PolicyRetry, gen: PolicyGen, generation: uint32)

  /** The ttl and generation a record (or an operations list) carries. */
  datatype RecordMeta = RecordMeta(ttl: uint32, gen: uint32)

  datatype WriteMode = WriteOneshot | WriteRetry

  /** cl_write_parameters. */
  datatype WriteParameters = WriteParameters(
    unique: bool, uniqueBin: bool, updateOnly: bool, createOrReplace: bool,
    replaceOnly: bool, binReplaceOnly: bool,
    useGeneration: bool, useGenerationGt: bool, useGenerationDup: bool,
    generation: uint32, timeoutMs: uint32, recordTtl: uint32, wPol: WriteMode)

  /** The timeout rule shared by the three conversions: "wait forever" is
      passed on as 0. */
  function TimeoutMs(t: uint32): (r: uint32)
    ensures t == UINT32_MAX ==> r == 0
    ensures t != UINT32_MAX ==> r == t
  {
    if t == UINT32_MAX then 0 else t
  }

  function RetryMode(retry: PolicyRetry): WriteMode
  {
    if retry == RetryOnce then WriteRetry else WriteOneshot
  }

  /** The generation part shared by the three conversions: the record's
      generation and the flag matching the policy, or nothing. */
  function WithGeneration(wp: WriteParameters, gen: PolicyGen, g: uint32): WriteParameters
  {
    match gen
    case GenEq => wp.(generation := g, useGeneration := true)
    case GenGt => wp.(generation := g, useGenerationGt := true)
    case GenDup => wp.(generation := g, useGenerationDup := true)
    case _ => wp
  }

  /** The fields all three conversions assign before the generation switch. */
  function Base(wp: WriteParameters, timeout: uint32, ttl: uint32, retry: PolicyRetry,
                unique: bool, updateOnly: bool, createOrReplace: bool, replaceOnly: bool): WriteParameters
  {
    wp.(unique := unique, uniqueBin := false, updateOnly := updateOnly,
        createOrReplace := createOrReplace, replaceOnly := replaceOnly, binReplaceOnly := false,
        useGeneration := false, useGenerationGt := false, useGenerationDup := false,
        timeoutMs := TimeoutMs(timeout), recordTtl := ttl, wPol := RetryMode(retry))
  }

  /** aspolicywrite_to_clwriteparameters; a missing policy or record leaves
      the parameters as they were. */
  function WriteToParams(policy: Option<WritePolicy>, rec: Option<RecordMeta>, wp: WriteParameters): (r: WriteParameters)
    ensures policy.None? || rec.None? ==> r == wp
  {
    if policy.None? || rec.None? then wp
    else
      var p := policy.value;
      WithGeneration(
        Base(wp, p.timeout, rec.value.ttl, p.retry,
             p.onExists == ExistsCreate, p.onExists == ExistsUpdate,
             p.onExists == ExistsCreateOrReplace, p.onExists == ExistsReplace),
        p.gen, rec.value.gen)
  }

  /** aspolicyoperate_to_clwriteparameters: no existence flag at all. */
  function OperateToParams(policy: Option<OperatePolicy>, ops: RecordMeta, wp: WriteParameters): (r: WriteParameters)
    ensures policy.None? ==> r == wp
  {
    if policy.None? then wp
    else
      var p := policy.value;
      WithGeneration(Base(wp, p.timeout, ops.ttl, p.retry, false, false, false, false), p.gen, ops.gen)
  }

  /** aspolicyremove_to_clwriteparameters: ttl 0, generation from the
      policy itself. */
  function RemoveToParams(policy: Option<RemovePolicy>, wp: WriteParameters): (r: WriteParameters)
    ensures policy.None? ==> r == wp
  {
    if policy.None? then wp
    else
      var p := policy.value;
      WithGeneration(Base(wp, p.timeout, 0, p.retry, false, false, false, false), p.gen, p.generation)
  }

  // Reading the policy back from the flag record.

  function ExistsFlagCount(wp: WriteParameters): nat
  {
    (if wp.unique then 1 else 0) + (if wp.updateOnly then 1 else 0)
    + (if wp.createOrReplace then 1 else 0) + (if wp.replaceOnly then 1 else 0)
  }

  function GenFlagCount(wp: WriteParameters): nat
  {
    (if wp.useGeneration then 1 else 0) + (if wp.useGenerationGt then 1 else 0)
    + (if wp.useGenerationDup then 1 else 0)
  }

  /** The existence policy a flag record expresses (no flag: ignore). */
  function ExistsOf(wp: WriteParameters): PolicyExists
  {
    if wp.unique then ExistsCreate
    else if wp.updateOnly then ExistsUpdate
    else if wp.createOrReplace then ExistsCreateOrReplace
    else if wp.replaceOnly then ExistsReplace
    else ExistsIgnore
  }

  /** The generation policy a flag record expresses (no flag: ignore). */
  function GenOf(wp: WriteParameters): PolicyGen
  {
    if wp.useGeneration then GenEq
    else if wp.useGenerationGt then GenGt
    else if wp.useGenerationDup then GenDup
    else GenIgnore
  }

  function NormalExists(e: PolicyExists): PolicyExists
  {
    if e == ExistsUndef then ExistsIgnore else e
  }

  function NormalGen(g: PolicyGen): PolicyGen
  {
    if g == GenUndef then GenIgnore else g
  }

  function NormalRetry(r: PolicyRetry): PolicyRetry
  {
    if r == RetryOnce then RetryOnce else RetryNone
  }

  function RetryOf(m: WriteMode): PolicyRetry
  {
    if m == WriteRetry then RetryOnce else RetryNone
  }

  /** The generation switch sets at most one flag, and the flag set, read
      back, is the policy's; the generation value moves only with a flag. */
  lemma {:induction false} WithGenerationFlags(wp: WriteParameters, gen: PolicyGen, g: uint32)
    requires GenFlagCount(wp) == 0
    ensures var r := WithGeneration(wp, gen, g);
      GenFlagCount(r) <= 1 && GenOf(r) == NormalGen(gen)
      && (GenFlagCount(r) == 1 ==> r.generation == g)
      && (GenFlagCount(r) == 0 ==> r.generation == wp.generation)
      && r.(useGeneration := false, useGenerationGt := false, useGenerationDup := false, generation := wp.generation) == wp
  {
    match gen
    case GenEq =>
    case GenGt =>
    case GenDup =>
    case GenUndef =>
    case GenIgnore =>
  }

  /** The write conversion loses nothing: reading the flag record back gives
      the policy's existence, generation and retry choices (up to the
      "undefined means ignore/none" defaults), at most one existence flag
      and one generation flag are set, and the timeout and ttl are carried. */
  lemma {:induction false} WriteParamsRoundTrip(p: WritePolicy, rec: RecordMeta, wp: WriteParameters)
    ensures var r := WriteToParams(Some(p), Some(rec), wp);
      ExistsFlagCount(r) <= 1 && ExistsOf(r) == NormalExists(p.onExists)
      && GenFlagCount(r) <= 1 && GenOf(r) == NormalGen(p.gen)
      && (GenFlagCount(r) == 1 ==> r.generation == rec.gen)
      && (GenFlagCount(r) == 0 ==> r.generation == wp.generation)
      && RetryOf(r.wPol) == NormalRetry(p.retry)
      && r.timeoutMs == TimeoutMs(p.timeout) && r.recordTtl == rec.ttl
      && !r.uniqueBin && !r.binReplaceOnly
  {
    var b := Base(wp, p.timeout, rec.ttl, p.retry,
                  p.onExists == ExistsCreate, p.onExists == ExistsUpdate,
                  p.onExists == ExistsCreateOrReplace, p.onExists == ExistsReplace);
    WithGenerationFlags(b, p.gen, rec.gen);
  }

  /** The operate conversion sets no existence flag; generation and retry
      read back as the policy's. */
  lemma {:induction false} OperateParamsRoundTrip(p: OperatePolicy, ops: RecordMeta, wp: WriteParameters)
    ensures var r := OperateToParams(Some(p), ops, wp);
      ExistsFlagCount(r) == 0 && ExistsOf(r) == ExistsIgnore
      && GenFlagCount(r) <= 1 && GenOf(r) == NormalGen(p.gen)
      && (GenFlagCount(r) == 1 ==> r.generation == ops.gen)
      && RetryOf(r.wPol) == NormalRetry(p.retry)
      && r.timeoutMs == TimeoutMs(p.timeout) && r.recordTtl == ops.ttl
  {
    WithGenerationFlags(Base(wp, p.timeout, ops.ttl, p.retry, false, false, false, false), p.gen, ops.gen);
  }

  /** The remove conversion sets no existence flag, ttl 0, and takes the
      generation from the policy. */
  lemma {:induction false} RemoveParamsRoundTrip(p: RemovePolicy, wp: WriteParameters)
    ensures var r := RemoveToParams(Some(p), wp);
      ExistsFlagCount(r) == 0 && ExistsOf(r) == ExistsIgnore
      && GenFlagCount(r) <= 1 && GenOf(r) == NormalGen(p.gen)
      && (GenFlagCount(r) == 1 ==> r.generation == p.generation)
      && RetryOf(r.wPol) == NormalRetry(p.retry)
      && r.timeoutMs == TimeoutMs(p.timeout) && r.recordTtl == 0
  {
    WithGenerationFlags(Base(wp, p.timeout, 0, p.retry, false, false, false, false), p.gen, p.generation);
  }
}
