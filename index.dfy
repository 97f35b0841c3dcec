/** The public secondary-index calls: they build the info request through
    the citrusleaf layer, tolerate the "already there" / "not there"
    answers, and otherwise report the server's text and the mapped status
    in the caller's error object. */
module Index {
  import opened Wrappers
  import opened ResultCodes
  import opened Shim
  import opened SIndex

  /** The size of the error object's message buffer, terminator included. */
  const MessageSize: nat := 1024

  /** What the cluster answered to a request: its code and its response
      text (None for a null response). */
  datatype Answer = Answer(rc: int, response: Option<string>)

  /** The info transport, as far as these calls see it. */
  type Cluster = InfoRequest -> Answer

  /** What a citrusleaf index call returns: the refusal code with no
      response, or the cluster's answer to the request it made. */
  function Outcome(call: Call, cluster: Cluster): Answer
  {
    match call
    case Rejected(rc) => Answer(rc, None)
    case Sent(request) => cluster(request)
  }

  /** as_strncpy of the response into the message buffer: at most
      MessageSize - 1 characters. */
  function CopyResponse(response: Option<string>): (m: string)
    ensures |m| < MessageSize
    ensures response.Some? ==> |m| <= |response.value| && m == response.value[..|m|]
    ensures response.Some? && |response.value| < MessageSize ==> m == response.value
    ensures response.None? ==> m == ""
  {
    if response.None? then ""
    else if |response.value| < MessageSize then response.value
    else response.value[..MessageSize - 1]
  }

  /** The codes index creation accepts as success. */
  predicate CreateTolerated(rc: int)
  {
    rc == OK || rc == FAIL_INDEX_FOUND
  }

  /** The codes index removal accepts as success. */
  predicate RemoveTolerated(rc: int)
  {
    rc == OK || rc == FAIL_INDEX_NOTFOUND
  }

  /** The error object after a reset and an answer: untouched for a
      tolerated code; otherwise the response is copied in first and then
      as_error_fromrc maps the code. */
  function Report(answer: Answer, tolerated: bool): ErrorState
  {
    if tolerated then ErrorState(Ok, "")
    else AfterFromRc(ErrorState(Ok, CopyResponse(answer.response)), answer.rc)
  }

  /** The error object aerospike_index_create leaves behind. */
  function CreateReport(ns: Option<string>, setName: Option<string>, bin: Option<string>,
                        itype: Option<string>, name: Option<string>, cluster: Cluster): ErrorState
  {
    var answer := Outcome(SecondaryIndexCreate(ns, setName, name, bin, itype), cluster);
    Report(answer, CreateTolerated(answer.rc))
  }

  /** The error object aerospike_index_remove leaves behind. */
  function RemoveReport(ns: string, name: string, cluster: Cluster): ErrorState
  {
    var answer := Outcome(SecondaryIndexDrop(ns, name), cluster);
    Report(answer, RemoveTolerated(answer.rc))
  }

  /** The shared steps: reset, then for an intolerable code the response
      copy and the code mapping. */
  method ReportAnswer(err: AsError, answer: Answer, tolerated: bool) returns (status: Status)
    modifies err
    ensures err.State() == Report(answer, tolerated)
    ensures status == err.code
  {
    err.Reset();
    if !tolerated {
      err.message := CopyResponse(answer.response);
      var _ := err.FromRc(answer.rc);
    }
    status := err.code;
  }

  /** aerospike_index_create: the index type is passed through. */
  method IndexCreate(err: AsError, ns: Option<string>, setName: Option<string>, bin: Option<string>,
                     itype: Option<string>, name: Option<string>, cluster: Cluster) returns (status: Status)
    modifies err
    ensures err.State() == CreateReport(ns, setName, bin, itype, name, cluster)
    ensures status == err.code
  {
    var call := SecondaryIndexCreate(ns, setName, name, bin, itype);
    var answer := Outcome(call, cluster);
    status := ReportAnswer(err, answer, CreateTolerated(answer.rc));
  }

  /** aerospike_index_integer_create: type "NUMERIC". */
  method IndexIntegerCreate(err: AsError, ns: Option<string>, setName: Option<string>, bin: Option<string>,
                            name: Option<string>, cluster: Cluster) returns (status: Status)
    modifies err
    ensures err.State() == CreateReport(ns, setName, bin, Some("NUMERIC"), name, cluster)
    ensures status == err.code
  {
    status := IndexCreate(err, ns, setName, bin, Some("NUMERIC"), name, cluster);
  }

  /** aerospike_index_string_create: type "STRING". */
  method IndexStringCreate(err: AsError, ns: Option<string>, setName: Option<string>, bin: Option<string>,
                           name: Option<string>, cluster: Cluster) returns (status: Status)
    modifies err
    ensures err.State() == CreateReport(ns, setName, bin, Some("STRING"), name, cluster)
    ensures status == err.code
  {
    status := IndexCreate(err, ns, setName, bin, Some("STRING"), name, cluster);
  }

  /** aerospike_index_remove. */
  method IndexRemove(err: AsError, ns: string, name: string, cluster: Cluster) returns (status: Status)
    modifies err
    ensures err.State() == RemoveReport(ns, name, cluster)
    ensures status == err.code
  {
    var answer := Outcome(SecondaryIndexDrop(ns, name), cluster);
    status := ReportAnswer(err, answer, RemoveTolerated(answer.rc));
  }

  // ---------------------------------------------------------------------
  // What the reports mean
  // ---------------------------------------------------------------------

  /** A tolerated code leaves the error object in its reset state: status
      OK and an empty message; any other code except QUERY_END yields the
      status as_error_fromrc maps it to. */
  lemma ReportStatus(answer: Answer, tolerated: bool)
    ensures tolerated ==> Report(answer, tolerated) == ErrorState(Ok, "")
    ensures !tolerated && answer.rc != QUERY_END ==>
              Report(answer, tolerated).code == StatusOf(answer.rc).value
              && Report(answer, tolerated).message != ""
    ensures !tolerated && answer.rc == QUERY_END ==>
              Report(answer, tolerated) == ErrorState(Ok, CopyResponse(answer.response))
  {
  }

  /** The server's text wins over the status name: a non-empty response is
      what the message holds, cut to the buffer, unless the code has its
      own fixed text. */
  lemma ServerTextWins(answer: Answer, tolerated: bool)
    requires !tolerated && answer.response.Some? && answer.response.value != ""
    requires FixedText(answer.rc).None?
    ensures Report(answer, tolerated).message == CopyResponse(answer.response)
    ensures Report(answer, tolerated).message == answer.response.value[..|Report(answer, tolerated).message|]
  {
    var m := CopyResponse(answer.response);
    assert m != "" by {
      assert |m| > 0;
    }
  }

  /** Index creation succeeds when the index is already there, and removal
      when it is already gone. */
  lemma AlreadyDoneIsSuccess(ns: string, setName: Option<string>, bin: string, itype: string,
                             name: string, cluster: Cluster)
    ensures var request := Request(CreateCommand(ns, setName, name, bin, itype));
      cluster(request).rc == FAIL_INDEX_FOUND ==>
        CreateReport(Some(ns), setName, Some(bin), Some(itype), Some(name), cluster) == ErrorState(Ok, "")
    ensures cluster(Request(DropCommand(ns, name))).rc == FAIL_INDEX_NOTFOUND ==>
              RemoveReport(ns, name, cluster) == ErrorState(Ok, "")
  {
  }

  /** A missing namespace, bin, type or index name never reaches the
      cluster: the caller sees a client error named in the message. */
  lemma MissingArgumentIsClientError(ns: Option<string>, setName: Option<string>, bin: Option<string>,
                                     itype: Option<string>, name: Option<string>, cluster: Cluster)
    requires ns.None? || bin.None? || itype.None? || name.None?
    ensures CreateReport(ns, setName, bin, itype, name, cluster) == ErrorState(ErrClient, ErrClient.Name())
  {
  }

  /** The type-specific calls differ from each other only in the type they
      send. */
  lemma TypedCreateRequests(ns: string, setName: Option<string>, bin: string, name: string)
    ensures var numeric := SecondaryIndexCreate(Some(ns), setName, Some(name), Some(bin), Some("NUMERIC"));
      var text := SecondaryIndexCreate(Some(ns), setName, Some(name), Some(bin), Some("STRING"));
      numeric.Sent? && text.Sent?
      && numeric.request.sendAsis == text.request.sendAsis
      && numeric.request.checkBounds == text.request.checkBounds
      && numeric.request.timeoutMs == text.request.timeoutMs
    ensures var n := CreatePairs(ns, setName, name, bin, "NUMERIC");
      var t := CreatePairs(ns, setName, name, bin, "STRING");
      && |n| == |t| >= 2
      && (forall k :: 0 <= k < |n| && k != |n| - 2 ==> n[k] == t[k])
      && n[|n| - 2] == "indexdata=" + bin + ",NUMERIC"
      && t[|t| - 2] == "indexdata=" + bin + ",STRING"
  {
  }
}
