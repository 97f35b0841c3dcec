# Aerospike C client: info protocol, result mapping, admin codec, cluster bookkeeping

This project models six pieces of the Aerospike C client library in Dafny and
proves properties of them:

- **Info protocol text handling** (`Info`, over `CText`). This covers:
  - extracting a single value from an info response;
  - decoding `<code>:<message>` error lines;
  - scanning a response for `ERROR:`, `FAIL:` and `error=` markers;
  - the command-name rewrite and newline terminator of an info request;
  - the node loops of the cluster-wide info calls.
- **Result-code and policy mapping** (`Shim`, over `ResultCodes`). This covers:
  - the legacy-code to public-status map and the error object it fills;
  - the three policy-to-write-parameter conversions.
- **Admin wire codec** (`Admin`). This covers:
  - the writers of message headers, fields and role lists, and the proto word;
  - the readers of role lists, user blocks and reply blocks;
  - the result and timeout rules of the admin calls.
- **Cluster node-set bookkeeping** (`Clusters`). This covers:
  - seeds;
  - the copy-on-write node array and its garbage list;
  - the node-removal rule;
  - the per-tend counters;
  - the stop rule of the start-up tends;
  - credentials and creation settings.
- **Secondary-index commands** (`SIndex`): the exact command texts and the fixed request parameters.
- **Index calls** (`Index`): which codes count as success, and how the error object is filled otherwise.

The code's own form is kept:

- Buffer walkers and in-place writers are methods over `array<char>` or
  `array<byte>`. Each is proved against a specification function on the
  buffer contents.
- The error object and the cluster are classes whose methods update their fields.
- The pure conversions and command builders are functions.

Transport, clocks, DNS and the server's view of partitions become parameters:

- per-node replies with a "deadline passed" flag;
- a sequence of tend outcomes;
- the set of refreshed nodes;
- the nodes a reseed finds, and the partition-ownership oracle;
- a base64 decoder.

Fixed-width C integers are modelled where they matter:

- 32-bit wrap-around of `failures` and `conn_queue_size`;
- the `int` reading of the 48-bit proto length;
- `UINT32_MAX` as the "wait forever" timeout.

Numeric result codes and the user and role name sizes come from the library's
public headers. Those headers are not part of this model, so `ResultCodes` and
`Admin` restate the values as constants.

## Model

| member | source | states |
|---|---|---|
| Info.FindChar | src/main/citrusleaf/cl_info.c:459 | strchr over the buffer: the first `c` before the terminating NUL, or none |
| Info.ParseSingle | src/main/citrusleaf/cl_info.c:72-85 | -1 with the buffer unchanged when there is no tab, or no newline after the first tab; otherwise 0, the value starts just after the first tab, the following newline becomes NUL, and the value read as a C string is exactly the text between them |
| Info.ParseErrorSpec | src/main/citrusleaf/cl_info.c:456-483 | the result is never 0; a null message only comes with FAIL_UNKNOWN; a message starts after the colon, inside the buffer |
| Info.ParseError | src/main/citrusleaf/cl_info.c:456-483 | the code, the message index and the rewritten buffer are those of the specification (colon and newline overwritten by NUL, atoi code, FAIL_UNKNOWN for no colon or code 0) |
| Info.ParseErrorRoundTrip | src/main/citrusleaf/cl_info.c:456-483 | a server line `<code>:<msg>\n` with a code from 1 to INT_MAX decodes to that code, and the message read as a C string is `msg` |
| Info.ParseErrorText | src/main/citrusleaf/cl_info.c:456-483 | the same for any run of digits that atoi reads as a nonzero code in the range of `int`: that code, the message index just past the colon, and `msg` as the C string there |
| Info.OverwriteAt | src/main/citrusleaf/cl_info.c:498-499 | the decoded bytes land at the message start, followed by NUL, and nothing else changes |
| Info.OverwriteText | src/main/citrusleaf/cl_info.c:498-499 | read as a C string from the message start, the buffer holds exactly the decoded text |
| Info.DecodeErrorRoundTrip | src/main/citrusleaf/cl_info.c:486-502 | for a response `...message=<enc>\n`, the text after `message=` reads back as the decoding of `enc` |
| Info.DecodeErrorAt | src/main/citrusleaf/cl_info.c:490-500 | when `message=` is first found at m, the C string at m+8 is the decoded text |
| Info.DecodeMessageRoundTrip | src/main/citrusleaf/cl_info.c:494-500 | the source length excludes the final newline, and the decoded text is what reads back |
| Info.ValidateSpec | src/main/citrusleaf/cl_info.c:505-536 | 0 exactly when there is no marker, and then the message and the buffer are untouched; for `error=` the result is FAIL_UDF_BAD_RESPONSE with the message at the marker |
| Info.FindText | src/main/citrusleaf/cl_info.c:490 | strstr over the buffer equals the specification's first occurrence |
| Info.StrLen | src/main/citrusleaf/cl_info.c:495 | strlen counts up to the first NUL |
| Info.CopyDecoded | src/main/citrusleaf/cl_info.c:497-499 | the buffer afterwards is the specification's overwrite |
| Info.DecodeError | src/main/citrusleaf/cl_info.c:486-502 | the buffer afterwards is the decoded-error specification applied to the buffer before |
| Info.DecodeMessageIn | src/main/citrusleaf/cl_info.c:494-500 | the in-place decode matches its specification |
| Info.StrNCmp | src/main/citrusleaf/cl_info.c:512 | strncmp against a literal is "the literal starts here" |
| Info.MarkerIn | src/main/citrusleaf/cl_info.c:518-529 | the three marker tests after a tab, in their order |
| Info.TabStep | src/main/citrusleaf/cl_info.c:515-529 | one pass of the tab loop: either a marker, or the next tab strictly further on, with the scan's result unchanged |
| Info.ScanTabsIn | src/main/citrusleaf/cl_info.c:515-530 | the tab loop finds the marker the specification's scan finds |
| Info.ScanResponse | src/main/citrusleaf/cl_info.c:512-531 | the leading check and the tab loop together find the specification's marker |
| Info.ValidateSpecUdf | src/main/citrusleaf/cl_info.c:526-529 | for an `error=` marker the result is FAIL_UDF_BAD_RESPONSE, the message points at the marker, and the buffer is decoded from the marker's end |
| Info.ValidateSpecParse | src/main/citrusleaf/cl_info.c:512-524 | for an `ERROR:` or `FAIL:` marker the result is the error-line decoding of the text after it |
| Info.Validate | src/main/citrusleaf/cl_info.c:505-536 | a null response is valid (0) with the message untouched; otherwise code, message and buffer are the specification's |
| Info.ValidateUdf | src/main/citrusleaf/cl_info.c:526-529 | the `error=` branch matches the specification |
| Info.ValidateLeadingError | src/main/citrusleaf/cl_info.c:512-514 | a response opening with `ERROR:<code>:<msg>\n`, with a code from 1 to INT_MAX, reports that code and message |
| Info.Rewrite | src/main/citrusleaf/cl_info.c:169-176 | same length; each `;`, `:` and `,` becomes a newline and every other character is kept |
| Info.RewriteProperties | src/main/citrusleaf/cl_info.c:169-176 | rewriting twice is rewriting once, and no separator is left |
| Info.EmptyCommandAsWritten | src/main/citrusleaf/cl_info.c:182-185 | as written, an empty command whose stray byte is a newline is sent without a terminator |
| Info.TerminatedProperties | src/main/citrusleaf/cl_info.c:181-199 | a terminated command ends with a newline, keeps the command as its prefix, grows by at most one, and terminating is idempotent |
| Info.PrepareCommand | src/main/citrusleaf/cl_info.c:163-199 | the names are rewritten in place unless sent as is; -1 exactly when bounds are checked, the command does not already end in a newline, and with the newline added it would exceed 2048; otherwise 0 and the body is the newline-terminated command (a command already ending in a newline, as the index-creation command does, is never bounds-checked) |
| Info.ClusterTimeout | src/main/citrusleaf/cl_info.c:372-374 | a timeout of 0 means 1000 ms; any other is kept |
| Info.StopIndex | src/main/citrusleaf/cl_info.c:380-398 | the first node that is not unavailable, or is unavailable past the deadline; all nodes before it were unavailable in time |
| Info.ClusterResult | src/main/citrusleaf/cl_info.c:376-400 | FAIL_UNAVAILABLE exactly when every node was unavailable in time; any other code than a timeout is that of a node before which all were unavailable |
| Info.InfoCluster | src/main/citrusleaf/cl_info.c:368-401 | the returned code is the specification's, exactly the nodes up to the stopping one are asked, and the response is the last asked node's |
| Info.ForeachVisits | src/main/citrusleaf/cl_info.c:423-450 | only successful responses reach the callback, each node at most once and in order; all but the last were accepted; a refusal of the last one aborts |
| Info.ClusterForeach | src/main/citrusleaf/cl_info.c:404-453 | the returned code and the visited nodes are the specification's walk |
| Info.ForeachStopsAtFailure | src/main/citrusleaf/cl_info.c:430-446 | a reply other than success or FAIL_UNAVAILABLE, after nodes that were unavailable or accepted in time, ends the walk with that code; of the nodes before it exactly the successful ones were visited, and no later node is |
| Info.ForeachStopsAtFirstRefusal | src/main/citrusleaf/cl_info.c:429-434 | a callback refusing the first response it sees is called once, and the result is FAIL_QUERY_ABORTED |
| Info.ForeachReportsLastNode | src/main/citrusleaf/cl_info.c:425-450 | when every node answers in time, successfully or unavailable, and everything is accepted, the result is the last node's code |
| Shim.StatusOf | src/main/aerospike/_shim.c:33-212 | QUERY_END is the only code without a status; OK maps to OK; the three timeouts map to ERR_TIMEOUT; ERR_CLIENT exactly for negative codes other than the client timeout; unlisted codes by sign |
| Shim.FixedText | src/main/aerospike/_shim.c:57-60 | only BIN_EXISTS and BIN_NOT_FOUND carry a fixed, non-empty text |
| Shim.AfterFromRc | src/main/aerospike/_shim.c:29-31 | QUERY_END leaves the error unchanged; otherwise the mapped status, the fixed text where there is one, a non-empty prior message kept, and the status name only in an empty message |
| Shim.AsError.Reset | src/main/aerospike/aerospike_index.c:53 | the reset error object has status OK and an empty message |
| Shim.AsError.FromRc | src/main/aerospike/_shim.c:33-212 | the error object's new state is the specification's, and the returned status is the stored one |
| Shim.TimeoutMs | src/main/aerospike/_shim.c:451 | UINT32_MAX becomes 0; any other timeout is copied |
| Shim.WriteToParams | src/main/aerospike/_shim.c:434-438 | a missing policy or record leaves the parameters unchanged |
| Shim.OperateToParams | src/main/aerospike/_shim.c:483-487 | a missing policy leaves the parameters unchanged |
| Shim.RemoveToParams | src/main/aerospike/_shim.c:532-536 | a missing policy leaves the parameters unchanged |
| Shim.WithGenerationFlags | src/main/aerospike/_shim.c:454-467 | at most one generation flag is set and reads back as the policy's; the generation moves only with a flag; nothing else changes |
| Shim.WriteParamsRoundTrip | src/main/aerospike/_shim.c:434-481 | at most one existence flag, read back as the policy's; generation, retry, timeout and ttl read back; bin-level flags cleared |
| Shim.OperateParamsRoundTrip | src/main/aerospike/_shim.c:483-530 | no existence flag; generation from the operations, retry, timeout and ttl read back |
| Shim.RemoveParamsRoundTrip | src/main/aerospike/_shim.c:532-579 | no existence flag, ttl 0, generation from the policy; retry and timeout read back |
| SIndex.SecondaryIndexCreate | src/main/citrusleaf/cl_sindex.c:44-62 | refused with FAIL_CLIENT exactly when namespace, index name, bin or type is missing; otherwise the creation command sent as is, bounds-checked, with 5000 ms |
| SIndex.SecondaryIndexDrop | src/main/citrusleaf/cl_sindex.c:64-70 | always sent: the deletion command, as is, bounds-checked, with 5000 ms |
| SIndex.SplitJoin | src/main/citrusleaf/cl_sindex.c:52-59 | parameters without the separator are recovered by splitting their joined text |
| SIndex.CreateCommandFields | src/main/citrusleaf/cl_sindex.c:52-59 | between the verb and the newline, the `;`-pieces are exactly the parameters, and a `set=` piece is present exactly when a set is given |
| SIndex.SetKeyOnlyForSet | src/main/citrusleaf/cl_sindex.c:55-57 | a parameter starting with `set=` exists exactly when a set is given |
| SIndex.DropCommandFields | src/main/citrusleaf/cl_sindex.c:66-67 | the deletion command's pieces are exactly `ns=` and `indexname=` |
| Index.CopyResponse | src/main/aerospike/aerospike_index.c:64 | the message is a prefix of the response of at most 1023 characters, the whole response when it fits, and empty for none |
| Index.ReportAnswer | src/main/aerospike/aerospike_index.c:53-70 | reset, then for an intolerable code the response copy and the code mapping; returns the stored status |
| Index.IndexCreate | src/main/aerospike/aerospike_index.c:49-71 | the error object ends as the specification's report of the create request's answer |
| Index.IndexIntegerCreate | src/main/aerospike/aerospike_index.c:94-99 | the create call with type NUMERIC |
| Index.IndexStringCreate | src/main/aerospike/aerospike_index.c:122-127 | the create call with type STRING |
| Index.IndexRemove | src/main/aerospike/aerospike_index.c:148-170 | the error object ends as the specification's report of the drop request's answer |
| Index.ReportStatus | src/main/aerospike/aerospike_index.c:58-66 | a tolerated code leaves the reset state; any other code except QUERY_END yields the mapped status with a non-empty message |
| Index.ServerTextWins | src/main/aerospike/aerospike_index.c:63-66 | a non-empty server response, cut to the buffer, is the message, not the status name |
| Index.AlreadyDoneIsSuccess | src/main/aerospike/aerospike_index.c:58-61 | "index found" on create and "index not found" on remove leave the error object reset |
| Index.MissingArgumentIsClientError | src/main/aerospike/aerospike_index.c:56 | a missing namespace, bin, type or name gives ERR_CLIENT named in the message |
| Index.TypedCreateRequests | src/main/aerospike/aerospike_index.c:98 | the integer and string creates are both sent, with the same request settings; their parameter lists have the same length and agree everywhere but in the `indexdata=` piece, which is `<bin>,NUMERIC` for one and `<bin>,STRING` for the other |
| Admin.DecodeBigEndian | src/main/aerospike/as_admin.c:73-74 | decoding the big-endian bytes of a number gives the number back |
| Admin.ProtoWord | src/main/aerospike/as_admin.c:107-108 | the word's low 48 bits are the length less 8, then the type byte, then the version |
| Admin.WriteHeader | src/main/aerospike/as_admin.c:62-68 | the 16 header bytes (zeros, the command at 2, the field count at 3) are written at p; the result is p+16; nothing else changes |
| Admin.DecodeWord | src/main/aerospike/as_admin.c:338 | the four-byte big-endian length read at a field header equals the general big-endian decoding of those bytes |
| Admin.WriteFieldHeader | src/main/aerospike/as_admin.c:71-77 | the big-endian size+1 and the id byte are written at p; the result is p+5; nothing else changes |
| Admin.CopyString | src/main/aerospike/as_admin.c:82-84 | the string's bytes and a NUL after them are written; the result points at the NUL |
| Admin.WriteFieldString | src/main/aerospike/as_admin.c:80-85 | the field header with length strlen+1 and the string are written; the result is just past the string, excluding the NUL |
| Admin.WriteRoles | src/main/aerospike/as_admin.c:88-102 | the roles field (count byte, then a length byte and the bytes of each role, under one field header) is written; nothing else changes |
| Admin.WriteRolesBody | src/main/aerospike/as_admin.c:90-99 | the count byte and the role entries are written from start |
| Admin.WriteRoleEntry | src/main/aerospike/as_admin.c:95-97 | one role entry is appended after the ones already written |
| Admin.WriteProto | src/main/aerospike/as_admin.c:105-112 | the first 8 bytes become the big-endian proto word for the message end; the rest is unchanged |
| Admin.WriteRolesMessage | src/main/aerospike/as_admin.c:253-262 | after the proto word the buffer holds the header with two fields, the user field and the roles field |
| Admin.ProtoSizeRead | src/main/aerospike/as_admin.c:385-386 | the reader recovers from the proto word the length of what follows it |
| Admin.ParseRole | src/main/aerospike/as_admin.c:299-304 | one role is read as the specification says, truncated to the name size but advancing by its full length |
| Admin.ParseRoles | src/main/aerospike/as_admin.c:289-308 | the role list read from the buffer is the specification's |
| Admin.RolesFromRead | src/main/aerospike/as_admin.c:289-308 | role entries as written read back as the same roles, ending after the last entry |
| Admin.RolesAtRead | src/main/aerospike/as_admin.c:289-308 | a roles body as written reads back as the same roles |
| Admin.SkipOfStoredZero | src/main/aerospike/as_admin.c:338-354 | a skipped field whose stored length is 0 steps back onto its own id byte, keeping user and roles |
| Admin.ParseField | src/main/aerospike/as_admin.c:338-354 | one field is read as the specification says: a user name (None for a negative length), a role list read whatever the stored length, or any other id skipped by its length, which may step back |
| Admin.ParseFields | src/main/aerospike/as_admin.c:337-355 | the fields of one user block are read as the specification says |
| Admin.ParseUsers | src/main/aerospike/as_admin.c:311-369 | status and users appended are the specification's, checked in the source's order: an exhausted buffer gives 0, a nonzero result byte is returned before the field count is read, blocks with neither user nor roles are dropped |
| Admin.UserFieldStep | src/main/aerospike/as_admin.c:343-348 | a user field as written is read back as the user name and advances past it |
| Admin.RolesFieldStep | src/main/aerospike/as_admin.c:349-351 | a roles field as written is read back as its roles |
| Admin.UserBlockFirst | src/main/aerospike/as_admin.c:311-369 | the first of a run of user blocks as written (header, user field, roles field) is read as one user, and reading goes on after it |
| Admin.BlocksAtOf | src/main/aerospike/as_admin.c:311-369 | a reply made of written user blocks holds each block where the ones before it end |
| Admin.ParseBlock | src/main/aerospike/as_admin.c:398-403 | a block copied into a buffer of its size is parsed as the block itself |
| Admin.UserBlocksRead | src/main/aerospike/as_admin.c:311-369 | a run of user blocks as written is read back as the same users with status 0 |
| Admin.ParseUsersRoundTrip | src/main/aerospike/as_admin.c:311-369 | user blocks written with names that fit read back as exactly those users |
| Admin.ReadUsersSpec | src/main/aerospike/as_admin.c:380-413 | QUERY_END (50) is never reported: it becomes 0 |
| Admin.FrameAnnounces | src/main/aerospike/as_admin.c:385-386 | the proto word in front of a body announces exactly the body's length |
| Admin.EmptyFrameStops | src/main/aerospike/as_admin.c:388-406 | a reply block of size zero ends the reading with 0 and exactly the users read so far |
| Admin.EndBlockStops | src/main/aerospike/as_admin.c:388-406 | the same for any proto word whose size reads as zero |
| Admin.ResultByteEndsReading | src/main/aerospike/as_admin.c:325-413 | a first block whose result byte is not zero ends the reading with no users added: QUERY_END as 0, any other result as itself |
| Admin.UsersRoundTripAfter | src/main/aerospike/as_admin.c:311-369 | user blocks as written read back after the users already read, in order, with status 0 |
| Admin.SizedBlockStep | src/main/aerospike/as_admin.c:385-403 | a block whose proto word announces its size and whose body parses to 0 is read whole, and reading goes on just after it |
| Admin.BlocksFromNext | src/main/aerospike/as_admin.c:380-408 | after a block read whole, the reading continues from the next block with the users so far |
| Admin.FrameThenEnd | src/main/aerospike/as_admin.c:385-386 | a framed body followed by the empty block: the first word announces the body, which follows it, and the second announces zero |
| Admin.SizedBodyRead | src/main/aerospike/as_admin.c:380-413 | a body announced by its proto word that parses to 0, then a block of size zero, reads back as that body's users with status 0 |
| Admin.ReadFrameRoundTrip | src/main/aerospike/as_admin.c:371-414 | user blocks as the server writes them, framed and closed by the empty block, read back as exactly those users with status 0 |
| Admin.ReadBlock | src/main/aerospike/as_admin.c:381-407 | one pass of the loop is the block step: -1 for a short read, 0 for a non-positive size, otherwise the block's users and the position after it; SizedBlockStep, EndBlockStops and ReadFrameRoundTrip state what that step reads back |
| Admin.ReadUserBlocks | src/main/aerospike/as_admin.c:372-414 | status and users read are the specification's over the bytes delivered, so written user blocks read back whole (ReadFrameRoundTrip), a zero-size block stops with the users so far, and QUERY_END becomes 0 |
| Admin.QueryUserResult | src/main/aerospike/as_admin.c:510-527 | a user exactly when the status is 0 and some user was read, and then the first one |
| Admin.AdminTimeout | src/main/aerospike/as_admin.c:117-120 | a non-positive timeout becomes 60000; a positive one is kept |
| Admin.AuthenticateTimeout | src/main/aerospike/as_admin.c:162-164 | a timeout of 0 becomes 60000; any other is kept |
| Admin.Execute | src/main/aerospike/as_admin.c:115-151 | FAIL_CLIENT without a node, the connection error, FAIL_TIMEOUT when sending or reading fails, otherwise byte 9 of the reply header |
| Admin.ExecuteReadsResultByte | src/main/aerospike/as_admin.c:150 | the byte returned is the result byte the user parser checks |
| Clusters.Inc32 | src/main/aerospike/as_cluster.c:533 | a 32-bit unsigned increment: one more, wrapping to 0 |
| Clusters.SeedsSize | src/main/aerospike/as_cluster.c:667-676 | the hosts up to the first null address, bounded by the array |
| Clusters.SeedsCreate | src/main/aerospike/as_cluster.c:679-692 | one seed per counted host, with its address and port |
| Clusters.AddedSeedsFound | src/main/aerospike/as_cluster.c:68-84 | after appending, a seed is found exactly when it was there before or was added |
| Clusters.NewSeedsCover | src/main/aerospike/as_cluster.c:628-655 | every node address ends up a seed, and each seed added was not one before |
| Clusters.FindNodeByReference | src/main/aerospike/as_cluster.c:346-361 | true exactly when the node is in the list, by identity |
| Clusters.KeptMembers | src/main/aerospike/as_cluster.c:388-409 | the kept nodes are exactly those of the array that are not scheduled |
| Clusters.KeptDistinct | src/main/aerospike/as_cluster.c:388-409 | filtering a duplicate-free array keeps it duplicate-free |
| Clusters.KeptAll | src/main/aerospike/as_cluster.c:388-409 | nothing scheduled keeps the whole array |
| Clusters.KeptSize | src/main/aerospike/as_cluster.c:380-384 | removing distinct scheduled nodes of the array leaves the old size less their count, the capacity of the new array |
| Clusters.ReseedSchedulesNode | src/main/aerospike/as_cluster.c:303-311 | the only node of a cluster, active and failed five times, is scheduled exactly when seeding found nodes, and is then the whole schedule |
| Clusters.ReseedKeepsSeeded | src/main/aerospike/as_cluster.c:377-409 | removing that node from the array grown by the seeded nodes leaves exactly the seeded nodes |
| Clusters.ReleasedSeeded | src/main/aerospike/as_cluster.c:377-409 | of that array only the removed node is released on its own |
| Clusters.ScheduledMembers | src/main/aerospike/as_cluster.c:296-340 | a node is scheduled exactly when it is in the array and the removal rule applies to it |
| Clusters.ScheduledDistinct | src/main/aerospike/as_cluster.c:296-340 | the schedule of an array without repeats has none |
| Clusters.StabilizeMeans | src/main/aerospike/as_cluster.c:574-595 | tends go on while each succeeds, changes the node count and leaves time; the first that does not ends them, false for a failure, true for a repeated count or the deadline |
| Clusters.WaitTillStabilized | src/main/aerospike/as_cluster.c:574-595 | the result and the number of tends are the specification's, starting from the all-ones count |
| Clusters.CredentialsKeepUser | src/main/aerospike/as_cluster.c:788-798 | a change never switches to another user; the first non-empty user is taken with its password |
| Clusters.TendInterval | src/main/aerospike/as_cluster.c:816 | at least 1000 ms, the configured value when it is that large |
| Clusters.ConnTimeout | src/main/aerospike/as_cluster.c:818 | 0 becomes 1000 ms; any other is kept |
| Clusters.ConnQueueSize | src/main/aerospike/as_cluster.c:817 | one more than the thread count, in 32 bits |
| Clusters.Configured | src/main/aerospike/as_cluster.c:806-813 | an empty user or password is none |
| Clusters.Cluster.constructor | src/main/aerospike/as_cluster.c:801-845 | credentials, clamped settings, seeds from the hosts up to the first null address, no nodes, no garbage |
| Clusters.Cluster.FindSeed | src/main/aerospike/as_cluster.c:55-65 | true exactly when some seed has the port and the name |
| Clusters.Cluster.AddSeeds | src/main/aerospike/as_cluster.c:68-84 | old seeds stay in place and the added ones follow in order |
| Clusters.Cluster.AddNodeSeeds | src/main/aerospike/as_cluster.c:628-658 | the seeds grow by the node addresses not yet seeds, in order |
| Clusters.DistinctAppend | src/main/aerospike/as_cluster.c:162-182 | two arrays without repeats and with no node in common append to one without repeats |
| Clusters.Cluster.AddNodesCopy | src/main/aerospike/as_cluster.c:162-182 | the new array is the old followed by the added nodes, still without repeats when the added nodes are distinct and new; the old array goes on the garbage list |
| Clusters.Cluster.RemoveNodesCopy | src/main/aerospike/as_cluster.c:377-424 | the new array keeps the unscheduled nodes in order; each removed node, then the old array, goes on the garbage list; no node appears twice |
| Clusters.Cluster.RemoveNodes | src/main/aerospike/as_cluster.c:427-441 | the scheduled nodes become inactive and are removed as above |
| Clusters.Cluster.FindNodesToRemove | src/main/aerospike/as_cluster.c:289-343 | the schedule is the removal rule applied to each node of the array the search began with, in order; a one-node cluster whose active node failed five times is seeded, and when seeding finds nodes they are appended to the array by the copy-on-write insertion (the old array as garbage) and the node is scheduled; otherwise the array and garbage list are unchanged |
| Clusters.Cluster.RemoveScheduled | src/main/aerospike/as_cluster.c:545-551 | the scheduled nodes are deactivated and removed in one batch from the array the search left, every other node keeps its active flag, and the garbage list grows by the removed nodes and then that array; a reseeded one-node cluster ends with exactly the seeded nodes and three garbage items (the first array, the removed node, the grown array); nothing happens when none is scheduled |
| Clusters.Cluster.ClearFriends | src/main/aerospike/as_cluster.c:512-517 | every node's friend count is 0 |
| Clusters.Cluster.RefreshNodes | src/main/aerospike/as_cluster.c:519-536 | the count of active nodes refreshed; each has failures 0, each other active node one more failure (32-bit), inactive nodes untouched |
| Clusters.Cluster.CollectGarbage | src/main/aerospike/as_cluster.c:474-481 | the garbage list is emptied |
| Clusters.Cluster.ChangePassword | src/main/aerospike/as_cluster.c:788-798 | the credentials become the specification's (a non-empty user, when there is none or the same one) |
| CText.AtoiDecimal | src/main/citrusleaf/cl_info.c:467 | atoi reads back the decimal text of a positive number below 2^31, before a non-digit |
| CText.AtoiOfDecimal | src/main/citrusleaf/cl_info.c:467 | atoi reads back the decimal text of a positive number below 2^31 |

## Left out

- The UDF registry (list, get, put, remove): only its declarations exist, no implementation.
- Sockets, the info and admin transports, authentication I/O, DNS, node discovery, partition tables and the tend thread. Replies, tend outcomes, refresh results, reseeding and partition ownership are parameters instead.
- The send and receive half of `citrusleaf_info_host_limit`, and the other host-level info calls: they only move bytes.
- Clocks (`cf_getms`, `usleep`): each node reply and each tend carries a "deadline passed" flag instead.
- Info.DecodeErrorSpec: the base64 decoder is a parameter, and its in-place write is taken as given.
- Password hashing, and the create/drop user, set/change password and query-users builders: they reuse the modelled writers and readers.
- Info.InfoCluster: freeing earlier responses is not modelled; the response is the last asked node's.
- Admin.ParseUsers: as_read_user_blocks reads each block into the caller's stack buffer or into a larger heap buffer (src/main/aerospike/as_admin.c:373-397), so when a block's fields announce more bytes than the block holds, the C parser reads bytes outside the block: stale contents of that buffer, which is defined and parsing goes on, or past the buffer's end when the block fills it exactly. The model reads each block into a buffer of its own size (see Admin.ReadUserBlocks) and reports None for any read outside the block.
- Admin.ParseField: a user field whose stored length is 0, or negative read as a signed 32-bit int, gives `memcpy` a negative size, undefined behaviour in C; the model reports None.
- Admin.FieldStep: a skipped field of stored length 0 steps back one byte and is modelled (`Admin.SkipOfStoredZero`); a skip that would move before the buffer, undefined behaviour in C, is reported None.
- Admin.UsersFrom: a block whose fields end at or before its own start (only backward skips do this) is reported None; the C loop reads from there again and need not terminate.
- CText.Atoi: the model's atoi is unbounded, while C's returns an `int` and is undefined beyond INT_MAX; the lemmas about it (`CText.AtoiDecimal`, `CText.AtoiOfDecimal`, `Info.ParseErrorRoundTrip`, `Info.ParseErrorText`, `Info.ValidateLeadingError`) therefore only claim codes below 2^31.
- Info.DecodeError: for an empty message after `message=`, cl_info.c:494 computes the source length as `(uint32_t)strlen - 1`, which wraps to 0xFFFFFFFF and is handed to the base64 decoder; what the decoder then does is not part of this model, which leaves the buffer unchanged in that case.
- Info.DecodeMessageIn: the same empty-message case is modelled as an early return.
- Index.CopyResponse: `as_strncpy` is not part of this model; a missing (NULL) response, as a refused request or a node without a reply leaves, is taken to copy nothing and leave the message empty.
- Index.MissingArgumentIsClientError: its empty response message rests on that reading of `as_strncpy` with NULL.
- Admin.ReadUserBlocks: the regrowth of the read buffer is not modelled; a block is read into a buffer of its size.
- Admin.Execute: the connection pool, node release and the random node choice are not modelled.
- Clusters.Cluster.RemoveNodesCopy: requires distinct scheduled nodes of the array, as the tend's schedule is; `Clusters.ScheduledDistinct` and `Clusters.ScheduledMembers` prove that of it.
- Clusters.Cluster.RefreshNodes: `as_node_refresh` itself, and the friend counts it raises, are not modelled.
- `as_cluster_find_nodes_to_add`, the search inside `as_cluster_seed_nodes` and `as_cluster_set_partition_size`: they depend on DNS and node replies. The nodes a seeding finds are a parameter of the removal search, which adds them to the array as `as_cluster_seed_nodes` does (src/main/aerospike/as_cluster.c:232-235).
- The IP map copy in `as_cluster_create`, and reference counting with the release of garbage items.
- The `sprintf` buffers of the index commands: the model's strings have no 1024-byte limit.
- Shim's value conversions between record, bin and key representations: they depend on serialisation libraries.

## Findings

| source | as written | input that shows it | evidently intended | confidence | as-written member | corrected member |
|---|---|---|---|---|---|---|
| src/main/citrusleaf/cl_info.c:183 | `names[slen-1]` is read with `slen` a `uint32_t` that is 0 for an empty command, so the byte read is 2^32 - 1 places past the buffer; if it happens to be a newline, `slen` stays 0 and the empty command goes out without a terminator | `names == ""` with `send_asis == true` | every command, the empty one included, is sent ending in a newline | not executed | Info.EmptyCommandAsWritten | Info.TerminatedProperties |
