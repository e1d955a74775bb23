# Tencent Cloud IoT device shadow and HTTP client helpers, in Dafny

This project models two parts of the Tencent Cloud IoT C SDK, as shipped in this repository, and proves properties of them.

**The device-shadow client** (`qcloud_shadow_glue.c`) keeps:
- a bounded table of pending document requests;
- a request counter;
- the cached document version;
- a registry of device properties.

Its operations behave as follows:
- A request is published and then recorded, under its client token and with a deadline.
- A reply on the result topic completes every pending entry with the same token. The handler of each such entry is called with ACCEPTED or REJECTED. For an accepted get or a rejected update, the document's corrective delta is first passed to the properties.
- A periodic sweep times out expired entries.
- A delta message updates the registered properties and invokes their callbacks.
- Two helpers insert the `"type":"get|update", ` node into the outgoing JSON text, in place, inside the caller's fixed-size buffer.

The whole client state is the datatype `ShadowGlue.Shadow`. Each operation is a function `After…` from the old state to the new one. The class `ShadowGlue.ShadowClient` holds the same state in fields. Its methods run the source's list walks with loop invariants and are proved equal to those functions. Module `ShadowGlueProperties` proves what the functions guarantee.

**The HTTP client helpers** (`qcloud_httpc.c`):
- the Base64 encoder used for the basic-authorization header (section 4 of RFC 4648);
- the URL splitters `parse_url` and `parse_host`;
- the append-to-send-buffer step of `get_info`;
- the status-code classification at the start of `response_parse`.

Each one is an imperative method over `array<char>` buffers proved against a specification function, plus lemmas about that function.

Modules:
- `Qcloud` holds the shared result codes and wrappers.
- `CString` holds C-string helpers: `strlen`, `strstr`, `strchr`, and a copy with a terminator.
- `ShadowDocText` models the JSON text insertion.
- `ShadowGlue`, `ShadowGlueProperties` model the shadow client and its properties.
- `HttpcBase64`, `HttpcUrl`, `HttpcSend`, `HttpcResponse` model the HTTP helpers.

Inputs from outside the modelled code are passed in as parameters:
- the MQTT publish result;
- allocation success;
- the current time;
- the results of the JSON parsers, as the total functions in `ShadowGlue.Json`.

Callback invocations and publish attempts are recorded, in order, in the state's `trace`. That is how "the handler is called once, with TIMEOUT" is stated.

Two quirks of the source are kept, not tidied:
- The parse-failure path of `do_handle` drops an entry without decrementing the counter.
- Destroying the request list leaves the counter as it is.

So the proved invariant is `|requests| <= counter <= QCLOUD_SHADOW_REQUEST_PENDING_MAX`, not equality with the table's length.

Two more points where the model follows the code closely:
- `do_handle` calls the handler of every entry with a matching token, not only the first.
- A delta message updates the version like any other message.

## Model

Source paths are relative to the repository root.

| member | source | states |
|---|---|---|
| CString.StrLen | components/connectivity/TencentCloud_SDK/source/src/shadow/qcloud_shadow_glue.c:27-28 | strlen: the index of the first NUL, with no NUL before it |
| CString.Find | components/connectivity/TencentCloud_SDK/source/src/utils/qcloud_httpc.c:64 | strstr: the first position where the pattern occurs, or None exactly when it occurs nowhere |
| CString.FindChar | components/connectivity/TencentCloud_SDK/source/src/utils/qcloud_httpc.c:88 | strchr: the first index of the character, None exactly when it is absent |
| CString.StoredText | components/connectivity/TencentCloud_SDK/source/src/utils/qcloud_httpc.c:83-84 | a text copied with its terminator reads back as that C string |
| CString.CopyString | components/connectivity/TencentCloud_SDK/source/src/utils/qcloud_httpc.c:124-126 | memcpy followed by a terminator: the buffer holds the text, a NUL, and its old contents after them |
| ShadowDocText.TypeNode | components/connectivity/TencentCloud_SDK/source/src/shadow/qcloud_shadow_glue.c:54-68 | the node printed for get or update holds no NUL and fits the 64-byte node buffer |
| ShadowDocText.Inserted | components/connectivity/TencentCloud_SDK/source/src/shadow/qcloud_shadow_glue.c:24-39 | inserting node at pos gives doc[..pos] + node + doc[pos..], of length len + \|node\| |
| ShadowDocText.InsertedText | components/connectivity/TencentCloud_SDK/source/src/shadow/qcloud_shadow_glue.c:24-39 | after node_insert the buffer's C string is exactly the inserted text, its NUL at len + \|node\|; past the end of the text nothing moves |
| ShadowDocText.ShiftTail | components/connectivity/TencentCloud_SDK/source/src/shadow/qcloud_shadow_glue.c:30-32 | the tail doc[pos..len] moves n places right, the head and everything past len + n unchanged |
| ShadowDocText.CopyIn | components/connectivity/TencentCloud_SDK/source/src/shadow/qcloud_shadow_glue.c:34-36 | the node's bytes land at pos.., every other byte unchanged |
| ShadowDocText.NodeInsert | components/connectivity/TencentCloud_SDK/source/src/shadow/qcloud_shadow_glue.c:24-39 | the whole buffer afterwards is the inserted buffer of the old buffer, text length and node |
| ShadowDocText.MethodSetText | components/connectivity/TencentCloud_SDK/source/src/shadow/qcloud_shadow_glue.c:64-74 | QCLOUD_ERR_INVAL exactly when \|doc\| + \|node\| + 1 >= size, size being the caller's json_doc_size; on success the new text plus its terminator fits in size |
| ShadowDocText.MethodSet | components/connectivity/TencentCloud_SDK/source/src/shadow/qcloud_shadow_glue.c:44-77 | for a json_doc_size no larger than the buffer: on INVAL the buffer is unchanged; on success the type node is inserted at index 1 and the C string is the one MethodSetText gives |
| ShadowGlue.Truncate | components/connectivity/TencentCloud_SDK/source/src/shadow/qcloud_shadow_glue.c:330 | the stored token is a prefix of the given one, at most TokenMax long, and the whole token when it fits |
| ShadowGlue.UpdateProperties | components/connectivity/TencentCloud_SDK/source/src/shadow/qcloud_shadow_glue.c:399-406 | one delta pass keeps the number of registered properties |
| ShadowGlue.ShadowClient.Record | components/connectivity/TencentCloud_SDK/source/src/shadow/qcloud_shadow_glue.c:309-343 | the new state and return code are AfterRecord of the old state; the counter invariant holds |
| ShadowGlue.ShadowClient.Post | components/connectivity/TencentCloud_SDK/source/src/shadow/qcloud_shadow_glue.c:345-377 | return code, state and document text are AfterPost of the old ones and of the caller's json_doc_size |
| ShadowGlue.ShadowClient.DeltaHandle | components/connectivity/TencentCloud_SDK/source/src/shadow/qcloud_shadow_glue.c:385-411 | the walk over the properties gives AfterDelta: updated values and the callbacks in list order |
| ShadowGlue.ShadowClient.DoHandle | components/connectivity/TencentCloud_SDK/source/src/shadow/qcloud_shadow_glue.c:88-144 | the walk with in-place removal gives AfterDoHandle of the old state; the counter invariant holds |
| ShadowGlue.ShadowClient.CompleteRequest | components/connectivity/TencentCloud_SDK/source/src/shadow/qcloud_shadow_glue.c:123-138 | one matched entry: corrective delta if wanted, handler call, decrement, as Complete says |
| ShadowGlue.ShadowClient.Sweep | components/connectivity/TencentCloud_SDK/source/src/shadow/qcloud_shadow_glue.c:270-304 | returns QCLOUD_ERR_SUCCESS and the state AfterSweep of the old one; the counter invariant holds |
| ShadowGlue.ShadowClient.ResultHandler | components/connectivity/TencentCloud_SDK/source/src/shadow/qcloud_shadow_glue.c:151-224 | the new state is AfterMessage of the old state, topic and payload; the counter invariant holds |
| ShadowGlue.ShadowClient.RequestListDestroy | components/connectivity/TencentCloud_SDK/source/src/shadow/qcloud_shadow_glue.c:438-461 | the list becomes empty; counter, version, properties and trace (no handler call) stay |
| ShadowGlue.ShadowClient.PropertyListDestroy | components/connectivity/TencentCloud_SDK/source/src/shadow/qcloud_shadow_glue.c:413-436 | the property list becomes empty and nothing else changes |
| ShadowGlueProperties.RecordOutcome | components/connectivity/TencentCloud_SDK/source/src/shadow/qcloud_shadow_glue.c:317-340 | from any state with \|requests\| <= counter <= PendingMax: success iff counter < PendingMax and allocation succeeds; MAX_APPENDING_REQUEST iff at the bound; failure changes nothing; success adds exactly the new entry at the head and increments the counter, all else kept |
| ShadowGlueProperties.NewRequestFields | components/connectivity/TencentCloud_SDK/source/src/shadow/qcloud_shadow_glue.c:327-333 | the entry holds the caller's method, handler, context, deadline now + timeout, and the token cut at TokenMax |
| ShadowGlueProperties.PostOutcome | components/connectivity/TencentCloud_SDK/source/src/shadow/qcloud_shadow_glue.c:360-376 | success iff token parses, node fits, publish succeeds and record accepts; INVAL with nothing changed on a bad token; nothing recorded on any failure; a full table still publishes, then MAX_APPENDING_REQUEST |
| ShadowGlueProperties.DeltaEventsExact | components/connectivity/TencentCloud_SDK/source/src/shadow/qcloud_shadow_glue.c:399-406 | a callback is issued for a property iff the delta updates it, with the updated property; none is invented |
| ShadowGlueProperties.DeltaKeepsRegistry | components/connectivity/TencentCloud_SDK/source/src/shadow/qcloud_shadow_glue.c:399-406 | a delta keeps the registry's keys and handlers, leaves non-updated properties unchanged and touches neither requests, counter nor version |
| ShadowGlueProperties.DoHandleScanFacts | components/connectivity/TencentCloud_SDK/source/src/shadow/qcloud_shadow_glue.c:108-139 | the scan keeps exactly the entries with other tokens, in order; the counter falls by the number of matches if the code parses, by none otherwise |
| ShadowGlueProperties.DoHandleScanCallbacks | components/connectivity/TencentCloud_SDK/source/src/shadow/qcloud_shadow_glue.c:123-135 | without a corrective delta, each matching entry's handler runs once, in order, with ACCEPTED iff code 0 |
| ShadowGlueProperties.DoHandleOutcome | components/connectivity/TencentCloud_SDK/source/src/shadow/qcloud_shadow_glue.c:102-139 | after a reply the other tokens' entries stay in order, the matches go, the counter falls by their number only if the code parses (otherwise the counter-table gap grows by the matches, with no callback), the invariant and the version hold |
| ShadowGlueProperties.UnknownTokenChangesNothing | components/connectivity/TencentCloud_SDK/source/src/shadow/qcloud_shadow_glue.c:108-113 | a reply whose token is not pending changes nothing |
| ShadowGlueProperties.DoHandleCallbacks | components/connectivity/TencentCloud_SDK/source/src/shadow/qcloud_shadow_glue.c:123-135 | the handlers of the matching entries run in list order with ACCEPTED iff code 0, when no corrective delta applies |
| ShadowGlueProperties.DoHandleDeltaIff | components/connectivity/TencentCloud_SDK/source/src/shadow/qcloud_shadow_glue.c:125-135 | for any number of matching entries: when the reply is an accepted get or a rejected update carrying a corrective delta, the properties are those of one delta pass (unchanged if nothing matches) and each match adds the delta's property callbacks and then its handler call, in list order; otherwise the properties stay and each match adds only its handler call |
| ShadowGlueProperties.DoHandleDeltaUnique | components/connectivity/TencentCloud_SDK/source/src/shadow/qcloud_shadow_glue.c:125-135 | with exactly one matching entry: the delta, when wanted and present, updates the properties and its callbacks come before the handler call; otherwise only the handler is called |
| ShadowGlueProperties.RecordThenReply | components/connectivity/TencentCloud_SDK/source/src/shadow/qcloud_shadow_glue.c:108-139 | recording a fresh token and receiving its reply restores table and counter, leaving only that entry's completion |
| ShadowGlueProperties.SweepOutcome | components/connectivity/TencentCloud_SDK/source/src/shadow/qcloud_shadow_glue.c:285-299 | the sweep removes exactly the expired entries, one TIMEOUT call and one decrement each, keeps the rest in order; nothing pending is expired afterwards and a second sweep changes nothing |
| ShadowGlueProperties.SweepNothingExpired | components/connectivity/TencentCloud_SDK/source/src/shadow/qcloud_shadow_glue.c:289-291 | with nothing expired the sweep changes nothing |
| ShadowGlueProperties.RecordThenTimeout | components/connectivity/TencentCloud_SDK/source/src/shadow/qcloud_shadow_glue.c:332-333 | an entry recorded with a timeout gets exactly one TIMEOUT call from the first sweep at or after its deadline, and the table returns to before |
| ShadowGlueProperties.MessageVersion | components/connectivity/TencentCloud_SDK/source/src/shadow/qcloud_shadow_glue.c:194-197 | the version never decreases; for a message that gets that far it becomes max(old, parsed) when a version parses; otherwise it is unchanged |
| ShadowGlueProperties.MessageDropped | components/connectivity/TencentCloud_SDK/source/src/shadow/qcloud_shadow_glue.c:167-174 | a message with no topic or longer than QCLOUD_SHADOW_JSON_BUF_MAX changes nothing |
| ShadowGlueProperties.DeltaMessage | components/connectivity/TencentCloud_SDK/source/src/shadow/qcloud_shadow_glue.c:199-206 | a delta-type message updates the properties (if its delta parses) and never touches the request table or counter |
| ShadowGlueProperties.ReplyMessage | components/connectivity/TencentCloud_SDK/source/src/shadow/qcloud_shadow_glue.c:186-210 | any other message is handed to do_handle with its own token and type, after the version update |
| ShadowGlueProperties.DestroyKeepsCounter | components/connectivity/TencentCloud_SDK/source/src/shadow/qcloud_shadow_glue.c:438-461 | destroying the list calls no handler and keeps the counter, so a counter at the bound keeps refusing records with nothing pending |
| HttpcBase64.Digit | components/connectivity/TencentCloud_SDK/source/src/utils/qcloud_httpc.c:42 | a table digit is never the pad character or NUL |
| HttpcBase64.EncodeLength | components/connectivity/TencentCloud_SDK/source/src/utils/qcloud_httpc.c:40-59 | the encoding of n octets has length 4 * ((n + 2) / 3), a multiple of 4 |
| HttpcBase64.EncodeAppend | components/connectivity/TencentCloud_SDK/source/src/utils/qcloud_httpc.c:45-50 | encoding works group by group: whole groups of three encode independently |
| HttpcBase64.EncodeAlphabet | components/connectivity/TencentCloud_SDK/source/src/utils/qcloud_httpc.c:42 | every output character is among the 65 of the table |
| HttpcBase64.EncodePadding | components/connectivity/TencentCloud_SDK/source/src/utils/qcloud_httpc.c:55-57 | exactly the last 0, 2 or 1 characters are '=' (for n mod 3 = 0, 1, 2), and none elsewhere |
| HttpcBase64.DecodeEncode | components/connectivity/TencentCloud_SDK/source/src/utils/qcloud_httpc.c:40-59 | decoding the encoding gives the octets back |
| HttpcBase64.DrainBits | components/connectivity/TencentCloud_SDK/source/src/utils/qcloud_httpc.c:47-49 | the inner loop writes one digit per six accumulated bits, the top bits first, and leaves l mod 6 bits |
| HttpcBase64.ReadOctets | components/connectivity/TencentCloud_SDK/source/src/utils/qcloud_httpc.c:45-50 | the outer loop stops at the terminator with the accumulator holding every octet and the output holding what the per-octet drains write; the counts say how many whole groups and octets of the last one were read |
| HttpcBase64.ReadAll | components/connectivity/TencentCloud_SDK/source/src/utils/qcloud_httpc.c:45-50 | what the per-octet drains write over the whole input is the encoding of the whole groups followed by the digits of the partial one |
| HttpcBase64.FlushRest | components/connectivity/TencentCloud_SDK/source/src/utils/qcloud_httpc.c:51-54 | with bits left over, one more digit is written from them shifted up to six bits, and nothing is written otherwise |
| HttpcBase64.FlushEncodes | components/connectivity/TencentCloud_SDK/source/src/utils/qcloud_httpc.c:51-57 | that flushed digit completes the unpadded encoding, and what follows it in the encoding is only '=' up to the next multiple of 4 |
| HttpcBase64.PadOut | components/connectivity/TencentCloud_SDK/source/src/utils/qcloud_httpc.c:55-57 | '=' is written until the length is a multiple of 4, completing the encoding |
| HttpcBase64.Base64Enc | components/connectivity/TencentCloud_SDK/source/src/utils/qcloud_httpc.c:40-59 | out holds the RFC 4648 encoding of the ASCII input followed by a NUL, and the rest of out is unchanged; out must have room for the encoding and its NUL, which `_http_client_send_auth` as written does not ensure (see ## Findings) |
| HttpcBase64.AuthBufferShort | components/connectivity/TencentCloud_SDK/source/src/utils/qcloud_httpc.c:208-214 | the declared b_auth of (128 + 3) * 4 / 3 + 1 = 175 bytes holds the encoding of n credential characters (and the '\n' and NUL after it) exactly when n < 130, while snprintf lets 130 through |
| HttpcBase64.AuthBufFits | components/connectivity/TencentCloud_SDK/source/src/utils/qcloud_httpc.c:208-216 | a b_auth of 4 * 44 + 2 = 178 bytes holds the encoding, '\n' and NUL of any credentials snprintf leaves |
| HttpcBase64.AuthLine | components/connectivity/TencentCloud_SDK/source/src/utils/qcloud_httpc.c:208-216 | with that b_auth: the encoding of the credentials, then '\n', then NUL, none of the writes out of bounds |
| HttpcBase64.AuthLineText | components/connectivity/TencentCloud_SDK/source/src/utils/qcloud_httpc.c:214-218 | the text handed to get_info is the encoding followed by a line break |
| HttpcUrl.PathLen | components/connectivity/TencentCloud_SDK/source/src/utils/qcloud_httpc.c:112-117 | the path runs to the first '#' or the end |
| HttpcUrl.ParseUrlOutcome | components/connectivity/TencentCloud_SDK/source/src/utils/qcloud_httpc.c:61-129 | the parse with the two corrections of ## Findings: every part written fits its buffer with its terminator |
| HttpcUrl.Scheme | components/connectivity/TencentCloud_SDK/source/src/utils/qcloud_httpc.c:77-84 | the scheme is the text before the first "://" |
| HttpcUrl.Host | components/connectivity/TencentCloud_SDK/source/src/utils/qcloud_httpc.c:88-108 | the host holds no '/' and begins the text after "://" |
| HttpcUrl.Path | components/connectivity/TencentCloud_SDK/source/src/utils/qcloud_httpc.c:89-126 | the path starts with '/' and holds no '#' |
| HttpcUrl.ParseUrlWrites | components/connectivity/TencentCloud_SDK/source/src/utils/qcloud_httpc.c:61-129 | HTTP_PARSE without "://" or when the scheme does not fit; then *port is 0 and the scheme is written; the host once it fits, the path once it fits; success iff the path is written, HTTP_PARSE otherwise |
| HttpcUrl.UrlSplits | components/connectivity/TencentCloud_SDK/source/src/utils/qcloud_httpc.c:88-126 | scheme "://" host path is the URL up to nothing or a '#' fragment; without a '/' the host is the rest of the URL and the path is "/" |
| HttpcUrl.ParseUrl | components/connectivity/TencentCloud_SDK/source/src/utils/qcloud_httpc.c:61-129 | the parse with the two corrections of ## Findings: return code, port and the three buffers are what ParseUrlOutcome describes, other bytes unchanged |
| HttpcUrl.ParseUrlAsWritten | components/connectivity/TencentCloud_SDK/source/src/utils/qcloud_httpc.c:61-129 | the code as written copies a path only after a host |
| HttpcUrl.OverflowsExactly | components/connectivity/TencentCloud_SDK/source/src/utils/qcloud_httpc.c:61-129 | the code as written overflows a buffer exactly when "://" is found with a scheme that fits and either no '/' follows and the host or "/" with its terminator does not fit, or a '/' follows a host that fits whose first '#' is its last character; every other URL is refused or copied within the capacities |
| HttpcUrl.AsWrittenAgrees | components/connectivity/TencentCloud_SDK/source/src/utils/qcloud_httpc.c:61-129 | where no '#' is in the host and a host without '/' fits, the code as written returns the same code and copies exactly the corrected parts, with no overflow |
| HttpcUrl.HostUnchecked | components/connectivity/TencentCloud_SDK/source/src/utils/qcloud_httpc.c:89-99 | "http://abcd" with a 4-byte host buffer: the code as written copies 4 characters and a NUL and succeeds; the corrected one refuses |
| HttpcUrl.FragmentWraps | components/connectivity/TencentCloud_SDK/source/src/utils/qcloud_httpc.c:112-121 | "http://a#/x": the path length is 0xFFFFFFFF, the bound check wraps and passes, memcpy overflows |
| HttpcUrl.FragmentRefused | components/connectivity/TencentCloud_SDK/source/src/utils/qcloud_httpc.c:112-121 | "http://a#b/x" is refused although it fits |
| HttpcUrl.FragmentIntended | components/connectivity/TencentCloud_SDK/source/src/utils/qcloud_httpc.c:112-117 | with '#' searched from the path, both URLs parse with host "a#" or "a#b" and path "/x" |
| HttpcUrl.ParseHostResult | components/connectivity/TencentCloud_SDK/source/src/utils/qcloud_httpc.c:131-160 | a host that is returned fits its buffer; every failure is HTTP_PARSE |
| HttpcUrl.ParseHostIsHost | components/connectivity/TencentCloud_SDK/source/src/utils/qcloud_httpc.c:131-160 | parse_host returns the host between "://" and the next '/' or the end, exactly when "://" is present and the host fits |
| HttpcUrl.ParseHostAgrees | components/connectivity/TencentCloud_SDK/source/src/utils/qcloud_httpc.c:131-160 | parse_host and parse_url agree on the host |
| HttpcUrl.ParseHost | components/connectivity/TencentCloud_SDK/source/src/utils/qcloud_httpc.c:131-160 | the return code and host buffer are what ParseHostResult describes |
| HttpcSend.TakeLen | components/connectivity/TencentCloud_SDK/source/src/utils/qcloud_httpc.c:178-180 | a len of 0 means strlen(buf) |
| HttpcSend.Appended | components/connectivity/TencentCloud_SDK/source/src/utils/qcloud_httpc.c:183-190 | the data lands at idx and every other byte is kept |
| HttpcSend.AppendTwice | components/connectivity/TencentCloud_SDK/source/src/utils/qcloud_httpc.c:172-204 | two appends in a row equal one append of both pieces: each returned index is where the next writes |
| HttpcSend.CopyBytes | components/connectivity/TencentCloud_SDK/source/src/utils/qcloud_httpc.c:189 | memcpy into send_buf at idx |
| HttpcSend.GetInfo | components/connectivity/TencentCloud_SDK/source/src/utils/qcloud_httpc.c:172-204 | when idx + len < HTTP_CLIENT_SEND_BUF_SIZE: success, *send_idx = idx + len, the data at idx.., the rest of send_buf unchanged |
| HttpcResponse.SkipSpaces | components/connectivity/TencentCloud_SDK/source/src/utils/qcloud_httpc.c:596 | atoi skips exactly the leading white space |
| HttpcResponse.DigitRun | components/connectivity/TencentCloud_SDK/source/src/utils/qcloud_httpc.c:596 | atoi reads exactly the maximal run of digits |
| HttpcResponse.ValueDecimal | components/connectivity/TencentCloud_SDK/source/src/utils/qcloud_httpc.c:596 | the value of a number's decimal digits is the number |
| HttpcResponse.AtoiDecimal | components/connectivity/TencentCloud_SDK/source/src/utils/qcloud_httpc.c:596 | atoi of a number's digits followed by a non-digit is that number |
| HttpcResponse.Status | components/connectivity/TencentCloud_SDK/source/src/utils/qcloud_httpc.c:578-606 | content length -1; UNRESOLVED_DNS iff no CRLF (and then no code); HTTP_AUTH iff code 403, HTTP_NOT_FOUND iff 404, carry on iff any other code |
| HttpcResponse.StatusOfLine | components/connectivity/TencentCloud_SDK/source/src/utils/qcloud_httpc.c:596-606 | for a status line "HTTP/x.y code reason" the code read is the line's code and the outcome is AUTH, NOT_FOUND or carry on accordingly |
| HttpcResponse.ShortStatusLine | components/connectivity/TencentCloud_SDK/source/src/utils/qcloud_httpc.c:580-596 | a status line shorter than 9 characters makes atoi read past its cut: "HTTP/1" then "  404" on the next line is taken for a 404 |
| HttpcResponse.ResponseStatus | components/connectivity/TencentCloud_SDK/source/src/utils/qcloud_httpc.c:578-606 | the method returns what Status says and cuts the buffer at the CRLF with a NUL |

## Left out

- The mutexes (`osal_mutex_lock`/`unlock`) are left out: every operation is modelled as atomic and sequential. `do_handle` holds `global_lock` (qcloud_shadow_glue.c:106) while it calls `shadow_glue_delta_handle` (qcloud_shadow_glue.c:127), which locks `global_lock` again (qcloud_shadow_glue.c:397). The model runs the delta and then the handler, which is what happens only if that mutex is recursive. With a non-recursive mutex the C code would deadlock at that call.
- The list primitives' header is not part of this model. Two behaviours are assumed. `qcloud_list_add` inserts at the head (qcloud_shadow_glue.c:338). `QCLOUD_LIST_FOR_EACH_SAFE` walks from head to tail. The callback orders stated by DoHandleCallbacks, DoHandleDeltaIff, SweepOutcome and DeltaHandle rest on both, and so does "at the head" in RecordOutcome.
- The MQTT publish is left out. Its return code is a parameter of `Post`, and the attempt is recorded in the trace. The subscribe and unsubscribe wrappers are also left out.
- The `shadow_json_*` parsers and `shadow_json_value_update` are given as the total functions in `ShadowGlue.Json`. Their code is not part of this model. The int16 result code and uint32 version they yield are unbounded integers here.
- Timers are a deadline plus an explicit `now`. A request is expired when `deadline <= now`.
- A failed allocation is the `allocOk` parameter. The frees at the end of `result_handler` test the pointer inverted and are not modelled, because they release no state the model holds.
- The null-pointer sanity checks are left out because Dafny references are never null. Also left out: the branch of `result_handler` for a client without a shadow context.
- The callbacks' own effects are left out. A handler is a number, and its invocation is an event in the trace.
- The strings `SHADOW_OPERATION_GET`, `SHADOW_OPERATION_UPDATE` and `SHADOW_OPERATION_DELTA` are taken as "get", "update" and "delta". The bounds `QCLOUD_SHADOW_REQUEST_PENDING_MAX` = 10, `QCLOUD_SHADOW_CLIENT_TOKEN_MAX` = 32 and `QCLOUD_SHADOW_JSON_BUF_MAX` = 1024 are assumed as well. Their header is not part of this model.
- ShadowGlue.NewRequest: the token is modelled as cut at 32 characters. `strncpy` leaves no terminator for a token of 32 characters or more, and neither that nor the read of the next comparison past the field is modelled.
- ShadowDocText.MethodSet: only the two methods Get and Update exist. The switch's fall-through for any other value, which would print a null `type`, is not modelled.
- HttpcSend.GetInfo: the flush branch is excluded by the precondition `idx + len < HTTP_CLIENT_SEND_BUF_SIZE`. With it go the network write when the buffer fills and the return of the written byte count.
- The HTTP network path is not modelled: connect, send header and user data, receive, chunked content retrieval, and the header scanning after the status line in `response_parse`.
- HttpcBase64.Base64Enc: `x` is an unbounded integer, while the C `int` overflows after four octets. Only the low bits are ever read, so the output the model describes is the same. The input must be ASCII, because a `char` of 128 or more would be sign-extended.
- HttpcBase64.AuthLine: the `snprintf` of `auth_user`, ':' and `auth_password` into `base64buff` is not modelled; its result is the `src` parameter, whose C string holds at most 130 characters. The two `_http_client_get_info` calls around it are what HttpcSend.GetInfo models.
- HttpcResponse.Atoi: the overflow of `atoi` beyond `int` is not modelled. The response buffer is taken as zero-initialised past the received data, as `recv_response` declares it (qcloud_httpc.c:693).
- HttpcUrl.ParseUrl: the `uint32_t` capacities are unbounded here. `ParseUrlAsWritten` models the 32-bit path length of the code as written.
- The demo application and the event header are not part of this model.

## Findings

| source | as written | input that shows it | evidently intended | confidence | as-written member | corrected member |
|---|---|---|---|---|---|---|
| components/connectivity/TencentCloud_SDK/source/src/utils/qcloud_httpc.c:89-99 | without a '/' after "://", the host (the rest of the URL) and "/" are copied into the host and path buffers with no capacity check | "http://abcd" with maxhost_len 4: five bytes are written into a four-byte host buffer and the call succeeds | the same checks as the other branch: HTTP_PARSE when the host or "/" with its terminator does not fit | not executed | HttpcUrl.HostUnchecked | HttpcUrl.ParseUrlOutcome |
| components/connectivity/TencentCloud_SDK/source/src/utils/qcloud_httpc.c:112-121 | the fragment is searched for from the host on (`strchr(host_ptr, '#')`), so a '#' in the host makes `fragment_ptr - path_ptr` negative in a uint32 | "http://a#/x": path_len 0xFFFFFFFF, the check `max_path_len < path_len + 1` wraps to 0 and passes, memcpy copies 4294967295 bytes; "http://a#b/x" is refused though it fits | search from the path: `strchr(path_ptr, '#')`, giving path "/x" for both | not executed | HttpcUrl.FragmentWraps | HttpcUrl.FragmentIntended |
| components/connectivity/TencentCloud_SDK/source/src/utils/qcloud_httpc.c:208-214 | `b_auth` is declared with `(HTTP_CLIENT_AUTHB_SIZE + 3) * 4 / 3 + 1` = 175 bytes, but `base64buff` holds up to 130 characters, whose encoding is 176 characters plus a NUL, and lines 215-216 write one index further | credentials `user:password` of 130 characters or more: base64enc writes indices 175 and 176, past the end of `b_auth`, and line 215 stores a NUL at index 177 | `b_auth` of at least 4 * ceil(130 / 3) + 2 = 178 bytes, for the encoding, the '\n' and the NUL | not executed | HttpcBase64.AuthBufferShort | HttpcBase64.AuthLine |
