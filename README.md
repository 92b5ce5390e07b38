# node-minimalistic-server, modelled in Dafny

node-minimalistic-server is a small HTTP framework in a single module,
`index.mjs`. It has a `Request` class that parses what a client sends, a
family of `Response` classes that render what goes back, a route table built
from a nested configuration object, and `handleRequest`, which connects them.
This project models the logic of those pieces and proves properties about it.
It leaves out the server plumbing around them: sockets, files, timers and
library calls.

The modules follow the parts of `index.mjs`:

| file | module | models |
|---|---|---|
| base.dfy | Base | JavaScript vocabulary: `\s` white space, ASCII case, `split`/`filter`/`join`, and objects as insertion-ordered property lists (`Entries`) with assignment, spread (`Assign`) and `delete` |
| form_fields.dfy | FormFields | `#normalizeFormFields`: field names in bracket or dot notation become nested objects and arrays |
| multipart.dfy | Multipart | `#parseMultipart`: the delimiter scan in 40,000,000-byte windows, the part-header search, the regular expressions on part headers, and the collection of repeated names into arrays |
| request.dfy | Requests | the `Request` class: constructor normalisation, `getBody` content-type selection, `getAllParams`, `getCookies`, each memoised |
| headers.dfy | Headers | `Response`: cookies, custom headers, `Set-Cookie` rendering (section 4.1.1 of RFC 6265) and `getMergedWithOtherHeaders` |
| ranges.dfy | Ranges | `FileResponse`: the single-range subset of sections 14.2 and 14.4 of RFC 9110, the per-header memo, `getCode`/`getHeaders`/`getBody` and the chunk loop of `#getBodyStream` |
| routes.dfy | Routes | `normalizeRoutes` (flattening, middleware order, the trie), the stored route function, `wrapInResponseClass` |
| dispatch.dfy | Dispatch | the segment loop of `handleRequest`, the OPTIONS fallback, `staticCache`/`clearStaticCache` and the outcome of a request |
| escape.dfy | Escape | `escapeHtml` |

Imperative code keeps its form:
- a loop in the source is a method with a loop, proved equal to a
  specification function;
- an object whose fields change is a class.

So the loop over the form fields, the boundary scan, the part loop, the
cookie rendering loop, header deletion, the chunk loop, the trie build and
the segment loop are methods with loops. The walk along one field name's
fragments (with its null padding) is the recursive function
`FormFields.Walk` over values; the line for it under "Left out" says what
that does not capture. The `Request`, `Response`,
`FileResponse` and static-cache objects are classes. Their memo fields are
`Option` fields set once.

Library calls are parameters of the operations that use them:
- `decodeURIComponent`, `decodeURI` and `JSON.parse`, returning `None` where
  they throw;
- `encodeURIComponent`, `querystring.parse`, UTF-8 decoding, the URL parser
  and `Date.toUTCString`;
- the MIME table, as a `map`.

In two places the model follows `index.mjs` where the framework's
description of itself says otherwise:
- a HEAD request gets no automatic fallback to the GET route, because the
  code has no such fallback (index.mjs:1688-1703);
- a request that fails before dispatch is answered 500, as the generic
  `catch` does, not 400 (index.mjs:1706-1716).

In one place the model departs from the code. `index.mjs` does not clamp a
suffix range longer than the file, so the start falls below zero; this is
the finding below. `Ranges.FragmentAsWritten` computes the fragment as the
code does. The `FileResponse` class serves the corrected `Ranges.FragmentOf`
instead, and `Ranges.RequestedAsWritten` proves that the two differ only for
such a suffix.

Route handlers and middlewares are identified by numbers. What they do is
given as functions from the request to a `Step`: a returned value, a thrown
`Response`, or another thrown error.

## Model

| member | source | states |
|---|---|---|
| FormFields.Fragments | index.mjs:831-832 | a field name splits into non-empty path fragments (white space removed, `[]` read as `[-1]`) |
| FormFields.DottedNameFragments | index.mjs:831-832 | `a.b.c` with plain keys denotes exactly the path a, b, c |
| FormFields.BracketedNameFragments | index.mjs:831-832 | `a[b][c]` with plain keys denotes exactly the path a, b, c |
| FormFields.AppendNameFragments | index.mjs:831-832 | `k[]` denotes the path k, -1 |
| FormFields.MinusOne | index.mjs:843-846 | `-1` matches `/^-?\d+$/`, is worth -1 and so appends, and names no array element |
| FormFields.Walk | index.mjs:836-869 | one field's walk keeps the kind of the container, keeps every existing key, leaves keys other than the first fragment unchanged and never shortens an array |
| FormFields.ClashStops | index.mjs:841-866 | when the value reached clashes with the next fragment (an array and a key, an object and an index, a string, number or boolean), the walk breaks without throwing and the tree is unchanged |
| FormFields.ClashDropsField | index.mjs:829-869 | a field whose path clashes with what earlier fields built leaves the normalised body as it was |
| FormFields.Normalized | index.mjs:827-873 | the normalised body is always an object |
| FormFields.NormalizeFormFields | index.mjs:827-873 | the loop over the properties computes `Normalized`, one walk per property in enumeration order |
| FormFields.WalkBuildsNest | index.mjs:840-860 | a path of keys written into an empty object builds nested objects ending in the value |
| FormFields.NestedNames | index.mjs:827-873 | a single field `a.b.c` or `a[b][c]` becomes `{a: {b: {c: value}}}` |
| FormFields.AppendToArray | index.mjs:846-851 | appending splices an array value in element by element, adds nothing for null and pushes any other value |
| FormFields.AppendToKey | index.mjs:840-851 | `k[]` on an object creates the array when absent and appends to it as above |
| FormFields.AppendKeepsOrder | index.mjs:846-848 | an array of repeated values for `k[]` lands under `k` in submission order |
| FormFields.AppendsInOrder | index.mjs:846-851 | repeated single-valued appends to one key give the values in arrival order |
| FormFields.ListFieldAppends | index.mjs:827-873 | a body with one `list[]` field of several values normalises to `{list: values}` |
| FormFields.PadsWithNulls | index.mjs:843-858 | a non-negative index is capped at length+10000; the array grows to index+1 with nulls between, other elements kept and the slot written |
| FormFields.ExistingIsKept | index.mjs:840 | a path whose steps are already present leaves the whole tree unchanged (an existing value is not overwritten) |
| Multipart.IsBoundaryEnd | index.mjs:882-896 | the backwards comparison is true exactly when the pattern occupies the bytes ending at the index |
| Multipart.MatchesMembers | index.mjs:900-914 | the scan records exactly the indexes at which the delimiter ends |
| Multipart.MatchesIncreasing | index.mjs:900-914 | each index is recorded once, in increasing order |
| Multipart.ScanBoundaries | index.mjs:898-921 | the windowed loop finds the same matches as one pass over the body; parts start 3 bytes after a delimiter, end 2 bytes before the next, and the last is popped |
| Multipart.PartsOfAppend | index.mjs:904-912 | a new match closes the previous part and opens a new one |
| Multipart.ConsecutiveDelimiters | index.mjs:900-921 | each part lies between two consecutive delimiters, with none inside it |
| Multipart.FirstTerminator | index.mjs:930-935 | a terminator found ends at an index inside the searched range; it may begin up to three bytes before that range |
| Multipart.FirstTerminatorIsFirst | index.mjs:930-935 | no `\r\n\r\n` ends before the one found, or anywhere in the part when none is found |
| Multipart.HeaderEnd | index.mjs:927-935 | the search loop stops 3 bytes before the end of the first `\r\n\r\n`, or at the end of the part when there is none |
| Multipart.Slice | index.mjs:937-958 | a slice never exceeds its buffer |
| Multipart.FirstAfter | index.mjs:939-940 | the first look-behind match for `name="` or `filename="`, none before it |
| Multipart.RunUntil | index.mjs:939-940 | `[^"]*`: the longest run up to the next quote |
| Multipart.FirstContentType | index.mjs:941 | the first line that starts with `Content-Type:` and has text after it |
| Multipart.FirstBoundary | index.mjs:876 | a match of the look-behind for `boundary=` |
| Multipart.RunOfNonSpace | index.mjs:876 | `\S+`: the token has no white space |
| Multipart.Delimiter | index.mjs:876-878 | the delimiter is `--` and the token (or `--undefined`), longer than two bytes |
| Multipart.PartField | index.mjs:937-959 | a part gives a field only with a non-empty name, and its value is a string, an uploaded file or null |
| Multipart.PartValue | index.mjs:945-958 | with a non-empty name: a content type and a file name give a file of the bytes after the blank line, a content type alone gives null, and no content type gives the text after the blank line, or '' when the header block runs to the part's end |
| Multipart.PartWithoutField | index.mjs:939-944 | a name or file name that is not valid percent-encoding rejects the body; a name that decodes to '' skips the part |
| Multipart.FirstTerminatorAt | index.mjs:929-935 | a terminator with none ending before it in the part is the one found |
| Multipart.HeaderEndAt | index.mjs:927-935 | the header block ends where the first blank line of the part begins |
| Multipart.LayoutPieces | index.mjs:937-958 | in a part laid out as header, blank line and content, the blank line ends three bytes after the header, and slicing reads back the header and the content |
| Multipart.LaidOutPart | index.mjs:927-958 | such a part, with no earlier blank line, has its header block end at the header's end and gives the content as a file when it has a content type and a file name, null with a content type alone, and the content as text without a content type |
| Multipart.UnterminatedPart | index.mjs:927-958 | a part with no blank line gives an empty file, null or '' by the same three rules |
| Multipart.AddFieldSame | index.mjs:961-972 | a repeated name turns into an array that grows by each non-null value |
| Multipart.AddFieldOther | index.mjs:961-972 | adding a field leaves the other names unchanged |
| Multipart.GroupedSnoc | index.mjs:961-972 | grouping the values of one name by one more value is the same as growing the group by that value |
| Multipart.CollectedValue | index.mjs:925-973 | each name holds its first value (a null included) or, when repeated, the array of that first value and the later non-null values, in arrival order |
| Multipart.FieldsPrefix | index.mjs:927-973 | the fields of one more part extend the fields of the parts before it |
| Multipart.FieldsFail | index.mjs:939-940 | one name or file name that does not decode rejects the whole body |
| Multipart.CollectParts | index.mjs:925-973 | the part loop collects the fields of all parts, or fails when one does not decode |
| Multipart.Decoded | index.mjs:875-976 | the specification of `#parseMultipart`: scanned parts, their fields collected and normalised, or a rejection; `ParseMultipart` is proved to compute it and `FieldsFail` gives the rejection |
| Multipart.ParseMultipart | index.mjs:875-976 | the parser is the scan, the part loop and the normaliser composed |
| Requests.LowerCased | index.mjs:744-746 | each header keeps its value under its lower-cased name, in order |
| Requests.HeaderLookup | index.mjs:744-746 | a header is found under its lower-cased name with the value of the last header that lower-cases to it |
| Requests.NormalPathSegments | index.mjs:748 | the path's segments are the non-empty segments of the URL path, so normalising twice changes nothing |
| Requests.Request.constructor | index.mjs:737-753 | upper-cased method, lower-cased headers (later wins), normalised path, query parameters (later wins), empty path parameters and memos |
| Requests.Request.SetPathParams | index.mjs:771-773 | replaces the path parameters and nothing else |
| Requests.AsValues | index.mjs:785 | query parameters enter the normaliser as string values, in order |
| Requests.Request.GetBody | index.mjs:779-825 | the first call selects the body by method and content type; every later call settles the same way |
| Requests.SelectBody | index.mjs:779-825 | the body `getBody` selects: `GetReadsQuery` and `RawPayloadKept` prove its first and last branches, and `Request.GetBody` stores it |
| Requests.GetReadsQuery | index.mjs:782-786 | a GET that is not a urlencoded form gets its normalised query parameters, whatever its payload |
| Requests.RawPayloadKept | index.mjs:813-815 | a non-GET payload whose type none of the parsers claims is kept as bytes |
| Requests.AsMap | index.mjs:988-989 | spreading an object yields exactly its names with their (last) values |
| Requests.IndexMap | index.mjs:990 | spreading an array or Buffer yields exactly the properties "0" … "n-1", each holding the element at that index |
| Requests.ArrayBodyParams | index.mjs:990 | every own property of an array body is an index below its length; in the merged parameters it and every index name hold that element, over path parameters and query |
| Requests.OwnProperties | index.mjs:990 | what spreading the body contributes; `ArrayBodyParams` and `ScalarBodyUnderBody` prove its array and scalar cases |
| Requests.MergedParams | index.mjs:987-991 | the merged parameters; `ParamsPrecedence` proves every name present and the body over path parameters over query |
| Requests.ParamsPrecedence | index.mjs:987-991 | every name of the query, the path parameters and the body is present; the body wins over the path parameters, which win over the query |
| Requests.ScalarBodyUnderBody | index.mjs:990 | a string, number or boolean body is reachable as `body` |
| Requests.Request.GetAllParams | index.mjs:983-995 | rejected when the body is; otherwise the merge of the moment is stored and returned by every later call |
| Requests.DecodePairs | index.mjs:1002-1003 | every `;` piece gives one name/value pair, or decoding fails |
| Requests.CookiePiece | index.mjs:1002 | `name=value` splits back into name and value |
| Requests.CookiePieces | index.mjs:1001 | the `;` pieces of a joined Cookie header are the cookies |
| Requests.DecodeCookiePairs | index.mjs:1002-1003 | plain cookies decode to themselves |
| Requests.ParseCookies | index.mjs:997-1008 | the cookie object; `CookieRoundTrip` proves plain cookies read back exactly and `NoCookieHeader` the absent header |
| Requests.CookieRoundTrip | index.mjs:997-1008 | distinct plain cookies sent in one Cookie header are read back exactly |
| Requests.NoCookieHeader | index.mjs:1000-1004 | without a Cookie header the result is one cookie with empty name and value |
| Requests.Request.GetCookies | index.mjs:997-1008 | parsed on the first call that does not throw, then kept |
| Headers.WithoutDashes | index.mjs:1069 | the attribute key has no dashes |
| Headers.AttributeKeyPlain | index.mjs:1069 | a lower-case name without dashes is its own key |
| Headers.CamelKey | index.mjs:1069 | `maxAge` is read as the `maxage` attribute |
| Headers.ValuedAttribute | index.mjs:1084-1092 | a non-flag attribute renders as `; Name=value`: dates in UTC form, a path as is, anything else URI-encoded |
| Headers.MaxAgeAttribute | index.mjs:1075-1092 | `maxage` renders as `; Max-Age=` and the encoded value |
| Headers.CamelMaxAge | index.mjs:1069-1092 | `maxAge: 0` renders as `; Max-Age=0` |
| Headers.PathAttribute | index.mjs:1077-1092 | the default path renders as `; Path=/`, unencoded |
| Headers.FlagAttribute | index.mjs:1085-1095 | Secure, HttpOnly and Partitioned appear exactly when their value is truthy |
| Headers.NotAnAttribute | index.mjs:1071-1084 | the `value` property adds no attribute |
| Headers.DefaultAttributes | index.mjs:1065-1097 | the defaults render as `; Max-Age=<five years>; Path=/` |
| Headers.DefaultProps | index.mjs:1065 | a cookie object without `maxage` and `path` gets the defaults in front of its own properties |
| Headers.DefaultsComeFirst | index.mjs:1065-1097 | such a cookie renders as name=value, then the defaults, then its own attributes in order |
| Headers.DeletedCookie | index.mjs:1059-1097 | a null or undefined cookie renders with an empty value and a final `Max-Age=0` |
| Headers.DeletedAttributes | index.mjs:1060-1097 | the deleting properties render as `; Max-Age=0` |
| Headers.AddedCookieWins | index.mjs:1039-1041 | added cookies override those already set; the others stay |
| Headers.Response.constructor | index.mjs:1127-1133 | a response starts with the given cookies and no custom headers |
| Headers.Response.SetCookies | index.mjs:1035-1037 | replaces the cookies only |
| Headers.Response.AddCookies | index.mjs:1039-1041 | spreads the added cookies over the current ones, or takes them when there are none |
| Headers.Response.GetCookies | index.mjs:1043-1045 | no cookies read as an empty object |
| Headers.Response.AddCustomHeaders | index.mjs:1047-1049 | spreads the added headers over the custom headers |
| Headers.Response.GetHeaders | index.mjs:1027-1029 | each header is the merge of the kind's headers, the cookies and the custom headers, without null ones |
| Headers.AttributeText | index.mjs:1069-1095 | one property's attribute text; `ValuedAttribute`, `MaxAgeAttribute`, `PathAttribute`, `FlagAttribute` and `NotAnAttribute` prove its cases |
| Headers.CookieString | index.mjs:1057-1097 | one cookie's line; `DefaultsComeFirst` and `DeletedCookie` prove its shape, and `RenderCookie` is proved to compute it |
| Headers.CookieLines | index.mjs:1056-1099 | one `Set-Cookie` line per cookie |
| Headers.RenderCookies | index.mjs:1053-1099 | the cookie loop yields the lines in enumeration order |
| Headers.RenderCookie | index.mjs:1057-1097 | the property loop yields the cookie string |
| Headers.DropNil | index.mjs:1112-1116 | the deletion loop removes exactly the null and undefined headers and keeps the others' values |
| Headers.MergeWithOtherHeaders | index.mjs:1051-1119 | the merge returns each present header's value from custom headers, cookies or given headers |
| Headers.Merged | index.mjs:1101-1116 | the merged headers; `MergedLookup` proves custom over Set-Cookie over given headers and no null header |
| Headers.MergedLookup | index.mjs:1101-1116 | custom headers win over Set-Cookie, which wins over the given headers; no header is sent null |
| Headers.PreflightHasNoContentType | index.mjs:1112-1116 | the preflight answer is sent without a Content-Type |
| Ranges.RemoveFirst | index.mjs:1232 | at most one occurrence is removed: the text keeps its length or loses exactly the length of the pattern |
| Ranges.SkipSpaces | index.mjs:1233 | `\s*` consumes exactly the white space that follows |
| Ranges.DashMatch | index.mjs:1233 | a separator match is non-empty and inside the text |
| Ranges.SplitAtDashes | index.mjs:1233 | the split gives at least one piece |
| Ranges.SplitDigitPair | index.mjs:1233 | `a-b` with digits on both sides splits into `a` and `b` |
| Ranges.SplitSigned | index.mjs:1233 | in `-b` the dash has no word character before it, so it does not split |
| Ranges.RangeNumber | index.mjs:1234-1242 | a kept number is a non-zero safe integer and is the number the text denotes |
| Ranges.DigitsNumber | index.mjs:1235-1241 | a run of digits gives its value, or null when it is zero or beyond the safe integers |
| Ranges.NegativeNumber | index.mjs:1235-1241 | a minus sign and digits give the negative value, or null |
| Ranges.RangeNumbers | index.mjs:1230-1242 | a Range value gives at least one number |
| Ranges.ExplicitNumbers | index.mjs:1230-1242 | `bytes=a-b` gives the numbers of `a` and of `b` |
| Ranges.SuffixNumbers | index.mjs:1230-1242 | `bytes=-b` gives one negative number |
| Ranges.StartAsWritten | index.mjs:1251-1259 | the start as written is at most size-1 |
| Ranges.FragmentAsWritten | index.mjs:1251-1272 | the fragment as written starts at most at size-1 and does not run past the end |
| Ranges.Start | index.mjs:1251-1259 | with the start clamped at 0, it lies inside the file |
| Ranges.FragmentOf | index.mjs:1251-1272 | the fragment starts inside the file and 0 <= size <= size-start |
| Ranges.AsWrittenAgrees | index.mjs:1251-1267 | the two computations agree unless a suffix is longer than the file, when the one as written starts below zero |
| Ranges.ExplicitRange | index.mjs:1261-1267 | `a-b` inside the file gives bytes a to min(b, size-1) |
| Ranges.OpenRange | index.mjs:1261-1267 | without an end the window is 4 MiB or what remains |
| Ranges.Suffix | index.mjs:1253-1267 | `-n` gives the last n bytes, at most 4 MiB of them |
| Ranges.FirstByteWindow | index.mjs:1237-1261 | `bytes=0-0` reads both zeros as absent and serves the first 4 MiB |
| Ranges.NegativeStartRange | index.mjs:1192-1255 | a start below zero prints a Content-Range beginning `bytes -` |
| Ranges.LongSuffix | index.mjs:1253-1259 | `bytes=-n` with n > size starts at size-n < 0 as written, at 0 when clamped |
| Ranges.ChunkPlan | index.mjs:1291-1300 | the reads cover the requested bytes in order, each at most 4 MiB and only the last shorter |
| Ranges.ContentRange | index.mjs:1192 | `bytes first-last/total`; `FragmentHeaders` sets it as the Content-Range of a fragment and `NegativeStartRange` shows it for a start below 0 |
| Ranges.FragmentHeaders | index.mjs:1189-1195 | a fragment sets Content-Range and Content-Length and keeps every other header |
| Ranges.Requested | index.mjs:1225-1272 | a fragment is produced exactly for a 2xx streamed file and a single range; it is the corrected fragment and lies inside the file |
| Ranges.RequestedAsWritten | index.mjs:1251-1268 | the fragment served is the one the code computes, except for a suffix longer than the file, where the code's start is negative and the served one is 0 |
| Ranges.Extension | index.mjs:1319 | the file's extension; `TypeOfExtension` proves it is the text after the last dot, lower-cased |
| Ranges.ContentTypeFor | index.mjs:1319 | the Content-Type of a file; `TypeOfExtension` proves it is the MIME table's type of the extension, else `application/octet-stream`, when none is given |
| Ranges.TypeOfExtension | index.mjs:1319 | the extension is the text after the last dot, lower-cased (a name without a dot is its own extension), and without a given Content-Type it selects the MIME table's type or `application/octet-stream` |
| Ranges.FileHeaders | index.mjs:1316-1330 | Content-Type and Content-Length for an opened file, JSON for a missing one; `RetrieveData` stores them merged through `Describes` |
| Ranges.FileResponse.constructor | index.mjs:1166-1172 | a file response starts with no data and no memoised fragments |
| Ranges.FileResponse.SetFilePath | index.mjs:1216-1219 | a new path drops the data and keeps the fragment memo |
| Ranges.FileResponse.RetrieveData | index.mjs:1306-1342 | the data is resolved once and kept |
| Ranges.FileResponse.GetFragmentRequest | index.mjs:1221-1278 | memoised per header object; a comma gives null, no Range header leaves the memo, otherwise the requested fragment is stored |
| Ranges.FileResponse.GetCode | index.mjs:1174-1183 | 206 when the fragment memoised for the Range header is served, else the data's code; the path, code and content type stay, the data is settled and the memo holds the fragment that header asks for |
| Ranges.FileResponse.GetHeaders | index.mjs:1185-1199 | with the fragment the Range header asks for, the data's headers with its Content-Range and Content-Length, else the data's headers; the same new state as `GetCode` |
| Ranges.FileResponse.GetBody | index.mjs:1201-1304 | the fragment the Range header asks for, or the whole file, in chunks for a streamed file, else the buffer; the same new state as `GetCode` |
| Routes.FlattenNode | index.mjs:1523-1543 | one visit of `flattenRecursively`; `FlattenNodeAssigns` proves it makes exactly the writes of `Assignments` and `FlattenNodeOrder` the middleware order |
| Routes.FlattenProps | index.mjs:1536-1540 | the loop over a node's properties; `FlattenPropsAssigns` and `FlattenPropsOrder` prove the same for it |
| Routes.Flatten | index.mjs:1520-1543 | the `flatten` object; `FlattenHolds` proves a path is present exactly when a handler is written there and holds the last write |
| Routes.WithinOuter | index.mjs:1529-1533 | a route within the longer lists is within the shorter ones |
| Routes.FlattenNodeOrder | index.mjs:1523-1540 | every handler a node adds runs its ancestors' and its own pre-middlewares first and their post-middlewares last |
| Routes.FlattenPropsOrder | index.mjs:1536-1540 | the same for the loop over a node's properties |
| Routes.FlattenOrder | index.mjs:1523-1576 | every flattened route runs the top level's pre-middlewares first and post-middlewares last |
| Routes.LastAssignedIsLast | index.mjs:1542 | a path is written exactly when some write names it, and the route kept is that of a write with no later one to the same path |
| Routes.PutAllLookup | index.mjs:1542 | after a series of writes, a path holds the route written to it last, or what it held before |
| Routes.FlattenNodeAssigns | index.mjs:1523-1575 | visiting a node makes exactly the writes `Assignments` lists: one per handler below it, at its joined path, with its ancestors' and its own middlewares |
| Routes.FlattenPropsAssigns | index.mjs:1536-1540 | the same for the loop over a node's properties |
| Routes.FlattenHolds | index.mjs:1520-1576 | the flattened table has a route at a path exactly when some handler of the configuration is written there, and that route is the last one written |
| Routes.HandlerAssigned | index.mjs:1536-1542 | every handler reached through the configuration's properties is written at its joined path, wrapped in its ancestors' and its own middlewares |
| Routes.AssignedHandler | index.mjs:1536-1542 | every write comes from a handler reached through the configuration's properties |
| Routes.ConfiguredHandlerStored | index.mjs:1520-1576 | every handler of the configuration leaves a route at its joined path: its own unless a later handler is written at the same path |
| Routes.RouteKey | index.mjs:1581-1588 | a route's trie segments are non-empty and contain no `/` |
| Routes.RouteKeyOfMethod | index.mjs:1581-1585 | a path whose last segment names a method in any case is stored under the other segments and that method, upper-cased |
| Routes.RouteKeyOfPath | index.mjs:1581-1588 | any other path, the empty one included, is stored under all its segments as a GET route |
| Routes.FindEmpty | index.mjs:1578 | the empty trie holds no route |
| Routes.InsertFind | index.mjs:1590-1600 | inserting stores the route under its segments and key and changes no other lookup |
| Routes.BuildFind | index.mjs:1580-1601 | each slot holds the route of the last flattened path naming it |
| Routes.NormalizeRoutes | index.mjs:1520-1604 | every trie lookup finds the last flattened route with those segments and method |
| Routes.LastRouteHeld | index.mjs:1579-1601 | every flattened path leaves a route in the slot its segments and method name |
| Routes.ConfiguredRouteFound | index.mjs:1520-1604 | every handler of the configuration leaves a route in the table under the segments and method of its joined path |
| Routes.WrapKeepsResponses | index.mjs:1606-1616 | a Response passes through; objects become JSON and other values HTML, both with code 200 |
| Routes.PresAppend | index.mjs:1546-1552 | pre-middlewares run in order, each on the request the previous one left |
| Routes.PostsAppend | index.mjs:1563-1569 | post-middlewares run in order, each on the response the previous one left |
| Routes.QuietPosts | index.mjs:1566-1568 | post-middlewares returning undefined keep the response |
| Routes.RunRoute | index.mjs:1542-1572 | the route function's loops compute `RunSpec`: a thrown Response is caught and still goes through the post-middlewares |
| Dispatch.FirstParam | index.mjs:1671-1677 | the first `{name}` child in enumeration order, none before it |
| Dispatch.IsParamKey | index.mjs:1672 | `/^{\w+}$/` on a key; `FirstParam` finds the first child it accepts |
| Dispatch.Step | index.mjs:1668-1680 | one segment; `ParamBound` proves the binding of a parameter child and `StepSegment` is proved to compute it |
| Dispatch.Walk | index.mjs:1663-1685 | the segment loop; `WalkLiteral` proves literal segments reach the node `Find` reads |
| Dispatch.StepSegment | index.mjs:1668-1680 | one segment: a literal child first, else the first parameter child binding the decoded segment |
| Dispatch.ResolveRoute | index.mjs:1663-1693 | the segment loop and method selection compute `Resolve` |
| Dispatch.WalkLiteral | index.mjs:1663-1685 | following literal segments reaches the node `Find` reads, binding nothing |
| Dispatch.JoinedFragments | index.mjs:1663 | a path joined from segments splits back into them |
| Dispatch.LiteralRouteFound | index.mjs:1663-1693 | a route stored under literal segments is found for the path made of them, with no parameters |
| Dispatch.OptionsFallback | index.mjs:1688-1690 | OPTIONS on a path with routes but no OPTIONS handler gives the handler stored under the fallback key, flagged as a preflight, and is unrouted when there is none |
| Dispatch.FallbackKey | index.mjs:1690 | the OPTIONS fallback key; `AbsentFallbackKey` and `AnnouncedFallbackKey` prove its two cases |
| Dispatch.Pick | index.mjs:1688-1693 | the route chosen at the node reached; `OptionsFallback` proves the OPTIONS fallback |
| Dispatch.Resolve | index.mjs:1663-1693 | the route a request reaches; `LiteralRouteFound` proves a stored literal route is found and `ResolveRoute` is proved to compute it |
| Dispatch.AbsentFallbackKey | index.mjs:1690 | without an Access-Control-Request-Method header the fallback key is `/UNDEFINED/` |
| Dispatch.AnnouncedFallbackKey | index.mjs:1690 | with the header the fallback key is its value upper-cased between slashes |
| Dispatch.ParamBound | index.mjs:1668-1680 | with no literal match, the first parameter child binds the decoded segment under its name |
| Dispatch.StaticCache.constructor | index.mjs:1618 | the cache starts empty |
| Dispatch.StaticCache.Get | index.mjs:1650-1660 | returns the cached response, or caches a new one with a five-day Cache-Control |
| Dispatch.StaticCache.Clear | index.mjs:1620-1626 | clears everything or one path |
| Dispatch.HandleRequest | index.mjs:1628-1716 | static GETs go through the cache (500 when decodeURI throws), a new path adding one fresh five-day entry and keeping the others; other requests resolve, giving 404, 500 or the route's response |
| Escape.ReplaceAll | index.mjs:1503-1507 | a pass removes its character when the entity lacks it, and changes no other character's presence |
| Escape.EscapeHtml | index.mjs:1502-1508 | null gives `''`; the output contains none of `< > " '` |
| Escape.Passes | index.mjs:1503-1507 | the five chained replaces; `EscapeIsPerCharacter` proves they escape each character exactly once |
| Escape.EscapeIsPerCharacter | index.mjs:1502-1508 | the five passes, `&` first, escape each character exactly once |
| Escape.UnescapeEscape | index.mjs:1502-1508 | decoding the five entities recovers the input |
| Escape.PlainTextUnchanged | index.mjs:1502-1508 | text without special characters is returned unchanged |

## Left out

- Sockets, `serve`/`unserve` and the server registry are not modelled
  (index.mjs:1441-1518). Neither is the write loop that waits for
  `writableNeedDrain`. All of these are I/O and timers.
- The final `try` of `handleRequest` is left out (index.mjs:1718-1728). It
  asks the response for its code, headers and body, and answers 500 when one
  throws.
- Dispatch.HandleRequest: works on the request's method, path and headers as
  values. It does not hand the bound path parameters to a `Request` object
  (`Requests.Request.SetPathParams` models that call).
- Dispatch.HandleRequest: an error thrown by `new Request(req)` (a malformed
  URL) becomes the generic 500, as the code does. The model does not
  construct the request inside the handler.
- File system access (`fs.open`, `stat`, `read`, `readFile`) is left out. The
  file size is an input; `None` stands for a file that cannot be opened.
- Promises, stream events and the 30 ms yield between multipart windows are
  left out. A memo is an `Option` field set once.
- Request stream `timeout` and `error` events are left out. The payload is
  the bytes the stream delivers.
- The MIME table is an input map, not the 690 literal entries.
- `JSON.stringify`, `JSON.parse`, `querystring.parse`,
  `encodeURIComponent`, `decodeURIComponent`, `decodeURI`, UTF-8 decoding
  and the `URL` parser are parameters. Their own behaviour is not modelled.
- Ranges.RangeNumber: only decimal integers (with an optional sign, + or -)
  are read as numbers. Other texts `+x` accepts are read as NaN: fractions,
  exponents, hexadecimal and `Infinity`.
- Property enumeration order is insertion order. JavaScript lists
  integer-like keys first; that reordering is not modelled.
- Prototype keys such as `__proto__` are not modelled.
- Requests.ParamsPrecedence: the merged parameters are a map, so their key
  order is not modelled (object bodies are maps in the model).
- Requests.Request.constructor: upper- and lower-casing are ASCII only. Node
  delivers header names and methods in ASCII.
- `setCustomData`/`getCustomData` and the plain getters are not modelled.
  They store and return a value without logic.
- Ranges.Requested: for a suffix range longer than the file it gives the
  corrected fragment, which starts at byte 0. The code gives a negative start
  (index.mjs:1253-1259). Ranges.RequestedAsWritten states that this is the
  only difference.
- Ranges.FileResponse.GetFragmentRequest: stores and returns that corrected
  fragment, not the negative start the code stores.
- Ranges.FileResponse.GetHeaders: the Content-Range of such a fragment starts
  at 0, where the code prints `bytes -…`.
- Ranges.FileResponse.GetBody: such a fragment is read from byte 0, where the
  code reads from a negative position.
- FormFields.Walk: a key fragment on an uploaded file or a Buffer stops the
  walk. The source assigns it as an own property of that object, since both
  are objects that are not arrays (index.mjs:842, 859-860). The model's
  `File` and `Bytes` values have no place for extra properties.
- FormFields.Walk: the source walks one field name by updating its
  `parent` object in place (index.mjs:840-866), padding an array with
  `push(null)` in a loop (index.mjs:851-853). The model rebuilds the value
  recursively instead, so it does not capture that update in place or the
  aliasing between the object being walked and the result.
- Ranges.Extension: the extension is lower-cased in ASCII only. The code
  uses the full Unicode `toLowerCase` (index.mjs:1319), which maps a few other
  letters onto ASCII ones: a file name ending in `.` followed by the Kelvin
  sign (U+212A) and `ML` has the KML type there and
  `application/octet-stream` here.
- Routes.RouteKey: the method segment is upper-cased in ASCII only. The code
  uses the full Unicode `toUpperCase` (index.mjs:1582), which maps a few other
  letters onto ASCII ones (`ſ` to `S`).
- Dispatch.FallbackKey: the Access-Control-Request-Method value is
  upper-cased in ASCII only; the code uses the full Unicode `toUpperCase`
  (index.mjs:1690).
- Dispatch.IsParamKey: the key must be exactly `{name}`. The code's
  `/^{\w+}$/gm` has the multi-line flag, so it also accepts a key whose
  first or any later line is `{name}` (index.mjs:1672).
- Ranges.FileResponse.SetFilePath: a fragment memoised before a new path was
  set stays in the memo, as in the code. The model keeps it and does not
  re-check it against the new file.
- Routes.RunRoute: middlewares and handlers are identified by numbers, so an
  array element that is not a function is not modelled.
- WebSocket handshake and framing, body-size limits and a bound on the
  static cache are not in `index.mjs`, so the model has none of them.
  HEAD is also absent from the method list (index.mjs:1584).
- `console` logging is left out.
- `escapeHtml` of a value that is not a string: the text `toString` gives is
  the input.

## Findings

| source | as written | input that shows it | evidently intended | confidence | as-written member | corrected member |
|---|---|---|---|---|---|---|
| index.mjs:1253-1259 | a negative start is added to the size but never raised to 0 | `Range: bytes=-N` with N larger than the file (file over 4 MiB) gives offset size-N < 0, a `Content-Range` beginning `bytes -` and a read before the file's start | a suffix longer than the file starts at byte 0, as section 14.1.2 of RFC 9110 says, within the usual 4 MiB window | not executed | Ranges.FragmentAsWritten (Ranges.LongSuffix, Ranges.NegativeStartRange) | Ranges.FragmentOf (Ranges.Start, Ranges.LongSuffix) |

`Ranges.Requested` and the `FileResponse` class use the corrected `FragmentOf`; the lines for them under "Left out" say what that changes.
