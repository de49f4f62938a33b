# A verified model of the bridge gateway's core

The bridge (older name "guardian") is an actix-web gateway. It stands in
front of inference services, MCP servers, per-user Jupyter notebooks and
other resources. It authenticates callers by cookie or bearer token and
forwards their requests. It also serves a portal where group admins and
system admins manage users and groups, and it runs a background job that
reaps idle notebooks.

This project models that core in Dafny and proves properties of the
model:

- **Request gates** (`BridgeMiddleware`, `GuardianMiddleware`):
  - the cookie and resource allow-list checks;
  - the maintenance redirect and the HTTPS redirect;
  - the HTMX-only gate;
  - the bearer-token validator.
- **Forwarding** (`Helper`, `Routes`, `Services`):
  - the method translation;
  - the request and response header filters, and the `X-Forwarded-For` header;
  - the status code check;
  - the path rewriting of the `/mcp/`, `/proxy` and `/resource/` routes;
  - the URL path parser that `Url::set_path` runs, with its dot-segment resolution (`UrlPath`);
  - the service catalog lookup.
- **Decoders** (`AuthDeserialize`, `DbDeserialize`):
  - the hand-written serde visitors of the login query and the OAuth callback;
  - the hand-written serde visitor of the group form, with its percent-decoding;
  - each decoder with an encoder it round-trips with.
- **Portal**:
  - the role redirect, the admin check, the hygiene check and the token claims (`Portal`);
  - the group admin's page, membership edit and tabs (`GroupAdmin`),
    with the sorted insert and remove by binary search (`Sorting`);
  - the system admin's page, group and user create, update and delete, and tabs (`SystemAdmin`);
  - the HTML builders (`SystemAdminHtmx`, `ProfileHtmx`).
- **OAuth and OpenID** (`OAuth`, `OpenId`):
  - token introspection, including an exact model of the regular expression
    `(?i)token\s*=\s*([^&]+)` the token is extracted with;
  - the OpenID provider names and the client lookup.
- **Background machinery**:
  - the notebook lifecycle job with its idle-time rule (`NotebookLifecycle`);
  - the two poll-driven state machines that drive it: `LifecycleStream` and
    the lease-holding `Medium`;
  - the log batcher `FutureRace` (`LoggerFutures`).
- **Data and helpers**:
  - the stored records (`Models`) and the database lookups (`Store`);
  - the maintenance messages of the cache (`KeyDb`);
  - the Notebook custom resource spec and its JSON form (`KubeModels`);
  - the `EnumToArrayStr` derive macro (`EnumDerive`);
  - the error type (`Errors`);
  - the string, UTF-8 and map operations of Rust's standard library these rely on
    (`Strings`, `Utf8`, `Maps`, `Http`, `Wrappers`).

How the model is written:

- Handlers that only decide are functions, given the inputs they read:
  - the database collections as sequences;
  - the cookie, the form or the headers;
  - the clock;
  - the answers of services the model cannot see.
- Code that updates state in place is modelled as classes with `modifies` clauses:
  - `FutureRace`, `LifecycleStream`, `Medium`, `Profile`, `GroupContent`.
- Loops are modelled as methods with loop invariants, each proved against a
  reference function:
  - the group-form visitor;
  - `delimited_string_to_vec`;
  - the header copy loops;
  - the steps of the lifecycle job.

## Model

| member | source | states |
|---|---|---|
| Errors.StatusCode | src/errors/mod.rs:12-18 | a general error is answered with 500 and a missing HTMX tag with 400 |
| Errors.Display | src/errors/mod.rs:4-10 | the display text of a general error is its message; the HTMX error has its fixed text |
| Models.ParseUserType | src/db/models.rs:4-12 | exactly "user", "group" and "system" deserialise to a role, and each to the role with that serde name |
| Models.ParseWireName | src/db/models.rs:4-12 | deserialising a role's serialised name gives the role back |
| Models.WireNameInjective | src/db/models.rs:4-12 | distinct roles have distinct serialised names |
| Models.UserTypeNames | src/web/route/portal/system_admin/mod.rs:378-380 | the role names the user form offers each deserialise, name every role, and are distinct |
| Maps.CollectMap | src/web/route/auth/deserialize.rs:26-36 | collecting pairs into a map keeps every key that occurs, with the value of its last pair |
| Maps.CollectStep | src/web/route/auth/deserialize.rs:26-36 | inserting one more pair into the collected map gives the map of the longer list |
| Maps.LastValueUnique | src/web/route/auth/deserialize.rs:26-36 | a key has at most one last value |
| Strings.StripPrefixOr | src/web/route/proxy/mod.rs:28-32 | `strip_prefix(p).unwrap_or(s)`: the remainder after `p` when `s` starts with it, and `s` itself otherwise |
| Strings.Split | src/web/route/auth/deserialize.rs:27-29 | `split` returns at least one piece, and the first piece is a prefix of the input |
| Strings.JoinSplit | src/web/route/auth/deserialize.rs:27-29 | joining the pieces of a split with the pattern gives the input back |
| Strings.SplitPiecesFree | src/web/route/auth/deserialize.rs:27-29 | no piece of a split contains the pattern |
| Strings.SplitCharMany | src/db/deserialize.rs:37-43 | splitting on one character yields a second piece exactly when the character occurs |
| Strings.SplitHead | src/kube/notebook_lifecycle.rs:250 | the first piece of a split on a character is the longest prefix without that character |
| Strings.SplitJoin | src/db/deserialize.rs:36-37 | splitting a join on a character gives back the parts, provided no part holds that character |
| Strings.TrimStart | src/web/route/auth/deserialize.rs:31 | trimming drops the longest trimmed prefix, and the remainder does not start with a trimmed element |
| Strings.TrimEnd | src/web/route/auth/deserialize.rs:31 | trimming drops the longest trimmed suffix, and the remainder does not end with a trimmed element |
| Strings.TrimUntouched | src/web/route/auth/deserialize.rs:31 | trimming leaves a text alone when neither end is trimmed |
| Utf8.EncodeChar | src/db/deserialize.rs:44 | a character's UTF-8 encoding is one to four bytes long |
| Utf8.DecodeEncode | src/db/deserialize.rs:44 | decoding the UTF-8 encoding of a text gives the text back |
| Utf8.EncodeDecode | src/db/deserialize.rs:44 | a byte string that decodes was the encoding of its decoded text |
| Utf8.EncodeAppend | src/web/route/portal/profile_htmx.rs:43 | the encoding of a concatenation is the concatenation of the encodings |
| Utf8.EncodeAsciiText | src/web/bridge_middleware/htmx.rs:50-51 | ASCII text encodes byte for byte |
| Http.ToStr | src/web/helper.rs:195 | `HeaderValue::to_str` succeeds exactly for visible ASCII, and its text encodes back to the value |
| Http.ToStrFromText | src/web/helper.rs:195 | a value written from visible ASCII text reads back as that text |
| Http.AsciiBytesEncode | src/web/helper.rs:195 | the UTF-8 encoding of ASCII text is its character codes |
| Http.GetHeader | src/web/route/proxy/mod.rs:35-37 | `get` finds a value exactly when some header has the name, and then the value is that header's |
| Store.FirstIndex | src/db/mongo.rs:48-53 | the index of the first matching document, or none exactly when no document matches; `FindByEmail`, `FindById` and `FindGroup` instantiate it |
| Store.FindUserById | src/db/mongo.rs:48-53 | `find` succeeds exactly when a stored user has the id, with that user; otherwise "Could not find any document" |
| Store.FindGroupByName | src/db/mongo.rs:48-53 | `find` succeeds exactly when a stored group has the name, with that group; otherwise "Could not find any document" |
| Store.MembersOf | src/db/mongo.rs:55-70 | exactly the stored users who belong to the group |
| Store.FindMembers | src/db/mongo.rs:55-70 | `find_many` returns the group's members, and an empty answer is the error "Could not find any documents" |
| AuthDeserialize.PieceToPair | src/web/route/auth/deserialize.rs:28-35 | a parameter yields a pair exactly when it holds '=' |
| AuthDeserialize.PieceToPairOf | src/web/route/auth/deserialize.rs:28-35 | the pair is the key trimmed of white space and the second `=`-piece with its quotes stripped |
| AuthDeserialize.Pairs | src/web/route/auth/deserialize.rs:26-36 | the `filter_map` keeps at most one pair per parameter |
| AuthDeserialize.ParseBool | src/web/route/auth/deserialize.rs:45 | `parse::<bool>` accepts exactly "true" and "false" |
| AuthDeserialize.DecodeTokenRequest | src/web/route/auth/deserialize.rs:22-54 | a missing `username`, then a missing `admin`, is reported; otherwise the last values are taken; `gui` is present only when given, and an unparsable `gui` fails |
| AuthDeserialize.DecodeCallBack | src/web/route/auth/deserialize.rs:85-110 | succeeds exactly when `code` and `state` are both present, with their last values; the first missing field is reported |
| AuthDeserialize.EncodePairs | src/web/route/auth/deserialize.rs:26-36 | writes the pairs one to one as `key=value` |
| AuthDeserialize.PairsOfEncoded | src/web/route/auth/deserialize.rs:26-36 | reading back the written pairs gives the pairs |
| AuthDeserialize.QueryPairsOfEncoded | src/web/route/auth/deserialize.rs:26-36 | splitting a written query on '&' and reading its pairs gives the pairs back |
| AuthDeserialize.DecodeTokenRequestOf | src/web/route/auth/deserialize.rs:38-53 | the request is built from the last `username`, `admin` and `gui` values of the query |
| AuthDeserialize.DecodeEncodeTokenRequest | src/web/route/auth/deserialize.rs:22-54 | decoding the query written for a login request gives the request back |
| AuthDeserialize.DecodeEncodeCallBack | src/web/route/auth/deserialize.rs:85-110 | decoding the query written for a callback gives the callback back |
| DbDeserialize.HexValue | src/db/deserialize.rs:44 | a hexadecimal digit has a value below 16 |
| DbDeserialize.HexDigit | src/db/deserialize.rs:44 | every value below 16 has a digit that reads back as it |
| DbDeserialize.PercentDecodeBytes | src/db/deserialize.rs:44 | decoding never lengthens the bytes, and bytes without '%' are left unchanged |
| DbDeserialize.PercentDecode | src/db/deserialize.rs:44 | `urlencoding::decode` fails exactly when the decoded bytes are not UTF-8; otherwise its text encodes to them |
| DbDeserialize.PercentEncodeBytes | src/db/deserialize.rs:44 | encoded bytes are ASCII and hold neither '&' nor '=' |
| DbDeserialize.EncodeByte | src/db/deserialize.rs:44 | one encoded byte is ASCII and holds neither '&' nor '=' |
| DbDeserialize.DecodeEncodeBytes | src/db/deserialize.rs:44 | percent-decoding the percent-encoding of any bytes gives them back |
| DbDeserialize.DecodeEncodeByte | src/db/deserialize.rs:44 | decoding one encoded byte, followed by anything, gives the byte, followed by that thing decoded |
| DbDeserialize.PercentEncode | src/db/deserialize.rs:44 | an encoded text holds neither '&' nor '=' |
| DbDeserialize.PercentDecodeEncode | src/db/deserialize.rs:44 | decoding the encoding of any text gives the text back |
| DbDeserialize.ParseParam | src/db/deserialize.rs:37-56 | a parameter without '=' is a missing value; errors are only a missing value, invalid UTF-8 or an unknown field; accepted keys are the three form fields |
| DbDeserialize.ParseEncodedParam | src/db/deserialize.rs:37-56 | a written form parameter parses back to its field and value |
| DbDeserialize.EncodeParamNoAmpersand | src/db/deserialize.rs:36 | a written parameter holds no '&', so it cannot split into two |
| DbDeserialize.ParseAll | src/db/deserialize.rs:36-57 | when every parameter parses, there is one result per parameter |
| DbDeserialize.ParseAllEntries | src/db/deserialize.rs:36-57 | when every parameter parses, each result is that parameter's own entry |
| DbDeserialize.ParseAllOk | src/db/deserialize.rs:36-57 | parameters that each parse give the list of their results |
| DbDeserialize.ParseParamExtraEquals | src/db/deserialize.rs:37-43 | only the first two '='-separated pieces count: text after a second '=' is ignored |
| DbDeserialize.ParseAllErr | src/db/deserialize.rs:36-57 | a failing list fails with the error of its first failing parameter, all earlier ones parsing |
| DbDeserialize.DecodeGroupForm | src/db/deserialize.rs:28-68 | a decoded form has every parameter parsing; a parameter error is that of the first failing parameter; a missing field is reported only when every parameter parses, and only for `name` or `last_updated_by` |
| DbDeserialize.ParseAllPrefixErr | src/db/deserialize.rs:36-57 | the first bad parameter decides the error, whatever follows it |
| DbDeserialize.ValuesOfAppend | src/db/deserialize.rs:48 | the values of a field from two lists, in order |
| DbDeserialize.LastOfAppend | src/db/deserialize.rs:47-49 | the later list's last value of a field wins |
| DbDeserialize.VisitStr | src/db/deserialize.rs:28-68 | the visitor's loop computes the form the input denotes: subscriptions in order, the last name and updater, the first error, then `name` and `last_updated_by` required in that order |
| DbDeserialize.SubscriptionEntries | src/db/deserialize.rs:48 | one `subscriptions` entry per subscription, in order |
| DbDeserialize.EncodeParams | src/db/deserialize.rs:36-37 | writes the entries one to one |
| DbDeserialize.SubscriptionValues | src/db/deserialize.rs:47-49 | subscription entries give back the subscriptions and set neither name nor updater |
| DbDeserialize.DecodeEncodeGroupForm | src/db/deserialize.rs:28-68 | decoding the written form of any group form gives it back |
| DbDeserialize.EncodedEntriesParse | src/db/deserialize.rs:36-57 | a written query of form fields splits and parses back to its entries |
| DbDeserialize.FormEntriesSelect | src/db/deserialize.rs:47-49 | a form's entries yield its subscriptions, its name and its updater |
| DbDeserialize.EmptyFormMissingValue | src/db/deserialize.rs:41-43 | the empty body is refused with a missing value |
| Helper.LogWithLevel | src/web/helper.rs:13-57 | the value passes through unchanged, and an error, and only an error, is logged with the level's prefix |
| Helper.SplitStr | src/web/helper.rs:74 | a split with any delimiter has at least one piece |
| Helper.Chars | src/web/helper.rs:74 | the pieces of an empty-delimiter split between its ends are the characters |
| Helper.JoinSplitStr | src/web/helper.rs:74 | joining the pieces of a split with its delimiter gives the input back |
| Helper.SplitEach | src/web/helper.rs:73-74 | the pieces of every input, in input order |
| Helper.DelimitedStringToVec | src/web/helper.rs:71-79 | the fold pushes the pieces of each input in order: the concatenation of the splits |
| Helper.DelimitedPieces | src/web/helper.rs:71-79 | no result piece contains the delimiter, and each input is recovered by joining its pieces |
| Helper.DelimitedExample | src/web/helper.rs:452-468 | ["a,b,c", "d,e,f"] split on "," gives the six letters in order |
| Helper.MapMethod | src/web/helper.rs:159-174 | exactly the nine method names are translated, each to the method of that name; others are "Unsupported HTTP method" |
| Helper.MapMethodName | src/web/helper.rs:159-174 | every method the forwarder sends is reached from its own name |
| Helper.Kept | src/web/helper.rs:189-192 | the filter keeps only headers of the direction's allowed names |
| Helper.InsertHeaders | src/web/helper.rs:189-197 | the copy loop succeeds exactly when every kept value is visible ASCII, and then gives the map of the kept headers, where later values replace earlier ones |
| Helper.KeptNames | src/web/helper.rs:189-192 | filtering brings in no new header name |
| Helper.KeptLast | src/web/helper.rs:189-197 | a kept name reaches the map with its last value |
| Helper.ForwardRequestHeaders | src/web/helper.rs:182-197 | the upstream headers are `X-Forwarded-For` from the peer, then the incoming headers, never `authorization` nor `inference-service`; the copy fails on a non-text value |
| Helper.ForwardedValue | src/web/helper.rs:182-197 | a forwarded name carries its last incoming value, and `x-forwarded-for` falls back to the peer address |
| Helper.ResponseStatus | src/web/helper.rs:209-211 | `from_u16` accepts exactly the codes 100 to 999, unchanged |
| Helper.ForwardResponseHeaders | src/web/helper.rs:218-233 | all upstream response headers are copied except `connection`, `keep-alive` and `content-length`; the copy fails on a non-text value |
| Helper.NotebookDestroy | src/web/helper.rs:260-299 | the notebook is deleted first; its volume only when not persisted and the first delete succeeded; the user record is updated only when the deletes succeeded, clearing the notebook and setting the updater and time; a failed update (or time conversion) is the error and leaves the records unchanged |
| Sorting.LessEqTotal | src/web/route/portal/group_admin/mod.rs:150-191 | string order is total |
| Sorting.LessEqTrans | src/web/route/portal/group_admin/mod.rs:150-191 | string order is transitive |
| Sorting.LessEqAntisym | src/web/route/portal/group_admin/mod.rs:150-191 | string order is antisymmetric |
| Sorting.Insert | src/web/route/portal/group_admin/mod.rs:150-191 | inserting into a sorted list keeps it sorted and adds exactly the element |
| Sorting.Sort | src/web/route/portal/group_admin/mod.rs:150-191 | `sort` gives a sorted permutation |
| Sorting.SortedUnique | src/web/route/portal/group_admin/mod.rs:150-191 | two sorted permutations of one list are equal, so any sort agrees with this one |
| Sorting.BinarySearch | src/web/route/portal/group_admin/mod.rs:150-191 | `binary_search` finds an index of the element exactly when it is present, and otherwise the place where it would go |
| Sorting.RemoveAt | src/web/route/portal/group_admin/mod.rs:150-191 | `remove(i)` drops exactly the element at `i` |
| Sorting.RemoveAnyEqual | src/web/route/portal/group_admin/mod.rs:150-191 | in a sorted list, which of several equal elements is removed does not matter |
| Sorting.EqualRun | src/web/route/portal/group_admin/mod.rs:150-191 | in a sorted list, every element between two equal ones is equal to them |
| Sorting.RemoveSorted | src/web/route/portal/group_admin/mod.rs:150-191 | removing an element keeps a list sorted |
| Portal.ObjectIdOf | src/web/route/portal/token.rs:38-39 | `ObjectId` parsing accepts exactly 24 hexadecimal digits, stored in lower case |
| Portal.FindSubject | src/web/route/portal/token.rs:38-50 | a subject that is not an ObjectId is refused; otherwise the lookup succeeds exactly when a stored user has that id, giving the first such user, and is "not found" otherwise |
| Portal.FirstGroupSubscriptions | src/web/route/portal/group_admin/mod.rs:75-81 | the subscriptions of the user's first group, or none when it is not stored |
| Portal.Index | src/web/route/portal/mod.rs:15-39 | the index always answers 308 with one location header, and that location is "/" exactly when there is no cookie |
| Portal.IndexLocationInjective | src/web/route/portal/mod.rs:15-39 | two roles are sent to the same page exactly when they are the same role |
| Portal.CheckAdmin | src/web/route/portal/helper.rs:35-62 | the cookie passes exactly when its role is the requested one; a missing cookie is "user not found", and another role is "user not found" with "User <subject> is not a system admin" |
| Portal.PortalHygienicGroup | src/web/route/portal/helper.rs:18-33 | a group document may not be edited from the portal, a user document may, and any other document is an error |
| Portal.GetAllGroups | src/web/route/portal/helper.rs:65-71 | all stored groups, and no groups is "Could not find any documents" |
| Portal.TokenForUser | src/web/route/portal/token.rs:26-80 | a token is issued exactly for a stored user who has no group or whose first group is stored, to the caller's subject, for 30 days; its scope is [""] for a user without groups and otherwise the stored first group's subscriptions; an unknown subject passes on the lookup's error and a missing group is "not found" |
| GroupAdmin.UpdateMembership | src/web/route/portal/group_admin/mod.rs:150-191 | adding refuses a present group and appends to the sorted list; removing refuses an absent group and removes one occurrence, keeping the list sorted |
| GroupAdmin.GroupUpdateUser | src/web/route/portal/group_admin/mod.rs:111-209 | only a group admin may edit; an unknown email is a 400 "does not exist"; adding a group the user has is a 400 "already belongs", removing one they lack a 400 "does not belong"; an edit that applies answers "Added" or "Removed" unless the update fails; the store changes only on success, and then only the named user's groups, updater and time |
| GroupAdmin.GroupPage | src/web/route/portal/group_admin/mod.rs:40-108 | the page is shown exactly to a stored group admin whose cookie also says group admin, with their name, groups line, first group's subscriptions and token; the notebook is shown exactly when it is subscribed; an unknown subject passes on the lookup's error |
| GroupAdmin.Emails | src/web/route/portal/group_admin/mod.rs:212-280 | the members' emails, one to one and in order |
| GroupAdmin.GroupTab | src/web/route/portal/group_admin/mod.rs:212-280 | a tab is shown exactly to a stored group admin, and a member tab only when their first group has members; a member tab without a group is an error, and one whose group has no members is "Could not find any documents"; every other tab is a 400 naming it |
| SystemAdminHtmx.GroupContent.constructor | src/web/route/portal/system_admin/htmx.rs:6-8 | a new content has no items |
| SystemAdminHtmx.GroupContent.Add | src/web/route/portal/system_admin/htmx.rs:10-12 | appends the item and changes nothing else |
| SystemAdminHtmx.GroupContent.Render | src/web/route/portal/system_admin/htmx.rs:14-20 | the loop computes the items concatenated in order |
| SystemAdminHtmx.RenderPieces | src/web/route/portal/system_admin/htmx.rs:14-20 | each rendered item follows the earlier ones |
| SystemAdminHtmx.LastUpdatedByField | src/web/route/portal/system_admin/htmx.rs:45 | states only that the one read-only input is its fixed head, the subject and its fixed tail (`FieldValue` reads the subject back); the rest of the form's markup is fixed text and is not modelled |
| SystemAdminHtmx.FieldValue | src/web/route/portal/system_admin/htmx.rs:45 | the subject can be read back from the field |
| SystemAdmin.SystemPage | src/web/route/portal/system_admin/mod.rs:47-109 | the page is shown exactly to a stored system admin whose cookie also says system admin, with that admin's name, groups line, first group's subscriptions and token; the notebook is shown exactly when it is among those subscriptions; a stored record of another type is "not allowed on page" |
| SystemAdmin.GroupFormOf | src/web/route/portal/system_admin/mod.rs:113-152 | the body decodes as the group form visitor decodes it, and a failure is a bad payload |
| SystemAdmin.SystemCreateGroup | src/web/route/portal/system_admin/mod.rs:113-152 | only a system admin creates; an accepted insert is confirmed with its id and stores the group with the comma-split subscriptions and equal creation and update times; an insert error mentioning "dup key" is a 400 "already exists" and any other is passed on; the store is unchanged on failure |
| SystemAdmin.SystemUpdateGroup | src/web/route/portal/system_admin/mod.rs:170-208 | only a system admin updates; a refused update is passed on; otherwise an unknown name is a 400 "does not exist", and the first group with the form's name gets the new subscriptions, time and editor and is confirmed; the store is unchanged on failure |
| SystemAdmin.SystemUpdateUser | src/web/route/portal/system_admin/mod.rs:211-255 | only a system admin updates; nobody may update their own record; a refused update is passed on; an unknown email is a 400 "does not exist"; otherwise the first user with the email gets the form's groups and role and the update is confirmed |
| SystemAdmin.DeleteFirst | src/web/route/portal/system_admin/mod.rs:258-285 | `delete_one` removes the first user with the email and keeps the rest in order |
| SystemAdmin.SystemDeleteUser | src/web/route/portal/system_admin/mod.rs:258-285 | only a system admin deletes; nobody may delete their own record; a refused delete is passed on; otherwise the first user with the email is removed and the deletion confirmed |
| SystemAdmin.GroupNames | src/web/route/portal/system_admin/mod.rs:288-407 | the groups' names, one to one and in order |
| SystemAdmin.SystemTab | src/web/route/portal/system_admin/mod.rs:288-407 | a tab is shown exactly to a stored system admin asking for a tab it can fill: the profile tab is fixed text; the group tabs need the catalog's services (and Modify a group) and list them with the groups; the user tabs need a target user, and show it with every group name and the three role names |
| OAuth.SkipWs | src/web/route/auth/oauth.rs:74 | the greedy `\s*` run ends at the first character that is not white space |
| OAuth.RunEnd | src/web/route/auth/oauth.rs:74 | the greedy `[^&]*` run ends at the first '&' or at the end |
| OAuth.WsRunBound | src/web/route/auth/oauth.rs:74 | every white-space run from a position ends within the greedy one |
| OAuth.CaptureAt | src/web/route/auth/oauth.rs:74-76 | a capture is non-empty, in bounds and holds no '&' |
| OAuth.CaptureAtMatches | src/web/route/auth/oauth.rs:74-76 | a match starts at a position exactly when a capture is found there; the capture belongs to a match, with the greedy choice of the latest capture start, then the latest end |
| OAuth.Leftmost | src/web/route/auth/oauth.rs:75 | the first position where a match starts, or none when there is none |
| OAuth.Starts | src/web/route/auth/oauth.rs:75 | for each position, whether a match starts there |
| OAuth.ExtractToken | src/web/route/auth/oauth.rs:72-77 | an extracted token is non-empty and holds no '&' |
| OAuth.ExtractTokenNone | src/web/route/auth/oauth.rs:72-77 | nothing is extracted exactly when the pattern matches nowhere in the body |
| OAuth.ExtractTokenLeftmost | src/web/route/auth/oauth.rs:72-77 | the token is the group of a match with no match starting earlier, taken greedily |
| OAuth.UnanchoredKey | src/web/route/auth/oauth.rs:74 | after a prefix without the key, `token=v` yields `v` wherever it stands in the body |
| OAuth.FirstKeyToken | src/web/route/auth/oauth.rs:74 | when the first key of the body is followed directly by `=` and a value without `&` that does not start with white space, that value is the token |
| OAuth.RunEndToEnd | src/web/route/auth/oauth.rs:74 | without a later '&', the group runs to the end of the body |
| OAuth.AccessToken | src/web/route/auth/oauth.rs:74 | "access_token=x" yields "x" |
| OAuth.Active | src/web/route/auth/oauth.rs:46-52 | a 200 JSON answer reporting whether the token is active |
| OAuth.FindApp | src/web/route/auth/oauth.rs:37-40 | a registered application with the client id, or none exactly when there is none |
| OAuth.Introspection | src/web/route/auth/oauth.rs:23-70 | a missing credential or body is `invalid_request`; only an unreadable body is an error; an unknown client is `invalid_request`; a 200 comes exactly for a known client with its secret and a found token, and reports that token's validity; anything else is `invalid_request` |
| OpenId.ProviderOfName | src/auth/openid.rs:78-86 | "w3" and "ibm" name the two providers, and any other name names none |
| OpenId.ConfigKey | src/auth/openid.rs:68-76 | a provider's configuration key is empty exactly for no provider |
| OpenId.ConfigKeysDistinct | src/auth/openid.rs:68-76 | distinct providers have distinct configuration keys |
| OpenId.GetOpenIdProvider | src/auth/openid.rs:88-95 | the provider's initialised client, or `AuthorizationServerNotSupported` for no provider or an uninitialised one |
| OpenId.UnknownNameRefused | src/auth/openid.rs:78-95 | a login with any name but "w3" or "ibm" is refused, whatever clients exist |
| KeyDb.FromPayload | src/db/keydb.rs:43-53 | exactly the bytes "start" and "stop" are commands, and an unreadable payload is no command |
| KeyDb.Publish | src/db/keydb.rs:47-51 | a reference encoder with no function of its own in `keydb.rs`: the payload the match arms recognise for each message, empty exactly for no command |
| KeyDb.FromPayloadRoundTrip | src/db/keydb.rs:43-53 | reading the published payload of a message gives the message back |
| KeyDb.CapitalisedIgnored | src/db/keydb.rs:47-51 | the match is on exact bytes, so "Start" is no command |
| ProfileHtmx.TakeBytes | src/web/route/portal/profile_htmx.rs:43 | `&s[0..n]` is the prefix whose encoding is `n` bytes, and it panics exactly when no prefix ends there |
| ProfileHtmx.Nickname | src/web/route/portal/profile_htmx.rs:43 | a nickname is four bytes long and starts the name once an "mcp-" prefix is removed |
| ProfileHtmx.NicknameAscii | src/web/route/portal/profile_htmx.rs:43 | for an ASCII name, the nickname is its first four characters after the prefix |
| ProfileHtmx.EncodePrefixStrict | src/web/route/portal/profile_htmx.rs:43 | longer prefixes encode to more bytes |
| ProfileHtmx.NicknameShortPanics | src/web/route/portal/profile_htmx.rs:43 | a name with fewer than four bytes after the prefix makes `render` panic |
| ProfileHtmx.Expand | src/web/route/portal/profile_htmx.rs:36-46 | one entry per subscription, in order, with its name and nickname; it panics exactly when some nickname does |
| ProfileHtmx.GroupLineAppend | src/web/route/portal/profile_htmx.rs:48 | adding a group extends the shown line by ", " and the group |
| ProfileHtmx.Profile.constructor | src/web/route/portal/profile_htmx.rs:16-22 | a new profile has the name and no groups or subscriptions |
| ProfileHtmx.Profile.AddGroup | src/web/route/portal/profile_htmx.rs:24-26 | appends the group and changes nothing else |
| ProfileHtmx.Profile.AddSubscription | src/web/route/portal/profile_htmx.rs:28-30 | appends the subscription and changes nothing else |
| ProfileHtmx.Profile.Render | src/web/route/portal/profile_htmx.rs:32-53 | the context holds the joined groups, the name and, in order, one entry per subscription with its name, its nickname and the fixed type and url; `render` panics exactly when some nickname does |
| EnumDerive.RenameOf | utils/src/lib.rs:8-17 | an attribute yields a name exactly when it is `rename_variant = "..."`, and the name is that string |
| EnumDerive.GetRenameValue | utils/src/lib.rs:5-19 | none exactly when no attribute is a string-valued `rename_variant`; otherwise the first such value |
| EnumDerive.VariantName | utils/src/lib.rs:34 | a variant is shown by its rename, and by its identifier without one |
| EnumDerive.Derive | utils/src/lib.rs:21-46 | the macro panics exactly on a struct or union; otherwise the array has one name per variant, in order |
| EnumDerive.SkippedAttributes | utils/src/lib.rs:5-19 | attributes that are not string-valued renames do not affect the result |
| EnumDerive.FirstRenameWins | utils/src/lib.rs:5-19 | of two renames, the first wins |
| KubeModels.Default | src/kube/models.rs:12-25 | the default spec has one container, "notebook", running "jupyter/minimal-notebook" |
| KubeModels.ToJson | src/kube/models.rs:27-41 | a spec is written as an object keyed `template`, then `spec` |
| KubeModels.Field | src/kube/models.rs:27-41 | a field is found exactly in an object that holds it |
| KubeModels.StringOf | src/kube/models.rs:37-41 | a value is read exactly from a JSON string, and is that string |
| KubeModels.ContainerToJson | src/kube/models.rs:37-41 | a container is written as an object with exactly `name` and `image`, which reads back to it |
| KubeModels.ContainerFromJson | src/kube/models.rs:37-41 | a container is read exactly when `name` and `image` are both strings, and holds those strings |
| KubeModels.FromJson | src/kube/models.rs:27-41 | a spec is read only when `template`, its `spec` and a `containers` array are present, and its containers are those the array reads to |
| KubeModels.ContainersFromJson | src/kube/models.rs:37-41 | the containers are read one to one |
| KubeModels.ContainersRoundTrip | src/kube/models.rs:37-41 | reading written containers gives them back |
| KubeModels.RoundTrip | src/kube/models.rs:27-41 | reading a written spec gives it back |
| KubeModels.DefaultJson | src/kube/models.rs:61-77 | the default spec is written as the JSON of the unit test |
| NotebookLifecycle.Padded | src/kube/notebook_lifecycle.rs:218-222 | a number written with exactly `w` digits |
| NotebookLifecycle.DigitsValuePadded | src/kube/notebook_lifecycle.rs:218-222 | reading back a padded number gives the number when it fits |
| NotebookLifecycle.PaddedDigitsValue | src/kube/notebook_lifecycle.rs:218-222 | re-padding the value of a run of digits gives the run back |
| NotebookLifecycle.ParseDateTime | src/kube/notebook_lifecycle.rs:218-224 | a parsed date-time is a valid one, read from a text of exactly 27 characters |
| NotebookLifecycle.ParseFormat | src/kube/notebook_lifecycle.rs:218-224 | parsing the text of any valid date-time gives it back |
| NotebookLifecycle.FormatParse | src/kube/notebook_lifecycle.rs:218-224 | whatever parses is the text of what it parses to |
| NotebookLifecycle.KernelTime | src/kube/notebook_lifecycle.rs:216-228 | a kernel's activity is its parsed time, or the clock when the text does not parse |
| NotebookLifecycle.Format | src/kube/notebook_lifecycle.rs:218-224 | the text of a date-time has exactly 27 characters |
| NotebookLifecycle.IdleTimes | src/kube/notebook_lifecycle.rs:332-336 | at most one time per kernel, and none when every kernel has a connection |
| NotebookLifecycle.IdleTimesMembers | src/kube/notebook_lifecycle.rs:332-336 | the times kept are exactly those of kernels with no connection |
| NotebookLifecycle.Latest | src/kube/notebook_lifecycle.rs:337-338 | the last sorted time is the maximum, and there is none exactly for no times |
| NotebookLifecycle.UnparsedNeverIdle | src/kube/notebook_lifecycle.rs:224-226 | a kernel whose activity does not parse never looks idle |
| NotebookLifecycle.Verdict | src/kube/notebook_lifecycle.rs:304-342 | without kernels: shut down when the stored start is a day old, or when there is none; with kernels: shut down exactly when the latest idle kernel is a day old |
| NotebookLifecycle.PersistPvc | src/kube/notebook_lifecycle.rs:347-350 | the volume is kept only when the user's notebook says so |
| NotebookLifecycle.KernelExample | src/kube/notebook_lifecycle.rs:384-419 | of the test's three kernels only the unconnected one counts |
| NotebookLifecycle.PodDetail | src/kube/notebook_lifecycle.rs:244-254 | a pod yields a detail exactly when it has a name and an IP; the subject is the name up to its first '-' |
| NotebookLifecycle.Subjects | src/kube/notebook_lifecycle.rs:244-264 | exactly the subjects of pods that yield a detail |
| NotebookLifecycle.Matching | src/kube/notebook_lifecycle.rs:272-281 | exactly the stored users whose id is among the subjects |
| NotebookLifecycle.AttachedUser | src/kube/notebook_lifecycle.rs:283-289 | the user attached to a subject has that id and a notebook, and none exactly when no such user was found |
| NotebookLifecycle.StartTime | src/kube/notebook_lifecycle.rs:311-319 | a start time exists exactly when there is a user with a notebook that has one, and it is that one |
| NotebookLifecycle.Plan | src/kube/notebook_lifecycle.rs:296-343 | over distinct subjects, a successful plan marks at most one notebook per subject, each a visited subject, no subject twice |
| NotebookLifecycle.PlanMeaning | src/kube/notebook_lifecycle.rs:296-343 | over distinct subjects, the run fails exactly when some notebook's reply failed; otherwise it marks exactly the notebooks whose verdict is to shut down |
| NotebookLifecycle.PlanFails | src/kube/notebook_lifecycle.rs:296-303 | the run fails exactly when some notebook's reply failed |
| NotebookLifecycle.PlanFirstFailure | src/kube/notebook_lifecycle.rs:296-303 | a failed run carries the error of the first failed reply in the visiting order |
| NotebookLifecycle.PlanMembers | src/kube/notebook_lifecycle.rs:304-342 | a successful run marks exactly the notebooks whose verdict is to shut down, with the volume flag of that verdict |
| NotebookLifecycle.PlanFailureSticks | src/kube/notebook_lifecycle.rs:296-303 | the first failing reply ends the run with its error |
| NotebookLifecycle.AttachUsers | src/kube/notebook_lifecycle.rs:283-289 | the loop gives each subject its attached user |
| NotebookLifecycle.Judge | src/kube/notebook_lifecycle.rs:296-343 | over distinct subjects, the loop over the notebooks computes the plan |
| NotebookLifecycle.NotebookLifecycle | src/kube/notebook_lifecycle.rs:230-343 | a failed pod listing is passed on; no pods is success; no stored user is the `find_many` error; otherwise the result is the plan |
| NotebookLifecycle.StreamStep | src/kube/notebook_lifecycle.rs:187-204 | the stream never ends; it yields an item exactly when the started job completes, and a poll in `Prep` starts a run |
| NotebookLifecycle.LifecycleStream.constructor | src/kube/notebook_lifecycle.rs:171-178 | a new stream is in `Prep` with no run started |
| NotebookLifecycle.LifecycleStream.PollNext | src/kube/notebook_lifecycle.rs:187-204 | one poll moves the stream as its step function says |
| NotebookLifecycle.DriveCounts | src/kube/notebook_lifecycle.rs:187-204 | every item ends one run, so the runs started are the items plus a possibly running one |
| NotebookLifecycle.DriveAllDone | src/kube/notebook_lifecycle.rs:187-204 | when every job completes at once, `2n` polls start `n` runs and yield `n` items |
| NotebookLifecycle.MediumStep | src/kube/notebook_lifecycle.rs:86-152 | a poll waits for the sleep; it stops on the shutdown signal; it asks for the lease once expired, holds it on success, or renews the expiration on failure; it runs the stream while leased and releases on completion |
| NotebookLifecycle.LeasedOnlyAfterExpiration | src/kube/notebook_lifecycle.rs:108-128 | with a clock that does not go back, the lease is only ever held after the expiration |
| NotebookLifecycle.Medium.constructor | src/kube/notebook_lifecycle.rs:56-76 | a new gate expires and wakes after its durations, has not slept, holds no lease and has asked for one |
| NotebookLifecycle.Medium.Poll | src/kube/notebook_lifecycle.rs:86-152 | one poll moves the gate as its step function says |
| LoggerFutures.FutureRace.constructor | src/logger/futures.rs:28-40 | a new batcher holds an empty buffer |
| LoggerFutures.FutureRace.Poll | src/logger/futures.rs:48-74 | the timer or termination hands over the buffer; draining appends events in order until 100 is reached, the channel closes, or it is empty; the buffer stays below 100 |
| BridgeMiddleware.CookieCheck | src/web/bridge_middleware/cookie_check.rs:51-90 | a missing cookie is 401 and a malformed one 500; a parsed one passes with the notebook status cookie attached only when it parses |
| BridgeMiddleware.NotebookCookieNeverBlocks | src/web/bridge_middleware/cookie_check.rs:58-64 | the notebook status cookie never decides whether a request passes |
| BridgeMiddleware.RequestedResource | src/web/bridge_middleware/resource_cookie_check.rs:57-63 | the requested resource is one path segment |
| BridgeMiddleware.RequestedResourceOf | src/web/bridge_middleware/resource_cookie_check.rs:57-63 | the resource of `/resource/<name>...` is `<name>` |
| BridgeMiddleware.ResourceCookieCheck | src/web/bridge_middleware/resource_cookie_check.rs:50-101 | a request passes exactly when its cookie allows the requested resource, with both attached; a malformed cookie is 500 and every other refusal 403 |
| BridgeMiddleware.Maintenance | src/web/bridge_middleware/maintenance.rs:49-71 | a request is redirected to `/maintenance` exactly when the flag reads up and the path is neither `/maintenance` nor `/health` |
| BridgeMiddleware.MaintenanceExempt | src/web/bridge_middleware/maintenance.rs:51-52 | `/maintenance` and `/health` always pass |
| BridgeMiddleware.HttpsRedirect | src/web/bridge_middleware/https.rs:46-61 | exactly plain-HTTP requests get a 308 to the same URI over HTTPS |
| BridgeMiddleware.HtmxGate | src/web/bridge_middleware/htmx.rs:48-65 | a request passes exactly when its first `HX-Request` value is "true", and otherwise gets 400 |
| BridgeMiddleware.HtmxOtherValues | src/web/bridge_middleware/htmx.rs:50-51 | a missing header, "TRUE" and "false" are refused, and "true" passes |
| BridgeMiddleware.Validator | src/web/bridge_middleware/authenicate.rs:9-43 | an invalid token is refused in the realm "proxy"; a valid one passes exactly when its scope holds the named inference service |
| BridgeMiddleware.NonTextInference | src/web/bridge_middleware/authenicate.rs:26 | a header value that is not text counts as "", which passes only a scope holding "" |
| GuardianMiddleware.Maintenance | src/web/guardian_middleware/maintenance.rs:51-73 | the older gate redirects every request exactly when the flag reads up |
| GuardianMiddleware.BridgeExemptsMore | src/web/bridge_middleware/maintenance.rs:51-54 | the newer gate redirects what the older one does, except the two exempt paths |
| Services.SetPath | src/web/route/proxy/mod.rs:50 | only the path changes, to what the URL path parser makes of the input; a plain path is kept as it is, and a special URL's path starts with '/' |
| Services.SetPathIdempotent | src/web/route/proxy/mod.rs:50 | setting the path just set changes nothing |
| UrlPath.ResolvedIsPlain | src/web/route/proxy/mod.rs:50 | whatever the input, the path set holds no dot segment, tab, newline or (special URL) `\`, and starts with '/' unless it is the empty path of a non-special URL |
| UrlPath.PlainUnchanged | src/web/route/proxy/mod.rs:50 | a path with a leading '/', no dot segment and no dropped or rewritten character is set as it is |
| UrlPath.ResolvedFixed | src/web/route/proxy/mod.rs:50 | the input comes back unchanged exactly when it is such a plain path, or the empty path of a non-special URL |
| UrlPath.ResolvedIdempotent | src/web/route/proxy/mod.rs:50 | resolving a resolved path changes nothing |
| UrlPath.ResolveAppend | src/web/route/proxy/mod.rs:50 | segments that are not "." or ".." are appended as they are |
| UrlPath.ResolveLast | src/web/route/proxy/mod.rs:50 | the last segment is empty when the input ends in a dot segment, else it is the last piece |
| UrlPath.TrailingSlash | src/web/route/mcp/mod.rs:67-71 | a path that starts and ends with '/' still ends with '/' once set |
| UrlPath.ClimbPastRoot | src/web/route/proxy/mod.rs:50 | ".." removes the segment before it and stops at the root: "/a/../../x" is set as "/x" |
| UrlPath.BackslashSeparates | src/web/route/proxy/mod.rs:50 | in a special URL `\` separates segments as '/' does |
| UrlPath.BackslashKept | src/web/route/resource/mod.rs:117-125 | in a URL that is not special `\` is an ordinary character |
| Services.SetQuery | src/web/route/proxy/mod.rs:51 | only the query changes, and it becomes the given one |
| Services.SetSocketScheme | src/web/route/resource/mod.rs:117-122 | switching to "ws" or "wss" succeeds exactly for a special scheme that is not a host-less `file` URL, and changes only the scheme |
| Services.Get | src/web/route/proxy/services.rs:25-28 | only tables have entries, and `get` returns the entry under the key |
| Services.CatalogGet | src/web/route/proxy/services.rs:21-37 | no `services` table, an unknown service, no `url`, or a non-string url are each their error; otherwise the parsed url |
| Services.PostmanEntry | src/web/route/proxy/services.rs:50-55 | the test configuration's "postman" entry yields its URL |
| Routes.AggregateScope | src/web/route/resource/mod.rs:50-57 | the scope is the first subscription list of the first aggregated document, and empty when there is no document or it has no list |
| Routes.McpSplit | src/web/route/mcp/mod.rs:32-39 | the MCP server is the first segment after "/mcp/", followed by the rest of the path |
| Routes.McpForward | src/web/route/mcp/mod.rs:31-90 | an unknown server, an invalid token or a scope without the server is refused; otherwise the server's URL with the rest of the path and the query |
| Routes.McpTrailingSlash | src/web/route/mcp/mod.rs:67-71 | the path forwarded to a "...-s" server ends in '/' |
| Routes.ProxyForward | src/web/route/proxy/mod.rs:28-51 | a missing or non-text `Inference-Service` header is refused; otherwise the named service's URL with the remaining path and the query |
| Routes.ProxyPath | src/web/route/proxy/mod.rs:28-50 | a request under `/proxy` reaches the service with the path after the prefix as the URL path parser sets it: the same text when it is a plain path, its dot segments resolved otherwise |
| Routes.ProxyClimb | src/web/route/proxy/mod.rs:28-50 | "/proxy/a/../../x" reaches the service as "/x": dot segments cannot climb above the service's root |
| Routes.ResourceHttp | src/web/route/resource/mod.rs:41-86 | the request goes through exactly when the resource is catalogued and a requested refresh succeeds; a cookie is refreshed exactly when the query holds "token=true", with the subject's first subscriptions as scope for a day, and the aggregation's, signer's or catalog's error is passed on; the URL has the path after the resource prefix, as the URL path parser sets it |
| Routes.ResourceWs | src/web/route/resource/mod.rs:106-128 | succeeds exactly when the resource is catalogued and its scheme may become "ws", giving its URL switched to "ws" with the captured path and the query; a failed switch is "Could not set scheme to ws" |
| Routes.ResourceWss | src/web/route/resource/mod.rs:132-152 | succeeds exactly when the resource is catalogued and its scheme may become "wss", giving its URL switched to "wss", keeping its own path, with the query; a failed switch is the same error |

## Left out

- I/O of every kind is left out: HTTP clients, MongoDB, KeyDB, Kubernetes and Tera rendering. Sent and received values are parameters and results.
- Handlers receive the database collections as sequences and return the new collections. The query and update documents themselves are not modelled.
- The logging side of the routes is not modelled, except the pass-through of `log_with_level!`.
- JWT signing and validation are not modelled. A validated token is a parameter (`Option<TokenClaims>`).
- Streaming bodies and WebSocket connection management are not modelled.
- Certificate and TLS setup are not modelled.
- The forwarder's body streaming and its `Config` argument are not modelled. The model is limited to the method translation, the header filters and the status check.
- The snapshot mixes revisions. `RouteError` holds the error variants the routes raise, covering both `GuardianError` and the `BridgeError` the routes use. `BridgeCookie` and `NotebookInfo` model the fields the routes read.
- `Apps` is not defined in the snapshot. `OAuth.FindApp` takes the registered applications as a sequence.
- `is_service_mcp`, `get_service` and `get_resource` are not defined in the snapshot. The routes take their results as function parameters.
- In `ResourceHttp`, the user-group aggregation result is also a parameter.
- URL parsing (`Url::parse`) is a parameter of `Services.CatalogGet`. URLs are records of scheme, host, path and query.
- `Services.SetPath` does not model percent-encoding of the new path. It models the rest of the URL Standard's path parser on a URL with a host: tabs and newlines are dropped, `\` separates segments in a special URL, and "." and ".." segments (also spelt with "%2e") are resolved. The Windows drive-letter rules of `file` URLs are not modelled.
- `SystemAdmin.SystemUpdateGroup` and `SystemAdmin.SystemUpdateUser` read the update's answer as the number of documents that matched: zero is "does not exist". The snapshot's `Db::update` returns a `TypeId` instead; the handlers compare the answer with 0, as a newer revision's count.
- `SystemAdmin.SystemTab` offers the roles' serde names as `UserType::to_array_str()`. The snapshot's `UserType` does not derive `EnumToArrayStr`, so the names are taken to be the renames it serialises with.
- Header names are taken as already lower-cased, as `HeaderName` stores them.
- `OAuth.Introspection` takes the body as text. `from_utf8_lossy` replacement of invalid bytes is not modelled, and an unreadable body is passed on as `Err` with its message.
- OpenID discovery, the authorisation URL built with random CSRF token and nonce, and the code exchange are not modelled, because they are network calls. Only the provider names, keys, client lookup and scope list are modelled.
- Notebook times use four-digit years only. The `[year]` component's sign and extended range are not modelled.
- `NotebookLifecycle.KernelTime` takes the fallback `now_utc()` as one `clock` value. Separate clock readings per kernel are not modelled.
- `NotebookLifecycle.NotebookLifecycle` stops at the list of notebooks to destroy. The destroy calls only log their failures, so they do not affect the result.
- `NotebookLifecycle.NotebookLifecycle` does not model a missing database connection (`DBCONN` unset). The HashMap's iteration order is a parameter (`order`); as the keys of a map, its subjects are distinct.
- `NotebookLifecycle.Medium.Poll` and `NotebookLifecycle.MediumStep` take the clock as one reading per poll. Waker registration and the `Sleep` timer's own accounting are not modelled; the sleep readiness is derived from the clock and the deadline.
- `LoggerFutures.FutureRace.Poll` takes the channel's ready events, whether the channel is closed, and the readiness of the timer and the termination signal as inputs. `Mutex` locking is not modelled.
- `ProfileHtmx.Profile.Render` returns the template context. Tera rendering and its errors are not modelled, and a slice panic is `None`.
- `EnumDerive.Derive` reduces attribute paths to their segments. Leading `::` and generic arguments of `syn` paths are not modelled, and token streams are not generated.
- `KubeModels.FromJson` reads specs written as JSON objects only. serde's derived struct visitor also accepts the array form (a container as `["n","i"]`), which is not modelled.
- `KubeModels.ToJson` models JSON objects as maps, so the key order of `serde_json` is not modelled.
- The older `guardian_middleware` gates equal to the newer ones are not modelled again. Only its maintenance gate, which differs in rule, is modelled.
- The security header middlewares, the health checks, the user and member routes and the templates are not part of this model.
- `Services.CatalogGet` covers `Catalog::get`. `Catalog::list` only calls `todo!()`, so it is not modelled.
