# fastapi-audio-upload in Dafny

A model of the server core of `fastapi-audio-upload`. This is a FastAPI service where people
sign in with Yandex OAuth, receive a pair of JWTs (access and refresh), and upload, list,
inspect and delete their own audio files. Superusers can also administer other users.

The model covers:

- **Request guards** (`app/deps.py`, module `Deps`): from a bearer token to the current user,
  then to an active user, then to an active superuser.
- **Token issue and decoding** (`app/core/security.py`, module `Security`). HS256 signing is an
  abstract codec whose laws are the ones the endpoints rely on:
  - a token decodes to its claims until it expires, and to nothing afterwards;
  - a token holds no space.
- **Authentication endpoints** (`auth.py`, module `AuthEndpoints`):
  - the authorization redirect URL;
  - the callback once the two provider calls have answered, including linking the external
    identity to a stored user and issuing the token pair;
  - the refresh endpoint.
- **Audio endpoints** (`audio.py`, modules `Filenames` and `AudioEndpoints`):
  - the filename sanitiser over POSIX `os.path.splitext`;
  - the upload, with its guards, its chunked write and its cleanup on failure;
  - the owner's listing;
  - lookup and deletion, with their 404/403/500 outcomes.
- **User endpoints** (`users.py`, module `UserEndpoints`): profile self-update, and the
  superuser's read, update and delete.
- **Data access layer** (`crud/base.py`, `crud_user.py`, `crud_audio.py`, modules `Crud`, `Users`
  and `Audio`):
  - a generic table class holds rows in insertion order, with an autoincrement key;
  - `update` applies the assignments of a partial update one after another, as `setattr` does.

The upload directory is a `Storage.Disk` object. Its fields are a map from relative path to
bytes and a set of directories. The relation the endpoints keep between that and the audio
table has two parts. `AudioEndpoints.WellFormed` is about the table alone:

- keys are unique: no two positions of the table hold the same key;
- stored names are unique;
- every record's path is its owner's directory followed by its stored name.

`AudioEndpoints.Consistent` adds that every record's file exists. The upload and delete
endpoints need only the first part, since `delete_audio_file` handles a record whose file is
gone. Both keep the first part, and they keep `Consistent` whenever it held before.

Time is a parameter in whole seconds. The provider's replies, the fresh uuid and the storage
faults are parameters too. `Scenarios` states, as verified methods and lemmas, what the model
gives for concrete upload, list and delete sequences.

Where the status codes written in the source, or its docstrings, suggest one outcome and the
control flow gives another, the model follows the control flow:

- In the callback, the two 400 rejections (no provider access token, `auth.py:53-54`; no
  provider user id, `auth.py:67-68`) are raised inside the `try`. The generic
  `except Exception` at `auth.py:74-77` catches them, so they come out as 500.
- The docstring of `get_audio_file_info` (`audio.py:114`) speaks of the caller's own files, and
  the check at `audio.py:118-119` refuses everyone but the owner with 403, superusers included.
  `delete_audio_file` is the only audio endpoint that lets a superuser through.
- A disallowed content type is 400 (`audio.py:42-46`). The service has no 415 answer.
- On `refresh_token`, a refresh token whose subject is missing, empty or not an integer makes
  `int()` raise at `auth.py:143`, which is 500. `get_current_user` checks for an empty subject
  first (`deps.py:30-31`), so there only a non-integer subject is 500.
- The docstring of `delete_user` (`users.py:89-93`) says the files remain on disk. The model
  removes the user row and leaves the upload directory alone. What the database does with the
  user's audio records is not modelled (see below).

## Model

| member | source | states |
|---|---|---|
| Filenames.LastIndexOf | app/api/v1/endpoints/audio.py:21 | the index of the last occurrence of a character, or -1; no occurrence lies after it |
| Filenames.LastIndexOfUnique | app/api/v1/endpoints/audio.py:21 | an index holding the character with none after it (or -1 with none at all) is exactly what `rfind` returns |
| Filenames.SplitExt | app/api/v1/endpoints/audio.py:21 | `os.path.splitext`: base + extension is the input; a non-empty extension is one dot, then no dot and no slash, after a non-empty base |
| Filenames.SplitExtLeadingDot | app/api/v1/endpoints/audio.py:21 | the leading-dot rule: when an extension is found, a non-dot character precedes it in the base's final path component (so `a/.bashrc` has none) |
| Filenames.SplitExtOfBaseAndExt | app/api/v1/endpoints/audio.py:21 | an extension that is there is found: any base whose final component holds a non-dot character, followed by a dot and then no dot and no slash, splits back into exactly that base and extension |
| Filenames.ExtensionAfterLastDot | app/api/v1/endpoints/audio.py:21 | the suffix from the last dot after the last slash has the extension's shape |
| Filenames.SafeChar | app/api/v1/endpoints/audio.py:23 | a safe character (alphanumeric, `-` or `_`) is kept and any other becomes `_`; the result is always safe |
| Filenames.SanitizeFilename | app/api/v1/endpoints/audio.py:19-26 | the first 100 characters of the base (all of a shorter one), each made safe, followed by the extension unchanged |
| Filenames.SanitizedHasNoSlash | app/api/v1/endpoints/audio.py:19-26 | a sanitised name never holds a slash |
| Filenames.SplitExtOfSafe | app/api/v1/endpoints/audio.py:21 | a name of safe characters has no extension |
| Filenames.OneDotNoSlash | app/api/v1/endpoints/audio.py:21 | in a name followed by an extension, the extension's dot is the last dot and there is no slash |
| Filenames.SplitExtOfNameAndExt | app/api/v1/endpoints/audio.py:21 | a dot-free, slash-free non-empty base followed by an extension splits back into exactly those two parts |
| Filenames.SanitizedSplits | app/api/v1/endpoints/audio.py:19-26 | a sanitised name is a safe base of at most 100 characters plus the original extension, and splits back into exactly those |
| Filenames.SanitizeIdempotent | app/api/v1/endpoints/audio.py:19-26 | sanitising twice gives the same name as sanitising once |
| Filenames.SanitizeKeepsExtension | app/api/v1/endpoints/audio.py:19-26 | the output ends with the input's extension, re-splits to it, and is at most 100 characters longer than it |
| Filenames.SanitizeKeepsSafeBase | app/api/v1/endpoints/audio.py:19-26 | a name of at most 100 safe characters is a fixed point |
| Filenames.SanitizeKeepsSafeName | app/api/v1/endpoints/audio.py:19-26 | a safe base of at most 100 characters plus an extension is a fixed point, and splits into those parts |
| AudioEndpoints.UploadPlan | app/api/v1/endpoints/audio.py:40-61 | 400 for a missing or unlisted content type or an empty display name; otherwise always the record: sanitised display name, uuid + extension of the part's own name, the path `<user id>/<stored>`, the declared type and the owner |
| AudioEndpoints.StoredNameKeepsExtension | app/api/v1/endpoints/audio.py:55-56 | the stored name splits back into the uuid and the extension of the part's own name (of "audio" when missing) |
| AudioEndpoints.UuidIsSafe | app/api/v1/endpoints/audio.py:56 | uuid text holds only characters the sanitiser keeps |
| AudioEndpoints.DistinctIdsStayFresh | app/api/v1/endpoints/audio.py:56 | a different uuid is never a prefix of a stored name begun by another uuid |
| AudioEndpoints.RelativePathInjective | app/api/v1/endpoints/audio.py:59-61 | equal relative paths have equal owners and equal stored names |
| AudioEndpoints.DisplayName | app/api/v1/endpoints/audio.py:48 | definition: the form's `file_name` when truthy, else the part's own filename; `UploadPlan` states its use |
| AudioEndpoints.StoredName | app/api/v1/endpoints/audio.py:55-56 | definition: the uuid followed by the extension of the part's own name (of "audio" when missing); `StoredNameKeepsExtension` states its property |
| AudioEndpoints.RelativePath | app/api/v1/endpoints/audio.py:59-61 | definition: the owner's key as decimal text, a slash, the stored name; `RelativePathInjective` states its property |
| AudioEndpoints.WellFormed | app/models/audio.py:9-14 | definition: valid keys, unique stored names (the `unique=True` column), and each record's path built from its owner and stored name |
| AudioEndpoints.Consistent | app/api/v1/endpoints/audio.py:59-85 | definition: `WellFormed`, and every record's file exists; the upload and delete endpoints keep it whenever it held |
| AudioEndpoints.FreshUuid | app/api/v1/endpoints/audio.py:56 | definition: no stored name begins with the uuid; what `uuid.uuid4()` is relied on for |
| AudioEndpoints.SaveFails | app/api/v1/endpoints/audio.py:64-75 | definition: a fault strikes the open or one of the chunk writes that is reached; `SaveFile` fails exactly then |
| AudioEndpoints.FilesAfterWrite | app/api/v1/endpoints/audio.py:66-68 | writing a file keeps every record's file in place |
| AudioEndpoints.FilesAfterRemove | app/api/v1/endpoints/audio.py:71-72 | removing a path no record uses keeps every record's file in place |
| AudioEndpoints.CoherentAfterAppend | app/api/v1/endpoints/audio.py:77-85 | a record with a new stored name and its owner's path keeps the table well formed; with its file present, every record still finds its file |
| AudioEndpoints.ChunkCount | app/api/v1/endpoints/audio.py:67 | the number of 1 MiB reads that return data: zero exactly for empty content, otherwise the k with (k-1) MiB < size <= k MiB |
| AudioEndpoints.UploadAudio | app/api/v1/endpoints/audio.py:28-87 | keeps `WellFormed`, and `Consistent` when it held; a rejected plan is 400 with nothing written; a failed save is 500, the path is removed and there is no record; a failed insert is 500 with the file left behind; otherwise the file holds the bytes and exactly one new record, with the next key, describes it, and the key counter advances by one |
| AudioEndpoints.SaveFile | app/api/v1/endpoints/audio.py:64-75 | fails exactly when the fault strikes the open or a chunk write that is reached; on failure nothing is left at the path; on success the path holds the content; directories unchanged |
| AudioEndpoints.NoRecordAtNewPath | app/api/v1/endpoints/audio.py:54-61 | with a fresh uuid, no existing record shares the new stored name or path |
| AudioEndpoints.ListUserAudioFiles | app/api/v1/endpoints/audio.py:90-105 | the page of the caller's records from position `skip`: element k is the caller's (skip+k)-th record in store order, and there are `limit` of them or as many as remain |
| AudioEndpoints.GetAudioFileInfo | app/api/v1/endpoints/audio.py:107-120 | 404 exactly when the key is missing; exactly the looked-up record when the caller owns it; otherwise 403 |
| AudioEndpoints.GetInfoIgnoresSuperuser | app/api/v1/endpoints/audio.py:118-119 | the answer does not depend on the caller's superuser flag |
| AudioEndpoints.RemoveFileThenRecord | app/api/v1/endpoints/audio.py:136-146 | the file step before the record step: an unlink fault on a present file is 500 with nothing changed; otherwise the file (if any) and then exactly one record go, keeping `WellFormed` and `Consistent` |
| AudioEndpoints.DeleteAudioFile | app/api/v1/endpoints/audio.py:122-148 | keeps `WellFormed`, and `Consistent` when it held; 404 for a missing record; 403 for a caller who is neither owner nor superuser; 500 when the file exists and its unlink faults; every failure changes nothing; success exactly otherwise, removing that record (one row fewer, the rest as `Crud.Without` keeps them) and its file, and leaving the directory as it was when the file was already missing |
| AudioEndpoints.OthersKeepTheirFiles | app/api/v1/endpoints/audio.py:137-146 | the records left after a deletion stay well formed and, when every record found its file before, still find theirs |
| AuthEndpoints.LoginUrl | app/api/v1/endpoints/auth.py:19-29 | the URL is the authorize endpoint and the query prefix, then the client id, then `&redirect_uri=`, then the redirect URI, each at its place |
| AuthEndpoints.Outcome | app/api/v1/endpoints/auth.py:45-77 | a 2xx response with a JSON body yields the body; non-2xx is 503; a transport error or non-JSON body is 500 |
| AuthEndpoints.FetchProfile | app/api/v1/endpoints/auth.py:45-77 | succeeds exactly when both calls succeed with a truthy access token and a truthy user id, and yields the user-info fields; failures are 503 (a non-2xx status) or 500 (everything else, the in-`try` 400s included) |
| AuthEndpoints.IsBootstrapSuperuser | app/api/v1/endpoints/auth.py:84-86 | definition: the configured first-superuser id is truthy and equals the provider id |
| AuthEndpoints.NewUserData | app/api/v1/endpoints/auth.py:82-95 | definition: the profile's id, email and names, active, superuser exactly under the bootstrap rule |
| AuthEndpoints.Synced | app/api/v1/endpoints/auth.py:96-106 | the provider id and both flags are kept; `SyncUser` and `LastsOfBuiltData` state how each profile field changes |
| AuthEndpoints.LinkYandexUser | app/api/v1/endpoints/auth.py:79-106 | keeps the user table valid; the result is the user found by that provider id; a new identity appends an active user under the next key, advancing the key counter by one, with the superuser flag exactly for the configured id; a known one is updated with the truthy provider fields and keeps its key |
| AuthEndpoints.SyncUser | app/api/v1/endpoints/auth.py:96-106 | the stored user with every truthy, changed provider field replaced; no write when nothing changed |
| AuthEndpoints.SyncData | app/api/v1/endpoints/auth.py:97-104 | the update dict built key by key: applying it gives the synced profile, it never assigns the flags, and it is empty exactly when the sync changes nothing |
| AuthEndpoints.LastsOfBuiltData | app/api/v1/endpoints/auth.py:98-104 | the update dict built key by key assigns each profile column to the provider value exactly when that value is truthy and differs |
| AuthEndpoints.IssuePair | app/api/v1/endpoints/auth.py:109-114 | an access and a refresh token for the user's key and provider id with the default lifetimes, token type `bearer` |
| AuthEndpoints.YandexCallback | app/api/v1/endpoints/auth.py:31-114 | a provider failure returns its status with the table untouched; otherwise the linked user (new, or synced) gets the issued token pair, a new identity is appended under the next key and the counter advances by one, and a known one is overwritten in place (or left alone when nothing changed) with the key counter kept |
| AuthEndpoints.BearerToken | app/api/v1/endpoints/auth.py:130 | the second space-separated field of a `Bearer ` header: the longest space-free prefix of the rest (it ends at the rest's end or at a space) |
| AuthEndpoints.RefreshToken | app/api/v1/endpoints/auth.py:116-156 | 401 for a missing or non-Bearer header, an undecodable or access token, an unknown or inactive user, or a provider-id mismatch; 500 when `int()` of the subject raises; otherwise a fresh pair for the stored user |
| AuthEndpoints.BearerRoundTrip | app/api/v1/endpoints/auth.py:123-130 | the header `Bearer <token>` yields that token back |
| AuthEndpoints.RefreshAfterLogin | app/api/v1/endpoints/auth.py:132-156 | a refresh token issued at login refreshes to a new pair for the same user until it expires, while the user stays active with the same provider id |
| AuthEndpoints.RefreshRejectsAccessToken | app/api/v1/endpoints/auth.py:140-141 | an access token presented to the refresh endpoint is refused with 401 |
| AuthEndpoints.RefreshRejectsStaleIdentity | app/api/v1/endpoints/auth.py:147-150 | a refresh token whose provider id no longer matches the user's is refused with 401 |
| AuthEndpoints.RefreshedAccessAuthenticates | app/api/v1/endpoints/auth.py:153 | the access token from a refresh authenticates as that user |
| Security.Expiry | app/core/security.py:10-14 | a non-zero delta gives now + delta; no delta or a zero delta gives now + the default lifetime |
| Security.Lawful | app/core/security.py:21-22 | definition: the laws of HS256 encode and decode the model relies on (decode gives the claims back before expiry and nothing after, never other claims, and a token holds no space) |
| Security.AccessClaims | app/core/security.py:10-20 | the subject claim reads back as the subject, and the expiry lies after now unless a negative delta is given |
| Security.RefreshClaims | app/core/security.py:24-34 | the same for the refresh claims |
| Security.CreateAccessToken | app/core/security.py:10-22 | definition: the access claims, encoded; `AccessTokenRoundTrip` states its property |
| Security.CreateRefreshToken | app/core/security.py:24-36 | definition: the refresh claims, encoded; `RefreshTokenRoundTrip` states its property |
| Security.SubjectId | app/deps.py:33 | definition: `int()` of the subject claim, or nothing when it is missing or does not parse |
| Security.DecodeToken | app/core/security.py:38-51 | None exactly when the codec rejects the token; otherwise the subject, refresh flag and provider id claims |
| Security.AccessTokenRoundTrip | app/core/security.py:10-22 | an access token decodes, before its expiry, to its subject as text, not refresh, and its provider id; after expiry to None |
| Security.RefreshTokenRoundTrip | app/core/security.py:24-36 | the same for a refresh token, with the refresh flag set |
| Security.TokenKindsDiffer | app/core/security.py:10-36 | a decoded access token never carries the refresh flag; a decoded refresh token always does |
| Security.DefaultLifetimes | app/core/config.py:18-19 | the default lifetimes are 1800 s for access and 604800 s for refresh |
| Deps.GetCurrentUser | app/deps.py:18-36 | a user exactly when the token decodes as an access token whose integer subject is a stored key, and then that user; otherwise 401, but 500 exactly for a non-empty non-integer subject |
| Deps.GetCurrentActiveUser | app/deps.py:38-44 | the current user exactly when active; 400 exactly for an authenticated inactive user; the failures of `GetCurrentUser` pass through unchanged |
| Deps.GetCurrentActiveSuperuser | app/deps.py:46-55 | an active superuser is admitted, and no one else; 403 exactly for an active non-superuser; earlier failures pass through |
| Deps.AccessTokenAuthenticates | app/deps.py:18-36 | an access token issued for a stored user authenticates as that user until it expires |
| Deps.RefreshTokenRejected | app/deps.py:28-29 | a refresh token never authenticates a request: 401 |
| Crud.First | app/crud/base.py:16-18 | a row satisfying the filter that no earlier row satisfies, and None exactly when no row does |
| Crud.Merge | app/crud/base.py:43-44 | definition: the assignments applied left to right; `Users.ApplyByColumn` states what that gives |
| Crud.Filter | app/crud/crud_audio.py:35 | the rows satisfying the filter and no others; `FilterConcat` and `FilterAppend` state that they keep store order and appear once each |
| Crud.FilterConcat | app/crud/crud_audio.py:35 | filtering a concatenation is the concatenation of the filtered parts, so order and multiplicity are kept |
| Crud.FilterAppend | app/crud/crud_audio.py:35 | an appended row comes last among the matches exactly when it matches; the earlier matches are unchanged |
| Crud.FilterAll | app/crud/crud_audio.py:35 | when every row matches, the filter returns the store itself |
| Crud.Page | app/crud/base.py:20-26 | `OFFSET skip LIMIT limit`: consecutive elements from position `skip`, as many as `limit` allows |
| Crud.Replace | app/crud/base.py:36-49 | the row with the updated key is overwritten, every other row kept in place |
| Crud.Without | app/crud/base.py:51-56 | the rows without the deleted key and no others; `WithoutAt` and `WithoutMissing` state the exact result |
| Crud.WithoutAt | app/crud/base.py:51-56 | with unique keys, deleting the key at position i gives the store minus exactly that one row, the others in their order |
| Crud.WithoutMissing | app/crud/base.py:51-56 | deleting a key no row holds leaves the store as it is |
| Crud.ReplacedIsPresent | app/crud/base.py:36-49 | the row written by an update is in the table afterwards |
| Crud.FindByKey | app/crud/base.py:16-18 | with unique keys, a lookup by a stored row's key finds that row |
| Crud.Table.constructor | app/crud/base.py:13-14 | an empty valid table whose first key is 1 |
| Crud.Table.Get | app/crud/base.py:16-18 | the row with that key, or None exactly when there is none |
| Crud.Table.GetMulti | app/crud/base.py:20-26 | a page of the rows in store order |
| Crud.Table.Create | app/crud/base.py:28-34 | appends the record under the next key and advances the key counter |
| Crud.Table.Update | app/crud/base.py:36-49 | every assignment applied in order (the last one per column wins), the row overwritten in place, the key kept |
| Crud.Table.Remove | app/crud/base.py:51-56 | returns the row as looked up; when present, the store loses exactly that row at its position and keeps the others in order; changes nothing otherwise |
| Users.SetAttr | app/crud/base.py:43-44 | definition: one `setattr`, changing one column |
| Users.Apply | app/crud/base.py:43-44 | definition: `Crud.Merge` of the assignments with `SetAttr`; `ApplyByColumn` states its property |
| Users.Dump | app/api/v1/endpoints/users.py:79 | definition: the set fields of an update schema, the flags included; `LastsOfDump` states its property |
| Users.DumpProfile | app/api/v1/endpoints/users.py:28 | definition: the set profile fields only; `LastsOfDump` states its property |
| Users.ApplyByColumn | app/crud/base.py:43-44 | applying an update's assignments sets each column to its last assigned value, and keeps the column when it is not assigned |
| Users.ApplyIdempotent | app/crud/base.py:43-44 | applying the same update twice equals applying it once |
| Users.ApplyDump | app/api/v1/endpoints/users.py:79 | an update from a schema with everything unset omitted sets exactly the set fields, the flags included |
| Users.LastsOfDump | app/crud/base.py:40-41 | the dump of a schema assigns each set field its value and nothing else; the profile dump never assigns the flags |
| Users.LastsOfConcat | app/crud/base.py:43-44 | on concatenated updates the later assignment to a column wins |
| Users.ApplyDumpProfile | app/api/v1/endpoints/users.py:28 | the profile dump sets exactly the set profile fields and keeps both flags |
| Users.GetByEmail | app/crud/crud_user.py:10-12 | a stored user with that email, or None exactly when there is none |
| Users.GetByYandexId | app/crud/crud_user.py:14-16 | a stored user with that provider id, or None exactly when there is none |
| Users.GetByYandexIdFinds | app/crud/crud_user.py:14-16 | with unique provider ids, the lookup finds the stored user |
| Users.CreateWithYandex | app/crud/crud_user.py:18-35 | appends an active user with the given fields and superuser flag under the next key, and the key counter advances by one |
| Users.Update | app/crud/crud_user.py:37-39 | the user with the assignments applied, written in place under the same key |
| Audio.OwnedBy | app/crud/crud_audio.py:35 | exactly the owner's records |
| Audio.OwnedByAppend | app/crud/crud_audio.py:35 | a new record comes last in its owner's list; other lists do not change (through `Crud.FilterAppend`) |
| Audio.CreateWithOwner | app/crud/crud_audio.py:10-30 | appends the record under the next key, the key counter advances by one, and it comes last in the owner's list |
| Audio.GetMultiByOwner | app/crud/crud_audio.py:32-39 | a page of the owner's records in store order |
| Audio.CreatedIsListed | app/crud/crud_audio.py:10-39 | right after creation the owner's unpaginated list ends with the new record |
| Storage.Disk.constructor | app/api/v1/endpoints/audio.py:16-17 | an empty upload directory |
| Storage.Disk.IsFile | app/api/v1/endpoints/audio.py:139 | definition: a file is stored at the path |
| Storage.Disk.MakeDir | app/api/v1/endpoints/audio.py:59-60 | adds the directory, files unchanged |
| Storage.Disk.OpenForWrite | app/api/v1/endpoints/audio.py:66 | the path now holds an empty file |
| Storage.Disk.Append | app/api/v1/endpoints/audio.py:68 | the chunk is appended to that file only |
| Storage.Disk.Unlink | app/api/v1/endpoints/audio.py:72 | the path no longer holds a file, nothing else changes |
| UserEndpoints.UpdateUserMe | app/api/v1/endpoints/users.py:17-33 | 400 with no write exactly when no profile field is set; otherwise the set profile fields applied, both flags kept, written in place |
| UserEndpoints.ReadUsers | app/api/v1/endpoints/users.py:37-47 | the page of users from position `skip` in store order: element k is the (skip+k)-th user, and there are `limit` of them or as many as remain |
| UserEndpoints.ReadUserById | app/api/v1/endpoints/users.py:49-60 | the stored user with that key, or 404 exactly when there is none |
| UserEndpoints.UpdateUser | app/api/v1/endpoints/users.py:62-80 | 404 with no write for a missing user; otherwise every set field applied, the flags included, unset ones kept, written in place |
| UserEndpoints.DeleteUser | app/api/v1/endpoints/users.py:83-102 | 404 for a missing user and 403 for a superuser, both with nothing deleted; otherwise exactly that user removed and returned: the table loses that one row at its position, the others stay in order |
| Strings.DigitChar | app/core/security.py:17 | the decimal digit character of a value below 10 |
| Strings.DigitValue | app/deps.py:33 | the value of a digit character, below 10 |
| Strings.NatToString | app/core/security.py:17 | decimal text of a natural number: non-empty, digits only, no leading zero |
| Strings.IntToString | app/core/security.py:17 | `str()` of an integer: non-empty, only a minus sign or digits, and it starts with a minus sign exactly for negatives |
| Strings.ParseInt | app/deps.py:33 | definition: `int()` of an optional sign followed by ASCII digits, otherwise nothing; `ParseIntOfIntToString` states its property |
| Strings.Truthy | app/api/v1/endpoints/auth.py:53 | definition: present and non-empty, as Python reads an optional string in a condition |
| Strings.DigitsValueOfNatToString | app/deps.py:33 | reading the decimal text of a natural number gives it back |
| Strings.ParseIntOfIntToString | app/deps.py:33 | `int(str(n)) == n` |
| Strings.IntToStringInjective | app/core/security.py:17 | distinct keys have distinct texts |
| Strings.Split | app/api/v1/endpoints/auth.py:130 | `str.split(" ")`: the fields joined by the separator give the input back, and no field holds it |
| Strings.SplitWithoutSeparator | app/api/v1/endpoints/auth.py:130 | text without a space splits into itself alone |
| Strings.SplitAfterWord | app/api/v1/endpoints/auth.py:130 | splitting `word + " " + rest` gives the word, then the fields of the rest |
| Strings.IndexOf | app/api/v1/endpoints/audio.py:59-61 | the first index of a character, or the length when it does not occur |
| Strings.IndexOfAfterWord | app/api/v1/endpoints/audio.py:59-61 | in `word + sep + rest`, with no separator in the word, the first separator is right after the word |
| Strings.JoinedPairSplits | app/api/v1/endpoints/audio.py:61 | `a/b == c/d` with no slash in a and c means a == c and b == d |
| Scenarios.SanitizeExample | app/api/v1/endpoints/audio.py:19-26 | `my song!!.mp3` sanitises to `my_song__.mp3` |
| Scenarios.PlanOfSafeName | app/api/v1/endpoints/audio.py:40-61 | an upload with an allowed type and an already safe name is planned under that name, uuid + extension, at `<id>/<uuid><ext>` |
| Scenarios.DemoPlan | app/api/v1/endpoints/audio.py:40-61 | the plan of `demo.flac` (`audio/flac`) for user 1 is stored at `1/<uuid>.flac` |
| Scenarios.TrackPlan | app/api/v1/endpoints/audio.py:40-61 | the plan of `track.mp3` (`audio/mpeg`) for user 1 is stored at `1/<uuid>.mp3` |
| Scenarios.ListOfTwo | app/api/v1/endpoints/audio.py:90-105 | a table of two records of one owner lists both, in order |
| Scenarios.UploadListDelete | app/api/v1/endpoints/audio.py:28-148 | upload, then list, then delete: the list holds the record, then nothing, and the file is gone |
| Scenarios.TwoUploadsOfOneName | app/api/v1/endpoints/audio.py:28-105 | the same name uploaded twice under two fresh uuids gives two records with different keys and stored names, both listed in order |

## Left out

- The HTTP calls to the provider (httpx) are not executed. Their outcomes are the `Reply` parameters of the callback. The code-for-token request body is not modelled.
- HS256 signing and verification (python-jose) are an abstract codec with laws. The model leaves open what the codec says at the exact second of expiry. Tampered or foreign tokens are any token the codec rejects.
- Response detail strings, `WWW-Authenticate` headers, the redirect response object and the `print` logging are not modelled. Results carry only the status code.
- Filenames.IsAlnum: restricted to ASCII letters and digits. Python's `str.isalnum` also keeps non-ASCII letters and digits, which the model turns into `_`.
- Strings.ParseInt: accepts an optional sign and ASCII digits only. Python's `int()` also accepts surrounding whitespace, underscores and non-ASCII digits.
- Negative `skip` and `limit` are not modelled: they are natural numbers. The database's reaction to negative values is outside the code.
- Time is whole seconds, and one instant stands for both `datetime.now` reads of a token pair.
- An explicit `null` sent for `is_active` or `is_superuser` is not modelled: those fields are booleans. The email format validation of the request schema is not modelled.
- A failing `mkdir` of the owner's directory is not modelled. Faults are modelled for the file open, the chunk writes, the record insert and the unlink of a deleted record's file.
- The uuid is a parameter. Its freshness is the precondition `FreshUuid`: no stored name begins with it.
- The `UPLOAD_DIR` prefix and the module-level creation of the upload directory are not modelled. Paths are relative to the upload root, as the records store them.
- Keys are unbounded integers in the model. In the database they are 32-bit `Integer` columns (`app/models/audio.py:9`; `users.id` is assumed to be the same, and `app/models/user.py` is not part of this model). An id outside the 32-bit range is refused by the database driver, and the endpoint answers 500; the model answers 404 for it, as for any absent key. A key that a failed insert consumes from the sequence is not modelled either. The members concerned are listed next.
- AudioEndpoints.GetAudioFileInfo: answers 404, not the database's 500, for an id outside the 32-bit key range.
- AudioEndpoints.DeleteAudioFile: answers 404, not the database's 500, for an id outside the 32-bit key range.
- AudioEndpoints.UploadAudio: the failed-insert branch keeps `nextId`, while a real serial key consumed by the rolled-back insert is lost; the key counter's later values are therefore not promised to match the database's after such a failure.
- UserEndpoints.ReadUserById: answers 404, not the database's 500, for an id outside the 32-bit key range.
- UserEndpoints.UpdateUser: answers 404, not the database's 500, for an id outside the 32-bit key range.
- UserEndpoints.DeleteUser: answers 404, not the database's 500, for an id outside the 32-bit key range.
- Concurrency is left out. So is `delete_user`'s second 404, which only a concurrent deletion could reach.
- `read_users_me` and `test_auth` only echo the current user. Router wiring, settings loading and the database session are not part of this model.
- Users.IsActive and Users.IsSuperuser are the getters `is_active` and `is_superuser`. They carry no contract because they only return the field.
- The fate of a deleted user's audio records is not modelled. `user_id` is a non-null foreign key with no `ondelete` rule (`app/models/audio.py:14`), so the commit at `app/crud/base.py:54-55` either fails on the constraint or has the database clear or cascade the reference. `UserEndpoints.DeleteUser` removes only the user row and leaves the audio table, so its contract covers the upload directory and the user table only.
- The bearer-header parsing done by `OAuth2PasswordBearer` (`app/deps.py:14-16`) for the guarded endpoints is not modelled. The guards start from the token it extracts.
- A failing commit in the user endpoints is not modelled. Only the audio upload's insert has a fault parameter.
