# .NET Foundation membership: the member-record rules, verified

The membership web application keeps each member of the .NET Foundation as a
user in a directory service. The member-specific data (social handles, the
activity flag, the membership expiration) sits in a schema extension named
`dotnetfoundation_member`. This project models the part of the application
that decides what the directory is told:

- the checks in front of a member update;
- the mapping from a directory user to a member record;
- the paging and ordering of the member list;
- the activation update;
- the JSON shape of the extension payload;
- the admin's edit form;
- the CSV bulk import.

The directory is a `GraphClient` object that records every request in a
`trace`, in order. Its answer to each write is a parameter: a write is either
accepted or rejected with a `ServiceException`. The properties proved are
about which requests are sent, in what order and with what payload, and how
each action ends.

Modules, one per file:

| module | file | models |
|---|---|---|
| `Runtime` | runtime.dfy | nullable references, bytes, instants, the exceptions and their messages |
| `Text` | text.dfy | `char.IsWhiteSpace`, `string.IsNullOrWhiteSpace`, `Trim` |
| `Streams` | streams.dfy | `MemoryStream` (a class over a byte buffer and a position) |
| `Ordering` | ordering.dfy | LINQ `OrderBy` as a stable sort under a total preorder |
| `SchemaExtension` | schema_extension.dfy | `MemberSchemaExtension` and its JSON form |
| `Graph` | graph.dfy | users, photos, the requests, the recording client |
| `Services` | users_service.dfy | `UsersService` |
| `Mvc` | mvc.dfy | `ModelStateDictionary`, action results |
| `Models` | models.dfy | the request models and their validation attributes |
| `Members` | members_controller.dfy | `MembersController.Edit` (GET and POST) |
| `Setup` | setup_controller.dfy | `SetupController.AddMembers` |

Behaviour of the code worth knowing:

- **E-mail.** The member's e-mail is `Mail` whenever it is non-null (`Mail ?? OtherMails?.FirstOrDefault()`). An empty `Mail` is still chosen over `OtherMails`.
- **JPEG marker byte.** Because of the mask `0xE0FF`, the header check accepts any fourth byte from 0xE0 to 0xFF, not only the APP0–APP15 markers 0xE0–0xEF.
- **Photo upload.** A photo upload follows the user patch whenever a photo was given and the patch was accepted; a rejected patch throws before the upload. Validation already demands more than four bytes, so the `Length > 0` guard never fails.
- **Bulk import failures.** The import stops at the first invitation that throws. Nothing in the loop catches an exception, so a failing row ends the processing of the rows after it.
- **Non-user group members.** The listing loop casts every member of the group to `User`. A nested group, contact, device or service principal in the group makes the whole listing throw.

## Model

| member | source | states |
|---|---|---|
| Text.Trim | Membership/Controllers/SetupController.cs:66 | the trimmed string neither starts nor ends with white space and is no longer than the input |
| Text.TrimEmptyIffBlank | Membership/Models/UpdateMemberModel.cs:16-17 | trimming leaves nothing exactly when the string is all white space, which is what `Required(AllowEmptyStrings = false)` refuses |
| Text.TrimIsInfix | Membership/Controllers/SetupController.cs:66 | trimming keeps the characters from the first to the last non-white-space one, in place, and drops only white space on either side |
| Text.TrimIdempotent | Membership/Controllers/SetupController.cs:66 | trimming a trimmed string changes nothing |
| Streams.MemoryStream.Write | Membership/Controllers/SetupController.cs:42-45 | copying the upload into the stream overwrites from the position, keeps the bytes before it and leaves the position after the written bytes |
| Streams.MemoryStream.Read | Membership/Controllers/SetupController.cs:50-52 | reads min(count, bytes left) bytes into the buffer at the offset and advances the position by that much; the rest of the buffer is untouched |
| Ordering.StableSort | Membership/Services/UsersService.cs:58 | the ordered list is a permutation of the input |
| Ordering.StableSortSorted | Membership/Services/UsersService.cs:58 | under a total preorder the ordered list is in key order |
| Ordering.StableSortKeepsTies | Membership/Services/UsersService.cs:58 | elements whose keys tie keep their input order (stability) |
| SchemaExtension.Serialize | Membership/Models/MemberSchemaExtension.cs:9-25 | only the five annotated keys are written; `twitterId`, `blogUrl` and `githubId` are always written and are null exactly when unset; `expirationDateTime` and `isActive` are present exactly when set; no other null is written |
| SchemaExtension.Deserialize | Membership/Models/MemberSchemaExtension.cs:9-25 | reading fails exactly when some annotated key holds a non-null value of the wrong kind; a read flag comes from an `isActive` boolean in the object; a read expiration comes from an `expirationDateTime` key; an object with no annotated key reads as the empty payload |
| SchemaExtension.RoundTrip | Membership/Models/MemberSchemaExtension.cs:9-25 | reading back a written payload gives the same five values |
| SchemaExtension.ReserializeNormalises | Membership/Models/MemberSchemaExtension.cs:12-25 | writing what was read reproduces every annotated non-null value; absent social keys come back as explicit nulls, and null expiration or flag keys are dropped |
| SchemaExtension.DeserializeIgnoresUnknownKeys | Membership/Models/MemberSchemaExtension.cs:9 | keys that differ from all five annotated ones, even ignoring the case of ASCII letters, make no difference to reading (opt-in mode) |
| Graph.GraphClient.GetMembersPage | Membership/Services/UsersService.cs:47-53 | one listing request per page; it returns that page's directory objects and whether a next page follows |
| Services.HasJpegHeader | Membership/Services/UsersService.cs:209-215 | the two little-endian 16-bit reads accept exactly the bytes FF D8 FF followed by a byte of 0xE0 or more |
| Services.DisplayEmail | Membership/Services/UsersService.cs:173 | `Mail` when non-null; else the first of `OtherMails` when there is one; null exactly when both are missing or empty |
| Services.EmptyMailIsChosen | Membership/Services/UsersService.cs:173 | an empty `Mail` is still chosen over a non-empty `OtherMails` |
| Services.FromUser | Membership/Services/UsersService.cs:170-207 | fails exactly when the extension does not convert or photo data comes without a content type; copies id, names and e-mail; extension fields only when the extension is present, with an unset flag reading as inactive and an unset expiration as the default; photo fields only when the photo carries `data` |
| Services.ReadExtension | Membership/Services/UsersService.cs:186-187 | the extension converts exactly when it is a JSON object that reads back, and then gives what the object reads as; an object with a value of the wrong kind throws the serializer's exception, anything that is not a JSON token the null dereference |
| Services.FromUserReadsWrittenExtension | Membership/Services/UsersService.cs:184-196 | a payload written by the update is read back into the record with the same social fields, flag and expiration, whatever photo the user carries as long as its content type is present |
| Services.UpdateValidation | Membership/Services/UsersService.cs:99-111 | a blank display name is refused first, with the blank-name exception; any other refusal is the "Profile photo is not a jpeg." exception; a given photo must be longer than four bytes with a JPEG header; nothing else is refused |
| Services.MemberPatch | Membership/Services/UsersService.cs:113-131 | the patch carries the given names, and its payload reads back as the five given extension values |
| Services.UpdateMemberCalls | Membership/Services/UsersService.cs:97-142 | no request when validation fails; otherwise exactly one user patch, sent first; a photo put follows exactly when the patch was accepted and a photo was given; the update ends without an exception exactly when validation passed and no request was rejected; after validation passes, an exception is the directory's rejection of the last request sent |
| Services.ActivationPatch | Membership/Services/UsersService.cs:146-159 | no name fields; the flag as given; expiration now plus one year when activating and now when deactivating; explicit nulls for the three social keys |
| Services.ConvertEntryCases | Membership/Services/UsersService.cs:48-50 | one turn of the loop succeeds exactly when the entry is a user that converts, and then gives `FromUser`'s record; any other directory object fails the cast with an `InvalidCastException` naming its type |
| Services.ConvertAll | Membership/Services/UsersService.cs:48-51 | a successful conversion has one record per listed entry |
| Services.ConvertAllSucceeds | Membership/Services/UsersService.cs:48-51 | converting a page succeeds exactly when every entry is a user that converts; then record i is entry i's |
| Services.ConvertAllFails | Membership/Services/UsersService.cs:48-51 | a failed conversion ends with the exception of some entry |
| Services.NonUserEndsListing | Membership/Services/UsersService.cs:48 | a group member that is not a user, after entries that all convert, ends the listing with the failed cast to `User` |
| Services.ConvertPage | Membership/Services/UsersService.cs:48-51 | the `foreach` over one page, with its cast to `User`, computes `ConvertAll` of the page |
| Services.Harvest | Membership/Services/UsersService.cs:45-54 | the page loop requests at least one page |
| Services.HarvestIsConvertAll | Membership/Services/UsersService.cs:45-54 | the page loop collects what converting the pages concatenated in order gives, and requests every page when all users convert |
| Services.HarvestOfNoPages | Membership/Services/UsersService.cs:45-54 | a group with no pages costs one request and lists no one |
| Services.AllMembersListing | Membership/Services/UsersService.cs:37-61 | when every listed entry is a user that converts, the result has every user of every page, pages in order; it is sorted by surname, a permutation of the listing, and stable among equal surnames; one request per page |
| Services.UsersService.ListAllPages | Membership/Services/UsersService.cs:43-54 | the do-while loop sends the page requests 0, 1, … and returns what the page loop collects |
| Services.UsersService.GetAllMembers | Membership/Services/UsersService.cs:37-61 | sends the page requests and returns the collected members stably sorted by surname, or the conversion's exception |
| Services.UsersService.UpdateMemberAsync | Membership/Services/UsersService.cs:97-142 | appends exactly the requests of `UpdateMemberCalls` to the trace and ends with its outcome |
| Services.UsersService.UpdateMemberActiveAsync | Membership/Services/UsersService.cs:144-168 | sends the single activation patch and ends with the directory's answer to it |
| Services.UsersService.InviteMember | Membership/Controllers/SetupController.cs:66 | one invitation request with the given names and address |
| Mvc.ModelStateDictionary.AddModelError | Membership/Controllers/MembersController.cs:67-70 | appends the error and leaves the model state invalid |
| Models.ValidateUpdateMember | Membership/Models/UpdateMemberModel.cs:16-17 | the edit form is valid exactly when the display name is present and not blank |
| Models.ValidateAddMembers | Membership/Models/UpdateCertificateRequestModel.cs:10-12 | the import form is valid exactly when a file was uploaded; `AddMembers` relies on it to keep a missing file away from the import |
| Members.EditForm | Membership/Controllers/MembersController.cs:36-51 | the form shows every displayed field of the record unchanged, with no upload |
| Members.PhotoBuffer | Membership/Controllers/MembersController.cs:79-89 | no buffer when nothing or an empty file was uploaded; otherwise the uploaded bytes |
| Members.EditUpdate | Membership/Controllers/MembersController.cs:91 | the service gets the form's fields, a null flag, a null expiration and the photo buffer |
| Members.MembersController.EditGet | Membership/Controllers/MembersController.cs:30-61 | a fetched member is shown in the filled form; a failed fetch shows an empty view with the exception's message as a form-level error |
| Members.MembersController.EditPost | Membership/Controllers/MembersController.cs:65-100 | an oversized upload adds the size error; with any model error the form comes back and no request is sent; otherwise the update's requests are sent, and success redirects while an exception comes back as a form-level error on the same form |
| Members.UploadCapBoundary | Membership/Controllers/MembersController.cs:67-70 | exactly 102,400 bytes pass the cap and 102,401 do not |
| Members.EditPayloadLeavesActivationAlone | Membership/Models/MemberSchemaExtension.cs:21-25 | the admin edit's payload never holds the `isActive` or `expirationDateTime` keys |
| Members.BlankDisplayNameIsRefused | Membership/Models/UpdateMemberModel.cs:16-17 | a missing or blank display name fails form validation and would also be refused by the service |
| Setup.InviteArguments | Membership/Controllers/SetupController.cs:66 | display name is the trimmed first and last names joined by a space, a missing one empty; given name and address are trimmed, and null exactly when missing |
| Setup.InviteAll | Membership/Controllers/SetupController.cs:62-67 | at most one invitation per record; an exception ends the loop only after some invitation |
| Setup.InviteAllInOrder | Membership/Controllers/SetupController.cs:62-67 | the i-th invitation is record i's |
| Setup.InviteAllAccepted | Membership/Controllers/SetupController.cs:62-67 | every invitation but the last was accepted, and the last too when the loop ends normally |
| Setup.InviteAllStops | Membership/Controllers/SetupController.cs:62-67 | a normal end means one invitation per record; an exception is the rejection of the last invitation sent |
| Setup.TwoRecordsTwoInvites | Membership/Controllers/SetupController.cs:62-67 | two accepted records give exactly two invitations, in file order |
| Setup.SetupController.Invite | Membership/Controllers/SetupController.cs:66 | one record's invitation, with the trimmed names and address, recorded in order and ending with the directory's answer |
| Setup.SetupController.SendInvites | Membership/Controllers/SetupController.cs:62-67 | the `foreach` sends exactly the invitations of `InviteAll` and ends with its outcome |
| Setup.SetupController.CopyAndPeek | Membership/Controllers/SetupController.cs:42-52 | the stream holds the uploaded bytes, and the peek finds the mark exactly when the file starts with EF BB BF, a file shorter than three bytes never |
| Setup.InvitesBeforeReadFailure | Membership/Controllers/SetupController.cs:59-67 | when no invitation is rejected, the import ends with the read failure of the lazily read records, if any, and only after every record before it was invited and accepted, in order |
| Setup.SetupController.AddMembers | Membership/Controllers/SetupController.cs:35-71 | an invalid model state returns the form, so when the model state holds the `[Required]` error a missing file returns the form; without the three-byte UTF-8 mark EF BB BF the import throws before any request, including for files shorter than three bytes; otherwise it reads the records from the start and sends their invitations in order; it throws the first rejection, else the read failure that ended the records, else redirects |

## Left out

- `GetMe` and `GetMemberById` are not modelled: they read the signed-in user's claims and fetch one user and their photo. `EditGet` takes the outcome of the fetch as a parameter instead.
- `InviteMember`'s body is not part of this model. It is modelled as one opaque request to the directory that may be rejected. Whatever else it does (adding the user to the members group, sending the welcome e-mail, and how it handles their failures) is not modelled.
- CSV parsing by CsvHelper and the UTF-8 decoder are not modelled. `AddMembers` takes the reader as a function from the file's bytes to the records it yields and the exception, if any, that ends them. Where in the file a malformed row or an invalid byte sequence makes the reader throw is up to that function: the model fixes only that the failure surfaces after the records yielded before it have been invited.
- Time is a parameter. `UpdateMemberActiveAsync` takes `now` and the add-one-year function (`DateTimeOffset.UtcNow`, `AddYears(1)`).
- The culture-sensitive comparison of surnames is not modelled. The sort is proved for any total preorder on surnames.
- Deserialize: matches property names case-sensitively. The serializer falls back to a case-insensitive match when no key matches exactly, so `{"IsActive": true}` sets the flag there but not in the model. The directory returns the extension under the registered names, so the fallback is not modelled, nor is which of two keys equal up to case wins (that depends on key order). `DeserializeIgnoresUnknownKeys` compares case on ASCII letters only; non-ASCII case mappings are not modelled.
- Exception messages: `ArgumentException` follows the .NET Core 2.2 form, the text, a line break and `Parameter name: ` with the parameter, with `Environment.NewLine` taken as CR LF as on Windows (a Linux host uses LF). The other runtime messages are their usual English texts and are not drawn from the runtime's resources.
- The JSON serializer's lenient conversions (a number read as a string, a string read as a date) are not modelled. Any value of the wrong kind is a conversion error. The exception message texts are not the serializer's exact wording. JSON key order is not modelled: the payload is a map.
- `BitConverter` is modelled on a little-endian machine, as .NET runs on.
- Listing requests never fail in the model: the directory always answers a page request. Only the cast of a listed entry to `User`, or the conversion of a user, can end the listing with an exception.
- `TryAddModelError`'s cap on the number of errors is not modelled. It never matters for a fresh request.
- Async execution and cancellation are not modelled: every `await` is a sequential call. Startup, authentication, the token caches and the diagnostics middleware are outside the model.
- `MemberModel.cs` is not followed. It is out of date with `FromUser`, and the record holds the fields `FromUser` assigns.
- A null member id is not modelled: ids are strings.
