/**
 * The request models the controllers bind, with the validation their
 * annotations ask for, and the CSV record of a bulk import.
 */
module Models {
  import opened Runtime
  import opened Text
  import opened Mvc

  /** `UpdateMemberModel`, the edit form; an uploaded file is its bytes. */
  datatype UpdateMemberModel = UpdateMemberModel(
    id: Option<string>,
    displayName: Option<string>,
    givenName: Option<string>,
    surname: Option<string>,
    isActive: bool,
    expiration: Instant,
    gitHubId: Option<string>,
    twitterId: Option<string>,
    blogUrl: Option<string>,
    photoWidth: int,
    photoHeight: int,
    photoType: Option<string>,
    photoBytes: Option<seq<byte>>,
    photoUpload: Option<seq<byte>>)

  /** `AddMembersRequestModel`: the uploaded CSV file, if any. */
  datatype AddMembersRequestModel = AddMembersRequestModel(csvFile: Option<seq<byte>>)

  /** One CSV record: `FirstName`, `LastName`, `EMail`. */
  datatype ImportMember = ImportMember(firstName: Option<string>, lastName: Option<string>, eMail: Option<string>)

  const DisplayNameRequired := ModelError("DisplayName", "Display Name is required")
  const CsvFileRequired := ModelError("CsvFile", "The Membership File (CSV) field is required.")

  /** `[Required(AllowEmptyStrings = false)]` on `DisplayName`: a missing,
      empty or blank display name is a model error. */
  function ValidateUpdateMember(model: UpdateMemberModel): (errors: seq<ModelError>)
    ensures errors == [] <==> model.displayName.Some? && Trim(model.displayName.value) != []
    ensures errors != [] ==> errors == [DisplayNameRequired]
  {
    TrimEmptyIffBlank(model.displayName.GetOr(""));
    if IsNullOrWhiteSpace(model.displayName) then [DisplayNameRequired] else []
  }

  /** `[Required]` on `CsvFile`: a request without a file is a model error. */
  function ValidateAddMembers(model: AddMembersRequestModel): (errors: seq<ModelError>)
    ensures errors == [] <==> model.csvFile.Some?
    ensures errors != [] ==> errors == [CsvFileRequired]
  {
    if model.csvFile.None? then [CsvFileRequired] else []
  }
}
