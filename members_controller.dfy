/**
 * `MembersController`: the admin's edit form for one member, shown from the
 * stored record (GET) and submitted back (POST).
 */
module Members {
  import opened Runtime
  import opened Graph
  import opened Services
  import opened Mvc
  import opened Models
  import opened Streams

  /** The size cap on an uploaded photo: 100 KiB. */
  const MaxPhotoUpload := 100 * 1024

  const PhotoTooLarge := ModelError("PhotoUpload", "Image size must be less than 100kb")

  /** `PhotoUpload?.Length > 100 * 1024`. */
  predicate UploadTooLarge(upload: Option<seq<byte>>) {
    upload.Some? && |upload.value| > MaxPhotoUpload
  }

  /** The edit form for a member: every field shown on the form copied from the record. */
  function EditForm(m: Member): (f: UpdateMemberModel)
    ensures MemberOfForm(f, m.email) == m
    ensures f.photoUpload.None?
  {
    UpdateMemberModel(m.id, m.displayName, m.givenName, m.surname, m.isActive, m.expiration,
                      m.gitHubId, m.twitterId, m.blogUrl, m.photoWidth, m.photoHeight, m.photoType,
                      m.photoBytes, None)
  }

  /** The member record a form shows, given the e-mail address the form does not carry. */
  function MemberOfForm(f: UpdateMemberModel, email: Option<string>): Member {
    Member(f.id, f.displayName, email, f.givenName, f.surname, f.twitterId, f.gitHubId, f.blogUrl,
           f.isActive, f.expiration, f.photoHeight, f.photoWidth, f.photoType, f.photoBytes)
  }

  /** The photo the POST passes on: none when nothing or an empty file was
      uploaded, the uploaded bytes otherwise. */
  function PhotoBuffer(upload: Option<seq<byte>>): (buffer: Option<seq<byte>>)
    ensures buffer.None? <==> upload.None? || upload.value == []
    ensures buffer.Some? ==> buffer == upload
  {
    if upload.Some? && |upload.value| > 0 then upload else None
  }

  /** The arguments the POST passes to `UpdateMemberAsync`: the form's fields,
      no activity flag, no expiration, and the photo buffer. */
  function EditUpdate(model: UpdateMemberModel): (u: MemberUpdate)
    ensures u.isActive.None? && u.expiration.None?
    ensures u.displayName == model.displayName && u.givenName == model.givenName && u.surname == model.surname
    ensures u.githubId == model.gitHubId && u.twitterId == model.twitterId && u.blogUrl == model.blogUrl
    ensures u.profilePhoto == PhotoBuffer(model.photoUpload)
  {
    MemberUpdate(model.displayName, None, None, model.givenName, model.surname,
                 model.gitHubId, model.twitterId, model.blogUrl, PhotoBuffer(model.photoUpload))
  }

  class MembersController {
    const users: UsersService

    constructor (users: UsersService)
      ensures this.users == users
    {
      this.users := users;
    }

    /** `Edit(id)` (GET), given how fetching the member ended: the form filled
        from the record, or an empty view with the exception's message as a
        form-level error. */
    method EditGet(fetched: Result<Member>, modelState: ModelStateDictionary)
      returns (r: ActionResult<UpdateMemberModel>)
      modifies modelState
      ensures fetched.Success? ==> r == View(Some(EditForm(fetched.value))) && modelState.errors == old(modelState.errors)
      ensures fetched.Failure? ==>
        r == View(None) && modelState.errors == old(modelState.errors) + [ModelError("", Message(fetched.error))]
    {
      match fetched {
        case Success(member) =>
          r := View(Some(EditForm(member)));
        case Failure(e) =>
          modelState.AddModelError("", Message(e));
          r := View(None);
      }
    }

    /** `Edit(id, model)` (POST): an oversized upload is a model error; with
        any model error the form comes back and nothing is sent; otherwise the
        photo is buffered and the member updated, and a failure comes back as
        a form-level error on the same form. Only success redirects. */
    method EditPost(id: string, model: UpdateMemberModel, modelState: ModelStateDictionary)
      returns (r: ActionResult<UpdateMemberModel>)
      modifies modelState, users.graph
      ensures UploadTooLarge(model.photoUpload) || !old(modelState.IsValid()) ==>
        && r == View(Some(model))
        && users.graph.trace == old(users.graph.trace)
        && modelState.errors == old(modelState.errors) + (if UploadTooLarge(model.photoUpload) then [PhotoTooLarge] else [])
      ensures !UploadTooLarge(model.photoUpload) && old(modelState.IsValid()) ==>
        var o := UpdateMemberCalls(users.graph.answer, id, EditUpdate(model));
        && users.graph.trace == old(users.graph.trace) + o.0
        && (o.1.None? ==> r == RedirectToAction("Index") && modelState.errors == [])
        && (o.1.Some? ==> r == View(Some(model)) && modelState.errors == [ModelError("", Message(o.1.value))])
    {
      if model.photoUpload.Some? && |model.photoUpload.value| > MaxPhotoUpload {
        modelState.AddModelError("PhotoUpload", "Image size must be less than 100kb");
      }
      if !modelState.IsValid() {
        return View(Some(model));
      }
      var buffer: Option<seq<byte>> := None;
      if model.photoUpload.Some? && |model.photoUpload.value| > 0 {
        var ms := new MemoryStream();
        ms.Write(model.photoUpload.value);
        ms.position := 0;
        assert ms.buffer == model.photoUpload.value;
        buffer := Some(ms.buffer);
      }
      assert buffer == PhotoBuffer(model.photoUpload);
      ghost var update := EditUpdate(model);
      assert update == MemberUpdate(model.displayName, None, None, model.givenName, model.surname,
                                    model.gitHubId, model.twitterId, model.blogUrl, buffer);
      var error := users.UpdateMemberAsync(id, model.displayName, None, None, model.givenName, model.surname,
                                           model.gitHubId, model.twitterId, model.blogUrl, buffer);
      if error.Some? {
        modelState.AddModelError("", Message(error.value));
        return View(Some(model));
      }
      return RedirectToAction("Index");
    }
  }

  /** The cap lets exactly 100 KiB through and stops one byte more. */
  lemma UploadCapBoundary(upload: seq<byte>)
    ensures |upload| == 102400 ==> !UploadTooLarge(Some(upload))
    ensures |upload| == 102401 ==> UploadTooLarge(Some(upload))
  {
  }

  /** The admin edit never writes the activity flag or the expiration: both
      keys are missing from the payload it sends. */
  lemma EditPayloadLeavesActivationAlone(model: UpdateMemberModel)
    ensures var p := MemberPatch(EditUpdate(model)).extension;
      SchemaExtension.IsActiveKey !in p && SchemaExtension.ExpirationDateTimeKey !in p
  {
  }

  /** A form whose display name is missing or blank fails validation, so its
      POST returns the form without sending anything. */
  lemma BlankDisplayNameIsRefused(model: UpdateMemberModel)
    requires model.displayName.None? || Text.AllWhiteSpace(model.displayName.value)
    ensures ValidateUpdateMember(model) == [DisplayNameRequired]
    ensures UpdateValidation(model.displayName, PhotoBuffer(model.photoUpload)) == Some(BlankDisplayName)
  {
  }
}
