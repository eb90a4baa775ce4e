/**
 * `UsersService`: the mapping from directory users to member records, the
 * checks in front of a member update, the activation update and the listing
 * of all members.
 */
module Services {
  import opened Runtime
  import opened Text
  import opened SchemaExtension
  import opened Graph
  import opened Ordering

  /** The member record, with the fields `FromUser` fills in. */
  datatype Member = Member(
    id: Option<string>,
    displayName: Option<string>,
    email: Option<string>,
    givenName: Option<string>,
    surname: Option<string>,
    twitterId: Option<string>,
    gitHubId: Option<string>,
    blogUrl: Option<string>,
    isActive: bool,
    expiration: Instant,
    photoHeight: int,
    photoWidth: int,
    photoType: Option<string>,
    photoBytes: Option<seq<byte>>)

  const PhotoDataKey := "data"
  const MediaContentTypeKey := "@odata.mediaContentType"

  const BlankDisplayName := ArgumentException("Argument cannot be blank when configured is true", "displayName")
  // the source names `displayName` as the offending parameter here too
  const PhotoNotJpeg := ArgumentException("Profile photo is not a jpeg.", "displayName")

  // ---------------------------------------------------------------------------
  // Photo signature

  /** `BitConverter.ToUInt16(b, offset)` on a little-endian machine. */
  function ToUInt16(b: seq<byte>, offset: nat): bv16
    requires offset + 2 <= |b|
  {
    (b[offset] as bv16) | ((b[offset + 1] as bv16) << 8)
  }

  /** The start-of-image marker read as a 16-bit word must be 0xD8FF and the
      next word, masked with 0xE0FF, must be 0xE0FF: the bytes FF D8, then FF
      and a byte whose top three bits are set (0xE0 to 0xFF). */
  function HasJpegHeader(file: seq<byte>): (r: bool)
    requires |file| >= 4
    ensures r <==> file[0] == 0xFF && file[1] == 0xD8 && file[2] == 0xFF && file[3] >= 0xE0
  {
    var soi := ToUInt16(file, 0);
    var marker := ToUInt16(file, 2);
    soi == 0xD8FF && marker & 0xE0FF == 0xE0FF
  }

  // ---------------------------------------------------------------------------
  // From directory user to member record

  /** `Mail ?? OtherMails?.FirstOrDefault()`. */
  function DisplayEmail(u: User): (r: Option<string>)
    ensures u.mail.Some? ==> r == u.mail
    ensures r.Some? && u.mail.None? ==> u.otherMails.Some? && |u.otherMails.value| > 0 && r.value == u.otherMails.value[0]
    ensures r.None? <==> u.mail.None? && (u.otherMails.None? || u.otherMails.value == [])
  {
    match u.mail
    case Some(_) => u.mail
    case None =>
      match u.otherMails
      case Some(others) => if others == [] then None else Some(others[0])
      case None => None
  }

  predicate HasExtension(u: User) {
    u.additionalData.Some? && ExtensionName in u.additionalData.value
  }

  /** `(AdditionalData[ExtensionName] as JToken).ToObject<MemberSchemaExtension>()`:
      a JSON object converts when its values have the right kinds; a null
      token converts to null and the next member access throws; anything that
      is not a token reads as null through `as` and throws the same way. */
  function ReadExtension(u: User): (r: Result<MemberSchemaExtension>)
    requires HasExtension(u)
    ensures var d := u.additionalData.value[ExtensionName];
      && (r.Success? <==> d.DJson? && Deserialize(d.obj).Some?)
      && (r.Success? ==> Deserialize(d.obj) == Some(r.value))
      && (d.DJson? && Deserialize(d.obj).None? ==> r == Failure(JsonSerializationException(ExtensionName)))
      && (!d.DJson? ==> r == Failure(NullReferenceException))
  {
    match u.additionalData.value[ExtensionName]
    case DJson(obj) =>
      (match Deserialize(obj)
       case Some(e) => Success(e)
       case None => Failure(JsonSerializationException(ExtensionName)))
    case _ => Failure(NullReferenceException)
  }

  predicate HasPhotoData(u: User) {
    u.photo.Some? && PhotoDataKey in u.photo.value.additionalData
  }

  function TextOf(d: Datum): Option<string> {
    match d
    case DText(s) => Some(s)
    case _ => None
  }

  function BytesOf(d: Datum): Option<seq<byte>> {
    match d
    case DBytes(b) => Some(b)
    case _ => None
  }

  /** `FromUser`: names and id copied, the display email chosen, the extension
      fields copied only when the payload is present, the photo fields set
      only when the photo carries its bytes. */
  function FromUser(u: User): (r: Result<Member>)
    ensures r.Failure? <==>
      || (HasExtension(u) && ReadExtension(u).Failure?)
      || (HasPhotoData(u) && MediaContentTypeKey !in u.photo.value.additionalData)
    ensures r.Success? ==>
      var m := r.value;
      && m.id == u.id && m.displayName == u.displayName
      && m.givenName == u.givenName && m.surname == u.surname
      && m.email == DisplayEmail(u)
    ensures r.Success? && !HasExtension(u) ==>
      var m := r.value;
      m.twitterId.None? && m.gitHubId.None? && m.blogUrl.None? && !m.isActive && m.expiration == DefaultInstant
    ensures r.Success? && HasExtension(u) ==>
      var m := r.value;
      var e := ReadExtension(u).value;
      && m.twitterId == e.twitterId && m.gitHubId == e.gitHubId && m.blogUrl == e.blogUrl
      && (m.isActive <==> e.isActive == Some(true))
      && m.expiration == e.expirationDateTime.GetOr(DefaultInstant)
    ensures r.Success? && !HasPhotoData(u) ==>
      var m := r.value;
      m.photoHeight == 0 && m.photoWidth == 0 && m.photoType.None? && m.photoBytes.None?
    ensures r.Success? && HasPhotoData(u) ==>
      var m := r.value;
      var p := u.photo.value;
      && m.photoHeight == p.height.GetOr(0) && m.photoWidth == p.width.GetOr(0)
      && m.photoType == TextOf(p.additionalData[MediaContentTypeKey])
      && m.photoBytes == BytesOf(p.additionalData[PhotoDataKey])
  {
    var member := Member(u.id, u.displayName, DisplayEmail(u), u.givenName, u.surname,
                         None, None, None, false, DefaultInstant, 0, 0, None, None);
    var extended :=
      if HasExtension(u) then
        match ReadExtension(u)
        case Failure(error) => Failure(error)
        case Success(e) =>
          Success(member.(twitterId := e.twitterId, gitHubId := e.gitHubId, blogUrl := e.blogUrl,
                          isActive := if e.isActive.Some? then e.isActive.value else member.isActive,
                          expiration := if e.expirationDateTime.Some? then e.expirationDateTime.value else member.expiration))
      else Success(member);
    match extended
    case Failure(error) => Failure(error)
    case Success(m) =>
      if HasPhotoData(u) then
        var data := u.photo.value.additionalData;
        if MediaContentTypeKey !in data then Failure(KeyNotFoundException(MediaContentTypeKey))
        else Success(m.(photoHeight := u.photo.value.height.GetOr(0), photoWidth := u.photo.value.width.GetOr(0),
                        photoType := TextOf(data[MediaContentTypeKey]), photoBytes := BytesOf(data[PhotoDataKey])))
      else Success(m)
  }

  /** A payload written by `Serialize` is read back into the member record
      unchanged: the social fields as written, the flag as written (unset
      reading as inactive), the expiration as written (unset reading as the
      default instant). */
  lemma FromUserReadsWrittenExtension(u: User, e: MemberSchemaExtension)
    requires u.additionalData.Some? && ExtensionName in u.additionalData.value
    requires u.additionalData.value[ExtensionName] == DJson(Serialize(e))
    requires HasPhotoData(u) ==> MediaContentTypeKey in u.photo.value.additionalData
    ensures FromUser(u).Success?
    ensures var m := FromUser(u).value;
      && m.twitterId == e.twitterId && m.gitHubId == e.gitHubId && m.blogUrl == e.blogUrl
      && (m.isActive <==> e.isActive == Some(true))
      && m.expiration == e.expirationDateTime.GetOr(DefaultInstant)
  {
    RoundTrip(e);
  }

  /** A primary address wins even when it is empty. */
  lemma EmptyMailIsChosen(u: User)
    requires u.mail == Some("") && u.otherMails.Some? && u.otherMails.value != []
    ensures FromUser(u).Success? ==> FromUser(u).value.email == Some("")
  {
  }

  // ---------------------------------------------------------------------------
  // Updating a member

  /** The checks `UpdateMemberAsync` makes before any request: a display name
      that is not blank, and a photo, when one is given, of more than four
      bytes that starts with a JPEG signature. */
  function UpdateValidation(displayName: Option<string>, profilePhoto: Option<seq<byte>>): (error: Option<Exception>)
    ensures IsNullOrWhiteSpace(displayName) ==> error == Some(BlankDisplayName)
    ensures !IsNullOrWhiteSpace(displayName) && error.Some? ==> error == Some(PhotoNotJpeg)
    ensures error.None? <==>
      && !IsNullOrWhiteSpace(displayName)
      && (profilePhoto.Some? ==>
            var p := profilePhoto.value;
            |p| > 4 && p[0] == 0xFF && p[1] == 0xD8 && p[2] == 0xFF && p[3] >= 0xE0)
  {
    if IsNullOrWhiteSpace(displayName) then Some(BlankDisplayName)
    else if profilePhoto.Some? && (|profilePhoto.value| <= 4 || !HasJpegHeader(profilePhoto.value)) then Some(PhotoNotJpeg)
    else None
  }

  /** The arguments of `UpdateMemberAsync` after the member id. */
  datatype MemberUpdate = MemberUpdate(
    displayName: Option<string>,
    isActive: Option<bool>,
    expiration: Option<Instant>,
    givenName: Option<string>,
    surname: Option<string>,
    githubId: Option<string>,
    twitterId: Option<string>,
    blogUrl: Option<string>,
    profilePhoto: Option<seq<byte>>)

  /** The user patch `UpdateMemberAsync` sends: the names as given and the
      extension payload built from the remaining fields. */
  function MemberPatch(u: MemberUpdate): (p: UserPatch)
    ensures p.displayName == u.displayName && p.givenName == u.givenName && p.surname == u.surname
    ensures Deserialize(p.extension) == Some(MemberSchemaExtension(u.twitterId, u.blogUrl, u.githubId, u.expiration, u.isActive))
  {
    var payload := MemberSchemaExtension(u.twitterId, u.blogUrl, u.githubId, u.expiration, u.isActive);
    RoundTrip(payload);
    UserPatch(u.displayName, u.givenName, u.surname, Serialize(payload))
  }

  /** The requests `UpdateMemberAsync` sends and how it ends: nothing is sent
      when the checks fail; otherwise exactly one user patch goes first, and a
      photo upload follows it exactly when the patch went through and a photo
      was given. */
  function UpdateMemberCalls(answer: GraphCall -> Option<string>, id: string, u: MemberUpdate)
    : (o: (seq<GraphCall>, Option<Exception>))
    ensures UpdateValidation(u.displayName, u.profilePhoto).Some? ==>
      o == ([], UpdateValidation(u.displayName, u.profilePhoto))
    ensures UpdateValidation(u.displayName, u.profilePhoto).None? ==>
      1 <= |o.0| <= 2 && o.0[0] == UpdateUser(id, MemberPatch(u))
    ensures forall i :: 0 <= i < |o.0| ==> (o.0[i].UpdateUser? <==> i == 0)
    ensures (exists i :: 0 <= i < |o.0| && o.0[i].PutPhoto?) <==>
      && UpdateValidation(u.displayName, u.profilePhoto).None?
      && answer(UpdateUser(id, MemberPatch(u))).None?
      && u.profilePhoto.Some?
    ensures |o.0| == 2 ==> u.profilePhoto.Some? && o.0[1] == PutPhoto(id, u.profilePhoto.value)
    ensures o.1.None? <==> UpdateValidation(u.displayName, u.profilePhoto).None? && forall c :: c in o.0 ==> answer(c).None?
    ensures UpdateValidation(u.displayName, u.profilePhoto).None? && o.1.Some? ==> o.1 == Rejection(answer, o.0[|o.0| - 1])
  {
    var invalid := UpdateValidation(u.displayName, u.profilePhoto);
    if invalid.Some? then ([], invalid)
    else
      var update := UpdateUser(id, MemberPatch(u));
      match Rejection(answer, update)
      case Some(error) => ([update], Some(error))
      case None =>
        if u.profilePhoto.Some? && |u.profilePhoto.value| > 0 then
          var put := PutPhoto(id, u.profilePhoto.value);
          assert [update, put][1].PutPhoto?;
          ([update, put], Rejection(answer, put))
        else ([update], None)
  }

  /** The patch `UpdateMemberActiveAsync` sends: no name fields, an extension
      payload with the flag and an expiration one year ahead when activating
      and now when deactivating, and explicit nulls for the social fields. */
  function ActivationPatch(isActive: bool, now: Instant, addOneYear: Instant -> Instant): (p: UserPatch)
    ensures p.displayName.None? && p.givenName.None? && p.surname.None?
    ensures IsActiveKey in p.extension && p.extension[IsActiveKey] == JBool(isActive)
    ensures ExpirationDateTimeKey in p.extension
    ensures p.extension[ExpirationDateTimeKey] == JDate(if isActive then addOneYear(now) else now)
    ensures TwitterIdKey in p.extension && p.extension[TwitterIdKey] == JNull
    ensures BlogUrlKey in p.extension && p.extension[BlogUrlKey] == JNull
    ensures GitHubIdKey in p.extension && p.extension[GitHubIdKey] == JNull
  {
    var expiration := if isActive then addOneYear(now) else now;
    UserPatch(None, None, None, Serialize(MemberSchemaExtension(None, None, None, Some(expiration), Some(isActive))))
  }

  // ---------------------------------------------------------------------------
  // Listing members

  const UserTypeName := "Microsoft.Graph.User"

  /** One turn of `foreach (User user in users)`: the listed object is cast to
      `User`, which throws for any other kind of directory object, and the
      user is converted. */
  function ConvertEntry(o: DirectoryObject): Result<Member> {
    match o
    case UserObject(u) => FromUser(u)
    case OtherObject(t) => Failure(InvalidCastException(t, UserTypeName))
  }

  /** A listed entry converts exactly when it is a user that converts, and
      then into that user's record; any other directory object fails the cast
      with an exception naming its type. */
  lemma ConvertEntryCases(o: DirectoryObject)
    ensures ConvertEntry(o).Success? <==> o.UserObject? && FromUser(o.user).Success?
    ensures o.UserObject? ==> ConvertEntry(o) == FromUser(o.user)
    ensures o.OtherObject? ==>
      ConvertEntry(o).Failure? && ConvertEntry(o).error.InvalidCastException? && ConvertEntry(o).error.fromType == o.typeName
  {
  }

  /** Convert the listed entries in order, stopping at the first that throws. */
  function ConvertAll(entries: seq<DirectoryObject>): (r: Result<seq<Member>>)
    ensures r.Success? ==> |r.value| == |entries|
  {
    if entries == [] then Success([])
    else
      match ConvertEntry(entries[0])
      case Failure(error) => Failure(error)
      case Success(m) =>
        match ConvertAll(entries[1..])
        case Failure(error) => Failure(error)
        case Success(ms) => Success([m] + ms)
  }

  /** Converting a listing succeeds exactly when every entry converts, and
      then gives each entry's record at that entry's position. */
  lemma {:induction false} ConvertAllSucceeds(entries: seq<DirectoryObject>)
    ensures ConvertAll(entries).Success? <==> forall i :: 0 <= i < |entries| ==> ConvertEntry(entries[i]).Success?
    ensures ConvertAll(entries).Success? ==>
      forall i :: 0 <= i < |entries| ==> ConvertEntry(entries[i]) == Success(ConvertAll(entries).value[i])
  {
    if entries != [] {
      var rest := entries[1..];
      ConvertAllSucceeds(rest);
      assert forall i :: 0 < i < |entries| ==> entries[i] == rest[i - 1];
      if ConvertAll(entries).Success? {
        forall i | 0 <= i < |entries| ensures ConvertEntry(entries[i]) == Success(ConvertAll(entries).value[i]) {
          if i > 0 { assert entries[i] == rest[i - 1]; }
        }
      } else if ConvertEntry(entries[0]).Success? {
        var i :| 0 <= i < |rest| && ConvertEntry(rest[i]).Failure?;
        assert ConvertEntry(entries[i + 1]).Failure?;
      }
    }
  }

  /** A failed conversion of a listing fails with the exception of some
      entry's conversion. */
  lemma {:induction false} ConvertAllFails(entries: seq<DirectoryObject>)
    ensures ConvertAll(entries).Failure? ==>
      exists i :: 0 <= i < |entries| && ConvertEntry(entries[i]) == Failure(ConvertAll(entries).error)
  {
    if entries != [] && ConvertEntry(entries[0]).Success? && ConvertAll(entries[1..]).Failure? {
      var rest := entries[1..];
      ConvertAllFails(rest);
      var i :| 0 <= i < |rest| && ConvertEntry(rest[i]) == Failure(ConvertAll(rest).error);
      assert ConvertEntry(entries[i + 1]) == Failure(ConvertAll(entries).error);
    }
  }

  /** A member of the group that is not a user ends the listing with the
      failed cast, provided every entry before it converts. */
  lemma {:induction false} NonUserEndsListing(entries: seq<DirectoryObject>, i: nat)
    requires i < |entries| && entries[i].OtherObject?
    requires forall j :: 0 <= j < i ==> ConvertEntry(entries[j]).Success?
    ensures ConvertAll(entries) == Failure(InvalidCastException(entries[i].typeName, UserTypeName))
  {
    if i > 0 {
      forall j | 0 <= j < i - 1 ensures ConvertEntry(entries[1..][j]).Success? {
        assert entries[1..][j] == entries[j + 1];
      }
      NonUserEndsListing(entries[1..], i - 1);
      assert ConvertEntry(entries[0]).Success?;
    }
  }

  /** Prefix the members already collected to the outcome of the rest. */
  function Prefixed(items: seq<Member>, rest: Result<seq<Member>>): Result<seq<Member>> {
    match rest
    case Success(ms) => Success(items + ms)
    case Failure(error) => Failure(error)
  }

  /** What the page loop of `GetAllMembers` does from page `page` on: how many
      pages it requests and what it collects. */
  function Harvest(pages: seq<seq<DirectoryObject>>, page: nat): (h: (nat, Result<seq<Member>>))
    ensures h.0 >= 1
    decreases |pages| - page
  {
    match ConvertAll(PageAt(pages, page))
    case Failure(error) => (1, Failure(error))
    case Success(ms) =>
      if page + 1 < |pages| then
        var rest := Harvest(pages, page + 1);
        (rest.0 + 1, Prefixed(ms, rest.1))
      else (1, Success(ms))
  }

  /** One turn of the page loop: a page that fails to convert ends it, the
      last page ends it with its records, any other page is followed by the
      rest. */
  lemma HarvestStep(pages: seq<seq<DirectoryObject>>, page: nat, converted: Result<seq<Member>>)
    requires converted == ConvertAll(PageAt(pages, page))
    ensures converted.Failure? ==> Harvest(pages, page) == (1, Failure(converted.error))
    ensures converted.Success? && page + 1 >= |pages| ==> Harvest(pages, page) == (1, converted)
    ensures converted.Success? && page + 1 < |pages| ==>
      Harvest(pages, page) == (Harvest(pages, page + 1).0 + 1, Prefixed(converted.value, Harvest(pages, page + 1).1))
  {
  }

  lemma PrefixedNil(rest: Result<seq<Member>>)
    ensures Prefixed([], rest) == rest
  {
    if rest.Success? { assert [] + rest.value == rest.value; }
  }

  lemma PrefixedTwice(a: seq<Member>, b: seq<Member>, rest: Result<seq<Member>>)
    ensures Prefixed(a, Prefixed(b, rest)) == Prefixed(a + b, rest)
  {
    if rest.Success? { assert a + (b + rest.value) == (a + b) + rest.value; }
  }

  function Flatten(pages: seq<seq<DirectoryObject>>): (entries: seq<DirectoryObject>) {
    if pages == [] then [] else pages[0] + Flatten(pages[1..])
  }

  function SurnameOf(m: Member): Option<string> {
    m.surname
  }

  function PageRequests(n: nat): (calls: seq<GraphCall>)
    ensures |calls| == n && forall i :: 0 <= i < n ==> calls[i] == ListGroupMembers(i)
  {
    seq(n, i requires 0 <= i < n => ListGroupMembers(i))
  }

  lemma PageRequestsNext(start: seq<GraphCall>, n: nat)
    ensures (start + PageRequests(n)) + [ListGroupMembers(n)] == start + PageRequests(n + 1)
  {
    assert PageRequests(n) + [ListGroupMembers(n)] == PageRequests(n + 1);
  }

  lemma {:induction false} ConvertAllAppend(a: seq<DirectoryObject>, b: seq<DirectoryObject>)
    ensures ConvertAll(a + b) ==
      match ConvertAll(a)
      case Failure(error) => Failure(error)
      case Success(ms) => Prefixed(ms, ConvertAll(b))
  {
    if a == [] {
      assert a + b == b;
      match ConvertAll(b)
      case Success(ms) => assert [] + ms == ms;
      case Failure(_) =>
    } else {
      assert (a + b)[0] == a[0] && (a + b)[1..] == a[1..] + b;
      ConvertAllAppend(a[1..], b);
      match ConvertEntry(a[0])
      case Failure(_) =>
      case Success(m) =>
        match ConvertAll(a[1..])
        case Failure(_) =>
        case Success(ms) =>
          match ConvertAll(b)
          case Failure(_) =>
          case Success(ns) => assert [m] + (ms + ns) == ([m] + ms) + ns;
    }
  }

  /** The page loop collects what converting the concatenated pages gives,
      and, when every user converts, requests every page (at least one). */
  lemma {:induction false} HarvestIsConvertAll(pages: seq<seq<DirectoryObject>>, page: nat)
    requires page < |pages|
    ensures Harvest(pages, page).1 == ConvertAll(Flatten(pages[page..]))
    ensures Harvest(pages, page).1.Success? ==> Harvest(pages, page).0 == |pages| - page
    decreases |pages| - page
  {
    assert pages[page..] == [pages[page]] + pages[page + 1..];
    ConvertAllAppend(pages[page], Flatten(pages[page + 1..]));
    if page + 1 < |pages| {
      HarvestIsConvertAll(pages, page + 1);
    } else {
      assert pages[page + 1..] == [];
      assert Flatten(pages[page..]) == pages[page] + [];
      assert Flatten(pages[page..]) == pages[page];
      assert PageAt(pages, page) == pages[page];
      match ConvertAll(pages[page])
      case Failure(_) =>
      case Success(ms) => assert ms + [] == ms;
    }
  }

  /** With no pages at all the single request returns an empty page. */
  lemma HarvestOfNoPages(pages: seq<seq<DirectoryObject>>)
    requires pages == []
    ensures Harvest(pages, 0) == (1, Success([]))
  {
    assert ConvertAll([]) == Success([]);
  }

  /** The `foreach` over one page: cast each listed object to `User`, convert
      it and append it; the first cast or conversion that throws ends the
      listing. */
  method ConvertPage(entries: seq<DirectoryObject>) returns (r: Result<seq<Member>>)
    ensures r == ConvertAll(entries)
  {
    var items: seq<Member> := [];
    var j := 0;
    PrefixedNil(ConvertAll(entries));
    while j < |entries|
      invariant j <= |entries|
      invariant ConvertAll(entries) == Prefixed(items, ConvertAll(entries[j..]))
    {
      assert entries[j..] == [entries[j]] + entries[j + 1..];
      var entry := entries[j];
      if entry.OtherObject? {
        return Failure(InvalidCastException(entry.typeName, UserTypeName));
      }
      var m := FromUser(entry.user);
      if m.Failure? {
        return Failure(m.error);
      }
      PrefixedTwice(items, [m.value], ConvertAll(entries[j + 1..]));
      items := items + [m.value];
      j := j + 1;
    }
    assert entries[j..] == [];
    assert items + [] == items;
    r := Success(items);
  }

  /** What `GetAllMembers` returns when every listed entry is a user that
      converts: the members of
      all pages, each page in listing order, one record per user, ordered by
      surname, with members of equal surname in listing order; and it asks for
      every page (one request when the group has no pages at all). */
  lemma {:induction false} AllMembersListing(pages: seq<seq<DirectoryObject>>, le: (Option<string>, Option<string>) -> bool, k: Option<string>)
    requires TotalPreorder(le)
    requires forall o :: o in Flatten(pages) ==> ConvertEntry(o).Success?
    ensures var h := Harvest(pages, 0);
      && h.1.Success?
      && h.0 == (if pages == [] then 1 else |pages|)
      && h.1 == ConvertAll(Flatten(pages))
      && |h.1.value| == |Flatten(pages)|
      && SortedBy(StableSort(h.1.value, SurnameOf, le), SurnameOf, le)
      && multiset(StableSort(h.1.value, SurnameOf, le)) == multiset(h.1.value)
      && TiedWith(StableSort(h.1.value, SurnameOf, le), SurnameOf, le, k) == TiedWith(h.1.value, SurnameOf, le, k)
  {
    ConvertAllSucceeds(Flatten(pages));
    if pages == [] {
      HarvestOfNoPages(pages);
    } else {
      HarvestIsConvertAll(pages, 0);
      assert pages[0..] == pages;
    }
    var ms := Harvest(pages, 0).1.value;
    StableSortSorted(ms, SurnameOf, le);
    StableSortKeepsTies(ms, SurnameOf, le, k);
  }

  // ---------------------------------------------------------------------------
  // The service

  class UsersService {
    const graph: GraphClient

    constructor (graph: GraphClient)
      ensures this.graph == graph
    {
      this.graph := graph;
    }

    /** `GetAllMembers`: request pages until there is no next one, converting
        every user, then order the members by surname, keeping the listing
        order among equal surnames. */
    method GetAllMembers(le: (Option<string>, Option<string>) -> bool) returns (r: Result<seq<Member>>)
      modifies graph
      ensures var h := Harvest(graph.memberPages, 0);
        && graph.trace == old(graph.trace) + PageRequests(h.0)
        && r == match h.1
                case Success(ms) => Success(StableSort(ms, SurnameOf, le))
                case Failure(error) => Failure(error)
    {
      var listed := ListAllPages();
      r := match listed
        case Success(items) => Success(StableSort(items, SurnameOf, le))
        case Failure(error) => Failure(error);
    }

    /** The paging loop of `GetAllMembers`: request page after page while the
        directory says another one follows, converting each user. */
    method ListAllPages() returns (r: Result<seq<Member>>)
      modifies graph
      ensures var h := Harvest(graph.memberPages, 0);
        graph.trace == old(graph.trace) + PageRequests(h.0) && r == h.1
    {
      ghost var pages := graph.memberPages;
      ghost var start := graph.trace;
      var items: seq<Member> := [];
      var page: nat := 0;
      PrefixedNil(Harvest(pages, 0).1);
      while true
        invariant page == 0 || page < |pages|
        invariant graph.trace == start + PageRequests(page)
        invariant Harvest(pages, 0).0 == Harvest(pages, page).0 + page
        invariant Harvest(pages, 0).1 == Prefixed(items, Harvest(pages, page).1)
        decreases |pages| - page
      {
        PageRequestsNext(start, page);
        var entries, hasNext := graph.GetMembersPage(page);
        var converted := ConvertPage(entries);
        HarvestStep(pages, page, converted);
        if converted.Failure? {
          return Failure(converted.error);
        }
        if !hasNext {
          assert (items + converted.value) + [] == items + converted.value;
          return Success(items + converted.value);
        }
        PrefixedTwice(items, converted.value, Harvest(pages, page + 1).1);
        items := items + converted.value;
        page := page + 1;
      }
    }

    /** `UpdateMemberAsync`: refuse a blank display name or a photo that is not
        a JPEG before any request; otherwise send the user patch and then, only
        if it went through and a photo was given, the photo. */
    method UpdateMemberAsync(id: string, displayName: Option<string>, isActive: Option<bool>, expiration: Option<Instant>,
                             givenName: Option<string>, surname: Option<string>,
                             githubId: Option<string>, twitterId: Option<string>, blogUrl: Option<string>,
                             profilePhoto: Option<seq<byte>>)
      returns (error: Option<Exception>)
      modifies graph
      ensures var o := UpdateMemberCalls(graph.answer, id, MemberUpdate(displayName, isActive, expiration, givenName, surname,
                                                                      githubId, twitterId, blogUrl, profilePhoto));
        graph.trace == old(graph.trace) + o.0 && error == o.1
    {
      if IsNullOrWhiteSpace(displayName) {
        return Some(BlankDisplayName);
      }
      if profilePhoto.Some? {
        if |profilePhoto.value| <= 4 || !HasJpegHeader(profilePhoto.value) {
          return Some(PhotoNotJpeg);
        }
      }
      var toUpdate := MemberPatch(MemberUpdate(displayName, isActive, expiration, givenName, surname,
                                               githubId, twitterId, blogUrl, profilePhoto));
      error := graph.Send(UpdateUser(id, toUpdate));
      if error.Some? {
        return;
      }
      if profilePhoto.Some? && |profilePhoto.value| > 0 {
        error := graph.Send(PutPhoto(id, profilePhoto.value));
      }
    }

    /** `UpdateMemberActiveAsync`: one user patch carrying only the flag and
        the new expiration. */
    method UpdateMemberActiveAsync(id: string, isActive: bool, now: Instant, addOneYear: Instant -> Instant)
      returns (error: Option<Exception>)
      modifies graph
      ensures graph.trace == old(graph.trace) + [UpdateUser(id, ActivationPatch(isActive, now, addOneYear))]
      ensures error == Rejection(graph.answer, UpdateUser(id, ActivationPatch(isActive, now, addOneYear)))
    {
      error := graph.Send(UpdateUser(id, ActivationPatch(isActive, now, addOneYear)));
    }

    /** `InviteMember`, whose body is not part of this model: one invitation
        request with the given names and address. */
    method InviteMember(displayName: string, givenName: Option<string>, email: Option<string>)
      returns (error: Option<Exception>)
      modifies graph
      ensures graph.trace == old(graph.trace) + [Invite(displayName, givenName, email)]
      ensures error == Rejection(graph.answer, Invite(displayName, givenName, email))
    {
      error := graph.Send(Invite(displayName, givenName, email));
    }
  }
}
