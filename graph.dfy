/**
 * The directory service as the membership code sees it: the user records it
 * returns, the writes it is sent, and a client that records every request in
 * order. The directory's reply to a write is a parameter of the client.
 */
module Graph {
  import opened Runtime
  import opened SchemaExtension

  /** Name of the schema extension that holds the membership payload. */
  const ExtensionName := "dotnetfoundation_member"

  /** A value in an `AdditionalData` dictionary. */
  datatype Datum = DText(text: string) | DBytes(bytes: seq<byte>) | DJson(obj: JsonObject) | DNull

  /** `ProfilePhoto`: its size, and the additional data in which the content
      type and, once fetched, the photo bytes are kept. */
  datatype ProfilePhoto = ProfilePhoto(height: Option<int>, width: Option<int>, additionalData: map<string, Datum>)

  /** The `User` fields the membership code selects. */
  datatype User = User(
    id: Option<string>,
    displayName: Option<string>,
    givenName: Option<string>,
    surname: Option<string>,
    mail: Option<string>,
    otherMails: Option<seq<string>>,
    additionalData: Option<map<string, Datum>>,
    photo: Option<ProfilePhoto>)

  /** An entry of a group's member listing, a `DirectoryObject`: a user, or
      another kind of directory object (a nested group, a contact, a device,
      a service principal), named by the client type it is read into, such as
      `Microsoft.Graph.Group`. */
  datatype DirectoryObject = UserObject(user: User) | OtherObject(typeName: string)

  /** A `User` sent in a PATCH: null name fields are not sent; the extension
      payload is the JSON object written under `ExtensionName`. */
  datatype UserPatch = UserPatch(
    displayName: Option<string>,
    givenName: Option<string>,
    surname: Option<string>,
    extension: JsonObject)

  /** One request to the directory. */
  datatype GraphCall =
    | UpdateUser(id: string, patch: UserPatch)
    | PutPhoto(id: string, content: seq<byte>)
    | Invite(displayName: string, givenName: Option<string>, email: Option<string>)
    | ListGroupMembers(page: nat)

  class GraphClient {
    /** Every request sent so far, oldest first. */
    var trace: seq<GraphCall>
    /** The members group's listing, page by page. */
    const memberPages: seq<seq<DirectoryObject>>
    /** How the directory answers a write: Some(message) when it rejects it. */
    const answer: GraphCall -> Option<string>

    constructor (memberPages: seq<seq<DirectoryObject>>, answer: GraphCall -> Option<string>)
      ensures trace == [] && this.memberPages == memberPages && this.answer == answer
    {
      trace := [];
      this.memberPages := memberPages;
      this.answer := answer;
    }

    /** Send a write; it fails with a `ServiceException` when the directory rejects it. */
    method Send(call: GraphCall) returns (error: Option<Exception>)
      modifies this
      ensures trace == old(trace) + [call]
      ensures error == Rejection(answer, call)
    {
      trace := trace + [call];
      error := Rejection(answer, call);
    }

    /** Fetch page `page` of the group listing and whether a next page follows.
        The first request always returns a page, empty when the group is. */
    method GetMembersPage(page: nat) returns (entries: seq<DirectoryObject>, hasNext: bool)
      modifies this
      ensures trace == old(trace) + [ListGroupMembers(page)]
      ensures entries == PageAt(memberPages, page)
      ensures hasNext <==> page + 1 < |memberPages|
    {
      trace := trace + [ListGroupMembers(page)];
      entries := PageAt(memberPages, page);
      hasNext := page + 1 < |memberPages|;
    }
  }

  function Rejection(answer: GraphCall -> Option<string>, call: GraphCall): (error: Option<Exception>)
    ensures error.Some? <==> answer(call).Some?
    ensures error.Some? ==> error.value.ServiceException?
  {
    match answer(call)
    case Some(message) => Some(ServiceException(message))
    case None => None
  }

  function PageAt(pages: seq<seq<DirectoryObject>>, page: nat): seq<DirectoryObject> {
    if page < |pages| then pages[page] else []
  }
}
