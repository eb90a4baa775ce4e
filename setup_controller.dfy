/**
 * `SetupController.AddMembers`: the bulk import of members from a CSV file.
 * The file must start with the UTF-8 byte-order mark EF BB BF (section 6 of
 * RFC 3629); then one invitation is sent per record, in file order, with the
 * names and address trimmed.
 */
module Setup {
  import opened Runtime
  import opened Text
  import opened Graph
  import opened Services
  import opened Mvc
  import opened Models
  import opened Streams

  const MissingBom := ArgumentException("CSV is missing BOM", "CsvFile")

  /** What reading the records out of the file yields: `GetRecords` is lazy,
      so the records come one at a time, and a malformed row or an invalid
      UTF-8 sequence throws only when the loop asks for the record it spoils.
      `records` are the records yielded before that, `failure` what is thrown
      then, if anything. */
  datatype ParsedRecords = ParsedRecords(records: seq<ImportMember>, failure: Option<Exception>)

  /** The file starts with the UTF-8 byte-order mark. */
  predicate HasUtf8Bom(file: seq<byte>) {
    |file| >= 3 && file[0] == 0xEF && file[1] == 0xBB && file[2] == 0xBF
  }

  /** `s?.Trim()`. */
  function TrimOrNull(s: Option<string>): Option<string>
  {
    match s
    case None => None
    case Some(v) => Some(Trim(v))
  }

  /** A null reference interpolated into a string reads as the empty string. */
  function Interpolated(s: Option<string>): string {
    s.GetOr("")
  }

  /** The invitation a record turns into. */
  function InviteFor(m: ImportMember): (c: GraphCall)
    ensures c.Invite?
  {
    Invite(Interpolated(TrimOrNull(m.firstName)) + " " + Interpolated(TrimOrNull(m.lastName)),
           TrimOrNull(m.firstName), TrimOrNull(m.eMail))
  }

  /** The invitation's arguments: display name `first last`, each trimmed and
      a missing one empty; given name the trimmed first name and address the
      trimmed e-mail, each null when missing rather than empty. */
  lemma InviteArguments(m: ImportMember)
    ensures var c := InviteFor(m);
      && c.displayName == Interpolated(TrimOrNull(m.firstName)) + " " + Interpolated(TrimOrNull(m.lastName))
      && (c.givenName.Some? <==> m.firstName.Some?)
      && (c.email.Some? <==> m.eMail.Some?)
      && (m.firstName.Some? ==> c.givenName.value == Trim(m.firstName.value) && c.givenName.value <= c.displayName)
      && (m.firstName.None? ==> c.displayName[0] == ' ')
      && (m.eMail.Some? ==> c.email.value == Trim(m.eMail.value))
  {
  }

  /** The invitations the loop sends, in record order, and the exception that
      stops it: the loop goes on until a request is rejected. */
  function InviteAll(answer: GraphCall -> Option<string>, records: seq<ImportMember>)
    : (o: (seq<GraphCall>, Option<Exception>))
    ensures |o.0| <= |records|
    ensures o.1.Some? ==> o.0 != []
  {
    if records == [] then ([], None)
    else
      var call := InviteFor(records[0]);
      match Rejection(answer, call)
      case Some(error) => ([call], Some(error))
      case None =>
        var rest := InviteAll(answer, records[1..]);
        ([call] + rest.0, rest.1)
  }

  /** The loop sends the invitation of each record in turn. */
  lemma {:induction false} InviteAllInOrder(answer: GraphCall -> Option<string>, records: seq<ImportMember>)
    ensures var o := InviteAll(answer, records);
      forall i :: 0 <= i < |o.0| ==> o.0[i] == InviteFor(records[i])
  {
    if records != [] && Rejection(answer, InviteFor(records[0])).None? {
      InviteAllInOrder(answer, records[1..]);
      var rest := InviteAll(answer, records[1..]).0;
      forall i | 0 < i <= |rest| ensures ([InviteFor(records[0])] + rest)[i] == InviteFor(records[i]) {
        assert records[i] == records[1..][i - 1];
      }
    }
  }

  /** Every invitation but the last was accepted, and the last one too when
      the loop ends without an exception. */
  lemma {:induction false} InviteAllAccepted(answer: GraphCall -> Option<string>, records: seq<ImportMember>)
    ensures var o := InviteAll(answer, records);
      && (forall i :: 0 <= i < |o.0| - 1 ==> answer(o.0[i]).None?)
      && (o.1.None? ==> forall i :: 0 <= i < |o.0| ==> answer(o.0[i]).None?)
  {
    if records != [] && Rejection(answer, InviteFor(records[0])).None? {
      InviteAllAccepted(answer, records[1..]);
      var rest := InviteAll(answer, records[1..]).0;
      assert forall i :: 0 < i <= |rest| ==> ([InviteFor(records[0])] + rest)[i] == rest[i - 1];
    }
  }

  /** The loop stops early only at a rejection, and ends with that rejection's
      exception; otherwise it has sent one invitation per record. */
  lemma {:induction false} InviteAllStops(answer: GraphCall -> Option<string>, records: seq<ImportMember>)
    ensures var o := InviteAll(answer, records);
      && (o.1.None? ==> |o.0| == |records|)
      && (o.1.Some? ==> o.1 == Rejection(answer, o.0[|o.0| - 1]))
  {
    if records != [] && Rejection(answer, InviteFor(records[0])).None? {
      InviteAllStops(answer, records[1..]);
      var rest := InviteAll(answer, records[1..]).0;
      assert rest != [] ==> ([InviteFor(records[0])] + rest)[|rest|] == rest[|rest| - 1];
    }
  }

  /** The invitations of the import and the exception it ends with: the
      first rejection, else the read failure that ended the records. */
  function ImportOutcome(answer: GraphCall -> Option<string>, parsed: ParsedRecords)
    : (seq<GraphCall>, Option<Exception>)
  {
    var sent := InviteAll(answer, parsed.records);
    (sent.0, if sent.1.Some? then sent.1 else parsed.failure)
  }

  /** When no invitation is rejected, the import ends with the read failure,
      if any, and only after every record before it has been invited and
      accepted, in order. */
  lemma InvitesBeforeReadFailure(answer: GraphCall -> Option<string>, parsed: ParsedRecords)
    requires InviteAll(answer, parsed.records).1.None?
    ensures var o := ImportOutcome(answer, parsed);
      && o.1 == parsed.failure
      && |o.0| == |parsed.records|
      && forall i :: 0 <= i < |o.0| ==> o.0[i] == InviteFor(parsed.records[i]) && answer(o.0[i]).None?
  {
    InviteAllInOrder(answer, parsed.records);
    InviteAllAccepted(answer, parsed.records);
    InviteAllStops(answer, parsed.records);
  }

  class SetupController {
    const users: UsersService

    constructor (users: UsersService)
      ensures this.users == users
    {
      this.users := users;
    }

    /** `AddMembers(model)`. `parse` stands for reading the records out of the
        file's bytes, up to the first read failure. */
    method AddMembers(model: AddMembersRequestModel, modelState: ModelStateDictionary,
                      parse: seq<byte> -> ParsedRecords)
      returns (r: ActionResult<AddMembersRequestModel>)
      modifies users.graph
      ensures !modelState.IsValid() ==> r == View(Some(model)) && users.graph.trace == old(users.graph.trace)
      ensures modelState.IsValid() && model.csvFile.None? ==>
        r == Thrown(NullReferenceException) && users.graph.trace == old(users.graph.trace)
      ensures modelState.IsValid() && model.csvFile.Some? && !HasUtf8Bom(model.csvFile.value) ==>
        r == Thrown(MissingBom) && users.graph.trace == old(users.graph.trace)
      ensures modelState.IsValid() && model.csvFile.Some? && HasUtf8Bom(model.csvFile.value) ==>
        var o := ImportOutcome(users.graph.answer, parse(model.csvFile.value));
        && users.graph.trace == old(users.graph.trace) + o.0
        && r == if o.1.Some? then Thrown(o.1.value) else RedirectToAction("Index")
      ensures (forall e :: e in ValidateAddMembers(model) ==> e in modelState.errors) && model.csvFile.None? ==>
        r == View(Some(model)) && users.graph.trace == old(users.graph.trace)
    {
      if model.csvFile.None? {
        assert CsvFileRequired in ValidateAddMembers(model);
      }
      if !modelState.IsValid() {
        return View(Some(model));
      }
      if model.csvFile.None? {
        return Thrown(NullReferenceException);
      }
      var ms, isUtf8 := CopyAndPeek(model.csvFile.value);
      if !isUtf8 {
        return Thrown(MissingBom);
      }

      ms.position := 0;
      var parsed := parse(ms.buffer[ms.position..]);
      assert parsed == parse(model.csvFile.value);

      var error := SendInvites(parsed.records);
      if error.Some? {
        return Thrown(error.value);
      }
      if parsed.failure.Some? {
        return Thrown(parsed.failure.value);
      }
      return RedirectToAction("Index");
    }

    /** Copy the upload into a fresh stream and peek at its first three bytes
        for the byte-order mark; a shorter file leaves the rest of the header
        zero. */
    static method CopyAndPeek(file: seq<byte>) returns (ms: MemoryStream, isUtf8: bool)
      ensures fresh(ms) && ms.Valid() && ms.buffer == file
      ensures isUtf8 <==> HasUtf8Bom(file)
    {
      ms := new MemoryStream();
      ms.Write(file);
      ms.position := 0;

      var header := new byte[3](_ => 0);
      var _ := ms.Read(header, 0, 3);
      isUtf8 := header[0] == 0xEF && header[1] == 0xBB && header[2] == 0xBF;
      assert isUtf8 <==> HasUtf8Bom(file) by {
        if |ms.buffer| >= 3 {
          assert header[..3] == ms.buffer[..3];
        } else {
          assert header[2] == 0;
        }
      }
    }

    /** The body of the loop: invite one record with its names and address
        trimmed. */
    method Invite(member: ImportMember) returns (error: Option<Exception>)
      modifies users.graph
      ensures users.graph.trace == old(users.graph.trace) + [InviteFor(member)]
      ensures error == Rejection(users.graph.answer, InviteFor(member))
    {
      error := users.InviteMember(Interpolated(TrimOrNull(member.firstName)) + " " + Interpolated(TrimOrNull(member.lastName)),
                                  TrimOrNull(member.firstName), TrimOrNull(member.eMail));
    }

    /** The loop of `AddMembers`: one invitation per record, in order, until
        one is rejected. */
    method SendInvites(members: seq<ImportMember>) returns (error: Option<Exception>)
      modifies users.graph
      ensures users.graph.trace == old(users.graph.trace) + InviteAll(users.graph.answer, members).0
      ensures error == InviteAll(users.graph.answer, members).1
    {
      ghost var answer := users.graph.answer;
      ghost var total := InviteAll(answer, members);
      ghost var sent: seq<GraphCall> := [];
      ghost var start := users.graph.trace;
      var i := 0;
      assert members[i..] == members;
      assert total.0 == sent + total.0;
      while i < |members|
        invariant i <= |members|
        invariant users.graph.answer == answer
        invariant users.graph.trace == start + sent
        invariant total.0 == sent + InviteAll(answer, members[i..]).0
        invariant total.1 == InviteAll(answer, members[i..]).1
      {
        InviteStep(answer, members, i, total, sent);
        error := Invite(members[i]);
        sent := sent + [InviteFor(members[i])];
        if error.Some? {
          return;
        }
        i := i + 1;
      }
      assert members[i..] == [];
      assert sent + [] == sent;
      error := None;
    }
  }

  /** Sending record `i` unfolds what is left to send from record `i` on:
      its invitation, then, unless it was rejected, the rest from `i + 1` on. */
  lemma InviteAllUnfold(answer: GraphCall -> Option<string>, members: seq<ImportMember>, i: nat)
    requires i < |members|
    ensures var call := InviteFor(members[i]);
      InviteAll(answer, members[i..]) ==
        if Rejection(answer, call).Some? then ([call], Rejection(answer, call))
        else ([call] + InviteAll(answer, members[i + 1..]).0, InviteAll(answer, members[i + 1..]).1)
  {
    assert members[i..][0] == members[i] && members[i..][1..] == members[i + 1..];
  }

  /** One turn of the loop: when `sent` followed by what is left to send from
      record `i` on makes up `total`, sending record `i` either completes
      `total` with its rejection or leaves the rest from record `i + 1` on. */
  lemma InviteStep(answer: GraphCall -> Option<string>, members: seq<ImportMember>, i: nat,
                   total: (seq<GraphCall>, Option<Exception>), sent: seq<GraphCall>)
    requires i < |members|
    requires total.0 == sent + InviteAll(answer, members[i..]).0
    requires total.1 == InviteAll(answer, members[i..]).1
    ensures var call := InviteFor(members[i]);
      if Rejection(answer, call).Some? then
        total.0 == sent + [call] && total.1 == Rejection(answer, call)
      else
        && total.0 == (sent + [call]) + InviteAll(answer, members[i + 1..]).0
        && total.1 == InviteAll(answer, members[i + 1..]).1
  {
    InviteAllUnfold(answer, members, i);
    var call := InviteFor(members[i]);
    var rest := InviteAll(answer, members[i + 1..]).0;
    assert sent + ([call] + rest) == (sent + [call]) + rest;
  }

  /** Two well-formed records lead to exactly two invitations, in file order. */
  lemma TwoRecordsTwoInvites(answer: GraphCall -> Option<string>, a: ImportMember, b: ImportMember)
    requires answer(InviteFor(a)).None? && answer(InviteFor(b)).None?
    ensures InviteAll(answer, [a, b]) == ([InviteFor(a), InviteFor(b)], None)
  {
    assert Rejection(answer, InviteFor(a)).None? && Rejection(answer, InviteFor(b)).None?;
    assert [b][0] == b && [b][1..] == [];
    assert InviteAll(answer, []) == ([], None);
    assert InviteAll(answer, [b]) == ([InviteFor(b)] + [], None);
    assert [InviteFor(b)] + [] == [InviteFor(b)];
    assert [a, b][0] == a && [a, b][1..] == [b];
    assert InviteAll(answer, [a, b]) == ([InviteFor(a)] + [InviteFor(b)], None);
    assert [InviteFor(a)] + [InviteFor(b)] == [InviteFor(a), InviteFor(b)];
  }
}
