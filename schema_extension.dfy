/**
 * `MemberSchemaExtension`, the payload stored under the directory's
 * `dotnetfoundation_member` schema extension, and the JSON object the
 * serializer makes of it. The serializer runs in opt-in mode: only the five
 * annotated properties take part. The three social properties are written
 * even when null; the expiration and the activity flag are left out when null.
 */
module SchemaExtension {
  import opened Runtime

  /** A JSON value as the serializer writes and reads it. */
  datatype JsonValue = JNull | JString(s: string) | JBool(b: bool) | JDate(t: Instant)

  type JsonObject = map<string, JsonValue>

  datatype MemberSchemaExtension = MemberSchemaExtension(
    twitterId: Option<string>,
    blogUrl: Option<string>,
    gitHubId: Option<string>,
    expirationDateTime: Option<Instant>,
    isActive: Option<bool>)

  const TwitterIdKey := "twitterId"
  const BlogUrlKey := "blogUrl"
  const GitHubIdKey := "githubId"
  const ExpirationDateTimeKey := "expirationDateTime"
  const IsActiveKey := "isActive"

  /** The keys of the properties marked for serialization. */
  const AnnotatedKeys: set<string> :=
    {TwitterIdKey, BlogUrlKey, GitHubIdKey, ExpirationDateTimeKey, IsActiveKey}

  /** A payload with nothing set, `new MemberSchemaExtension()`. */
  const Unset := MemberSchemaExtension(None, None, None, None, None)

  function StringToJson(s: Option<string>): JsonValue {
    match s
    case None => JNull
    case Some(v) => JString(v)
  }

  /** Serialize the annotated properties; null social properties become
      explicit nulls, a null expiration or flag is omitted. */
  function Serialize(e: MemberSchemaExtension): (m: JsonObject)
    ensures m.Keys <= AnnotatedKeys
    ensures TwitterIdKey in m && BlogUrlKey in m && GitHubIdKey in m
    ensures m[TwitterIdKey] == JNull <==> e.twitterId.None?
    ensures m[BlogUrlKey] == JNull <==> e.blogUrl.None?
    ensures m[GitHubIdKey] == JNull <==> e.gitHubId.None?
    ensures ExpirationDateTimeKey in m <==> e.expirationDateTime.Some?
    ensures IsActiveKey in m <==> e.isActive.Some?
    ensures JNull !in m.Values - {m[TwitterIdKey], m[BlogUrlKey], m[GitHubIdKey]}
  {
    var social := map[TwitterIdKey := StringToJson(e.twitterId),
                       BlogUrlKey := StringToJson(e.blogUrl),
                       GitHubIdKey := StringToJson(e.gitHubId)];
    var withExpiration := match e.expirationDateTime
      case Some(t) => social[ExpirationDateTimeKey := JDate(t)]
      case None => social;
    match e.isActive
    case Some(b) => withExpiration[IsActiveKey := JBool(b)]
    case None => withExpiration
  }

  /** Read one string property: absent or null reads as null, a value of
      another kind is a conversion error. */
  function ReadString(m: JsonObject, key: string): Option<Option<string>> {
    if key !in m then Some(None)
    else match m[key]
      case JNull => Some(None)
      case JString(s) => Some(Some(s))
      case _ => None
  }

  function ReadDate(m: JsonObject, key: string): Option<Option<Instant>> {
    if key !in m then Some(None)
    else match m[key]
      case JNull => Some(None)
      case JDate(t) => Some(Some(t))
      case _ => None
  }

  function ReadBool(m: JsonObject, key: string): Option<Option<bool>> {
    if key !in m then Some(None)
    else match m[key]
      case JNull => Some(None)
      case JBool(b) => Some(Some(b))
      case _ => None
  }

  /** The kind of value each annotated property takes: a string for the social
      properties, a date for the expiration, a boolean for the flag; null
      fits all of them. */
  predicate KindFits(key: string, v: JsonValue) {
    v.JNull? ||
    if key == ExpirationDateTimeKey then v.JDate?
    else if key == IsActiveKey then v.JBool?
    else v.JString?
  }

  /** `JToken.ToObject<MemberSchemaExtension>()` on a JSON object: unknown keys
      are ignored, absent ones leave the property null, and None stands for
      the conversion error thrown when a value has the wrong kind. */
  function Deserialize(m: JsonObject): (r: Option<MemberSchemaExtension>)
    ensures r.None? <==> exists k :: k in AnnotatedKeys && k in m && !KindFits(k, m[k])
    ensures r.Some? ==> (r.value.isActive.Some? ==> IsActiveKey in m && m[IsActiveKey] == JBool(r.value.isActive.value))
    ensures r.Some? ==> (r.value.expirationDateTime.Some? ==> ExpirationDateTimeKey in m)
    ensures (forall k :: k in m ==> k !in AnnotatedKeys) ==> r == Some(Unset)
  {
    match (ReadString(m, TwitterIdKey), ReadString(m, BlogUrlKey), ReadString(m, GitHubIdKey),
           ReadDate(m, ExpirationDateTimeKey), ReadBool(m, IsActiveKey))
    case (Some(twitter), Some(blog), Some(github), Some(expiration), Some(active)) =>
      Some(MemberSchemaExtension(twitter, blog, github, expiration, active))
    case _ => None
  }

  /** Reading back what was written gives the same five property values. */
  lemma RoundTrip(e: MemberSchemaExtension)
    ensures Deserialize(Serialize(e)) == Some(e)
  {
    var m := Serialize(e);
    assert ReadString(m, TwitterIdKey) == Some(e.twitterId);
    assert ReadString(m, BlogUrlKey) == Some(e.blogUrl);
    assert ReadString(m, GitHubIdKey) == Some(e.gitHubId);
  }

  /** Writing what was read gives back the annotated part of the object, up
      to the nulls the serializer normalises: absent social keys come back as
      explicit nulls, explicit nulls for the expiration or flag are dropped. */
  lemma ReserializeNormalises(m: JsonObject)
    requires Deserialize(m).Some?
    ensures var n := Serialize(Deserialize(m).value);
      forall k :: k in AnnotatedKeys ==>
        (if k in m && m[k] != JNull then k in n && n[k] == m[k]
         else if k in {TwitterIdKey, BlogUrlKey, GitHubIdKey} then k in n && n[k] == JNull
         else k !in n)
  {
    var e := Deserialize(m).value;
    var n := Serialize(e);
    forall k | k in AnnotatedKeys
      ensures if k in m && m[k] != JNull then k in n && n[k] == m[k]
              else if k in {TwitterIdKey, BlogUrlKey, GitHubIdKey} then k in n && n[k] == JNull
              else k !in n
    {
      if k == TwitterIdKey {
        assert ReadString(m, k) == Some(e.twitterId);
      } else if k == BlogUrlKey {
        assert ReadString(m, k) == Some(e.blogUrl);
      } else if k == GitHubIdKey {
        assert ReadString(m, k) == Some(e.gitHubId);
      } else if k == ExpirationDateTimeKey {
        assert ReadDate(m, k) == Some(e.expirationDateTime);
      } else {
        assert ReadBool(m, k) == Some(e.isActive);
      }
    }
  }

  /** ASCII letters compared without regard to case. */
  function FoldAscii(c: char): char {
    if 'A' <= c <= 'Z' then (c as int + 32) as char else c
  }

  /** The two names are equal up to the case of ASCII letters, as the
      serializer's fallback property match compares them. */
  predicate SameIgnoringCase(a: string, b: string) {
    |a| == |b| && forall i :: 0 <= i < |a| ==> FoldAscii(a[i]) == FoldAscii(b[i])
  }

  /** Keys that are not one of the five annotated ones, even up to case, make
      no difference to reading. */
  lemma DeserializeIgnoresUnknownKeys(m: JsonObject, extra: JsonObject)
    requires forall k, a :: k in extra && a in AnnotatedKeys ==> !SameIgnoringCase(k, a)
    ensures Deserialize(m + extra) == Deserialize(m)
  {
    forall a | a in AnnotatedKeys ensures a !in extra {
      assert SameIgnoringCase(a, a);
    }
    var u := m + extra;
    assert ReadString(u, TwitterIdKey) == ReadString(m, TwitterIdKey);
    assert ReadString(u, BlogUrlKey) == ReadString(m, BlogUrlKey);
    assert ReadString(u, GitHubIdKey) == ReadString(m, GitHubIdKey);
    assert ReadDate(u, ExpirationDateTimeKey) == ReadDate(m, ExpirationDateTimeKey);
    assert ReadBool(u, IsActiveKey) == ReadBool(m, IsActiveKey);
  }
}
