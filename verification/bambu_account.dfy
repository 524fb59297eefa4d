/** One stored account and its JSON form (the `BambuAccount` struct). */
module BambuAccounts {
  import opened Results
  import opened Json

  /** The six fields of a stored account; `userId` is the key the manager looks records up by. */
  datatype BambuAccount = BambuAccount(
    userId: string,
    userName: string,
    nickname: string,
    avatarUrl: string,
    authToken: string,
    isActive: bool)

  /** The default constructor: empty strings, not active. */
  function Default(): BambuAccount {
    BambuAccount("", "", "", "", "", false)
  }

  const UserIdKey: string := "user_id"
  const UserNameKey: string := "user_name"
  const NicknameKey: string := "nickname"
  const AvatarUrlKey: string := "avatar_url"
  const AuthTokenKey: string := "auth_token"
  const IsActiveKey: string := "is_active"

  /** The keys `to_json` writes and `from_json` reads. */
  const Keys: set<string> := {UserIdKey, UserNameKey, NicknameKey, AvatarUrlKey, AuthTokenKey, IsActiveKey}

  /** `to_json`: an object with one entry per field. */
  function ToJson(a: BambuAccount): JVal {
    JObject(map[
      UserIdKey := JString(a.userId),
      UserNameKey := JString(a.userName),
      NicknameKey := JString(a.nickname),
      AvatarUrlKey := JString(a.avatarUrl),
      AuthTokenKey := JString(a.authToken),
      IsActiveKey := JBool(a.isActive)])
  }

  /** The library's type error: `get<T>()` on a value of another kind. */
  datatype DecodeError = TypeError(key: string, found: JVal)

  /** Reads a string field: the fallback when the key is absent, an error when the value is not a string. */
  function StringField(j: JVal, key: string, fallback: string): Result<string, DecodeError> {
    if !Contains(j, key) then Success(fallback)
    else match j.members[key]
      case JString(s) => Success(s)
      case other => Failure(TypeError(key, other))
  }

  /** Reads a Boolean field, like `StringField`. */
  function BoolField(j: JVal, key: string, fallback: bool): Result<bool, DecodeError> {
    if !Contains(j, key) then Success(fallback)
    else match j.members[key]
      case JBool(b) => Success(b)
      case other => Failure(TypeError(key, other))
  }

  /** `from_json`: starts from the default account and overwrites each field whose key is present. */
  function FromJson(j: JVal): Result<BambuAccount, DecodeError> {
    var d := Default();
    var userId :- StringField(j, UserIdKey, d.userId);
    var userName :- StringField(j, UserNameKey, d.userName);
    var nickname :- StringField(j, NicknameKey, d.nickname);
    var avatarUrl :- StringField(j, AvatarUrlKey, d.avatarUrl);
    var authToken :- StringField(j, AuthTokenKey, d.authToken);
    var isActive :- BoolField(j, IsActiveKey, d.isActive);
    Success(BambuAccount(userId, userName, nickname, avatarUrl, authToken, isActive))
  }

  /** Present under `key` with a value other than a string. */
  predicate BadString(j: JVal, key: string) {
    Contains(j, key) && !j.members[key].JString?
  }

  /** Every one of the six keys that is present holds a value of the field's kind. */
  predicate WellTyped(j: JVal) {
    !BadString(j, UserIdKey) && !BadString(j, UserNameKey) && !BadString(j, NicknameKey) &&
    !BadString(j, AvatarUrlKey) && !BadString(j, AuthTokenKey) &&
    !(Contains(j, IsActiveKey) && !j.members[IsActiveKey].JBool?)
  }

  /** The string under `key`, or the empty string of the default account. */
  function StringOr(j: JVal, key: string): string {
    if Contains(j, key) && j.members[key].JString? then j.members[key].str else ""
  }

  /** `to_json` writes exactly the six keys, each carrying its field's value with its kind. */
  lemma ToJsonShape(a: BambuAccount)
    ensures ToJson(a).JObject? && ToJson(a).members.Keys == Keys
    ensures ToJson(a).members[UserIdKey] == JString(a.userId)
    ensures ToJson(a).members[UserNameKey] == JString(a.userName)
    ensures ToJson(a).members[NicknameKey] == JString(a.nickname)
    ensures ToJson(a).members[AvatarUrlKey] == JString(a.avatarUrl)
    ensures ToJson(a).members[AuthTokenKey] == JString(a.authToken)
    ensures ToJson(a).members[IsActiveKey] == JBool(a.isActive)
  {
  }

  /** Decoding what was encoded gives back the same account. */
  lemma RoundTrip(a: BambuAccount)
    ensures FromJson(ToJson(a)) == Success(a)
  {
    var m := ToJson(a).members;
    assert m[UserIdKey] == JString(a.userId);
    assert m[IsActiveKey] == JBool(a.isActive);
  }

  /** `from_json` throws exactly when one of the six keys is present with a value of the wrong kind. */
  lemma FromJsonFailsIffIllTyped(j: JVal)
    ensures FromJson(j).Failure? <==> !WellTyped(j)
  {
  }

  /**
   * A successful `from_json` copies each present key and leaves each absent one at the
   * default (empty string, not active); anything that is not an object decodes to the default account.
   */
  lemma FromJsonFields(j: JVal)
    requires WellTyped(j)
    ensures FromJson(j).Success?
    ensures FromJson(j).value.userId == StringOr(j, UserIdKey)
    ensures FromJson(j).value.userName == StringOr(j, UserNameKey)
    ensures FromJson(j).value.nickname == StringOr(j, NicknameKey)
    ensures FromJson(j).value.avatarUrl == StringOr(j, AvatarUrlKey)
    ensures FromJson(j).value.authToken == StringOr(j, AuthTokenKey)
    ensures FromJson(j).value.isActive == (Contains(j, IsActiveKey) && j.members[IsActiveKey].b)
    ensures !j.JObject? ==> FromJson(j) == Success(Default())
  {
  }

  /** The two objects hold the same thing under `key`, or both lack it. */
  predicate AgreeOn(m1: map<string, JVal>, m2: map<string, JVal>, key: string) {
    (key in m1 <==> key in m2) && (key in m1 ==> m1[key] == m2[key])
  }

  /** Keys other than the six are ignored: objects that agree on the six decode alike. */
  lemma FromJsonIgnoresOtherKeys(m1: map<string, JVal>, m2: map<string, JVal>)
    requires forall key :: key in Keys ==> AgreeOn(m1, m2, key)
    ensures FromJson(JObject(m1)) == FromJson(JObject(m2))
  {
    assert AgreeOn(m1, m2, UserIdKey) && AgreeOn(m1, m2, UserNameKey) && AgreeOn(m1, m2, NicknameKey);
    assert AgreeOn(m1, m2, AvatarUrlKey) && AgreeOn(m1, m2, AuthTokenKey) && AgreeOn(m1, m2, IsActiveKey);
  }
}
