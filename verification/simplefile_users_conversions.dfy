/**
 * User record conversions of the simplefile store
 * (store/simplefile/sqlite/users_conversions.cc): the same mapping as the
 * SFS store, plus two lookup columns holding the first access key.
 */
module SimpleFileUserConversions {
  import opened Wrappers
  import opened ConversionUtils
  import StringOrder
  import opened SfsUserConversions

  /** The simplefile row: the shared columns plus AccessKeysID and AccessKeysSecret. */
  datatype SfDbUser = SfDbUser(row: DbUser, accessKeysId: Option<string>, accessKeysSecret: Option<string>)

  /** The key std::map::begin() reaches: the least access-key id. */
  function FirstAccessKey(keys: AccessKeys): (k: AccessKey)
    requires keys != map[]
    ensures exists name :: (name in keys && keys[name] == k
      && forall other :: other in keys && other != name ==> StringOrder.LexLess(name, other))
  {
    assert keys.Keys != {} by {
      var n :| n in keys;
      assert n in keys.Keys;
    }
    keys[StringOrder.Least(keys.Keys)]
  }

  /** getDBUser with a 64-bit version column: the shared columns, and the first
    * access key's id and secret (each stored only when non-empty). */
  function GetDbUser<S>(x: UserInfo<S>, c: Codec<S>): (r: SfDbUser)
    ensures r.row == SfsUserConversions.GetDbUser(x, c)
    ensures x.accessKeys == map[] ==> r.accessKeysId.None? && r.accessKeysSecret.None?
    ensures x.accessKeys != map[] ==>
      r.accessKeysId == AssignDbString(FirstAccessKey(x.accessKeys).id, None)
      && r.accessKeysSecret == AssignDbString(FirstAccessKey(x.accessKeys).key, None)
  {
    var row := SfsUserConversions.GetDbUser(x, c);
    if x.accessKeys == map[] then SfDbUser(row, None, None)
    else
      var k := FirstAccessKey(x.accessKeys);
      SfDbUser(row, AssignDbString(k.id, None), AssignDbString(k.key, None))
  }

  /** getDBUser as written: the UserVersion column is an optional int, so the
    * version is narrowed to 32 bits on the way in. */
  function GetDbUserAsWritten<S>(x: UserInfo<S>, c: Codec<S>): (r: SfDbUser)
    ensures r.row == SfsUserConversions.GetDbUserAsWritten(x, c)
    ensures r.accessKeysId == GetDbUser(x, c).accessKeysId && r.accessKeysSecret == GetDbUser(x, c).accessKeysSecret
  {
    GetDbUser(x, c).(row := SfsUserConversions.GetDbUserAsWritten(x, c))
  }

  /** With the 32-bit column, a user at version 2^31 reads back at a different version. */
  lemma VersionLostAsWritten<S(!new)>(x: UserInfo<S>, d: UserInfo<S>, c: Codec<S>)
    requires x.version == 0x8000_0000
    ensures GetRgwUser(GetDbUserAsWritten(x, c), d, c).version != x.version
  {
    SfsUserConversions.VersionLostAsWritten(x, d, c);
  }

  /** getRGWUser: reads the shared columns only; the lookup columns are not read back. */
  function GetRgwUser<S>(u: SfDbUser, d: UserInfo<S>, c: Codec<S>): (r: UserInfo<S>)
    ensures r.id == u.row.userId
  {
    SfsUserConversions.GetRgwUser(u.row, d, c)
  }

  /** The lookup columns do not influence the user read back. */
  lemma LookupColumnsIgnored<S>(u: SfDbUser, id2: Option<string>, secret2: Option<string>,
                                d: UserInfo<S>, c: Codec<S>)
    ensures GetRgwUser(u.(accessKeysId := id2, accessKeysSecret := secret2), d, c) == GetRgwUser(u, d, c)
  {
  }

  /** Storing a user and reading it back gives the same user. */
  lemma UserRoundTrip<S(!new)>(x: UserInfo<S>, d: UserInfo<S>, c: Codec<S>)
    requires Sound(c) && StringDefaultsEmpty(d)
    ensures GetRgwUser(GetDbUser(x, c), d, c) == x
  {
    SfsUserConversions.UserRoundTrip(x, d, c);
  }

  /** The lookup id is the least key's id: a user found by it is the one whose
    * first key it is. */
  lemma LookupIdIsFirstKey<S>(x: UserInfo<S>, c: Codec<S>, name: string)
    requires name in x.accessKeys && x.accessKeys[name].id != ""
    requires forall other :: other in x.accessKeys && other != name ==> StringOrder.LexLess(name, other)
    ensures GetDbUser(x, c).accessKeysId == Some(x.accessKeys[name].id)
  {
    var least := StringOrder.Least(x.accessKeys.Keys);
    StringOrder.LeastUnique(least, name, x.accessKeys.Keys);
  }
}
