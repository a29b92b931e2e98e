/** The `User` entity, one row of the `Users` table. */
module Users {
  import opened DotNet

  /** Every string column is a non-nullable `string`, so none holds null. */
  datatype User = User(
    id: Guid,
    name: string,
    nickName: string,
    password: string,
    email: string,
    upDateTime: DateTime,
    createDateTime: DateTime)

  /** No two rows carry the same email. */
  predicate DistinctEmails(users: seq<User>)
  {
    forall i, j :: 0 <= i < j < |users| ==> users[i].email != users[j].email
  }

  /** No two rows carry the same user name. */
  predicate DistinctNames(users: seq<User>)
  {
    forall i, j :: 0 <= i < j < |users| ==> users[i].name != users[j].name
  }

  /** The table invariant that registration keeps: no two users share an
      email and no two share a name. */
  predicate UniqueUsers(users: seq<User>)
  {
    DistinctEmails(users) && DistinctNames(users)
  }
}
