/** The records of sso/internal/domain/models (not part of this model) as the
    core uses them. */
module Models {

  type Bytes = seq<bv8>

  /** `models.User`: the row of the users table a login works with. */
  datatype User = User(id: int, email: string, passHash: Bytes, roles: seq<string>)

  /** `models.App`: a tenant and the secret its tokens are signed with. */
  datatype App = App(id: int, name: string, secret: string)

  /** The zero values a lookup returns when its statement failed before `Scan`
      assigned anything. */
  const ZeroUser: User := User(0, "", [], [])
  const ZeroApp: App := App(0, "", "")
}
