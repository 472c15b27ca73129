/** The `user` table's row, reduced to the fields the modelled services read or
    write. The integer columns are nullable. */
module UserEntity {

  import opened Wrappers

  /** Role codes: 0 an ordinary user, 1 an administrator, 2 a super
      administrator. */
  const ROLE_USER := 0
  const ROLE_ADMIN := 1
  const ROLE_SUPER_ADMIN := 2

  /** Status codes: 0 disabled, 1 normal. */
  const STATUS_DISABLED := 0
  const STATUS_NORMAL := 1

  /** One `user` row; `deleted` stands for a non-null deletedAt. */
  datatype User = User(
    username: string,
    phone: Option<string>,
    email: Option<string>,
    userType: Option<int>,
    status: Option<int>,
    role: Option<int>,
    deleted: bool)
}
