/**
 * The entities of the Users API (namespace Users.Api.Models): the persisted
 * user record, its globally unique identifier, and the exception objects
 * that the storage layer can raise.
 */
module Models {

  /** A 128-bit GUID (System.Guid); equality is the only operation used on it. */
  newtype Guid = x: int | 0 <= x < 0x1_0000_0000_0000_0000_0000_0000_0000_0000

  /** Guid.Empty, the all-zero identifier, which Guid.NewGuid never returns. */
  const EmptyGuid: Guid := 0

  /** A user record: its identifier and its full name. */
  datatype User = User(id: Guid, fullName: string)

  /**
   * An exception object raised by the storage layer. Object identity is
   * modelled by `token`: two exceptions are the same object exactly when
   * they are equal values.
   */
  datatype Exception = Exception(token: nat, message: string)
}
