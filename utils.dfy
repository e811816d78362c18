/** The encoding limits shared by the input serializers. */
module Utils {

  /** Number of field elements a phrase is packed into. */
  const SECRET_FIELD_LENGTH: nat := 6

  /** Longest phrase accepted, in bytes: six chunks of 31 bytes would hold 186. */
  const MAX_SECRET_LENGTH: nat := 180

  /** Longest username accepted, in bytes. */
  const MAX_USERNAME_LENGTH: nat := 30
}
