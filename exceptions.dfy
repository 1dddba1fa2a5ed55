/** The exceptions the user service raises, by kind, with their messages. */
module Exceptions {
  datatype Exception =
    | DuplicateEmailException(message: string)
    | UserNotFoundException(message: string)
    | UnauthorizedAccessException(message: string)
    | GenericException(message: string)

  /** The default messages of `DuplicateEmailException` and `UserNotFoundException`. */
  const DuplicateEmailMessage: string := "This email is already in use"
  const UserNotFoundMessage: string := "User not found"
}
