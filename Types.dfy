/**
 * The entities of the user lifecycle engine: stored accounts, the transfer
 * record handed to and returned by the service, the authenticated caller,
 * the admin notification message and the errors the service raises.
 */
module Types {

  datatype Option<T> = None | Some(value: T)

  /** The two roles an account can hold. */
  datatype Role = USER | ADMIN

  /** The role's enum constant name, as `Role.name()` gives it. */
  function RoleName(r: Role): string {
    match r
    case USER => "USER"
    case ADMIN => "ADMIN"
  }

  /** A stored account; `password` holds the encoded password, never the plain text. */
  datatype User = User(
    id: nat,
    username: string,
    password: string,
    email: string,
    firstName: string,
    lastName: string,
    role: Role)

  /**
   * The transfer record. On input `password` is plain text (an absent
   * password is written as the empty string); on output it carries the
   * stored hash.
   */
  datatype UserDto = UserDto(
    id: nat,
    username: string,
    password: string,
    email: string,
    firstName: string,
    lastName: string,
    role: Role)

  /** The authenticated requester: its name and the authorities it was granted. */
  datatype Caller = Caller(name: string, authorities: seq<string>)

  /** What the service hands to the authentication step for a username. */
  datatype UserDetails = UserDetails(username: string, password: string, authorities: seq<string>)

  /** One message posted to the notification service. */
  datatype Notification = Notification(to: string, subject: string, text: string)

  /** The lifecycle events that trigger the admin fan-out. */
  datatype Action = Created | Updated | Deleted

  /** The exceptions the service throws, one constructor per message. */
  datatype Error =
    | UsernameExists
    | EmailExists
    | UserNotFound
    | UsernameNotFound(username: string)
    | AccessDenied
    | AdminAccessRequired

  /** The exception message of each error. */
  function Message(e: Error): string {
    match e
    case UsernameExists => "Username already exists"
    case EmailExists => "Email already exists"
    case UserNotFound => "User not found"
    case UsernameNotFound(name) => "User not found: " + name
    case AccessDenied => "Access denied"
    case AdminAccessRequired => "Admin access required"
  }

  datatype Result<T> = Ok(value: T) | Err(error: Error)

  /** The result of an operation that returns nothing on success. */
  datatype Outcome = Pass | Fail(error: Error)
}
