/** The user record and its parts. */
module SecurityObjects {
  import opened Common

  datatype Role = UNKNOWN | ROOT | ADMIN | SUBSCRIBER | CSR | SYSTEM | INSTALLER | NOC | ACCOUNTING | PARTNER

  datatype Note = Note(created: u64, createdBy: string, note: string)

  datatype Mobile = Mobile(number: string, verified: bool, primary: bool)

  /** The name of a second-factor method: one of the three known ones, or any other text. */
  datatype Channel = SMS | EMAIL | AUTHENTICATOR | Other(text: string)

  predicate KnownMethod(c: Channel) {
    !c.Other?
  }

  const NO_METHOD: Channel := Other("")

  datatype MfaConfig = MfaConfig(enabled: bool, channel: Channel)

  /** What the record keeps about second factors. */
  datatype LoginExtensions = LoginExtensions(mfa: MfaConfig, mobiles: seq<Mobile>, authenticatorSecret: string)

  datatype UserInfo = UserInfo(
    id: UserId, email: string, name: string, description: string, location: string, locale: string,
    owner: string, createdBy: UserId, userRole: Role, suspended: bool, blackListed: bool,
    validated: bool, waitingForEmailCheck: bool, changePassword: bool,
    currentPassword: string, lastPasswords: seq<string>, lastPasswordChange: u64, lastEmailCheck: u64,
    validationDate: u64, ext: LoginExtensions, notes: seq<Note>, modified: u64)

  // ---------- Action links ----------

  datatype Action = FORGOT_PASSWORD | VERIFY_EMAIL | SUB_FORGOT_PASSWORD | SUB_VERIFY_EMAIL | SUB_SIGNUP | EMAIL_INVITATION

  datatype Link = Link(action: Action, userId: UserId, created: nat, expires: nat, sent: nat, completed: nat,
                       canceled: nat, userAction: bool)

  const DAY: nat := 24 * 60 * 60
  const HOUR: nat := 60 * 60

  /** The places that issue links: a forgotten password, a check of an address, and a subscriber's sign-up. */
  datatype Kind = UserForgotPassword | UserEmailCheck | SubForgotPassword | SubEmailCheck | SubSignup

  function NewLink(kind: Kind, userId: UserId, now: nat): Link {
    match kind
    case UserForgotPassword => Link(FORGOT_PASSWORD, userId, now, now + DAY, 0, 0, 0, true)
    case UserEmailCheck => Link(VERIFY_EMAIL, userId, now, now + DAY, 0, 0, 0, true)
    case SubForgotPassword => Link(SUB_FORGOT_PASSWORD, userId, now, now + DAY, 0, 0, 0, false)
    case SubEmailCheck => Link(SUB_VERIFY_EMAIL, userId, now, now + DAY, 0, 0, 0, false)
    case SubSignup => Link(SUB_SIGNUP, userId, now, now + HOUR, 0, 0, 0, false)
  }
}
