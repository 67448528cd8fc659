/**
 * The outcome of a request handler: a status code, the message, and a closed
 * set of tags for the extra fields the handlers put next to the message. URLs
 * are sequences of pieces; the texts of tokens and of encodeURIComponent are
 * left abstract.
 */
module Http {
  import opened Wrappers
  import opened Jwt
  import opened AuthUtils
  import opened UserModel

  datatype Detail =
    | NoDetail
    | RequiresVerification(email: string)       // requiresVerification: true, email
    | UseGoogleAuth                             // useGoogleAuth: true
    | AlreadyVerified                           // alreadyVerified: true
    | Expired                                   // expired: true
    | WaitTime(seconds: nat)                    // waitTime
    | SentTo(email: string)                     // email
    | NewEmail(email: string)                   // newEmail, requiresVerification: true
    | Deleted                                   // deleted: true
    | Session(accessToken: Token, refreshToken: Token, user: PublicUser)
    | Rotated(accessToken: Token, refreshToken: Token)
    | Bearer(token: Token)                      // { token }
    | Profile(id: Id, email: string)            // user: { id, email }

  datatype Reply = Reply(status: nat, message: string, detail: Detail)

  function Fail(status: nat, message: string): Reply {
    Reply(status, message, NoDetail)
  }

  datatype Piece =
    | Text(s: string)
    | TokenText(t: Token)            // the compact serialisation of a token
    | Encoded(s: string)             // encodeURIComponent(s)
    | EncodedJson(o: map<string, Json>)  // encodeURIComponent(JSON.stringify(o))

  type Url = seq<Piece>

  /** `${value}` in a template literal: an unset variable renders as "undefined". */
  function Render(value: Option<string>): string {
    if value.Some? then value.value else "undefined"
  }
}
