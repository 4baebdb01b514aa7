/**
 * The records exchanged with the identity provider during the OAuth 2.0
 * Device Authorization Grant (RFC 8628), and the single token poll.
 *
 * Durations are whole seconds, as the provider sends them. The HTTP
 * transport, the body read and the JSON decoder are not modelled: what one
 * poll's exchange produced is an input (`Exchange`).
 */
module Responses {

  /** The client identifier compiled into the program. */
  const ClientId: string := "a5db2e56355d5992c59f"

  /** The compile-time verbosity flag; it also guards three fatal exits. */
  const Debug: bool := true

  /** The grant type of a device access token request (RFC 8628, section 3.4). */
  const DeviceCodeGrantType: string := "urn:ietf:params:oauth:grant-type:device_code"

  /** HTTP 200, the only status the token poll accepts. */
  const StatusOK: int := 200

  // Error codes of the token endpoint: the first four from RFC 8628,
  // section 3.5, `unsupported_grant_type` from RFC 6749, section 5.2, and
  // `incorrect_client_credentials`, which is specific to this provider.
  const AuthorizationPending: string := "authorization_pending"
  const SlowDown: string := "slow_down"
  const ExpiredToken: string := "expired_token"
  const UnsupportedGrantType: string := "unsupported_grant_type"
  const IncorrectClientCredentials: string := "incorrect_client_credentials"
  const AccessDenied: string := "access_denied"

  /** The device authorization response (RFC 8628, section 3.2). */
  datatype DeviceCodeResponse = DeviceCodeResponse(
    deviceCode: string,
    userCode: string,
    verificationUri: string,
    expiresIn: int,
    interval: int)

  /**
   * The decoded body of a token poll: either the token fields or the error
   * fields are set by the provider, but nothing forces that, so every
   * combination is representable.
   */
  datatype AccessTokenResponse = AccessTokenResponse(
    accessToken: string,
    tokenType: string,
    scope: string,
    error: string,
    errorDescription: string,
    errorUri: string,
    interval: int)

  /** A form-encoded request body: each key maps to its list of values. */
  type Form = map<string, seq<string>>

  /** What the body of a reply turned out to be. */
  datatype Body =
    | Unreadable                                // reading the body failed
    | NotDecodable                              // the body is not the expected JSON
    | Decoded(response: AccessTokenResponse)

  /** What the HTTP exchange of one poll produced. */
  datatype Exchange =
    | RequestNotBuilt                           // building the request failed
    | TransportFailed                           // sending it failed
    | Replied(status: int, body: Body)

  /**
   * The value the poll hands back: the decoded response, no response at
   * all (a nil pointer), or an unexpected status, on which the poll ends the
   * process itself.
   */
  datatype PollResult =
    | Token(response: AccessTokenResponse)
    | Nil
    | BadStatus(status: int)

  /** The form body of a token poll. */
  function TokenRequest(clientId: string, deviceCode: string): (form: Form)
    ensures form.Keys == {"client_id", "device_code", "grant_type"}
    ensures form["client_id"] == [clientId] && form["device_code"] == [deviceCode]
    ensures form["grant_type"] == [DeviceCodeGrantType]
  {
    map["client_id" := [clientId],
        "device_code" := [deviceCode],
        "grant_type" := [DeviceCodeGrantType]]
  }

  /**
   * One token poll. Only a 200 reply whose body was read and decoded gives a
   * response; any other status is reported as such; every failure before
   * that (building the request, sending it, reading or decoding the body)
   * gives no response at all.
   */
  function PollAccessToken(x: Exchange): (r: PollResult)
    ensures r.Token? <==> x.Replied? && x.status == StatusOK && x.body.Decoded?
    ensures r.Token? ==> r.response == x.body.response
    ensures r.BadStatus? <==> x.Replied? && x.status != StatusOK
    ensures r.BadStatus? ==> r.status == x.status
    ensures r.Nil? <==> !x.Replied? || (x.status == StatusOK && !x.body.Decoded?)
  {
    match x
    case RequestNotBuilt => Nil
    case TransportFailed => Nil
    case Replied(status, body) =>
      if status == StatusOK then
        match body
        case Unreadable => Nil
        case NotDecodable => Nil
        case Decoded(response) => Token(response)
      else
        BadStatus(status)
  }
}
