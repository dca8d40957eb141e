/**
 The error kinds the handlers and the authentication gate answer with, and
 their HTTP status codes. The localised message texts are not modelled; the
 two refresh failures keep separate kinds because the source answers them
 with different messages.
 */
module Http {
  import opened Validation

  datatype Failure =
    | BadInput(issues: seq<Issue>)  // a non-empty validation result
    | IdentifierTaken               // signup with an identifier already registered
    | BadCredentials                // signin: unknown identifier or wrong password
    | BadRefreshToken               // refresh token fails verification
    | RefreshTokenNotFound          // no live record holds the refresh token
    | MissingToken                  // no Authorization header
    | BadAccessToken                // access token fails verification
    | SessionExpired                // the user has no live token record
    | UserNotFound                  // no user row for the authenticated id
    | NoFile                        // upload or update without a file
    | FileNotFound                  // no file row with that id owned by the caller
    | ServerError                   // a store or disk failure caught by the handler

  function Status(f: Failure): nat {
    match f
    case BadInput(_) => 400
    case IdentifierTaken => 400
    case NoFile => 400
    case BadCredentials => 401
    case BadRefreshToken => 401
    case RefreshTokenNotFound => 401
    case MissingToken => 401
    case BadAccessToken => 401
    case SessionExpired => 401
    case UserNotFound => 404
    case FileNotFound => 404
    case ServerError => 500
  }

  /** A character Node's `setHeader` accepts in a header value: tab, space,
      visible ASCII and the code units 0x80 to 0xFF. Any other character
      makes it throw. */
  predicate HeaderChar(c: char) {
    c == '\t' || (0x20 <= c as int <= 0x7e) || (0x80 <= c as int <= 0xff)
  }

  predicate HeaderValue(s: string) {
    forall k :: 0 <= k < |s| ==> HeaderChar(s[k])
  }

  /** A concatenation is a valid header value iff both parts are. */
  lemma HeaderValueConcat(a: string, b: string)
    ensures HeaderValue(a + b) <==> HeaderValue(a) && HeaderValue(b)
  {
    var ab := a + b;
    if HeaderValue(ab) {
      forall k | 0 <= k < |a| ensures HeaderChar(a[k]) {
        assert a[k] == ab[k];
      }
      forall k | 0 <= k < |b| ensures HeaderChar(b[k]) {
        assert b[k] == ab[|a| + k];
      }
    }
    if HeaderValue(a) && HeaderValue(b) {
      forall k | 0 <= k < |ab| ensures HeaderChar(ab[k]) {
        if k < |a| {
          assert ab[k] == a[k];
        } else {
          assert ab[k] == b[k - |a|];
        }
      }
    }
  }
}
