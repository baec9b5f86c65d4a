/** The Binance widget client's own state and its transitions: the OAuth
    authorization URL, the code-for-token exchange request, storing and
    loading the tokens through encrypted preferences, revocation, and the
    defaults every response handler reports when the HTTP status is not a
    success. Networking, the JSON parser, OS-level encryption, SHA-256 and
    the random source are outside this model and arrive as parameters;
    each asynchronous callback is modelled as the value returned. */
module BinanceService {
  import opened Wrappers
  import opened Bytes
  import Base64
  import Hex
  import BinancePkce

  const OAuthHost: string := "accounts.binance.com"
  const OAuthCallback: string := "com.brave.binance://authorization"
  const OAuthScope: string := "user:email,user:address,asset:balance,asset:ocbs"
  const OAuthUrl: string := "https://accounts.binance.com/en/oauth/authorize"

  /** The two preference strings: each token encrypted, then base 64 encoded. */
  datatype TokenPrefs = TokenPrefs(accessToken: string, refreshToken: string)

  /** The service's fields that the modelled operations read or write. */
  datatype ServiceState = ServiceState(
    clientId: string,
    oauthHost: string,
    accessToken: string,
    refreshToken: string,
    codeVerifier: string,
    codeChallenge: string,
    authToken: string,
    prefs: TokenPrefs)

  /** A callback's value together with the service state afterwards. */
  datatype Step<T> = Step(result: T, state: ServiceState)

  datatype QueryParameter = QueryParameter(name: string, value: string)

  /** The paths under the OAuth host are declared outside this model; only
      the token endpoint is used here. */
  datatype OAuthPath = AccessTokenPath

  /** A URL before query escaping: a fixed address, or a path resolved
      against `https://` and a host. */
  datatype UrlBase = Spec(spec: string) | HostPath(host: string, path: OAuthPath)

  datatype Url = Url(base: UrlBase, query: seq<QueryParameter>)

  datatype HttpMethod = Get | Post

  /** What is handed to the URL loader: URL, method and form-encoded body. */
  datatype Request = Request(url: Url, httpMethod: HttpMethod, postData: seq<QueryParameter>)

  // ---------------------------------------------------------------------
  // Token storage.

  /** `OSCrypt::EncryptString`: the ciphertext, or None when it fails. */
  type Encryptor = string -> Option<seq<byte>>

  /** `OSCrypt::DecryptString`: the plaintext, or None when it fails. */
  type Decryptor = seq<byte> -> Option<string>

  /** `SetAccessTokens`: the in-memory tokens change first and always; the
      preferences are written only when both encryptions succeed, and then
      hold the base 64 text of each ciphertext. Nothing else changes. */
  function SetAccessTokens(st: ServiceState, accessToken: string, refreshToken: string,
                           encrypt: Encryptor): (r: Step<bool>)
    ensures r.state.accessToken == accessToken && r.state.refreshToken == refreshToken
    ensures r.result <==> encrypt(accessToken).Some? && encrypt(refreshToken).Some?
    ensures r.result ==> r.state.prefs == TokenPrefs(Base64.Encode(encrypt(accessToken).value),
                                                     Base64.Encode(encrypt(refreshToken).value))
    ensures !r.result ==> r.state.prefs == st.prefs
    ensures r.state == st.(accessToken := accessToken, refreshToken := refreshToken,
                           prefs := r.state.prefs)
  {
    var updated := st.(accessToken := accessToken, refreshToken := refreshToken);
    match encrypt(accessToken)
    case None => Step(false, updated)
    case Some(encryptedAccess) =>
      match encrypt(refreshToken)
      case None => Step(false, updated)
      case Some(encryptedRefresh) =>
        Step(true, updated.(prefs := TokenPrefs(Base64.Encode(encryptedAccess),
                                                Base64.Encode(encryptedRefresh))))
  }

  /** `LoadTokensFromPrefs`: succeeds exactly when both preferences decode
      and both ciphertexts decrypt, and then holds the decrypted tokens.
      Undecodable preferences change nothing; a refresh token that fails to
      decrypt leaves the access token already decrypted in place. Only the
      two in-memory tokens can change. */
  function LoadTokensFromPrefs(st: ServiceState, decrypt: Decryptor): (r: Step<bool>)
    ensures Base64.Decode(st.prefs.accessToken).None? || Base64.Decode(st.prefs.refreshToken).None?
            ==> r == Step(false, st)
    ensures r.result <==> && Base64.Decode(st.prefs.accessToken).Some?
                          && Base64.Decode(st.prefs.refreshToken).Some?
                          && decrypt(Base64.Decode(st.prefs.accessToken).value).Some?
                          && decrypt(Base64.Decode(st.prefs.refreshToken).value).Some?
    ensures r.result ==>
              && r.state.accessToken == decrypt(Base64.Decode(st.prefs.accessToken).value).value
              && r.state.refreshToken == decrypt(Base64.Decode(st.prefs.refreshToken).value).value
    ensures && Base64.Decode(st.prefs.accessToken).Some?
            && decrypt(Base64.Decode(st.prefs.accessToken).value).None?
            ==> r == Step(false, st)
    ensures && Base64.Decode(st.prefs.accessToken).Some?
            && Base64.Decode(st.prefs.refreshToken).Some?
            && decrypt(Base64.Decode(st.prefs.accessToken).value).Some?
            && decrypt(Base64.Decode(st.prefs.refreshToken).value).None?
            ==> r == Step(false, st.(accessToken := decrypt(Base64.Decode(st.prefs.accessToken).value).value))
    ensures r.state == st.(accessToken := r.state.accessToken, refreshToken := r.state.refreshToken)
  {
    var encodedAccess := Base64.Decode(st.prefs.accessToken);
    var encodedRefresh := Base64.Decode(st.prefs.refreshToken);
    if encodedAccess.None? || encodedRefresh.None? then Step(false, st)
    else
      match decrypt(encodedAccess.value)
      case None => Step(false, st)
      case Some(accessToken) =>
        var loaded := st.(accessToken := accessToken);
        match decrypt(encodedRefresh.value)
        case None => Step(false, loaded)
        case Some(refreshToken) => Step(true, loaded.(refreshToken := refreshToken))
  }

  /** Decryption undoes encryption wherever encryption succeeds. */
  ghost predicate Inverse(encrypt: Encryptor, decrypt: Decryptor) {
    forall plain | encrypt(plain).Some? :: decrypt(encrypt(plain).value) == Some(plain)
  }

  /** Tokens saved successfully load back unchanged. */
  lemma SaveThenLoad(st: ServiceState, accessToken: string, refreshToken: string,
                     encrypt: Encryptor, decrypt: Decryptor)
    requires Inverse(encrypt, decrypt)
    requires SetAccessTokens(st, accessToken, refreshToken, encrypt).result
    ensures var saved := SetAccessTokens(st, accessToken, refreshToken, encrypt).state;
            var loaded := LoadTokensFromPrefs(saved, decrypt);
            && loaded.result
            && loaded.state.accessToken == accessToken
            && loaded.state.refreshToken == refreshToken
  {
    Base64.DecodeEncode(encrypt(accessToken).value);
    Base64.DecodeEncode(encrypt(refreshToken).value);
  }

  /** The constructor: no PKCE values or authorization code yet, and the
      tokens loaded from the preferences. When either preference does not
      decode, or the access token does not decrypt, the tokens stay empty;
      when only the refresh token fails to decrypt, the access token is
      already the decrypted one; when both decrypt, they are the decrypted
      tokens. */
  function NewService(clientId: string, prefs: TokenPrefs, decrypt: Decryptor): (st: ServiceState)
    ensures st.clientId == clientId && st.oauthHost == OAuthHost && st.prefs == prefs
    ensures st.codeVerifier == "" && st.codeChallenge == "" && st.authToken == ""
    ensures Base64.Decode(prefs.accessToken).None? || Base64.Decode(prefs.refreshToken).None?
            ==> st.accessToken == "" && st.refreshToken == ""
    ensures && Base64.Decode(prefs.accessToken).Some?
            && decrypt(Base64.Decode(prefs.accessToken).value).None?
            ==> st.accessToken == "" && st.refreshToken == ""
    ensures && Base64.Decode(prefs.accessToken).Some?
            && Base64.Decode(prefs.refreshToken).Some?
            && decrypt(Base64.Decode(prefs.accessToken).value).Some?
            && decrypt(Base64.Decode(prefs.refreshToken).value).Some?
            ==> && st.accessToken == decrypt(Base64.Decode(prefs.accessToken).value).value
                && st.refreshToken == decrypt(Base64.Decode(prefs.refreshToken).value).value
    ensures && Base64.Decode(prefs.accessToken).Some?
            && Base64.Decode(prefs.refreshToken).Some?
            && decrypt(Base64.Decode(prefs.accessToken).value).Some?
            && decrypt(Base64.Decode(prefs.refreshToken).value).None?
            ==> && st.accessToken == decrypt(Base64.Decode(prefs.accessToken).value).value
                && st.refreshToken == ""
  {
    LoadTokensFromPrefs(ServiceState(clientId, OAuthHost, "", "", "", "", "", prefs), decrypt).state
  }

  // ---------------------------------------------------------------------
  // Authorization.

  /** `GetOAuthClientUrl`: a fresh verifier from the random seed, its S256
      challenge, and the authorization URL carrying exactly six parameters
      in a fixed order. Nothing but the verifier and challenge changes. */
  function GetOAuthClientUrl(st: ServiceState, randomSeed: Bytes32,
                             sha256: string -> Bytes32): (r: Step<Url>)
    ensures |r.state.codeVerifier| == 64 && Hex.Decode(r.state.codeVerifier) == Some(randomSeed)
    ensures r.state.codeChallenge == Base64.EncodeUrlUnpadded(sha256(r.state.codeVerifier))
    ensures r.state == st.(codeVerifier := r.state.codeVerifier, codeChallenge := r.state.codeChallenge)
    ensures r.result.base == Spec(OAuthUrl)
    ensures |r.result.query| == 6
    ensures r.result.query == [QueryParameter("response_type", "code"),
                               QueryParameter("client_id", st.clientId),
                               QueryParameter("redirect_uri", OAuthCallback),
                               QueryParameter("scope", OAuthScope),
                               QueryParameter("code_challenge", r.state.codeChallenge),
                               QueryParameter("code_challenge_method", "S256")]
  {
    var verifier := BinancePkce.GetHexEncodedCryptoRandomSeed(randomSeed);
    var challenge := BinancePkce.GetCodeChallenge(verifier, sha256);
    var url := Url(Spec(OAuthUrl),
                   [QueryParameter("response_type", "code"),
                    QueryParameter("client_id", st.clientId),
                    QueryParameter("redirect_uri", OAuthCallback),
                    QueryParameter("scope", OAuthScope),
                    QueryParameter("code_challenge", challenge),
                    QueryParameter("code_challenge_method", "S256")]);
    Step(url, st.(codeVerifier := verifier, codeChallenge := challenge))
  }

  /** `SetAuthToken`: records the authorization code and nothing else. */
  function SetAuthToken(st: ServiceState, authToken: string): (r: ServiceState)
    ensures r.authToken == authToken
    ensures r.(authToken := st.authToken) == st
  {
    st.(authToken := authToken)
  }

  /** `GetAccessToken`: a POST to the token endpoint whose form body carries
      the authorization code and the verifier; the code is used once and
      is empty afterwards. Nothing else changes. */
  function GetAccessToken(st: ServiceState): (r: Step<Request>)
    ensures r.state.authToken == ""
    ensures r.state == st.(authToken := "")
    ensures r.result.httpMethod == Post
    ensures r.result.url == Url(HostPath(st.oauthHost, AccessTokenPath), [])
    ensures r.result.postData == [QueryParameter("grant_type", "authorization_code"),
                                  QueryParameter("code", st.authToken),
                                  QueryParameter("client_id", st.clientId),
                                  QueryParameter("code_verifier", st.codeVerifier),
                                  QueryParameter("redirect_uri", OAuthCallback)]
  {
    var form := [QueryParameter("grant_type", "authorization_code"),
                 QueryParameter("code", st.authToken),
                 QueryParameter("client_id", st.clientId),
                 QueryParameter("code_verifier", st.codeVerifier),
                 QueryParameter("redirect_uri", OAuthCallback)];
    Step(Request(Url(HostPath(st.oauthHost, AccessTokenPath), []), Post, form), st.(authToken := ""))
  }

  /** The check of section 4.6 of RFC 7636 with the S256 method: the
      server recomputes the challenge from the verifier it receives. */
  predicate S256Matches(verifier: string, challenge: string, sha256: string -> Bytes32) {
    Base64.EncodeUrlUnpadded(sha256(verifier)) == challenge
  }

  /** Authorization URL, then the code, then the token request: the
      verifier sent with the code matches the challenge sent in the URL,
      the code sent is the one received, and the code is then gone. */
  lemma AuthorizationCodeFlow(st: ServiceState, randomSeed: Bytes32,
                              sha256: string -> Bytes32, code: string)
    ensures var authorize := GetOAuthClientUrl(st, randomSeed, sha256);
            var exchange := GetAccessToken(SetAuthToken(authorize.state, code));
            && exchange.result.postData[1] == QueryParameter("code", code)
            && exchange.result.postData[3].name == "code_verifier"
            && authorize.result.query[4].name == "code_challenge"
            && S256Matches(exchange.result.postData[3].value, authorize.result.query[4].value, sha256)
            && exchange.state.authToken == ""
  {
  }

  // ---------------------------------------------------------------------
  // Responses.

  /** The success test every handler applies to the HTTP status. */
  predicate IsSuccess(status: int) {
    200 <= status && status <= 299
  }

  /** A handler's output: what the parser made of the body on success,
      the handler's fixed default otherwise. The parser stands for a
      `BinanceJSONParser` call, including what it leaves in the output
      when the body does not parse. */
  function ParsedOr<T>(status: int, body: string, parse: string -> T, default: T): (r: T)
    ensures IsSuccess(status) ==> r == parse(body)
    ensures !IsSuccess(status) ==> r == default
  {
    if IsSuccess(status) then parse(body) else default
  }

  datatype AccountBalances = AccountBalances(balances: map<string, string>, success: bool)

  /** `OnGetAccountBalances`: empty balances and false unless 2xx. */
  function OnGetAccountBalances(status: int, body: string,
                                parse: string -> map<string, string>): (r: AccountBalances)
    ensures r.success <==> IsSuccess(status)
    ensures !IsSuccess(status) ==> r.balances == map[]
    ensures IsSuccess(status) ==> r.balances == parse(body)
  {
    AccountBalances(ParsedOr(status, body, parse, map[]), IsSuccess(status))
  }

  datatype ConvertQuote = ConvertQuote(quoteId: string, quotePrice: string,
                                       totalFee: string, totalAmount: string)

  /** `OnGetConvertQuote`: four empty strings unless 2xx. */
  function OnGetConvertQuote(status: int, body: string, parse: string -> ConvertQuote): (r: ConvertQuote)
    ensures !IsSuccess(status) ==> r == ConvertQuote("", "", "", "")
    ensures IsSuccess(status) ==> r == parse(body)
  {
    ParsedOr(status, body, parse, ConvertQuote("", "", "", ""))
  }

  /** `OnGetTickerPrice`: "0.00" unless 2xx. */
  function OnGetTickerPrice(status: int, body: string, parse: string -> string): (r: string)
    ensures !IsSuccess(status) ==> r == "0.00"
    ensures IsSuccess(status) ==> r == parse(body)
  {
    ParsedOr(status, body, parse, "0.00")
  }

  /** `OnGetTickerVolume`: "0" unless 2xx. */
  function OnGetTickerVolume(status: int, body: string, parse: string -> string): (r: string)
    ensures !IsSuccess(status) ==> r == "0"
    ensures IsSuccess(status) ==> r == parse(body)
  {
    ParsedOr(status, body, parse, "0")
  }

  datatype DepositAddress = DepositAddress(address: string, url: string)

  datatype DepositInfo = DepositInfo(address: string, url: string, success: bool)

  /** `OnGetDepositInfo`: empty address and URL and false unless 2xx. */
  function OnGetDepositInfo(status: int, body: string, parse: string -> DepositAddress): (r: DepositInfo)
    ensures r.success <==> IsSuccess(status)
    ensures !IsSuccess(status) ==> r.address == "" && r.url == ""
    ensures IsSuccess(status) ==> DepositAddress(r.address, r.url) == parse(body)
  {
    var parsed := ParsedOr(status, body, parse, DepositAddress("", ""));
    DepositInfo(parsed.address, parsed.url, IsSuccess(status))
  }

  datatype ConvertConfirmation = ConvertConfirmation(success: bool, errorMessage: string)

  /** `OnConfirmConvert`: false and "" unless 2xx; on 2xx both come from
      the body, so success is never reported for any other status. */
  function OnConfirmConvert(status: int, body: string,
                            parse: string -> ConvertConfirmation): (r: ConvertConfirmation)
    ensures !IsSuccess(status) ==> r == ConvertConfirmation(false, "")
    ensures IsSuccess(status) ==> r == parse(body)
    ensures r.success ==> IsSuccess(status)
  {
    ParsedOr(status, body, parse, ConvertConfirmation(false, ""))
  }

  /** `OnGetConvertAssets`: an empty map unless 2xx. */
  function OnGetConvertAssets(status: int, body: string,
                              parse: string -> map<string, seq<string>>): (r: map<string, seq<string>>)
    ensures !IsSuccess(status) ==> r == map[]
    ensures IsSuccess(status) ==> r == parse(body)
  {
    ParsedOr(status, body, parse, map[])
  }

  /** `OnGetAccessToken`: on 2xx the parsed tokens are stored (in memory
      even when saving them fails); otherwise nothing changes. The callback
      value is whether a non-empty access token was parsed, whatever the
      save's outcome. */
  function OnGetAccessToken(st: ServiceState, status: int, body: string,
                            parseToken: (string, string) -> string,
                            encrypt: Encryptor): (r: Step<bool>)
    ensures !IsSuccess(status) ==> r == Step(false, st)
    ensures r.result <==> IsSuccess(status) && parseToken(body, "access_token") != ""
    ensures IsSuccess(status) ==>
              && r.state.accessToken == parseToken(body, "access_token")
              && r.state.refreshToken == parseToken(body, "refresh_token")
    ensures IsSuccess(status) ==>
              r.state.prefs == SetAccessTokens(st, parseToken(body, "access_token"),
                                               parseToken(body, "refresh_token"), encrypt).state.prefs
    ensures r.state == st.(accessToken := r.state.accessToken, refreshToken := r.state.refreshToken,
                           prefs := r.state.prefs)
  {
    if IsSuccess(status) then
      var accessToken := parseToken(body, "access_token");
      var refreshToken := parseToken(body, "refresh_token");
      var saved := SetAccessTokens(st, accessToken, refreshToken, encrypt);
      Step(accessToken != "", saved.state)
    else
      Step(false, st)
  }

  /** `OnRevokeToken`: only a 2xx response whose body confirms the revoke
      clears the verifier, the challenge and both tokens, and saves empty
      tokens to the preferences (which happens only if encrypting the empty
      string succeeds). Otherwise nothing changes. */
  function OnRevokeToken(st: ServiceState, status: int, body: string, parseRevoke: string -> bool,
                         encrypt: Encryptor): (r: Step<bool>)
    ensures r.result <==> IsSuccess(status) && parseRevoke(body)
    ensures !r.result ==> r.state == st
    ensures r.result ==>
              && r.state.codeVerifier == "" && r.state.codeChallenge == ""
              && r.state.accessToken == "" && r.state.refreshToken == ""
              && r.state.clientId == st.clientId && r.state.oauthHost == st.oauthHost
              && r.state.authToken == st.authToken
    ensures r.result && encrypt("").Some? ==>
              r.state.prefs == TokenPrefs(Base64.Encode(encrypt("").value), Base64.Encode(encrypt("").value))
    ensures r.result && encrypt("").None? ==> r.state.prefs == st.prefs
  {
    var success := ParsedOr(status, body, parseRevoke, false);
    if success then
      var cleared := st.(codeChallenge := "", codeVerifier := "");
      Step(true, SetAccessTokens(cleared, "", "", encrypt).state)
    else
      Step(false, st)
  }

  /** After a confirmed revoke whose save succeeded, the stored preferences
      load back as empty tokens. */
  lemma RevokeClearsStoredTokens(st: ServiceState, status: int, body: string,
                                 parseRevoke: string -> bool, encrypt: Encryptor, decrypt: Decryptor)
    requires Inverse(encrypt, decrypt)
    requires encrypt("").Some?
    requires IsSuccess(status) && parseRevoke(body)
    ensures var revoked := OnRevokeToken(st, status, body, parseRevoke, encrypt).state;
            var loaded := LoadTokensFromPrefs(revoked, decrypt);
            loaded.result && loaded.state.accessToken == "" && loaded.state.refreshToken == ""
  {
    var cleared := st.(codeChallenge := "", codeVerifier := "");
    SaveThenLoad(cleared, "", "", encrypt, decrypt);
  }

  /** After a 2xx token response whose tokens could be encrypted, loading
      the preferences gives back exactly the parsed tokens. */
  lemma AccessTokenPersists(st: ServiceState, status: int, body: string,
                            parseToken: (string, string) -> string,
                            encrypt: Encryptor, decrypt: Decryptor)
    requires Inverse(encrypt, decrypt)
    requires IsSuccess(status)
    requires encrypt(parseToken(body, "access_token")).Some?
    requires encrypt(parseToken(body, "refresh_token")).Some?
    ensures var received := OnGetAccessToken(st, status, body, parseToken, encrypt).state;
            var loaded := LoadTokensFromPrefs(received, decrypt);
            && loaded.result
            && loaded.state.accessToken == parseToken(body, "access_token")
            && loaded.state.refreshToken == parseToken(body, "refresh_token")
  {
    SaveThenLoad(st, parseToken(body, "access_token"), parseToken(body, "refresh_token"), encrypt, decrypt);
  }
}
