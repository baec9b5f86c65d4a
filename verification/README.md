# Publisher-info table and Binance widget client: a verified model

This project models two small pieces of a browser's code.

1. **The ledger's `server_publisher_info` table**
   (`DatabaseServerPublisherInfo`, module `ServerPublisherInfoDatabase`).
   The model covers:
   - the schema migration by version: a null transaction fails, versions 7
     and 15 have migrations, and every other version does nothing and succeeds;
   - the transaction that replaces the whole table from a list of optional
     records;
   - the two-step read of one record: first the banner, then the row.

   Each operation builds a sequence of database commands or decodes a
   response. A reference semantics for the two SQL statements the component
   writes (`Apply`: DELETE clears every row, INSERT OR REPLACE sets the row
   of its key) connects the command sequences to what ends up in the table.
   Executing a READ against that table (`ExecuteRead`) connects writing to
   reading.

2. **The Binance widget client** (`BinanceService`, modules `BinancePkce`
   and `BinanceService`). The model covers:
   - the PKCE code verifier, the hex text of 32 random octets;
   - the code challenge: the standard base 64 encoding of the verifier's
     SHA-256 digest, rewritten to base64url with the trailing '=' removed;
   - the authorization URL;
   - the code-for-token request;
   - saving and loading the tokens through encrypted, base 64 encoded
     preferences;
   - revocation;
   - the fixed default values every response handler reports outside the
     2xx range.

   The service's fields are an immutable `ServiceState` record. Every
   operation is a pure function from one state to the next.

Supporting modules: `Base64` (sections 4 and 5 of RFC 4648, with a decoder
and the round trip), `Hex` (two upper-case digits per octet, with a decoder
and the round trip), `Bytes`, `Wrappers`.

Foreign calls are parameters. This covers SHA-256
(`string -> Bytes32`), the random seed (`Bytes32`), `OSCrypt` encryption
and decryption (`string -> Option<seq<byte>>`, `seq<byte> -> Option<string>`),
and each `BinanceJSONParser` call (a function from the body to the
handler's output). The helpers of the database layer whose bodies are not
part of this model (`DropTable`, `InsertIndex`, the banner table's
`Migrate` and `InsertOrUpdate`) each append one opaque command. Whether
`DropTable`, `InsertIndex` and the banner table's `Migrate` succeed is an
input (`HelperOutcomes`), and a failing one is taken to append nothing.
The result of the banner table's `InsertOrUpdate` is ignored by the code,
so it always appends its command.

Two behaviours of the token storage are worth stating plainly:
- A confirmed revoke calls `SetAccessTokens("", "")`
  (binance_service.cc:488). That stores the base 64 text of the
  *encrypted* empty string, and only if that encryption succeeds; if it
  fails, the old preferences stay. `OnRevokeToken` states exactly this.
  `RevokeClearsStoredTokens` shows that the stored values load back as
  empty tokens.
- The access token is decrypted straight into `access_token_` before the
  refresh token is tried (binance_service.cc:301-308). So a refresh
  token that fails to decrypt leaves the already-decrypted access token
  in place. `LoadTokensFromPrefs` states this case.

## Model

| member | source | states |
|---|---|---|
| ServerPublisherInfoDatabase.Migrate | vendor/bat-native-ledger/src/bat/ledger/internal/database/database_server_publisher_info.cc:54-72 | A null transaction gives false and no transaction. A target other than 7 or 15 gives true with the transaction unchanged. For 7, success holds exactly when all three helpers succeed. The appended commands are the version 7 script cut at the first failing helper: nothing when the drop fails, drop and create when the index fails, and all but the banner migration when that fails. For 15, success is the banner migration's outcome and only that migration is appended. Commands already in the transaction are kept. Any banner migration it appends targets the requested version. |
| ServerPublisherInfoDatabase.MigrateToV7 | vendor/bat-native-ledger/src/bat/ledger/internal/database/database_server_publisher_info.cc:74-93 | The appended commands are always a prefix of drop, create, index, banner-migrate-to-7, in that order. A failing step stops the migration, so later steps are never appended. Success holds exactly when drop, index and banner migration all succeed, and then the whole script is appended. |
| ServerPublisherInfoDatabase.MigrateToV15 | vendor/bat-native-ledger/src/bat/ledger/internal/database/database_server_publisher_info.cc:95-98 | Only the banner migration to 15 is appended. The result is that migration's result. |
| ServerPublisherInfoDatabase.InsertOrUpdate | vendor/bat-native-ledger/src/bat/ledger/internal/database/database_server_publisher_info.cc:100-123 | An absent record leaves the transaction unchanged. Otherwise exactly one RUN of the upsert is appended. It binds key, status, excluded and address at positions 0 to 3. |
| ServerPublisherInfoDatabase.ListCommands | vendor/bat-native-ledger/src/bat/ledger/internal/database/database_server_publisher_info.cc:146-156 | The entries contribute one command per non-null entry plus one per entry that has a banner. |
| ServerPublisherInfoDatabase.ClearAndInsertList | vendor/bat-native-ledger/src/bat/ledger/internal/database/database_server_publisher_info.cc:125-159 | The first command is always the DELETE. After it come exactly the entries' commands in list order (`ListCommands`), so an empty list yields only the DELETE and the count is 1 + non-null entries + entries with a banner. |
| ServerPublisherInfoDatabase.UpsertsFollowListOrder | vendor/bat-native-ledger/src/bat/ledger/internal/database/database_server_publisher_info.cc:146-152 | The keys of the record upserts are the keys of the non-null entries, one for one and in list order. Null entries contribute nothing. |
| ServerPublisherInfoDatabase.BannerFollowsItsRecord | vendor/bat-native-ledger/src/bat/ledger/internal/database/database_server_publisher_info.cc:151-155 | Every banner upsert comes immediately after the upsert of the record that owns it, and that record has a banner. |
| ServerPublisherInfoDatabase.EveryBannerUpserted | vendor/bat-native-ledger/src/bat/ledger/internal/database/database_server_publisher_info.cc:151-155 | The banner upserts of a replacement are exactly one per non-null entry that has a banner, each carrying its entry, in list order. |
| ServerPublisherInfoDatabase.ReplaceAllTable | vendor/bat-native-ledger/src/bat/ledger/internal/database/database_server_publisher_info.cc:131-158 | After the replacement commits, a key has a row exactly when some non-null entry has that key. The row holds the last such entry's columns. No earlier row survives. |
| ServerPublisherInfoDatabase.OnGetRecordBanner | vendor/bat-native-ledger/src/bat/ledger/internal/database/database_server_publisher_info.cc:175-212 | Submits a single READ of status, excluded and address, bound to the key, with INT, BOOL and STRING record bindings. Passes on the fetched banner, or an empty banner when none was found. |
| ServerPublisherInfoDatabase.OnGetRecord | vendor/bat-native-ledger/src/bat/ledger/internal/database/database_server_publisher_info.cc:214-240 | Absent exactly when the response is missing, is not OK, or does not hold exactly one record. Otherwise the record has the queried key, the record's three columns and the given banner. |
| ServerPublisherInfoDatabase.GetRecord | vendor/bat-native-ledger/src/bat/ledger/internal/database/database_server_publisher_info.cc:161-212 | The READ it runs is the SELECT bound to the key. A record is found exactly when that READ answers OK with exactly one record, and then its columns are that record's, its key is the queried key and its banner is the fetched banner, or an empty banner when none was fetched. |
| ServerPublisherInfoDatabase.ReadAfterReplace | vendor/bat-native-ledger/src/bat/ledger/internal/database/database_server_publisher_info.cc:125-239 | Reading a key after the table was replaced from a list gives a record exactly when a non-null entry has that key. The record holds the last such entry's columns and the fetched or empty banner. |
| Base64.Encode | components/binance/browser/binance_service.cc:108-110 | The encoding has 4 characters per started group of 3 octets. Every character is in the section 4 alphabet of RFC 4648 or is '='. Together with `Base64.DecodeEncode` and `Base64.EncodeDecode` this fixes the text: it is the one text the strict decoder maps to the octets. |
| Base64.DecodeEncode | components/binance/browser/binance_service.cc:271-299 | Decoding the base 64 text of any ciphertext gives that ciphertext back. |
| Base64.EncodeDecode | components/binance/browser/binance_service.cc:291-299 | Every text the decoder accepts is the encoding of the octets it decodes to. It follows that no two texts decode to the same octets: the bits after the last octet must be zero. |
| Hex.DecodeEncode | components/binance/browser/binance_service.cc:80-81 | Hex text determines the octets it was made from. |
| BinancePkce.GetHexEncodedCryptoRandomSeed | components/binance/browser/binance_service.cc:75-82 | The verifier is exactly 64 upper-case hexadecimal digits. It decodes back to the 32-octet seed. |
| BinancePkce.ToUrlSafe | components/binance/browser/binance_service.cc:113-114 | The length is unchanged, and no '+' or '/' is left. |
| BinancePkce.EraseTrailingPadding | components/binance/browser/binance_service.cc:115-118 | The result is a prefix of the input. Only '=' characters were removed, and the removed run is the whole trailing run, so the result does not end in '='. |
| BinancePkce.UrlSafeOfStandard | components/binance/browser/binance_service.cc:112-114 | Replacing '+' and '/' turns the section 4 encoding of RFC 4648 into the section 5 encoding, padded or not. |
| BinancePkce.ChallengeFromDigest | components/binance/browser/binance_service.cc:108-118 | The post-processing of the digest equals BASE64URL-ENCODE of Appendix A of RFC 7636, defined independently as the section 5 encoding without padding. |
| BinancePkce.GetCodeChallenge | components/binance/browser/binance_service.cc:102-121 | For the 32-octet digest the challenge is 43 base64url characters. It has no '+', '/' or '='. The rewritten standard encoding was the challenge followed by exactly one '='. |
| BinanceService.SetAccessTokens | components/binance/browser/binance_service.cc:254-282 | The in-memory tokens always change, even when the result is false. The result is true exactly when both encryptions succeed. Only then are the preferences written, as the base 64 text of each ciphertext. Nothing else changes. |
| BinanceService.LoadTokensFromPrefs | components/binance/browser/binance_service.cc:284-311 | Undecodable preferences, or an access token that does not decrypt, change nothing and give false. A refresh token that does not decrypt gives false with only the access token replaced by its decryption. The result is true exactly when both preferences decode and both decrypt, and then the tokens are the decrypted ones. Only the in-memory tokens can change. |
| BinanceService.SaveThenLoad | components/binance/browser/binance_service.cc:254-311 | When decryption undoes encryption, tokens that were saved successfully load back unchanged. |
| BinanceService.NewService | components/binance/browser/binance_service.cc:86-96 | A new service has no verifier, challenge or authorization code. It keeps the stored preferences. Its tokens are empty when either preference does not decode or the access token does not decrypt. When only the refresh token fails to decrypt, the access token is the decrypted one and the refresh token is empty. When both decode and decrypt, the tokens are the decrypted ones. |
| BinanceService.GetOAuthClientUrl | components/binance/browser/binance_service.cc:123-140 | The new verifier is 64 hex digits that decode to the seed. The new challenge is the S256 challenge of that verifier. The URL carries exactly six parameters in order: response_type=code, client_id, redirect_uri, scope, code_challenge, code_challenge_method=S256. Nothing else in the state changes. |
| BinanceService.SetAuthToken | components/binance/browser/binance_service.cc:313-315 | Only the authorization code changes. |
| BinanceService.GetAccessToken | components/binance/browser/binance_service.cc:142-155 | Sends a POST to the token endpoint. The form carries grant_type, the code, client_id, the verifier and redirect_uri, in that order. The code is empty afterwards, and nothing else changes. |
| BinanceService.AuthorizationCodeFlow | components/binance/browser/binance_service.cc:123-155 | After the authorization URL, the code and the token request: the verifier sent passes the S256 check of section 4.6 of RFC 7636 against the challenge that was sent. The code sent is the one received, and it is cleared afterwards. |
| BinanceService.OnGetAccountBalances | components/binance/browser/binance_service.cc:165-175 | Success holds exactly for statuses 200 to 299. Outside that range the balances are empty; inside it they are what the parser read. |
| BinanceService.OnGetConvertQuote | components/binance/browser/binance_service.cc:342-355 | Outside 2xx: four empty strings. Within 2xx: the parsed quote. |
| BinanceService.OnGetTickerPrice | components/binance/browser/binance_service.cc:377-386 | Outside 2xx: "0.00". Within 2xx: the parsed price. |
| BinanceService.OnGetTickerVolume | components/binance/browser/binance_service.cc:388-397 | Outside 2xx: "0". Within 2xx: the parsed volume. |
| BinanceService.OnGetDepositInfo | components/binance/browser/binance_service.cc:409-423 | Success holds exactly for 2xx. Outside 2xx the address and URL are empty; within 2xx they are parsed from the body. |
| BinanceService.OnConfirmConvert | components/binance/browser/binance_service.cc:435-448 | Outside 2xx: false and "". Success is never reported for a non-2xx status. |
| BinanceService.OnGetConvertAssets | components/binance/browser/binance_service.cc:458-468 | Outside 2xx: an empty map. Within 2xx: the parsed assets. |
| BinanceService.OnGetAccessToken | components/binance/browser/binance_service.cc:177-189 | Outside 2xx: false, and the state is unchanged. Within 2xx the parsed tokens are stored in memory even if saving fails, and the preferences are those `SetAccessTokens` leaves for the parsed tokens. The result is true exactly when the status is 2xx and the parsed access token is non-empty. Only the tokens and preferences can change. |
| BinanceService.AccessTokenPersists | components/binance/browser/binance_service.cc:177-189 | After a 2xx token response whose tokens could be encrypted, loading the preferences gives back exactly the parsed tokens. |
| BinanceService.OnRevokeToken | components/binance/browser/binance_service.cc:478-491 | Success holds exactly when the status is 2xx and the body confirms the revoke. On failure nothing changes. On success the verifier, the challenge and both tokens are empty. The preferences hold the encrypted empty tokens if that encryption succeeds, and are untouched otherwise. |
| BinanceService.RevokeClearsStoredTokens | components/binance/browser/binance_service.cc:481-489 | After a confirmed revoke whose save succeeded, loading the preferences gives empty tokens. |

## Left out

- `vendor/bat-native-ads/src/bat/ads/internal/uri_helper.h` holds only declarations (`GetUri`, `GetValueForKeyInQuery`, `MatchWildcard`). There are no bodies to model.
- Network plumbing is asynchronous I/O and is left out: `OAuthRequest`, `SimpleURLLoader` and its retry options, `OnURLLoaderComplete` with its header enumeration and the `url_loaders_` bookkeeping, the traffic annotation, and `io_task_runner`.
- The request builders `GetAccountBalances`, `GetConvertQuote`, `GetTickerPrice`, `GetTickerVolume`, `GetDepositInfo`, `ConfirmConvert`, `GetConvertAssets` and `RevokeToken` are left out. They only build a URL through `GURL::Resolve` and `net::AppendQueryParameter`, whose paths are declared outside this model, and change no state. Their response handlers are modelled.
- `GetBinanceTLD` is left out: it is a country-code lookup in the preferences.
- The test setters `SetClientIdForTest`, `SetOAuthHostForTest` and `SetAPIHostForTest` are left out. The client id and the OAuth host are plain fields of `ServiceState`.
- The escaping done by `net::AppendQueryParameter` is left out. Query parameters are kept as name/value pairs, and URLs as a base plus parameters.
- SHA-256, `crypto::RandBytes`, `OSCrypt` and `BinanceJSONParser` are parameters. Their internals are not modelled.
- `RunDBTransaction` (SQL execution) is left out. So are the bodies of `DropTable`, `InsertIndex`, `Bind*` and `Get*Column`, and the banner table's own logic. The READ's records arrive already typed as (status, excluded, address) rows.
- Callback asynchrony is not modelled: each callback is the value the function returns. `OnResultCallback` only forwards the transaction's result, so `ClearAndInsertList` returns the transaction it submits.
- ServerPublisherInfoDatabase.MigrateToV7: assumes a helper that reports failure appended nothing, because the helpers' bodies are not part of this model.
- BinanceService.LoadTokensFromPrefs: assumes `OSCrypt::DecryptString` leaves its output untouched when it fails, because its body is not part of this model.
- Base64.Encode: this is the plain encoding of section 4 of RFC 4648. `Base64.Decode` is a strict decoder standing in for `base::Base64Decode`: it requires padding and zero bits after the last octet (section 3.5 of RFC 4648). It does not model whatever leniency that decoder has toward whitespace or non-zero trailing bits, so a text that `base::Base64Decode` may accept can be rejected here.
- ServerPublisherInfoDatabase.OnGetRecord: the status column is kept as the integer that is stored. The cast to the publisher-status enumeration is not range-checked.
