# pychat-stock: session cache, stock command relay and password layout in Dafny

This project models the parts of the pychat-stock chat system that hold
real logic, and proves properties of them:

- **Session tokens** (`chat/app/services.py`). A token lives in Redis under the
  key `username:session_id` with a 300 s time to live. `create_token` issues a
  token under a fresh session id. `refresh_token` issues a new token under the
  caller's session id. `is_logged_in` fails closed on a missing input.
  Otherwise it compares the cached bytes, decoded as UTF-8, with the token.
- **The cache service** (`CacheService`). It builds its Redis client lazily, on
  first use. Each call retries a refused connection with a decrementing
  `retries` counter and a 0.5 s pause.
- **The stock command publisher** (`BotService`). It takes the stock code from
  `text.split('=')[1]`. It publishes `{stock_code, chatroom, bot_name='stockbot'}`
  to the `requeststock` queue. `post_stock` turns a broker connection error into
  `False`.
- **The result relay** (`botposter/app/main.py`). For each envelope taken off
  `publishstock`, it posts `{text: "<stock_name> quote is <stock_quote>", bot_name}`
  to `http://chat/v1/botchatroom/<chatroom>`.
- **Password storage** (`chat/app/repository.py`). The stored value is a 32-byte
  salt followed by the PBKDF2 key. `check_password` slices the value back apart
  and derives the key again.

Modules and files:

| file | module | models |
|---|---|---|
| `wrappers.dfy` | `Wrappers` | `Option`, `Result` (returns or raises) and `Outcome` (completes or raises) |
| `utf8.dfy` | `Utf8` | strict UTF-8 `str.encode` / `bytes` decoding, with round trips in both directions |
| `strings.dfy` | `Strings` | `str.split` with a one-character separator, its inverse `join`, and concatenation facts |
| `redis.dfy` | `Redis` | the SETEX and GET commands on a map from key to (bytes, expiry instant) |
| `services.dfy` | `Services` | `chat/app/services.py` |
| `repository.dfy` | `Repository` | `chat/app/repository.py` |
| `botposter.dfy` | `BotPoster` | the callback and consumption of `botposter/app/main.py` |

Modelling choices:

- **Time.** Time is an integer number of milliseconds that the caller supplies.
  Each refused cache attempt is followed by the 500 ms pause before the next one.
  A cache command itself takes no time. So a call's answered attempt happens at
  `now + 500 * (attempts - 1)`.
- **Expiry.** As in Redis, a key is expired only once the clock is past its
  expiry instant. A value written by SETEX at `t` with a 300 s TTL is still
  read at `t + 300000` ms and is gone after that.
- **Connection failures.** Whether each attempt fails comes from a supplied
  script (`refusals`, `reachable`, `postRaises`). A refused cache attempt is one
  whose command never reached Redis. A command that Redis ran but whose reply
  was lost is not modelled (see "## Left out").
- **Supplied values.** Fresh UUIDs and the `os.urandom` salt are parameters.
  PBKDF2 is the parameter `kdf`, a deterministic function with no other
  assumed property.
- **The cache service object.** Python keeps `CacheService.cache` at class
  level. One object of the Dafny class `CacheService` stands for that class
  state. Its `store` field is what the Redis server holds.
- **Exceptions.** A call that raises returns `Failure(...)` or `Fail(...)`.
  The error constructor is named after the Python exception. `is_logged_in`'s
  re-raised ConnectionError is `CacheConnectionError`, which is distinct from a
  `false` verdict.

In several places the code does something other than what its names, constants
and comments suggest. The model follows the code:

- **Attempt count.** A cache call makes up to `NUM_REDIS_RETRIES + 1` = 6
  attempts, not 5. It re-raises after the sixth refusal in a row
  (`FiveRefusalsAreSurvived`).
- **`expires_in`.** The returned `expires_in` is 0.8 s after the save, not
  0.8 × TTL. `TOKEN_EXPIRATION_FACTOR` is used as a number of seconds, and
  `TOKEN_INFORMED_EXPIRATION_SECONDS` (240 s) is never used. Formatting with
  `DATE_FORMAT` also drops the fractional second. So `expires_in` is a
  whole-second instant between 0.2 s before and 0.8 s after the save
  (`InformedExpiry`).
- **Token comparison.** The token is compared after UTF-8 decoding, not byte
  for byte. The two are equivalent for bytes that decode (`Utf8.DecodesTo`).
  Bytes that do not decode raise UnicodeDecodeError.
- **Relay post failures.** A relay post that raises is not silently dropped.
  The exception leaves the callback and ends `start_consuming`. The delivery
  was already acknowledged, so it is lost (`BotPoster.Consume`).
- **Missing user.** `check_password` for a user name with no row raises
  AttributeError. It does not return false.

The session key is not injective. A user named `u:x` with session `s` and a
user `u` with session `x:s` share one key (`SessionKeyCollision`). Keys
identify sessions only when user names hold no colon (`SessionKeyInjective`).

## Model

| member | source | states |
|---|---|---|
| `Services.SessionKey` | chat/app/services.py:72 | defines the key `f'{username}:{session_id}'`; what it identifies is stated by `SessionKeyInjective` and `SessionKeyCollision` |
| `Services.SavedStore` | chat/app/services.py:68-81 | defines the store a save leaves: SETEX by the answered attempt, or no change after six refusals whose commands never reached Redis; `SaveTokenToCache` is proved to produce it and `SaveWritesOneKey`, `SavedTokenReadsBack` state what it holds |
| `Services.ReadToken` | chat/app/services.py:89-97 | defines what a read returns: GET at the answered attempt's instant, or ConnectionError after six refusals; `GetSessionTokenFromCache` is proved to return it and `SavedTokenReadsBack` states it after a save |
| `Services.Grant` | chat/app/services.py:46-48 | defines the returned dictionary: token, session id and `expires_in` of the answered save's instant; `InformedExpiry` states the bounds of `expires_in` |
| `Services.TokenMatches` | chat/app/services.py:32 | defines `session_token is not None and str(session_token, 'utf-8') == token`; `TokenMatchesIff` states what it decides |
| `Services.LoginVerdict` | chat/app/services.py:22-34 | defines is_logged_in's outcome on the store; `IsLoggedIn` is proved to return it and `FailsClosed`, `LoginVerdictIff`, `IssuedTokenLogsIn` state what it decides |
| `Services.StockCode` | chat/app/services.py:102 | defines `text.split('=')[1]` with IndexError for a short list; `StockCodeFound`, `StockCodeOfCommand` and `StockCodeExamples` state what it gives |
| `Services.NewBotService` | chat/app/services.py:101-103 | defines `BotService.__init__`: the stock code and the chatroom, or the IndexError; `CommandBecomesRequest` states the result for a stock command |
| `Services.Outgoing` | chat/app/services.py:125-129 | defines the envelope `{stock_code, chatroom, bot_name}`; `CommandBecomesRequest` and `PostAppendsToRequestQueue` state where it ends up |
| `Services.SessionKeyInjective` | chat/app/services.py:71-75 | the key `username:session_id` determines the user and session when user names hold no colon |
| `Services.SessionKeyCollision` | chat/app/services.py:72 | a user `u:x` with session `s` and user `u` with session `x:s` get the same key |
| `Services.AttemptsFrom` | chat/app/services.py:68-81 | from attempt `i` on, the call stops at the first answered attempt or at the sixth; every attempt before the last was refused |
| `Services.Attempts` | chat/app/services.py:68-81 | a cache call makes 1 to 6 attempts; it gives up exactly when its last attempt was refused, and then it has made 6 |
| `Services.FiveRefusalsAreSurvived` | chat/app/services.py:17 | five refusals in a row do not exhaust the retries; the sixth attempt is made, and it is the last exactly when all five were refused |
| `Services.ThreeRefusalsThenAnswer` | chat/app/services.py:89-97 | three refusals then an answer: four attempts and the call returns |
| `Services.CacheService.EnsureClient` | chat/app/services.py:65-66 | the client is built only when the handle is None, and an existing handle is kept |
| `Services.CacheService.SaveTokenToCache` | chat/app/services.py:63-81 | the handle is created once and reused; the attempt count follows the retry rule; re-raises ConnectionError exactly when all 6 attempts are refused; otherwise the store holds the SETEX of the token under `username:session_id` for 300 s from the answered attempt; after six refusals that never reached Redis it is unchanged |
| `Services.CacheService.GetSessionTokenFromCache` | chat/app/services.py:84-97 | the handle is created once and reused; returns the live bytes under the same key at the answered attempt, or raises ConnectionError after 6 refusals; the store is not changed |
| `Services.SavedTokenReadsBack` | chat/app/services.py:71-75 | a saved token is read back as its UTF-8 bytes up to and including the instant 300 s after the write, and reads as absent once the clock is past it |
| `Services.InformedExpiry` | chat/app/services.py:46 | `expires_in` is a whole second no later than 0.8 s after the save and less than 1 s before that; it is earlier than both the unused 240 s and the 300 s cache expiry |
| `Services.CreateToken` | chat/app/services.py:41-48 | the fresh token is saved under the fresh session id; the result carries the token, the session id and `expires_in`, or the ConnectionError |
| `Services.RefreshToken` | chat/app/services.py:50-56 | a fresh token is saved under the caller's session id with a new 300 s TTL; the result reuses that session id |
| `Services.SaveWritesOneKey` | chat/app/services.py:42-45 | a save adds only its session's key (a fresh session grows the store by exactly one) and every other key reads as before |
| `Services.TokenMatchesIff` | chat/app/services.py:32 | the comparison is true exactly when the cached bytes are the token's UTF-8 encoding; it is false when nothing is cached or another string is |
| `Services.IsLoggedIn` | chat/app/services.py:22-34 | returns false without touching the cache (not even building the client) when an input is None; otherwise the verdict of the cached value at the read's instant, or the cache error |
| `Services.FailsClosed` | chat/app/services.py:23-25 | a missing user name, token or session id gives false whatever the cache holds or whether it is reachable |
| `Services.LoginVerdictIff` | chat/app/services.py:27-34 | with all inputs present, true exactly when the cache is reached and holds the token's bytes alive under `username:session_id`; an unreachable cache gives an error, never a verdict |
| `Services.IssuedTokenLogsIn` | chat/app/services.py:41-48 | an issued token logs its session in exactly when the read happens no later than 300 s after the save |
| `Services.RefreshRevokesPreviousToken` | chat/app/services.py:51-56 | after a refresh, the previous token of that session no longer logs in, at any time |
| `Services.SaveKeepsOtherSessions` | chat/app/services.py:71-75 | saving one session's token leaves the login verdict of every session with another key unchanged |
| `Strings.Split` | chat/app/services.py:102 | `str.split('=')` gives at least one piece, no piece holds the separator, and joining the pieces with it gives the text back |
| `Services.StockCodeFound` | chat/app/services.py:102 | the stock code exists exactly when the text holds an '=' (otherwise IndexError), and it holds no '=' |
| `Services.StockCodeOfCommand` | chat/app/services.py:102 | for `prefix=code` followed by nothing or by `=...`, the stock code is `code` |
| `Services.StockCodeExamples` | chat/app/services.py:102 | `/stock=AAPL` gives `AAPL`, `/stock=A=B` gives `A`, `/stock` raises IndexError |
| `Services.CommandBecomesRequest` | chat/app/services.py:101-129 | a stock command posted to a chatroom gives the envelope `{code, chatroom, 'stockbot'}` |
| `Services.Declare` | chat/app/services.py:123 | queue_declare creates the queue if absent and is a no-op on existing queues |
| `Services.Publish` | chat/app/services.py:131-135 | the message joins the end of the queue named by the routing key; other queues do not change |
| `Services.Broker.SendMessageToQueue` | chat/app/services.py:113-136 | unreachable broker: AMQPConnectionError and no change; otherwise `requeststock` is declared and the envelope appended to it |
| `Services.Broker.PostStock` | chat/app/services.py:105-111 | returns True exactly when the publish happened and False on AMQPConnectionError |
| `Services.PostAppendsToRequestQueue` | chat/app/services.py:123-135 | a post appends its envelope to `requeststock` (created empty if absent) and leaves the other queues as they were |
| `Redis.Setex` | chat/app/services.py:71-75 | after SETEX the key reads as the value's UTF-8 bytes up to the instant the TTL elapses and as absent once the clock is past it; other keys read as before; only that key is added |
| `Utf8.Encode` | chat/app/services.py:74 | defines UTF-8 encoding of a string; `DecodeEncode`, `EncodeDecode` and `EncodeInjective` state its relation to `Decode` |
| `Utf8.Decode` | chat/app/services.py:32 | defines strict UTF-8 decoding, with None where Python raises UnicodeDecodeError; `DecodeEncode`, `EncodeDecode` and `DecodesTo` state that it inverts `Encode` |
| `Utf8.DecodeEncode` | chat/app/services.py:32 | decoding the UTF-8 bytes of a string gives the string back |
| `Utf8.EncodeDecode` | chat/app/services.py:32 | bytes that decode are the encoding of what they decode to |
| `Utf8.DecodesTo` | chat/app/services.py:32 | `str(b, 'utf-8') == t` exactly when `b` is the UTF-8 encoding of `t` |
| `Utf8.EncodeInjective` | chat/app/repository.py:24 | distinct passwords have distinct UTF-8 encodings |
| `Repository.HashPassword` | chat/app/repository.py:34-42 | the stored value's first 32 bytes are the salt and the rest is the derived key |
| `Repository.SliceTo` | chat/app/repository.py:19 | `s[:32]` has the first `min(32, len)` elements of the stored value |
| `Repository.SliceFrom` | chat/app/repository.py:20 | `s[32:]` has what follows the first 32 elements, or nothing |
| `Repository.SlicesRejoin` | chat/app/repository.py:19-20 | salt and key slices put back together give the stored value |
| `Repository.DeriveKey` | chat/app/repository.py:22-27 | defines the key `pbkdf2_hmac('sha256', password.encode('utf-8'), salt, 100000)` both functions derive; `HashPassword` and `CheckPasswordIff` state how it is used |
| `Repository.CheckPassword` | chat/app/repository.py:16-29 | defines check_password on the table; `CheckPasswordWithoutUser`, `CheckPasswordIff` and `CreateThenCheck` state what it decides |
| `Repository.CheckPasswordWithoutUser` | chat/app/repository.py:17-19 | check_password fails (AttributeError) exactly when the user name has no row |
| `Repository.CheckPasswordIff` | chat/app/repository.py:16-29 | for a stored value, an offered password is accepted exactly when it derives the same key with the stored salt |
| `Repository.OtherPasswordNeedsCollision` | chat/app/repository.py:22-29 | accepting a wrong password needs a PBKDF2 collision on two different byte strings |
| `Repository.UserTable.CreateUser` | chat/app/repository.py:33-54 | a new user name gets exactly one row holding salt‖key; a taken one fails with IntegrityError and changes nothing |
| `Repository.CreateAddsOneRow` | chat/app/repository.py:44-52 | adding a user adds one row and leaves every other row as it was |
| `Repository.CreateThenCheck` | chat/app/repository.py:16-42 | right after create_user(u, p), check_password(u, p) is true |
| `BotPoster.QuoteText` | botposter/app/main.py:27 | defines `f'{stock_name} quote is {stock_quote}'`; `QuoteTextInjective` states what it determines |
| `BotPoster.Callback` | botposter/app/main.py:24-34 | defines the callback's post or KeyError; `CallbackPost`, `RoutingByChatroom` and `BodyIgnoresChatroom` state what it posts |
| `BotPoster.CallbackPost` | botposter/app/main.py:24-34 | a post is made exactly when all four fields are present; its text is `stock_name quote is stock_quote`, its bot_name is copied, its URL ends with the chatroom |
| `BotPoster.RoutingByChatroom` | botposter/app/main.py:31-34 | two envelopes go to the same URL exactly when they name the same chatroom |
| `BotPoster.BodyIgnoresChatroom` | botposter/app/main.py:26-29 | the body `{text, bot_name}` does not depend on the chatroom |
| `BotPoster.QuoteTextInjective` | botposter/app/main.py:27 | with space-free stock names, the text determines the stock name and the quote |
| `BotPoster.Consume` | botposter/app/main.py:36-42 | deliveries are handled in queue order; each gives at most one post built by the callback; no post before the last handled delivery raised; all are handled unless an exception ends the run, which happens exactly at the first missing field or the first post that raises; that delivery is acknowledged and lost |
| `BotPoster.OnePostPerDelivery` | botposter/app/main.py:36-40 | with well-formed envelopes and a reachable chat service, every delivery gives exactly one post, in order |

## Left out

- JSON encoding and decoding (`json.dumps`, `json.loads`) are left out. Envelopes are records or maps of already-rendered strings, because the code only builds and reads them.
- The rendering of the float `stock_quote` is left out. It is an already-rendered string.
- Connection setup is left out: hosts, ports, credentials, `connection.channel()`, `connection.close()` and the relay's declare of its `publishstock` queue. The code keeps no state from them.
- Broker errors other than AMQPConnectionError while opening the connection are left out. For example, a channel error during declare or publish is not modelled.
- `time.sleep(10)` before the relay connects is left out. So are the `datetime` wall clock and its time zone: time is a supplied millisecond count.
- Generating uuid4 and `os.urandom` values is left out. The generated values are supplied parameters.
- The PBKDF2 computation is left out. It is an arbitrary deterministic `kdf`.
- Python strings holding lone surrogates are left out. A Dafny `char` is a Unicode scalar value, so such strings cannot be represented. The `.encode('utf-8')` that would raise on them is not modelled.
- The User row's `id`, `is_active`, `created_at` and relationships are left out. So are `db.refresh`. The table maps a user name to its stored hash, which is all the two functions read or write.
- Concurrency between HTTP handlers sharing the cache client is left out. So is ordering between the separate processes. Each operation is modelled as one sequential call.
- The quote-fetching worker and a broker reconnection loop are not part of this model. No such code is among the modelled files.
- `Services.SavedStore`: the refusal script covers only connection errors raised before a command reaches Redis. redis-py also raises ConnectionError when Redis ran the command and only the reply was lost. After such an error on SETEX, the store may already hold the new token, even when the call finally re-raises. The model instead leaves the store unchanged on give-up, so it does not capture that a refresh which finally raised may still have revoked the previous token. Other sessions are unaffected either way, since SETEX writes only its own key. A GET whose reply is lost changes nothing, so `ReadToken` is not affected.
- `BotPoster.Consume`: `requests.post` is called without a timeout, so a post can block forever, and every later delivery then waits behind it. The model takes each post to return or raise.
- `BotPoster.Consume`: the run stops at the exception, but with `auto_ack=True` the broker may already have pushed later deliveries to the consumer and counted them acknowledged; those are lost too, and the model does not capture that buffer.
- `BotPoster.RoutingByChatroom` is about the URL text the f-string builds. `requests` may quote or normalise that text, so two chatroom texts such as `a b` and `a%20b` can reach the same endpoint; that quoting is not modelled.
- `Services.FinishedAt`: a cache command is taken to take no time; only the 500 ms pauses advance the clock. `InformedExpiry` and `IssuedTokenLogsIn` rely on this.
- `Repository.CreateThenCheck`: the `hashed_password` column is declared as a `String` but is given the bytes `salt + key`. The model takes the database driver to store and return those bytes unchanged; any conversion on the way is not modelled.
- The HTTP routes, the hit counter, the browser script and the bot proxy are outside the modelled core.
