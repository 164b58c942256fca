/** The chat service's session cache, token issuing, login check and stock
    bot publisher (chat/app/services.py).

    Time is an integer number of milliseconds supplied by the caller. Each
    cache call is given a script of connection outcomes: `refusals[i]` is true
    when attempt `i` is refused with a ConnectionError, and attempts past the
    end of the script reach the server. Fresh UUIDs are supplied values. */
module Services {
  import opened Wrappers
  import Utf8
  import Redis
  import Strings

  const SendingQueue: string := "requeststock"
  const StockBotName: string := "stockbot"
  const CacheExpireTimeSeconds: nat := 300
  const NumRedisRetries: nat := 5
  /** A cache call tries once and then once more per retry. */
  const MaxAttempts: nat := NumRedisRetries + 1
  /** The pause between two attempts of a cache call. */
  const RetrySleepMs: nat := 500
  /** TOKEN_EXPIRATION_FACTOR = 0.8 is added to the clock as a number of seconds. */
  const TokenExpirationFactorMs: nat := 800
  /** TOKEN_INFORMED_EXPIRATION_SECONDS = 300 * 0.8, defined but never used. */
  const TokenInformedExpirationMs: nat := 240000

  // ---------------------------------------------------------------------
  // Session keys

  /** The cache key of a session: `f'{username}:{session_id}'`. */
  function SessionKey(username: string, sessionId: string): string
  {
    username + ":" + sessionId
  }

  /** Keys identify sessions as long as user names hold no colon. */
  lemma SessionKeyInjective(u1: string, s1: string, u2: string, s2: string)
    requires ':' !in u1 && ':' !in u2
    ensures SessionKey(u1, s1) == SessionKey(u2, s2) <==> u1 == u2 && s1 == s2
  {
    Strings.HeadAtFirstSeparator(u1, ":" + s1, u2, ":" + s2, ':');
    assert SessionKey(u1, s1) == u1 + (":" + s1);
    assert SessionKey(u2, s2) == u2 + (":" + s2);
    if SessionKey(u1, s1) == SessionKey(u2, s2) {
      Strings.PrefixCancel(":", s1, s2);
    }
  }

  /** Nothing stops a user name from holding a colon: user `u:x` with session
      `s` and user `u` with session `x:s` share one cache key. */
  lemma SessionKeyCollision(u: string, x: string, s: string)
    ensures u + ":" + x != u
    ensures SessionKey(u + ":" + x, s) == SessionKey(u, x + ":" + s)
  {
  }

  // ---------------------------------------------------------------------
  // The bounded retry discipline of a cache call

  /** Whether attempt `i` is refused. */
  predicate Refused(refusals: seq<bool>, i: nat)
  {
    i < |refusals| && refusals[i]
  }

  /** Every allowed attempt is refused, so the call re-raises the ConnectionError. */
  predicate GivesUp(refusals: seq<bool>)
  {
    forall i :: 0 <= i < MaxAttempts ==> Refused(refusals, i)
  }

  /** How many attempts a call makes once attempts before `i` were refused. */
  function AttemptsFrom(refusals: seq<bool>, i: nat): (n: nat)
    requires i < MaxAttempts
    ensures i < n <= MaxAttempts
    ensures forall j :: i <= j < n - 1 ==> Refused(refusals, j)
    ensures n < MaxAttempts ==> !Refused(refusals, n - 1)
    decreases MaxAttempts - i
  {
    if i == MaxAttempts - 1 || !Refused(refusals, i) then i + 1 else AttemptsFrom(refusals, i + 1)
  }

  /** How many attempts a call makes: it stops at the first answered one, and
      after the sixth refusal in a row. */
  function Attempts(refusals: seq<bool>): (n: nat)
    ensures 1 <= n <= MaxAttempts
    ensures forall j :: 0 <= j < n - 1 ==> Refused(refusals, j)
    ensures GivesUp(refusals) <==> Refused(refusals, n - 1)
    ensures GivesUp(refusals) ==> n == MaxAttempts
  {
    AttemptsFrom(refusals, 0)
  }

  /** The instant of a call's last attempt: one pause after each refused one. */
  function FinishedAt(now: nat, refusals: seq<bool>): nat
  {
    now + RetrySleepMs * (Attempts(refusals) - 1)
  }

  /** Five refusals in a row are survived: the sixth attempt still goes out. */
  lemma FiveRefusalsAreSurvived(refusals: seq<bool>)
    requires |refusals| == NumRedisRetries
    ensures !GivesUp(refusals)
    ensures Attempts(refusals) == MaxAttempts <==> forall i :: 0 <= i < |refusals| ==> refusals[i]
  {
    assert !Refused(refusals, MaxAttempts - 1);
    if Attempts(refusals) == MaxAttempts {
      forall i | 0 <= i < |refusals| ensures refusals[i] {
        assert Refused(refusals, i);
      }
    }
  }

  /** Three refusals followed by an answer: four attempts, and the call goes through. */
  lemma ThreeRefusalsThenAnswer()
    ensures !GivesUp([true, true, true, false])
    ensures Attempts([true, true, true, false]) == 4
  {
    var r := [true, true, true, false];
    assert !Refused(r, 3);
    assert AttemptsFrom(r, 3) == 4;
  }

  // ---------------------------------------------------------------------
  // CacheService

  datatype CacheError = ConnectionError

  /** The client object `redis.Redis(host='redis', port=6379)`. */
  class RedisClient {
    constructor ()
    {
    }
  }

  /** The store a save leaves behind: the entry written by the answered
      attempt, or the old store when every attempt was refused. */
  function SavedStore(store: Redis.Store, username: string, sessionId: string, token: string,
                      now: nat, refusals: seq<bool>): Redis.Store
  {
    if GivesUp(refusals) then store
    else Redis.Setex(store, SessionKey(username, sessionId), CacheExpireTimeSeconds, token, FinishedAt(now, refusals))
  }

  /** What a read returns: the live bytes under the key at the instant of the
      answered attempt, or the ConnectionError when every attempt was refused. */
  function ReadToken(store: Redis.Store, username: string, sessionId: string,
                     now: nat, refusals: seq<bool>): Result<Option<seq<Utf8.byte>>, CacheError>
  {
    if GivesUp(refusals) then Failure(ConnectionError)
    else Success(Redis.Get(store, SessionKey(username, sessionId), FinishedAt(now, refusals)))
  }

  /** The process-wide cache service. Python keeps its one field at class
      level; one object of this class stands for that class state. */
  class CacheService {
    /** The class attribute `cache`: null until a cache call builds the client. */
    var cache: RedisClient?
    /** What the Redis server behind the client holds. */
    var store: Redis.Store

    constructor (initial: Redis.Store)
      ensures cache == null && store == initial
    {
      cache := null;
      store := initial;
    }

    /** Builds the client on first use and keeps it afterwards. */
    method EnsureClient()
      modifies this`cache
      ensures old(cache) != null ==> cache == old(cache)
      ensures old(cache) == null ==> cache != null && fresh(cache)
    {
      if cache == null {
        cache := new RedisClient();
      }
    }

    /** SETEX the token under the session key, retrying refused attempts.
        `attempts` counts the commands sent; the source does not return it,
        it is there so that the contract can state the retry bound. */
    method SaveTokenToCache(username: string, sessionId: string, token: string, now: nat, refusals: seq<bool>)
      returns (outcome: Outcome<CacheError>, attempts: nat)
      modifies this
      ensures old(cache) != null ==> cache == old(cache)
      ensures old(cache) == null ==> cache != null && fresh(cache)
      ensures attempts == Attempts(refusals)
      ensures outcome == if GivesUp(refusals) then Fail(ConnectionError) else Pass
      ensures store == SavedStore(old(store), username, sessionId, token, now, refusals)
    {
      EnsureClient();
      var retries := NumRedisRetries;
      var clock := now;
      attempts := 0;
      while true
        invariant 0 <= retries <= NumRedisRetries
        invariant attempts == NumRedisRetries - retries
        invariant clock == now + RetrySleepMs * attempts
        invariant forall j :: 0 <= j < attempts ==> Refused(refusals, j)
        invariant Attempts(refusals) == AttemptsFrom(refusals, attempts)
        invariant store == old(store)
        invariant old(cache) != null ==> cache == old(cache)
        invariant old(cache) == null ==> cache != null && fresh(cache)
        decreases retries
      {
        attempts := attempts + 1;
        if !Refused(refusals, attempts - 1) {
          store := Redis.Setex(store, SessionKey(username, sessionId), CacheExpireTimeSeconds, token, clock);
          outcome := Pass;
          return;
        }
        if retries == 0 {
          outcome := Fail(ConnectionError);
          return;
        }
        retries := retries - 1;
        clock := clock + RetrySleepMs;
      }
    }

    /** GET the bytes under the session key, retrying refused attempts;
        `attempts` as for SaveTokenToCache. */
    method GetSessionTokenFromCache(username: string, sessionId: string, now: nat, refusals: seq<bool>)
      returns (r: Result<Option<seq<Utf8.byte>>, CacheError>, attempts: nat)
      modifies this`cache
      ensures old(cache) != null ==> cache == old(cache)
      ensures old(cache) == null ==> cache != null && fresh(cache)
      ensures attempts == Attempts(refusals)
      ensures r == ReadToken(store, username, sessionId, now, refusals)
    {
      EnsureClient();
      var retries := NumRedisRetries;
      var clock := now;
      attempts := 0;
      while true
        invariant 0 <= retries <= NumRedisRetries
        invariant attempts == NumRedisRetries - retries
        invariant clock == now + RetrySleepMs * attempts
        invariant forall j :: 0 <= j < attempts ==> Refused(refusals, j)
        invariant Attempts(refusals) == AttemptsFrom(refusals, attempts)
        invariant old(cache) != null ==> cache == old(cache)
        invariant old(cache) == null ==> cache != null && fresh(cache)
        decreases retries
      {
        attempts := attempts + 1;
        if !Refused(refusals, attempts - 1) {
          r := Success(Redis.Get(store, SessionKey(username, sessionId), clock));
          return;
        }
        if retries == 0 {
          r := Failure(ConnectionError);
          return;
        }
        retries := retries - 1;
        clock := clock + RetrySleepMs;
      }
    }
  }

  /** A saved token reads back, byte for byte, up to the instant its time to
      live runs out, and is gone once the clock is past it. */
  lemma SavedTokenReadsBack(store: Redis.Store, username: string, sessionId: string, token: string,
                            now: nat, refusals: seq<bool>, later: nat, readRefusals: seq<bool>)
    requires !GivesUp(refusals) && !GivesUp(readRefusals)
    ensures ReadToken(SavedStore(store, username, sessionId, token, now, refusals), username, sessionId, later, readRefusals)
            == Success(if FinishedAt(later, readRefusals) <= FinishedAt(now, refusals) + CacheExpireTimeSeconds * 1000
                       then Some(Utf8.Encode(token)) else None)
  {
  }

  // ---------------------------------------------------------------------
  // TokenService

  /** The dictionary `{'token', 'session_id', 'expires_in'}`; `expires_in` is
      an instant in milliseconds. */
  datatype TokenGrant = TokenGrant(token: string, sessionId: string, expiresIn: nat)

  /** `now + timedelta(seconds=0.8)` printed with DATE_FORMAT, which keeps
      whole seconds only. */
  function InformedExpiry(savedAt: nat): (e: nat)
    ensures e % 1000 == 0
    ensures savedAt + TokenExpirationFactorMs - 1000 < e <= savedAt + TokenExpirationFactorMs
    ensures e < savedAt + TokenInformedExpirationMs < savedAt + CacheExpireTimeSeconds * 1000
  {
    (savedAt + TokenExpirationFactorMs) / 1000 * 1000
  }

  /** What create_token and refresh_token return when the save went through. */
  function Grant(token: string, sessionId: string, now: nat, refusals: seq<bool>): Result<TokenGrant, CacheError>
  {
    if GivesUp(refusals) then Failure(ConnectionError)
    else Success(TokenGrant(token, sessionId, InformedExpiry(FinishedAt(now, refusals))))
  }

  /** create_token: a fresh token under a fresh session id. */
  method CreateToken(service: CacheService, username: string, freshToken: string, freshSessionId: string,
                     now: nat, refusals: seq<bool>)
    returns (r: Result<TokenGrant, CacheError>)
    modifies service
    ensures old(service.cache) != null ==> service.cache == old(service.cache)
    ensures old(service.cache) == null ==> service.cache != null && fresh(service.cache)
    ensures service.cache != null
    ensures r == Grant(freshToken, freshSessionId, now, refusals)
    ensures service.store == SavedStore(old(service.store), username, freshSessionId, freshToken, now, refusals)
  {
    var outcome, _ := service.SaveTokenToCache(username, freshSessionId, freshToken, now, refusals);
    if outcome.Fail? {
      return Failure(outcome.error);
    }
    var expireTime := InformedExpiry(FinishedAt(now, refusals));
    r := Success(TokenGrant(freshToken, freshSessionId, expireTime));
  }

  /** refresh_token: a fresh token under the caller's session id. */
  method RefreshToken(service: CacheService, username: string, sessionId: string, freshToken: string,
                      now: nat, refusals: seq<bool>)
    returns (r: Result<TokenGrant, CacheError>)
    modifies service
    ensures old(service.cache) != null ==> service.cache == old(service.cache)
    ensures old(service.cache) == null ==> service.cache != null && fresh(service.cache)
    ensures service.cache != null
    ensures r == Grant(freshToken, sessionId, now, refusals)
    ensures service.store == SavedStore(old(service.store), username, sessionId, freshToken, now, refusals)
  {
    var outcome, _ := service.SaveTokenToCache(username, sessionId, freshToken, now, refusals);
    if outcome.Fail? {
      return Failure(outcome.error);
    }
    var expireTime := InformedExpiry(FinishedAt(now, refusals));
    r := Success(TokenGrant(freshToken, sessionId, expireTime));
  }

  /** A save writes the one key of its session and no other: a fresh session
      adds exactly one key, and every other key reads as before. */
  lemma SaveWritesOneKey(store: Redis.Store, username: string, sessionId: string, token: string,
                         now: nat, refusals: seq<bool>)
    requires !GivesUp(refusals)
    ensures SavedStore(store, username, sessionId, token, now, refusals).Keys
            == store.Keys + {SessionKey(username, sessionId)}
    ensures SessionKey(username, sessionId) !in store ==>
              |SavedStore(store, username, sessionId, token, now, refusals)| == |store| + 1
    ensures forall k, t :: k != SessionKey(username, sessionId) ==>
              Redis.Get(SavedStore(store, username, sessionId, token, now, refusals), k, t) == Redis.Get(store, k, t)
  {
  }

  // ---------------------------------------------------------------------
  // LoginService

  /** How is_logged_in can end other than with a verdict. */
  datatype LoginError = CacheConnectionError | UnicodeDecodeError

  /** The comparison of line 32: absent bytes are a mismatch; present bytes
      are decoded as UTF-8 and compared with the token. */
  function TokenMatches(token: string, cached: Option<seq<Utf8.byte>>): Result<bool, LoginError>
  {
    match cached
    case None => Success(false)
    case Some(b) =>
      match Utf8.Decode(b)
      case None => Failure(UnicodeDecodeError)
      case Some(s) => Success(s == token)
  }

  /** The cached bytes match exactly when they are the token's encoding; they
      mismatch when absent or the encoding of another string. */
  lemma TokenMatchesIff(token: string, cached: Option<seq<Utf8.byte>>)
    ensures TokenMatches(token, cached) == Success(true) <==> cached == Some(Utf8.Encode(token))
    ensures TokenMatches(token, cached) == Success(false) <==>
              cached.None? || (Utf8.Decode(cached.value).Some? && cached.value != Utf8.Encode(token))
  {
    if cached.Some? {
      Utf8.DecodesTo(cached.value, token);
    }
  }

  /** The verdict of is_logged_in on a given cache. */
  function LoginVerdict(store: Redis.Store, username: Option<string>, token: Option<string>,
                        sessionId: Option<string>, now: nat, refusals: seq<bool>): Result<bool, LoginError>
  {
    if username.None? || token.None? || sessionId.None? then Success(false)
    else
      match ReadToken(store, username.value, sessionId.value, now, refusals)
      case Failure(_) => Failure(CacheConnectionError)
      case Success(cached) => TokenMatches(token.value, cached)
  }

  /** is_logged_in: fails closed on a missing input without touching the cache. */
  method IsLoggedIn(service: CacheService, username: Option<string>, token: Option<string>,
                    sessionId: Option<string>, now: nat, refusals: seq<bool>)
    returns (r: Result<bool, LoginError>)
    modifies service`cache
    ensures r == LoginVerdict(service.store, username, token, sessionId, now, refusals)
    ensures username.None? || token.None? || sessionId.None? ==> service.cache == old(service.cache)
    ensures old(service.cache) != null ==> service.cache == old(service.cache)
    ensures username.Some? && token.Some? && sessionId.Some? ==> service.cache != null
    ensures username.Some? && token.Some? && sessionId.Some? && old(service.cache) == null ==>
              fresh(service.cache)
  {
    if username.None? || token.None? || sessionId.None? {
      return Success(false);
    }
    var sessionToken, _ := service.GetSessionTokenFromCache(username.value, sessionId.value, now, refusals);
    if sessionToken.Failure? {
      return Failure(CacheConnectionError);
    }
    r := TokenMatches(token.value, sessionToken.value);
  }

  /** A missing user name, token or session id is never logged in, whatever
      the cache holds and whether or not it is reachable. */
  lemma FailsClosed(store: Redis.Store, username: Option<string>, token: Option<string>,
                    sessionId: Option<string>, now: nat, refusals: seq<bool>)
    requires username.None? || token.None? || sessionId.None?
    ensures LoginVerdict(store, username, token, sessionId, now, refusals) == Success(false)
  {
  }

  /** With all three inputs present, the verdict is true exactly when the
      cache, reached before giving up, holds the token's bytes alive under the
      session key; an unreachable cache is an error, never a verdict. */
  lemma LoginVerdictIff(store: Redis.Store, username: string, token: string, sessionId: string,
                        now: nat, refusals: seq<bool>)
    ensures LoginVerdict(store, Some(username), Some(token), Some(sessionId), now, refusals) == Success(true)
            <==> !GivesUp(refusals)
                 && Redis.Get(store, SessionKey(username, sessionId), FinishedAt(now, refusals)) == Some(Utf8.Encode(token))
    ensures GivesUp(refusals) <==>
              LoginVerdict(store, Some(username), Some(token), Some(sessionId), now, refusals) == Failure(CacheConnectionError)
  {
    if !GivesUp(refusals) {
      TokenMatchesIff(token, Redis.Get(store, SessionKey(username, sessionId), FinishedAt(now, refusals)));
    }
  }

  /** A token issued for a session logs that session in up to the instant the
      cache entry expires, and not after. */
  lemma IssuedTokenLogsIn(store: Redis.Store, username: string, token: string, sessionId: string,
                          now: nat, refusals: seq<bool>, later: nat, readRefusals: seq<bool>)
    requires !GivesUp(refusals) && !GivesUp(readRefusals)
    ensures LoginVerdict(SavedStore(store, username, sessionId, token, now, refusals),
                         Some(username), Some(token), Some(sessionId), later, readRefusals)
            == Success(FinishedAt(later, readRefusals) <= FinishedAt(now, refusals) + CacheExpireTimeSeconds * 1000)
  {
    Utf8.DecodeEncode(token);
  }

  /** Refreshing a session replaces its token: the previous token no longer
      logs the session in, at any time. */
  lemma RefreshRevokesPreviousToken(store: Redis.Store, username: string, sessionId: string,
                                    previous: string, replacement: string, now: nat, refusals: seq<bool>,
                                    later: nat, readRefusals: seq<bool>)
    requires previous != replacement
    requires !GivesUp(refusals) && !GivesUp(readRefusals)
    ensures LoginVerdict(SavedStore(store, username, sessionId, replacement, now, refusals),
                         Some(username), Some(previous), Some(sessionId), later, readRefusals)
            == Success(false)
  {
    Utf8.DecodeEncode(replacement);
  }

  /** Saving a token for one session leaves the verdict for every session
      with another key as it was. */
  lemma SaveKeepsOtherSessions(store: Redis.Store, username: string, sessionId: string, token: string,
                               now: nat, refusals: seq<bool>,
                               otherUser: string, otherToken: string, otherSession: string,
                               later: nat, readRefusals: seq<bool>)
    requires SessionKey(otherUser, otherSession) != SessionKey(username, sessionId)
    ensures LoginVerdict(SavedStore(store, username, sessionId, token, now, refusals),
                         Some(otherUser), Some(otherToken), Some(otherSession), later, readRefusals)
            == LoginVerdict(store, Some(otherUser), Some(otherToken), Some(otherSession), later, readRefusals)
  {
  }

  /** A client of the contracts above: with the cache refusing three times and
      answering the fourth, create_token still issues a token, and two seconds
      later that token logs its session in. */
  method IssueThenLogIn(username: string, token: string, sessionId: string, now: nat)
  {
    var service := new CacheService(map[]);
    var refusals := [true, true, true, false];
    ThreeRefusalsThenAnswer();
    var grant := CreateToken(service, username, token, sessionId, now, refusals);
    assert grant.Success? && grant.value.token == token && grant.value.sessionId == sessionId;
    var verdict := IsLoggedIn(service, Some(username), Some(token), Some(sessionId), now + 2000, []);
    assert !Refused([], 0);
    IssuedTokenLogsIn(map[], username, token, sessionId, now, refusals, now + 2000, []);
    assert verdict == Success(true);
  }

  // ---------------------------------------------------------------------
  // BotService

  datatype BotError = IndexError

  /** `text.split('=')[1]`. */
  function StockCode(text: string): Result<string, BotError>
  {
    var parts := Strings.Split(text, '=');
    if |parts| < 2 then Failure(IndexError) else Success(parts[1])
  }

  /** The stock code is found exactly when the text holds an '='; it never
      holds an '=' itself, and it sits right after the first one. */
  lemma StockCodeFound(text: string)
    ensures StockCode(text).Success? <==> '=' in text
    ensures StockCode(text).Success? ==> '=' !in StockCode(text).value
  {
    Strings.SplitHasSeveralPieces(text, '=');
  }

  /** `prefix=code` followed by nothing or by further `=`-fields gives `code`. */
  lemma StockCodeOfCommand(prefix: string, code: string, rest: string)
    requires '=' !in prefix && '=' !in code
    requires rest == [] || rest[0] == '='
    ensures StockCode(prefix + "=" + code + rest) == Success(code)
  {
    Strings.SecondPiece(prefix, code, rest, '=');
  }

  /** The three cases the command takes: a plain command, a command with a
      second '=', and text with no '=' at all. */
  lemma StockCodeExamples()
    ensures StockCode("/stock=AAPL") == Success("AAPL")
    ensures StockCode("/stock=A=B") == Success("A")
    ensures StockCode("/stock") == Failure(IndexError)
  {
    StockCodeOfCommand("/stock", "AAPL", "");
    assert "/stock=AAPL" == "/stock" + "=" + "AAPL" + "";
    StockCodeOfCommand("/stock", "A", "=B");
    assert "/stock=A=B" == "/stock" + "=" + "A" + "=B";
    StockCodeFound("/stock");
  }

  /** A BotService object: its two attributes are set once, in __init__. */
  datatype BotService = BotService(stockName: string, chatroomId: string)

  /** `BotService(message_body, chatroom_id)`, which raises IndexError when the
      text has no '='. */
  function NewBotService(text: string, chatroomId: string): Result<BotService, BotError>
  {
    match StockCode(text)
    case Failure(e) => Failure(e)
    case Success(code) => Success(BotService(code, chatroomId))
  }

  /** The request envelope `{stock_code, chatroom, bot_name}`. */
  datatype StockRequest = StockRequest(stockCode: string, chatroom: string, botName: string)

  function Outgoing(bot: BotService): StockRequest
  {
    StockRequest(bot.stockName, bot.chatroomId, StockBotName)
  }

  /** A stock command posted to a chatroom becomes the request for its code,
      addressed to that chatroom and signed by the stock bot. */
  lemma CommandBecomesRequest(prefix: string, code: string, rest: string, chatroomId: string)
    requires '=' !in prefix && '=' !in code
    requires rest == [] || rest[0] == '='
    ensures NewBotService(prefix + "=" + code + rest, chatroomId).Success?
    ensures Outgoing(NewBotService(prefix + "=" + code + rest, chatroomId).value)
            == StockRequest(code, chatroomId, "stockbot")
  {
    StockCodeOfCommand(prefix, code, rest);
  }

  datatype PublishError = AMQPConnectionError

  /** queue_declare: creates the queue when it does not exist yet. */
  function Declare(queues: map<string, seq<StockRequest>>, name: string): (r: map<string, seq<StockRequest>>)
    ensures name in r && r.Keys == queues.Keys + {name}
    ensures forall q :: q in queues ==> r[q] == queues[q]
    ensures name !in queues ==> r[name] == []
  {
    if name in queues then queues else queues[name := []]
  }

  /** basic_publish on the default exchange: the message joins the end of the
      queue named by the routing key; other queues do not change. */
  function Publish(queues: map<string, seq<StockRequest>>, routingKey: string, message: StockRequest)
    : (r: map<string, seq<StockRequest>>)
    requires routingKey in queues
    ensures r.Keys == queues.Keys
    ensures r[routingKey] == queues[routingKey] + [message]
    ensures forall q :: q in queues && q != routingKey ==> r[q] == queues[q]
  {
    queues[routingKey := queues[routingKey] + [message]]
  }

  /** The message broker, as far as the chat service uses it. */
  class Broker {
    /** The queues that exist on the broker, each a FIFO of envelopes. */
    var queues: map<string, seq<StockRequest>>

    constructor (initial: map<string, seq<StockRequest>>)
      ensures queues == initial
    {
      queues := initial;
    }

    /** _send_message_to_queue: connect, declare `requeststock`, publish the
        envelope to it. `reachable` says whether the connection opens. */
    method SendMessageToQueue(bot: BotService, reachable: bool) returns (outcome: Outcome<PublishError>)
      modifies this
      ensures outcome == if reachable then Pass else Fail(AMQPConnectionError)
      ensures queues == if reachable then Publish(Declare(old(queues), SendingQueue), SendingQueue, Outgoing(bot))
                        else old(queues)
    {
      if !reachable {
        return Fail(AMQPConnectionError);
      }
      queues := Declare(queues, SendingQueue);
      var outgoing := Outgoing(bot);
      queues := Publish(queues, SendingQueue, outgoing);
      outcome := Pass;
    }

    /** post_stock: True after a publish, False on AMQPConnectionError. */
    method PostStock(bot: BotService, reachable: bool) returns (ok: bool)
      modifies this
      ensures ok == reachable
      ensures queues == if ok then Publish(Declare(old(queues), SendingQueue), SendingQueue, Outgoing(bot))
                        else old(queues)
    {
      var outcome := SendMessageToQueue(bot, reachable);
      if outcome.Fail? {
        return false;
      }
      return true;
    }
  }

  /** A post goes to the back of `requeststock`, whether or not the queue
      existed before, and leaves every other queue as it was. */
  lemma PostAppendsToRequestQueue(queues: map<string, seq<StockRequest>>, bot: BotService)
    ensures var after := Publish(Declare(queues, SendingQueue), SendingQueue, Outgoing(bot));
            && after.Keys == queues.Keys + {SendingQueue}
            && after[SendingQueue] == (if SendingQueue in queues then queues[SendingQueue] else []) + [Outgoing(bot)]
            && forall q :: q in queues && q != SendingQueue ==> after[q] == queues[q]
  {
  }
}
