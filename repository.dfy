/** User creation and password checking (chat/app/repository.py).

    The stored hash is a random salt followed by the PBKDF2 key of the UTF-8
    encoded password. PBKDF2 itself is the parameter `kdf`: a deterministic
    function of the hash name, the password bytes, the salt and the iteration
    count, of which nothing else is assumed. The salt `os.urandom(32)` draws is
    a supplied value. */
module Repository {
  import opened Wrappers
  import Utf8

  const HashSaltLen: nat := 32
  const HashIterations: nat := 100000
  const HashAlgorithm: string := "sha256"

  /** `hashlib.pbkdf2_hmac(hash_name, password, salt, iterations)`. */
  type Kdf = (string, seq<Utf8.byte>, seq<Utf8.byte>, nat) -> seq<Utf8.byte>

  /** The key both functions derive: same algorithm, encoding and iterations. */
  function DeriveKey(kdf: Kdf, password: string, salt: seq<Utf8.byte>): seq<Utf8.byte>
  {
    kdf(HashAlgorithm, Utf8.Encode(password), salt, HashIterations)
  }

  /** `salt + key`, the value create_user stores. */
  function HashPassword(kdf: Kdf, password: string, salt: seq<Utf8.byte>): (stored: seq<Utf8.byte>)
    requires |salt| == HashSaltLen
    ensures SliceTo(stored, HashSaltLen) == salt
    ensures SliceFrom(stored, HashSaltLen) == DeriveKey(kdf, password, salt)
  {
    salt + DeriveKey(kdf, password, salt)
  }

  /** Python's `s[:n]`: the first `n` elements, or all of a shorter `s`. */
  function SliceTo(s: seq<Utf8.byte>, n: nat): (r: seq<Utf8.byte>)
    ensures |r| == if n <= |s| then n else |s|
    ensures forall i :: 0 <= i < |r| ==> r[i] == s[i]
  {
    if n <= |s| then s[..n] else s
  }

  /** Python's `s[n:]`: what follows the first `n` elements, or nothing. */
  function SliceFrom(s: seq<Utf8.byte>, n: nat): (r: seq<Utf8.byte>)
    ensures |r| == if n <= |s| then |s| - n else 0
    ensures forall i :: 0 <= i < |r| ==> r[i] == s[n + i]
  {
    if n <= |s| then s[n..] else []
  }

  /** The two slices put back together give the stored value. */
  lemma SlicesRejoin(s: seq<Utf8.byte>, n: nat)
    ensures SliceTo(s, n) + SliceFrom(s, n) == s
  {
  }

  /** How the repository calls can end other than with a value: `.first()`
      found no row (AttributeError on None), or the unique constraint on the
      user name refused the commit (IntegrityError). */
  datatype DbError = AttributeError | IntegrityError

  /** The users table: user name to stored hashed password. */
  type Users = map<string, seq<Utf8.byte>>

  /** check_password: split the stored value into salt and key, re-derive the
      key from the offered password and that salt, compare. */
  function CheckPassword(users: Users, username: string, password: string, kdf: Kdf): Result<bool, DbError>
  {
    if username !in users then
      Failure(AttributeError)
    else
      var salt := SliceTo(users[username], HashSaltLen);
      var key := SliceFrom(users[username], HashSaltLen);
      var newKey := kdf(HashAlgorithm, Utf8.Encode(password), salt, HashIterations);
      Success(key == newKey)
  }

  /** Asking about a user name with no row raises instead of answering false. */
  lemma CheckPasswordWithoutUser(users: Users, username: string, password: string, kdf: Kdf)
    ensures CheckPassword(users, username, password, kdf).Failure? <==> username !in users
    ensures username !in users ==> CheckPassword(users, username, password, kdf) == Failure(AttributeError)
  {
  }

  /** For a value create_user stored, an offered password is accepted exactly
      when it derives, with the stored salt, the key the real one derived. */
  lemma CheckPasswordIff(users: Users, username: string, password: string, offered: string,
                         salt: seq<Utf8.byte>, kdf: Kdf)
    requires |salt| == HashSaltLen
    requires username in users && users[username] == HashPassword(kdf, password, salt)
    ensures CheckPassword(users, username, offered, kdf)
            == Success(DeriveKey(kdf, offered, salt) == DeriveKey(kdf, password, salt))
  {
  }

  /** Accepting a password other than the one stored needs two different
      byte strings to which PBKDF2 gives the same key. */
  lemma OtherPasswordNeedsCollision(users: Users, username: string, password: string, offered: string,
                                    salt: seq<Utf8.byte>, kdf: Kdf)
    requires |salt| == HashSaltLen
    requires username in users && users[username] == HashPassword(kdf, password, salt)
    requires offered != password
    requires CheckPassword(users, username, offered, kdf) == Success(true)
    ensures Utf8.Encode(offered) != Utf8.Encode(password)
    ensures kdf(HashAlgorithm, Utf8.Encode(offered), salt, HashIterations)
            == kdf(HashAlgorithm, Utf8.Encode(password), salt, HashIterations)
  {
    Utf8.EncodeInjective(offered, password);
  }

  /** The User row create_user adds and returns. */
  datatype User = User(username: string, hashedPassword: seq<Utf8.byte>)

  /** The database session as create_user sees it. */
  class UserTable {
    var users: Users

    constructor (initial: Users)
      ensures users == initial
    {
      users := initial;
    }

    /** create_user: hash the password with the supplied salt and add one row;
        a taken user name fails the commit and adds nothing. */
    method CreateUser(username: string, password: string, salt: seq<Utf8.byte>, kdf: Kdf)
      returns (r: Result<User, DbError>)
      requires |salt| == HashSaltLen
      modifies this
      ensures username in old(users) ==> r == Failure(IntegrityError) && users == old(users)
      ensures username !in old(users) ==>
                && r == Success(User(username, HashPassword(kdf, password, salt)))
                && users == old(users)[username := HashPassword(kdf, password, salt)]
    {
      var key := kdf(HashAlgorithm, Utf8.Encode(password), salt, HashIterations);
      var hashedPassword := salt + key;
      var dbUser := User(username, hashedPassword);
      if username in users {
        return Failure(IntegrityError);
      }
      users := users[username := hashedPassword];
      r := Success(dbUser);
    }
  }

  /** Adding a new user adds one row and changes no other row. */
  lemma CreateAddsOneRow(users: Users, username: string, password: string, salt: seq<Utf8.byte>, kdf: Kdf)
    requires |salt| == HashSaltLen && username !in users
    ensures var after := users[username := HashPassword(kdf, password, salt)];
            && after.Keys == users.Keys + {username}
            && |after| == |users| + 1
            && forall u :: u in users ==> after[u] == users[u]
  {
  }

  /** Round trip: right after create_user(u, p), check_password(u, p) is true. */
  lemma CreateThenCheck(users: Users, username: string, password: string, salt: seq<Utf8.byte>, kdf: Kdf)
    requires |salt| == HashSaltLen
    ensures CheckPassword(users[username := HashPassword(kdf, password, salt)], username, password, kdf)
            == Success(true)
  {
  }
}
