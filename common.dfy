/** Values shared by the repositories and services of the vault: optional and
    failing results, the error kinds the services raise, the foreign crypto
    calls as injected configuration, and the two query shapes the persistence
    layer offers (first match and all matches, in table order). */
module Common {

  datatype Option<T> = None | Some(value: T)

  /** The errors raised by the services. `ConflictError`, `NotFoundError` and
      `UnauthorizedError` are the values of the shared error module;
      `DuplicatedEmailError` and `DuplicatedTitleError` are the two declared in
      src/services/errors.ts; `RecordNotFoundError` is what the persistence
      layer throws when `delete` finds no row with the given id, and
      `UniqueConstraintError` what it throws when `create` would give a unique
      column a value another row already has. */
  datatype Error =
    | ConflictError(message: string)
    | NotFoundError
    | UnauthorizedError
    | DuplicatedEmailError
    | DuplicatedTitleError
    | RecordNotFoundError
    | UniqueConstraintError

  /** An operation that resolves to a value or throws an error. */
  datatype Result<T> = Ok(value: T) | Err(error: Error)

  /** An operation that resolves to nothing or throws an error. */
  datatype Outcome = Pass | Fail(error: Error)

  /** The symmetric cipher of the encryption module (`encrypt`, `decrypt`),
      whose code is not part of this model. */
  datatype Cipher = Cipher(encrypt: string -> string, decrypt: string -> string) {
    /** The one assumption made about the cipher: decryption undoes encryption. */
    ghost predicate Sound() {
      forall p :: decrypt(encrypt(p)) == p
    }
  }

  /** bcrypt: `hash(password, rounds, salt)`, with the salt (randomness in the
      library) made a parameter, and `compareSync(plain, hashed)`. */
  datatype Hasher = Hasher(hash: (string, nat, string) -> string, compareSync: (string, string) -> bool) {
    /** The one assumption made about bcrypt: a password matches its own hash. */
    ghost predicate Sound() {
      forall p, rounds, salt :: compareSync(p, hash(p, rounds, salt))
    }
  }

  /** jsonwebtoken: `sign` over the payload `{ userId }` with a secret, and
      `verify`, which recovers the payload from a token signed with that secret. */
  datatype Signer = Signer(sign: (int, string) -> string, verify: (string, string) -> Option<int>) {
    /** The one assumption made about the token library: a signed payload verifies. */
    ghost predicate Sound() {
      forall userId, secret :: verify(sign(userId, secret), secret) == Some(userId)
    }
  }

  /** The position of the first element satisfying `p`, or `|s|` when none does. */
  function FirstIndex<T>(s: seq<T>, p: T -> bool): (i: nat)
    ensures i <= |s|
    ensures i < |s| ==> p(s[i])
    ensures forall j :: 0 <= j < i ==> !p(s[j])
  {
    if s == [] then 0
    else if p(s[0]) then 0
    else 1 + FirstIndex(s[1..], p)
  }

  /** `findFirst`: the first element satisfying `p`, if any. */
  function Find<T(!new)>(s: seq<T>, p: T -> bool): (r: Option<T>)
    ensures r.None? <==> forall x :: x in s ==> !p(x)
    ensures r.Some? ==> r.value in s && p(r.value)
    ensures r.Some? ==> exists i :: 0 <= i < |s| && s[i] == r.value && forall j :: 0 <= j < i ==> !p(s[j])
  {
    var i := FirstIndex(s, p);
    if i < |s| then Some(s[i]) else None
  }

  /** `findMany`: the elements satisfying `p`, in their order in `s`. */
  function Filter<T(!new)>(s: seq<T>, p: T -> bool): (r: seq<T>)
    ensures |r| <= |s|
    ensures forall x :: x in r <==> x in s && p(x)
  {
    if s == [] then []
    else (if p(s[0]) then [s[0]] else []) + Filter(s[1..], p)
  }

  /** Filtering keeps order: it distributes over concatenation. */
  lemma {:induction false} FilterAppend<T(!new)>(a: seq<T>, b: seq<T>, p: T -> bool)
    ensures Filter(a + b, p) == Filter(a, p) + Filter(b, p)
  {
    if a == [] {
      assert a + b == b;
    } else {
      assert (a + b)[1..] == a[1..] + b;
      FilterAppend(a[1..], b, p);
    }
  }

  /** An element appended at the end joins the filtered list at its end. */
  lemma FilterAppendOne<T(!new)>(s: seq<T>, x: T, p: T -> bool)
    ensures Filter(s + [x], p) == if p(x) then Filter(s, p) + [x] else Filter(s, p)
  {
    FilterAppend(s, [x], p);
    assert [x][1..] == [];
  }

  /** No two rows of `s` share a value of `key`: a unique column. */
  ghost predicate UniqueKeys<T, K>(s: seq<T>, key: T -> K) {
    forall i, j :: 0 <= i < j < |s| ==> key(s[i]) != key(s[j])
  }

  /** Appending a row whose key is new keeps the key unique. */
  lemma AppendKeepsKeysUnique<T(!new), K>(s: seq<T>, x: T, key: T -> K)
    requires UniqueKeys(s, key)
    requires forall y :: y in s ==> key(y) != key(x)
    ensures UniqueKeys(s + [x], key)
  {
    forall i, j | 0 <= i < j < |s + [x]|
      ensures key((s + [x])[i]) != key((s + [x])[j])
    {
      if j == |s| {
        assert (s + [x])[i] in s;
      }
    }
  }

  /** Removing the row at `k` keeps the key unique, keeps only rows that were
      there, and leaves no row with the removed row's key. */
  lemma RemoveKeepsKeysUnique<T(!new), K>(s: seq<T>, k: nat, key: T -> K)
    requires k < |s|
    requires UniqueKeys(s, key)
    ensures UniqueKeys(s[..k] + s[k + 1..], key)
    ensures forall y :: y in s[..k] + s[k + 1..] ==> y in s && key(y) != key(s[k])
  {
    var rest := s[..k] + s[k + 1..];
    forall i, j | 0 <= i < j < |rest|
      ensures key(rest[i]) != key(rest[j])
    {
      assert rest[i] == s[if i < k then i else i + 1];
      assert rest[j] == s[if j < k then j else j + 1];
    }
    forall y | y in rest
      ensures y in s && key(y) != key(s[k])
    {
      var i :| 0 <= i < |rest| && rest[i] == y;
      assert rest[i] == s[if i < k then i else i + 1];
    }
  }

  /** Under a unique key, two rows with the same key are the same row. */
  lemma {:induction false} KeyDeterminesRow<T(!new), K>(s: seq<T>, key: T -> K, x: T, y: T)
    requires UniqueKeys(s, key)
    requires x in s && y in s && key(x) == key(y)
    ensures x == y
  {
    var i :| 0 <= i < |s| && s[i] == x;
    var j :| 0 <= j < |s| && s[j] == y;
    if i < j {
      assert key(s[i]) != key(s[j]);
    } else if j < i {
      assert key(s[j]) != key(s[i]);
    }
  }
}
