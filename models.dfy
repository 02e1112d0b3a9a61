/** Rows of the three tables (users, session tokens, refresh tokens), the
    errors the repositories report, and the two table queries the repositories
    use: "WHERE column = ? ... First" and "INSERT" under a unique index. */
module Models {

  datatype Option<T> = None | Some(value: T)

  /** The failures the service distinguishes. */
  datatype Error =
    | EntropyError     // the secure random source failed while generating a token
    | UniqueViolation  // an insert hit a unique index (token value or device UUID)
    | RecordNotFound   // a "WHERE ... First" query matched no row
    | InvalidHeader    // the Authorization header is empty or absent
    | MalformedHeader  // the Authorization header does not split into two parts
    | TokenExpired     // the token's expiry lies strictly before now

  datatype Result<T> = Ok(value: T) | Err(error: Error)

  /** A session or refresh token row. Every field is create-only. */
  datatype Token = Token(userId: nat, value: string, expiredAt: int)

  /** A user row; `id` is the auto-incremented primary key. */
  datatype User = User(id: nat, deviceUuid: string)

  function ValueOf(t: Token): string { t.value }
  function UuidOf(u: User): string { u.deviceUuid }
  function IdOf(u: User): nat { u.id }

  /** Some row of the table has `key == k`. */
  predicate Contains<R, K(==)>(rows: seq<R>, key: R -> K, k: K) {
    exists i :: 0 <= i < |rows| && key(rows[i]) == k
  }

  /** The column `key` is a unique index: no two rows share a value. */
  ghost predicate UniqueKeys<R, K>(rows: seq<R>, key: R -> K) {
    forall i, j :: 0 <= i < j < |rows| ==> key(rows[i]) != key(rows[j])
  }

  /** Row `i` holds the key `k` and no row before it does. */
  predicate FirstMatch<R, K(==)>(rows: seq<R>, key: R -> K, k: K, i: int) {
    && 0 <= i < |rows|
    && key(rows[i]) == k
    && forall j :: 0 <= j < i ==> key(rows[j]) != k
  }

  /** `SELECT * WHERE key = k ORDER BY id LIMIT 1`: rows are kept in primary-key
      order, so the first matching row is returned. */
  function Where<R, K(==)>(rows: seq<R>, key: R -> K, k: K): (r: Result<R>)
    ensures r.Ok? <==> Contains(rows, key, k)
    ensures r.Err? ==> r.error == RecordNotFound
    ensures r.Ok? ==> key(r.value) == k && r.value in rows
    ensures r.Ok? ==> exists i :: FirstMatch(rows, key, k, i) && rows[i] == r.value
  {
    if |rows| == 0 then Err(RecordNotFound)
    else if key(rows[0]) == k then
      assert FirstMatch(rows, key, k, 0);
      Ok(rows[0])
    else
      var r := Where(rows[1..], key, k);
      assert r.Ok? ==> key(rows[1..][0]) == key(rows[1]);
      assert Contains(rows[1..], key, k) ==> Contains(rows, key, k) by {
        if Contains(rows[1..], key, k) {
          var i :| 0 <= i < |rows[1..]| && key(rows[1..][i]) == k;
          assert key(rows[i + 1]) == k;
        }
      }
      assert r.Ok? ==> exists i :: FirstMatch(rows, key, k, i) && rows[i] == r.value by {
        if r.Ok? {
          var i :| FirstMatch(rows[1..], key, k, i) && rows[1..][i] == r.value;
          forall j | 0 <= j < i + 1 ensures key(rows[j]) != k {
            if j > 0 { assert rows[j] == rows[1..][j - 1]; }
          }
          assert FirstMatch(rows, key, k, i + 1);
        }
      }
      r
  }

  /** Under a unique index the query finds exactly the row that holds the key. */
  lemma {:induction false} WhereFindsUnique<R, K>(rows: seq<R>, key: R -> K, i: nat)
    requires UniqueKeys(rows, key)
    requires i < |rows|
    ensures Where(rows, key, key(rows[i])) == Ok(rows[i])
  {
    if i > 0 {
      assert key(rows[0]) != key(rows[i]);
      assert rows[1..][i - 1] == rows[i];
      assert UniqueKeys(rows[1..], key) by {
        forall a, b | 0 <= a < b < |rows[1..]|
          ensures key(rows[1..][a]) != key(rows[1..][b])
        {
          assert rows[1..][a] == rows[a + 1] && rows[1..][b] == rows[b + 1];
        }
      }
      WhereFindsUnique(rows[1..], key, i - 1);
    }
  }

  /** Finding a token row by its value under the unique index on `value`:
      that row, if present, is the only candidate and is what comes back. */
  function FindUnique(rows: seq<Token>, value: string): (r: Result<Token>)
    requires UniqueKeys(rows, ValueOf)
    ensures r.Ok? <==> exists i :: 0 <= i < |rows| && rows[i].value == value
    ensures r.Err? ==> r.error == RecordNotFound
    ensures forall i :: 0 <= i < |rows| && rows[i].value == value ==> r == Ok(rows[i])
  {
    var r := Where(rows, ValueOf, value);
    assert forall i :: 0 <= i < |rows| && rows[i].value == value ==> r == Ok(rows[i]) by {
      forall i | 0 <= i < |rows| && rows[i].value == value ensures r == Ok(rows[i]) {
        WhereFindsUnique(rows, ValueOf, i);
      }
    }
    r
  }

  /** Appending a row changes the answer of the query only for a key that was
      absent before and that the new row holds. */
  lemma {:induction false} WhereAfterAppend<R, K>(rows: seq<R>, row: R, key: R -> K, k: K)
    ensures Where(rows + [row], key, k) ==
      if Contains(rows, key, k) then Where(rows, key, k)
      else if key(row) == k then Ok(row)
      else Err(RecordNotFound)
  {
    if |rows| > 0 {
      assert (rows + [row])[0] == rows[0];
      assert (rows + [row])[1..] == rows[1..] + [row];
      WhereAfterAppend(rows[1..], row, key, k);
    }
  }

  /** Appending a row whose key is new keeps the index unique. */
  lemma AppendKeepsUnique<R, K>(rows: seq<R>, row: R, key: R -> K)
    requires UniqueKeys(rows, key)
    requires !Contains(rows, key, key(row))
    ensures UniqueKeys(rows + [row], key)
  {
    forall i, j | 0 <= i < j < |rows + [row]|
      ensures key((rows + [row])[i]) != key((rows + [row])[j])
    {
      if j == |rows| {
        assert (rows + [row])[i] == rows[i];
      }
    }
  }

  /** `DB.Create(&token)` on a token table after `GenerateToken()`: a failed
      draw is an entropy error, a value already present violates the unique
      index, and otherwise exactly one row is appended. */
  function CreateToken(rows: seq<Token>, userId: nat, expiredAt: int, draw: Option<string>)
    : (res: (Result<Token>, seq<Token>))
    ensures draw.None? ==> res == (Err(EntropyError), rows)
    ensures draw.Some? && Contains(rows, ValueOf, draw.value) ==> res == (Err(UniqueViolation), rows)
    ensures res.0.Ok? <==> draw.Some? && !Contains(rows, ValueOf, draw.value)
    ensures res.0.Ok? ==> res.0.value == Token(userId, draw.value, expiredAt)
                          && res.1 == rows + [res.0.value]
    ensures UniqueKeys(rows, ValueOf) ==> UniqueKeys(res.1, ValueOf)
  {
    match draw
    case None => (Err(EntropyError), rows)
    case Some(v) =>
      if Contains(rows, ValueOf, v) then (Err(UniqueViolation), rows)
      else
        var t := Token(userId, v, expiredAt);
        assert UniqueKeys(rows, ValueOf) ==> UniqueKeys(rows + [t], ValueOf) by {
          if UniqueKeys(rows, ValueOf) { AppendKeepsUnique(rows, t, ValueOf); }
        }
        (Ok(t), rows + [t])
  }

  /** Round trip: after a successful create, looking the new value up returns
      the row just created, with its user and expiry. */
  lemma CreateThenFindToken(rows: seq<Token>, userId: nat, expiredAt: int, draw: Option<string>)
    requires CreateToken(rows, userId, expiredAt, draw).0.Ok?
    ensures var (r, rows') := CreateToken(rows, userId, expiredAt, draw);
            Where(rows', ValueOf, draw.value) == r
            && r.value.userId == userId && r.value.expiredAt == expiredAt
  {
    var t := Token(userId, draw.value, expiredAt);
    WhereAfterAppend(rows, t, ValueOf, draw.value);
  }

  /** Creating never edits or removes an existing row, so every value that
      was found before is found again, with the same row. */
  lemma CreateKeepsFound(rows: seq<Token>, userId: nat, expiredAt: int, draw: Option<string>, v: string)
    requires Where(rows, ValueOf, v).Ok?
    ensures Where(CreateToken(rows, userId, expiredAt, draw).1, ValueOf, v) == Where(rows, ValueOf, v)
  {
    if CreateToken(rows, userId, expiredAt, draw).0.Ok? {
      WhereAfterAppend(rows, Token(userId, draw.value, expiredAt), ValueOf, v);
    }
  }
}
