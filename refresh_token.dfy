/** `RefreshTokenRepositoryImpl` over an in-memory refresh-token table, a
    partition of its own: nothing here reads or writes the session tokens. */
module RefreshTokens {
  import opened Models

  class RefreshTokenRepository {
    /** The refresh-token table, in primary-key order. */
    var rows: seq<Token>
    /** `constants.RefreshTokenValidTime`: how long a new refresh token lives. */
    const validTime: int

    /** The unique index on `value`. */
    ghost predicate Valid()
      reads this
    {
      UniqueKeys(rows, ValueOf)
    }

    constructor (validTime: int)
      ensures Valid() && rows == [] && this.validTime == validTime
    {
      rows := [];
      this.validTime := validTime;
    }

    /** Issues a refresh token for `userId` that expires `validTime` after
        `now`; `draw` is what the token generator yielded (None: it failed).
        Existing rows are never touched: the table only grows, by exactly the
        returned row on success, and the new value is findable at once. */
    method CreateWithUserId(userId: nat, now: int, draw: Option<string>) returns (r: Result<Token>)
      requires Valid()
      modifies this
      ensures Valid()
      ensures (r, rows) == CreateToken(old(rows), userId, now + validTime, draw)
      ensures old(rows) <= rows
      ensures r.Ok? ==> FindByValue(r.value.value) == r
    {
      var expiredAt := now + validTime;
      if draw.None? {
        return Err(EntropyError);
      }
      var token := Token(userId, draw.value, expiredAt);
      if Contains(rows, ValueOf, token.value) {
        // the unique index on value rejects the insert
        return Err(UniqueViolation);
      }
      CreateThenFindToken(rows, userId, expiredAt, draw);
      rows := rows + [token];
      r := Ok(token);
    }

    /** Finds the refresh token whose value is `value`; by the unique index
        that row, if present, is the only candidate. */
    function FindByValue(value: string): (r: Result<Token>)
      reads this
      requires Valid()
      ensures r.Ok? <==> exists i :: 0 <= i < |rows| && rows[i].value == value
      ensures r.Err? ==> r.error == RecordNotFound
      ensures forall i :: 0 <= i < |rows| && rows[i].value == value ==> r == Ok(rows[i])
    {
      FindUnique(rows, value)
    }
  }
}
