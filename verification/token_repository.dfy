/** The tokens table of the auth service, as a sequence of rows. Saving does
    not enforce uniqueness, so several rows may carry the same token string. */
module TokenRepository {
  import opened Wrappers

  /** One row of the table: owner, token string, absolute expiry. */
  datatype TokenRow = TokenRow(userId: nat, token: string, expiresAt: int)

  /** What a lookup yields: the owning user and the expiry. */
  datatype Owner = Owner(userId: nat, expiresAt: int)

  /** Some row of the table carries `token`. */
  predicate Has(rows: seq<TokenRow>, token: string)
  {
    exists i :: 0 <= i < |rows| && rows[i].token == token
  }

  /** Save: an INSERT of one row. */
  function Save(rows: seq<TokenRow>, userId: nat, token: string, expiresAt: int): (r: seq<TokenRow>)
    ensures |r| == |rows| + 1 && r[..|rows|] == rows
    ensures r[|rows|] == TokenRow(userId, token, expiresAt)
    ensures multiset(r) == multiset(rows) + multiset{TokenRow(userId, token, expiresAt)}
    ensures Has(r, token)
    ensures !Has(rows, token) ==> Find(r, token) == Some(Owner(userId, expiresAt))
  {
    var r := rows + [TokenRow(userId, token, expiresAt)];
    assert r[|rows|].token == token;
    r
  }

  /** Saving never shadows a token that already has a row: lookups keep
      answering with the earlier row. */
  lemma SaveKeepsEarlierRow(rows: seq<TokenRow>, userId: nat, token: string, expiresAt: int, other: string)
    requires Has(rows, other)
    ensures Find(Save(rows, userId, token, expiresAt), other) == Find(rows, other)
  {
    var r := Save(rows, userId, token, expiresAt);
    var i := FirstIndex(rows, other).value;
    assert r[i] == rows[i];
    assert forall j :: 0 <= j < i ==> r[j] == rows[j];
  }

  /** The position of the first row carrying `token`, if any. */
  function FirstIndex(rows: seq<TokenRow>, token: string): (r: Option<nat>)
    ensures r.None? <==> !Has(rows, token)
    ensures r.Some? ==> r.value < |rows| && rows[r.value].token == token
    ensures r.Some? ==> forall j :: 0 <= j < r.value ==> rows[j].token != token
  {
    if |rows| == 0 then None
    else if rows[0].token == token then Some(0)
    else match FirstIndex(rows[1..], token)
      case None => None
      case Some(k) => Some(k + 1)
  }

  /** Find: the owner and expiry of the first row carrying `token`; None
      stands for the error the row scan reports when no row matches. */
  function Find(rows: seq<TokenRow>, token: string): (r: Option<Owner>)
    ensures r.None? <==> !Has(rows, token)
    ensures r.Some? ==> exists i :: 0 <= i < |rows| && rows[i].token == token
                          && r.value == Owner(rows[i].userId, rows[i].expiresAt)
                          && forall j :: 0 <= j < i ==> rows[j].token != token
  {
    match FirstIndex(rows, token)
    case None => None
    case Some(i) => Some(Owner(rows[i].userId, rows[i].expiresAt))
  }

  /** Delete: removes every row carrying `token`; removing nothing is not an error. */
  function Delete(rows: seq<TokenRow>, token: string): (r: seq<TokenRow>)
    ensures !Has(r, token)
    ensures forall i :: 0 <= i < |r| ==> r[i] in rows
    ensures !Has(rows, token) ==> r == rows
  {
    if |rows| == 0 then []
    else
      var rest := Delete(rows[1..], token);
      if rows[0].token == token then rest
      else
        assert !Has(rows[1..], token) ==> rest == rows[1..];
        [rows[0]] + rest
  }

  /** Delete keeps every row whose token differs, with its multiplicity. */
  lemma {:induction false} DeleteKeepsOtherRows(rows: seq<TokenRow>, token: string)
    ensures forall row: TokenRow | row.token != token :: multiset(Delete(rows, token))[row] == multiset(rows)[row]
    ensures forall row: TokenRow | row.token == token :: multiset(Delete(rows, token))[row] == 0
  {
    if |rows| > 0 {
      DeleteKeepsOtherRows(rows[1..], token);
      assert rows == [rows[0]] + rows[1..];
      assert multiset(rows) == multiset{rows[0]} + multiset(rows[1..]);
      if rows[0].token != token {
        assert Delete(rows, token) == [rows[0]] + Delete(rows[1..], token);
        assert multiset(Delete(rows, token)) == multiset{rows[0]} + multiset(Delete(rows[1..], token));
      }
    }
  }

  /** After a Delete the token no longer resolves. */
  lemma DeleteThenFind(rows: seq<TokenRow>, token: string)
    ensures Find(Delete(rows, token), token) == None
  {
  }
}
