/** Token pairs and their rotation on the server (RFC 6749, section 6). */
module TokenService {
  import opened Ids
  import opened Wrappers

  type Jti = nat

  datatype Kind = Access | Refresh

  datatype Row = Row(kind: Kind, revoked: bool, expiresAt: Time)

  type Table = map<Jti, Row>

  datatype Pair = Pair(access: Jti, refresh: Jti)

  datatype TokenError = InvalidToken | ExpiredToken | RevokedToken | StoreError | SigningError

  /** What parsing a presented token yields. */
  datatype Presented = Garbled | OutOfDate | Signed(jti: Jti, kind: Kind)

  /** Where the token store, or the signing of the new tokens, fails, if it does. */
  datatype Fault = NoFault | LookupFails | RevokeFails | SignFails | AccessCreateFails | RefreshCreateFails

  predicate Valid(rows: Table, jti: Jti, now: Time) {
    jti in rows && !rows[jti].revoked && rows[jti].expiresAt > now
  }

  /** Checks the signature and type, then that the row is neither revoked nor expired. */
  function CheckRefresh(rows: Table, p: Presented, now: Time, fault: Fault): Result<Jti, TokenError> {
    match p
    case Garbled => Err(InvalidToken)
    case OutOfDate => Err(ExpiredToken)
    case Signed(jti, kind) =>
      if kind != Refresh then Err(InvalidToken)
      else if fault == LookupFails then Err(StoreError)
      else if !Valid(rows, jti, now) then Err(RevokedToken)
      else Ok(jti)
  }

  function Revoke(rows: Table, jti: Jti): Table {
    if jti in rows then rows[jti := rows[jti].(revoked := true)] else rows
  }

  /** Once both tokens are signed, creates the access row and then the refresh row; the first
      stays if the second fails. */
  function Generate(rows: Table, made: Pair, expiry: Time, refreshExpiry: Time, fault: Fault): Table {
    if fault == SignFails || fault == AccessCreateFails then rows
    else
      var rows1 := rows[made.access := Row(Access, false, expiry)];
      if fault == RefreshCreateFails then rows1 else rows1[made.refresh := Row(Refresh, false, refreshExpiry)]
  }

  /** The token passes the checks and its row is revoked: from here on it is spent. */
  predicate Redeems(rows: Table, p: Presented, now: Time, fault: Fault) {
    CheckRefresh(rows, p, now, fault).Ok? && fault != RevokeFails
  }

  function RowsAfter(rows: Table, p: Presented, made: Pair, now: Time, expiry: Time, refreshExpiry: Time, fault: Fault): Table {
    if !Redeems(rows, p, now, fault) then rows
    else Generate(Revoke(rows, p.jti), made, expiry, refreshExpiry, fault)
  }

  function Reply(rows: Table, p: Presented, made: Pair, now: Time, fault: Fault): Result<Pair, TokenError> {
    match CheckRefresh(rows, p, now, fault)
    case Err(e) => Err(e)
    case Ok(_) => if fault == NoFault then Ok(made) else Err(if fault == SignFails then SigningError else StoreError)
  }

  class JWTService {
    var rows: Table

    constructor ()
      ensures rows == map[]
    {
      rows := map[];
    }

    method Create(jti: Jti, row: Row, fails: bool) returns (ok: bool)
      requires jti !in rows
      modifies this
      ensures ok <==> !fails
      ensures rows == if fails then old(rows) else old(rows)[jti := row]
    {
      if !fails {
        rows := rows[jti := row];
      }
      ok := !fails;
    }

    method GenerateTokenPair(made: Pair, expiry: Time, refreshExpiry: Time, fault: Fault)
      returns (r: Result<Pair, TokenError>)
      requires made.access != made.refresh && made.access !in rows && made.refresh !in rows
      modifies this
      ensures rows == Generate(old(rows), made, expiry, refreshExpiry, fault)
      ensures r == if fault == SignFails then Err(SigningError)
                   else if fault == AccessCreateFails || fault == RefreshCreateFails then Err(StoreError)
                   else Ok(made)
    {
      if fault == SignFails {
        return Err(SigningError);
      }
      var ok := Create(made.access, Row(Access, false, expiry), fault == AccessCreateFails);
      if !ok {
        return Err(StoreError);
      }
      ok := Create(made.refresh, Row(Refresh, false, refreshExpiry), fault == RefreshCreateFails);
      if !ok {
        return Err(StoreError);
      }
      r := Ok(made);
    }

    method ValidateRefreshToken(p: Presented, now: Time, fault: Fault) returns (r: Result<Jti, TokenError>)
      ensures r.Ok? <==>
                && p.Signed? && p.kind == Refresh && fault != LookupFails
                && p.jti in rows && !rows[p.jti].revoked && now < rows[p.jti].expiresAt
      ensures r.Ok? ==> r.value == p.jti
      ensures r.Err? ==> r.error == match p
                                    case Garbled => InvalidToken
                                    case OutOfDate => ExpiredToken
                                    case Signed(_, kind) =>
                                      if kind != Refresh then InvalidToken
                                      else if fault == LookupFails then StoreError
                                      else RevokedToken
      ensures r == CheckRefresh(rows, p, now, fault)
    {
      if p.Garbled? {
        return Err(InvalidToken);
      }
      if p.OutOfDate? {
        return Err(ExpiredToken);
      }
      if p.kind != Refresh {
        return Err(InvalidToken);
      }
      if fault == LookupFails {
        return Err(StoreError);
      }
      if !Valid(rows, p.jti, now) {
        return Err(RevokedToken);
      }
      r := Ok(p.jti);
    }

    /** One call, with no other caller in between. */
    method RefreshTokens(p: Presented, made: Pair, now: Time, expiry: Time, refreshExpiry: Time, fault: Fault)
      returns (r: Result<Pair, TokenError>)
      requires made.access != made.refresh && made.access !in rows && made.refresh !in rows
      modifies this
      ensures r == Reply(old(rows), p, made, now, fault)
      ensures rows == RowsAfter(old(rows), p, made, now, expiry, refreshExpiry, fault)
    {
      var claims := ValidateRefreshToken(p, now, fault);
      if claims.Err? {
        return Err(claims.error);
      }
      if fault == RevokeFails {
        return Err(StoreError);
      }
      rows := Revoke(rows, claims.value);
      r := GenerateTokenPair(made, expiry, refreshExpiry, fault);
    }
  }

  /** A call whose token passes the checks spends it, unless the revocation fails: presenting
      it again is refused for good.  It then adds the rows of the new pair up to the first
      failure, and reports success only if there was none.  A call whose token does not pass
      changes nothing, and no call touches another row. */
  lemma RotationSpendsTheToken(rows: Table, p: Presented, made: Pair, now: Time, expiry: Time, refreshExpiry: Time,
                               fault: Fault, later: Time, fault': Fault)
    requires made.access != made.refresh && made.access !in rows && made.refresh !in rows
    ensures var rows' := RowsAfter(rows, p, made, now, expiry, refreshExpiry, fault);
      var reply := Reply(rows, p, made, now, fault);
      var passes := && p.Signed? && p.kind == Refresh && fault != LookupFails
                    && p.jti in rows && !rows[p.jti].revoked && rows[p.jti].expiresAt > now;
      && (reply.Ok? <==> passes && fault == NoFault)
      && (reply.Ok? ==> reply.value == made)
      && (passes && reply.Err? ==> reply.error == if fault == SignFails then SigningError else StoreError)
      && (!passes || fault == RevokeFails ==> rows' == rows)
      && (passes && fault != RevokeFails ==>
            var spent := rows[p.jti := rows[p.jti].(revoked := true)];
            var withAccess := spent[made.access := Row(Access, false, expiry)];
            && CheckRefresh(rows', p, later, fault').Err?
            && rows' == if fault == SignFails || fault == AccessCreateFails then spent
                        else if fault == RefreshCreateFails then withAccess
                        else withAccess[made.refresh := Row(Refresh, false, refreshExpiry)])
      && (forall j :: j in rows && (!p.Signed? || j != p.jti) ==> j in rows' && rows'[j] == rows[j])
  {
  }
}
