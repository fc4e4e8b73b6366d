/** The device authorization grant (RFC 8628, sections 3.3 to 3.5) over the device_codes table.

    A device code and its user code are issued together, both unique and never issued
    again, so one `Code` stands for the pair.  Clocks are arguments: the application's and
    the database's may disagree, and nothing below depends on them moving forward. */
module DeviceCodes {
  import opened Ids
  import opened Wrappers

  type Code = nat
  type User = nat

  datatype Row = Row(user: Option<User>, authorizedAt: Option<Time>, expiresAt: Time)

  datatype Error = NotFound | Expired | AlreadyUsed | AuthorizationPending | DatabaseError

  type Table = map<Code, Row>

  // ----- the statements

  /** SELECT by code, then the expiry test of the application. */
  function Lookup(t: Table, code: Code, now: Time, dbFails: bool): Result<Row, Error> {
    if dbFails || code !in t then Err(NotFound)
    else if now > t[code].expiresAt then Err(Expired)
    else Ok(t[code])
  }

  predicate Authorizable(t: Table, code: Code, now: Time) {
    code in t && t[code].authorizedAt.None? && t[code].expiresAt > now
  }

  function SetAuthorized(t: Table, code: Code, user: User, at: Time, now: Time): Table {
    if Authorizable(t, code, now) then t[code := t[code].(user := Some(user), authorizedAt := Some(at))] else t
  }

  function DeleteAuthorized(t: Table, code: Code): Table {
    if code in t && t[code].authorizedAt.Some? then t - {code} else t
  }

  function DeletePending(t: Table, code: Code): Table {
    if code in t && t[code].authorizedAt.None? then t - {code} else t
  }

  function DeleteExpired(t: Table, now: Time): Table {
    map c | c in t && !(t[c].expiresAt < now) :: t[c]
  }

  class DeviceCodeService {
    var rows: Table

    constructor ()
      ensures rows == map[]
    {
      rows := map[];
    }

    /** The codes are unique columns, so the insert fails rather than overwrite a row. */
    method RequestDeviceCode(code: Code, now: Time, expiry: Time, dbFails: bool) returns (r: Result<Code, Error>)
      modifies this
      ensures r == if dbFails || code in old(rows) then Err(DatabaseError) else Ok(code)
      ensures rows == if r.Ok? then old(rows)[code := Row(None, None, now + expiry)] else old(rows)
    {
      if dbFails || code in rows {
        return Err(DatabaseError);
      }
      rows := rows[code := Row(None, None, now + expiry)];
      r := Ok(code);
    }

    /** The SELECT and the UPDATE are separate statements with their own clock readings. */
    method Authorize(code: Code, user: User, readAt: Time, writeAt: Time, dbNow: Time, readFails: bool, writeFails: bool)
      returns (r: Result<(), Error>)
      modifies this
      ensures r.Ok? <==>
                && !readFails && !writeFails
                && code in old(rows) && readAt <= old(rows)[code].expiresAt
                && old(rows)[code].authorizedAt.None? && dbNow < old(rows)[code].expiresAt
      ensures rows == if r.Ok? then old(rows)[code := Row(Some(user), Some(writeAt), old(rows)[code].expiresAt)]
                      else old(rows)
      ensures r == Err(NotFound) <==> readFails || code !in old(rows)
      ensures r == Err(Expired) <==> !readFails && code in old(rows) && old(rows)[code].expiresAt < readAt
      ensures r == Err(DatabaseError) <==>
                && !readFails && code in old(rows) && readAt <= old(rows)[code].expiresAt
                && old(rows)[code].authorizedAt.None? && writeFails
      ensures !readFails && code in old(rows) && readAt <= old(rows)[code].expiresAt && old(rows)[code].authorizedAt.Some?
              ==> r == Err(AlreadyUsed)
    {
      var record := Lookup(rows, code, readAt, readFails);
      if record.Err? {
        return Err(record.error);
      }
      if record.value.authorizedAt.Some? {
        return Err(AlreadyUsed);
      }
      if writeFails {
        return Err(DatabaseError);
      }
      if !Authorizable(rows, code, dbNow) {
        return Err(AlreadyUsed);
      }
      rows := SetAuthorized(rows, code, user, writeAt, dbNow);
      r := Ok(());
    }

    method Poll(code: Code, now: Time, dbFails: bool) returns (r: Result<Option<User>, Error>)
      ensures r == Err(NotFound) <==> dbFails || code !in rows
      ensures r == Err(Expired) <==> !dbFails && code in rows && rows[code].expiresAt < now
      ensures r == Err(AuthorizationPending) <==>
                !dbFails && code in rows && now <= rows[code].expiresAt && rows[code].authorizedAt.None?
      ensures r.Ok? <==> !dbFails && code in rows && now <= rows[code].expiresAt && rows[code].authorizedAt.Some?
      ensures r.Ok? ==> r.value == rows[code].user
    {
      var record := Lookup(rows, code, now, dbFails);
      if record.Err? {
        return Err(record.error);
      }
      if record.value.authorizedAt.None? {
        return Err(AuthorizationPending);
      }
      r := Ok(record.value.user);
    }

    /** Looks at no clock: an authorized code can be consumed after it has expired. */
    method Consume(code: Code, dbFails: bool) returns (r: Result<(), Error>)
      modifies this
      ensures r.Ok? <==> !dbFails && code in old(rows) && old(rows)[code].authorizedAt.Some?
      ensures rows == if r.Ok? then old(rows) - {code} else old(rows)
      ensures r.Err? ==> r.error == if dbFails then DatabaseError else NotFound
    {
      if dbFails {
        return Err(DatabaseError);
      }
      var before := |rows|;
      rows := DeleteAuthorized(rows, code);
      if |rows| == before {
        r := Err(NotFound);
      } else {
        r := Ok(());
      }
    }

    method Deny(code: Code, dbFails: bool) returns (r: Result<(), Error>)
      modifies this
      ensures r.Ok? <==> !dbFails && code in old(rows) && old(rows)[code].authorizedAt.None?
      ensures rows == if r.Ok? then old(rows) - {code} else old(rows)
      ensures r.Err? ==> r.error == if dbFails then DatabaseError else NotFound
    {
      if dbFails {
        return Err(DatabaseError);
      }
      var before := |rows|;
      rows := DeletePending(rows, code);
      if |rows| == before {
        r := Err(NotFound);
      } else {
        r := Ok(());
      }
    }

    method Cleanup(dbNow: Time, dbFails: bool) returns (r: Result<nat, Error>)
      modifies this
      ensures rows == if dbFails then old(rows) else DeleteExpired(old(rows), dbNow)
      ensures r == if dbFails then Err(DatabaseError) else Ok(|old(rows)| - |rows|)
      ensures r.Ok? ==> rows == map c | c in old(rows) && dbNow <= old(rows)[c].expiresAt :: old(rows)[c]
    {
      if dbFails {
        return Err(DatabaseError);
      }
      var before := rows;
      ExpiredAreFewer(rows, dbNow);
      rows := DeleteExpired(rows, dbNow);
      r := Ok(|before| - |rows|);
    }
  }

  lemma ExpiredAreFewer(t: Table, now: Time)
    ensures |DeleteExpired(t, now)| <= |t|
  {
    var left := DeleteExpired(t, now);
    assert t.Keys == left.Keys + (t.Keys - left.Keys);
    assert |t.Keys| == |left.Keys| + |t.Keys - left.Keys|;
  }

  // ----- interleavings

  type Caller = nat

  /** What has succeeded for some code. */
  datatype Deed = Authorized(user: User) | Polled(answer: Option<User>) | Consumed | Denied

  datatype State = State(
    rows: Table,
    issued: set<Code>,
    between: map<Caller, (Code, User)>,   // callers of Authorize that have read and not yet updated
    log: seq<(Code, Deed)>)

  const START := State(map[], {}, map[], [])

  datatype Step =
    | Issue(code: Code, expiresAt: Time)
    | AuthorizeRead(caller: Caller, code: Code, user: User, now: Time, dbFails: bool)
    | AuthorizeWrite(caller: Caller, at: Time, dbNow: Time, dbFails: bool)
    | PollOnce(code: Code, now: Time, dbFails: bool)
    | ConsumeOnce(code: Code)
    | DenyOnce(code: Code)
    | CleanupOnce(dbNow: Time)

  function Note(s: State, code: Code, d: Deed): State {
    s.(log := s.log + [(code, d)])
  }

  function Next(s: State, l: Step): State {
    match l
    case Issue(code, expiresAt) =>
      if code in s.issued then s
      else s.(rows := s.rows[code := Row(None, None, expiresAt)], issued := s.issued + {code})
    case AuthorizeRead(caller, code, user, now, dbFails) =>
      var record := Lookup(s.rows, code, now, dbFails);
      if caller in s.between || record.Err? || record.value.authorizedAt.Some? then s
      else s.(between := s.between[caller := (code, user)])
    case AuthorizeWrite(caller, at, dbNow, dbFails) =>
      if caller !in s.between then s
      else
        var (code, user) := s.between[caller];
        var s' := s.(between := s.between - {caller});
        if dbFails || !Authorizable(s.rows, code, dbNow) then s'
        else Note(s'.(rows := SetAuthorized(s.rows, code, user, at, dbNow)), code, Authorized(user))
    case PollOnce(code, now, dbFails) =>
      var record := Lookup(s.rows, code, now, dbFails);
      if record.Err? || record.value.authorizedAt.None? then s else Note(s, code, Polled(record.value.user))
    case ConsumeOnce(code) =>
      var rows := DeleteAuthorized(s.rows, code);
      if rows == s.rows then s else Note(s.(rows := rows), code, Consumed)
    case DenyOnce(code) =>
      var rows := DeletePending(s.rows, code);
      if rows == s.rows then s else Note(s.(rows := rows), code, Denied)
    case CleanupOnce(dbNow) =>
      s.(rows := DeleteExpired(s.rows, dbNow))
  }

  function Run(steps: seq<Step>): State {
    if steps == [] then START else Next(Run(steps[..|steps| - 1]), steps[|steps| - 1])
  }

  /** With nothing in between, the two steps of Authorize have the effect its method has. */
  lemma StepsOfAuthorize(s: State, caller: Caller, code: Code, user: User, readAt: Time, writeAt: Time, dbNow: Time,
                         readFails: bool, writeFails: bool)
    requires caller !in s.between
    ensures var s' := Next(Next(s, AuthorizeRead(caller, code, user, readAt, readFails)),
                           AuthorizeWrite(caller, writeAt, dbNow, writeFails));
      var ok := && !readFails && !writeFails
                && code in s.rows && readAt <= s.rows[code].expiresAt && Authorizable(s.rows, code, dbNow);
      && s'.rows == (if ok then s.rows[code := Row(Some(user), Some(writeAt), s.rows[code].expiresAt)] else s.rows)
      && s'.log == (if ok then s.log + [(code, Authorized(user))] else s.log)
      && s'.between == s.between && s'.issued == s.issued
  {
    assert s.between[caller := (code, user)] - {caller} == s.between;
  }

  /** The deeds for one code, in order. */
  function Story(log: seq<(Code, Deed)>, code: Code): seq<Deed> {
    if log == [] then []
    else
      var rest, e := Story(log[..|log| - 1], code), log[|log| - 1];
      if e.0 == code then rest + [e.1] else rest
  }

  lemma StorySnoc(log: seq<(Code, Deed)>, c: Code, d: Deed, code: Code)
    ensures Story(log + [(c, d)], code) == Story(log, code) + if c == code then [d] else []
  {
    assert (log + [(c, d)])[..|log|] == log;
  }

  /** Authorized by `user`, then polled by clients who are all told `user`. */
  predicate IsOpen(story: seq<Deed>, user: User) {
    && |story| > 0 && story[0] == Authorized(user)
    && forall i :: 0 < i < |story| ==> story[i] == Polled(Some(user))
  }

  /** Nothing, or denied, or authorized and polled and perhaps consumed at the end. */
  predicate IsStory(story: seq<Deed>) {
    || story == []
    || story == [Denied]
    || (story[0].Authorized? && IsOpen(story, story[0].user))
    || (story[0].Authorized? && story[|story| - 1] == Consumed && IsOpen(story[..|story| - 1], story[0].user))
  }

  /** How the story of a code and its row belong together. */
  predicate Matches(s: State, code: Code, story: seq<Deed>) {
    if code !in s.issued then story == [] && code !in s.rows
    else if code !in s.rows then IsStory(story)
    else if s.rows[code].authorizedAt.None? then story == []
    else s.rows[code].user.Some? && IsOpen(story, s.rows[code].user.value)
  }

  lemma WriteMatches(s: State, caller: Caller, at: Time, dbNow: Time, dbFails: bool, code: Code)
    requires Matches(s, code, Story(s.log, code))
    ensures var s' := Next(s, AuthorizeWrite(caller, at, dbNow, dbFails)); Matches(s', code, Story(s'.log, code))
  {
    if caller in s.between {
      StorySnoc(s.log, s.between[caller].0, Authorized(s.between[caller].1), code);
    }
  }

  lemma PollMatches(s: State, c: Code, now: Time, dbFails: bool, code: Code)
    requires Matches(s, code, Story(s.log, code))
    ensures var s' := Next(s, PollOnce(c, now, dbFails)); Matches(s', code, Story(s'.log, code))
  {
    if c in s.rows {
      StorySnoc(s.log, c, Polled(s.rows[c].user), code);
    }
  }

  lemma DeletesNothing(t: Table, c: Code)
    ensures DeleteAuthorized(t, c) == t <==> c !in t || t[c].authorizedAt.None?
    ensures DeletePending(t, c) == t <==> c !in t || t[c].authorizedAt.Some?
  {
    assert c in t ==> c !in t - {c};
  }

  lemma ConsumeMatches(s: State, c: Code, code: Code)
    requires Matches(s, code, Story(s.log, code))
    ensures var s' := Next(s, ConsumeOnce(c)); Matches(s', code, Story(s'.log, code))
  {
    var story := Story(s.log, code);
    StorySnoc(s.log, c, Consumed, code);
    DeletesNothing(s.rows, c);
    hide Story, IsOpen, IsStory;
    assert story + [] == story;
    if c == code && c in s.rows && s.rows[c].authorizedAt.Some? {
      OpenThenConsumed(story, s.rows[c].user.value);
    }
  }

  lemma OpenThenConsumed(story: seq<Deed>, user: User)
    requires IsOpen(story, user)
    ensures IsStory(story + [Consumed])
  {
    assert (story + [Consumed])[..|story|] == story;
  }

  lemma DenyMatches(s: State, c: Code, code: Code)
    requires Matches(s, code, Story(s.log, code))
    ensures var s' := Next(s, DenyOnce(c)); Matches(s', code, Story(s'.log, code))
  {
    StorySnoc(s.log, c, Denied, code);
    DeletesNothing(s.rows, c);
    hide Story, IsOpen, IsStory;
    assert Story(s.log, code) + [] == Story(s.log, code);
    assert [] + [Denied] == [Denied];
    DeniedIsStory();
  }

  lemma DeniedIsStory()
    ensures IsStory([Denied])
  {
  }

  lemma NextMatches(s: State, l: Step, code: Code)
    requires Matches(s, code, Story(s.log, code))
    ensures Matches(Next(s, l), code, Story(Next(s, l).log, code))
  {
    match l
    case AuthorizeWrite(caller, at, dbNow, dbFails) => WriteMatches(s, caller, at, dbNow, dbFails, code);
    case PollOnce(c, now, dbFails) => PollMatches(s, c, now, dbFails, code);
    case ConsumeOnce(c) => ConsumeMatches(s, c, code);
    case DenyOnce(c) => DenyMatches(s, c, code);
    case Issue(_, _) =>
    case AuthorizeRead(_, _, _, _, _) =>
    case CleanupOnce(_) =>
  }

  lemma {:induction false} EveryCodeHasAStory(steps: seq<Step>, code: Code)
    ensures Matches(Run(steps), code, Story(Run(steps).log, code))
    ensures IsStory(Story(Run(steps).log, code))
    decreases |steps|
  {
    if steps == [] {
    } else {
      EveryCodeHasAStory(steps[..|steps| - 1], code);
      NextMatches(Run(steps[..|steps| - 1]), steps[|steps| - 1], code);
      hide Next, Run, Story;
    }
  }

  /** In every interleaving: at most one Authorize and at most one Consume succeed for a
      code; Consume only after Authorize and never with a Deny; and every poll that is
      answered names the user that Authorize wrote. */
  lemma AtMostOncePerCode(steps: seq<Step>, code: Code, i: nat, j: nat)
    requires var story := Story(Run(steps).log, code); i < |story| && j < |story|
    ensures var story := Story(Run(steps).log, code);
      && (story[i].Authorized? && story[j].Authorized? ==> i == j)
      && (story[i].Consumed? && story[j].Consumed? ==> i == j)
      && (story[i].Consumed? ==> 0 < i && story[0].Authorized? && !story[j].Denied?)
      && (story[i].Denied? ==> |story| == 1)
      && (story[i].Polled? ==> story[0].Authorized? && story[i].answer == Some(story[0].user) && 0 < i)
  {
    EveryCodeHasAStory(steps, code);
    hide Run, Story;
  }
}
