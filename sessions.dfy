/** Sessions: the session-code lookup, the generate-check-retry loop that
    picks a code no active session uses, the invite link and the creation
    of a session.

    The session table is a sequence of rows. Each call of `rand.Text()` in
    the loop, and the outcome of the lookup that follows it, is one element
    of a sequence of draws passed in by the caller. URL parsing and
    printing are a pair of functions with a round-trip law. */
module Sessions {
  import opened Common

  datatype SessionRow = SessionRow(id: Uuid, code: string, name: string, creator: Uuid, active: bool)

  datatype Error =
    | CheckFailed                  // "database error checking session code: ..."
    | VerifyFailed(cause: Error)   // "error verifying if code exists: ..."
    | NotConfigured                // "invite URL is not configured"
    | InvalidUrl                   // "invalid url: ..."
    | GenerateFailed(cause: Error) // "error generating session code: ..."
    | InsertFailed                 // "failed to create session in db: ..."
    | LinkFailed(cause: Error)     // "error generating invite link: ..."

  /** What a single-row query returns. */
  datatype Lookup = Found(row: SessionRow) | NoRows | QueryFailed

  /** Some active session uses `code`. */
  predicate ActiveCode(sessions: seq<SessionRow>, code: string) {
    exists k :: 0 <= k < |sessions| && sessions[k].active && sessions[k].code == code
  }

  /** The first active session with this code. */
  function FirstActive(sessions: seq<SessionRow>, code: string): (r: Option<SessionRow>)
    ensures r.Some? ==> r.value in sessions && r.value.active && r.value.code == code
    ensures r.None? <==> !ActiveCode(sessions, code)
    decreases |sessions|
  {
    if sessions == [] then None
    else if sessions[0].active && sessions[0].code == code then Some(sessions[0])
    else
      var r := FirstActive(sessions[1..], code);
      assert forall k :: 1 <= k < |sessions| ==> sessions[k] == sessions[1..][k - 1];
      r
  }

  /** GetActiveSessionByCode; `fails` is a storage failure. */
  function GetActiveSessionByCode(sessions: seq<SessionRow>, code: string, fails: bool): Lookup {
    if fails then QueryFailed
    else match FirstActive(sessions, code)
      case None => NoRows
      case Some(row) => Found(row)
  }

  /** CheckSessionCodeExists: "no rows" becomes false, a row true, any
      other error an error. */
  function CheckSessionCodeExists(sessions: seq<SessionRow>, code: string, fails: bool): Result<bool, Error> {
    match GetActiveSessionByCode(sessions, code, fails)
    case NoRows => Ok(false)
    case Found(_) => Ok(true)
    case QueryFailed => Err(CheckFailed)
  }

  /** The check answers false exactly when no active session has the code,
      true exactly when one has, and fails only on a storage failure. */
  lemma CheckSessionCodeExistsSpec(sessions: seq<SessionRow>, code: string, fails: bool)
    ensures CheckSessionCodeExists(sessions, code, fails) == Ok(false) <==> !fails && !ActiveCode(sessions, code)
    ensures CheckSessionCodeExists(sessions, code, fails) == Ok(true) <==> !fails && ActiveCode(sessions, code)
    ensures CheckSessionCodeExists(sessions, code, fails).Err? <==> fails
    ensures fails ==> CheckSessionCodeExists(sessions, code, fails) == Err(CheckFailed)
  {
  }

  // -----------------------------------------------------------------------
  // generateUniqueSessionCode

  /** One turn of the loop: the code `rand.Text()` returned and whether the
      lookup of it failed. */
  datatype Draw = Draw(code: string, fails: bool)

  /** What the loop returns after trying `draws` in order: Some(Ok(code)),
      Some(Err(...)), or None when it has not returned within them. */
  function Generated(sessions: seq<SessionRow>, draws: seq<Draw>): Option<Result<string, Error>>
    decreases |draws|
  {
    if draws == [] then None
    else match CheckSessionCodeExists(sessions, draws[0].code, draws[0].fails)
      case Err(e) => Some(Err(VerifyFailed(e)))
      case Ok(taken) => if !taken then Some(Ok(draws[0].code)) else Generated(sessions, draws[1..])
  }

  /** Draw `k` was checked and reported as taken. */
  predicate Taken(sessions: seq<SessionRow>, d: Draw) {
    CheckSessionCodeExists(sessions, d.code, d.fails) == Ok(true)
  }

  /** The loop stops at the first draw that is not reported as taken: it
      returns that draw's code when the check said false, and an error when
      the check failed. If every draw is reported taken it has not
      returned; with no bound on the draws, it never does. */
  lemma {:induction false} GeneratedOutcome(sessions: seq<SessionRow>, draws: seq<Draw>)
    ensures Generated(sessions, draws).None? <==> forall k :: 0 <= k < |draws| ==> Taken(sessions, draws[k])
    ensures Generated(sessions, draws).Some? ==> exists k :: (0 <= k < |draws|
      && (forall j :: 0 <= j < k ==> Taken(sessions, draws[j]))
      && (Generated(sessions, draws).value.Ok? ==>
            && Generated(sessions, draws).value.value == draws[k].code
            && !draws[k].fails && !ActiveCode(sessions, draws[k].code))
      && (Generated(sessions, draws).value.Err? ==>
            Generated(sessions, draws).value.error == VerifyFailed(CheckFailed) && draws[k].fails))
    decreases |draws|
  {
    if draws != [] {
      var d := draws[0];
      CheckSessionCodeExistsSpec(sessions, d.code, d.fails);
      var rest := draws[1..];
      assert forall k :: 1 <= k < |draws| ==> draws[k] == rest[k - 1];
      GeneratedOutcome(sessions, rest);
      if Taken(sessions, d) {
        if Generated(sessions, rest).Some? {
          var k :| 0 <= k < |rest|
            && (forall j :: 0 <= j < k ==> Taken(sessions, rest[j]))
            && (Generated(sessions, rest).value.Ok? ==>
                  && Generated(sessions, rest).value.value == rest[k].code
                  && !rest[k].fails && !ActiveCode(sessions, rest[k].code))
            && (Generated(sessions, rest).value.Err? ==>
                  Generated(sessions, rest).value.error == VerifyFailed(CheckFailed) && rest[k].fails);
          assert draws[k + 1] == rest[k];
        }
      } else {
        assert draws[0] == d;
      }
    }
  }

  // -----------------------------------------------------------------------
  // generateInviteLink

  /** A parsed URL: its query values and everything else. */
  datatype Url = Url(base: string, query: map<string, seq<string>>)

  /** `url.Parse` and `URL.String`, with the query encoded and decoded. */
  datatype UrlCodec = UrlCodec(parse: string -> Option<Url>, render: Url -> string)

  ghost predicate UrlLaws(c: UrlCodec) {
    forall u :: c.parse(c.render(u)) == Some(u)
  }

  function GenerateInviteLink(inviteURL: string, codec: UrlCodec, code: string): Result<string, Error> {
    if inviteURL == "" then Err(NotConfigured)
    else match codec.parse(inviteURL)
      case None => Err(InvalidUrl)
      case Some(link) => Ok(codec.render(link.(query := link.query["code" := [code]])))
  }

  /** An empty invite URL or one that does not parse is an error; otherwise
      the link is the configured URL with `code` set to exactly the session
      code, so reading the code back out of the link gives that code, and
      every other part of the URL is kept. */
  lemma InviteLinkCarriesCode(inviteURL: string, codec: UrlCodec, code: string)
    requires UrlLaws(codec)
    ensures inviteURL == "" ==> GenerateInviteLink(inviteURL, codec, code) == Err(NotConfigured)
    ensures inviteURL != "" && codec.parse(inviteURL).None? ==> GenerateInviteLink(inviteURL, codec, code) == Err(InvalidUrl)
    ensures GenerateInviteLink(inviteURL, codec, code).Ok? <==> inviteURL != "" && codec.parse(inviteURL).Some?
    ensures GenerateInviteLink(inviteURL, codec, code).Ok? ==>
      var configured := codec.parse(inviteURL).value;
      var back := codec.parse(GenerateInviteLink(inviteURL, codec, code).value);
      && back.Some?
      && back.value.base == configured.base
      && back.value.query.Keys == configured.query.Keys + {"code"}
      && back.value.query["code"] == [code]
      && (forall key :: key in configured.query && key != "code" ==> back.value.query[key] == configured.query[key])
  {
  }

  // -----------------------------------------------------------------------
  // CreateNewSession

  /** Active sessions use distinct codes. */
  ghost predicate CodesDistinct(sessions: seq<SessionRow>) {
    forall i, j :: 0 <= i < j < |sessions| && sessions[i].active && sessions[j].active ==> sessions[i].code != sessions[j].code
  }

  /** Some session already has this id. */
  predicate HasSessionId(sessions: seq<SessionRow>, id: Uuid) {
    exists k :: 0 <= k < |sessions| && sessions[k].id == id
  }

  /** Session ids are distinct (the table's primary key). */
  ghost predicate SessionIdsDistinct(sessions: seq<SessionRow>) {
    forall i, j :: 0 <= i < j < |sessions| ==> sessions[i].id != sessions[j].id
  }

  datatype Created = Created(sessions: seq<SessionRow>, result: Option<Result<(SessionRow, string), Error>>)

  /** CreateNewSession: a code, then the insert, then the invite link.
      `newId` is the id the storage assigns and `insertFails` a storage
      failure; the insert also fails when that id is taken. A None result
      is a code loop that has not returned. */
  function NewSession(sessions: seq<SessionRow>, inviteURL: string, codec: UrlCodec, name: string, creator: Uuid,
                            draws: seq<Draw>, newId: Uuid, insertFails: bool): Created {
    match Generated(sessions, draws)
    case None => Created(sessions, None)
    case Some(Err(e)) => Created(sessions, Some(Err(GenerateFailed(e))))
    case Some(Ok(code)) =>
      if insertFails || HasSessionId(sessions, newId) then Created(sessions, Some(Err(InsertFailed)))
      else
        var row := SessionRow(newId, code, name, creator, true);
        match GenerateInviteLink(inviteURL, codec, code)
        case Err(e) => Created(sessions + [row], Some(Err(LinkFailed(e))))
        case Ok(link) => Created(sessions + [row], Some(Ok((row, link))))
  }

  /** No code, no insert; a new session holds the generated code, the given
      name and the creator, and no active session had that code; an invite
      link failure comes after the insert, so the row stays; a success
      returns a link that carries the code; active codes and ids stay
      distinct. */
  lemma CreateNewSessionOrder(sessions: seq<SessionRow>, inviteURL: string, codec: UrlCodec, name: string, creator: Uuid,
                              draws: seq<Draw>, newId: Uuid, insertFails: bool)
    requires CodesDistinct(sessions)
    requires UrlLaws(codec)
    ensures var c := NewSession(sessions, inviteURL, codec, name, creator, draws, newId, insertFails);
      && CodesDistinct(c.sessions)
      && (SessionIdsDistinct(sessions) ==> SessionIdsDistinct(c.sessions))
      && (Generated(sessions, draws).None? ==> c.sessions == sessions && c.result.None?)
      && (Generated(sessions, draws).Some? && Generated(sessions, draws).value.Err? ==>
            c.sessions == sessions && c.result == Some(Err(GenerateFailed(Generated(sessions, draws).value.error))))
      && (insertFails || HasSessionId(sessions, newId) ==> c.sessions == sessions)
      && (c.sessions != sessions ==>
            && Generated(sessions, draws).Some? && Generated(sessions, draws).value.Ok?
            && !HasSessionId(sessions, newId)
            && !ActiveCode(sessions, Generated(sessions, draws).value.value)
            && c.sessions == sessions + [SessionRow(newId, Generated(sessions, draws).value.value, name, creator, true)])
      && (c.sessions != sessions && GenerateInviteLink(inviteURL, codec, Generated(sessions, draws).value.value).Err? ==>
            c.result == Some(Err(LinkFailed(GenerateInviteLink(inviteURL, codec, Generated(sessions, draws).value.value).error))))
      && (c.result.Some? && c.result.value.Ok? ==>
            && c.sessions == sessions + [c.result.value.value.0]
            && c.result.value.value.0 == SessionRow(newId, Generated(sessions, draws).value.value, name, creator, true)
            && codec.parse(c.result.value.value.1).Some?
            && codec.parse(c.result.value.value.1).value.query["code"] == [c.result.value.value.0.code])
  {
    var g := Generated(sessions, draws);
    GeneratedOutcome(sessions, draws);
    if g.Some? && g.value.Ok? && !insertFails && !HasSessionId(sessions, newId) {
      var code := g.value.value;
      InviteLinkCarriesCode(inviteURL, codec, code);
      var s' := sessions + [SessionRow(newId, code, name, creator, true)];
      forall i, j | 0 <= i < j < |s'| && s'[i].active && s'[j].active
        ensures s'[i].code != s'[j].code
      {
        if j == |sessions| {
          assert s'[i] == sessions[i];
        }
      }
      forall i, j | 0 <= i < j < |s'| ensures SessionIdsDistinct(sessions) ==> s'[i].id != s'[j].id {
        if j == |sessions| {
          assert s'[i] == sessions[i];
        }
      }
    }
  }

  /** SessionService: the invite URL it was built with and the session table. */
  class SessionService {
    const inviteURL: string
    const codec: UrlCodec
    var sessions: seq<SessionRow>

    ghost predicate Valid()
      reads this
    {
      UrlLaws(codec) && CodesDistinct(sessions) && SessionIdsDistinct(sessions)
    }

    constructor (inviteURL: string, codec: UrlCodec)
      requires UrlLaws(codec)
      ensures Valid() && this.inviteURL == inviteURL && this.codec == codec && sessions == []
    {
      this.inviteURL := inviteURL;
      this.codec := codec;
      sessions := [];
    }

    /** The loop, trying the draws in order until one is not taken or its
        check fails; None if it has not returned within them. */
    method GenerateUniqueSessionCode(draws: seq<Draw>) returns (r: Option<Result<string, Error>>)
      ensures r == Generated(sessions, draws)
      ensures r.Some? && r.value.Ok? ==> !ActiveCode(sessions, r.value.value)
    {
      GeneratedOutcome(sessions, draws);
      var i := 0;
      while i < |draws|
        invariant 0 <= i <= |draws|
        invariant Generated(sessions, draws[i..]) == Generated(sessions, draws)
      {
        assert draws[i..][1..] == draws[i + 1..];
        var taken := CheckSessionCodeExists(sessions, draws[i].code, draws[i].fails);
        if taken.Err? {
          return Some(Err(VerifyFailed(taken.error)));
        }
        if !taken.value {
          return Some(Ok(draws[i].code));
        }
        i := i + 1;
      }
      return None;
    }

    method CreateNewSession(name: string, creator: Uuid, draws: seq<Draw>, newId: Uuid, insertFails: bool)
      returns (r: Option<Result<(SessionRow, string), Error>>)
      requires Valid()
      modifies this
      ensures Valid()
      ensures sessions == NewSession(old(sessions), inviteURL, codec, name, creator, draws, newId, insertFails).sessions
      ensures r == NewSession(old(sessions), inviteURL, codec, name, creator, draws, newId, insertFails).result
    {
      CreateNewSessionOrder(sessions, inviteURL, codec, name, creator, draws, newId, insertFails);
      var generated := GenerateUniqueSessionCode(draws);
      if generated.None? {
        return None;
      }
      if generated.value.Err? {
        return Some(Err(GenerateFailed(generated.value.error)));
      }
      var code := generated.value.value;
      if insertFails || HasSessionId(sessions, newId) {
        return Some(Err(InsertFailed));
      }
      var row := SessionRow(newId, code, name, creator, true);
      sessions := sessions + [row];
      var link := GenerateInviteLink(inviteURL, codec, code);
      if link.Err? {
        return Some(Err(LinkFailed(link.error)));
      }
      return Some(Ok((row, link.value)));
    }
  }
}
