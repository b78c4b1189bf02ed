/**
 The authorization code flow of section 4.1 of RFC 6749 as steps over the session
 (auth/handlers/handle_oauth2.go:36-167, auth/oauth2/user_authorizer.go:13-64,
 auth/request/session.go:45-100).

 The session is saved when a handler succeeds (auth/handlers/handler.go:202-220): a handler that
 returns an error leaves it as it was.
 */
module Consent {
  import opened WorkflowTypes
  import opened Subjects

  /** url.Values */
  type Params = map<string, seq<string>>

  datatype Client = Client(id: nat, trusted: bool, enabled: bool)

  datatype User = User(id: nat, emailConfirmed: bool)

  /** The keys for the paused request, the client and its authorization, and the user. */
  datatype State = State(params: Option<Params>, client: Option<Client>, authorized: bool, user: Option<User>)

  const EMPTY: State := State(None, None, false, None)

  /** `lookup` finds a client by ID or handle; `valid` is the check of the OAuth2 library. */
  datatype Env = Env(lookup: string -> Option<Client>, valid: Params -> bool)

  /**
   `basic` is the ID of a Basic authorization header; `ready` tells that the user is completely
   authenticated; `can` that the roles of the user allow the client.
   */
  datatype Event =
    | Login(user: User)
    | Logout
    | Authorize(form: Params, basic: Option<string>)
    | ConsentPage(ready: bool, can: bool)
    | ConsentForm(ready: bool, can: bool, allow: bool)
    | Token

  datatype Outcome =
    | Nothing
    | Paused
    | Approved
    | Denied
    | Rejected
    | Issued(form: Params, user: User)

  function RequestedID(form: Params, basic: Option<string>): Option<string> {
    if basic.Some? then basic
    else if "client_id" !in form then None
    else if form["client_id"] == [] then Some("")
    else Some(form["client_id"][0])
  }

  /** The stored request wins over the one that came in. */
  function Resumed(st: State, form: Params): Params {
    if st.params.Some? then st.params.value else form
  }

  function WithClient(form: Params, c: Client): Params {
    form["client_id" := [Dec(c.id)]]
  }

  /** The authorizer of the library: pauses for login or consent, or spends the authorization. */
  function UserAuthorizer(st: State, form: Params): (State, Outcome) {
    var paused := st.(params := Some(form));
    if st.user.None? then (paused, Paused)
    else if !st.authorized || st.client.None? then (paused, Paused)
    else (State(None, None, false, st.user), Issued(form, st.user.value))
  }

  function AuthorizeStep(env: Env, st: State, form: Params, basic: Option<string>): (State, Outcome) {
    var f := Resumed(st, form);
    var id := RequestedID(f, basic);
    var client := if id.Some? then env.lookup(id.value) else None;
    if id.Some? && client.None? then (st, Rejected)
    else
      var f' := if client.Some? then WithClient(f, client.value) else f;
      var st' := st.(params := None, client := if client.Some? then client else st.client);
      if !env.valid(f') then (st', Rejected) else UserAuthorizer(st', f')
  }

  function ConsentPageStep(st: State, can: bool): (State, Outcome) {
    if st.client.None? || !st.client.value.enabled then (st, Nothing)
    else if !can then (st.(client := None, params := None), Denied)
    else if st.user.Some? && st.user.value.emailConfirmed && st.client.value.trusted then
      (st.(authorized := true), Approved)
    else (st, Nothing)
  }

  function ConsentFormStep(st: State, can: bool, allow: bool): (State, Outcome) {
    if can && allow then (st.(client := None, authorized := true), Approved)
    else (st.(client := if can then None else st.client, params := None), Denied)
  }

  function Step(env: Env, st: State, e: Event): (State, Outcome) {
    match e
    case Login(u) => (st.(user := Some(u)), Nothing)
    case Logout => (EMPTY, Nothing)
    case Authorize(form, basic) => AuthorizeStep(env, st, form, basic)
    case ConsentPage(ready, can) => if ready then ConsentPageStep(st, can) else (st, Nothing)
    case ConsentForm(ready, can, allow) => if ready then ConsentFormStep(st, can, allow) else (st, Nothing)
    case Token => (st.(authorized := false), Nothing)
  }

  function Run(env: Env, st: State, events: seq<Event>): State
    decreases |events|
  {
    if events == [] then st else Run(env, Step(env, st, events[0]).0, events[1..])
  }

  function Outcomes(env: Env, st: State, events: seq<Event>): (r: seq<Outcome>)
    ensures |r| == |events|
    decreases |events|
  {
    if events == [] then [] else [Step(env, st, events[0]).1] + Outcomes(env, Step(env, st, events[0]).0, events[1..])
  }

  // ----- What events mean -----

  /**
   Consent is given: the user, whose roles allow the client, presses "allow" on the consent form, or, with a
   confirmed address, comes to the consent page of a stored client that is enabled and trusted.
   */
  predicate Consents(st: State, e: Event) {
    || (e.ConsentForm? && e.ready && e.can && e.allow)
    || (e.ConsentPage? && e.ready && e.can
        && st.user.Some? && st.user.value.emailConfirmed
        && st.client.Some? && st.client.value.enabled && st.client.value.trusted)
  }

  /** Consent is refused: on the form, or by roles that do not allow the stored, enabled client. */
  predicate Refuses(st: State, e: Event) {
    || (e.ConsentForm? && e.ready && !(e.can && e.allow))
    || (e.ConsentPage? && e.ready && !e.can && st.client.Some? && st.client.value.enabled)
  }

  /** An event is approved exactly when consent is given, and denied exactly when it is refused. */
  lemma ApprovedIff(env: Env, st: State, e: Event)
    ensures Step(env, st, e).1.Approved? <==> Consents(st, e)
    ensures Step(env, st, e).1.Denied? <==> Refuses(st, e)
  {
  }

  /** A session is authorized exactly by consent, until a code is issued, a token requested, or the user leaves. */
  lemma AuthorizedIff(env: Env, st: State, e: Event)
    ensures var (next, o) := Step(env, st, e);
            next.authorized <==> Consents(st, e) || (st.authorized && !o.Issued? && !e.Token? && !e.Logout?)
  {
  }

  /** Users come and go by logging in and out only; everything goes with the user. */
  lemma UserIs(env: Env, st: State, e: Event)
    ensures Step(env, st, e).0.user == match e
                                       case Login(u) => Some(u)
                                       case Logout => None
                                       case _ => st.user
    ensures e.Logout? ==> Step(env, st, e).0 == State(None, None, false, None)
  {
  }

  /** The request is for the client with this name: in a header, or else first in the form. */
  predicate Names(f: Params, basic: Option<string>, name: string) {
    if basic.Some? then name == basic.value
    else "client_id" in f && name == if f["client_id"] == [] then "" else f["client_id"][0]
  }

  /**
   What an authorize request comes to. The stored request is taken, or else the given one. If it names an
   unknown client it is rejected and nothing changes. Otherwise its client, if it names one, is stored and
   put into the request; an invalid request is then rejected and forgotten, a valid one is issued for the
   user if the session is authorized, with a client, and is stored for later if not.
   */
  lemma AuthorizeMeans(env: Env, st: State, form: Params, basic: Option<string>)
    ensures var (next, o) := Step(env, st, Authorize(form, basic));
            var f := if st.params.Some? then st.params.value else form;
            && (forall name | Names(f, basic, name) ::
                  match env.lookup(name)
                  case None => o == Rejected && next == st
                  case Some(c) => Proceeds(env, st, next, o, f["client_id" := [Dec(c.id)]], Some(c)))
            && ((forall name :: !Names(f, basic, name)) ==> Proceeds(env, st, next, o, f, st.client))
  {
    var f := if st.params.Some? then st.params.value else form;
    if basic.Some? {
      assert Names(f, basic, basic.value);
    } else if "client_id" in f {
      assert Names(f, basic, if f["client_id"] == [] then "" else f["client_id"][0]);
    }
  }

  predicate Proceeds(env: Env, st: State, next: State, o: Outcome, f: Params, client: Option<Client>) {
    if !env.valid(f) then o == Rejected && next == st.(params := None, client := client)
    else if st.user.Some? && st.authorized && client.Some? then
      o == Issued(f, st.user.value) && next == State(None, None, false, st.user)
    else o == Paused && next == st.(params := Some(f), client := client)
  }

  /** Other events issue nothing, and touch request and client only when consent is given or refused. */
  lemma OtherEventsMean(env: Env, st: State, e: Event)
    requires !e.Authorize? && !e.Logout?
    ensures var (next, o) := Step(env, st, e);
            && !o.Issued? && !o.Paused? && !o.Rejected?
            && next.params == (if Refuses(st, e) then None else st.params)
            && next.client == (if (e.ConsentForm? && e.ready && e.can) || (e.ConsentPage? && Refuses(st, e)) then None
                               else st.client)
  {
  }

  // ----- Consent is consumed once -----

  lemma StepNeedsAuthorization(env: Env, st: State, e: Event)
    ensures var (st', o) := Step(env, st, e);
            && (o.Issued? ==> st.authorized && !st'.authorized)
            && (st'.authorized ==> st.authorized || Consents(st, e))
  {
  }

  /** Consent is given at the k-th event. */
  predicate ConsentsAt(env: Env, st: State, events: seq<Event>, k: nat)
    requires k < |events|
  {
    Consents(Run(env, st, events[..k]), events[k])
  }

  lemma ConsentsAtTail(env: Env, st: State, events: seq<Event>, k: nat)
    requires k + 1 < |events|
    ensures ConsentsAt(env, st, events, k + 1) == ConsentsAt(env, Step(env, st, events[0]).0, events[1..], k)
  {
    hide Step, Consents;
    assert events[..k + 1][0] == events[0] && events[..k + 1][1..] == events[1..][..k];
  }

  lemma {:induction false} NoIssueWithoutApproval(env: Env, st: State, events: seq<Event>, j: nat)
    requires !st.authorized && j < |events| && Outcomes(env, st, events)[j].Issued?
    ensures exists k | 0 <= k < j :: ConsentsAt(env, st, events, k)
    decreases |events|
  {
    hide Step, Consents;
    var (st', o) := Step(env, st, events[0]);
    StepNeedsAuthorization(env, st, events[0]);
    if !Consents(st, events[0]) {
      NoIssueWithoutApproval(env, st', events[1..], j - 1);
      var k :| 0 <= k < j - 1 && ConsentsAt(env, st', events[1..], k);
      ConsentsAtTail(env, st, events, k);
      assert ConsentsAt(env, st, events, k + 1);
    } else {
      assert events[..0] == [];
      assert ConsentsAt(env, st, events, 0);
    }
  }

  /**
   Consent is consumed once: in every run, between any two issuances consent is given, by an allow action
   or for a trusted client; from a session without authorization this holds for the first issuance too.
   */
  lemma {:induction false} ApprovalBetweenIssuances(env: Env, st: State, events: seq<Event>, i: nat, j: nat)
    requires i < j < |events|
    requires Outcomes(env, st, events)[i].Issued? && Outcomes(env, st, events)[j].Issued?
    ensures exists k | i < k < j :: ConsentsAt(env, st, events, k)
    decreases |events|
  {
    hide Step, ConsentsAt;
    var (st', o) := Step(env, st, events[0]);
    StepNeedsAuthorization(env, st, events[0]);
    var k: nat;
    if i == 0 {
      NoIssueWithoutApproval(env, st', events[1..], j - 1);
      k :| 0 <= k < j - 1 && ConsentsAt(env, st', events[1..], k);
    } else {
      ApprovalBetweenIssuances(env, st', events[1..], i - 1, j - 1);
      k :| i - 1 < k < j - 1 && ConsentsAt(env, st', events[1..], k);
    }
    ConsentsAtTail(env, st, events, k);
    assert ConsentsAt(env, st, events, k + 1);
  }

  function CountIssued(os: seq<Outcome>): nat {
    if os == [] then 0 else (if os[0].Issued? then 1 else 0) + CountIssued(os[1..])
  }

  /** How often consent is given in a run. */
  function CountConsents(env: Env, st: State, events: seq<Event>): nat
    decreases |events|
  {
    if events == [] then 0
    else (if Consents(st, events[0]) then 1 else 0) + CountConsents(env, Step(env, st, events[0]).0, events[1..])
  }

  /** Issuances never exceed approvals. */
  lemma {:induction false} IssuancesNeverExceedApprovals(env: Env, st: State, events: seq<Event>)
    ensures CountIssued(Outcomes(env, st, events)) <= CountConsents(env, st, events) + (if st.authorized then 1 else 0)
    decreases |events|
  {
    hide Step, Consents;
    if events != [] {
      StepNeedsAuthorization(env, st, events[0]);
      var (st', o) := Step(env, st, events[0]);
      IssuancesNeverExceedApprovals(env, st', events[1..]);
      assert Outcomes(env, st, events)[1..] == Outcomes(env, st', events[1..]);
    }
  }

  // ----- A paused request resumes unchanged -----

  /** Finding a client again by its ID finds that client, if any. */
  ghost predicate IDsAreStable(env: Env) {
    forall s: string :: env.lookup(s).Some? ==>
      var c := env.lookup(s).value;
      env.lookup(Dec(c.id)).Some? ==> env.lookup(Dec(c.id)).value.id == c.id
  }

  /** A client_id in the request is the ID of the client it was resolved to. */
  ghost predicate Canonical(env: Env, p: Params) {
    "client_id" in p ==>
      exists c: Client :: p["client_id"] == [Dec(c.id)]
        && (env.lookup(Dec(c.id)).Some? ==> env.lookup(Dec(c.id)).value.id == c.id)
  }

  lemma CanonicalStays(env: Env, p: Params, c: Client)
    requires Canonical(env, p) && "client_id" in p && env.lookup(p["client_id"][0]) == Some(c)
    ensures WithClient(p, c) == p
  {
  }

  /** A Basic authorization header, which wins over the form, names no other client than p does. */
  predicate HeaderAgrees(env: Env, p: Params, e: Event) {
    e.Authorize? && e.basic.Some? && env.lookup(e.basic.value).Some? ==>
      "client_id" in p && p["client_id"] == [Dec(env.lookup(e.basic.value).value.id)]
  }

  /** A header that names another client changes the paused request, and only such a header does. */
  lemma HeaderDecides(env: Env, st: State, e: Event, p: Params)
    requires st.params == Some(p) && Canonical(env, p) && e.Authorize?
    requires var o := Step(env, st, e).1; o.Paused? || o.Issued?
    ensures var (st', o) := Step(env, st, e);
            HeaderAgrees(env, p, e) <==> if o.Issued? then o.form == p else st'.params == Some(p)
  {
    var id := RequestedID(p, e.basic);
    if e.basic.None? && id.Some? {
      CanonicalStays(env, p, env.lookup(id.value).value);
    } else if e.basic.Some? {
      var c := env.lookup(e.basic.value).value;
      assert WithClient(p, c)["client_id"] == [Dec(c.id)];
      if HeaderAgrees(env, p, e) {
        assert WithClient(p, c) == p;
      }
    }
  }

  // One step keeps the paused request, drops it, or issues for it.
  lemma StepKeepsRequest(env: Env, st: State, e: Event, p: Params)
    requires st.params == Some(p) && Canonical(env, p) && HeaderAgrees(env, p, e)
    ensures var (st', o) := Step(env, st, e);
            && (st'.params.Some? ==> st'.params == Some(p))
            && (o.Issued? ==> o.form == p)
  {
    if e.Authorize? && !Step(env, st, e).1.Rejected? {
      HeaderDecides(env, st, e, p);
    }
  }

  /** A paused request of client a that meets a header of client b is issued, or paused again, for b. */
  lemma HeaderOfOtherClient(env: Env, st: State, a: Client, b: Client, form: Params)
    requires a.id != b.id && st.params == Some(map["client_id" := [Dec(a.id)]])
    requires env.lookup(Dec(b.id)) == Some(b) && env.valid(map["client_id" := [Dec(b.id)]])
    ensures var (st', o) := Step(env, st, Authorize(form, Some(Dec(b.id))));
            var fb: Params := map["client_id" := [Dec(b.id)]];
            && (if o.Issued? then o.form == fb else o.Paused? && st'.params == Some(fb))
            && fb != st.params.value
  {
    assert WithClient(st.params.value, b) == map["client_id" := [Dec(b.id)]];
    ParseDec(a.id);
    ParseDec(b.id);
    assert map["client_id" := [Dec(b.id)]]["client_id"] != st.params.value["client_id"];
  }

  /** The request stays stored through all the events. */
  predicate Kept(env: Env, st: State, events: seq<Event>)
    decreases |events|
  {
    st.params.Some? && (events != [] ==> Kept(env, Step(env, st, events[0]).0, events[1..]))
  }

  /**
   A paused authorization resumes unchanged: as long as a stored request is not issued, denied or
   rejected it stays the same, whatever else is requested in the session without naming another
   client in a header, and the code that is issued next is issued for its parameters.
   */
  lemma {:induction false} PausedResumesUnchanged(env: Env, st: State, events: seq<Event>, e: Event, p: Params)
    requires st.params == Some(p) && Canonical(env, p)
    requires Kept(env, st, events) && HeaderAgrees(env, p, e) && forall x | x in events :: HeaderAgrees(env, p, x)
    ensures Run(env, st, events).params == Some(p)
    ensures var o := Step(env, Run(env, st, events), e).1; o.Issued? ==> o.form == p
    decreases |events|
  {
    hide Step;
    if events == [] {
      StepKeepsRequest(env, st, e, p);
    } else {
      StepKeepsRequest(env, st, events[0], p);
      PausedResumesUnchanged(env, Step(env, st, events[0]).0, events[1..], e, p);
    }
  }

  /** Every request that is ever stored is canonical. */
  lemma {:induction false} StoredIsCanonical(env: Env, st: State, events: seq<Event>)
    requires IDsAreStable(env)
    requires st.params.Some? ==> Canonical(env, st.params.value)
    ensures var r := Run(env, st, events); r.params.Some? ==> Canonical(env, r.params.value)
    decreases |events|
  {
    if events != [] {
      StoredIsCanonicalStep(env, st, events[0]);
      StoredIsCanonical(env, Step(env, st, events[0]).0, events[1..]);
    }
  }

  lemma StoredIsCanonicalStep(env: Env, st: State, e: Event)
    requires IDsAreStable(env)
    requires st.params.Some? ==> Canonical(env, st.params.value)
    ensures var r := Step(env, st, e).0; r.params.Some? ==> Canonical(env, r.params.value)
  {
    if e.Authorize? {
      var f := Resumed(st, e.form);
      var id := RequestedID(f, e.basic);
      if id.Some? && env.lookup(id.value).Some? {
        var c := env.lookup(id.value).value;
        assert WithClient(f, c)["client_id"] == [Dec(c.id)];
        assert Canonical(env, WithClient(f, c));
      }
    }
  }

  // ----- What an approval is spent on -----

  /** A request whose client, if it names one, is known. */
  predicate Resolves(env: Env, form: Params, basic: Option<string>) {
    var id := RequestedID(form, basic);
    id.Some? ==> env.lookup(id.value).Some?
  }

  /** The event gives up the stored request: it is denied, or it resolves but is rejected. */
  predicate Drops(env: Env, st: State, e: Event) {
    var o := Step(env, st, e).1;
    Refuses(st, e) || (e.Authorize? && o.Rejected? && Resolves(env, Resumed(st, e.form), e.basic))
  }

  predicate DropsIn(env: Env, st: State, events: seq<Event>)
    decreases |events|
  {
    events != [] && (Drops(env, st, events[0]) || DropsIn(env, Step(env, st, events[0]).0, events[1..]))
  }

  /** The authorization is there, and not spent or withdrawn by any of the events. */
  predicate StaysAuthorized(env: Env, st: State, events: seq<Event>)
    decreases |events|
  {
    st.authorized && (events != [] ==> StaysAuthorized(env, Step(env, st, events[0]).0, events[1..]))
  }

  /** The request q stays stored through all the events. */
  predicate KeptAs(env: Env, st: State, events: seq<Event>, q: Option<Params>)
    decreases |events|
  {
    q.Some? && st.params == q && (events != [] ==> KeptAs(env, Step(env, st, events[0]).0, events[1..], q))
  }

  lemma StepDropsIff(env: Env, st: State, e: Event, p: Params)
    requires st.params == Some(p) && Canonical(env, p) && HeaderAgrees(env, p, e)
    requires Step(env, st, e).0.authorized
    ensures Step(env, st, e).0.params == Some(p) <==> !Drops(env, st, e)
  {
    hide Canonical, HeaderAgrees;
    StepKeepsRequest(env, st, e, p);
  }

  lemma {:induction false} KeptIffNotDropped(env: Env, st: State, events: seq<Event>, p: Params)
    requires st.params == Some(p) && Canonical(env, p) && StaysAuthorized(env, st, events)
    requires forall x | x in events :: HeaderAgrees(env, p, x)
    ensures KeptAs(env, st, events, Some(p)) <==> !DropsIn(env, st, events)
    decreases |events|
  {
    hide Step, Canonical, HeaderAgrees, Drops;
    if events != [] {
      var e := events[0];
      assert e in events;
      StepDropsIff(env, st, e, p);
      var next := Step(env, st, e).0;
      if next.params == Some(p) {
        assert forall x | x in events[1..] :: x in events;
        KeptIffNotDropped(env, next, events[1..], p);
      }
    }
  }

  /**
   An approval outlives its request: while it is not spent, the request that was paused when it was
   given is gone at some point if and only if no request was paused, or it was denied or, though
   its client is known, rejected in between.
   */
  lemma ApprovalOutlivesRequestIff(env: Env, before: seq<Event>, approval: Event, between: seq<Event>)
    requires IDsAreStable(env)
    requires var st := Run(env, EMPTY, before);
             && Consents(st, approval) && StaysAuthorized(env, Step(env, st, approval).0, between)
             && (st.params.Some? ==> forall x | x in between :: HeaderAgrees(env, st.params.value, x))
    ensures var st := Run(env, EMPTY, before);
            var next := Step(env, st, approval).0;
            !KeptAs(env, next, between, st.params) <==> st.params.None? || DropsIn(env, next, between)
  {
    var st := Run(env, EMPTY, before);
    StoredIsCanonical(env, EMPTY, before);
    if st.params.Some? {
      KeptIffNotDropped(env, Step(env, st, approval).0, between, st.params.value);
    }
  }

  lemma {:induction false} KeptAtEnd(env: Env, st: State, events: seq<Event>, q: Option<Params>)
    requires KeptAs(env, st, events, q)
    ensures Run(env, st, events).params == q
    decreases |events|
  {
    if events != [] {
      KeptAtEnd(env, Step(env, st, events[0]).0, events[1..], q);
    }
  }

  /** The request as it is after its client was looked up. */
  function Normal(env: Env, form: Params): Params {
    var id := RequestedID(form, None);
    if id.Some? && env.lookup(id.value).Some? then WithClient(form, env.lookup(id.value).value) else form
  }

  /** A form for which a code can be issued: known client, valid request. */
  predicate Issuable(env: Env, st: State, form: Params) {
    && Resolves(env, form, None) && env.valid(Normal(env, form))
    && (RequestedID(form, None).None? ==> st.client.Some?)
  }

  lemma IssuesResumed(env: Env, st: State, form: Params)
    requires st.authorized && st.user.Some?
    ensures var o := Step(env, st, Authorize(form, None)).1;
            var f := Resumed(st, form);
            && (o.Issued? <==> Issuable(env, st, f))
            && (o.Issued? ==> o.form == Normal(env, f))
  {
  }

  lemma NormalOfCanonical(env: Env, p: Params)
    requires Canonical(env, p) && Resolves(env, p, None)
    ensures Normal(env, p) == p
  {
    var id := RequestedID(p, None);
    if id.Some? {
      CanonicalStays(env, p, env.lookup(id.value).value);
    }
  }

  /**
   An authorized session of a user issues codes for the request p only, if and only if p is the
   stored request, or the stored request cannot be issued, or, with none stored, no other request
   can be issued. With none stored whatever can be issued is issued as given.
   */
  lemma IssuesOnlyIff(env: Env, before: seq<Event>, p: Params)
    requires IDsAreStable(env)
    requires var st := Run(env, EMPTY, before); st.authorized && st.user.Some?
    ensures var st := Run(env, EMPTY, before);
            (forall form: Params :: IssuesOnly(env, st, form, p)) <==>
            match st.params
            case Some(q) => q == p || !Issuable(env, st, q)
            case None => forall form: Params :: Issuable(env, st, form) ==> Normal(env, form) == p
  {
    var st := Run(env, EMPTY, before);
    StoredIsCanonical(env, EMPTY, before);
    hide Step, Run, Canonical, Issuable, Normal;
    forall form: Params
      ensures IssuesOnly(env, st, form, p) <==>
              (Issuable(env, st, Resumed(st, form)) ==> Normal(env, Resumed(st, form)) == p)
    {
      IssuesResumed(env, st, form);
    }
    if st.params.Some? {
      var q := st.params.value;
      IssuableResolves(env, st, q);
      if Issuable(env, st, q) {
        NormalOfCanonical(env, q);
      }
      assert IssuesOnly(env, st, map[], p) <==> (Issuable(env, st, q) ==> q == p);
    } else {
      forall form: Params
        ensures (Issuable(env, st, form) ==> Normal(env, form) == p) <==> IssuesOnly(env, st, form, p)
      {
        assert Resumed(st, form) == form;
      }
    }
  }

  lemma IssuableResolves(env: Env, st: State, form: Params)
    ensures Issuable(env, st, form) ==> Resolves(env, form, None)
  {
  }

  predicate IssuesOnly(env: Env, st: State, form: Params, p: Params) {
    var o := Step(env, st, Authorize(form, None)).1;
    o.Issued? ==> o.form == p
  }

  /**
   What is approved is what is issued: when an approval is given while a request of a reachable
   session is paused and that request is neither denied nor rejected before the approval is spent,
   the code is for that request.
   */
  lemma ApprovedIsIssued(env: Env, before: seq<Event>, approval: Event, between: seq<Event>, e: Event)
    requires IDsAreStable(env)
    requires var st := Run(env, EMPTY, before);
             var next := Step(env, st, approval).0;
             && st.params.Some? && HeaderAgrees(env, st.params.value, e)
             && (forall x | x in between :: HeaderAgrees(env, st.params.value, x))
             && Consents(st, approval)
             && StaysAuthorized(env, next, between) && !DropsIn(env, next, between)
    ensures var st := Run(env, EMPTY, before);
            var o := Step(env, Run(env, Step(env, st, approval).0, between), e).1;
            o.Issued? ==> o.form == st.params.value
  {
    var st := Run(env, EMPTY, before);
    var next := Step(env, st, approval).0;
    StoredIsCanonical(env, EMPTY, before);
    ApprovalOutlivesRequestIff(env, before, approval, between);
    KeptAtEnd(env, next, between, st.params);
    StepKeepsRequest(env, Run(env, next, between), e, st.params.value);
  }

  /**
   A denial does not take back an approval: a user approves the trusted client a on its consent
   page, denies it on the consent form, and the next request, of client b, gets a code.
   */
  lemma DenialKeepsApproval(env: Env, u: User, a: Client, b: Client, fa: Params, fb: Params)
    requires u.emailConfirmed && a.enabled && a.trusted && !b.trusted && a.id != b.id
    requires fa == map["client_id" := [Dec(a.id)]] && fb == map["client_id" := [Dec(b.id)]]
    requires env.lookup(Dec(a.id)) == Some(a) && env.lookup(Dec(b.id)) == Some(b) && env.valid(fa) && env.valid(fb)
    ensures var events := [Login(u), Authorize(fa, None), ConsentPage(true, true), ConsentForm(true, true, false),
                           Authorize(fb, None)];
            Outcomes(env, EMPTY, events) == [Nothing, Paused, Approved, Denied, Issued(fb, u)]
  {
    var e0, e1, e4 := Login(u), Authorize(fa, None), Authorize(fb, None);
    var e2, e3 := ConsentPage(true, true), ConsentForm(true, true, false);
    var s1 := Step(env, EMPTY, e0).0;
    assert WithClient(fa, a) == fa && WithClient(fb, b) == fb;
    var s2 := Step(env, s1, e1).0;
    assert s2 == State(Some(fa), Some(a), false, Some(u));
    var s3 := Step(env, s2, e2).0;
    assert s3 == State(Some(fa), Some(a), true, Some(u));
    var s4 := Step(env, s3, e3).0;
    assert s4 == State(None, None, true, Some(u));
    assert Step(env, s4, e4).1 == Issued(fb, u);
    hide Step;
    OutcomesCons(env, EMPTY, e0, [e1, e2, e3, e4]);
    OutcomesCons(env, s1, e1, [e2, e3, e4]);
    OutcomesCons(env, s2, e2, [e3, e4]);
    OutcomesCons(env, s3, e3, [e4]);
    OutcomesCons(env, s4, e4, []);
  }

  lemma OutcomesCons(env: Env, st: State, e: Event, events: seq<Event>)
    ensures Outcomes(env, st, [e] + events) == [Step(env, st, e).1] + Outcomes(env, Step(env, st, e).0, events)
  {
    assert ([e] + events)[1..] == events;
  }
}
