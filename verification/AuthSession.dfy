/**
 The session and the handlers of the authorization flow (auth/request/session.go:45-100,
 auth/handlers/handle_oauth2.go:36-167, auth/oauth2/user_authorizer.go:13-64): setters and
 handlers that change session values in place, proved to take the steps of module Consent.
 */
module AuthSession {
  import opened WorkflowTypes
  import opened Consent
  import Subjects

  datatype Key = AuthParamsKey | ClientKey | ClientAuthorizedKey | AuthUserKey

  datatype SessionValue =
    | ParamsValue(params: Params)
    | ClientValue(client: Client)
    | Flag(flag: bool)
    | UserValue(user: User)

  class Session {
    var values: map<Key, SessionValue>

    ghost predicate Valid()
      reads this
    {
      && (AuthParamsKey in values ==> values[AuthParamsKey].ParamsValue?)
      && (ClientKey in values ==> values[ClientKey].ClientValue?)
      && (ClientAuthorizedKey in values ==> values[ClientAuthorizedKey].Flag?)
      && (AuthUserKey in values ==> values[AuthUserKey].UserValue?)
    }

    function State(): Consent.State
      requires Valid()
      reads this
    {
      Consent.State(GetAuthParams(), GetClient(), IsClientAuthorized(), GetAuthUser())
    }

    constructor ()
      ensures Valid() && State() == EMPTY
    {
      values := map[];
    }

    function GetAuthParams(): Option<Params>
      requires Valid()
      reads this
    {
      if AuthParamsKey in values then Some(values[AuthParamsKey].params) else None
    }

    function GetClient(): Option<Client>
      requires Valid()
      reads this
    {
      if ClientKey in values then Some(values[ClientKey].client) else None
    }

    function IsClientAuthorized(): bool
      requires Valid()
      reads this
    {
      ClientAuthorizedKey in values && values[ClientAuthorizedKey].flag
    }

    function GetAuthUser(): Option<User>
      requires Valid()
      reads this
    {
      if AuthUserKey in values then Some(values[AuthUserKey].user) else None
    }

    method SetAuthParams(p: Option<Params>)
      requires Valid()
      modifies this
      ensures Valid() && State() == old(State()).(params := p)
    {
      if p.Some? {
        values := values[AuthParamsKey := ParamsValue(p.value)];
      } else {
        values := values - {AuthParamsKey};
      }
    }

    method SetClient(c: Option<Client>)
      requires Valid()
      modifies this
      ensures Valid() && State() == old(State()).(client := c)
    {
      if c.Some? {
        values := values[ClientKey := ClientValue(c.value)];
      } else {
        values := values - {ClientKey};
      }
    }

    method SetClientAuthorized(authorized: bool)
      requires Valid()
      modifies this
      ensures Valid() && State() == old(State()).(authorized := authorized)
    {
      if authorized {
        values := values[ClientAuthorizedKey := Flag(true)];
      } else {
        values := values - {ClientAuthorizedKey};
      }
    }

    method SetAuthUser(u: User)
      requires Valid()
      modifies this
      ensures Valid() && State() == old(State()).(user := Some(u))
    {
      values := values[AuthUserKey := UserValue(u)];
    }

    method Clear()
      modifies this
      ensures Valid() && State() == EMPTY
    {
      values := map[];
    }

    /** The handler the OAuth2 library calls to find out who authorizes the request. */
    method UserAuthorizer(form: Params) returns (o: Outcome)
      requires Valid()
      modifies this
      ensures Valid() && (State(), o) == Consent.UserAuthorizer(old(State()), form)
    {
      var au := GetAuthUser();
      var client := GetClient();
      SetAuthParams(Some(form));
      if au.None? {
        return Paused;
      } else {
        var authorized := IsClientAuthorized();
        if !authorized || client.None? {
          return Paused;
        }
      }
      SetAuthParams(None);
      SetClient(None);
      SetClientAuthorized(false);
      return Issued(form, au.value);
    }

    /** The client the request names, in the header or else in the form. */
    method LoadRequestedClient(env: Env, form: Params, basic: Option<string>) returns (failed: bool,
            client: Option<Client>)
      ensures client == (if RequestedID(form, basic).Some? then env.lookup(RequestedID(form, basic).value) else None)
      ensures failed == (RequestedID(form, basic).Some? && client.None?)
    {
      if basic.Some? {
        client := env.lookup(basic.value);
        return client.None?, client;
      }
      if "client_id" !in form {
        return false, None;
      }
      client := env.lookup(if form["client_id"] == [] then "" else form["client_id"][0]);
      return client.None?, client;
    }

    method Authorize(env: Env, requested: Params, basic: Option<string>) returns (failed: bool, o: Outcome)
      requires Valid()
      modifies this
      ensures Valid() && o == AuthorizeStep(env, old(State()), requested, basic).1
      ensures !failed ==> State() == AuthorizeStep(env, old(State()), requested, basic).0
      ensures failed ==> AuthorizeStep(env, old(State()), requested, basic).0 == old(State())
    {
      hide Subjects.Dec, RequestedID, Consent.UserAuthorizer;
      var form := requested;
      var stored := GetAuthParams();
      if stored.Some? {
        form := stored.value;
      }
      SetAuthParams(None);
      var client;
      failed, client := LoadRequestedClient(env, form, basic);
      if failed {
        return true, Rejected;
      }
      if client.Some? {
        SetClient(client);
        form := form["client_id" := [Subjects.Dec(client.value.id)]];
      }
      if !env.valid(form) {
        return false, Rejected;
      }
      o := UserAuthorizer(form);
      return false, o;
    }

    method AuthorizeClient(can: bool) returns (o: Outcome)
      requires Valid()
      modifies this
      ensures Valid() && (State(), o) == ConsentPageStep(old(State()), can)
    {
      var client := GetClient();
      if client.None? {
        return Nothing;
      }
      if !client.value.enabled {
        return Nothing;
      }
      if !can {
        SetClient(None);
        SetAuthParams(None);
        return Denied;
      }
      var user := GetAuthUser();
      if user.None? || !user.value.emailConfirmed {
        return Nothing;
      } else if client.value.trusted {
        SetClientAuthorized(true);
        return Approved;
      }
      return Nothing;
    }

    method AuthorizeClientProc(can: bool, allow: bool) returns (o: Outcome)
      requires Valid()
      modifies this
      ensures Valid() && (State(), o) == ConsentFormStep(old(State()), can, allow)
    {
      if can {
        SetClient(None);
        if allow {
          SetClientAuthorized(true);
          return Approved;
        }
      }
      SetAuthParams(None);
      return Denied;
    }

    /** Dispatches a request; the session is saved unless the handler fails. */
    method Handle(env: Env, e: Event) returns (o: Outcome)
      requires Valid()
      modifies this
      ensures Valid() && (State(), o) == Step(env, old(State()), e)
    {
      o := Nothing;
      var saved := values;
      match e {
        case Login(u) => SetAuthUser(u);
        case Logout => Clear();
        case Authorize(form, basic) =>
          var failed;
          failed, o := Authorize(env, form, basic);
          if failed {
            values := saved;
          }
        case ConsentPage(ready, can) =>
          if ready {
            o := AuthorizeClient(can);
          }
        case ConsentForm(ready, can, allow) =>
          if ready {
            o := AuthorizeClientProc(can, allow);
          }
        case Token => SetClientAuthorized(false);
      }
    }
  }

  /** Claims of a token. */
  class Claims {
    var data: map<string, string>

    /** Fills in the claims for the subject and the roles. */
    method SubSplit(identity: string)
      modifies this`data
      ensures data == Subjects.Split(identity, old(data))
    {
      var i := Subjects.IndexOfSpace(identity);
      if i < 0 {
        data := data["sub" := identity];
      } else {
        data := data["sub" := identity[..i]];
        data := data["roles" := identity[i + 1..]];
      }
    }
  }
}
