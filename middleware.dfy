/**
 * The request guard in front of the upload page: other paths pass, a
 * visitor without a session is sent to the login page with the path they
 * asked for, and a signed-in user who is not an admin is told the page does
 * not exist.
 */
module Middleware {
  import opened Wrappers
  import Text
  import opened Collections
  import Store

  const Guarded := "/upload-photos"
  const Login := "/login"
  const RedirectedFrom := "redirectedFrom"

  /** The query of a URL, as `URLSearchParams` keeps it: name–value pairs
   *  in order, names possibly repeated. */
  type Params = seq<(string, string)>

  /** `params.get(name)`: the value of the first pair with that name. */
  function GetParam(params: Params, name: string): Option<string>
    decreases |params|
  {
    if params == [] then None
    else if params[0].0 == name then Some(params[0].1)
    else GetParam(params[1..], name)
  }

  function WithoutName(name: string): ((string, string)) -> bool {
    (p: (string, string)) => p.0 != name
  }

  /** `params.set(name, value)`: the first pair with that name takes the
   *  value and the later ones are dropped; with none, the pair is
   *  appended. */
  function SetParam(params: Params, name: string, value: string): Params
    decreases |params|
  {
    if params == [] then [(name, value)]
    else if params[0].0 == name then [(name, value)] + Filter(params[1..], WithoutName(name))
    else [params[0]] + SetParam(params[1..], name, value)
  }

  /** After `set`, `get` finds the value set. */
  lemma {:induction false} GetAfterSet(params: Params, name: string, value: string)
    ensures GetParam(SetParam(params, name, value), name) == Some(value)
    decreases |params|
  {
    if params != [] && params[0].0 != name {
      GetAfterSet(params[1..], name, value);
    }
  }

  lemma {:induction false} GetWithout(params: Params, name: string, other: string)
    requires other != name
    ensures GetParam(Filter(params, WithoutName(name)), other) == GetParam(params, other)
    decreases |params|
  {
    if params != [] {
      var w := WithoutName(name);
      var rest := Filter(params[1..], w);
      GetWithout(params[1..], name, other);
      if params[0].0 != name {
        assert w(params[0]);
        assert Filter(params, w) == [params[0]] + rest;
        assert ([params[0]] + rest)[1..] == rest;
      } else {
        assert !w(params[0]);
        assert Filter(params, w) == rest;
      }
    }
  }

  /** `set` leaves every other name as it was. */
  lemma {:induction false} GetOtherAfterSet(params: Params, name: string, value: string, other: string)
    requires other != name
    ensures GetParam(SetParam(params, name, value), other) == GetParam(params, other)
    decreases |params|
  {
    if params != [] {
      if params[0].0 == name {
        GetWithout(params[1..], name, other);
      } else {
        GetOtherAfterSet(params[1..], name, value, other);
      }
    }
  }

  /** `set` leaves exactly one pair with that name. */
  lemma {:induction false} SetLeavesOne(params: Params, name: string, value: string)
    ensures |Filter(SetParam(params, name, value), (p: (string, string)) => p.0 == name)| == 1
    decreases |params|
  {
    var named := (p: (string, string)) => p.0 == name;
    if params == [] {
    } else if params[0].0 == name {
      var rest := Filter(params[1..], WithoutName(name));
      FilterConcat([(name, value)], rest, named);
      forall x | x in rest ensures !named(x) {
        assert WithoutName(name)(x);
      }
      FilterNone(rest, named);
    } else {
      SetLeavesOne(params[1..], name, value);
      FilterConcat([params[0]], SetParam(params[1..], name, value), named);
    }
  }

  /** `user_metadata.role ?? app_metadata.role`. */
  function Role(user: Option<Store.User>): Option<string> {
    if user.None? then None
    else if user.value.userRole.Some? then user.value.userRole
    else user.value.appRole
  }

  datatype Outcome =
    | Pass
    | Redirect(pathname: string, params: Params)
    | NotFound(status: int, body: string)

  /** The middleware, given the requested path and query, whether the
   *  request carries a session and the user the session belongs to. */
  function Guard(pathname: string, params: Params, session: bool, user: Option<Store.User>): (r: Outcome)
    ensures r.Redirect? ==> r.pathname == Login && GetParam(r.params, RedirectedFrom) == Some(pathname)
    ensures r.NotFound? ==> r.status == 404 && r.body == "Not found"
  {
    if !Text.StartsWith(pathname, Guarded) then Pass
    else if !session then
      GetAfterSet(params, RedirectedFrom, pathname);
      Redirect(Login, SetParam(params, RedirectedFrom, pathname))
    else if Role(user) != Some("admin") then NotFound(404, "Not found")
    else Pass
  }

  /** A request gets through exactly when it is not for the upload page, or
   *  comes with a session of a user whose role is admin. */
  lemma GuardAdmits(pathname: string, params: Params, session: bool, user: Option<Store.User>)
    ensures Guard(pathname, params, session, user).Pass? <==>
              !Text.StartsWith(pathname, Guarded) || (session && Role(user) == Some("admin"))
    ensures Text.StartsWith(pathname, Guarded) && !session ==> Guard(pathname, params, session, user).Redirect?
  {
  }

  /** The redirect keeps the rest of the query. */
  lemma RedirectKeepsQuery(pathname: string, params: Params, user: Option<Store.User>, name: string)
    requires Text.StartsWith(pathname, Guarded) && name != RedirectedFrom
    ensures GetParam(Guard(pathname, params, false, user).params, name) == GetParam(params, name)
  {
    GetOtherAfterSet(params, RedirectedFrom, pathname, name);
  }

  /** The role in the user's own metadata wins over the one the app
   *  assigned: an app admin whose user metadata names another role is
   *  turned away. */
  lemma UserRoleWins(pathname: string, params: Params, id: string, role: string)
    requires Text.StartsWith(pathname, Guarded) && role != "admin"
    ensures Guard(pathname, params, true, Some(Store.User(id, Some(role), Some("admin")))).NotFound?
    ensures Guard(pathname, params, true, Some(Store.User(id, None, Some("admin")))).Pass?
  {
  }
}
