/** Request authentication: the redirect sent when there is no session, and
    the keyed upsert that copies the identity provider's user into the
    application's user table on every authenticated request. */
module Auth {
  import opened Optional

  // ---------------------------------------------------------------------
  // Users.
  // ---------------------------------------------------------------------

  /** A value read from the provider's free-form user metadata: the key may
      be absent (`undefined`), hold JSON `null`, or hold a string. */
  datatype MetaValue = Undefined | Null | Str(s: string)

  datatype Metadata = Metadata(firstName: MetaValue, lastName: MetaValue, shop: MetaValue)

  /** The user the identity provider reports for the session. */
  datatype SessionUser = SessionUser(id: string, email: string, metadata: Metadata)

  /** A row of the application's user table. */
  datatype User = User(
    id: string,
    email: string,
    firstName: Opt<string>,
    lastName: Opt<string>,
    shop: Opt<string>)

  type UserTable = map<string, User>

  /** Every row is stored under its own id. */
  predicate WellKeyed(table: UserTable) {
    forall id :: id in table ==> table[id].id == id
  }

  /** JavaScript truthiness of a metadata value: a non-empty string. */
  predicate Truthy(v: MetaValue) {
    v.Str? && v.s != ""
  }

  /** What a column becomes when a row is created from `v`: absent and
      `null` both leave it empty. */
  function Created(v: MetaValue): Opt<string> {
    if v.Str? then Present(v.s) else Absent
  }

  /** What a column becomes when an existing row is updated with `v`: the
      store leaves a column untouched when handed `undefined`. */
  function Overwritten(current: Opt<string>, v: MetaValue): Opt<string> {
    if v.Undefined? then current else Created(v)
  }

  /** The row inserted for a user seen for the first time; the shop is
      `shop || null`. */
  function CreateUser(u: SessionUser): (r: User)
    ensures r.id == u.id && r.email == u.email
    ensures r.firstName.Present? <==> u.metadata.firstName.Str?
    ensures u.metadata.firstName.Str? ==> r.firstName == Present(u.metadata.firstName.s)
    ensures r.lastName.Present? <==> u.metadata.lastName.Str?
    ensures u.metadata.lastName.Str? ==> r.lastName == Present(u.metadata.lastName.s)
    ensures r.shop.Present? <==> Truthy(u.metadata.shop)
    ensures r.shop.Present? ==> r.shop.value == u.metadata.shop.s
  {
    User(u.id, u.email, Created(u.metadata.firstName), Created(u.metadata.lastName),
         if Truthy(u.metadata.shop) then Present(u.metadata.shop.s) else Absent)
  }

  /** The update applied to an existing row; the shop is written only when
      the incoming one is truthy. */
  function UpdateUser(existing: User, u: SessionUser): (r: User)
    ensures r.id == existing.id && r.email == u.email
    ensures u.metadata.firstName.Undefined? ==> r.firstName == existing.firstName
    ensures u.metadata.firstName.Str? ==> r.firstName == Present(u.metadata.firstName.s)
    ensures u.metadata.firstName.Null? ==> r.firstName == Absent
    ensures u.metadata.lastName.Undefined? ==> r.lastName == existing.lastName
    ensures u.metadata.lastName.Str? ==> r.lastName == Present(u.metadata.lastName.s)
    ensures u.metadata.lastName.Null? ==> r.lastName == Absent
    ensures Truthy(u.metadata.shop) ==> r.shop == Present(u.metadata.shop.s)
    ensures !Truthy(u.metadata.shop) ==> r.shop == existing.shop
    // an update never clears a stored shop
    ensures existing.shop.Present? ==> r.shop.Present?
  {
    User(existing.id, u.email,
         Overwritten(existing.firstName, u.metadata.firstName),
         Overwritten(existing.lastName, u.metadata.lastName),
         if Truthy(u.metadata.shop) then Present(u.metadata.shop.s) else existing.shop)
  }

  /** The upsert keyed by the session user's id; yields the new table and
      the stored row. */
  function SyncUser(table: UserTable, u: SessionUser): (r: (UserTable, User))
    requires WellKeyed(table)
    ensures WellKeyed(r.0)
    ensures u.id in r.0 && r.0[u.id] == r.1
    ensures r.0.Keys == table.Keys + {u.id}
    ensures forall id :: id in table && id != u.id ==> r.0[id] == table[id]
    // the email is always overwritten
    ensures r.1.id == u.id && r.1.email == u.email
    // a name present in the metadata overwrites, an absent one keeps the stored name
    ensures u.metadata.firstName.Str? ==> r.1.firstName == Present(u.metadata.firstName.s)
    ensures u.metadata.firstName.Null? ==> r.1.firstName == Absent
    ensures u.metadata.firstName.Undefined? ==>
      r.1.firstName == (if u.id in table then table[u.id].firstName else Absent)
    ensures u.metadata.lastName.Str? ==> r.1.lastName == Present(u.metadata.lastName.s)
    ensures u.metadata.lastName.Null? ==> r.1.lastName == Absent
    ensures u.metadata.lastName.Undefined? ==>
      r.1.lastName == (if u.id in table then table[u.id].lastName else Absent)
    // a truthy shop is stored; otherwise an existing row keeps its shop and a new row has none
    ensures Truthy(u.metadata.shop) ==> r.1.shop == Present(u.metadata.shop.s)
    ensures !Truthy(u.metadata.shop) ==>
      r.1.shop == (if u.id in table then table[u.id].shop else Absent)
  {
    var user := if u.id in table then UpdateUser(table[u.id], u) else CreateUser(u);
    (table[u.id := user], user)
  }

  /** Syncing the same login twice stores what syncing it once does. */
  lemma SyncIdempotent(table: UserTable, u: SessionUser)
    requires WellKeyed(table)
    ensures SyncUser(SyncUser(table, u).0, u) == SyncUser(table, u)
  {
    var (t1, r1) := SyncUser(table, u);
    var (t2, r2) := SyncUser(t1, u);
    assert r2 == r1;
    assert t2 == t1;
  }

  /** Successive logins, each synced in turn. */
  function SyncAll(table: UserTable, logins: seq<SessionUser>): (r: UserTable)
    requires WellKeyed(table)
    ensures WellKeyed(r)
    ensures r.Keys == table.Keys + set i | 0 <= i < |logins| :: logins[i].id
    // rows of users who did not log in are left as they were
    ensures forall id :: id in table && !LoggedIn(logins, id) ==> r[id] == table[id]
    decreases logins
  {
    if logins == [] then table
    else
      var t1 := SyncUser(table, logins[0]).0;
      var next := SyncAll(t1, logins[1..]);
      SyncAllStep(table, logins, t1, next);
      next
  }

  /** One step of `SyncAll`: the first login, then the rest. */
  lemma SyncAllStep(table: UserTable, logins: seq<SessionUser>, t1: UserTable, next: UserTable)
    requires logins != []
    requires t1.Keys == table.Keys + {logins[0].id}
    requires forall id :: id in table && id != logins[0].id ==> t1[id] == table[id]
    requires next.Keys == t1.Keys + set i | 0 <= i < |logins[1..]| :: logins[1..][i].id
    requires forall id :: id in t1 && !LoggedIn(logins[1..], id) ==> next[id] == t1[id]
    ensures next.Keys == table.Keys + set i | 0 <= i < |logins| :: logins[i].id
    ensures forall id :: id in table && !LoggedIn(logins, id) ==> next[id] == table[id]
  {
    var rest := logins[1..];
    assert forall i :: 0 < i < |logins| ==> logins[i] == rest[i - 1];
    var all := set i | 0 <= i < |logins| :: logins[i].id;
    var later := set i | 0 <= i < |rest| :: rest[i].id;
    assert all == {logins[0].id} + later by {
      forall x | x in all ensures x in {logins[0].id} + later {
        var i :| 0 <= i < |logins| && logins[i].id == x;
        if i > 0 { assert rest[i - 1].id == x; }
      }
      forall x | x in later ensures x in all {
        var i :| 0 <= i < |rest| && rest[i].id == x;
        assert logins[i + 1].id == x;
      }
    }
    forall id | id in table && !LoggedIn(logins, id)
      ensures next[id] == table[id]
    {
      assert id != logins[0].id;
    }
  }

  /** Some login in the run is for user `id`. */
  predicate LoggedIn(logins: seq<SessionUser>, id: string) {
    exists i :: 0 <= i < |logins| && logins[i].id == id
  }

  /** A stored shop is never cleared: whatever logins follow, the user still
      has a shop. */
  lemma {:induction false} ShopNeverCleared(table: UserTable, logins: seq<SessionUser>, id: string)
    requires WellKeyed(table)
    requires id in table && table[id].shop.Present?
    ensures id in SyncAll(table, logins) && SyncAll(table, logins)[id].shop.Present?
    decreases logins
  {
    if logins != [] {
      ShopNeverCleared(SyncUser(table, logins[0]).0, logins[1..], id);
    }
  }

  // ---------------------------------------------------------------------
  // The unauthenticated redirect.
  // ---------------------------------------------------------------------

  /** A query parameter, name then value. */
  type Param = (string, string)

  /** The parts of the request URL the redirect reads. `search` is the raw
      query string (`""` or starting with `?`); `params` is its decoded
      parameter list, in order. */
  datatype RequestUrl = RequestUrl(origin: string, pathname: string, search: string, params: seq<Param>)

  /** A relative redirect target: a path and the query parameters to encode
      after it, in order. */
  datatype Location = Location(pathname: string, params: seq<Param>)

  /** `URLSearchParams.get`: the value of the first parameter called `name`. */
  function GetParam(params: seq<Param>, name: string): (r: Opt<string>)
    ensures r.Absent? <==> forall i :: 0 <= i < |params| ==> params[i].0 != name
    ensures r.Present? ==>
      exists i :: 0 <= i < |params| && params[i] == (name, r.value) && forall j :: 0 <= j < i ==> params[j].0 != name
  {
    if params == [] then Absent
    else if params[0].0 == name then
      assert params[0] == (name, params[0].1);
      Present(params[0].1)
    else
      var r := GetParam(params[1..], name);
      assert forall i :: 0 < i < |params| ==> params[i] == params[1..][i - 1];
      r
  }

  /** Whether the request names a shop, in JavaScript's truthy sense. */
  predicate HasShop(url: RequestUrl) {
    var shop := GetParam(url.params, "shop");
    shop.Present? && shop.value != ""
  }

  /** Where a request without a session is sent: the sign-in page, told
      where to come back to, and told the shop when the request named one. */
  function AuthRedirect(url: RequestUrl): (loc: Location)
    ensures loc.pathname == "/auth"
    ensures |loc.params| >= 1 && loc.params[0] == ("redirect", url.pathname + url.search)
    ensures GetParam(loc.params, "redirect") == Present(url.pathname + url.search)
    ensures GetParam(loc.params, "shop").Present? <==> HasShop(url)
    ensures HasShop(url) ==> GetParam(loc.params, "shop") == GetParam(url.params, "shop")
    ensures forall i :: 0 <= i < |loc.params| ==> loc.params[i].0 == "redirect" || loc.params[i].0 == "shop"
    // `set` on a fresh URL: one `redirect`, at most one `shop`
    ensures |loc.params| == if HasShop(url) then 2 else 1
  {
    var back := ("redirect", url.pathname + url.search);
    var shop := GetParam(url.params, "shop");
    if shop.Present? && shop.value != "" then
      Location("/auth", [back, ("shop", shop.value)])
    else
      Location("/auth", [back])
  }

  /** What `requireUser` produces: a redirect, or the synced user together
      with the table it was written to. */
  datatype Outcome = Redirect(location: Location) | Authenticated(user: User, table: UserTable)

  /** `requireUser`: without a session, redirect; with one, sync the user. */
  function RequireUser(table: UserTable, session: Opt<SessionUser>, url: RequestUrl): (r: Outcome)
    requires WellKeyed(table)
    ensures r.Redirect? <==> session.Absent?
    ensures r.Redirect? ==> r.location == AuthRedirect(url)
    ensures r.Redirect? ==>
      && r.location.pathname == "/auth"
      && GetParam(r.location.params, "redirect") == Present(url.pathname + url.search)
      && (GetParam(r.location.params, "shop").Present? <==> HasShop(url))
    ensures r.Authenticated? ==>
      && r.user.id == session.value.id
      && r.user.email == session.value.email
      && r.table.Keys == table.Keys + {session.value.id}
      && r.table[session.value.id] == r.user
      && (forall id :: id in table && id != session.value.id ==> r.table[id] == table[id])
      && (Truthy(session.value.metadata.shop) ==> r.user.shop == Present(session.value.metadata.shop.s))
      && (!Truthy(session.value.metadata.shop) && session.value.id in table ==>
            r.user.shop == table[session.value.id].shop)
    ensures r.Authenticated? ==> (r.table, r.user) == SyncUser(table, session.value)
  {
    match session
    case Absent => Redirect(AuthRedirect(url))
    case Present(u) =>
      var (t, user) := SyncUser(table, u);
      Authenticated(user, t)
  }

  // ---------------------------------------------------------------------
  // Examples.
  // ---------------------------------------------------------------------

  /** A deep link carrying a shop comes back to itself with the shop lifted
      to the top level of the sign-in URL. */
  lemma RedirectExample()
    ensures AuthRedirect(RequestUrl("https://app.example", "/items", "?shop=s.myshopify.com",
                                    [("shop", "s.myshopify.com")]))
         == Location("/auth", [("redirect", "/items?shop=s.myshopify.com"), ("shop", "s.myshopify.com")])
    ensures AuthRedirect(RequestUrl("https://app.example", "/items", "?shop=", [("shop", "")]))
         == Location("/auth", [("redirect", "/items?shop=")])
  {
    assert "/items" + "?shop=s.myshopify.com" == "/items?shop=s.myshopify.com";
    assert "/items" + "?shop=" == "/items?shop=";
    assert GetParam([("shop", "s.myshopify.com")], "shop") == Present("s.myshopify.com");
    assert GetParam([("shop", "")], "shop") == Present("");
  }
}
