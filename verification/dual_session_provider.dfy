/**
 * The two-slot session context (`session-provider.tsx`): a user token and an
 * admin token, each held by its own storage-backed pair, refreshed from
 * response headers and cleared by two asymmetric sign-outs.
 */
module DualSessionProvider {
  import opened Wrappers
  import opened StorageState

  /** Store key of the user session. */
  const SessionKey: string := "sessionid"

  /** Store key of the admin session. */
  const AdminKey: string := "admin-sessionid"

  /** Response headers by lower-case name. */
  type Headers = map<string, string>

  /** `headers.get(name)`: the header's value, or `null` when it is absent. */
  function HeaderGet(h: Headers, name: string): Option<string> {
    if name in h then Some(h[name]) else None
  }

  /** A value the refresh functions accept: neither `null`/`undefined` nor `''`. */
  predicate IsToken(v: Option<string>) {
    v.Some? && v.value != ""
  }

  /** The mounted provider: the two pairs and the store they persist to. */
  datatype Provider = Provider(session: Slot, admin: Slot, store: Store)

  /** What `useSession()` sees: the default object when no provider is mounted. */
  datatype Context = Default | Mounted(p: Provider)

  /** The result of a refresh function: whether it accepted a token, and the context after. */
  datatype Refresh = Refresh(accepted: bool, next: Context)

  /** Mounting the provider: both pairs start loading. */
  function Mount(store: Store): (ctx: Context)
    ensures ctx.Mounted? && ctx.p.store == store
    ensures IsLoading(ctx) && IsAdminLoading(ctx)
    ensures Session(ctx) == None && AdminSession(ctx) == None
  {
    Mounted(Provider(Initial, Initial, store))
  }

  /** The exposed `session` (`undefined` in the default object). */
  function Session(ctx: Context): Option<string> {
    if ctx.Mounted? then ctx.p.session.value else None
  }

  /** The exposed `adminSession` (`undefined` in the default object). */
  function AdminSession(ctx: Context): Option<string> {
    if ctx.Mounted? then ctx.p.admin.value else None
  }

  /** The exposed `isLoading` (`false` in the default object). */
  function IsLoading(ctx: Context): bool {
    ctx.Mounted? && ctx.p.session.isLoading
  }

  /** The exposed `isAdminLoading` (`false` in the default object). */
  function IsAdminLoading(ctx: Context): bool {
    ctx.Mounted? && ctx.p.admin.isLoading
  }

  /** The store entries of every key other than `key` are the same in both contexts. */
  ghost predicate StoreAgreesExcept(a: Context, b: Context, key: string)
    requires a.Mounted? && b.Mounted?
  {
    forall k :: k != key ==> GetItem(a.p.store, k) == GetItem(b.p.store, k)
  }

  /**
   * The user pair's mount effect: the stored `sessionid` arrives and loading
   * ends; the admin pair and the store are left alone.
   */
  function LoadSession(ctx: Context): (r: Context)
    ensures ctx.Default? ==> r == Default
    ensures ctx.Mounted? ==> r.Mounted? && r.p.store == ctx.p.store
    ensures ctx.Mounted? ==> !IsLoading(r) && Session(r) == GetItem(ctx.p.store, SessionKey)
    ensures AdminSession(r) == AdminSession(ctx) && IsAdminLoading(r) == IsAdminLoading(ctx)
  {
    match ctx
    case Default => Default
    case Mounted(p) => Mounted(p.(session := Load(p.session, p.store, SessionKey)))
  }

  /**
   * The admin pair's mount effect: the stored `admin-sessionid` arrives and
   * loading ends; the user pair and the store are left alone.
   */
  function LoadAdmin(ctx: Context): (r: Context)
    ensures ctx.Default? ==> r == Default
    ensures ctx.Mounted? ==> r.Mounted? && r.p.store == ctx.p.store
    ensures ctx.Mounted? ==> !IsAdminLoading(r) && AdminSession(r) == GetItem(ctx.p.store, AdminKey)
    ensures Session(r) == Session(ctx) && IsLoading(r) == IsLoading(ctx)
  {
    match ctx
    case Default => Default
    case Mounted(p) => Mounted(p.(admin := Load(p.admin, p.store, AdminKey)))
  }

  /**
   * `signInOrRefresh(headers)`: a non-empty `sessionid` header becomes the user
   * session, in memory and in the store, and the call answers true; otherwise it
   * answers false and nothing changes. The admin pair and every other store entry
   * are never touched, and without a provider the call is inert.
   */
  function SignInOrRefresh(ctx: Context, h: Headers): (r: Refresh)
    ensures ctx.Default? ==> r == Refresh(false, Default)
    ensures ctx.Mounted? ==> (r.accepted <==> IsToken(HeaderGet(h, SessionKey)))
    ensures !r.accepted ==> r.next == ctx
    ensures r.accepted ==> r.next.Mounted? && ctx.Mounted?
    ensures r.accepted ==> r.next.p.session == Slot(false, HeaderGet(h, SessionKey))
    ensures r.accepted ==> GetItem(r.next.p.store, SessionKey) == HeaderGet(h, SessionKey)
    ensures r.accepted ==> r.next.p.admin == ctx.p.admin && StoreAgreesExcept(ctx, r.next, SessionKey)
  {
    match ctx
    case Default => Refresh(false, Default)
    case Mounted(p) =>
      var token := HeaderGet(h, SessionKey);
      if IsToken(token) then
        var w := SetValue(p.session, p.store, SessionKey, token);
        Refresh(true, Mounted(p.(session := w.slot, store := w.store)))
      else
        Refresh(false, ctx)
  }

  /**
   * `signInOrRefreshAdmin(headers)`: the same rule, reading only the
   * `admin-sessionid` header and writing only the admin pair and its entry.
   */
  function SignInOrRefreshAdmin(ctx: Context, h: Headers): (r: Refresh)
    ensures ctx.Default? ==> r == Refresh(false, Default)
    ensures ctx.Mounted? ==> (r.accepted <==> IsToken(HeaderGet(h, AdminKey)))
    ensures !r.accepted ==> r.next == ctx
    ensures r.accepted ==> r.next.Mounted? && ctx.Mounted?
    ensures r.accepted ==> r.next.p.admin == Slot(false, HeaderGet(h, AdminKey))
    ensures r.accepted ==> GetItem(r.next.p.store, AdminKey) == HeaderGet(h, AdminKey)
    ensures r.accepted ==> r.next.p.session == ctx.p.session && StoreAgreesExcept(ctx, r.next, AdminKey)
  {
    match ctx
    case Default => Refresh(false, Default)
    case Mounted(p) =>
      var token := HeaderGet(h, AdminKey);
      if IsToken(token) then
        var w := SetValue(p.admin, p.store, AdminKey, token);
        Refresh(true, Mounted(p.(admin := w.slot, store := w.store)))
      else
        Refresh(false, ctx)
  }

  /**
   * `signOut()`: clears the user session in memory and in the store; the admin
   * session survives, in memory and in the store.
   */
  function SignOut(ctx: Context): (r: Context)
    ensures ctx.Default? ==> r == Default
    ensures ctx.Mounted? ==> r.Mounted? && r.p.session == Slot(false, None) && SessionKey !in r.p.store
    ensures ctx.Mounted? ==> r.p.admin == ctx.p.admin && StoreAgreesExcept(ctx, r, SessionKey)
  {
    match ctx
    case Default => Default
    case Mounted(p) =>
      var w := SetValue(p.session, p.store, SessionKey, None);
      Mounted(p.(session := w.slot, store := w.store))
  }

  /**
   * `signOutAdmin()`: clears BOTH sessions, in memory and in the store; every
   * other store entry is untouched.
   */
  function SignOutAdmin(ctx: Context): (r: Context)
    ensures ctx.Default? ==> r == Default
    ensures ctx.Mounted? ==> r.Mounted? && r.p.session == Slot(false, None) && r.p.admin == Slot(false, None)
    ensures ctx.Mounted? ==> SessionKey !in r.p.store && AdminKey !in r.p.store
    ensures ctx.Mounted? ==> forall k :: k != SessionKey && k != AdminKey ==> GetItem(r.p.store, k) == GetItem(ctx.p.store, k)
  {
    match ctx
    case Default => Default
    case Mounted(p) =>
      var w := SetValue(p.session, p.store, SessionKey, None);
      var w' := SetValue(p.admin, w.store, AdminKey, None);
      Mounted(Provider(w.slot, w'.slot, w'.store))
  }

  /** Everything that can happen to the context, each step atomic. */
  datatype Event =
    | LoadSessionEvent
    | LoadAdminEvent
    | SignInOrRefreshEvent(h: Headers)
    | SignInOrRefreshAdminEvent(h: Headers)
    | SignOutEvent
    | SignOutAdminEvent

  /** The context after one event. */
  function Step(ctx: Context, e: Event): Context {
    match e
    case LoadSessionEvent => LoadSession(ctx)
    case LoadAdminEvent => LoadAdmin(ctx)
    case SignInOrRefreshEvent(h) => SignInOrRefresh(ctx, h).next
    case SignInOrRefreshAdminEvent(h) => SignInOrRefreshAdmin(ctx, h).next
    case SignOutEvent => SignOut(ctx)
    case SignOutAdminEvent => SignOutAdmin(ctx)
  }

  /** The context after a sequence of events, first to last. */
  function Run(ctx: Context, es: seq<Event>): Context
    decreases |es|
  {
    if |es| == 0 then ctx else Run(Step(ctx, es[0]), es[1..])
  }

  /**
   * Each loaded pair agrees with its store entry (the two pairs persist under
   * different keys), and the store holds no empty entry.
   */
  predicate Consistent(ctx: Context) {
    ctx.Mounted? ==>
      && Mirrors(ctx.p.session, ctx.p.store, SessionKey)
      && Mirrors(ctx.p.admin, ctx.p.store, AdminKey)
      && NoEmptyEntries(ctx.p.store)
  }

  /** Every event keeps the pairs and the store consistent. */
  lemma StepConsistent(ctx: Context, e: Event)
    requires Consistent(ctx)
    ensures Consistent(Step(ctx, e))
  {
    if ctx.Mounted? {
      var p := ctx.p;
      match e
      case LoadSessionEvent => LoadMirrors(p.session, p.store, SessionKey);
      case LoadAdminEvent => LoadMirrors(p.admin, p.store, AdminKey);
      case SignInOrRefreshEvent(h) =>
        SetValueMirrors(p.session, p.admin, p.store, SessionKey, AdminKey, HeaderGet(h, SessionKey));
      case SignInOrRefreshAdminEvent(h) =>
        SetValueMirrors(p.admin, p.session, p.store, AdminKey, SessionKey, HeaderGet(h, AdminKey));
      case SignOutEvent =>
        SetValueMirrors(p.session, p.admin, p.store, SessionKey, AdminKey, None);
      case SignOutAdminEvent =>
        var w := SetValue(p.session, p.store, SessionKey, None);
        SetValueMirrors(p.session, p.admin, p.store, SessionKey, AdminKey, None);
        SetValueMirrors(p.admin, w.slot, w.store, AdminKey, SessionKey, None);
    }
  }

  /** From any consistent context, any sequence of events keeps the pairs consistent with the store. */
  lemma {:induction false} RunConsistent(ctx: Context, es: seq<Event>)
    requires Consistent(ctx)
    ensures Consistent(Run(ctx, es))
    decreases |es|
  {
    if |es| > 0 {
      StepConsistent(ctx, es[0]);
      RunConsistent(Step(ctx, es[0]), es[1..]);
    }
  }

  /** A freshly mounted provider over a store the hooks wrote is consistent. */
  lemma MountConsistent(store: Store)
    requires NoEmptyEntries(store)
    ensures Consistent(Mount(store))
  {
  }

  /** Without a provider every operation is inert and nothing reports loading. */
  lemma DefaultContextIsInert(h: Headers)
    ensures SignInOrRefresh(Default, h) == Refresh(false, Default)
    ensures SignInOrRefreshAdmin(Default, h) == Refresh(false, Default)
    ensures SignOut(Default) == Default && SignOutAdmin(Default) == Default
    ensures !IsLoading(Default) && !IsAdminLoading(Default)
    ensures Session(Default) == None && AdminSession(Default) == None
  {
  }

  /**
   * A refreshed token outlives a restart: remounting over the resulting store
   * and loading the user pair yields the header's token.
   */
  lemma RefreshSurvivesRestart(ctx: Context, h: Headers)
    requires ctx.Mounted?
    requires IsToken(HeaderGet(h, SessionKey))
    ensures var r := SignInOrRefresh(ctx, h);
            r.accepted && Session(LoadSession(Mount(r.next.p.store))) == HeaderGet(h, SessionKey)
  {
  }

  /** After either sign-out the user session reads `null`, now and after a restart. */
  lemma SignedOutStaysOut(ctx: Context)
    requires ctx.Mounted?
    ensures Session(SignOut(ctx)) == None
    ensures Session(LoadSession(Mount(SignOut(ctx).p.store))) == None
    ensures Session(SignOutAdmin(ctx)) == None && AdminSession(SignOutAdmin(ctx)) == None
    ensures Session(LoadSession(Mount(SignOutAdmin(ctx).p.store))) == None
    ensures AdminSession(LoadAdmin(Mount(SignOutAdmin(ctx).p.store))) == None
  {
  }

  /** Plain sign-out leaves the admin session, in memory and in the store, as it was. */
  lemma SignOutKeepsAdmin(ctx: Context)
    requires ctx.Mounted?
    ensures AdminSession(SignOut(ctx)) == AdminSession(ctx)
    ensures IsAdminLoading(SignOut(ctx)) == IsAdminLoading(ctx)
    ensures GetItem(SignOut(ctx).p.store, AdminKey) == GetItem(ctx.p.store, AdminKey)
  {
  }
}
