/**
 * The single-slot session context (`SessionProvider.tsx`): one storage-backed
 * pair under `auth_session`, set by `signIn` and cleared by `signOut`.
 */
module SingleSessionProvider {
  import opened Wrappers
  import opened StorageState

  /** Store key of the session. */
  const SessionKey: string := "auth_session"

  /** What `useSession()` sees: the default object, or the mounted provider's pair and store. */
  datatype Context = Default | Mounted(session: Slot, store: Store)

  /** Mounting the provider: the pair starts loading. */
  function Mount(store: Store): (ctx: Context)
    ensures ctx.Mounted? && ctx.store == store
    ensures IsLoading(ctx) && Session(ctx) == None
  {
    Mounted(Initial, store)
  }

  /** The exposed `session` (`null` in the default object). */
  function Session(ctx: Context): Option<string> {
    if ctx.Mounted? then ctx.session.value else None
  }

  /** The exposed `isLoading` (`false` in the default object). */
  function IsLoading(ctx: Context): bool {
    ctx.Mounted? && ctx.session.isLoading
  }

  /** The pair's mount effect: the stored `auth_session` arrives. */
  function LoadSession(ctx: Context): (r: Context)
    ensures ctx.Default? ==> r == Default
    ensures ctx.Mounted? ==> r.Mounted? && r.store == ctx.store
    ensures ctx.Mounted? ==> r.session == Slot(false, GetItem(ctx.store, SessionKey))
  {
    match ctx
    case Default => Default
    case Mounted(slot, store) => Mounted(Load(slot, store, SessionKey), store)
  }

  /**
   * `signIn(session)`: the pair takes exactly the given value (`null` and `''`
   * included) and stops loading; the store keeps it when it is a non-empty
   * string and drops the entry otherwise; other entries are untouched.
   */
  function SignIn(ctx: Context, session: Option<string>): (r: Context)
    ensures ctx.Default? ==> r == Default
    ensures ctx.Mounted? ==> r.Mounted? && r.session == Slot(false, session)
    ensures ctx.Mounted? ==> GetItem(r.store, SessionKey) == Stored(session)
    ensures ctx.Mounted? ==> forall k :: k != SessionKey ==> GetItem(r.store, k) == GetItem(ctx.store, k)
  {
    match ctx
    case Default => Default
    case Mounted(slot, store) =>
      var w := SetValue(slot, store, SessionKey, session);
      Mounted(w.slot, w.store)
  }

  /** `signOut()`: the session reads `null`, in memory and in the store. */
  function SignOut(ctx: Context): (r: Context)
    ensures ctx.Default? ==> r == Default
    ensures ctx.Mounted? ==> r.Mounted? && r.session == Slot(false, None) && SessionKey !in r.store
    ensures ctx.Mounted? ==> forall k :: k != SessionKey ==> GetItem(r.store, k) == GetItem(ctx.store, k)
  {
    match ctx
    case Default => Default
    case Mounted(slot, store) =>
      var w := SetValue(slot, store, SessionKey, None);
      Mounted(w.slot, w.store)
  }

  /** Once loaded, the pair agrees with the store and the store holds no empty entry. */
  predicate Consistent(ctx: Context) {
    ctx.Mounted? ==> Mirrors(ctx.session, ctx.store, SessionKey) && NoEmptyEntries(ctx.store)
  }

  /** `signIn(null)` and `signOut()` produce the same pair and the same store. */
  lemma SignInNullIsSignOut(ctx: Context)
    ensures SignIn(ctx, None) == SignOut(ctx)
  {
  }

  /** A signed-in non-empty session is read back after a restart. */
  lemma SignInSurvivesRestart(ctx: Context, s: string)
    requires ctx.Mounted? && s != ""
    ensures Session(SignIn(ctx, Some(s))) == Some(s)
    ensures Session(LoadSession(Mount(SignIn(ctx, Some(s)).store))) == Some(s)
  {
  }

  /** Signing in with `''` reports `''` until a restart, after which the session reads `null`. */
  lemma EmptySignInIsLostOnRestart(ctx: Context)
    requires ctx.Mounted?
    ensures Session(SignIn(ctx, Some(""))) == Some("")
    ensures Session(LoadSession(Mount(SignIn(ctx, Some("")).store))) == None
  {
  }

  /** Loading, signing in and signing out all keep the pair consistent with the store. */
  lemma OperationsConsistent(ctx: Context, session: Option<string>)
    requires Consistent(ctx)
    ensures Consistent(LoadSession(ctx))
    ensures Consistent(SignIn(ctx, session))
    ensures Consistent(SignOut(ctx))
  {
    if ctx.Mounted? {
      LoadMirrors(ctx.session, ctx.store, SessionKey);
    }
  }

  /** Without a provider `signIn` and `signOut` are inert, the session is `null` and nothing loads. */
  lemma DefaultContextIsInert(session: Option<string>)
    ensures SignIn(Default, session) == Default && SignOut(Default) == Default
    ensures Session(Default) == None && !IsLoading(Default)
  {
  }
}
