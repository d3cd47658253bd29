/**
 * The focus flag both focus hooks keep in a ref: true at mount, set by the
 * focus effect and cleared by its cleanup when the screen loses focus.
 */
module FocusFlag {

  /** The screen gains focus (the effect runs) or loses it (the effect's cleanup runs). */
  datatype FocusEvent = Focus | Blur

  /** `useRef(true)`: a screen counts as focused from its first render. */
  const InitiallyFocused: bool := true

  /** The flag after one event. */
  function OnEvent(focused: bool, e: FocusEvent): bool {
    match e
    case Focus => true
    case Blur => false
  }

  /**
   * The flag after a run of events applied in order: the last event decides,
   * and no event leaves the flag as it was.
   */
  function Replay(focused: bool, es: seq<FocusEvent>): (f: bool)
    ensures |es| == 0 ==> f == focused
    ensures |es| > 0 ==> (f <==> es[|es| - 1] == Focus)
    decreases |es|
  {
    if |es| == 0 then focused else Replay(OnEvent(focused, es[0]), es[1..])
  }

  /** The flag of a mounted screen after its focus history. */
  function FocusedAfter(es: seq<FocusEvent>): bool {
    Replay(InitiallyFocused, es)
  }

  /** Blur clears the flag and a following focus sets it again, whatever came before. */
  lemma BlurThenFocus(es: seq<FocusEvent>)
    ensures FocusedAfter([])
    ensures !FocusedAfter(es + [Blur])
    ensures FocusedAfter(es + [Blur, Focus])
  {
    assert (es + [Blur])[|es|] == Blur;
    assert (es + [Blur, Focus])[|es| + 1] == Focus;
  }
}

/**
 * `useFocusNotifyOnChangeProps`: the `notifyOnChangeProps` callback that makes a
 * query re-render for nothing while its screen is out of focus.
 */
module FocusNotify {
  import opened Wrappers
  import opened FocusFlag

  /** The result properties a query notifies about: `'all'` or a list of property names. */
  datatype Tracked = All | Keys(names: seq<string>)

  /** The hook's argument: omitted, a fixed value, or a function computing one or `undefined`. */
  datatype NotifyArg = Undefined | Static(tracked: Tracked) | Computed(compute: () -> Option<Tracked>)

  /**
   * The returned callback: `[]` while unfocused whatever the argument; while
   * focused, a function argument's result (`undefined` included), or any other
   * argument as it is (`undefined` as `None`).
   */
  function Select(focused: bool, arg: NotifyArg): (r: Option<Tracked>)
    ensures !focused ==> r == Some(Keys([]))
    ensures focused && arg.Undefined? ==> r == None
    ensures focused && arg.Static? ==> r == Some(arg.tracked)
    ensures focused && arg.Computed? ==> r == arg.compute()
  {
    if !focused then Some(Keys([]))
    else
      match arg
      case Computed(f) => f()
      case Static(t) => Some(t)
      case Undefined => None
  }

  /**
   * After any history that ends in a blur the callback asks for no property;
   * once focus returns it passes the argument through again.
   */
  lemma BlurSilences(es: seq<FocusEvent>, arg: NotifyArg)
    ensures Select(FocusedAfter(es + [Blur]), arg) == Some(Keys([]))
    ensures arg.Static? ==> Select(FocusedAfter(es + [Blur, Focus]), arg) == Some(arg.tracked)
    ensures arg.Undefined? ==> Select(FocusedAfter(es + [Blur, Focus]), arg) == None
    ensures arg.Computed? ==> Select(FocusedAfter(es + [Blur, Focus]), arg) == arg.compute()
  {
    BlurThenFocus(es);
  }
}

/**
 * `useQueryFocusAware`: the `enabled` callback that switches a query off while
 * its screen is out of focus. Its argument is accepted and ignored.
 */
module QueryFocusAware {
  import opened Wrappers
  import opened FocusFlag
  import FocusNotify

  /**
   * The returned callback: the current flag. The query is enabled exactly when
   * the notify callback, given no argument, does not silence it, and while it is
   * disabled the notify callback is silent whatever its argument.
   */
  function Enabled(focused: bool, arg: FocusNotify.NotifyArg): (on: bool)
    ensures on <==> FocusNotify.Select(focused, FocusNotify.Undefined) == None
    ensures !on ==> FocusNotify.Select(focused, arg) == Some(FocusNotify.Keys([]))
  {
    focused
  }

  /**
   * The query is enabled exactly when the screen has seen no focus event since
   * mounting or its last event was a focus; the argument never matters.
   */
  lemma EnabledFollowsFocus(es: seq<FocusEvent>, a: FocusNotify.NotifyArg, b: FocusNotify.NotifyArg)
    ensures Enabled(FocusedAfter(es), a) <==> |es| == 0 || es[|es| - 1] == Focus
    ensures Enabled(FocusedAfter(es), a) == Enabled(FocusedAfter(es), b)
  {
  }
}
