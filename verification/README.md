# Session, cookie and focus logic of the student-portal mobile client

This project models the non-UI logic of a mobile client for a student and fee
portal, and proves properties of that model. The model has four parts:

- **Cookie parser** (`Utils`, on top of `JsString`). `getCookies` splits a cookie
  string on `;`, trims each segment, splits it at the first `=` that has a
  character after it, and folds the segments left to right into an object.
  The model follows the ECMAScript built-ins exactly, including three details:
  - `trim` strips every WhiteSpace and LineTerminator character;
  - the `.` in `/=(.+)/` stops at line terminators, so a value ends at the first
    one;
  - assigning the key `__proto__` to a plain object goes to the inherited
    `__proto__` setter, which ignores a string or `undefined`, so that
    key never becomes an entry.
- **Storage-backed state** (`StorageState`). `useStorageState` keeps a
  `[isLoading, value]` pair in memory that mirrors one entry of the secure
  key-value store, here a `map<string, string>`. Writing `null` or `''` deletes
  the entry.
  - `DualSessionProvider` builds on it: a user slot (`sessionid`) and an admin
    slot (`admin-sessionid`), refreshed from response headers, with two
    asymmetric sign-outs.
  - `SingleSessionProvider` builds on it: one slot under `auth_session`.
  Every operation is a total transition function with frame properties. Each
  provider also has an invariant that memory mirrors the store, and every
  operation keeps it.
- **Sign-in decision** (`SignIn`). Given the typed email and how the `send-code`
  request ends, `sendCode` produces the ordered effects the screen emits: a
  toast, the request, navigation, the admin shortcut, and `loading` updates.
  The module also models the guard that ignores typing while `loading` is on.
- **Focus gates** (`FocusFlag`, `FocusNotify`, `QueryFocusAware`). A focus flag
  starts true, is set on focus and cleared on blur. Two callbacks read it: one
  suppresses query notifications while the screen is unfocused, the other
  disables the query.

A 2xx from `send-code` only navigates to the verify route; this screen reads no
header (`SignIn.SendCode`, `SignIn.RequestReactions`).

The parser has two edge cases that are easy to get wrong:
- A segment that is exactly `=` has no match, because nothing follows the `=`.
  It therefore adds the key `"="` with an `undefined` value.
- A segment gets the empty key, and is skipped, only when it is blank after
  trimming or its trimmed text starts with an `=` that has a character after it
  on the same line.

## Model

| member | source | states |
|---|---|---|
| JsString.Split | src/lib/utils.ts:11 | `split(';')` yields at least one piece and no piece holds `;` |
| JsString.JoinSplit | src/lib/utils.ts:11 | joining the pieces of `split(';')` with `;` gives the input back, so no character is lost |
| JsString.SplitJoin | src/lib/utils.ts:11 | splitting undoes joining when no piece holds the separator (the other half of the round trip) |
| JsString.SplitAppend | src/lib/utils.ts:11 | the pieces of `a;b` are the pieces of `a` followed by those of `b` |
| JsString.Trim | src/lib/utils.ts:12 | `trim()` leaves no trimmable character at either end, never lengthens the segment, and leaves something whenever the segment has a non-trimmable character |
| JsString.TrimSlice | src/lib/utils.ts:12 | `trim()` returns the slice of the input left after dropping only trimmable characters at both ends, and that slice neither starts nor ends with one |
| JsString.TrimIdempotent | src/lib/utils.ts:12 | trimming a trimmed segment changes nothing |
| JsString.TrimPadding | src/lib/utils.ts:12 | trimming removes exactly the whitespace padding around text that neither starts nor ends with whitespace |
| Utils.FirstMatch | src/lib/utils.ts:12 | finds the leftmost position where `=(.+)` matches: an `=` followed by a non-line-terminator |
| Utils.RunEnd | src/lib/utils.ts:12 | the greedy `.+` stops at the first line terminator or the end |
| Utils.SplitPair | src/lib/utils.ts:12 | elements 0 and 1 of `split(/=(.+)/)`: with no match, key = whole segment and value undefined; otherwise key + `=` + value is a prefix of the segment, the value is non-empty, stays on one line and runs to a line end, and the key holds no earlier match |
| Utils.ParseSegment | src/lib/utils.ts:12 | a segment's key is a prefix of the trimmed segment, and the whole trimmed segment when its value is undefined |
| Utils.MapSeqAppend | src/lib/utils.ts:12 | the `map` step over two runs of segments is the map over each run, in order |
| Utils.Insert | src/lib/utils.ts:14-21 | a storable key is bound to the cookie's value, overwriting an earlier one; an empty or `__proto__` key leaves the object as it was; no other entry changes |
| Utils.Collect | src/lib/utils.ts:13-23 | the reduce yields only storable keys (non-empty, not `__proto__`), at most one entry per cookie |
| Utils.CollectKeys | src/lib/utils.ts:13-22 | a key is in the result if and only if it is storable and some segment carries it |
| Utils.CollectLastWins | src/lib/utils.ts:13-22 | a repeated key is bound to the value of its last occurrence |
| Utils.CollectAppend | src/lib/utils.ts:13-22 | reducing two runs of segments gives the right-biased union of the two results |
| Utils.GetCookies | src/lib/utils.ts:9-25 | every key of the result is non-empty, and there is at most one entry per `;`-separated segment |
| Utils.GetCookiesAppend | src/lib/utils.ts:9-25 | `getCookies(a + ';' + b)` is `getCookies(a)` overridden by `getCookies(b)` |
| Utils.LastSegmentWins | src/lib/utils.ts:9-25 | appending one more segment with a storable key binds that key to the segment's value, whatever came before |
| Utils.ValueIsRestAfterFirstEquals | src/lib/utils.ts:12-20 | on one line, the key is everything before the first `=` and the value everything after it, later `=` included |
| Utils.ValueKeepsLaterEquals | src/lib/utils.ts:9-25 | `getCookies("k=v")` is exactly `{k: v}` even when `v` contains `=` (so `"a=b=c"` gives `a ↦ "b=c"`) |
| Utils.BareFlag | src/lib/utils.ts:12-20 | a segment with no `=` before its last character (a bare flag, or one like `a=`) is keyed by the whole segment with value undefined |
| Utils.EmptyKeyAddsNothing | src/lib/utils.ts:10-18 | a segment that is blank after trimming, or starts with `=` followed by a character on the same line, has the empty key and leaves the object unchanged |
| Utils.LoneEqualsIsAKey | src/lib/utils.ts:12-20 | the segment `=` is not a match and adds key `"="` with value undefined |
| Utils.TrimIsAroundSegment | src/lib/utils.ts:12 | in `" k = v "` the key keeps the space before `=` (`"k "`) and the value the one after it (`" v"`) |
| Utils.ValueStopsAtLineTerminator | src/lib/utils.ts:12 | `"a=b\nc"` splits into key `a` and value `b`: the value stops at the newline |
| Utils.FormatInr | src/lib/utils.ts:32-35 | `null` displays as `N/A`; a number goes to the locale formatter |
| Utils.FormatDate | src/lib/utils.ts:37-42 | `null` displays as `N/A`; a date goes to the pattern formatter |
| StorageState.Reduce | src/hooks/useStorageState.ts:8 | every action clears loading and becomes the value |
| StorageState.ReduceReplacesWholesale | src/hooks/useStorageState.ts:6-10 | every reducer action clears loading and becomes the value, independently of the previous state |
| StorageState.InitialIsLoading | src/hooks/useStorageState.ts:6 | the initial pair is loading with no value, which claims nothing about the store |
| StorageState.SetStorageItem | src/hooks/useStorageState.ts:13-19 | `null` or `''` removes the key, any other string is stored exactly, no other key changes, and no empty entry is ever written |
| StorageState.Load | src/hooks/useStorageState.ts:24-27 | the mount read ends loading with the stored entry, or `null` when the key is absent |
| StorageState.SetValue | src/hooks/useStorageState.ts:31-35 | memory takes the value exactly, a later load returns what the store kept (`''` normalised to `null`), and other keys read as before |
| StorageState.LoadMirrors | src/hooks/useStorageState.ts:24-27 | after a load, memory agrees with the store |
| StorageState.SetValueMirrors | src/hooks/useStorageState.ts:31-35 | after `setValue`, memory agrees with the store for its key, and a mirror kept for any other key survives |
| StorageState.SetThenReload | src/hooks/useStorageState.ts:31-35 | after setting a non-empty string, memory holds it and a reload returns it |
| StorageState.SetEmptyThenReload | src/hooks/useStorageState.ts:13-19 | setting `''` keeps `''` in memory but deletes the entry, so a reload gives `null` |
| DualSessionProvider.Mount | src/components/session-provider.tsx:33-35 | mounting starts both slots loading with no session |
| DualSessionProvider.LoadSession | src/components/session-provider.tsx:34 | the user slot's mount read ends its loading with the stored `sessionid` entry, or `null`; the admin session, its loading flag and the store are unchanged |
| DualSessionProvider.LoadAdmin | src/components/session-provider.tsx:35 | the admin slot's mount read ends its loading with the stored `admin-sessionid` entry, or `null`; the user session, its loading flag and the store are unchanged |
| DualSessionProvider.SignInOrRefresh | src/components/session-provider.tsx:40-47 | returns true exactly for a non-empty `sessionid` header, which then becomes the session in memory and in the store; otherwise returns false and nothing changes; the admin slot and every other store entry are never touched |
| DualSessionProvider.SignInOrRefreshAdmin | src/components/session-provider.tsx:48-55 | the same rule for the `admin-sessionid` header, writing only the admin slot and its entry |
| DualSessionProvider.SignOut | src/components/session-provider.tsx:56-58 | clears the user session in memory and in the store; the admin slot and other entries are unchanged |
| DualSessionProvider.SignOutAdmin | src/components/session-provider.tsx:59-62 | clears both sessions in memory and in the store; other entries are unchanged |
| DualSessionProvider.StepConsistent | src/components/session-provider.tsx:33-62 | every load, refresh and sign-out keeps both slots mirroring their distinct store keys |
| DualSessionProvider.RunConsistent | src/components/session-provider.tsx:33-62 | any sequence of those events keeps the slots consistent with the store |
| DualSessionProvider.MountConsistent | src/components/session-provider.tsx:33-35 | a freshly mounted provider is consistent |
| DualSessionProvider.DefaultContextIsInert | src/components/session-provider.tsx:13-20 | without a provider, both refresh functions return false, sign-outs change nothing, and neither slot is loading |
| DualSessionProvider.RefreshSurvivesRestart | src/components/session-provider.tsx:40-45 | a refreshed token is read back after remounting over the store |
| DualSessionProvider.SignedOutStaysOut | src/components/session-provider.tsx:56-62 | after a sign-out, the cleared sessions read `null` both now and after a restart |
| DualSessionProvider.SignOutKeepsAdmin | src/components/session-provider.tsx:56-58 | plain sign-out leaves the admin session, its loading flag and its stored entry as they were |
| SingleSessionProvider.Mount | src/components/SessionProvider.tsx:28 | mounting starts the slot loading with no session |
| SingleSessionProvider.LoadSession | src/components/SessionProvider.tsx:28 | the mount read ends loading with the `auth_session` entry, or `null` |
| SingleSessionProvider.SignIn | src/components/SessionProvider.tsx:33-35 | the slot takes exactly the given session (`null` included) and stops loading; the store keeps it when non-empty; other entries are untouched |
| SingleSessionProvider.SignOut | src/components/SessionProvider.tsx:36-38 | the session reads `null` and the `auth_session` entry is gone |
| SingleSessionProvider.SignInNullIsSignOut | src/components/SessionProvider.tsx:33-38 | `signIn(null)` and `signOut()` give the same state and store |
| SingleSessionProvider.SignInSurvivesRestart | src/components/SessionProvider.tsx:33-35 | a non-empty session is read back after a restart |
| SingleSessionProvider.EmptySignInIsLostOnRestart | src/components/SessionProvider.tsx:33-35 | signing in with `''` reports `''` until a restart, then `null` |
| SingleSessionProvider.OperationsConsistent | src/components/SessionProvider.tsx:28-38 | load, sign-in and sign-out keep the slot mirroring the store |
| SingleSessionProvider.DefaultContextIsInert | src/components/SessionProvider.tsx:9-14 | without a provider, sign-in and sign-out change nothing, the session is `null`, and nothing is loading |
| SignIn.ToLower | src/app/sign-in/index.tsx:19 | lower-casing keeps the length, moves each ASCII capital 32 code points up, keeps every other character, and leaves no ASCII capital |
| SignIn.IsAdminEmail | src/app/sign-in/index.tsx:19 | the admin address itself is recognised, and a recognised email has its length and differs from it only by capitalised letters |
| SignIn.AdminEmailIgnoresCase | src/app/sign-in/index.tsx:19 | the admin check succeeds if and only if the email has the length of `admin@hnshmc.org` and each character is the address's own or, where the address has a lower-case letter, its capital |
| SignIn.SendCode | src/app/sign-in/index.tsx:13-59 | a request is made if and only if the email is present and is not the admin email; it carries that email; `loading` is on while it is in flight and off afterwards on every outcome; without a request `loading` is never set; navigation to verify happens only after a 2xx and carries the same email |
| SignIn.Respond | src/app/sign-in/index.tsx:39-55 | a finished request navigates to verify with the email exactly after a 2xx, otherwise shows a toast, which is "Email not found" exactly for a 404 |
| SignIn.MissingEmail | src/app/sign-in/index.tsx:14-17 | an undefined or empty email only shows "Email is required", with no request and `loading` unchanged |
| SignIn.AdminShortcut | src/app/sign-in/index.tsx:19-25 | the admin email signs in as `admin`, dismisses only when possible, replaces to home, makes no request, never touches `loading`, and leaves the session reading `admin` |
| SignIn.RequestReactions | src/app/sign-in/index.tsx:27-58 | a 2xx navigates to verify with the email; 404 shows "Email not found"; any other status or a thrown request shows "Failed to send code"; `loading` ends false |
| SignIn.LoadingUntouched | src/app/sign-in/index.tsx:14-25 | effects that never set `loading` leave it as it was |
| SignIn.OnChangeText | src/app/sign-in/index.tsx:74-77 | typing never changes `loading`; while it is on nothing changes, otherwise the text becomes the email |
| SignIn.TypingIgnoredWhileLoading | src/app/sign-in/index.tsx:74-77 | while `loading` is on, no sequence of typed texts changes the screen |
| SignIn.LastTextWins | src/app/sign-in/index.tsx:74-77 | when not loading, the last typed text becomes the email |
| FocusFlag.Replay | src/hooks/useQueryFocusAware.ts:6-16 | after a sequence of focus and blur events, the flag is true if and only if the last event was a focus; with no events it keeps its start value |
| FocusFlag.BlurThenFocus | src/hooks/useQueryFocusAware.ts:6-15 | the flag starts true, a blur clears it, and a following focus sets it again |
| FocusNotify.Select | src/hooks/useFocusNotifyOnChangeProps.ts:18-28 | unfocused: `[]` whatever the argument; focused: a function argument's result, which may itself be `undefined`, or any other argument unchanged (`undefined` included) |
| FocusNotify.BlurSilences | src/hooks/useFocusNotifyOnChangeProps.ts:6-28 | after any history ending in a blur, the callback returns `[]`; after a following focus it passes a fixed or absent argument through and returns a function argument's result |
| QueryFocusAware.Enabled | src/hooks/useQueryFocusAware.ts:18 | the query is enabled exactly when the notify callback without argument does not silence it, and while disabled the notify callback is silent for any argument |
| QueryFocusAware.EnabledFollowsFocus | src/hooks/useQueryFocusAware.ts:5-18 | the getter is true if and only if no focus event has happened yet or the last one was a focus; the argument never matters |

## Left out

- `null` and `undefined` are both `Option.None`. The distinction is lost: the default context of `session-provider.tsx` exposes `undefined` sessions, while a loaded provider with no entry exposes `null`, so a strict `=== null` test on a session, such as the redirect check in `(tabs)/_layout.tsx`, is not distinguished from a test for `undefined` in this model.

- SignIn.ToLower: handles only ASCII letters. For the comparison with the all-ASCII admin email this changes nothing. The only non-ASCII characters that lower-case into ASCII are U+212A, which becomes `k`, and U+0130, which becomes `i` plus a combining dot. Neither can produce `admin@hnshmc.org`.
- Utils.FormatInr: the non-`null` branch is an uninterpreted formatter parameter. Intl currency formatting is a foreign call.
- Utils.FormatDate: the non-`null` branch is an uninterpreted formatter parameter. date-fns `format` is a foreign call.
- `cn` (clsx/tailwind-merge) and `getBaseUrl` (an environment variable) are left out: foreign calls and environment.
- The cookie model works on strings of Unicode scalar values, not UTF-16 code units. This affects no result, because `;`, `=`, the whitespace and the line terminators are all single code units.
- The key order of the cookie object and its inherited properties are not modelled. Only its own entries are.
- The async race in `useStorageState` is not modelled: the mount read can resolve after a `setValue` and overwrite it. Load and set are atomic events, and no ordering between them is claimed.
- `useStorageState` re-reads when its key changes. This is not modelled, because every caller passes a constant key.
- Secure-store failures (rejected promises) and its key-format rules are not modelled. The hook does not catch failures, and the keys used are constants that the store accepts.
- Response headers are a map from lower-case names to values. Name case folding and the joining of repeated headers in `Headers.get` are not modelled.
- React context, rendering and the development-mode check in `useSession` are left out. Because the context has a default value, that check never fires; the default value is modelled as `Default`.
- In `sendCode`, the router and toasts appear only as effects, and the fetch appears only as its outcome. A second `sendCode` fired from the keyboard's submit while a request is in flight is concurrency, so it is not modelled. The button is disabled while `loading`, but keyboard submit is not.
- The focus hooks' `useFocusEffect` registration is modelled as a sequence of focus and blur events.
- Left out as UI or I/O with no logic to verify: the profile-image upload component; the root layout and its network and app-state listeners; theme constants; the navigation-bar platform call; the spinner; the type declarations; the data screens.
