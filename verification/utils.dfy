/**
 * The pure helpers of the app's utility file: the cookie-header parser
 * `getCookies` and the `null` branches of the currency and date formatters.
 */
module Utils {
  import opened Wrappers
  import JsString

  /** An own property of the parser's result object: a name and a possibly `undefined` value. */
  type Cookies = map<string, Option<string>>

  /** What one `;`-separated segment splits into: element 0 and element 1 of `t.split(/=(.+)/)`. */
  datatype Cookie = Cookie(key: string, value: Option<string>)

  /**
   * The one key whose assignment on a plain object adds no entry: it goes to the
   * inherited `__proto__` setter, which ignores a string or `undefined`.
   */
  const ProtoKey: string := "__proto__"

  /**
   * The regular expression `=(.+)` matches starting at `q`: an `=` followed by at
   * least one character that `.` accepts (anything but a line terminator).
   */
  predicate MatchesAt(t: string, q: int) {
    0 <= q && q + 1 < |t| && t[q] == '=' && !JsString.IsLineTerminator(t[q + 1])
  }

  /** The leftmost position at or after `from` where `=(.+)` matches. */
  function FirstMatch(t: string, from: nat): (r: Option<nat>)
    requires from <= |t|
    ensures r.Some? ==> from <= r.value && MatchesAt(t, r.value)
    ensures r.Some? ==> forall k :: from <= k < r.value ==> !MatchesAt(t, k)
    ensures r.None? ==> forall k :: from <= k < |t| ==> !MatchesAt(t, k)
    decreases |t| - from
  {
    if from == |t| then None
    else if MatchesAt(t, from) then Some(from)
    else FirstMatch(t, from + 1)
  }

  /** Where the greedy `.+` stops: the first line terminator at or after `from`, or the end. */
  function RunEnd(t: string, from: nat): (e: nat)
    requires from <= |t|
    ensures from <= e <= |t|
    ensures forall k :: from <= k < e ==> !JsString.IsLineTerminator(t[k])
    ensures e == |t| || JsString.IsLineTerminator(t[e])
    decreases |t| - from
  {
    if from == |t| || JsString.IsLineTerminator(t[from]) then from else RunEnd(t, from + 1)
  }

  /**
   * Elements 0 and 1 of `t.split(/=(.+)/)`. With no match the split returns `[t]`,
   * so the value is `undefined`. Otherwise the key is everything before the
   * leftmost match and the value is the captured group: from just after that `=`
   * up to the next line terminator or the end.
   */
  function SplitPair(t: string): (c: Cookie)
    ensures c.value.None? <==> forall q :: 0 <= q < |t| ==> !MatchesAt(t, q)
    ensures c.value.None? ==> c.key == t
    ensures c.value.Some? ==>
              var n := |c.key| + 1 + |c.value.value|;
              && n <= |t|
              && t[..n] == c.key + ['='] + c.value.value
              && c.value.value != []
              && (forall k :: 0 <= k < |c.value.value| ==> !JsString.IsLineTerminator(c.value.value[k]))
              && (n == |t| || JsString.IsLineTerminator(t[n]))
              && (forall q :: 0 <= q < |c.key| ==> !MatchesAt(t, q))
  {
    match FirstMatch(t, 0)
    case None => Cookie(t, None)
    case Some(q) =>
      var e := RunEnd(t, q + 1);
      assert t[..e] == t[..q] + ['='] + t[q + 1..e];
      Cookie(t[..q], Some(t[q + 1..e]))
  }

  /**
   * One segment of the cookie string: trimmed as a whole, then split at the
   * first usable `=`. The key is a prefix of the trimmed segment, and the whole
   * trimmed segment when no `=` qualifies.
   */
  function ParseSegment(segment: string): (c: Cookie)
    ensures c.key <= JsString.Trim(segment)
    ensures c.value.None? ==> c.key == JsString.Trim(segment)
  {
    SplitPair(JsString.Trim(segment))
  }

  /** `Array.prototype.map`: `f` applied to every element, in order. */
  function MapSeq<A, B>(f: A -> B, xs: seq<A>): (ys: seq<B>)
    ensures |ys| == |xs|
    ensures forall i :: 0 <= i < |xs| ==> ys[i] == f(xs[i])
  {
    seq(|xs|, i requires 0 <= i < |xs| => f(xs[i]))
  }

  /** Mapping over two runs is mapping over each run. */
  lemma MapSeqAppend<A, B>(f: A -> B, xs: seq<A>, ys: seq<A>)
    ensures MapSeq(f, xs + ys) == MapSeq(f, xs) + MapSeq(f, ys)
  {
    var l := MapSeq(f, xs + ys);
    var r := MapSeq(f, xs) + MapSeq(f, ys);
    forall i | 0 <= i < |l|
      ensures l[i] == r[i]
    {
      if i < |xs| {
        assert (xs + ys)[i] == xs[i];
      } else {
        assert (xs + ys)[i] == ys[i - |xs|];
      }
    }
  }

  /** A key the reducer's assignment turns into an entry: non-empty (truthy) and not the prototype key. */
  predicate Storable(key: string) {
    key != "" && key != ProtoKey
  }

  /**
   * One step of the reducer: a storable key is bound to the cookie's value,
   * overwriting an earlier one; any other key leaves the object as it was.
   * No other entry changes.
   */
  function Insert(acc: Cookies, c: Cookie): (m: Cookies)
    ensures Storable(c.key) ==> c.key in m && m[c.key] == c.value
    ensures !Storable(c.key) ==> m == acc
    ensures forall k :: k != c.key ==> (k in m <==> k in acc)
    ensures forall k :: k != c.key && k in acc ==> m[k] == acc[k]
  {
    if Storable(c.key) then acc[c.key := c.value] else acc
  }

  /** Some cookie in `cs` carries key `k`. */
  ghost predicate Occurs(cs: seq<Cookie>, k: string) {
    exists i :: 0 <= i < |cs| && cs[i].key == k
  }

  /** Position `i` holds the last cookie in `cs` with key `k`. */
  ghost predicate LastOccurrence(cs: seq<Cookie>, k: string, i: int) {
    0 <= i < |cs| && cs[i].key == k && forall j :: i < j < |cs| ==> cs[j].key != k
  }

  /**
   * The left-to-right `reduce` from the empty object: only storable keys become
   * entries, and there are no more entries than cookies.
   */
  function Collect(cs: seq<Cookie>): (m: Cookies)
    ensures forall k :: k in m ==> Storable(k)
    ensures |m| <= |cs|
    decreases |cs|
  {
    if |cs| == 0 then map[] else Insert(Collect(cs[..|cs| - 1]), cs[|cs| - 1])
  }

  /** A key is in the reducer's result exactly when it is storable and some cookie carries it. */
  lemma {:induction false} CollectKeys(cs: seq<Cookie>, k: string)
    ensures k in Collect(cs) <==> Storable(k) && Occurs(cs, k)
    decreases |cs|
  {
    if |cs| > 0 {
      var init := cs[..|cs| - 1];
      CollectKeys(init, k);
      if Occurs(cs, k) && cs[|cs| - 1].key != k {
        var i :| 0 <= i < |cs| && cs[i].key == k;
        assert init[i] == cs[i];
      }
      if Occurs(init, k) {
        var i :| 0 <= i < |init| && init[i].key == k;
        assert cs[i] == init[i];
      }
    }
  }

  /** A later key overwrites an earlier one: a key's value is that of its last occurrence. */
  lemma {:induction false} CollectLastWins(cs: seq<Cookie>, k: string, i: int)
    requires Storable(k)
    requires LastOccurrence(cs, k, i)
    ensures k in Collect(cs) && Collect(cs)[k] == cs[i].value
    decreases |cs|
  {
    if i < |cs| - 1 {
      var init := cs[..|cs| - 1];
      assert LastOccurrence(init, k, i);
      CollectLastWins(init, k, i);
    }
  }

  /**
   * `getCookies(cookieStr)`: split on `;`, trim and split each segment, then
   * reduce left to right into an object. Every key of the result is non-empty,
   * and there is at most one entry per segment.
   */
  function GetCookies(cookieStr: string): (m: Cookies)
    ensures forall k :: k in m ==> k != ""
    ensures |m| <= |JsString.Split(cookieStr, ';')|
  {
    Collect(MapSeq(ParseSegment, JsString.Split(cookieStr, ';')))
  }

  /** Assigning into a union is assigning into its right operand. */
  lemma InsertUnion(a: Cookies, b: Cookies, c: Cookie)
    ensures Insert(a + b, c) == a + Insert(b, c)
  {
    if Storable(c.key) {
      assert (a + b)[c.key := c.value] == a + b[c.key := c.value];
    }
  }

  /** The reducer over two runs of cookies is the right-biased union of the two results. */
  lemma {:induction false} CollectAppend(cs: seq<Cookie>, ds: seq<Cookie>)
    ensures Collect(cs + ds) == Collect(cs) + Collect(ds)
    decreases |ds|
  {
    if |ds| == 0 {
      assert cs + ds == cs;
    } else {
      var init := ds[..|ds| - 1];
      var last := ds[|ds| - 1];
      assert Collect(cs + ds) == Insert(Collect(cs + init), last) by {
        assert (cs + ds)[..|cs + ds| - 1] == cs + init;
        assert (cs + ds)[|cs + ds| - 1] == last;
      }
      CollectAppend(cs, init);
      InsertUnion(Collect(cs), Collect(init), last);
    }
  }

  /**
   * Joining two cookie strings with `;` gives the union of their results, in
   * which the later string wins on every key both define.
   */
  lemma GetCookiesAppend(a: string, b: string)
    ensures GetCookies(a + ";" + b) == GetCookies(a) + GetCookies(b)
  {
    var sa := JsString.Split(a, ';');
    var sb := JsString.Split(b, ';');
    assert JsString.Split(a + ";" + b, ';') == sa + sb by {
      assert a + ";" + b == a + [';'] + b;
      JsString.SplitAppend(a, ';', b);
    }
    MapSeqAppend(ParseSegment, sa, sb);
    CollectAppend(MapSeq(ParseSegment, sa), MapSeq(ParseSegment, sb));
  }

  /**
   * Among segments of the same key, the last one decides: appending one more
   * segment binds its key to the value it parsed to, whatever came before.
   */
  lemma LastSegmentWins(a: string, b: string)
    requires ';' !in b
    requires Storable(ParseSegment(b).key)
    ensures var c := ParseSegment(b);
            c.key in GetCookies(a + ";" + b) && GetCookies(a + ";" + b)[c.key] == c.value
  {
    var c := ParseSegment(b);
    assert GetCookies(b) == map[c.key := c.value] by {
      SingleSegment(b);
    }
    GetCookiesAppend(a, b);
  }

  /** No line terminator occurs in `t`. */
  predicate SingleLine(t: string) {
    forall k :: 0 <= k < |t| ==> !JsString.IsLineTerminator(t[k])
  }

  /**
   * On a single line, the value is everything after the first `=` when at least
   * one character follows it, so further `=` belong to the value.
   */
  lemma ValueIsRestAfterFirstEquals(t: string, q: nat)
    requires SingleLine(t)
    requires q + 1 < |t| && t[q] == '='
    requires '=' !in t[..q]
    ensures SplitPair(t) == Cookie(t[..q], Some(t[q + 1..]))
  {
    forall k | 0 <= k < q
      ensures !MatchesAt(t, k)
    {
      assert t[k] == t[..q][k];
    }
    FirstMatchAt(t, 0, q);
    var e := RunEnd(t, q + 1);
    assert e == |t|;
    assert SplitPair(t) == Cookie(t[..q], Some(t[q + 1..e]));
    assert t[q + 1..e] == t[q + 1..];
  }

  /** The leftmost match at or after `from` is the first position from which the regex matches. */
  lemma {:induction false} FirstMatchAt(t: string, from: nat, q: nat)
    requires from <= q && MatchesAt(t, q)
    requires forall k :: from <= k < q ==> !MatchesAt(t, k)
    ensures FirstMatch(t, from) == Some(q)
    decreases q - from
  {
    if from < q {
      FirstMatchAt(t, from + 1, q);
    }
  }

  /**
   * A segment without `=`, or whose only `=` is its last character, is a bare
   * flag: the key is the whole segment (a trailing `=` included) and the value
   * is `undefined`.
   */
  lemma BareFlag(t: string)
    requires forall k :: 0 <= k < |t| - 1 ==> t[k] != '='
    ensures SplitPair(t) == Cookie(t, None)
  {
  }

  /**
   * A segment that is blank once trimmed, or whose trimmed text starts with an
   * `=` that has a character after it on the same line, has the empty key and
   * leaves the accumulated object unchanged.
   */
  lemma EmptyKeyAddsNothing(acc: Cookies, segment: string)
    requires var t := JsString.Trim(segment); t == [] || MatchesAt(t, 0)
    ensures ParseSegment(segment).key == ""
    ensures Insert(acc, ParseSegment(segment)) == acc
  {
    var t := JsString.Trim(segment);
    if t != [] {
      assert SplitPair(t).value.Some?;
    }
  }

  /** A lone `=` is not a match (nothing follows it), so it is kept as the key `"="`. */
  lemma LoneEqualsIsAKey(acc: Cookies)
    ensures ParseSegment("=") == Cookie("=", None)
    ensures Insert(acc, ParseSegment("=")) == acc["=" := None]
  {
    assert JsString.TrimStart("=") == "=";
    assert JsString.TrimEnd("=") == "=";
    BareFlag("=");
  }

  /**
   * Trimming happens around the whole segment, not around the `=`: in
   * `" k = v "` the key keeps the space before `=` and the value keeps the one
   * after it.
   */
  lemma TrimIsAroundSegment(k: string, v: string)
    requires k != [] && !JsString.IsTrimmable(k[0]) && '=' !in k
    requires v != [] && !JsString.IsTrimmable(v[|v| - 1])
    requires SingleLine(k) && SingleLine(v)
    ensures ParseSegment(" " + k + " = " + v + " ") == Cookie(k + " ", Some(" " + v))
  {
    PaddedPairTrims(k, v);
    SpacedPairSplits(k, v);
  }

  /** One space around `k = v` is exactly what trimming removes before the split. */
  lemma PaddedPairTrims(k: string, v: string)
    requires k != [] && !JsString.IsTrimmable(k[0])
    requires v != [] && !JsString.IsTrimmable(v[|v| - 1])
    ensures ParseSegment(" " + k + " = " + v + " ") == SplitPair(k + " = " + v)
  {
    var t := k + " = " + v;
    assert " " + k + " = " + v + " " == " " + t + " ";
    assert t[0] == k[0] && t[|t| - 1] == v[|v| - 1];
    JsString.TrimPadding(" ", t, " ");
  }

  /** `k = v` splits at its `=`, the spaces on either side staying with key and value. */
  lemma SpacedPairSplits(k: string, v: string)
    requires k != [] && '=' !in k && v != []
    requires SingleLine(k) && SingleLine(v)
    ensures SplitPair(k + " = " + v) == Cookie(k + " ", Some(" " + v))
  {
    var t := k + " = " + v;
    SpacedPairSingleLine(k, v);
    assert t[..|k| + 1] == k + " " && t[|k| + 2..] == " " + v;
    ValueIsRestAfterFirstEquals(t, |k| + 1);
  }

  /** Spaces and `=` are no line terminators, so `k = v` is on one line when `k` and `v` are. */
  lemma SpacedPairSingleLine(k: string, v: string)
    requires SingleLine(k) && SingleLine(v)
    ensures SingleLine(k + " = " + v)
  {
    var t := k + " = " + v;
    forall i | 0 <= i < |t|
      ensures !JsString.IsLineTerminator(t[i])
    {
      if i < |k| {
        assert t[i] == k[i];
      } else if i >= |k| + 3 {
        assert t[i] == v[i - |k| - 3];
      }
    }
  }

  /** A cookie string without `;` is a single segment. */
  lemma SingleSegment(s: string)
    requires ';' !in s
    ensures GetCookies(s) == Insert(map[], ParseSegment(s))
  {
    JsString.SplitNoSeparator(s, ';');
    var c := ParseSegment(s);
    assert MapSeq(ParseSegment, [s]) == [c];
    assert [c][..0] == [];
  }

  /** `"k=v"` binds `k` to all of `v`, later `=` included (so `"a=b=c"` binds `a` to `"b=c"`). */
  lemma ValueKeepsLaterEquals(k: string, v: string)
    requires Storable(k) && '=' !in k && ';' !in k && ';' !in v
    requires !JsString.IsTrimmable(k[0]) && v != [] && !JsString.IsTrimmable(v[|v| - 1])
    requires SingleLine(k) && SingleLine(v)
    ensures GetCookies(k + "=" + v) == map[k := Some(v)]
  {
    var s := k + "=" + v;
    assert ';' !in s && SingleLine(s) by {
      forall i | 0 <= i < |s|
        ensures s[i] != ';' && !JsString.IsLineTerminator(s[i])
      {
        if i < |k| {
          assert s[i] == k[i];
        } else if i > |k| {
          assert s[i] == v[i - |k| - 1];
        }
      }
    }
    assert ParseSegment(s) == Cookie(k, Some(v)) by {
      JsString.TrimKeepsTrimmed(s);
      assert s[..|k|] == k && s[|k| + 1..] == v;
      ValueIsRestAfterFirstEquals(s, |k|);
    }
    SingleSegment(s);
  }

  /** The value stops at a line terminator: `"a=b\nc"` binds `a` to `"b"`. */
  lemma ValueStopsAtLineTerminator()
    ensures SplitPair("a=b\nc") == Cookie("a", Some("b"))
  {
    var t := "a=b\nc";
    assert MatchesAt(t, 1) && !MatchesAt(t, 0);
    assert FirstMatch(t, 0) == Some(1);
    assert RunEnd(t, 3) == 3;
    assert RunEnd(t, 2) == 3;
    assert t[..1] == "a" && t[2..3] == "b";
  }

  /** `formatINR`: `null` displays as `"N/A"`; any number goes to the (uninterpreted) locale formatter. */
  function FormatInr<N>(amount: Option<N>, format: N -> string): (r: string)
    ensures amount.None? ==> r == "N/A"
    ensures amount.Some? ==> r == format(amount.value)
  {
    if amount.None? then "N/A" else format(amount.value)
  }

  /** `formatDate`: `null` displays as `"N/A"`; any date goes to the (uninterpreted) pattern formatter. */
  function FormatDate<D>(date: Option<D>, format: D -> string): (r: string)
    ensures date.None? ==> r == "N/A"
    ensures date.Some? ==> r == format(date.value)
  {
    match date
    case Some(d) => format(d)
    case None => "N/A"
  }
}
