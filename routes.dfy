/** String and route-table helpers used by the navigation trail: JavaScript's
    `indexOf` and single-occurrence `replace`, the reverse lookup of a route's
    URL pattern (`_getRouteUrl`) and the substitution of bound arguments into
    that pattern (`_getMappedUrl`). */
module Routes {

  datatype Option<T> = None | Some(value: T)

  /** Ordered (name, value) pairs of a JavaScript object, in enumeration order.
      For `mappedArgs` the names are placeholders such as ":id". */
  type Args = seq<(string, string)>

  /** A router's `routes` object: (URL pattern, route name) pairs, in
      enumeration order. */
  type RouteTable = seq<(string, string)>

  /** The marker of a modal / sub-flow URL. */
  const SubFlowMarker: string := "#!"

  predicate OccursAt(s: string, pat: string, i: nat)
  {
    i + |pat| <= |s| && s[i..i + |pat|] == pat
  }

  /** `s.indexOf(pat, from)`: the first position at or after `from` where `pat` occurs. */
  function IndexOfFrom(s: string, pat: string, from: nat): (r: Option<nat>)
    decreases |s| - from
    ensures r.Some? ==> from <= r.value && OccursAt(s, pat, r.value)
    ensures r.Some? ==> forall j: nat :: from <= j < r.value ==> !OccursAt(s, pat, j)
    ensures r.None? ==> forall j: nat :: from <= j ==> !OccursAt(s, pat, j)
  {
    if from + |pat| > |s| then None
    else if s[from..from + |pat|] == pat then Some(from)
    else IndexOfFrom(s, pat, from + 1)
  }

  /** `s.indexOf(pat)`, with `None` for JavaScript's -1. */
  function IndexOf(s: string, pat: string): (r: Option<nat>)
    ensures r.Some? ==> OccursAt(s, pat, r.value) && forall j: nat :: j < r.value ==> !OccursAt(s, pat, j)
    ensures r.None? <==> forall j: nat :: !OccursAt(s, pat, j)
  {
    IndexOfFrom(s, pat, 0)
  }

  /** `s.indexOf(pat) !== -1` */
  predicate Contains(s: string, pat: string)
  {
    IndexOf(s, pat).Some?
  }

  /** `s.replace(pat, rep)` with a string pattern: only the first occurrence is
      replaced; a string without `pat` comes back unchanged. */
  function ReplaceFirst(s: string, pat: string, rep: string): (r: string)
    ensures !Contains(s, pat) ==> r == s
    ensures Contains(s, pat) ==>
      var i := IndexOf(s, pat).value;
      |r| == |s| - |pat| + |rep| && r[..i] == s[..i] && r[i..i + |rep|] == rep
      && r[i + |rep|..] == s[i + |pat|..]
      && forall j: nat :: j < i ==> !OccursAt(s, pat, j)
  {
    match IndexOf(s, pat)
    case None => s
    case Some(i) => s[..i] + rep + s[i + |pat|..]
  }

  /** `args[key]`: the value bound to `key`, if any. */
  function Lookup(args: Args, key: string): (r: Option<string>)
    ensures r.None? <==> forall k :: 0 <= k < |args| ==> args[k].0 != key
    ensures r.Some? ==> exists k :: 0 <= k < |args| && args[k] == (key, r.value)
                                    && forall j :: 0 <= j < k ==> args[j].0 != key
  {
    if args == [] then None
    else if args[0].0 == key then Some(args[0].1)
    else
      var r := Lookup(args[1..], key);
      if r.Some? then
        ghost var k :| 0 <= k < |args[1..]| && args[1..][k] == (key, r.value)
                       && forall j :: 0 <= j < k ==> args[1..][j].0 != key;
        assert args[k + 1] == (key, r.value);
        r
      else r
  }

  /** `_getMappedUrl`: each placeholder, in turn, has its first occurrence in
      the URL replaced by its value. */
  function MappedUrl(url: string, args: Args): string
    decreases args
  {
    if args == [] then url
    else MappedUrl(ReplaceFirst(url, args[0].0, args[0].1), args[1..])
  }

  /** `_getRouteUrl`: the first URL pattern whose route name is `name`;
      `None` stands for the `undefined` the source returns when there is none. */
  function RouteUrl(routes: RouteTable, name: string): (r: Option<string>)
    ensures r.None? <==> forall k :: 0 <= k < |routes| ==> routes[k].1 != name
    ensures r.Some? ==> exists k :: 0 <= k < |routes| && routes[k] == (r.value, name)
                                    && forall j :: 0 <= j < k ==> routes[j].1 != name
  {
    if routes == [] then None
    else if routes[0].1 == name then Some(routes[0].0)
    else
      var r := RouteUrl(routes[1..], name);
      if r.Some? then
        ghost var k :| 0 <= k < |routes[1..]| && routes[1..][k] == (r.value, name)
                       && forall j :: 0 <= j < k ==> routes[1..][j].1 != name;
        assert routes[k + 1] == (r.value, name);
        r
      else r
  }

  /** Substitution proceeds placeholder by placeholder: mapping with `a + b`
      is mapping with `a`, then with `b`. */
  lemma {:induction false} MappedUrlInTurn(url: string, a: Args, b: Args)
    ensures MappedUrl(url, a + b) == MappedUrl(MappedUrl(url, a), b)
    decreases a
  {
    if a != [] {
      var url' := ReplaceFirst(url, a[0].0, a[0].1);
      assert (a + b)[0] == a[0] && (a + b)[1..] == a[1..] + b;
      assert MappedUrl(url, a + b) == MappedUrl(url', a[1..] + b);
      MappedUrlInTurn(url', a[1..], b);
    } else {
      assert a + b == b;
    }
  }

  /** A URL in which no placeholder occurs is returned unchanged. */
  lemma {:induction false} MappedUrlWithoutPlaceholders(url: string, args: Args)
    requires forall k :: 0 <= k < |args| ==> !Contains(url, args[k].0)
    ensures MappedUrl(url, args) == url
    decreases args
  {
    if args != [] {
      assert !Contains(url, args[0].0);
      MappedUrlWithoutPlaceholders(url, args[1..]);
    }
  }

  /** A pattern with one placeholder: its first occurrence is replaced by the
      bound value and the text around it is kept. */
  lemma SinglePlaceholder(prefix: string, name: string, suffix: string, value: string)
    requires |name| > 0 && !Contains(prefix + name[..|name| - 1], name)
    ensures MappedUrl(prefix + name + suffix, [(name, value)]) == prefix + value + suffix
  {
    var s := prefix + name + suffix;
    assert OccursAt(s, name, |prefix|) by {
      assert s[|prefix|..|prefix| + |name|] == name;
    }
    var i := IndexOf(s, name).value;
    if i < |prefix| {
      var t := prefix + name[..|name| - 1];
      assert i + |name| <= |t|;
      assert t[i..i + |name|] == s[i..i + |name|];
      assert OccursAt(t, name, i);
      assert false;
    }
    assert i == |prefix|;
    var r := ReplaceFirst(s, name, value);
    assert r == s[..i] + value + s[i + |name|..];
    assert s[..i] == prefix && s[i + |name|..] == suffix;
  }
}
