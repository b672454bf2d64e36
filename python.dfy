/** Python values the core works with: the decoded JSON values returned by
    `json.loads`, Python's truthiness rule on them, dictionary subscripting,
    and the exceptions that the core either catches or lets escape. */
module Python {

  datatype Option<+T> = None | Some(value: T)

  /** The exceptions that can surface in the modelled code. */
  datatype PyError =
    | URLError               // transport failure inside urlopen (not an HTTP status)
    | HTTPError(code: int)   // an HTTP error status raised by urlopen
    | JSONDecodeError        // json.loads on a body that is not JSON
    | KeyError(key: string)  // d[key] on a dict without key
    | TypeError              // an unsupported comparison or subscript
    | AttributeError         // .get on a value that is not a dict
    | ValueError             // urlsplit on a malformed network location

  /** What a Python call does: return a value or raise. */
  datatype Outcome<+T> = Returned(value: T) | Raised(error: PyError)

  /** A value produced by `json.loads`. Integers and floats are both numbers;
      an object is a dict keyed by strings (a repeated key keeps the last value). */
  datatype Json =
    | JNull
    | JBool(b: bool)
    | JNum(n: real)
    | JString(s: string)
    | JArray(items: seq<Json>)
    | JObject(fields: map<string, Json>)

  /** Python's `bool(v)`: None, False, zero, and empty str/list/dict are falsy. */
  predicate Truthy(v: Json)
  {
    match v
    case JNull => false
    case JBool(b) => b
    case JNum(n) => n != 0.0
    case JString(s) => s != ""
    case JArray(items) => items != []
    case JObject(fields) => fields != map[]
  }

  /** `v.get(key)` on a value already known to be a dict; an absent key gives None. */
  function Get(v: Json, key: string): (r: Json)
    requires v.JObject?
    ensures key !in v.fields ==> r == JNull
    ensures key in v.fields ==> r == v.fields[key]
  {
    if key in v.fields then v.fields[key] else JNull
  }

  /** `v[key]` inside a `try` that catches KeyError and TypeError: None stands
      for either exception (a missing key, or a value that is not a dict). */
  function Subscript(v: Json, key: string): (r: Option<Json>)
    ensures r.Some? <==> v.JObject? && key in v.fields
    ensures r.Some? ==> r.value == v.fields[key]
  {
    if v.JObject? && key in v.fields then Some(v.fields[key]) else None
  }

  /** Truthiness of a `str | None` value. */
  predicate TruthyText(t: Option<string>)
  {
    t.Some? && t.value != ""
  }

  // ---------------------------------------------------------------------------
  // str methods

  /** The index of the first occurrence of c in s (`s.index(c)`). */
  function IndexOf(s: string, c: char): (i: nat)
    requires c in s
    ensures i < |s| && s[i] == c && c !in s[..i]
  {
    if s[0] == c then 0 else IndexOf(s[1..], c) + 1
  }

  /** `s.split(sep)`: the pieces between occurrences of sep; never empty. */
  function Split(s: string, sep: char): (parts: seq<string>)
    ensures |parts| >= 1
    ensures forall k :: 0 <= k < |parts| ==> sep !in parts[k]
    decreases |s|
  {
    if sep in s then
      var i := IndexOf(s, sep);
      [s[..i]] + Split(s[i + 1..], sep)
    else
      [s]
  }

  /** `sep.join(parts)`. */
  function Join(parts: seq<string>, sep: string): string
  {
    if |parts| == 0 then ""
    else if |parts| == 1 then parts[0]
    else parts[0] + sep + Join(parts[1..], sep)
  }

  lemma {:induction false} IndexOfAt(a: string, c: char, b: string)
    requires c !in a
    ensures c in a + [c] + b
    ensures IndexOf(a + [c] + b, c) == |a|
    ensures (a + [c] + b)[..|a|] == a && (a + [c] + b)[|a| + 1..] == b
  {
    var s := a + [c] + b;
    assert s[|a|] == c;
    assert s[..|a|] == a;
    assert c in s[..|a| + 1];
  }

  /** Splitting what Join produced gives the parts back, provided no part
      contains the separator. */
  lemma {:induction false} SplitJoin(parts: seq<string>, sep: char)
    requires |parts| >= 1
    requires forall k :: 0 <= k < |parts| ==> sep !in parts[k]
    ensures Split(Join(parts, [sep]), sep) == parts
  {
    if |parts| == 1 {
    } else {
      var rest := Join(parts[1..], [sep]);
      assert Join(parts, [sep]) == parts[0] + [sep] + rest;
      IndexOfAt(parts[0], sep, rest);
      SplitJoin(parts[1..], sep);
    }
  }

  /** Text before the first separator joins the first piece. */
  lemma SplitPrefix(u: string, x: string, c: char)
    requires c !in u
    ensures Split(u + x, c) == [u + Split(x, c)[0]] + Split(x, c)[1..]
  {
    if c in x {
      var i := IndexOf(x, c);
      assert x == x[..i] + [c] + x[i + 1..];
      assert u + x == (u + x[..i]) + [c] + x[i + 1..];
      IndexOfAt(u + x[..i], c, x[i + 1..]);
      IndexOfAt(x[..i], c, x[i + 1..]);
    } else {
      assert c !in u + x;
    }
  }

  /** Splitting at a separator splits the text on either side of it. */
  lemma {:induction false} SplitAt(a: string, b: string, c: char)
    ensures Split(a + [c] + b, c) == Split(a, c) + Split(b, c)
    decreases |a|
  {
    if c in a {
      var i := IndexOf(a, c);
      var a1, a2 := a[..i], a[i + 1..];
      assert a == a1 + [c] + a2;
      assert a + [c] + b == a1 + [c] + (a2 + [c] + b);
      SplitFirst(a1, c, a2 + [c] + b);
      SplitFirst(a1, c, a2);
      SplitAt(a2, b, c);
    } else {
      SplitFirst(a, c, b);
    }
  }

  /** The first piece ends at the first separator. */
  lemma SplitFirst(a: string, c: char, rest: string)
    requires c !in a
    ensures Split(a + [c] + rest, c) == [a] + Split(rest, c)
  {
    IndexOfAt(a, c, rest);
  }

  lemma {:induction false} JoinHasNo(parts: seq<string>, sep: string, c: char)
    requires c !in sep
    requires forall k :: 0 <= k < |parts| ==> c !in parts[k]
    ensures c !in Join(parts, sep)
  {
    if |parts| > 1 {
      JoinHasNo(parts[1..], sep, c);
    }
  }

}
