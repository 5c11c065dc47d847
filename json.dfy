/** JSON-like values as the scripts see them after decoding: `None`, booleans, numbers, strings,
    lists and dicts with string keys, with the Python operations the validators apply to them. */
module Json {
  import opened Wrappers

  /** Numbers are integers here; see README for what that leaves out. */
  datatype Json =
    | JNull
    | JBool(b: bool)
    | JNum(n: int)
    | JStr(s: string)
    | JArr(items: seq<Json>)
    | JObj(fields: map<string, Json>)

  /** Python truthiness: `None`, `False`, `0` and empty strings, lists and dicts are falsy. */
  predicate Truthy(v: Json)
  {
    match v
    case JNull => false
    case JBool(b) => b
    case JNum(n) => n != 0
    case JStr(s) => s != ""
    case JArr(xs) => xs != []
    case JObj(m) => m != map[]
  }

  /** `d.get(key, default)`. */
  function Get(d: map<string, Json>, key: string, default: Json): Json
  {
    if key in d then d[key] else default
  }

  predicate IsSubstring(k: string, s: string)
  {
    exists i :: 0 <= i <= |s| && k <= s[i..]
  }

  /** `key in v`: a substring test on a string, an element test on a list, a key test on a dict;
      `None` where Python raises `TypeError` (numbers, booleans, `None`). */
  function PyIn(key: string, v: Json): Option<bool>
  {
    match v
    case JStr(s) => Some(IsSubstring(key, s))
    case JArr(xs) => Some(JStr(key) in xs)
    case JObj(m) => Some(key in m)
    case _ => None
  }

  /** For a one-character key the substring test is a character test. */
  lemma IsSubstringOfChar(c: char, s: string)
    ensures IsSubstring([c], s) <==> c in s
  {
    if c in s {
      var i :| 0 <= i < |s| && s[i] == c;
      assert [c] <= s[i..];
    }
    if IsSubstring([c], s) {
      var i :| 0 <= i <= |s| && [c] <= s[i..];
      assert s[i..][0] == c;
    }
  }
}
