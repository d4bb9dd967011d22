/**
 * The values json.loads produces, as app.py uses them: a parsed JSON object
 * becomes a Python dict (insertion-ordered, a repeated key keeping its first
 * position and its last value), and str() renders any value as text.
 */
module Json {
  import opened Strings
  import opened Wrappers

  /** A parsed JSON value. An object carries its members in text order; a
      number with a fraction or exponent carries Python's repr of the float. */
  datatype Json =
    | JNull
    | JBool(b: bool)
    | JInt(i: int)
    | JFloat(repr: string)
    | JStr(s: string)
    | JArr(items: seq<Json>)
    | JObj(members: seq<(string, Json)>)

  /** A Python dict from strings: its entries in insertion order. */
  type Dict = seq<(string, Json)>

  predicate HasKey(d: Dict, k: string) {
    exists i :: 0 <= i < |d| && d[i].0 == k
  }

  /** No key occurs twice, as in every Python dict. */
  predicate DistinctKeys(d: Dict) {
    forall i, j :: 0 <= i < j < |d| ==> d[i].0 != d[j].0
  }

  /** The position of key `k`, or |d| when it is absent. */
  function IndexOf(d: Dict, k: string): (i: nat)
    ensures i <= |d|
    ensures i < |d| ==> d[i].0 == k
    ensures forall j :: 0 <= j < i ==> d[j].0 != k
  {
    if d == [] then 0
    else if d[0].0 == k then 0
    else 1 + IndexOf(d[1..], k)
  }

  /** d.get(k): the value stored under `k`. */
  function Lookup(d: Dict, k: string): (r: Option<Json>)
    ensures r.Some? <==> HasKey(d, k)
  {
    var i := IndexOf(d, k);
    if i < |d| then Some(d[i].1) else None
  }

  /** d[k] = v: a present key keeps its position and takes the new value; a
      new key is added at the end. */
  function Assign(d: Dict, k: string, v: Json): (r: Dict)
    ensures |r| == if HasKey(d, k) then |d| else |d| + 1
    ensures forall i :: 0 <= i < |d| ==> r[i].0 == d[i].0
    ensures |r| > |d| ==> r[|d|] == (k, v)
  {
    var i := IndexOf(d, k);
    if i < |d| then d[i := (k, v)] else d + [(k, v)]
  }

  /** After d[k] = v, d[k] is v and every other key is as it was. */
  lemma AssignLookup(d: Dict, k: string, v: Json, q: string)
    requires DistinctKeys(d)
    ensures DistinctKeys(Assign(d, k, v))
    ensures Lookup(Assign(d, k, v), q) == if q == k then Some(v) else Lookup(d, q)
  {
    var r := Assign(d, k, v);
    var i := IndexOf(d, k);
    if i < |d| {
      assert forall j :: 0 <= j < |d| ==> r[j].0 == d[j].0;
      assert r[i] == (k, v);
    } else {
      assert forall j :: 0 <= j < |d| ==> r[j] == d[j];
      assert r[|d|] == (k, v);
    }
    assert DistinctKeys(r);
    LookupDistinct(r, q);
    LookupDistinct(d, q);
    if q != k && HasKey(r, q) {
      var j :| 0 <= j < |r| && r[j].0 == q;
      assert r[j] == d[j];
    }
  }

  /** With distinct keys, the value under `q` is the one at any position holding `q`. */
  lemma LookupDistinct(d: Dict, q: string)
    requires DistinctKeys(d)
    ensures forall j :: 0 <= j < |d| && d[j].0 == q ==> Lookup(d, q) == Some(d[j].1)
  {
  }

  /** The dict json.loads builds from an object's members: each member is
      assigned in text order. */
  function ToDict(members: seq<(string, Json)>): (d: Dict)
    ensures DistinctKeys(d)
  {
    if members == [] then []
    else
      var n := |members| - 1;
      var prev := ToDict(members[..n]);
      AssignLookup(prev, members[n].0, members[n].1, members[n].0);
      Assign(prev, members[n].0, members[n].1)
  }

  /** The value of the last member named `k`: the one a repeated key keeps. */
  function LastValue(members: seq<(string, Json)>, k: string): Option<Json> {
    if members == [] then None
    else if members[|members| - 1].0 == k then Some(members[|members| - 1].1)
    else LastValue(members[..|members| - 1], k)
  }

  /** A key of the dict is a member name, and its value is the last member's. */
  lemma {:induction false} ToDictLookup(members: seq<(string, Json)>, k: string)
    ensures Lookup(ToDict(members), k) == LastValue(members, k)
  {
    if members != [] {
      var n := |members| - 1;
      ToDictLookup(members[..n], k);
      AssignLookup(ToDict(members[..n]), members[n].0, members[n].1, k);
    }
  }

  /** The decimal digits of a natural number. */
  function Digits(n: nat): (r: string)
    ensures r != [] && forall i :: 0 <= i < |r| ==> '0' <= r[i] <= '9'
  {
    var d := ['0' + (n % 10) as char];
    if n < 10 then d else Digits(n / 10) + d
  }

  /** The value of a digit string. */
  function DigitsValue(s: string): int {
    if s == [] then 0 else 10 * DigitsValue(s[..|s| - 1]) + (s[|s| - 1] as int - '0' as int)
  }

  lemma {:induction false} DigitsRoundTrip(n: nat)
    ensures DigitsValue(Digits(n)) == n
  {
    var d := ['0' + (n % 10) as char];
    if n >= 10 {
      DigitsRoundTrip(n / 10);
      var r := Digits(n / 10) + d;
      assert r[..|r| - 1] == Digits(n / 10);
    }
  }

  /** str(x) for a Python int. */
  function IntToString(i: int): string {
    if i < 0 then "-" + Digits(-i) else Digits(i)
  }

  /** repr(s) for a string, without Python's escaping of quotes and control characters. */
  function ReprStr(s: string): string {
    "'" + s + "'"
  }

  /** str(x) for a parsed value: strings as they are, scalars as Python
      prints them, lists and dicts through repr. */
  function PyStr(j: Json): (r: string)
    ensures j.JStr? ==> r == j.s
    ensures r == Repr(j) <==> !j.JStr?
  {
    match j
    case JStr(s) => s
    case _ => Repr(j)
  }

  /** repr(x) for a parsed value. */
  function Repr(j: Json): (r: string)
    ensures j.JArr? ==> |r| >= 2 && r[0] == '[' && r[|r| - 1] == ']'
    ensures j.JObj? ==> |r| >= 2 && r[0] == '{' && r[|r| - 1] == '}'
    ensures j.JStr? ==> |r| >= 2 && r[0] == '\'' && r[|r| - 1] == '\'' && r[1..|r| - 1] == j.s
    ensures j.JInt? && j.i < 0 ==> r != [] && r[0] == '-' && DigitsValue(r[1..]) == -j.i
    ensures j.JInt? && j.i >= 0 ==> DigitsValue(r) == j.i
    decreases j, 1
  {
    match j
    case JNull => "None"
    case JBool(b) => if b then "True" else "False"
    case JInt(i) =>
      DigitsRoundTrip(if i < 0 then -i else i);
      assert i < 0 ==> IntToString(i)[1..] == Digits(-i);
      IntToString(i)
    case JFloat(r) => r
    case JStr(s) => ReprStr(s)
    case JArr(items) => "[" + Join(", ", ReprItems(j, 0)) + "]"
    case JObj(members) => "{" + Join(", ", ReprMembers(j, 0)) + "}"
  }

  /** [repr(x) for x in items[from:]] for a list value `j`. */
  function ReprItems(j: Json, from: nat): seq<string>
    requires j.JArr?
    decreases j, 0, |j.items| - from
  {
    if from >= |j.items| then []
    else [Repr(j.items[from])] + ReprItems(j, from + 1)
  }

  /** The entries, from member `from` on, of the dict built from object `j`:
      a key is shown where it first occurs, with the value it last has. */
  function ReprMembers(j: Json, from: nat): seq<string>
    requires j.JObj?
    decreases j, 0, |j.members| - from
  {
    if from >= |j.members| then []
    else
      var k := j.members[from].0;
      var rest := ReprMembers(j, from + 1);
      if exists i :: 0 <= i < from && j.members[i].0 == k then rest
      else [ReprStr(k) + ": " + Repr(j.members[LastIndex(j.members, k)].1)] + rest
  }

  /** The position of the last member named `k`. */
  function LastIndex(members: seq<(string, Json)>, k: string): (l: nat)
    requires exists i :: 0 <= i < |members| && members[i].0 == k
    ensures l < |members| && members[l].0 == k
    ensures LastValue(members, k) == Some(members[l].1)
  {
    var n := |members| - 1;
    if members[n].0 == k then n
    else
      assert exists i :: 0 <= i < n && members[..n][i].0 == k by {
        var i :| 0 <= i < |members| && members[i].0 == k;
        assert members[..n][i] == members[i];
      }
      LastIndex(members[..n], k)
  }

  /**
   * `x = json.loads(s)` as app.py uses it: a parse failure is swallowed by a
   * bare `except`, and both it and a JSON `null` leave `x` as None.
   */
  function Loads(parse: string -> Option<Json>, s: string): (r: Option<Json>)
    ensures r.None? <==> parse(s).None? || parse(s) == Some(JNull)
    ensures r.Some? ==> r == parse(s) && r.value != JNull
  {
    match parse(s)
    case Some(JNull) => None
    case other => other
  }

  /** json.loads of a text that may be missing (no match): nothing when it is. */
  function LoadsSome(parse: string -> Option<Json>, t: Option<string>): (r: Option<Json>)
    ensures r.Some? ==> t.Some? && r == Loads(parse, t.value)
  {
    if t.Some? then Loads(parse, t.value) else None
  }
}
