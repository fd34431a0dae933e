/**
 * The JSON values that the GLPI REST API returns, as Python's `json` module
 * decodes them, together with the few Python built-ins the backend applies to
 * them: `dict.get`, `in`, assignment to a key, truthiness and `str()`.
 */
module Json {
  import opened Wrappers

  /**
   * A decoded JSON value. An object keeps its entries in insertion order, as
   * a Python dict does; a well-formed object has no key twice.
   */
  datatype Value =
    | Null
    | Bool(b: bool)
    | Int(i: int)
    | Str(s: string)
    | Array(items: seq<Value>)
    | Object(fields: Fields)

  /** The entries of a Python dict with string keys, in insertion order. */
  type Fields = seq<(string, Value)>

  /** The keys of a dict, in insertion order (`list(d.keys())`). */
  function Keys(d: Fields): (ks: seq<string>)
    ensures |ks| == |d|
    ensures forall i :: 0 <= i < |d| ==> ks[i] == d[i].0
  {
    if d == [] then [] else [d[0].0] + Keys(d[1..])
  }

  /** `k in d` */
  predicate HasKey(d: Fields, k: string) {
    k in Keys(d)
  }

  /** What a Python dict guarantees: no key occurs twice. */
  predicate WellFormed(d: Fields) {
    forall i, j :: 0 <= i < j < |d| ==> d[i].0 != d[j].0
  }

  /** The position of key `k` in `d`, if it is there. */
  function IndexOf(d: Fields, k: string): (r: Option<nat>)
    ensures r.None? <==> !HasKey(d, k)
    ensures r.Some? ==> r.value < |d| && d[r.value].0 == k
    ensures r.Some? ==> forall j :: 0 <= j < r.value ==> d[j].0 != k
  {
    if d == [] then None
    else if d[0].0 == k then Some(0)
    else match IndexOf(d[1..], k)
      case None => None
      case Some(j) => Some(j + 1)
  }

  /** `d.get(k)`: the value stored under `k`, or None when `k` is missing. */
  function Get(d: Fields, k: string): Value {
    match IndexOf(d, k)
    case None => Null
    case Some(i) => d[i].1
  }

  /**
   * `d[k] = v`: an existing key keeps its position and takes the new value;
   * a new key is appended.
   */
  function Put(d: Fields, k: string, v: Value): (r: Fields)
    ensures Keys(r) == if HasKey(d, k) then Keys(d) else Keys(d) + [k]
    ensures WellFormed(d) ==> WellFormed(r)
    ensures Get(r, k) == v
    ensures forall x :: x != k ==> Get(r, x) == Get(d, x)
  {
    match IndexOf(d, k)
    case None =>
      var r := d + [(k, v)];
      assert Keys(r) == Keys(d) + [k];
      PutNewGet(d, k, v);
      r
    case Some(i) =>
      var r := d[i := (k, v)];
      assert Keys(r) == Keys(d);
      PutOldGet(d, i, k, v);
      r
  }

  lemma PutNewGet(d: Fields, k: string, v: Value)
    requires !HasKey(d, k)
    ensures Get(d + [(k, v)], k) == v
    ensures forall x :: x != k ==> Get(d + [(k, v)], x) == Get(d, x)
  {
    var r := d + [(k, v)];
    forall x | x != k ensures Get(r, x) == Get(d, x) {
      IndexOfAppend(d, k, v, x);
    }
    IndexOfAppend(d, k, v, k);
  }

  lemma {:induction false} IndexOfAppend(d: Fields, k: string, v: Value, x: string)
    requires !HasKey(d, k)
    ensures IndexOf(d + [(k, v)], x) == if x == k then Some(|d|) else IndexOf(d, x)
  {
    if d != [] {
      assert (d + [(k, v)])[1..] == d[1..] + [(k, v)];
      assert Keys(d) == [d[0].0] + Keys(d[1..]);
      IndexOfAppend(d[1..], k, v, x);
    }
  }

  lemma PutOldGet(d: Fields, i: nat, k: string, v: Value)
    requires i < |d| && d[i].0 == k && IndexOf(d, k) == Some(i)
    ensures Get(d[i := (k, v)], k) == v
    ensures forall x :: x != k ==> Get(d[i := (k, v)], x) == Get(d, x)
  {
    var r := d[i := (k, v)];
    assert Keys(r) == Keys(d);
    forall x ensures IndexOf(r, x) == IndexOf(d, x) {
      IndexOfSameKeys(r, d, x);
    }
  }

  /** The position of a key depends only on the key order. */
  lemma {:induction false} IndexOfSameKeys(a: Fields, b: Fields, x: string)
    requires Keys(a) == Keys(b)
    ensures IndexOf(a, x) == IndexOf(b, x)
  {
    if a != [] {
      assert Keys(a[1..]) == Keys(a)[1..];
      assert Keys(b[1..]) == Keys(b)[1..];
      IndexOfSameKeys(a[1..], b[1..], x);
    }
  }

  /** Python truthiness: None, False, 0, "" and empty containers are false. */
  predicate Truthy(v: Value) {
    match v
    case Null => false
    case Bool(b) => b
    case Int(i) => i != 0
    case Str(s) => s != ""
    case Array(items) => items != []
    case Object(fields) => fields != []
  }

  /** The decimal digit `d` as a character. */
  function DigitChar(d: nat): (c: char)
    requires d < 10
    ensures '0' <= c <= '9' && c as int - '0' as int == d
  {
    (d + '0' as int) as char
  }

  /** `str(n)` for a natural number: its decimal digits, most significant first. */
  function NatToString(n: nat): (s: string)
    decreases n
  {
    if n < 10 then [DigitChar(n)] else NatToString(n / 10) + [DigitChar(n % 10)]
  }

  /** `str(i)` for a Python int. */
  function IntToString(i: int): (s: string) {
    if i < 0 then "-" + NatToString(-i) else NatToString(i)
  }

  /** Reads a string of decimal digits back as a number; the inverse of NatToString. */
  function DecimalValue(s: string): int {
    if s == [] then 0 else DecimalValue(s[..|s| - 1]) * 10 + (s[|s| - 1] as int - '0' as int)
  }

  /** Printing a number and reading it back gives the number: no digit is lost or invented. */
  lemma {:induction false} NatToStringRoundTrip(n: nat)
    ensures |NatToString(n)| > 0
    ensures forall k :: 0 <= k < |NatToString(n)| ==> '0' <= NatToString(n)[k] <= '9'
    ensures DecimalValue(NatToString(n)) == n
    decreases n
  {
    if n >= 10 {
      NatToStringRoundTrip(n / 10);
      var s := NatToString(n);
      assert s[..|s| - 1] == NatToString(n / 10);
    }
  }

  /** `repr(v)`, as Python prints a value nested inside a container. */
  function Repr(v: Value): string
    decreases v, 1
  {
    match v
    case Null => "None"
    case Bool(b) => if b then "True" else "False"
    case Int(i) => IntToString(i)
    case Str(s) => "'" + s + "'"
    case Array(items) => "[" + ReprItems(items) + "]"
    case Object(fields) => "{" + ReprFields(fields) + "}"
  }

  /** The elements of a list, separated by ", ". */
  function ReprItems(items: seq<Value>): string
    decreases items, 0
  {
    if items == [] then ""
    else if |items| == 1 then Repr(items[0])
    else Repr(items[0]) + ", " + ReprItems(items[1..])
  }

  /** The entries of a dict as `'key': value`, separated by ", ". */
  function ReprFields(fields: Fields): string
    decreases fields, 0
  {
    if fields == [] then ""
    else
      assert fields[0] in fields && fields[0].1 < fields[0];
      var entry := "'" + fields[0].0 + "': " + Repr(fields[0].1);
      if |fields| == 1 then entry else entry + ", " + ReprFields(fields[1..])
  }

  /** `str(v)`: a string is itself, every other value prints as its repr. */
  function ToStr(v: Value): string {
    match v
    case Str(s) => s
    case _ => Repr(v)
  }

  /** `str()` of a truthy value is never the empty string. */
  lemma TruthyToStrNonEmpty(v: Value)
    requires Truthy(v)
    ensures ToStr(v) != ""
  {
    if v.Int? {
      if v.i < 0 { } else { NatToStringRoundTrip(v.i); }
    }
  }

  /** Only the empty string prints as the empty string. */
  lemma ToStrEmpty(v: Value)
    ensures ToStr(v) == "" <==> v == Str("")
  {
    if v.Int? && v.i >= 0 { NatToStringRoundTrip(v.i); }
  }
}
