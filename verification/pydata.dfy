/** Python values as the ingester sees them: the dictionaries produced by
    protobuf's MessageToDict, the tables produced by tomllib, and the
    exceptions the core can raise. */
module PyData {
  import opened Wrappers

  /** A JSON-like Python value. Objects keep their fields in insertion
      order, as Python dictionaries do; a well-formed object has no key
      twice (see WellFormed). Floats are modelled as reals without NaN. */
  datatype Value =
    | JNull
    | JBool(b: bool)
    | JInt(i: int)
    | JNum(r: real)
    | JStr(s: string)
    | JArr(items: seq<Value>)
    | JObj(fields: seq<Field>)

  /** One key/value entry of a dictionary. */
  datatype Field = Field(key: string, value: Value)

  /** The exceptions the modelled code raises or catches. */
  datatype Exception =
    | KeyError(key: string)
    | TypeError
    | ValueError
    | OverflowError
    | OSError
    | NameError(name: string)
    | DecodeError
    | ConnectionError
    | TransportError
    | RequestError
    | OtherError
    | ConfigError(message: string)
    | TomlDecodeError(path: string)

  /** Python truthiness: None, False, zero, and empty strings, lists and
      dictionaries are falsy; everything else is truthy. */
  predicate Truthy(v: Value) {
    match v
    case JNull => false
    case JBool(b) => b
    case JInt(i) => i != 0
    case JNum(r) => r != 0.0
    case JStr(s) => |s| > 0
    case JArr(items) => |items| > 0
    case JObj(fields) => |fields| > 0
  }

  /** The keys of a dictionary, in insertion order. */
  function Keys(fs: seq<Field>): (ks: seq<string>)
    ensures |ks| == |fs|
    ensures forall i :: 0 <= i < |fs| ==> ks[i] == fs[i].key
  {
    if |fs| == 0 then [] else [fs[0].key] + Keys(fs[1..])
  }

  /** No key occurs twice: every Python dictionary satisfies this. */
  predicate DistinctKeys(fs: seq<Field>) {
    forall i, j :: 0 <= i < j < |fs| ==> fs[i].key != fs[j].key
  }

  /** Every dictionary nested anywhere in the value has distinct keys. */
  predicate WellFormed(v: Value) {
    match v
    case JArr(items) => forall i :: 0 <= i < |items| ==> WellFormed(items[i])
    case JObj(fs) => DistinctKeys(fs) && forall i :: 0 <= i < |fs| ==> WellFormed(fs[i].value)
    case _ => true
  }

  /** `d.get(k)`: the value stored under key `k`, if any. */
  function Get(fs: seq<Field>, k: string): (r: Option<Value>)
    ensures r.Some? <==> k in Keys(fs)
  {
    if |fs| == 0 then None
    else if fs[0].key == k then Some(fs[0].value)
    else Get(fs[1..], k)
  }

  /** `d[k] = v`: an existing key keeps its position and takes the new
      value; a new key is appended at the end. */
  function SetKey(fs: seq<Field>, k: string, v: Value): (r: seq<Field>)
    ensures forall k' :: Get(r, k') == if k' == k then Some(v) else Get(fs, k')
    ensures Keys(r) == if k in Keys(fs) then Keys(fs) else Keys(fs) + [k]
  {
    if |fs| == 0 then [Field(k, v)]
    else if fs[0].key == k then
      var r := [Field(k, v)] + fs[1..];
      assert r[1..] == fs[1..];
      assert Keys(r) == Keys(fs);
      r
    else
      var rest := SetKey(fs[1..], k, v);
      var r := [fs[0]] + rest;
      assert r[0] == fs[0] && r[1..] == rest;
      assert Keys(r) == [fs[0].key] + Keys(rest);
      assert Keys(fs) == [fs[0].key] + Keys(fs[1..]);
      assert k in Keys(fs) <==> k in Keys(fs[1..]);
      r
  }

  /** The values after `d[k] = v`, for every key at once. */
  lemma GetAfterSetKey(fs: seq<Field>, k: string, v: Value)
    ensures var r := SetKey(fs, k, v);
      Get(r, k) == Some(v) && forall k' :: k' != k ==> Get(r, k') == Get(fs, k')
  {
  }

  /** Assigning a key keeps the existing keys, in order, at the front. */
  lemma KeysPrefixOfSetKey(fs: seq<Field>, k: string, v: Value)
    ensures Keys(fs) <= Keys(SetKey(fs, k, v))
  {
  }

  /** Assigning a key keeps a dictionary free of duplicate keys. */
  lemma SetKeyDistinct(fs: seq<Field>, k: string, v: Value)
    requires DistinctKeys(fs)
    ensures DistinctKeys(SetKey(fs, k, v))
  {
    var r := SetKey(fs, k, v);
    var ks := Keys(r);
    forall i, j | 0 <= i < j < |r|
      ensures r[i].key != r[j].key
    {
      assert ks[i] == r[i].key && ks[j] == r[j].key;
      if k in Keys(fs) {
        assert Keys(fs)[i] == fs[i].key && Keys(fs)[j] == fs[j].key;
      } else {
        assert j < |fs| ==> Keys(fs)[i] == fs[i].key && Keys(fs)[j] == fs[j].key;
        assert j == |fs| ==> ks[i] in Keys(fs);
      }
    }
  }

  /** `v[k]` on a value: a dictionary lookup that raises KeyError for a
      missing key and TypeError on anything that is not a dictionary. */
  function Subscript(v: Value, k: string): (r: Result<Value, Exception>)
    ensures r.Success? <==> v.JObj? && k in Keys(v.fields)
    ensures r.Success? ==> Get(v.fields, k) == Some(r.value)
    ensures r.Failure? && v.JObj? ==> r.error == KeyError(k)
  {
    if !v.JObj? then Failure(TypeError)
    else match Get(v.fields, k)
      case Some(x) => Success(x)
      case None => Failure(KeyError(k))
  }

  /** Python's `k in v`: a key of a dictionary, a piece of a string, an
      element of a list; for any other value `in` raises TypeError. */
  function Contains(v: Value, k: string): (r: Result<bool, Exception>)
    ensures r.Success? <==> v.JObj? || v.JStr? || v.JArr?
    ensures r.Failure? ==> r.error == TypeError
    ensures v.JObj? ==> r == Success(k in Keys(v.fields))
    ensures v.JStr? ==> r == Success(IsSubstring(k, v.s))
    ensures v.JArr? ==> r == Success(JStr(k) in v.items)
  {
    match v
    case JObj(fs) => Success(k in Keys(fs))
    case JStr(s) => Success(Occurs(k, s))
    case JArr(items) => Success(JStr(k) in items)
    case _ => Failure(TypeError)
  }

  /** `k` occurs in `s` starting at position `i`. */
  predicate OccursAt(k: string, s: string, i: int) {
    0 <= i && i + |k| <= |s| && s[i..i + |k|] == k
  }

  /** `k` occurs in `s` as a contiguous piece. */
  ghost predicate IsSubstring(k: string, s: string) {
    exists i :: OccursAt(k, s, i)
  }

  /** The search `k in s` performs on strings: try each starting position
      from the left. */
  function Occurs(k: string, s: string): (r: bool)
    ensures r <==> IsSubstring(k, s)
    decreases |s|
  {
    if |s| < |k| then false
    else if s[..|k|] == k then
      assert OccursAt(k, s, 0);
      true
    else
      SubstringOfTail(k, s);
      Occurs(k, s[1..])
  }

  /** When `k` does not start `s`, it occurs in `s` exactly when it occurs
      after the first character. */
  lemma SubstringOfTail(k: string, s: string)
    requires |s| >= |k| && s[..|k|] != k
    ensures IsSubstring(k, s) <==> IsSubstring(k, s[1..])
  {
    if IsSubstring(k, s) {
      var i :| OccursAt(k, s, i);
      assert s[0..0 + |k|] == s[..|k|];
      assert s[1..][i - 1..i - 1 + |k|] == s[i..i + |k|];
      assert OccursAt(k, s[1..], i - 1);
    }
    if IsSubstring(k, s[1..]) {
      var i :| OccursAt(k, s[1..], i);
      assert s[i + 1..i + 1 + |k|] == s[1..][i..i + |k|];
      assert OccursAt(k, s, i + 1);
    }
  }

  /** The value under key `k` when `v` is a dictionary holding it. */
  function At(v: Value, k: string): (r: Option<Value>)
    ensures r.Some? <==> Subscript(v, k).Success?
    ensures r.Some? ==> r.value == Subscript(v, k).value
  {
    if v.JObj? then Get(v.fields, k) else None
  }

  /** One more step of a nested lookup: `v[k]` for an optional `v`. */
  function Then(o: Option<Value>, k: string): Option<Value> {
    if o.Some? then At(o.value, k) else None
  }


  /** The dictionary without the entries whose key is in `ks`, in order. */
  function WithoutKeys(fs: seq<Field>, ks: set<string>): (r: seq<Field>)
    ensures forall f :: f in r <==> f in fs && f.key !in ks
  {
    if |fs| == 0 then []
    else if fs[0].key in ks then WithoutKeys(fs[1..], ks)
    else [fs[0]] + WithoutKeys(fs[1..], ks)
  }

  lemma {:induction false} WithoutKeysAppend(a: seq<Field>, b: seq<Field>, ks: set<string>)
    ensures WithoutKeys(a + b, ks) == WithoutKeys(a, ks) + WithoutKeys(b, ks)
  {
    if |a| > 0 {
      assert (a + b)[1..] == a[1..] + b;
      WithoutKeysAppend(a[1..], b, ks);
    } else {
      assert a + b == b;
    }
  }

  lemma {:induction false} WithoutAbsentKeys(fs: seq<Field>, ks: set<string>)
    requires forall k :: k in ks ==> k !in Keys(fs)
    ensures WithoutKeys(fs, ks) == fs
  {
    if |fs| > 0 {
      assert Keys(fs) == [fs[0].key] + Keys(fs[1..]);
      WithoutAbsentKeys(fs[1..], ks);
      assert fs == [fs[0]] + fs[1..];
    }
  }

  lemma {:induction false} WithoutEveryKey(fs: seq<Field>, ks: set<string>)
    requires forall i :: 0 <= i < |fs| ==> fs[i].key in ks
    ensures WithoutKeys(fs, ks) == []
  {
    if |fs| > 0 {
      WithoutEveryKey(fs[1..], ks);
    }
  }

  /** Assigning a key that is not yet present appends one entry. */
  lemma {:induction false} SetNewKey(fs: seq<Field>, k: string, v: Value)
    requires k !in Keys(fs)
    ensures SetKey(fs, k, v) == fs + [Field(k, v)]
  {
    if |fs| > 0 {
      assert Keys(fs) == [fs[0].key] + Keys(fs[1..]);
      SetNewKey(fs[1..], k, v);
      ConcatAssociative([fs[0]], fs[1..], [Field(k, v)]);
      assert [fs[0]] + fs[1..] == fs;
    }
  }

  lemma ConcatAssociative<T>(a: seq<T>, b: seq<T>, c: seq<T>)
    ensures a + (b + c) == a + b + c
  {
  }

  /** A sequence with no members is empty. */
  lemma EmptyWithoutMembers<T>(s: seq<T>)
    ensures (forall x :: x !in s) ==> |s| == 0
  {
    if |s| > 0 {
      assert s[0] in s;
    }
  }

  /** The decimal digit character of `n`. */
  function Digit(n: int): char
    requires 0 <= n <= 9
  {
    ('0' as int + n) as char
  }

  predicate IsDigit(c: char) {
    '0' <= c <= '9'
  }

  function DigitValue(c: char): (d: int)
    ensures IsDigit(c) ==> 0 <= d <= 9
  {
    c as int - '0' as int
  }

  /** The number a string of decimal digits denotes. */
  function DigitsValue(s: string): (n: nat)
    requires forall i :: 0 <= i < |s| ==> IsDigit(s[i])
  {
    if |s| == 0 then 0 else DigitsValue(s[..|s| - 1]) * 10 + DigitValue(s[|s| - 1])
  }

  /** `str(n)` of a non-negative integer: its shortest decimal digits. */
  function DecimalText(n: nat): (s: string)
    ensures |s| > 0
    ensures forall i :: 0 <= i < |s| ==> IsDigit(s[i])
    ensures |s| > 1 ==> s[0] != '0'
  {
    if n < 10 then [Digit(n)] else DecimalText(n / 10) + [Digit(n % 10)]
  }

  /** Python's `int(text)` for text that is an optional `-` followed by
      decimal digits; any other text raises ValueError. */
  function ParseInt(s: string): (r: Result<int, Exception>)
    ensures r.Failure? ==> r.error == ValueError
  {
    if |s| > 0 && s[0] == '-' && |s| > 1 && forall i :: 1 <= i < |s| ==> IsDigit(s[i]) then
      var magnitude: int := DigitsValue(s[1..]);
      Success(-magnitude)
    else if |s| > 0 && forall i :: 0 <= i < |s| ==> IsDigit(s[i]) then
      Success(DigitsValue(s))
    else Failure(ValueError)
  }

  /** `int(x)` on the values MessageToDict and tomllib produce: booleans
      count as 0 and 1, floats truncate toward zero, strings are parsed,
      and None, lists and dictionaries raise TypeError. */
  function IntOf(v: Value): (r: Result<int, Exception>)
    ensures v.JInt? ==> r == Success(v.i)
    ensures v.JNull? || v.JArr? || v.JObj? ==> r == Failure(TypeError)
  {
    match v
    case JBool(b) => Success(if b then 1 else 0)
    case JInt(i) => Success(i)
    case JNum(x) => Success(if x >= 0.0 then x.Floor else -((-x).Floor))
    case JStr(s) => ParseInt(s)
    case _ => Failure(TypeError)
  }

  /** MessageToDict writes a uint64 field, such as a vehicle timestamp, as
      its decimal text; `int` reads that text back as the same number. */
  lemma {:induction false} ParseDecimalText(n: nat)
    ensures ParseInt(DecimalText(n)) == Success(n)
    ensures IntOf(JStr(DecimalText(n))) == Success(n)
  {
    DigitsOfDecimalText(n);
  }

  lemma {:induction false} DigitsOfDecimalText(n: nat)
    ensures DigitsValue(DecimalText(n)) == n
  {
    var s := DecimalText(n);
    if n >= 10 {
      DigitsOfDecimalText(n / 10);
      assert s[..|s| - 1] == DecimalText(n / 10);
    }
  }
}
