/** The parsed-document values the core walks (what xml2js produces with
    `explicitArray: false`), and `getObjectChildAt`, which descends a dotted
    key path through them. */
module Tree {
  import opened Wrappers
  import opened Text

  /** Element text, an element with named children, or a repeated element. */
  datatype Value = Str(text: string) | Obj(fields: map<string, Value>) | Arr(items: seq<Value>)

  /** JavaScript truthiness of a possibly undefined value: `undefined` and
      the empty string are falsy, every object and array is truthy. */
  predicate Truthy(v: Option<Value>) {
    match v
    case None => false
    case Some(Str(t)) => t != ""
    case Some(_) => true
  }

  /** `object[key]`. Property lookup on text or on an array yields
      `undefined` for every key that is neither an index nor a built-in
      property name, which covers every key this core looks up. */
  function Child(v: Value, key: string): Option<Value> {
    if v.Obj? && key in v.fields then Some(v.fields[key]) else None
  }

  /** The loop of `getObjectChildAt`: descend while the current value is
      truthy and keys remain. */
  function ChildAt(v: Option<Value>, keys: seq<string>): (r: Option<Value>)
    ensures !Truthy(v) ==> r == v
    ensures |keys| == 0 ==> r == v
    decreases |keys|
  {
    if !Truthy(v) || |keys| == 0 then v
    else ChildAt(Child(v.value, keys[0]), keys[1..])
  }

  /** `sKeys.split('.')` for a one-character separator. */
  function Split(s: string, sep: char): (parts: seq<string>)
    ensures |parts| >= 1
    ensures forall i :: 0 <= i < |parts| ==> sep !in parts[i]
    decreases |s|
  {
    match IndexOf(s, sep)
    case None => [s]
    case Some(k) => [s[..k]] + Split(s[k + 1..], sep)
  }

  /** `parts.join(sep)`: the inverse of `Split`. */
  function Join(parts: seq<string>, sep: char): string
    requires |parts| >= 1
    decreases |parts|
  {
    if |parts| == 1 then parts[0] else parts[0] + [sep] + Join(parts[1..], sep)
  }

  /** `getObjectChildAt(object, sKeys)`. */
  function ObjectChildAt(v: Option<Value>, path: string): Option<Value> {
    ChildAt(v, Split(path, '.'))
  }

  /** Walking a concatenated path is walking the first part, then the rest
      from wherever the first part stopped. */
  lemma {:induction false} ChildAtAppend(v: Option<Value>, a: seq<string>, b: seq<string>)
    ensures ChildAt(v, a + b) == ChildAt(ChildAt(v, a), b)
    decreases |a|
  {
    if !Truthy(v) {
    } else if |a| == 0 {
      assert a + b == b;
    } else {
      assert (a + b)[0] == a[0];
      assert (a + b)[1..] == a[1..] + b;
      ChildAtAppend(Child(v.value, a[0]), a[1..], b);
    }
  }

  /** The walk stops at the first falsy value met: if the value reached
      after the first `i` keys is falsy, that value is the result. */
  lemma ChildAtStopsAtFirstFalsy(v: Option<Value>, keys: seq<string>, i: nat)
    requires i <= |keys|
    requires !Truthy(ChildAt(v, keys[..i]))
    ensures ChildAt(v, keys) == ChildAt(v, keys[..i])
  {
    assert keys == keys[..i] + keys[i..];
    ChildAtAppend(v, keys[..i], keys[i..]);
  }

  /** While the values met are truthy, one more key descends one more level. */
  lemma ChildAtStep(v: Option<Value>, keys: seq<string>, k: string)
    requires Truthy(ChildAt(v, keys))
    ensures ChildAt(v, keys + [k]) == Child(ChildAt(v, keys).value, k)
  {
    ChildAtAppend(v, keys, [k]);
  }

  lemma {:induction false} JoinSplit(s: string, sep: char)
    ensures Join(Split(s, sep), sep) == s
    decreases |s|
  {
    var r := IndexOf(s, sep);
    if r.Some? {
      var k := r.value;
      var tail := s[k + 1..];
      assert Split(s, sep) == [s[..k]] + Split(tail, sep);
      JoinSplit(tail, sep);
      assert s == s[..k] + [sep] + tail;
    }
  }

  lemma IndexOfAfterSeparatorFree(a: string, sep: char, b: string)
    requires sep !in a
    ensures IndexOf(a + [sep] + b, sep) == Some(|a|)
  {
    var s := a + [sep] + b;
    assert s[|a|] == sep;
    assert s[..|a|] == a;
  }

  lemma {:induction false} SplitJoin(parts: seq<string>, sep: char)
    requires |parts| >= 1
    requires forall i :: 0 <= i < |parts| ==> sep !in parts[i]
    ensures Split(Join(parts, sep), sep) == parts
    decreases |parts|
  {
    if |parts| > 1 {
      var rest := Join(parts[1..], sep);
      IndexOfAfterSeparatorFree(parts[0], sep, rest);
      var s := parts[0] + [sep] + rest;
      assert s[..|parts[0]|] == parts[0];
      assert s[|parts[0]| + 1..] == rest;
      SplitJoin(parts[1..], sep);
      assert parts == [parts[0]] + parts[1..];
    } else {
      assert sep !in parts[0];
    }
  }

  /** A dotted path made of dot-free keys is walked key by key. */
  lemma ObjectChildAtKeys(v: Option<Value>, keys: seq<string>)
    requires |keys| >= 1
    requires forall i :: 0 <= i < |keys| ==> '.' !in keys[i]
    ensures ObjectChildAt(v, Join(keys, '.')) == ChildAt(v, keys)
  {
    SplitJoin(keys, '.');
  }
}
