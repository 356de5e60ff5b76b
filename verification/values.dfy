/** Python values as the resolver produces them, Python exceptions as the
    model's error values, and the small Result/Option wrappers used to thread
    them. */
module Values {

  datatype Option<+T> = None | Some(value: T)

  /** The Python exceptions the core can raise or propagate. */
  datatype Error =
    | IndexError(msg: string)
    | KeyError(key: Value)
    | TypeError(msg: string)
    | ValueError(msg: string)
      /** An exception raised by a user callable used as a spec. */
    | Raised(msg: string)
      /** `Exception(f"{name} failed")` raised by a failing `__teardown__`. */
    | TeardownFailed(msg: string)
      /** `Exception(*failures)` raised by the provider after teardown. */
    | Aggregate(failures: seq<Error>)
      /** `UnboundLocalError`, carrying the exception it replaced as context. */
    | UnboundLocal(context: Error)

  /** A computation that either produces a value or raises. */
  datatype Result<+T> = Ok(value: T) | Err(error: Error) {
    predicate IsFailure() { Err? }

    function PropagateFailure<U>(): Result<U>
      requires Err?
    {
      Err(error)
    }

    function Extract(): T
      requires Ok?
    {
      value
    }
  }

  /** A concrete Python value. Sets are kept as duplicate-free sequences in
      insertion order and dicts as key/value pairs with distinct keys, so that
      iteration order is explicit. */
  datatype Value =
    | VNone
    | VInt(i: int)
    | VBool(b: bool)
    | VReal(x: real)
    | VComplex(re: real, im: real)
    | VStr(s: string)
    | VTuple(elems: seq<Value>)
    | VList(elems: seq<Value>)
    | VSet(elems: seq<Value>)
    | VDict(entries: seq<(Value, Value)>)
      /** An object with a `__teardown__` method; when `raises` holds, the
          method raises `Exception(f"{name} failed")`. */
    | VTearable(id: nat, name: string, raises: bool)
      /** Any other object, compared by identity. */
    | VObject(cls: string, id: nat)

  /** `bool` is a subclass of `int` in Python, so `isinstance(True, int)`. */
  predicate IsIntLike(v: Value) {
    v.VInt? || v.VBool?
  }

  function IntOf(v: Value): int
    requires IsIntLike(v)
  {
    if v.VInt? then v.i else if v.b then 1 else 0
  }

  predicate IsNumber(v: Value) {
    IsIntLike(v) || v.VReal?
  }

  function RealOf(v: Value): real
    requires IsNumber(v)
  {
    if v.VReal? then v.x else IntOf(v) as real
  }

  /** Only immutable values may be set members or dict keys. */
  predicate Hashable(v: Value) {
    match v
    case VList(_) => false
    case VSet(_) => false
    case VDict(_) => false
    case VTuple(elems) => forall i :: 0 <= i < |elems| ==> Hashable(elems[i])
    case _ => true
  }

  /** Python truthiness: zero, empty and `None` are falsy, objects are truthy. */
  predicate Truthy(v: Value) {
    match v
    case VNone => false
    case VInt(i) => i != 0
    case VBool(b) => b
    case VReal(x) => x != 0.0
    case VComplex(re, im) => re != 0.0 || im != 0.0
    case VStr(s) => |s| > 0
    case VTuple(elems) => |elems| > 0
    case VList(elems) => |elems| > 0
    case VSet(elems) => |elems| > 0
    case VDict(entries) => |entries| > 0
    case VTearable(_, _, _) => true
    case VObject(_, _) => true
  }

  predicate HasLen(v: Value) {
    v.VStr? || v.VTuple? || v.VList? || v.VSet? || v.VDict?
  }

  /** `len(v)`, which raises `TypeError` for a value without a length. */
  function Len(v: Value): (r: Result<nat>)
    ensures r.Ok? <==> HasLen(v)
  {
    match v
    case VStr(s) => Ok(|s|)
    case VTuple(elems) => Ok(|elems|)
    case VList(elems) => Ok(|elems|)
    case VSet(elems) => Ok(|elems|)
    case VDict(entries) => Ok(|entries|)
    case _ => Err(TypeError("object has no len()"))
  }

  /** Instances of `collections.abc.Sequence`: the kinds `random.sample`
      accepts and integer subscripts index by position. */
  predicate IsSequence(v: Value) {
    v.VStr? || v.VTuple? || v.VList?
  }

  /** The elements of a sequence value; a string's elements are its
      one-character strings. */
  function Items(v: Value): (r: seq<Value>)
    requires IsSequence(v)
    ensures v.VStr? ==> |r| == |v.s| && forall i :: 0 <= i < |r| ==> r[i] == VStr([v.s[i]])
    ensures !v.VStr? ==> r == v.elems
  {
    if v.VStr? then seq(|v.s|, i requires 0 <= i < |v.s| => VStr([v.s[i]])) else v.elems
  }

  predicate Distinct<T(==)>(s: seq<T>) {
    forall i, j :: 0 <= i < j < |s| ==> s[i] != s[j]
  }

  function KeysOf<K, V>(entries: seq<(K, V)>): (r: seq<K>)
    ensures |r| == |entries|
    ensures forall i :: 0 <= i < |r| ==> r[i] == entries[i].0
  {
    seq(|entries|, i requires 0 <= i < |entries| => entries[i].0)
  }

  function ValuesOf<K, V>(entries: seq<(K, V)>): (r: seq<V>)
    ensures |r| == |entries|
    ensures forall i :: 0 <= i < |r| ==> r[i] == entries[i].1
  {
    seq(|entries|, i requires 0 <= i < |entries| => entries[i].1)
  }

  /** `s.add(x)`: an element already present is kept where it is. */
  function SetAdd(elems: seq<Value>, x: Value): (r: seq<Value>)
    requires Distinct(elems)
    ensures Distinct(r)
    ensures x in r
    ensures forall y :: y in r <==> y in elems || y == x
    ensures x in elems ==> r == elems
    ensures x !in elems ==> r == elems + [x]
  {
    if x in elems then elems else elems + [x]
  }

  function IndexOfKey<K(==), V>(entries: seq<(K, V)>, k: K): (r: Option<nat>)
    ensures r.Some? ==> r.value < |entries| && entries[r.value].0 == k
    ensures r.None? ==> k !in KeysOf(entries)
  {
    if |entries| == 0 then None
    else if entries[0].0 == k then Some(0)
    else match IndexOfKey(entries[1..], k)
      case Some(i) => Some(i + 1)
      case None => None
  }

  /** `d[k] = v`: an existing key keeps its position and takes the new value,
      a new key is appended. */
  function DictPut<K(==,!new), V(==)>(entries: seq<(K, V)>, k: K, v: V): (r: seq<(K, V)>)
    requires Distinct(KeysOf(entries))
    ensures Distinct(KeysOf(r))
    ensures k in KeysOf(entries) ==> |r| == |entries| && KeysOf(r) == KeysOf(entries)
    ensures k !in KeysOf(entries) ==> r == entries + [(k, v)] && KeysOf(r) == KeysOf(entries) + [k]
    ensures (k, v) in r
    ensures forall k' :: k' in KeysOf(r) <==> k' in KeysOf(entries) || k' == k
  {
    match IndexOfKey(entries, k)
    case Some(i) =>
      var r := entries[i := (k, v)];
      assert KeysOf(r) == KeysOf(entries);
      assert r[i] == (k, v);
      r
    case None =>
      var r := entries + [(k, v)];
      assert KeysOf(r) == KeysOf(entries) + [k];
      r
  }

  /** `d.get(k)`: the value stored under k, if any. */
  function Lookup<K(==), V>(entries: seq<(K, V)>, k: K): (r: Option<V>)
    ensures r.Some? <==> k in KeysOf(entries)
  {
    match IndexOfKey(entries, k)
    case Some(i) => Some(entries[i].1)
    case None => None
  }

  /** With distinct keys, each entry is what its key looks up. */
  lemma LookupAt<K, V>(entries: seq<(K, V)>, i: nat)
    requires Distinct(KeysOf(entries)) && i < |entries|
    ensures Lookup(entries, entries[i].0) == Some(entries[i].1)
  {
    var j := IndexOfKey(entries, entries[i].0).value;
    assert KeysOf(entries)[i] == KeysOf(entries)[j];
  }

  /** After `d[k] = v`, k looks up v and every other key looks up what it
      did before. */
  lemma LookupPut<K(!new), V>(entries: seq<(K, V)>, k: K, v: V, k': K)
    requires Distinct(KeysOf(entries))
    ensures Lookup(DictPut(entries, k, v), k') == if k' == k then Some(v) else Lookup(entries, k')
  {
    var r := DictPut(entries, k, v);
    if k' == k {
      var i :| 0 <= i < |r| && r[i] == (k, v);
      LookupAt(r, i);
    } else if k' in KeysOf(entries) {
      var j :| 0 <= j < |entries| && KeysOf(entries)[j] == k';
      LookupAt(entries, j);
      if k in KeysOf(entries) {
        var i := IndexOfKey(entries, k).value;
        assert r == entries[i := (k, v)];
      }
      assert r[j] == entries[j];
      LookupAt(r, j);
    }
  }

  /** `d[k]` on a dict, raising `KeyError` for a missing key. */
  function DictGet(entries: seq<(Value, Value)>, k: Value): (r: Result<Value>)
    ensures r.Ok? <==> k in KeysOf(entries)
    ensures r.Ok? ==> (k, r.value) in entries
  {
    match IndexOfKey(entries, k)
    case Some(i) => Ok(entries[i].1)
    case None => Err(KeyError(k))
  }

  /** The values a Python program can actually hold: set members distinct and
      hashable, dict keys distinct and hashable, recursively. */
  predicate WellFormed(v: Value) {
    match v
    case VTuple(elems) => forall i :: 0 <= i < |elems| ==> WellFormed(elems[i])
    case VList(elems) => forall i :: 0 <= i < |elems| ==> WellFormed(elems[i])
    case VSet(elems) =>
      && Distinct(elems)
      && forall i :: 0 <= i < |elems| ==> Hashable(elems[i]) && WellFormed(elems[i])
    case VDict(entries) =>
      && Distinct(KeysOf(entries))
      && forall i :: 0 <= i < |entries| ==>
           Hashable(entries[i].0) && WellFormed(entries[i].0) && WellFormed(entries[i].1)
    case _ => true
  }
}
