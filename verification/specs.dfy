/** Specs and the combinator library. A spec describes how to produce a
    value; the combinators `between`, `choice`, `sample` and `choices` build
    deferred specs whose arguments are only resolved when the resolver runs
    them. This module holds the spec datatype and the parts of the
    combinators that work on already resolved values: `_unpack`, `_cast` and
    the random draws. The resolving half lives in module Resolver. */
module Specs {
  import opened Values
  import opened Rand

  /** A class passed as a spec; calling it builds a fresh instance. */
  datatype Class =
    | TearableClass(name: string, raises: bool)
    | PlainClass(name: string)

  datatype Spec =
      /** The type markers `int`, `float`, `complex`, `bool` and `str`. */
    | IntMarker | FloatMarker | ComplexMarker | BoolMarker | StrMarker
    | STuple(items: seq<Spec>)
    | SList(items: seq<Spec>)
    | SSet(items: seq<Spec>)
    | SDict(entries: seq<(Spec, Spec)>)
      /** A zero-argument callable that returns another spec. */
    | Thunk(returned: Spec)
      /** A zero-argument callable that raises. */
    | Failing(msg: string)
      /** A class used as a spec. */
    | New(cls: Class)
      /** The thunks returned by `between(low, high)`, `choice(*elems)`,
          `sample(*elems, k=k)` and `choices(*elems, k=k)`. */
    | Between(low: Spec, high: Spec)
    | Choice(elems: seq<Spec>)
    | Sample(elems: seq<Spec>, k: Spec)
    | Choices(elems: seq<Spec>, k: Spec)
      /** Any other object, which resolves to itself. A Python tuple, list,
          set or dict passed as a spec is read through ResolverFacts.Quote,
          which turns it into the container spec above; `Lit` of a container
          value is a second spelling of the same spec: by
          ResolverFacts.ResolveLit and ResolverFacts.ResolveQuote both
          resolve to the value when it is well formed. */
    | Lit(v: Value)
  {
    predicate IsMarker() {
      IntMarker? || FloatMarker? || ComplexMarker? || BoolMarker? || StrMarker?
    }

    /** Python truthiness of a spec object, used by `if k` in `sample` and
        `choices`: classes and functions are truthy, containers are truthy
        when non-empty, literals as their value. */
    predicate IsTruthy() {
      match this
      case STuple(items) => |items| > 0
      case SList(items) => |items| > 0
      case SSet(items) => |items| > 0
      case SDict(entries) => |entries| > 0
      case Lit(v) => Truthy(v)
      case _ => true
    }
  }

  /** A termination measure: every spec weighs at least one, and a
      combinator outweighs the population spec `_unpack` builds from its
      arguments. */
  function Size(s: Spec): (r: nat)
    ensures r >= 1
  {
    match s
    case STuple(items) => 1 + SizeSeq(items)
    case SList(items) => 1 + SizeSeq(items)
    case SSet(items) => 1 + SizeSeq(items)
    case SDict(entries) => 1 + SizeEntries(entries)
    case Thunk(t) => 1 + Size(t)
    case Between(x, y) => 1 + Size(x) + Size(y)
    case Choice(elems) => 2 + SizeSeq(elems)
    case Sample(elems, k) => 2 + SizeSeq(elems) + Size(k)
    case Choices(elems, k) => 2 + SizeSeq(elems) + Size(k)
    case _ => 1
  }

  function SizeSeq(items: seq<Spec>): (r: nat)
    ensures r >= 1
    ensures |items| > 0 ==> Size(items[0]) < r
  {
    if |items| == 0 then 1 else Size(items[0]) + SizeSeq(items[1..])
  }

  function SizeEntries(entries: seq<(Spec, Spec)>): (r: nat)
    ensures r >= 1
    ensures |entries| > 0 ==> SizeEntry(entries[0]) < r
  {
    if |entries| == 0 then 1 else SizeEntry(entries[0]) + SizeEntries(entries[1..])
  }

  function SizeEntry(entry: (Spec, Spec)): (r: nat)
    ensures r > Size(entry.0) && r > Size(entry.1)
  {
    Size(entry.0) + Size(entry.1)
  }

  /** `_unpack(elems)`: one argument is the population spec itself, several
      form a tuple spec, and none raises `IndexError` from `them[0]`. */
  function Unpack(elems: seq<Spec>): (r: Result<Spec>)
    ensures r.Ok? <==> |elems| > 0
    ensures |elems| == 1 ==> r == Ok(elems[0])
    ensures |elems| > 1 ==> r == Ok(STuple(elems))
    ensures r.Ok? ==> Size(r.value) < 2 + SizeSeq(elems)
  {
    if |elems| > 1 then Ok(STuple(elems))
    else if |elems| == 1 then Ok(elems[0])
    else Err(IndexError("tuple index out of range"))
  }

  /** Calling a class: a fresh instance with the next identity. */
  function Instantiate(cls: Class, id: nat): Value {
    match cls
    case TearableClass(name, raises) => VTearable(id, name, raises)
    case PlainClass(name) => VObject(name, id)
  }

  // ---------------------------------------------------------------------
  // between

  /** The draw of `between` once both bounds are resolved: the bounds are
      sorted, two integers give `randint`, anything else numeric gives
      `uniform`, and non-numbers raise `TypeError`. */
  function DrawBetween(o: Oracle, st: St, a: Value, b: Value): (r: Result<(Value, St)>)
    ensures r.Ok? <==> IsNumber(a) && IsNumber(b)
    ensures r.Ok? ==> r.value.0.VInt? || r.value.0.VReal?
    ensures r.Ok? ==> (r.value.0.VInt? <==> IsIntLike(a) && IsIntLike(b))
    ensures r.Ok? ==>
      Min(RealOf(a), RealOf(b)) <= RealOf(r.value.0) <= Max(RealOf(a), RealOf(b))
  {
    if !(IsNumber(a) && IsNumber(b)) then
      Err(TypeError("bounds must be numbers"))
    else
      var (m, n) := if RealOf(b) < RealOf(a) then (b, a) else (a, b);
      if IsIntLike(m) && IsIntLike(n) then
        var (x, st1) := RandInt(o, st, IntOf(m), IntOf(n));
        Ok((VInt(x), st1))
      else
        var (x, st1) := Uniform(o, st, RealOf(m), RealOf(n));
        Ok((VReal(x), st1))
  }

  // ---------------------------------------------------------------------
  // choice, sample, choices

  /** `population[i]`: a sequence is indexed by position, a dict is looked up
      with the integer key `i`, anything else raises `TypeError`. */
  function Subscript(pop: Value, i: nat): (r: Result<Value>)
    ensures IsSequence(pop) ==> (r.Ok? <==> i < |Items(pop)|)
    ensures IsSequence(pop) && r.Ok? ==> r.value == Items(pop)[i]
    ensures pop.VDict? ==> (r.Ok? <==> VInt(i) in KeysOf(pop.entries))
    ensures pop.VDict? && r.Ok? ==> (VInt(i), r.value) in pop.entries
    ensures pop.VDict? && r.Ok? ==> r.value in ValuesOf(pop.entries)
    ensures !IsSequence(pop) && !pop.VDict? ==> r.Err?
  {
    if IsSequence(pop) then
      if i < |Items(pop)| then Ok(Items(pop)[i]) else Err(IndexError("index out of range"))
    else if pop.VDict? then
      var v :- DictGet(pop.entries, VInt(i));
      assert exists j :: 0 <= j < |pop.entries| && pop.entries[j] == (VInt(i), v);
      Ok(v)
    else
      Err(TypeError("object is not subscriptable"))
  }

  /** A member of the population: an element of a sequence, or one of a
      dict's values. */
  predicate Drawn(v: Value, pop: Value) {
    (IsSequence(pop) && v in Items(pop)) || (pop.VDict? && v in ValuesOf(pop.entries))
  }

  /** `random.choice(population)`. */
  function DrawChoice(o: Oracle, st: St, pop: Value): (r: Result<(Value, St)>)
    ensures IsSequence(pop) ==> (r.Ok? <==> |Items(pop)| > 0)
    ensures r.Ok? ==> Drawn(r.value.0, pop)
    ensures !HasLen(pop) || pop.VSet? ==> r.Err?
  {
    var n :- Len(pop);
    if n == 0 then Err(IndexError("Cannot choose from an empty sequence"))
    else
      var (i, st1) := RandBelow(o, st, n);
      var v :- Subscript(pop, i);
      Ok((v, st1))
  }

  /** `pool` without its element at position j. */
  function RemoveAt(pool: seq<Value>, j: nat): (r: seq<Value>)
    requires j < |pool|
    ensures |r| == |pool| - 1
    ensures multiset(pool) == multiset(r) + multiset{pool[j]}
    ensures Distinct(pool) ==> Distinct(r) && pool[j] !in r
  {
    var r := pool[..j] + pool[j + 1..];
    assert pool == pool[..j] + [pool[j]] + pool[j + 1..];
    DistinctRemoveAt(pool, j, r);
    r
  }

  lemma DistinctRemoveAt(pool: seq<Value>, j: nat, r: seq<Value>)
    requires j < |pool| && r == pool[..j] + pool[j + 1..]
    ensures Distinct(pool) ==> Distinct(r) && pool[j] !in r
  {
    if Distinct(pool) {
      forall a, b | 0 <= a < b < |r| ensures r[a] != r[b] {
        var a' := if a < j then a else a + 1;
        var b' := if b < j then b else b + 1;
        assert r[a] == pool[a'] && r[b] == pool[b'];
      }
    }
  }

  lemma DistinctCons(x: Value, tail: seq<Value>)
    requires Distinct(tail) && x !in tail
    ensures Distinct([x] + tail)
  {
    var s := [x] + tail;
    forall a, b | 0 <= a < b < |s| ensures s[a] != s[b] {
      assert s[b] == tail[b - 1];
      if a > 0 { assert s[a] == tail[a - 1]; }
    }
  }

  /** Draws `k` elements of `pool` at distinct positions: each step picks a
      position among those left and removes it. */
  function PickDistinct(o: Oracle, st: St, pool: seq<Value>, k: nat): (r: (seq<Value>, St))
    requires k <= |pool|
    ensures |r.0| == k
    ensures multiset(r.0) <= multiset(pool)
    ensures Distinct(pool) ==> Distinct(r.0)
    decreases k
  {
    if k == 0 then ([], st)
    else
      var (j, st1) := RandBelow(o, st, |pool|);
      var rest := RemoveAt(pool, j);
      var (tail, st2) := PickDistinct(o, st1, rest, k - 1);
      assert multiset([pool[j]] + tail) == multiset{pool[j]} + multiset(tail);
      assert Distinct(pool) ==> Distinct([pool[j]] + tail) by {
        if Distinct(pool) {
          assert multiset(tail)[pool[j]] <= multiset(rest)[pool[j]] == 0;
          DistinctCons(pool[j], tail);
        }
      }
      ([pool[j]] + tail, st2)
  }

  /** The `k` argument of `random.sample`, checked against a population of
      size n: an integer in [0, n]; a real in range fails later with
      `TypeError`, anything out of range with `ValueError`. */
  function SampleSize(k: Value, n: nat): (r: Result<nat>)
    ensures r.Ok? <==> IsIntLike(k) && 0 <= IntOf(k) <= n
    ensures r.Ok? ==> r.value == IntOf(k)
  {
    if IsIntLike(k) then
      if 0 <= IntOf(k) <= n then Ok(IntOf(k) as nat)
      else Err(ValueError("Sample larger than population or is negative"))
    else if k.VReal? then
      if 0.0 <= k.x <= n as real then Err(TypeError("can't multiply sequence by non-int"))
      else Err(ValueError("Sample larger than population or is negative"))
    else Err(TypeError("'<=' not supported"))
  }

  /** `random.sample(population, k)`: only sequences are accepted, and the
      result is k elements taken without replacement. */
  function DrawSample(o: Oracle, st: St, pop: Value, k: Value): (r: Result<(seq<Value>, St)>)
    ensures r.Ok? <==> IsSequence(pop) && IsIntLike(k) && 0 <= IntOf(k) <= |Items(pop)|
    ensures r.Ok? ==> |r.value.0| == IntOf(k)
    ensures r.Ok? ==> multiset(r.value.0) <= multiset(Items(pop))
    ensures r.Ok? && Distinct(Items(pop)) ==> Distinct(r.value.0)
  {
    if !IsSequence(pop) then
      Err(TypeError("Population must be a sequence"))
    else
      var n :- SampleSize(k, |Items(pop)|);
      Ok(PickDistinct(o, st, Items(pop), n))
  }

  /** The comprehension inside `random.choices`: `count` independent draws
      `population[floor(random() * n)]`. */
  function DrawMany(o: Oracle, st: St, pop: Value, n: nat, count: nat): (r: Result<(seq<Value>, St)>)
    requires HasLen(pop) && Len(pop) == Ok(n)
    ensures r.Ok? ==> |r.value.0| == count
    ensures r.Ok? ==> forall i :: 0 <= i < count ==> Drawn(r.value.0[i], pop)
    ensures IsSequence(pop) ==> (r.Ok? <==> n > 0 || count == 0)
    ensures pop.VSet? && count > 0 ==> r.Err?
    decreases count
  {
    if count == 0 then Ok(([], st))
    else
      var (j, st1) := RandomIndex(o, st, n);
      var v :- Subscript(pop, j);
      var (rest, st2) :- DrawMany(o, st1, pop, n, count - 1);
      Ok(([v] + rest, st2))
  }

  /** `random.choices(population, k=k)`: k draws with replacement; a
      negative k draws nothing, a non-integer k raises `TypeError`. */
  function DrawChoices(o: Oracle, st: St, pop: Value, k: Value): (r: Result<(seq<Value>, St)>)
    ensures r.Ok? ==> HasLen(pop) && IsIntLike(k)
    ensures r.Ok? ==> |r.value.0| == if IntOf(k) < 0 then 0 else IntOf(k)
    ensures r.Ok? ==> forall i :: 0 <= i < |r.value.0| ==> Drawn(r.value.0[i], pop)
    ensures IsSequence(pop) ==> (r.Ok? <==> IsIntLike(k) && (|Items(pop)| > 0 || IntOf(k) <= 0))
  {
    var n :- Len(pop);
    if !IsIntLike(k) then Err(TypeError("'float' object cannot be interpreted as an integer"))
    else DrawMany(o, st, pop, n, if IntOf(k) < 0 then 0 else IntOf(k))
  }

  // ---------------------------------------------------------------------
  // _cast

  predicate AllChars(vs: seq<Value>) {
    forall i :: 0 <= i < |vs| ==> vs[i].VStr? && |vs[i].s| == 1
  }

  /** `"".join(vs)`, which raises `TypeError` on a non-string item. */
  function Join(vs: seq<Value>): (r: Result<string>)
    ensures r.Ok? <==> forall i :: 0 <= i < |vs| ==> vs[i].VStr?
    ensures AllChars(vs) ==> r.Ok? && |r.value| == |vs|
    ensures AllChars(vs) ==> forall i :: 0 <= i < |vs| ==> r.value[i] == vs[i].s[0]
  {
    if |vs| == 0 then Ok("")
    else if !vs[0].VStr? then Err(TypeError("sequence item: expected str instance"))
    else
      var rest :- Join(vs[1..]);
      Ok(vs[0].s + rest)
  }

  /** `_cast(result, type(pop))`: a string population gives the joined
      string, a tuple population a tuple, and every other kind the list
      unchanged. */
  function Cast(result: seq<Value>, pop: Value): (r: Result<Value>)
    ensures pop.VStr? && r.Ok? ==> r.value.VStr?
    ensures pop.VStr? && AllChars(result) ==>
      r.Ok? && |r.value.s| == |result| && forall i :: 0 <= i < |result| ==> r.value.s[i] == result[i].s[0]
    ensures pop.VTuple? ==> r.Ok? && r.value.VTuple? && r.value.elems == result
    ensures !pop.VStr? && !pop.VTuple? ==> r.Ok? && r.value.VList? && r.value.elems == result
  {
    if pop.VStr? then
      var s :- Join(result);
      Ok(VStr(s))
    else if pop.VTuple? then Ok(VTuple(result))
    else Ok(VList(result))
  }

  /** Every element drawn from a string population is a one-character
      string of it. */
  lemma DrawnFromString(vs: seq<Value>, s: string)
    requires forall i :: 0 <= i < |vs| ==> Drawn(vs[i], VStr(s))
    ensures AllChars(vs)
    ensures forall i :: 0 <= i < |vs| ==> vs[i].s[0] in s
  {
    forall i | 0 <= i < |vs| ensures vs[i].VStr? && |vs[i].s| == 1 && vs[i].s[0] in s {
      var j :| 0 <= j < |Items(VStr(s))| && Items(VStr(s))[j] == vs[i];
    }
  }
}
