/** `resolve(spec)`: turns a spec into a concrete value. The dispatch order
    is the source's: type markers are generated, tuples, lists, sets and dicts
    are rebuilt element by element, callables are invoked and their result is
    resolved again, and anything else is returned as it is. The combinator
    thunks are run here too, because running one resolves its argument specs;
    what a run returns is already resolved, so it is not resolved a second
    time (WellFormedness.ResolveAgain shows that pass would change nothing). */
module Resolver {
  import opened Values
  import opened Rand
  import opened Specs
  import CharClasses

  /** The default domain of each type marker. */
  predicate InMarkerDomain(m: Spec, v: Value)
    requires m.IsMarker()
  {
    match m
    case IntMarker => v.VInt? && 0 <= v.i <= 1000
    case FloatMarker => v.VReal? && 0.0 <= v.x <= 1000.0
    case ComplexMarker => v.VComplex? && -1000.0 <= v.re <= 1000.0 && -1000.0 <= v.im <= 1000.0
    case BoolMarker => v.VBool?
    case StrMarker =>
      && v.VStr? && 1 <= |v.s| <= 50
      && forall i :: 0 <= i < |v.s| ==> CharClasses.IsLetter(v.s[i])
  }

  /** `"".join(choices(pool, k=n))` for a non-empty string pool: n characters
      of the pool. */
  function DrawString(o: Oracle, st: St, pool: string, n: nat): (r: (string, St))
    requires |pool| > 0
    ensures |r.0| == n
    ensures forall i :: 0 <= i < |r.0| ==> r.0[i] in pool
  {
    var population := VStr(pool);
    assert |Items(population)| == |pool|;
    var drawn := DrawChoices(o, st, population, VInt(n));
    assert drawn.Ok?;
    var (cs, st1) := drawn.value;
    assert |cs| == n;
    DrawnFromString(cs, pool);
    var joined := Join(cs);
    assert joined.Ok? && |joined.value| == n;
    (joined.value, st1)
  }

  /** `"".join(choices(ascii_letters, k=randint(1, 50)))`. */
  function GenerateStr(o: Oracle, st: St): (r: (Value, St))
    ensures InMarkerDomain(StrMarker, r.0)
  {
    var (n, st1) := RandInt(o, st, 1, 50);
    var (s, st2) := DrawString(o, st1, CharClasses.AsciiLetters, n);
    CharClasses.LettersAreLetters();
    assert forall i :: 0 <= i < |s| ==> CharClasses.IsLetter(s[i]) by {
      forall i | 0 <= i < |s| ensures CharClasses.IsLetter(s[i]) {
        var j :| 0 <= j < |CharClasses.AsciiLetters| && CharClasses.AsciiLetters[j] == s[i];
      }
    }
    (VStr(s), st2)
  }

  /** The values a type marker generates; no marker is ever called. */
  function Generate(o: Oracle, st: St, m: Spec): (r: (Value, St))
    requires m.IsMarker()
    ensures InMarkerDomain(m, r.0)
  {
    match m
    case IntMarker =>
      var (n, st1) := RandInt(o, st, 0, 1000);
      (VInt(n), st1)
    case FloatMarker =>
      var (x, st1) := Uniform(o, st, 0.0, 1000.0);
      (VReal(x), st1)
    case ComplexMarker =>
      var (re, st1) := Uniform(o, st, -1000.0, 1000.0);
      var (im, st2) := Uniform(o, st1, -1000.0, 1000.0);
      (VComplex(re, im), st2)
    case BoolMarker =>
      DrawChoice(o, st, VTuple([VBool(true), VBool(false)])).value
    case StrMarker =>
      GenerateStr(o, st)
  }

  function Resolve(o: Oracle, spec: Spec, st: St): (r: Result<(Value, St)>)
    ensures spec.IsMarker() ==> r.Ok? && InMarkerDomain(spec, r.value.0)
    ensures spec.STuple? && r.Ok? ==>
      r.value.0.VTuple? && |r.value.0.elems| == |spec.items|
    ensures spec.SList? && r.Ok? ==>
      r.value.0.VList? && |r.value.0.elems| == |spec.items|
    ensures spec.SSet? && r.Ok? ==>
      && r.value.0.VSet? && |r.value.0.elems| <= |spec.items|
      && Distinct(r.value.0.elems)
      && forall i :: 0 <= i < |r.value.0.elems| ==> Hashable(r.value.0.elems[i])
    ensures spec.SDict? && r.Ok? ==>
      && r.value.0.VDict? && |r.value.0.entries| <= |spec.entries|
      && Distinct(KeysOf(r.value.0.entries))
    ensures spec.Failing? ==> r.Err?
    decreases Size(spec), 2
  {
    if spec.IsMarker() then Ok(Generate(o, st, spec))
    else match spec
      case STuple(items) =>
        var (vs, st1) :- ResolveSeq(o, items, st);
        Ok((VTuple(vs), st1))
      case SList(items) =>
        var (vs, st1) :- ResolveSeq(o, items, st);
        Ok((VList(vs), st1))
      case SSet(items) =>
        var (vs, st1) :- ResolveSet(o, items, [], st);
        Ok((VSet(vs), st1))
      case SDict(entries) =>
        var (es, st1) :- ResolveDict(o, entries, [], st);
        Ok((VDict(es), st1))
      case Thunk(s) => Resolve(o, s, st)
      case Failing(msg) => Err(Raised(msg))
      case New(cls) => Ok((Instantiate(cls, st.nextId), st.(nextId := st.nextId + 1)))
      case Between(x, y) => RunBetween(o, x, y, st)
      case Choice(elems) => RunChoice(o, elems, st)
      case Sample(elems, k) => RunSampled(o, elems, k, false, st)
      case Choices(elems, k) => RunSampled(o, elems, k, true, st)
      case Lit(v) => Ok((v, st))
  }

  /** Resolves the items of a tuple or list spec in order. */
  function ResolveSeq(o: Oracle, items: seq<Spec>, st: St): (r: Result<(seq<Value>, St)>)
    ensures r.Ok? ==> |r.value.0| == |items|
    decreases SizeSeq(items), 0
  {
    if |items| == 0 then Ok(([], st))
    else
      var (v, st1) :- Resolve(o, items[0], st);
      var (vs, st2) :- ResolveSeq(o, items[1..], st1);
      Ok(([v] + vs, st2))
  }

  /** `{resolve(x) for x in items}`, added to `acc`: each element is resolved
      and then inserted, so an unhashable one raises before the next is
      resolved, and equal results collapse into one member. */
  function ResolveSet(o: Oracle, items: seq<Spec>, acc: seq<Value>, st: St): (r: Result<(seq<Value>, St)>)
    requires Distinct(acc) && forall i :: 0 <= i < |acc| ==> Hashable(acc[i])
    ensures r.Ok? ==> Distinct(r.value.0) && |r.value.0| <= |acc| + |items|
    ensures r.Ok? ==> forall i :: 0 <= i < |r.value.0| ==> Hashable(r.value.0[i])
    decreases SizeSeq(items), 0
  {
    if |items| == 0 then Ok((acc, st))
    else
      var (v, st1) :- Resolve(o, items[0], st);
      if !Hashable(v) then Err(TypeError("unhashable type"))
      else ResolveSet(o, items[1..], SetAdd(acc, v), st1)
  }

  /** `{resolve(k): resolve(v) for k, v in entries}`, added to `acc`: the key
      is resolved before the value, and a repeated resolved key keeps its
      first position and takes the later value. */
  function ResolveDict(o: Oracle, entries: seq<(Spec, Spec)>, acc: seq<(Value, Value)>, st: St)
    : (r: Result<(seq<(Value, Value)>, St)>)
    requires Distinct(KeysOf(acc))
    ensures r.Ok? ==> Distinct(KeysOf(r.value.0)) && |r.value.0| <= |acc| + |entries|
    decreases SizeEntries(entries), 0
  {
    if |entries| == 0 then Ok((acc, st))
    else
      var (k, st1) :- Resolve(o, entries[0].0, st);
      var (v, st2) :- Resolve(o, entries[0].1, st1);
      if !Hashable(k) then Err(TypeError("unhashable type"))
      else ResolveDict(o, entries[1..], DictPut(acc, k, v), st2)
  }

  /** Running `between(x, y)`: resolve x, then y, then draw. */
  function RunBetween(o: Oracle, x: Spec, y: Spec, st: St): (r: Result<(Value, St)>)
    ensures r.Ok? ==> r.value.0.VInt? || r.value.0.VReal?
    decreases Size(Between(x, y)), 1
  {
    var (a, st1) :- Resolve(o, x, st);
    var (b, st2) :- Resolve(o, y, st1);
    DrawBetween(o, st2, a, b)
  }

  /** `resolve(_unpack(elems))`: the population a `choice`, `sample` or
      `choices` thunk draws from, resolved once per run. */
  function ResolvePopulation(o: Oracle, elems: seq<Spec>, st: St): (r: Result<(Value, St)>)
    ensures |elems| == 0 ==> r.Err? && r.error.IndexError?
    ensures |elems| == 1 ==> r == Resolve(o, elems[0], st)
    ensures |elems| > 1 ==> r == Resolve(o, STuple(elems), st)
    decreases 2 + SizeSeq(elems), 0
  {
    var pspec :- Unpack(elems);
    Resolve(o, pspec, st)
  }

  /** `resolve(k) if k else len(population)`: the number of draws. */
  function ResolveCount(o: Oracle, k: Spec, pop: Value, st: St): (r: Result<(Value, St)>)
    ensures !k.IsTruthy() ==> (r.Ok? <==> HasLen(pop))
    ensures !k.IsTruthy() && r.Ok? ==> r.value == (VInt(Len(pop).value), st)
    ensures k.IsTruthy() ==> r == Resolve(o, k, st)
    decreases Size(k), 3
  {
    if k.IsTruthy() then Resolve(o, k, st)
    else
      var n :- Len(pop);
      Ok((VInt(n), st))
  }

  /** Running `choice(*elems)`: resolve the population once, then draw one
      member. */
  function RunChoice(o: Oracle, elems: seq<Spec>, st: St): (r: Result<(Value, St)>)
    ensures |elems| == 0 ==> r.Err?
    decreases Size(Choice(elems)), 1
  {
    var (pop, st1) :- ResolvePopulation(o, elems, st);
    DrawChoice(o, st1, pop)
  }

  /** Running `sample(*elems, k=k)` (without replacement) or
      `choices(*elems, k=k)` (with replacement): resolve the population, then
      the count, draw, and cast the draws to the population's kind. */
  function RunSampled(o: Oracle, elems: seq<Spec>, k: Spec, withReplacement: bool, st: St)
    : (r: Result<(Value, St)>)
    ensures |elems| == 0 ==> r.Err?
    ensures r.Ok? ==> r.value.0.VStr? || r.value.0.VTuple? || r.value.0.VList?
    decreases 2 + SizeSeq(elems) + Size(k), 1
  {
    var (pop, st1) :- ResolvePopulation(o, elems, st);
    var (n, st2) :- ResolveCount(o, k, pop, st1);
    DrawAndCast(o, pop, n, withReplacement, st2)
  }

  /** The draws of a `sample` or `choices` run once population and count are
      known, cast to the population's kind. */
  function DrawAndCast(o: Oracle, pop: Value, n: Value, withReplacement: bool, st: St)
    : (r: Result<(Value, St)>)
    ensures r.Ok? ==> r.value.0.VStr? || r.value.0.VTuple? || r.value.0.VList?
  {
    var (drawn, st1) :- if withReplacement then DrawChoices(o, st, pop, n)
                        else DrawSample(o, st, pop, n);
    var v :- Cast(drawn, pop);
    Ok((v, st1))
  }
}
