/** `provide(**specs)`: a decorator that resolves its keyword specs on every
    call, passes them to the wrapped function, and tears every resolved
    value down afterwards, whether the function returned or raised. */
module Provider {
  import opened Values
  import opened Rand
  import opened Specs
  import opened Resolver
  import ResolverFacts

  // ---------------------------------------------------------------------
  // Keyword arguments

  /** The keys of `b` that `a` does not have, in `b`'s order. */
  function NewKeys(b: seq<string>, a: seq<string>): (r: seq<string>)
    ensures forall k :: k in r <==> k in b && k !in a
  {
    if |b| == 0 then []
    else (if b[0] in a then [] else [b[0]]) + NewKeys(b[1..], a)
  }

  /** `specs | kwds`: every key of `kwds` takes its value from `kwds`, the
      rest keep theirs, and keys keep their first position. */
  function Merge<T(==)>(specs: seq<(string, T)>, kwds: seq<(string, T)>): (r: seq<(string, T)>)
    requires Distinct(KeysOf(specs)) && Distinct(KeysOf(kwds))
    ensures Distinct(KeysOf(r))
    decreases |kwds|
  {
    if |kwds| == 0 then specs
    else Merge(DictPut(specs, kwds[0].0, kwds[0].1), kwds[1..])
  }

  lemma DistinctTail<T>(s: seq<T>)
    requires Distinct(s) && |s| > 0
    ensures Distinct(s[1..]) && s[0] !in s[1..]
  {
  }

  lemma {:induction false} NewKeysSkip(b: seq<string>, a: seq<string>, x: string)
    requires x !in b
    ensures NewKeys(b, a + [x]) == NewKeys(b, a)
    decreases |b|
  {
    if |b| > 0 {
      NewKeysSkip(b[1..], a, x);
    }
  }

  /** The merged keys are the specs' keys followed by the new keyword keys. */
  lemma {:induction false} MergeKeys<T>(specs: seq<(string, T)>, kwds: seq<(string, T)>)
    requires Distinct(KeysOf(specs)) && Distinct(KeysOf(kwds))
    ensures KeysOf(Merge(specs, kwds)) == KeysOf(specs) + NewKeys(KeysOf(kwds), KeysOf(specs))
    decreases |kwds|
  {
    if |kwds| > 0 {
      var (k, v) := kwds[0];
      var specs' := DictPut(specs, k, v);
      var ks := KeysOf(kwds);
      assert KeysOf(kwds[1..]) == ks[1..];
      DistinctTail(ks);
      assert Merge(specs, kwds) == Merge(specs', kwds[1..]);
      MergeKeys(specs', kwds[1..]);
      MergeKeysStep(KeysOf(specs), KeysOf(specs'), ks);
    }
  }

  lemma MergeKeysStep(a: seq<string>, a': seq<string>, ks: seq<string>)
    requires |ks| > 0 && ks[0] !in ks[1..]
    requires ks[0] in a ==> a' == a
    requires ks[0] !in a ==> a' == a + [ks[0]]
    ensures a' + NewKeys(ks[1..], a') == a + NewKeys(ks, a)
  {
    if ks[0] !in a {
      NewKeysSkip(ks[1..], a, ks[0]);
      assert NewKeys(ks, a) == [ks[0]] + NewKeys(ks[1..], a);
    } else {
      assert NewKeys(ks, a) == [] + NewKeys(ks[1..], a);
    }
  }

  /** A keyword argument overrides the spec of the same name; every other
      spec is kept. */
  lemma {:induction false} MergeLookup<T>(specs: seq<(string, T)>, kwds: seq<(string, T)>, k: string)
    requires Distinct(KeysOf(specs)) && Distinct(KeysOf(kwds))
    ensures Lookup(Merge(specs, kwds), k) ==
      if k in KeysOf(kwds) then Lookup(kwds, k) else Lookup(specs, k)
    decreases |kwds|
  {
    if |kwds| > 0 {
      var (k0, v0) := kwds[0];
      var specs' := DictPut(specs, k0, v0);
      var ks := KeysOf(kwds);
      assert KeysOf(kwds[1..]) == ks[1..];
      DistinctTail(ks);
      MergeLookup(specs', kwds[1..], k);
      LookupPut(specs, k0, v0, k);
      LookupAt(kwds, 0);
      if k in ks[1..] {
        var j :| 0 <= j < |ks[1..]| && ks[1..][j] == k;
        LookupAt(kwds, j + 1);
        LookupAt(kwds[1..], j);
      }
    }
  }

  // ---------------------------------------------------------------------
  // Resolution

  /** `{k: resolve(s) for k, s in entries.items()}`: the specs are resolved
      in key order and the first error ends the comprehension. */
  function ResolveEntries(o: Oracle, entries: seq<(string, Spec)>, st: St)
    : (r: Result<(seq<(string, Value)>, St)>)
    ensures r.Ok? ==> KeysOf(r.value.0) == KeysOf(entries)
  {
    if |entries| == 0 then Ok(([], st))
    else
      var (v, st1) :- Resolve(o, entries[0].1, st);
      var (rest, st2) :- ResolveEntries(o, entries[1..], st1);
      assert KeysOf([(entries[0].0, v)] + rest) == [entries[0].0] + KeysOf(rest);
      assert KeysOf(entries) == [entries[0].0] + KeysOf(entries[1..]);
      Ok(([(entries[0].0, v)] + rest, st2))
  }

  /** Resolving keyword specs is resolving their values as a tuple would be:
      same success, same values in the same order, same final state. */
  lemma {:induction false} ResolveEntriesValues(o: Oracle, entries: seq<(string, Spec)>, st: St)
    ensures var r := ResolveEntries(o, entries, st);
            var rs := ResolveSeq(o, ValuesOf(entries), st);
            && (r.Ok? <==> rs.Ok?)
            && (r.Err? ==> r.error == rs.error)
            && (r.Ok? ==> ValuesOf(r.value.0) == rs.value.0 && r.value.1 == rs.value.1)
  {
    if |entries| > 0 {
      var vs := ValuesOf(entries);
      assert vs[0] == entries[0].1;
      assert vs[1..] == ValuesOf(entries[1..]);
      match Resolve(o, entries[0].1, st)
      case Err(e) =>
        assert ResolveEntries(o, entries, st) == Err(e);
        assert ResolveSeq(o, vs, st) == Err(e);
      case Ok((v, st1)) =>
        ResolveEntriesValues(o, entries[1..], st1);
        match ResolveEntries(o, entries[1..], st1)
        case Err(e) =>
          assert ResolveEntries(o, entries, st) == Err(e);
          assert ResolveSeq(o, vs[1..], st1) == Err(e);
          assert ResolveSeq(o, vs, st) == Err(e);
        case Ok((rest, st2)) =>
          var ws := ValuesOf(rest);
          assert ResolveSeq(o, vs[1..], st1) == Ok((ws, st2));
          assert ResolveEntries(o, entries, st) == Ok(([(entries[0].0, v)] + rest, st2));
          assert ResolveSeq(o, vs, st) == Ok(([v] + ws, st2));
          assert ValuesOf([(entries[0].0, v)] + rest) == [v] + ws;
    }
  }

  // ---------------------------------------------------------------------
  // Teardown

  /** What `_teardown` leaves behind: the objects whose `__teardown__` was
      called, in call order, and the exceptions collected. */
  datatype Log = Log(attempts: seq<Value>, failures: seq<Error>)

  /** The exception a tearable's `__teardown__` raises, if it raises. */
  function TeardownError(t: Value): Error
    requires t.VTearable?
  {
    TeardownFailed(t.name + " failed")
  }

  predicate IsCollection(v: Value) {
    v.VTuple? || v.VList? || v.VSet?
  }

  /** `_teardown(values, failures)`: each tuple, list or set is walked
      first, then the value itself is torn down if it has `__teardown__`;
      an exception is collected and the walk goes on. Dict members are not
      visited. */
  function Teardown(values: seq<Value>, log: Log): (r: Log)
    ensures r.attempts == log.attempts + Tearables(values)
    ensures r.failures == log.failures + FailuresOf(Tearables(values))
    decreases values
  {
    if |values| == 0 then log
    else
      var v := values[0];
      var inner := if IsCollection(v) then Tearables(v.elems) else [];
      var log1 := if IsCollection(v) then Teardown(v.elems, log) else log;
      assert !IsCollection(v) ==> log.attempts + inner == log.attempts && log.failures + FailuresOf(inner) == log.failures;
      assert log1 == Log(log.attempts + inner, log.failures + FailuresOf(inner));
      var rest := Tearables(values[1..]);
      assert Tearables(values) == inner + SelfOf(v) + rest;
      FailuresOf3(inner, SelfOf(v), rest);
      Assoc3(log.attempts, inner, SelfOf(v), rest);
      Assoc3(log.failures, FailuresOf(inner), FailuresOf(SelfOf(v)), FailuresOf(rest));
      Teardown(values[1..], Attempt(v, log1))
  }

  /** `if hasattr(v, "__teardown__"): v.__teardown__()` inside the `try`:
      a value with `__teardown__` is logged once and, when its teardown
      raises, adds exactly its exception. */
  function Attempt(v: Value, log: Log): (r: Log)
    ensures r == Log(log.attempts + SelfOf(v), log.failures + FailuresOf(SelfOf(v)))
  {
    if !v.VTearable? then
      assert log.attempts + SelfOf(v) == log.attempts;
      assert log.failures + FailuresOf(SelfOf(v)) == log.failures;
      log
    else
      assert FailuresOf(SelfOf(v)) == (if v.raises then [TeardownError(v)] else []) + FailuresOf([]);
      if v.raises then Log(log.attempts + [v], log.failures + [TeardownError(v)])
      else Log(log.attempts + [v], log.failures)
  }

  /** Reference definition: the tearables a walk reaches, members of a
      collection before the collection itself, values left to right. */
  function Tearables(values: seq<Value>): (r: seq<Value>)
    ensures forall i :: 0 <= i < |r| ==> r[i].VTearable?
    decreases values
  {
    if |values| == 0 then []
    else
      var v := values[0];
      (if IsCollection(v) then Tearables(v.elems) else [])
      + (if v.VTearable? then [v] else [])
      + Tearables(values[1..])
  }

  /** The exceptions the raising tearables among `ts` produce, in order. */
  function FailuresOf(ts: seq<Value>): (r: seq<Error>)
    requires forall i :: 0 <= i < |ts| ==> ts[i].VTearable?
  {
    if |ts| == 0 then []
    else (if ts[0].raises then [TeardownError(ts[0])] else []) + FailuresOf(ts[1..])
  }

  lemma {:induction false} FailuresOfAppend(a: seq<Value>, b: seq<Value>)
    requires forall i :: 0 <= i < |a| ==> a[i].VTearable?
    requires forall i :: 0 <= i < |b| ==> b[i].VTearable?
    ensures FailuresOf(a + b) == FailuresOf(a) + FailuresOf(b)
  {
    if |a| == 0 {
      assert a + b == b;
    } else {
      assert (a + b)[0] == a[0];
      assert (a + b)[1..] == a[1..] + b;
      FailuresOfAppend(a[1..], b);
      var h := if a[0].raises then [TeardownError(a[0])] else [];
      assert FailuresOf(a + b) == h + FailuresOf(a[1..] + b);
      assert FailuresOf(a) == h + FailuresOf(a[1..]);
    }
  }

  /** The value itself, when it has `__teardown__`. */
  function SelfOf(v: Value): (r: seq<Value>)
    ensures forall i :: 0 <= i < |r| ==> r[i].VTearable?
  {
    if v.VTearable? then [v] else []
  }

  /** The failures of three consecutive stretches of a walk are the
      failures of the whole. */
  lemma FailuresOf3(a: seq<Value>, b: seq<Value>, c: seq<Value>)
    requires forall i :: 0 <= i < |a| ==> a[i].VTearable?
    requires forall i :: 0 <= i < |b| ==> b[i].VTearable?
    requires forall i :: 0 <= i < |c| ==> c[i].VTearable?
    ensures forall i :: 0 <= i < |a + b + c| ==> (a + b + c)[i].VTearable?
    ensures FailuresOf(a + b + c) == FailuresOf(a) + FailuresOf(b) + FailuresOf(c)
  {
    TearablesAppend(a, b);
    TearablesAppend(a + b, c);
    FailuresOfAppend(a, b);
    FailuresOfAppend(a + b, c);
  }

  lemma TearablesAppend(a: seq<Value>, b: seq<Value>)
    requires forall i :: 0 <= i < |a| ==> a[i].VTearable?
    requires forall i :: 0 <= i < |b| ==> b[i].VTearable?
    ensures forall i :: 0 <= i < |a + b| ==> (a + b)[i].VTearable?
  {
    forall i | 0 <= i < |a + b| ensures (a + b)[i].VTearable? {
      if i < |a| { assert (a + b)[i] == a[i]; } else { assert (a + b)[i] == b[i - |a|]; }
    }
  }

  lemma Assoc3<T>(x: seq<T>, a: seq<T>, b: seq<T>, c: seq<T>)
    ensures x + a + b + c == x + (a + b + c)
  {
  }

  /** A tearable is reached when it is one of the values or is reached
      inside one of their tuples, lists or sets. */
  predicate Reaches(values: seq<Value>, t: Value)
    decreases values
  {
    exists i :: 0 <= i < |values| &&
      ((values[i] == t && t.VTearable?) || (IsCollection(values[i]) && Reaches(values[i].elems, t)))
  }

  /** The reference walk holds exactly the reachable tearables. */
  lemma {:induction false} TearablesReach(values: seq<Value>, t: Value)
    ensures t in Tearables(values) <==> Reaches(values, t)
    decreases values
  {
    if |values| > 0 {
      var v := values[0];
      if IsCollection(v) {
        TearablesReach(v.elems, t);
      }
      TearablesReach(values[1..], t);
      if Reaches(values[1..], t) {
        var i :| 0 <= i < |values[1..]| &&
          ((values[1..][i] == t && t.VTearable?) || (IsCollection(values[1..][i]) && Reaches(values[1..][i].elems, t)));
        assert values[i + 1] == values[1..][i];
      }
      if Reaches(values, t) {
        var i :| 0 <= i < |values| &&
          ((values[i] == t && t.VTearable?) || (IsCollection(values[i]) && Reaches(values[i].elems, t)));
        if i > 0 {
          assert values[1..][i - 1] == values[i];
        }
      }
    }
  }

  /** A tearable held only as a dict value is never torn down. */
  lemma DictsNotVisited(entries: seq<(Value, Value)>)
    ensures Tearables([VDict(entries)]) == []
  {
  }

  // ---------------------------------------------------------------------
  // provide

  /** The wrapped function: given the positional arguments and the resolved
      keyword arguments, it returns a value or raises. */
  type Body = (seq<Value>, seq<(string, Value)>) -> Outcome

  datatype Outcome = Returned(value: Value) | Threw(error: Error)

  datatype Call = Call(args: seq<Value>, kwargs: seq<(string, Value)>)

  /** One call of the decorated function: how the wrapped function was
      called (if it was), which objects were torn down, and the outcome. */
  datatype Run = Run(called: Option<Call>, torndown: seq<Value>, outcome: Outcome)

  /** The `finally` block once the specs are resolved: tear the resolved
      values down, and let collected failures replace the outcome. */
  function Finish(resolved: seq<(string, Value)>, args: seq<Value>, outcome: Outcome): (r: Run)
    ensures r.called == Some(Call(args, resolved))
    ensures r.torndown == Tearables(ValuesOf(resolved))
    ensures FailuresOf(r.torndown) == [] ==> r.outcome == outcome
    ensures FailuresOf(r.torndown) != [] ==> r.outcome == Threw(Aggregate(FailuresOf(r.torndown)))
  {
    var log := Teardown(ValuesOf(resolved), Log([], []));
    assert log.attempts == Tearables(ValuesOf(resolved));
    assert log.failures == FailuresOf(Tearables(ValuesOf(resolved)));
    var outcome' := if |log.failures| > 0 then Threw(Aggregate(log.failures)) else outcome;
    Run(Some(Call(args, resolved)), log.attempts, outcome')
  }

  /** `provide(**specs)(f)(*args, **kwds)` with the `finally` block guarded
      so that a resolution error propagates unchanged: the wrapped function
      is not called and nothing is torn down. */
  function Provide(o: Oracle, specs: seq<(string, Spec)>, f: Body, args: seq<Value>,
                   kwds: seq<(string, Spec)>, st: St): (r: Run)
    requires Distinct(KeysOf(specs)) && Distinct(KeysOf(kwds))
    ensures r.called.Some? <==> ResolveEntries(o, Merge(specs, kwds), st).Ok?
    ensures r.called.None? ==>
      r.torndown == [] && r.outcome == Threw(ResolveEntries(o, Merge(specs, kwds), st).error)
    ensures r.called.Some? ==>
      && r.called.value.args == args
      && r.called.value.kwargs == ResolveEntries(o, Merge(specs, kwds), st).value.0
      && KeysOf(r.called.value.kwargs) == KeysOf(specs) + NewKeys(KeysOf(kwds), KeysOf(specs))
      && r.torndown == Tearables(ValuesOf(r.called.value.kwargs))
      && (FailuresOf(r.torndown) == [] ==> r.outcome == f(args, r.called.value.kwargs))
      && (FailuresOf(r.torndown) != [] ==> r.outcome == Threw(Aggregate(FailuresOf(r.torndown))))
  {
    MergeKeys(specs, kwds);
    match ResolveEntries(o, Merge(specs, kwds), st)
    case Err(e) => Run(None, [], Threw(e))
    case Ok((resolved, _)) => Finish(resolved, args, f(args, resolved))
  }

  /** The decorator as written: when a `resolve` raises inside the dict
      comprehension, `resolved_specs` is never bound, so the `finally` block
      raises `UnboundLocalError` in place of the resolution error. */
  function ProvideAsWritten(o: Oracle, specs: seq<(string, Spec)>, f: Body, args: seq<Value>,
                            kwds: seq<(string, Spec)>, st: St): (r: Run)
    requires Distinct(KeysOf(specs)) && Distinct(KeysOf(kwds))
    ensures ResolveEntries(o, Merge(specs, kwds), st).Ok? ==> r == Provide(o, specs, f, args, kwds, st)
    ensures ResolveEntries(o, Merge(specs, kwds), st).Err? ==>
      r.called.None? && r.torndown == [] &&
      r.outcome == Threw(UnboundLocal(ResolveEntries(o, Merge(specs, kwds), st).error))
  {
    match ResolveEntries(o, Merge(specs, kwds), st)
    case Err(e) => Run(None, [], Threw(UnboundLocal(e)))
    case Ok((resolved, _)) => Finish(resolved, args, f(args, resolved))
  }

  /** The discrepancy: a spec that raises while resolving. The corrected
      decorator reports the spec's own exception; the one as written hides
      it behind `UnboundLocalError`. */
  lemma ResolutionErrorMasked(o: Oracle, f: Body, st: St)
    ensures var specs := [("x", Failing("boom"))];
            && Provide(o, specs, f, [], [], st).outcome == Threw(Raised("boom"))
            && ProvideAsWritten(o, specs, f, [], [], st).outcome == Threw(UnboundLocal(Raised("boom")))
  {
    var specs := [("x", Failing("boom"))];
    assert KeysOf(specs) == ["x"];
    assert Merge(specs, []) == specs;
    assert ResolveEntries(o, specs, st) == Err(Raised("boom"));
  }

  /** Whatever spec raises, the as-written decorator never reports it. */
  lemma ResolutionErrorAlwaysMasked(o: Oracle, specs: seq<(string, Spec)>, f: Body, args: seq<Value>,
                                    kwds: seq<(string, Spec)>, st: St)
    requires Distinct(KeysOf(specs)) && Distinct(KeysOf(kwds))
    requires ResolveEntries(o, Merge(specs, kwds), st).Err?
    ensures ProvideAsWritten(o, specs, f, args, kwds, st).outcome
         != Provide(o, specs, f, args, kwds, st).outcome
  {
    var e := ResolveEntries(o, Merge(specs, kwds), st).error;
    assert e < UnboundLocal(e);
  }

  /** Two of three tearables raise during teardown, one of them passed as a
      keyword that overrides a spec: the function sees the override in the
      spec's position, all three are torn down in keyword order, and the
      call raises both failures together. */
  lemma FailingTeardowns(o: Oracle, f: Body, st: St, bad1: Value, bad2: Value, good: Value,
                         specs: seq<(string, Spec)>, kwds: seq<(string, Spec)>)
    requires bad1 == VTearable(1, "bad tearable 1", true)
    requires bad2 == VTearable(2, "bad tearable 2", true)
    requires good == VTearable(3, "good tearable", false)
    requires specs == [("arg1", Lit(bad1)), ("arg2", Lit(VStr("to override"))), ("arg3", Lit(good))]
    requires kwds == [("arg2", Lit(bad2))]
    ensures Distinct(KeysOf(specs)) && Distinct(KeysOf(kwds))
    ensures var r := Provide(o, specs, f, [], kwds, st);
            && r.called == Some(Call([], [("arg1", bad1), ("arg2", bad2), ("arg3", good)]))
            && r.torndown == [bad1, bad2, good]
            && r.outcome == Threw(Aggregate([TeardownError(bad1), TeardownError(bad2)]))
  {
    var merged := [("arg1", Lit(bad1)), ("arg2", Lit(bad2)), ("arg3", Lit(good))];
    var resolved := [("arg1", bad1), ("arg2", bad2), ("arg3", good)];
    OverrideInPlace(specs, kwds, merged);
    ResolveLiterals(o, merged, resolved, st);
    assert ValuesOf(resolved) == [bad1, bad2, good];
    TeardownOrder(bad1, bad2, good);
    ProvideCalls(o, specs, f, [], kwds, st, resolved, st);
  }

  /** Once every merged entry has resolved, `provide` is the call followed
      by the teardown of what was resolved. */
  lemma ProvideCalls(o: Oracle, specs: seq<(string, Spec)>, f: Body, args: seq<Value>,
                     kwds: seq<(string, Spec)>, st: St, resolved: seq<(string, Value)>, st': St)
    requires Distinct(KeysOf(specs)) && Distinct(KeysOf(kwds))
    requires ResolveEntries(o, Merge(specs, kwds), st) == Ok((resolved, st'))
    ensures Provide(o, specs, f, args, kwds, st) == Finish(resolved, args, f(args, resolved))
  {
  }

  lemma OverrideInPlace(specs: seq<(string, Spec)>, kwds: seq<(string, Spec)>, merged: seq<(string, Spec)>)
    requires |specs| == 3 && |kwds| == 1
    requires specs == [("arg1", specs[0].1), ("arg2", specs[1].1), ("arg3", specs[2].1)]
    requires kwds == [("arg2", kwds[0].1)]
    requires merged == specs[1 := kwds[0]]
    ensures Distinct(KeysOf(specs)) && Distinct(KeysOf(kwds))
    ensures Merge(specs, kwds) == merged
  {
    assert KeysOf(specs) == ["arg1", "arg2", "arg3"];
    assert KeysOf(kwds) == ["arg2"];
    assert IndexOfKey(specs, "arg2") == Some(1);
    assert Merge(specs, kwds) == Merge(merged, []);
  }

  lemma ResolveLiterals(o: Oracle, merged: seq<(string, Spec)>, resolved: seq<(string, Value)>, st: St)
    requires |merged| == |resolved| == 3
    requires forall i :: 0 <= i < 3 ==>
      merged[i].0 == resolved[i].0 && merged[i].1 == Lit(resolved[i].1)
    ensures ResolveEntries(o, merged, st) == Ok((resolved, st))
  {
    assert Resolve(o, merged[2].1, st) == Ok((resolved[2].1, st));
    assert Resolve(o, merged[1].1, st) == Ok((resolved[1].1, st));
    assert Resolve(o, merged[0].1, st) == Ok((resolved[0].1, st));
    assert merged[2..][1..] == [];
    assert [(resolved[2].0, resolved[2].1)] + [] == resolved[2..];
    assert ResolveEntries(o, merged[2..], st) == Ok((resolved[2..], st));
    assert merged[1..][1..] == merged[2..];
    assert [(resolved[1].0, resolved[1].1)] + resolved[2..] == resolved[1..];
    assert ResolveEntries(o, merged[1..], st) == Ok((resolved[1..], st));
    assert [(resolved[0].0, resolved[0].1)] + resolved[1..] == resolved;
  }

  lemma TeardownOrder(bad1: Value, bad2: Value, good: Value)
    requires bad1.VTearable? && bad1.raises
    requires bad2.VTearable? && bad2.raises
    requires good.VTearable? && !good.raises
    ensures Tearables([bad1, bad2, good]) == [bad1, bad2, good]
    ensures FailuresOf([bad1, bad2, good]) == [TeardownError(bad1), TeardownError(bad2)]
  {
    assert [bad1, bad2, good][1..] == [bad2, good];
    assert [bad2, good][1..] == [good];
    assert Tearables([good]) == [good];
    assert Tearables([bad2, good]) == [bad2, good];
    assert FailuresOf([good]) == [];
    assert FailuresOf([bad2, good]) == [TeardownError(bad2)];
  }

  /** A tearable inside a list is torn down when the call ends. */
  lemma TearableInList(o: Oracle, f: Body, st: St, cls: Class, specs: seq<(string, Spec)>)
    requires cls == TearableClass("tearable", false)
    requires specs == [("tearables", SList([New(cls)]))]
    ensures Distinct(KeysOf(specs))
    ensures var t := VTearable(st.nextId, "tearable", false);
            var r := Provide(o, specs, f, [], [], st);
            && r.called == Some(Call([], [("tearables", VList([t]))]))
            && r.torndown == [t]
            && r.outcome == f([], [("tearables", VList([t]))])
  {
    var t := VTearable(st.nextId, "tearable", false);
    var st1 := st.(nextId := st.nextId + 1);
    var resolved := [("tearables", VList([t]))];
    assert KeysOf(specs) == ["tearables"];
    assert Merge(specs, []) == specs;
    ListOfNew(o, cls, st);
    SingleEntry(o, "tearables", SList([New(cls)]), VList([t]), st, st1);
    ProvideCalls(o, specs, f, [], [], st, resolved, st1);
    assert ValuesOf(resolved) == [VList([t])];
    assert Tearables([t]) == [t];
    assert Tearables([VList([t])]) == [t];
    assert FailuresOf([t]) == [];
  }

  /** `[cls()]`: a list holding one fresh instance. */
  lemma ListOfNew(o: Oracle, cls: Class, st: St)
    ensures Resolve(o, SList([New(cls)]), st)
         == Ok((VList([Instantiate(cls, st.nextId)]), st.(nextId := st.nextId + 1)))
  {
    var st1 := st.(nextId := st.nextId + 1);
    var v := Instantiate(cls, st.nextId);
    ResolverFacts.ResolveNew(o, cls, st);
    ResolverFacts.ResolveSingleton(o, New(cls), v, st, st1);
    ResolverFacts.ResolveSeqSpec(o, [New(cls)], [v], st, st1);
  }

  /** A single keyword spec resolves to a single entry under its name. */
  lemma SingleEntry(o: Oracle, k: string, s: Spec, v: Value, st: St, st': St)
    requires Resolve(o, s, st) == Ok((v, st'))
    ensures ResolveEntries(o, [(k, s)], st) == Ok(([(k, v)], st'))
  {
    var entries := [(k, s)];
    assert entries[1..] == [];
    assert ResolveEntries(o, entries[1..], st') == Ok(([], st'));
    assert [(k, v)] + [] == [(k, v)];
  }
}
