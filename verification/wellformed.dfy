/** Resolution never produces a value Python could not hold: when every
    literal inside a spec is well formed (sets of distinct hashable members,
    dicts with distinct hashable keys), so is the value it resolves to. With
    ResolverFacts.ResolveQuote this is why a combinator's result needs no
    second `resolve`: resolving a well-formed value returns it unchanged. */
module WellFormedness {
  import opened Values
  import opened Rand
  import opened Specs
  import opened Resolver
  import opened ResolverFacts

  /** Every literal the spec carries is a well-formed value. */
  predicate LitsWellFormed(s: Spec)
    decreases s
  {
    match s
    case Lit(v) => WellFormed(v)
    case STuple(items) => forall i :: 0 <= i < |items| ==> LitsWellFormed(items[i])
    case SList(items) => forall i :: 0 <= i < |items| ==> LitsWellFormed(items[i])
    case SSet(items) => forall i :: 0 <= i < |items| ==> LitsWellFormed(items[i])
    case SDict(entries) =>
      forall i :: 0 <= i < |entries| ==> LitsWellFormed(entries[i].0) && LitsWellFormed(entries[i].1)
    case Thunk(t) => LitsWellFormed(t)
    case Between(x, y) => LitsWellFormed(x) && LitsWellFormed(y)
    case Choice(elems) => forall i :: 0 <= i < |elems| ==> LitsWellFormed(elems[i])
    case Sample(elems, k) =>
      LitsWellFormed(k) && forall i :: 0 <= i < |elems| ==> LitsWellFormed(elems[i])
    case Choices(elems, k) =>
      LitsWellFormed(k) && forall i :: 0 <= i < |elems| ==> LitsWellFormed(elems[i])
    case _ => true
  }

  predicate AllLitsWellFormed(items: seq<Spec>) {
    forall i :: 0 <= i < |items| ==> LitsWellFormed(items[i])
  }

  predicate AllWellFormed(vs: seq<Value>) {
    forall i :: 0 <= i < |vs| ==> WellFormed(vs[i])
  }

  /** The members of a well-formed set. */
  predicate MembersWellFormed(vs: seq<Value>) {
    Distinct(vs) && forall i :: 0 <= i < |vs| ==> Hashable(vs[i]) && WellFormed(vs[i])
  }

  /** The entries of a well-formed dict. */
  predicate EntriesWellFormed(es: seq<(Value, Value)>) {
    && Distinct(KeysOf(es))
    && forall i :: 0 <= i < |es| ==> Hashable(es[i].0) && WellFormed(es[i].0) && WellFormed(es[i].1)
  }

  // ---------------------------------------------------------------------
  // Containers

  /** Adding a well-formed hashable member keeps a set well formed. */
  lemma SetAddWellFormed(acc: seq<Value>, x: Value)
    requires MembersWellFormed(acc) && Hashable(x) && WellFormed(x)
    ensures MembersWellFormed(SetAdd(acc, x))
  {
    var r := SetAdd(acc, x);
    forall i | 0 <= i < |r| ensures Hashable(r[i]) && WellFormed(r[i]) {
      if r[i] != x {
        assert r[i] in acc;
        var j :| 0 <= j < |acc| && acc[j] == r[i];
      }
    }
  }

  /** Storing a well-formed pair under a hashable key keeps a dict well
      formed. */
  lemma DictPutWellFormed(es: seq<(Value, Value)>, k: Value, v: Value)
    requires EntriesWellFormed(es) && Hashable(k) && WellFormed(k) && WellFormed(v)
    ensures EntriesWellFormed(DictPut(es, k, v))
  {
    var r := DictPut(es, k, v);
    match IndexOfKey(es, k)
    case Some(i) =>
      assert r == es[i := (k, v)];
    case None =>
      assert r == es + [(k, v)];
      assert forall j :: 0 <= j < |es| ==> r[j] == es[j];
  }

  /** A value drawn from a well-formed population is well formed: a
      string's one-character strings, a tuple's or list's elements, a
      dict's values. */
  lemma DrawnWellFormed(v: Value, pop: Value)
    requires WellFormed(pop) && Drawn(v, pop)
    ensures WellFormed(v)
  {
    if IsSequence(pop) && v in Items(pop) {
      var i :| 0 <= i < |Items(pop)| && Items(pop)[i] == v;
    } else {
      var i :| 0 <= i < |ValuesOf(pop.entries)| && ValuesOf(pop.entries)[i] == v;
    }
  }

  /** `sample` and `choices` from a well-formed population return a
      well-formed string, tuple or list. */
  lemma DrawAndCastWellFormed(o: Oracle, pop: Value, n: Value, withReplacement: bool, st: St)
    requires WellFormed(pop)
    ensures var r := DrawAndCast(o, pop, n, withReplacement, st);
            r.Ok? ==> WellFormed(r.value.0)
  {
    var d := if withReplacement then DrawChoices(o, st, pop, n) else DrawSample(o, st, pop, n);
    if d.Ok? {
      if !withReplacement {
        SampledFromItems(d.value.0, pop);
      }
      DrawsWellFormed(d.value.0, pop);
    }
  }

  /** Draws without replacement are members of the population. */
  lemma SampledFromItems(drawn: seq<Value>, pop: Value)
    requires IsSequence(pop) && multiset(drawn) <= multiset(Items(pop))
    ensures forall i :: 0 <= i < |drawn| ==> Drawn(drawn[i], pop)
  {
    forall i | 0 <= i < |drawn| ensures Drawn(drawn[i], pop) {
      assert drawn[i] in multiset(drawn);
    }
  }

  /** Draws from a well-formed population are well formed, and so is any
      tuple or list of them. */
  lemma DrawsWellFormed(drawn: seq<Value>, pop: Value)
    requires WellFormed(pop)
    requires forall i :: 0 <= i < |drawn| ==> Drawn(drawn[i], pop)
    ensures AllWellFormed(drawn)
    ensures WellFormed(VTuple(drawn)) && WellFormed(VList(drawn))
  {
    forall i | 0 <= i < |drawn| ensures WellFormed(drawn[i]) {
      DrawnWellFormed(drawn[i], pop);
    }
  }

  // ---------------------------------------------------------------------
  // Resolution

  lemma ResolveChoice(o: Oracle, spec: Spec, st: St)
    requires spec.Choice?
    ensures Resolve(o, spec, st) == RunChoice(o, spec.elems, st)
  {
  }

  lemma ResolveSample(o: Oracle, spec: Spec, st: St)
    requires spec.Sample?
    ensures Resolve(o, spec, st) == RunSampled(o, spec.elems, spec.k, false, st)
  {
  }

  lemma ResolveChoices(o: Oracle, spec: Spec, st: St)
    requires spec.Choices?
    ensures Resolve(o, spec, st) == RunSampled(o, spec.elems, spec.k, true, st)
  {
  }

  /** A spec whose literals are well formed resolves to a well-formed
      value. */
  lemma {:induction false} ResolveWellFormed(o: Oracle, spec: Spec, st: St)
    requires LitsWellFormed(spec)
    ensures var r := Resolve(o, spec, st);
            r.Ok? ==> WellFormed(r.value.0)
    decreases Size(spec), 2
  {
    var r := Resolve(o, spec, st);
    if spec.IsMarker() || spec.Failing? {
    } else if spec.STuple? || spec.SList? {
      SeqWellFormed(o, spec.items, st);
      var rs := ResolveSeq(o, spec.items, st);
      if rs.Ok? {
        ResolveSeqSpec(o, spec.items, rs.value.0, st, rs.value.1);
      }
    } else if spec.SSet? {
      SetWellFormed(o, spec.items, [], st);
      var rs := ResolveSet(o, spec.items, [], st);
      if rs.Ok? {
        ResolveSetSpec(o, spec.items, rs.value.0, st, rs.value.1);
      }
    } else if spec.SDict? {
      DictWellFormed(o, spec.entries, [], st);
      var rd := ResolveDict(o, spec.entries, [], st);
      if rd.Ok? {
        ResolveDictSpec(o, spec.entries, rd.value.0, st, rd.value.1);
      }
    } else if spec.Thunk? {
      ResolveThunk(o, spec.returned, st);
      ResolveWellFormed(o, spec.returned, st);
    } else if spec.New? {
      ResolveNew(o, spec.cls, st);
    } else if spec.Between? {
      ResolveBetween(o, spec, st);
    } else if spec.Choice? {
      ResolveChoice(o, spec, st);
      ChoiceWellFormed(o, spec.elems, st);
    } else if spec.Sample? {
      ResolveSample(o, spec, st);
      SampledWellFormed(o, spec.elems, spec.k, false, st);
    } else if spec.Choices? {
      ResolveChoices(o, spec, st);
      SampledWellFormed(o, spec.elems, spec.k, true, st);
    } else {
      ResolveLit(o, spec.v, st);
    }
  }

  lemma {:induction false} SeqWellFormed(o: Oracle, items: seq<Spec>, st: St)
    requires AllLitsWellFormed(items)
    ensures var r := ResolveSeq(o, items, st);
            r.Ok? ==> AllWellFormed(r.value.0)
    decreases SizeSeq(items), 0
  {
    if |items| > 0 {
      ResolveWellFormed(o, items[0], st);
      var r0 := Resolve(o, items[0], st);
      if r0.Ok? {
        SeqWellFormed(o, items[1..], r0.value.1);
        ResolveSeqStep(o, items, st, r0.value.0, r0.value.1);
        var rest := ResolveSeq(o, items[1..], r0.value.1);
        if rest.Ok? {
          AllWellFormedCons(r0.value.0, rest.value.0);
        }
      }
    }
  }

  lemma AllWellFormedCons(v: Value, vs: seq<Value>)
    requires WellFormed(v) && AllWellFormed(vs)
    ensures AllWellFormed([v] + vs)
  {
    assert forall i :: 1 <= i < |[v] + vs| ==> ([v] + vs)[i] == vs[i - 1];
  }

  /** One step of a tuple or list spec: after its first item resolves, the
      rest resolve from the state it left behind. */
  lemma ResolveSeqStep(o: Oracle, items: seq<Spec>, st: St, v: Value, st1: St)
    requires |items| > 0 && Resolve(o, items[0], st) == Ok((v, st1))
    ensures var rest := ResolveSeq(o, items[1..], st1);
            ResolveSeq(o, items, st) == if rest.Err? then Err(rest.error) else Ok(([v] + rest.value.0, rest.value.1))
  {
  }

  lemma {:induction false} SetWellFormed(o: Oracle, items: seq<Spec>, acc: seq<Value>, st: St)
    requires AllLitsWellFormed(items) && MembersWellFormed(acc)
    ensures var r := ResolveSet(o, items, acc, st);
            r.Ok? ==> MembersWellFormed(r.value.0)
    decreases SizeSeq(items), 0
  {
    if |items| > 0 {
      ResolveWellFormed(o, items[0], st);
      var r0 := Resolve(o, items[0], st);
      if r0.Ok? && Hashable(r0.value.0) {
        SetAddWellFormed(acc, r0.value.0);
        var acc' := SetAdd(acc, r0.value.0);
        assert ResolveSet(o, items, acc, st) == ResolveSet(o, items[1..], acc', r0.value.1);
        SetWellFormed(o, items[1..], acc', r0.value.1);
      }
    }
  }

  lemma {:induction false} DictWellFormed(o: Oracle, entries: seq<(Spec, Spec)>, acc: seq<(Value, Value)>, st: St)
    requires forall i :: 0 <= i < |entries| ==> LitsWellFormed(entries[i].0) && LitsWellFormed(entries[i].1)
    requires EntriesWellFormed(acc)
    ensures var r := ResolveDict(o, entries, acc, st);
            r.Ok? ==> EntriesWellFormed(r.value.0)
    decreases SizeEntries(entries), 0
  {
    if |entries| > 0 {
      ResolveWellFormed(o, entries[0].0, st);
      var rk := Resolve(o, entries[0].0, st);
      if rk.Ok? {
        ResolveWellFormed(o, entries[0].1, rk.value.1);
        var rv := Resolve(o, entries[0].1, rk.value.1);
        if rv.Ok? && Hashable(rk.value.0) {
          DictPutWellFormed(acc, rk.value.0, rv.value.0);
          var acc' := DictPut(acc, rk.value.0, rv.value.0);
          ResolveDictStep(o, entries, acc, st, rk.value.0, rk.value.1, rv.value.0, rv.value.1);
          DictWellFormed(o, entries[1..], acc', rv.value.1);
        }
      }
    }
  }

  lemma {:induction false} PopulationWellFormed(o: Oracle, elems: seq<Spec>, st: St)
    requires AllLitsWellFormed(elems)
    ensures var r := ResolvePopulation(o, elems, st);
            r.Ok? ==> WellFormed(r.value.0)
    decreases 2 + SizeSeq(elems), 0
  {
    if |elems| == 1 {
      ResolveWellFormed(o, elems[0], st);
    } else if |elems| > 1 {
      ResolveWellFormed(o, STuple(elems), st);
    }
  }

  lemma {:induction false} ChoiceWellFormed(o: Oracle, elems: seq<Spec>, st: St)
    requires AllLitsWellFormed(elems)
    ensures var r := RunChoice(o, elems, st);
            r.Ok? ==> WellFormed(r.value.0)
    decreases Size(Choice(elems)), 1
  {
    PopulationWellFormed(o, elems, st);
    var rp := ResolvePopulation(o, elems, st);
    if rp.Ok? {
      var r := DrawChoice(o, rp.value.1, rp.value.0);
      if r.Ok? {
        DrawnWellFormed(r.value.0, rp.value.0);
      }
    }
  }

  lemma {:induction false} SampledWellFormed(o: Oracle, elems: seq<Spec>, k: Spec, withReplacement: bool, st: St)
    requires AllLitsWellFormed(elems)
    ensures var r := RunSampled(o, elems, k, withReplacement, st);
            r.Ok? ==> WellFormed(r.value.0)
    decreases 2 + SizeSeq(elems) + Size(k), 1
  {
    PopulationWellFormed(o, elems, st);
    SampledSteps(o, elems, k, withReplacement, st);
    var rp := ResolvePopulation(o, elems, st);
    if rp.Ok? {
      var rk := ResolveCount(o, k, rp.value.0, rp.value.1);
      if rk.Ok? {
        DrawAndCastWellFormed(o, rp.value.0, rk.value.0, withReplacement, rk.value.1);
      }
    }
  }

  /** Resolving a resolved value a second time, as `resolve(spec())` does
      with what a combinator returns, gives the same value back and draws
      nothing. */
  lemma ResolveAgain(o: Oracle, spec: Spec, st: St, v: Value, st1: St)
    requires LitsWellFormed(spec)
    requires Resolve(o, spec, st) == Ok((v, st1))
    ensures WellFormed(v)
    ensures Resolve(o, Quote(v), st1) == Ok((v, st1))
  {
    ResolveWellFormed(o, spec, st);
    ResolveQuote(o, v, st1);
  }
}
