/** Properties of `resolve` that relate several resolutions: literals pass
    through unchanged, thunk chains unwind, sequences resolve element by
    element in order, sets collapse duplicates, and each combinator keeps
    its promise about the values it draws from. */
module ResolverFacts {
  import opened Values
  import opened Rand
  import opened Specs
  import opened Resolver

  // ---------------------------------------------------------------------
  // Literals

  /** The spec Python sees when a value is passed as a spec: its tuples,
      lists, sets and dicts are container specs, everything else a literal. */
  function Quote(v: Value): Spec {
    match v
    case VTuple(elems) => STuple(QuoteSeq(elems))
    case VList(elems) => SList(QuoteSeq(elems))
    case VSet(elems) => SSet(QuoteSeq(elems))
    case VDict(entries) => SDict(QuoteEntries(entries))
    case _ => Lit(v)
  }

  function QuoteSeq(vs: seq<Value>): (r: seq<Spec>)
    ensures |r| == |vs|
  {
    if |vs| == 0 then [] else [Quote(vs[0])] + QuoteSeq(vs[1..])
  }

  function QuoteEntries(entries: seq<(Value, Value)>): (r: seq<(Spec, Spec)>)
    ensures |r| == |entries|
  {
    if |entries| == 0 then [] else [QuoteEntry(entries[0])] + QuoteEntries(entries[1..])
  }

  function QuoteEntry(entry: (Value, Value)): (Spec, Spec) {
    (Quote(entry.0), Quote(entry.1))
  }

  /** Resolving a value returns it unchanged and consumes no randomness:
      containers are rebuilt into equal containers and every other literal
      passes through. This is why the value a combinator thunk returns is
      not resolved a second time in module Resolver. */
  lemma {:induction false} ResolveQuote(o: Oracle, v: Value, st: St)
    requires WellFormed(v)
    ensures Resolve(o, Quote(v), st) == Ok((v, st))
    decreases v, 1
  {
    if v.VTuple? || v.VList? {
      ResolveQuoteSeq(o, v.elems, st);
      ResolveSeqSpec(o, QuoteSeq(v.elems), v.elems, st, st);
    } else if v.VSet? {
      ResolveQuoteSet(o, v.elems, [], st);
      assert [] + v.elems == v.elems;
      ResolveSetSpec(o, QuoteSeq(v.elems), v.elems, st, st);
    } else if v.VDict? {
      ResolveQuoteDict(o, v.entries, [], st);
      assert [] + v.entries == v.entries;
      ResolveDictSpec(o, QuoteEntries(v.entries), v.entries, st, st);
    } else {
      assert Quote(v) == Lit(v);
    }
  }

  /** A tuple or list spec whose items resolve to `vs`. */
  lemma ResolveSeqSpec(o: Oracle, items: seq<Spec>, vs: seq<Value>, st: St, st': St)
    requires ResolveSeq(o, items, st) == Ok((vs, st'))
    ensures Resolve(o, STuple(items), st) == Ok((VTuple(vs), st'))
    ensures Resolve(o, SList(items), st) == Ok((VList(vs), st'))
  {
  }

  /** A one-item tuple or list spec resolves its item. */
  lemma ResolveSingleton(o: Oracle, s: Spec, v: Value, st: St, st': St)
    requires Resolve(o, s, st) == Ok((v, st'))
    ensures ResolveSeq(o, [s], st) == Ok(([v], st'))
  {
    assert [s][1..] == [];
    assert ResolveSeq(o, [s][1..], st') == Ok(([], st'));
    assert [v] + [] == [v];
  }

  /** A set spec whose items collapse to `vs`. */
  lemma ResolveSetSpec(o: Oracle, items: seq<Spec>, vs: seq<Value>, st: St, st': St)
    requires ResolveSet(o, items, [], st) == Ok((vs, st'))
    ensures Resolve(o, SSet(items), st) == Ok((VSet(vs), st'))
  {
  }

  /** A dict spec whose entries resolve to `es`. */
  lemma ResolveDictSpec(o: Oracle, entries: seq<(Spec, Spec)>, es: seq<(Value, Value)>, st: St, st': St)
    requires ResolveDict(o, entries, [], st) == Ok((es, st'))
    ensures Resolve(o, SDict(entries), st) == Ok((VDict(es), st'))
  {
  }

  lemma {:induction false} ResolveQuoteSeq(o: Oracle, vs: seq<Value>, st: St)
    requires forall i :: 0 <= i < |vs| ==> WellFormed(vs[i])
    ensures ResolveSeq(o, QuoteSeq(vs), st) == Ok((vs, st))
    decreases vs, 0
  {
    if |vs| > 0 {
      ResolveQuote(o, vs[0], st);
      ResolveQuoteSeq(o, vs[1..], st);
      assert QuoteSeq(vs)[0] == Quote(vs[0]);
      assert QuoteSeq(vs)[1..] == QuoteSeq(vs[1..]);
      assert [vs[0]] + vs[1..] == vs;
    }
  }

  lemma {:induction false} ResolveQuoteSet(o: Oracle, vs: seq<Value>, acc: seq<Value>, st: St)
    requires Distinct(acc) && forall i :: 0 <= i < |acc| ==> Hashable(acc[i])
    requires Distinct(acc + vs)
    requires forall i :: 0 <= i < |acc + vs| ==> Hashable((acc + vs)[i])
    requires forall i :: 0 <= i < |vs| ==> WellFormed(vs[i])
    ensures ResolveSet(o, QuoteSeq(vs), acc, st) == Ok((acc + vs, st))
    decreases vs, 0
  {
    if |vs| > 0 {
      ResolveQuote(o, vs[0], st);
      assert QuoteSeq(vs)[0] == Quote(vs[0]);
      assert QuoteSeq(vs)[1..] == QuoteSeq(vs[1..]);
      assert (acc + vs)[|acc|] == vs[0];
      assert vs[0] !in acc by {
        forall i | 0 <= i < |acc| ensures acc[i] != vs[0] {
          assert (acc + vs)[i] == acc[i];
        }
      }
      assert SetAdd(acc, vs[0]) == acc + [vs[0]];
      assert (acc + [vs[0]]) + vs[1..] == acc + vs;
      ResolveQuoteSet(o, vs[1..], acc + [vs[0]], st);
    } else {
      assert acc + vs == acc;
    }
  }

  lemma {:induction false} ResolveQuoteDict(o: Oracle, es: seq<(Value, Value)>, acc: seq<(Value, Value)>, st: St)
    requires Distinct(KeysOf(acc)) && Distinct(KeysOf(acc + es))
    requires forall i :: 0 <= i < |es| ==>
      Hashable(es[i].0) && WellFormed(es[i].0) && WellFormed(es[i].1)
    ensures ResolveDict(o, QuoteEntries(es), acc, st) == Ok((acc + es, st))
    decreases es, 0
  {
    if |es| > 0 {
      var e := es[0];
      ResolveQuoteEntry(o, e, st);
      assert QuoteEntries(es)[0] == QuoteEntry(e);
      assert QuoteEntries(es)[1..] == QuoteEntries(es[1..]);
      assert e.0 !in KeysOf(acc) by {
        assert KeysOf(acc + es)[|acc|] == e.0;
        forall i | 0 <= i < |acc| ensures KeysOf(acc)[i] != e.0 {
          assert KeysOf(acc + es)[i] == KeysOf(acc)[i];
        }
      }
      assert DictPut(acc, e.0, e.1) == acc + [e];
      assert (acc + [e]) + es[1..] == acc + es;
      ResolveQuoteDict(o, es[1..], acc + [e], st);
    } else {
      assert acc + es == acc;
    }
  }

  lemma {:induction false} ResolveQuoteEntry(o: Oracle, e: (Value, Value), st: St)
    requires WellFormed(e.0) && WellFormed(e.1)
    ensures Resolve(o, QuoteEntry(e).0, st) == Ok((e.0, st))
    ensures Resolve(o, QuoteEntry(e).1, st) == Ok((e.1, st))
    decreases e, 0
  {
    ResolveQuote(o, e.0, st);
    ResolveQuote(o, e.1, st);
  }

  // ---------------------------------------------------------------------
  // Callables

  /** n zero-argument callables, each returning the next, ending in `s`. */
  function Chain(n: nat, s: Spec): Spec {
    if n == 0 then s else Chain(n - 1, Thunk(s))
  }

  /** A chain of thunks unwinds until a non-callable is reached: it resolves
      exactly as its innermost spec does. */
  lemma {:induction false} ResolveChain(o: Oracle, n: nat, s: Spec, st: St)
    ensures Resolve(o, Chain(n, s), st) == Resolve(o, s, st)
  {
    var f := (x: Spec) => Resolve(o, x, st);
    forall x: Spec ensures f(Thunk(x)) == f(x) {
      ResolveThunk(o, x, st);
    }
    ChainUnwinds(f, n, s);
  }

  /** Anything that sees through a single thunk sees through a chain. */
  lemma {:induction false} ChainUnwinds<R>(f: Spec -> R, n: nat, s: Spec)
    requires forall x :: f(Thunk(x)) == f(x)
    ensures f(Chain(n, s)) == f(s)
  {
    if n > 0 {
      ChainUnwinds(f, n - 1, Thunk(s));
    }
  }

  /** Calling a class gives a fresh instance and consumes one identity. */
  lemma ResolveNew(o: Oracle, cls: Class, st: St)
    ensures Resolve(o, New(cls), st) == Ok((Instantiate(cls, st.nextId), st.(nextId := st.nextId + 1)))
  {
  }

  lemma ResolveLit(o: Oracle, v: Value, st: St)
    ensures Resolve(o, Lit(v), st) == Ok((v, st))
  {
  }

  /** Calling a zero-argument callable and resolving what it returns. */
  lemma ResolveThunk(o: Oracle, s: Spec, st: St)
    ensures Resolve(o, Thunk(s), st) == Resolve(o, s, st)
  {
  }

  // ---------------------------------------------------------------------
  // Sequences

  /** Resolving a concatenation resolves the first part, then the second
      part from the state the first left behind. */
  lemma {:induction false} ResolveSeqAppend(o: Oracle, a: seq<Spec>, b: seq<Spec>, st: St)
    ensures ResolveSeq(o, a + b, st) ==
      match ResolveSeq(o, a, st)
      case Err(e) => Err(e)
      case Ok((va, st1)) =>
        match ResolveSeq(o, b, st1)
        case Err(e) => Err(e)
        case Ok((vb, st2)) => Ok((va + vb, st2))
  {
    if |a| == 0 {
      assert a + b == b;
      match ResolveSeq(o, b, st)
      case Err(_) =>
      case Ok((vb, _)) => assert [] + vb == vb;
    } else {
      assert (a + b)[0] == a[0];
      assert (a + b)[1..] == a[1..] + b;
      ResolveSeqAppend(o, a[1..], b, st);
      match Resolve(o, a[0], st)
      case Err(_) =>
      case Ok((v, st1)) =>
        ResolveSeqAppend(o, a[1..], b, st1);
        match ResolveSeq(o, a[1..], st1)
        case Err(_) =>
        case Ok((va, st2)) =>
          match ResolveSeq(o, b, st2)
          case Err(_) =>
          case Ok((vb, st3)) =>
            assert [v] + (va + vb) == ([v] + va) + vb;
    }
  }

  /** Element i of a resolved tuple or list is the resolution of spec i,
      started from the state the first i resolutions left behind. */
  lemma ResolveSeqElement(o: Oracle, items: seq<Spec>, st: St, i: nat)
    requires ResolveSeq(o, items, st).Ok? && i < |items|
    ensures ResolveSeq(o, items[..i], st).Ok?
    ensures var st1 := ResolveSeq(o, items[..i], st).value.1;
            Resolve(o, items[i], st1).Ok? &&
            Resolve(o, items[i], st1).value.0 == ResolveSeq(o, items, st).value.0[i]
  {
    var pre, rest := items[..i], items[i..];
    assert items == pre + rest;
    ResolveSeqAppend(o, pre, rest, st);
    var st1 := ResolveSeq(o, pre, st).value.1;
    assert |ResolveSeq(o, pre, st).value.0| == i;
    assert rest[0] == items[i];
  }

  // ---------------------------------------------------------------------
  // Sets

  /** Adding several members one at a time. */
  function AddAll(acc: seq<Value>, vs: seq<Value>): (r: seq<Value>)
    requires Distinct(acc)
    ensures Distinct(r)
    ensures forall x :: x in r <==> x in acc || x in vs
    ensures |r| <= |acc| + |vs|
    decreases |vs|
  {
    if |vs| == 0 then acc else AddAll(SetAdd(acc, vs[0]), vs[1..])
  }

  /** When the items resolve without error to hashable values, the set
      resolves to exactly those values with duplicates collapsed, in first
      occurrence order. */
  lemma {:induction false} ResolveSetContents(o: Oracle, items: seq<Spec>, acc: seq<Value>, st: St)
    requires Distinct(acc) && forall i :: 0 <= i < |acc| ==> Hashable(acc[i])
    requires ResolveSeq(o, items, st).Ok?
    requires var vs := ResolveSeq(o, items, st).value.0;
             forall i :: 0 <= i < |vs| ==> Hashable(vs[i])
    ensures var (vs, st1) := ResolveSeq(o, items, st).value;
            ResolveSet(o, items, acc, st) == Ok((AddAll(acc, vs), st1))
    decreases |items|
  {
    if |items| > 0 {
      var (v, st1) := Resolve(o, items[0], st).value;
      var (rest, _) := ResolveSeq(o, items[1..], st1).value;
      assert ResolveSeq(o, items, st).value.0 == [v] + rest;
      assert Hashable(([v] + rest)[0]);
      assert forall i :: 0 <= i < |rest| ==> Hashable(rest[i]) by {
        forall i | 0 <= i < |rest| ensures Hashable(rest[i]) {
          assert rest[i] == ([v] + rest)[i + 1];
        }
      }
      ResolveSetContents(o, items[1..], SetAdd(acc, v), st1);
      assert ([v] + rest)[1..] == rest;
    }
  }

  /** The first item whose resolved value is unhashable ends the set
      display with `TypeError`, once every item before it has resolved to a
      hashable value; the items after it are never resolved. */
  lemma {:induction false} ResolveSetUnhashable(o: Oracle, items: seq<Spec>, acc: seq<Value>, st: St, j: nat,
                                                vs: seq<Value>, st1: St, v: Value, st2: St)
    requires Distinct(acc) && forall i :: 0 <= i < |acc| ==> Hashable(acc[i])
    requires j < |items|
    requires ResolveSeq(o, items[..j], st) == Ok((vs, st1))
    requires forall i :: 0 <= i < |vs| ==> Hashable(vs[i])
    requires Resolve(o, items[j], st1) == Ok((v, st2))
    requires !Hashable(v)
    ensures ResolveSet(o, items, acc, st) == Err(TypeError("unhashable type"))
    decreases j
  {
    if j == 0 {
      assert items[..0] == [];
    } else {
      var head := items[..j];
      assert head[0] == items[0] && head[1..] == items[1..][..j - 1];
      var (v0, s1) := Resolve(o, items[0], st).value;
      var (rest, _) := ResolveSeq(o, head[1..], s1).value;
      assert vs == [v0] + rest;
      assert Hashable(vs[0]);
      assert forall i :: 0 <= i < |rest| ==> Hashable(rest[i]) by {
        forall i | 0 <= i < |rest| ensures Hashable(rest[i]) {
          assert rest[i] == vs[i + 1];
        }
      }
      ResolveSetStep(o, items, acc, st, v0, s1);
      assert items[1..][j - 1] == items[j];
      ResolveSetUnhashable(o, items[1..], SetAdd(acc, v0), s1, j - 1, rest, st1, v, st2);
    }
  }

  /** One step of a set display: a first item resolving to a hashable value
      is added, and the rest is resolved into the result. */
  lemma ResolveSetStep(o: Oracle, items: seq<Spec>, acc: seq<Value>, st: St, v: Value, st1: St)
    requires |items| > 0 && Distinct(acc) && forall i :: 0 <= i < |acc| ==> Hashable(acc[i])
    requires Resolve(o, items[0], st) == Ok((v, st1))
    requires Hashable(v)
    ensures ResolveSet(o, items, acc, st) == ResolveSet(o, items[1..], SetAdd(acc, v), st1)
  {
  }

  // ---------------------------------------------------------------------
  // Dicts

  /** The specs a dict spec resolves, in the order it resolves them: each
      entry's key, then its value. */
  function Interleave(entries: seq<(Spec, Spec)>): (r: seq<Spec>)
    ensures |r| == 2 * |entries|
  {
    if |entries| == 0 then [] else [entries[0].0, entries[0].1] + Interleave(entries[1..])
  }

  /** Consecutive values taken two at a time as (key, value) pairs; an odd
      value left at the end pairs with nothing. */
  function Pairs(vs: seq<Value>): (r: seq<(Value, Value)>)
    decreases |vs|
  {
    if |vs| < 2 then [] else [(vs[0], vs[1])] + Pairs(vs[2..])
  }

  /** Every pair's key can be stored in a dict. */
  predicate KeysHashable(ps: seq<(Value, Value)>) {
    forall i :: 0 <= i < |ps| ==> Hashable(ps[i].0)
  }

  /** Storing several pairs one at a time with `d[k] = v`. */
  function PutAll(acc: seq<(Value, Value)>, ps: seq<(Value, Value)>): (r: seq<(Value, Value)>)
    requires Distinct(KeysOf(acc))
    ensures Distinct(KeysOf(r))
    decreases |ps|
  {
    if |ps| == 0 then acc else PutAll(DictPut(acc, ps[0].0, ps[0].1), ps[1..])
  }

  /** The value paired with k by the last pair that has key k. */
  function LastValue(ps: seq<(Value, Value)>, k: Value): (r: Option<Value>)
    ensures r.Some? <==> k in KeysOf(ps)
  {
    if |ps| == 0 then None
    else
      var later := LastValue(ps[1..], k);
      assert forall k' :: k' in KeysOf(ps) <==> k' == ps[0].0 || k' in KeysOf(ps[1..]) by {
        assert KeysOf(ps) == [ps[0].0] + KeysOf(ps[1..]);
      }
      if later.Some? then later
      else if ps[0].0 == k then Some(ps[0].1)
      else None
  }

  /** LastValue finds the pair no later pair overrides. */
  lemma {:induction false} LastValueAt(ps: seq<(Value, Value)>, k: Value, i: nat)
    requires i < |ps| && ps[i].0 == k
    requires forall j :: i < j < |ps| ==> ps[j].0 != k
    ensures LastValue(ps, k) == Some(ps[i].1)
  {
    if i == 0 {
      assert k !in KeysOf(ps[1..]) by {
        forall j | 0 <= j < |ps[1..]| ensures KeysOf(ps[1..])[j] != k {
          assert ps[1..][j] == ps[j + 1];
        }
      }
    } else {
      forall j | i - 1 < j < |ps[1..]| ensures ps[1..][j].0 != k {
        assert ps[1..][j] == ps[j + 1];
      }
      LastValueAt(ps[1..], k, i - 1);
    }
  }

  /** After storing the pairs, a key looks up the value of its last pair,
      and a key no pair mentions looks up what it did before. */
  lemma {:induction false} PutAllLookup(acc: seq<(Value, Value)>, ps: seq<(Value, Value)>, k: Value)
    requires Distinct(KeysOf(acc))
    ensures Lookup(PutAll(acc, ps), k) == if k in KeysOf(ps) then LastValue(ps, k) else Lookup(acc, k)
    decreases |ps|
  {
    if |ps| > 0 {
      var acc1 := DictPut(acc, ps[0].0, ps[0].1);
      LookupPut(acc, ps[0].0, ps[0].1, k);
      PutAllLookup(acc1, ps[1..], k);
      assert PutAll(acc, ps) == PutAll(acc1, ps[1..]);
    }
  }

  /** When the keys and values resolve without error and every key is
      hashable, the dict holds exactly the resolved pairs stored in spec
      order: `d[k] = v` for each, so a repeated key keeps its first position
      and takes its last value. */
  lemma {:induction false} ResolveDictContents(o: Oracle, entries: seq<(Spec, Spec)>, acc: seq<(Value, Value)>, st: St,
                                               vs: seq<Value>, st': St)
    requires Distinct(KeysOf(acc))
    requires ResolveSeq(o, Interleave(entries), st) == Ok((vs, st'))
    requires KeysHashable(Pairs(vs))
    ensures ResolveDict(o, entries, acc, st) == Ok((PutAll(acc, Pairs(vs)), st'))
    decreases |entries|
  {
    if |entries| > 0 {
      var st1, st2 := InterleaveHead(o, entries, st, vs, st');
      var k, v, rvs := vs[0], vs[1], vs[2..];
      PairsStep(vs);
      KeysHashableTail(Pairs(vs));
      ResolveDictStep(o, entries, acc, st, k, st1, v, st2);
      ResolveDictContents(o, entries[1..], DictPut(acc, k, v), st2, rvs, st');
    }
  }

  /** The first entry of a dict spec resolves its key and then its value,
      and the rest resolve after them. */
  lemma InterleaveHead(o: Oracle, entries: seq<(Spec, Spec)>, st: St, vs: seq<Value>, st': St)
    returns (st1: St, st2: St)
    requires |entries| > 0
    requires ResolveSeq(o, Interleave(entries), st) == Ok((vs, st'))
    ensures |vs| >= 2
    ensures Resolve(o, entries[0].0, st) == Ok((vs[0], st1))
    ensures Resolve(o, entries[0].1, st1) == Ok((vs[1], st2))
    ensures ResolveSeq(o, Interleave(entries[1..]), st2) == Ok((vs[2..], st'))
  {
    var e, rest := entries[0], entries[1..];
    assert Interleave(entries) == [e.0, e.1] + Interleave(rest);
    ResolveSeqAppend(o, [e.0, e.1], Interleave(rest), st);
    ResolveTwo(o, e.0, e.1, st);
    st1 := Resolve(o, e.0, st).value.1;
    st2 := Resolve(o, e.1, st1).value.1;
    var rvs := ResolveSeq(o, Interleave(rest), st2).value.0;
    assert vs == [vs[0], vs[1]] + rvs;
    assert vs[2..] == rvs;
  }

  /** Resolving a two-item sequence resolves the first item, then the
      second from the state the first left behind. */
  lemma ResolveTwo(o: Oracle, a: Spec, b: Spec, st: St)
    ensures var ra := Resolve(o, a, st);
            ResolveSeq(o, [a, b], st) ==
              if ra.Err? then Err(ra.error)
              else
                var rb := Resolve(o, b, ra.value.1);
                if rb.Err? then Err(rb.error) else Ok(([ra.value.0, rb.value.0], rb.value.1))
  {
    assert [a, b][0] == a && [a, b][1..] == [b];
    var ra := Resolve(o, a, st);
    if ra.Ok? {
      var rb := Resolve(o, b, ra.value.1);
      if rb.Ok? {
        ResolveSingleton(o, b, rb.value.0, ra.value.1, rb.value.1);
        assert [ra.value.0] + [rb.value.0] == [ra.value.0, rb.value.0];
      } else {
        assert ResolveSeq(o, [b], ra.value.1) == Err(rb.error);
      }
    }
  }

  /** The first two values form the first pair, and the rest pair up as
      they did on their own. */
  lemma PairsStep(vs: seq<Value>)
    requires |vs| >= 2
    ensures Pairs(vs)[0] == (vs[0], vs[1]) && Pairs(vs)[1..] == Pairs(vs[2..])
  {
  }

  lemma KeysHashableTail(ps: seq<(Value, Value)>)
    requires |ps| > 0 && KeysHashable(ps)
    ensures Hashable(ps[0].0) && KeysHashable(ps[1..])
  {
    forall i | 0 <= i < |ps[1..]| ensures Hashable(ps[1..][i].0) {
      assert ps[1..][i] == ps[i + 1];
    }
  }

  /** One step of a dict spec: after its first key and value resolve, with
      a hashable key, the rest is resolved into the dict with that pair
      stored. */
  lemma ResolveDictStep(o: Oracle, entries: seq<(Spec, Spec)>, acc: seq<(Value, Value)>, st: St,
                        k: Value, st1: St, v: Value, st2: St)
    requires |entries| > 0 && Distinct(KeysOf(acc))
    requires Resolve(o, entries[0].0, st) == Ok((k, st1))
    requires Resolve(o, entries[0].1, st1) == Ok((v, st2))
    requires Hashable(k)
    ensures ResolveDict(o, entries, acc, st) == ResolveDict(o, entries[1..], DictPut(acc, k, v), st2)
  {
  }

  /** The first entry whose resolved key is unhashable ends the dict
      display with `TypeError`, after its value has been resolved too, once
      every entry before it has resolved with a hashable key; the entries
      after it are never resolved. */
  lemma {:induction false} ResolveDictUnhashable(o: Oracle, entries: seq<(Spec, Spec)>, acc: seq<(Value, Value)>,
                                                 st: St, j: nat, vs: seq<Value>, st1: St,
                                                 k: Value, st2: St, v: Value, st3: St)
    requires Distinct(KeysOf(acc))
    requires j < |entries|
    requires ResolveSeq(o, Interleave(entries[..j]), st) == Ok((vs, st1))
    requires KeysHashable(Pairs(vs))
    requires Resolve(o, entries[j].0, st1) == Ok((k, st2))
    requires Resolve(o, entries[j].1, st2) == Ok((v, st3))
    requires !Hashable(k)
    ensures ResolveDict(o, entries, acc, st) == Err(TypeError("unhashable type"))
    decreases j
  {
    if j == 0 {
      assert entries[..0] == [];
    } else {
      var head := entries[..j];
      assert head[0] == entries[0] && head[1..] == entries[1..][..j - 1];
      var s1, s2 := InterleaveHead(o, head, st, vs, st1);
      PairsStep(vs);
      KeysHashableTail(Pairs(vs));
      ResolveDictStep(o, entries, acc, st, vs[0], s1, vs[1], s2);
      assert entries[1..][j - 1] == entries[j];
      ResolveDictUnhashable(o, entries[1..], DictPut(acc, vs[0], vs[1]), s2, j - 1, vs[2..], st1, k, st2, v, st3);
    }
  }

  /** A dict spec whose keys and values resolve, with hashable keys, to
      the pairs of `vs` resolves to those pairs stored in spec order; by
      PutAllFresh each resolved key then maps to the value resolved last
      for it. */
  lemma ResolveDictValue(o: Oracle, entries: seq<(Spec, Spec)>, st: St, vs: seq<Value>, st1: St)
    requires ResolveSeq(o, Interleave(entries), st) == Ok((vs, st1))
    requires KeysHashable(Pairs(vs))
    ensures Resolve(o, SDict(entries), st) == Ok((VDict(PutAll([], Pairs(vs))), st1))
  {
    var es := PutAll([], Pairs(vs));
    ResolveDictContents(o, entries, [], st, vs, st1);
    ResolveDictSpec(o, entries, es, st, st1);
  }

  /** `resolve(dict(key=str))`: a dict with the one key `"key"`, which maps
      to a string. */
  lemma DictOfStr(o: Oracle, entries: seq<(Spec, Spec)>, st: St)
    requires entries == [(Lit(VStr("key")), StrMarker)]
    ensures var r := Resolve(o, SDict(entries), st);
            && r.Ok? && r.value.0.VDict? && |r.value.0.entries| == 1
            && r.value.0.entries[0].0 == VStr("key") && r.value.0.entries[0].1.VStr?
  {
    var key := VStr("key");
    var rs := Resolve(o, StrMarker, st);
    var (s, st1) := rs.value;
    ResolveLit(o, key, st);
    ResolveTwo(o, Lit(key), StrMarker, st);
    assert Interleave(entries) == [Lit(key), StrMarker] + Interleave([]);
    assert ResolveSeq(o, Interleave(entries), st) == Ok(([key, s], st1));
    assert Pairs([key, s]) == [(key, s)] + Pairs([]);
    ResolveDictValue(o, entries, st, [key, s], st1);
    assert PutAll([], [(key, s)]) == PutAll(DictPut([], key, s), []);
  }

  /** Stored into an empty dict, the pairs map exactly their keys, each to
      its last value. */
  lemma PutAllFresh(ps: seq<(Value, Value)>)
    ensures forall k :: Lookup(PutAll([], ps), k) == LastValue(ps, k)
  {
    forall k ensures Lookup(PutAll([], ps), k) == LastValue(ps, k) {
      PutAllLookup([], ps, k);
    }
  }

  // ---------------------------------------------------------------------
  // Combinators

  /** `between(x, y)` resolves x, then y, each exactly once, and returns a
      value between the two resolved bounds, whichever order they came in;
      it is an integer exactly when both bounds are integers. */
  lemma BetweenContract(o: Oracle, x: Spec, y: Spec, st: St)
    ensures var r := Resolve(o, Between(x, y), st);
            var rx := Resolve(o, x, st);
            && (rx.Err? ==> r == Err(rx.error))
            && (rx.Ok? ==>
                  var ry := Resolve(o, y, rx.value.1);
                  && (ry.Err? ==> r == Err(ry.error))
                  && (ry.Ok? ==>
                        var (a, b) := (rx.value.0, ry.value.0);
                        && (r.Ok? <==> IsNumber(a) && IsNumber(b))
                        && (r.Ok? ==> (r.value.0.VInt? <==> IsIntLike(a) && IsIntLike(b)))
                        && (r.Ok? ==> Min(RealOf(a), RealOf(b)) <= RealOf(r.value.0)
                                      <= Max(RealOf(a), RealOf(b)))))
  {
    ResolveBetween(o, Between(x, y), st);
    var rx := Resolve(o, x, st);
    if rx.Err? {
      assert RunBetween(o, x, y, st) == Err(rx.error);
    } else {
      var ry := Resolve(o, y, rx.value.1);
      if ry.Err? {
        assert RunBetween(o, x, y, st) == Err(ry.error);
      } else {
        assert RunBetween(o, x, y, st) == DrawBetween(o, ry.value.1, rx.value.0, ry.value.0);
      }
    }
  }

  lemma ResolveBetween(o: Oracle, spec: Spec, st: St)
    requires spec.Between?
    ensures Resolve(o, spec, st) == RunBetween(o, spec.low, spec.high, st)
  {
  }

  /** `choice(*elems)` resolves its population once and returns one of its
      members; an empty sequence population raises. */
  lemma ChoiceContract(o: Oracle, elems: seq<Spec>, st: St)
    ensures var r := Resolve(o, Choice(elems), st);
            var rp := ResolvePopulation(o, elems, st);
            && (rp.Err? ==> r == Err(rp.error))
            && (rp.Ok? && r.Ok? ==> Drawn(r.value.0, rp.value.0))
            && (rp.Ok? && IsSequence(rp.value.0) ==> (r.Ok? <==> |Items(rp.value.0)| > 0))
  {
    assert Resolve(o, Choice(elems), st) == RunChoice(o, elems, st);
  }

  /** The draws inside a cast result: a string's characters, or a tuple's
      or list's elements. */
  function CastItems(v: Value): seq<Value>
  {
    if IsSequence(v) then Items(v) else []
  }

  /** `_cast` loses nothing: for draws taken from a sequence population the
      cast result has the population's kind and holds exactly the draws. */
  lemma CastKeepsDraws(drawn: seq<Value>, pop: Value)
    requires IsSequence(pop)
    requires forall i :: 0 <= i < |drawn| ==> drawn[i] in Items(pop)
    ensures Cast(drawn, pop).Ok?
    ensures CastItems(Cast(drawn, pop).value) == drawn
    ensures pop.VStr? ==> Cast(drawn, pop).value.VStr?
    ensures pop.VTuple? ==> Cast(drawn, pop).value.VTuple?
    ensures pop.VList? ==> Cast(drawn, pop).value.VList?
  {
    if pop.VStr? {
      forall i | 0 <= i < |drawn| ensures Drawn(drawn[i], pop) {}
      DrawnFromString(drawn, pop.s);
      var v := Cast(drawn, pop).value;
      forall i | 0 <= i < |drawn| ensures Items(v)[i] == drawn[i] {
        assert drawn[i].s == [drawn[i].s[0]];
      }
    }
  }

  /** What a `sample` run returns once population and count are known:
      exactly the count's number of draws, taken at distinct positions of a
      sequence population, in the population's kind. */
  lemma SampleDraws(o: Oracle, pop: Value, n: Value, st: St)
    ensures var r := DrawAndCast(o, pop, n, false, st);
            && (r.Ok? <==> IsSequence(pop) && IsIntLike(n) && 0 <= IntOf(n) <= |Items(pop)|)
            && (r.Ok? ==>
                  && |CastItems(r.value.0)| == IntOf(n)
                  && multiset(CastItems(r.value.0)) <= multiset(Items(pop))
                  && (pop.VStr? ==> r.value.0.VStr?)
                  && (pop.VTuple? ==> r.value.0.VTuple?)
                  && (pop.VList? ==> r.value.0.VList?))
  {
    var d := DrawSample(o, st, pop, n);
    if d.Ok? {
      var drawn := d.value.0;
      forall i | 0 <= i < |drawn| ensures drawn[i] in Items(pop) {
        assert drawn[i] in multiset(drawn);
      }
      CastKeepsDraws(drawn, pop);
    }
  }

  /** What a `choices` run returns once population and count are known:
      the count's number of members (none for a negative count), drawn with
      replacement, in the population's kind. */
  lemma ChoicesDraws(o: Oracle, pop: Value, n: Value, st: St)
    requires IsSequence(pop)
    ensures var r := DrawAndCast(o, pop, n, true, st);
            && (r.Ok? <==> IsIntLike(n) && (|Items(pop)| > 0 || IntOf(n) <= 0))
            && (r.Ok? ==>
                  && |CastItems(r.value.0)| == (if IntOf(n) < 0 then 0 else IntOf(n))
                  && (forall i :: 0 <= i < |CastItems(r.value.0)| ==>
                        CastItems(r.value.0)[i] in Items(pop))
                  && (pop.VStr? ==> r.value.0.VStr?)
                  && (pop.VTuple? ==> r.value.0.VTuple?)
                  && (pop.VList? ==> r.value.0.VList?))
  {
    var d := DrawChoices(o, st, pop, n);
    if d.Ok? {
      CastKeepsDraws(d.value.0, pop);
    }
  }

  /** A `sample` or `choices` run resolves the population first and the
      count second, each once, and draws only when both succeeded; an error
      at any step is the run's result. */
  lemma SampledSteps(o: Oracle, elems: seq<Spec>, k: Spec, withReplacement: bool, st: St)
    ensures var r := RunSampled(o, elems, k, withReplacement, st);
            var rp := ResolvePopulation(o, elems, st);
            && (rp.Err? ==> r == Err(rp.error))
            && (rp.Ok? ==>
                  var rk := ResolveCount(o, k, rp.value.0, rp.value.1);
                  && (rk.Err? ==> r == Err(rk.error))
                  && (rk.Ok? ==> r == DrawAndCast(o, rp.value.0, rk.value.0, withReplacement, rk.value.1)))
  {
  }
}
