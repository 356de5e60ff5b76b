/** The process-wide random source, made explicit. An oracle is an infinite
    stream of raw draws; the state records how many draws have been used and
    the next fresh object identity. Each primitive below consumes exactly one
    draw and promises only the range Python's `random` module promises. */
module Rand {

  type Oracle = nat -> nat

  datatype St = St(draws: nat, nextId: nat)

  /** `random()` returns a multiple of 2^-53 in [0, 1). */
  const Scale: nat := 0x20_0000_0000_0000

  function Draw(o: Oracle, st: St): (r: (nat, St))
    ensures r.1 == st.(draws := st.draws + 1)
  {
    (o(st.draws), st.(draws := st.draws + 1))
  }

  /** `_randbelow(n)`: an integer in [0, n). */
  function RandBelow(o: Oracle, st: St, n: nat): (r: (nat, St))
    requires n > 0
    ensures r.0 < n
    ensures r.1 == st.(draws := st.draws + 1)
  {
    var (x, st1) := Draw(o, st);
    (x % n, st1)
  }

  /** `randint(lo, hi)`: an integer in [lo, hi], both ends included. */
  function RandInt(o: Oracle, st: St, lo: int, hi: int): (r: (int, St))
    requires lo <= hi
    ensures lo <= r.0 <= hi
    ensures r.1 == st.(draws := st.draws + 1)
  {
    var (x, st1) := RandBelow(o, st, (hi - lo + 1) as nat);
    (lo + x, st1)
  }

  /** `random()`: a real in [0, 1). */
  function Random(o: Oracle, st: St): (r: (real, St))
    ensures 0.0 <= r.0 < 1.0
    ensures r.1 == st.(draws := st.draws + 1)
  {
    var (x, st1) := Draw(o, st);
    ((x % Scale) as real / Scale as real, st1)
  }

  function Min(a: real, b: real): real { if a <= b then a else b }
  function Max(a: real, b: real): real { if a <= b then b else a }

  lemma Ordered(a: real, b: real, f: real)
    requires a <= b && 0.0 <= f <= 1.0
    ensures a <= a + (b - a) * f <= b
  {
    var d := b - a;
    assert d * f >= 0.0;
    assert d * (1.0 - f) >= 0.0;
    assert d * f + d * (1.0 - f) == d;
  }

  lemma Ascending(a: real, b: real, f: real)
    requires a <= b && 0.0 <= f < 1.0
    ensures Min(a, b) <= a + (b - a) * f <= Max(a, b)
  {
    Ordered(a, b, f);
  }

  lemma Descending(a: real, b: real, f: real)
    requires b < a && 0.0 <= f < 1.0
    ensures Min(a, b) <= a + (b - a) * f <= Max(a, b)
  {
    Ordered(b, a, 1.0 - f);
    assert b + (a - b) * (1.0 - f) == a + (b - a) * f;
  }

  lemma ScaledBetween(a: real, b: real, f: real)
    requires 0.0 <= f < 1.0
    ensures Min(a, b) <= a + (b - a) * f <= Max(a, b)
  {
    if a <= b { Ascending(a, b, f); } else { Descending(a, b, f); }
  }

  /** `uniform(a, b)` is `a + (b - a) * random()`: it lies between the two
      bounds whichever order they are given in. */
  function Uniform(o: Oracle, st: St, a: real, b: real): (r: (real, St))
    ensures Min(a, b) <= r.0 <= Max(a, b)
    ensures r.1 == st.(draws := st.draws + 1)
  {
    var (f, st1) := Random(o, st);
    ScaledBetween(a, b, f);
    (a + (b - a) * f, st1)
  }

  /** `floor(random() * n)`, the index `random.choices` draws for a
      population of size n: an integer in [0, n), and 0 when n is 0. */
  function RandomIndex(o: Oracle, st: St, n: nat): (r: (nat, St))
    ensures n > 0 ==> r.0 < n
    ensures n == 0 ==> r.0 == 0
    ensures r.1 == st.(draws := st.draws + 1)
  {
    var (f, st1) := Random(o, st);
    var y := f * n as real;
    assert 0.0 <= y <= n as real && (n > 0 ==> y < n as real) by {
      Ordered(0.0, n as real, f);
      if n > 0 {
        assert f * n as real < 1.0 * n as real;
      }
    }
    (y.Floor as nat, st1)
  }

  /** The oracle is not degenerate: every integer in range is some oracle's
      `randint` result, so no range property above is vacuous. */
  lemma RandIntCovers(st: St, lo: int, hi: int, x: int)
    requires lo <= x <= hi
    ensures exists o: Oracle :: RandInt(o, st, lo, hi).0 == x
  {
    var o: Oracle := _ => (x - lo) as nat;
    assert RandInt(o, st, lo, hi).0 == x;
  }
}
