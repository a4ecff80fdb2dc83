/** Evenly spaced points. */
module Grid {
  /** `t` is one of origin, origin + ms, origin + 2 * ms, ... */
  predicate OnGrid(origin: int, ms: int, t: int)
    requires ms > 0
  {
    t >= origin && (t - origin) % ms == 0
  }

  lemma GridPoint(origin: int, ms: int, k: int)
    requires ms > 0 && k >= 0
    ensures OnGrid(origin, ms, origin + k * ms)
  {
    assert k * ms >= 0;
    MultipleMod(k, ms);
  }

  lemma Multiples(k: int, ms: int)
    requires ms > 0
    ensures (k >= 1 ==> k * ms >= ms) && (k >= 0 ==> k * ms >= 0) && (k <= -1 ==> k * ms <= -ms)
  {}

  lemma MultipleMod(k: int, ms: int)
    requires ms > 0
    ensures (k * ms) % ms == 0 && (k * ms) / ms == k
  {
    var q := (k * ms) / ms;
    var r := (k * ms) % ms;
    assert (k - q) * ms == r;
    Multiples(k - q, ms);
  }

  lemma GridIndex(origin: int, ms: int, t: int) returns (k: int)
    requires ms > 0 && OnGrid(origin, ms, t)
    ensures k >= 0 && t == origin + k * ms
  {
    k := (t - origin) / ms;
  }

  lemma GridShift(origin: int, ms: int, a: int, t: int)
    requires ms > 0 && OnGrid(origin, ms, a) && OnGrid(a, ms, t)
    ensures OnGrid(origin, ms, t)
  {
    var i := GridIndex(origin, ms, a);
    var j := GridIndex(a, ms, t);
    assert t == origin + (i + j) * ms;
    assert (i + j) * ms == i * ms + j * ms;
    GridPoint(origin, ms, i + j);
  }

  /** Between two grid points less than one interval apart there is none. */
  lemma GridGap(origin: int, ms: int, t: int, g: int, floor: int)
    requires ms > 0 && OnGrid(origin, ms, t) && OnGrid(origin, ms, g) && t - ms < floor <= g
    ensures t <= g
  {
    var i := GridIndex(origin, ms, t);
    var j := GridIndex(origin, ms, g);
    assert (j - i) * ms == j * ms - i * ms;
    Multiples(j - i, ms);
  }
}
