/** Row-major flat positions of a three-axis cube: time outermost, then
    gender, then age group. `t`, `g` and `a` are the sizes of the time,
    gender and age axes. */
module Layout {

  /** Number of cells of a t-by-g-by-a cube. */
  function Size(t: nat, g: nat, a: nat): nat { t * g * a }

  /** Flat position of cell (i, j, k): i*g*a + j*a + k, written in the
      factored form (i*g + j)*a + k. */
  function Pos(g: nat, a: nat, i: nat, j: nat, k: nat): nat { (i * g + j) * a + k }

  /** Position of cell (j, k) within one time slab. */
  function Offset(a: nat, j: nat, k: nat): nat { j * a + k }

  predicate InCube(t: nat, g: nat, a: nat, i: nat, j: nat, k: nat) { i < t && j < g && k < a }

  /** Lexicographic order on cells: the order in which the nested loops visit them. */
  predicate LexBefore(i: nat, j: nat, k: nat, i': nat, j': nat, k': nat) {
    i < i' || (i == i' && (j < j' || (j == j' && k < k')))
  }

  /** Inverse of Pos: the cell whose flat position is p. */
  function Cell(g: nat, a: nat, p: nat): (nat, nat, nat)
    requires g > 0 && a > 0
  {
    ((p / a) / g, (p / a) % g, p % a)
  }

  lemma MulStep(n: nat, m: nat)
    requires n > 0
    ensures (n - 1) * m + m == n * m
  {
  }

  /** Growing the time axis by one adds one g-by-a slab of cells. */
  lemma SizeStep(t: nat, g: nat, a: nat)
    requires t > 0
    ensures Size(t - 1, g, a) + g * a == Size(t, g, a)
  {
    assert (t - 1) * g + g == t * g;
    assert ((t - 1) * g) * a + g * a == ((t - 1) * g + g) * a;
  }

  /** The cells of time slab i start right after the i slabs before it. */
  lemma SlabOffset(g: nat, a: nat, i: nat, j: nat, k: nat)
    ensures Pos(g, a, i, j, k) == Size(i, g, a) + Offset(a, j, k)
  {
    assert (i * g + j) * a == i * g * a + j * a;
  }

  /** The position formula as the loop computes it, left to right. */
  lemma PosExpanded(g: nat, a: nat, i: nat, j: nat, k: nat)
    ensures i * g * a + j * a + k == Pos(g, a, i, j, k)
  {
    assert (i * g + j) * a == i * g * a + j * a;
  }

  lemma DivModUnique(q: nat, r: nat, d: nat)
    requires 0 <= r < d
    ensures (q * d + r) / d == q && (q * d + r) % d == r
  {
    var x := q * d + r;
    var q', r' := x / d, x % d;
    assert x == q' * d + r';
    if q' < q {
      MulAtLeast(q - q', d);
      assert false;
    } else if q' > q {
      MulAtLeast(q' - q, d);
      assert false;
    }
  }

  lemma MulAtLeast(m: nat, d: nat)
    requires m >= 1
    ensures m * d >= d
  {
    assert m * d == (m - 1) * d + d;
  }

  lemma MulMono(m: nat, m': nat, d: nat)
    requires m <= m'
    ensures m * d <= m' * d
  {
    assert m' * d == m * d + (m' - m) * d;
  }

  /** One step of the mixed-radix order: a smaller digit x wins whatever the
      lower digits r < d and r' are. */
  lemma StepLess(x: nat, y: nat, d: nat, r: nat, r': nat)
    requires x < y && r < d
    ensures x * d + r < y * d + r'
  {
    MulMono(x + 1, y, d);
    assert (x + 1) * d == x * d + d;
  }

  /** Every cell of the cube lands inside [0, t*g*a). */
  lemma PosInRange(t: nat, g: nat, a: nat, i: nat, j: nat, k: nat)
    requires InCube(t, g, a, i, j, k)
    ensures Pos(g, a, i, j, k) < Size(t, g, a)
  {
    StepLess(i, t, g, j, 0);
    StepLess(i * g + j, t * g, a, k, 0);
  }

  /** Cell undoes Pos, so Pos is injective on the cube. */
  lemma CellOfPos(g: nat, a: nat, i: nat, j: nat, k: nat)
    requires j < g && k < a
    ensures Cell(g, a, Pos(g, a, i, j, k)) == (i, j, k)
  {
    DivModUnique(i * g + j, k, a);
    DivModUnique(i, j, g);
  }

  /** Pos undoes Cell on [0, t*g*a), so Pos covers the whole range. */
  lemma PosOfCell(t: nat, g: nat, a: nat, p: nat)
    requires p < Size(t, g, a)
    ensures g > 0 && a > 0
    ensures var (i, j, k) := Cell(g, a, p);
      InCube(t, g, a, i, j, k) && Pos(g, a, i, j, k) == p
  {
    if g == 0 || a == 0 {
      assert false;
    }
    var q := p / a;
    assert p == q * a + p % a;
    if q >= t * g {
      MulMono(t * g, q, a);
      assert false;
    }
    assert q == (q / g) * g + q % g;
    if q / g >= t {
      MulMono(t, q / g, g);
      assert false;
    }
  }

  /** Pos is injective on the cube: distinct cells have distinct positions. */
  lemma PosInjective(g: nat, a: nat, i: nat, j: nat, k: nat, i': nat, j': nat, k': nat)
    requires j < g && k < a && j' < g && k' < a
    requires Pos(g, a, i, j, k) == Pos(g, a, i', j', k')
    ensures i == i' && j == j' && k == k'
  {
    CellOfPos(g, a, i, j, k);
    CellOfPos(g, a, i', j', k');
  }

  /** Positions follow the loop nesting order: a cell visited earlier has a
      smaller position, and conversely. */
  lemma PosOrder(g: nat, a: nat, i: nat, j: nat, k: nat, i': nat, j': nat, k': nat)
    requires j < g && k < a && j' < g && k' < a
    ensures LexBefore(i, j, k, i', j', k') <==> Pos(g, a, i, j, k) < Pos(g, a, i', j', k')
  {
    if LexBefore(i, j, k, i', j', k') {
      Before(g, a, i, j, k, i', j', k');
    } else if LexBefore(i', j', k', i, j, k) {
      Before(g, a, i', j', k', i, j, k);
    }
  }

  lemma Before(g: nat, a: nat, i: nat, j: nat, k: nat, i': nat, j': nat, k': nat)
    requires j < g && k < a && j' < g && k' < a
    requires LexBefore(i, j, k, i', j', k')
    ensures Pos(g, a, i, j, k) < Pos(g, a, i', j', k')
  {
    if i < i' {
      StepLess(i, i', g, j, j');
      StepLess(i * g + j, i' * g + j', a, k, k');
    } else if j < j' {
      StepLess(i * g + j, i * g + j', a, k, k');
    }
  }
}
