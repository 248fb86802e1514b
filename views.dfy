/** The page's view layer: the exact-match row filters behind each chart,
    the projected and de-duplicated tables handed to the insight generator,
    and the warning shown for a view with no rows. */
module Views {
  import opened Wrappers
  import opened JsonStat
  import opened Unpivot

  const BothGenders := "Begge kjønn"
  const Men := "Menn"
  const Women := "Kvinner"
  const AllAges := "15-74 år"
  const AgeBands: seq<string> := ["15-24 år", "25-54 år", "55-74 år"]

  /** The five charts of the page, in page order. */
  datatype View = OverallTrend | GenderComparison | AgeComparison | MenByAge | WomenByAge

  const PageViews: seq<View> := [OverallTrend, GenderComparison, AgeComparison, MenByAge, WomenByAge]

  /** `isin(["15-24 år", "25-54 år", "55-74 år"])` on the age column; an
      integer cell never matches a text band. */
  predicate InAgeBands(age: Scalar) { age.Str? && age.s in AgeBands }

  /** The boolean mask of each view. */
  predicate Selects(v: View, r: Record) {
    match v
    case OverallTrend => r.gender == BothGenders && r.ageGroup == Str(AllAges)
    case GenderComparison => (r.gender == Men || r.gender == Women) && r.ageGroup == Str(AllAges)
    case AgeComparison => r.gender == BothGenders && InAgeBands(r.ageGroup)
    case MenByAge => r.gender == Men && InAgeBands(r.ageGroup)
    case WomenByAge => r.gender == Women && InAgeBands(r.ageGroup)
  }

  /** `s` is obtained from `t` by deleting elements, keeping the order. */
  predicate IsSubsequence<T(==)>(s: seq<T>, t: seq<T>)
    decreases |t|
  {
    s == [] ||
    (t != [] &&
      ((s[|s| - 1] == t[|t| - 1] && IsSubsequence(s[..|s| - 1], t[..|t| - 1])) ||
       IsSubsequence(s, t[..|t| - 1])))
  }

  /** `df[mask]`: the rows the view's mask keeps, in table order. */
  function Select(table: seq<Record>, v: View): (sub: seq<Record>)
    ensures |sub| <= |table|
    ensures forall r :: r in sub <==> r in table && Selects(v, r)
  {
    if table == [] then []
    else
      var init := table[..|table| - 1];
      var last := table[|table| - 1];
      assert table == init + [last];
      Select(init, v) + (if Selects(v, last) then [last] else [])
  }

  /** Filtering distributes over concatenation: each row is kept or dropped
      on its own, where it stands. */
  lemma {:induction false} SelectConcat(a: seq<Record>, b: seq<Record>, v: View)
    ensures Select(a + b, v) == Select(a, v) + Select(b, v)
  {
    if b == [] {
      assert a + b == a;
    } else {
      var init, last := b[..|b| - 1], b[|b| - 1];
      assert (a + b)[..|a + b| - 1] == a + init;
      assert (a + b)[|a + b| - 1] == last;
      SelectConcat(a, init, v);
      calc {
        Select(a + b, v);
        Select(a + init, v) + (if Selects(v, last) then [last] else []);
        Select(a, v) + Select(init, v) + (if Selects(v, last) then [last] else []);
      }
    }
  }

  /** A view keeps rows in their original order. */
  lemma {:induction false} SelectIsSubsequence(table: seq<Record>, v: View)
    ensures IsSubsequence(Select(table, v), table)
  {
    if table != [] {
      var init, last := table[..|table| - 1], table[|table| - 1];
      var sub := Select(table, v);
      SelectIsSubsequence(init, v);
      if Selects(v, last) {
        assert sub == Select(init, v) + [last];
        assert sub[..|sub| - 1] == Select(init, v);
        assert sub[|sub| - 1] == last;
      } else {
        assert sub == Select(init, v);
      }
    }
  }

  /** Filtering an already filtered table changes nothing. */
  lemma {:induction false} SelectIdempotent(table: seq<Record>, v: View)
    ensures Select(Select(table, v), v) == Select(table, v)
  {
    if table != [] {
      var init, last := table[..|table| - 1], table[|table| - 1];
      SelectIdempotent(init, v);
      SelectConcat(Select(init, v), if Selects(v, last) then [last] else [], v);
      if Selects(v, last) {
        assert Select([last], v) == Select([], v) + [last] by { assert [last][..0] == []; }
      }
    }
  }

  /** No row belongs to two views: the five masks are pairwise disjoint. */
  lemma ViewsDisjoint(r: Record, v: View, v': View)
    requires Selects(v, r) && Selects(v', r)
    ensures v == v'
  {
  }

  /** What a view shows: its chart, or the warning that it has no rows. */
  datatype Panel = Chart(rows: seq<Record>) | Warning(message: string)

  function NoRowsMessage(v: View): string
  {
    match v
    case OverallTrend => "Ingen data funnet for den generelle trenden (Begge kjønn, 15-74 år)."
    case GenderComparison => "Ingen data funnet for kjønnssammenligning (Menn/Kvinner, 15-74 år)."
    case AgeComparison => "Ingen data funnet for aldersgruppesammenligning (Begge kjønn, ulike aldersgrupper)."
    case MenByAge => "Ingen data funnet for menn fordelt på aldersgrupper."
    case WomenByAge => "Ingen data funnet for kvinner fordelt på aldersgrupper."
  }

  /** A view with no rows is a warning, never a failure. */
  function ShowView(table: seq<Record>, v: View): (p: Panel)
    ensures p.Chart? ==> p.rows == Select(table, v) && p.rows != [] && IsSubsequence(p.rows, table)
    ensures p.Warning? ==> Select(table, v) == [] && p.message == NoRowsMessage(v)
  {
    var sub := Select(table, v);
    SelectIsSubsequence(table, v);
    if sub == [] then Warning(NoRowsMessage(v)) else Chart(sub)
  }

  /** A view warns exactly when no row of the table passes its mask. */
  lemma WarnsIffNoMatch(table: seq<Record>, v: View)
    ensures ShowView(table, v).Warning? <==> forall r :: r in table ==> !Selects(v, r)
  {
    var sub := Select(table, v);
    if sub != [] {
      assert sub[0] in sub;
    }
  }

  /** The page: an error when the fetch gave no table or an empty one,
      otherwise one panel per view, each decided on its own. */
  datatype Page = LoadFailed | Rendered(panels: seq<Panel>)

  function RenderPage(df: Option<seq<Record>>): (page: Page)
    ensures page.LoadFailed? <==> df.None? || df.value == []
    ensures page.Rendered? ==> |page.panels| == |PageViews|
    ensures page.Rendered? ==> forall n :: 0 <= n < |PageViews| ==> page.panels[n] == ShowView(df.value, PageViews[n])
  {
    if df.None? || df.value == [] then LoadFailed
    else Rendered(seq(|PageViews|, n requires 0 <= n < |PageViews| => ShowView(df.value, PageViews[n])))
  }

  /** The transform never yields an empty table, so the page fails to load
      exactly when the transform failed. */
  lemma PageFailsIffTransformFails(r: Response)
    ensures RenderPage(Transform(r)).LoadFailed? <==> Transform(r).None?
  {
    var t := Transform(r);
    if t.Some? {
      assert WellShaped(r);
      assert t == Convert(RawRecords(Extract(r).value));
    }
  }

  /** The columns kept for the insight generator: year and count, plus the
      gender or the age group the chart separates by. */
  datatype InsightRow =
    | YearCount(year: int, count: Option<int>)
    | YearGenderCount(year: int, gender: string, count: Option<int>)
    | YearAgeCount(year: int, ageGroup: Scalar, count: Option<int>)

  function Projection(v: View, r: Record): InsightRow
  {
    match v
    case OverallTrend => YearCount(r.year, r.count)
    case GenderComparison => YearGenderCount(r.year, r.gender, r.count)
    case _ => YearAgeCount(r.year, r.ageGroup, r.count)
  }

  /** `df[[columns]]`: the projection of every row, in order. */
  function Project(v: View, rows: seq<Record>): (ps: seq<InsightRow>)
    ensures |ps| == |rows|
    ensures forall n :: 0 <= n < |rows| ==> ps[n] == Projection(v, rows[n])
  {
    if rows == [] then [] else Project(v, rows[..|rows| - 1]) + [Projection(v, rows[|rows| - 1])]
  }

  predicate NoDuplicates<T(==)>(s: seq<T>) {
    forall m, n :: 0 <= m < n < |s| ==> s[m] != s[n]
  }

  /** `drop_duplicates()`: keep the first occurrence of every row. */
  function Dedup<T(==,!new)>(s: seq<T>): (d: seq<T>)
    ensures |d| <= |s|
    ensures forall x :: x in d <==> x in s
    ensures NoDuplicates(d)
  {
    if s == [] then []
    else
      var init, last := s[..|s| - 1], s[|s| - 1];
      assert s == init + [last];
      if last in init then Dedup(init) else Dedup(init) + [last]
  }

  /** A sequence without duplicates is left as it is. */
  lemma {:induction false} DedupOfDistinct<T(!new)>(s: seq<T>)
    requires NoDuplicates(s)
    ensures Dedup(s) == s
  {
    if s != [] {
      var init := s[..|s| - 1];
      DedupOfDistinct(init);
      assert s[|s| - 1] !in init;
    }
  }

  /** De-duplicating twice is de-duplicating once. */
  lemma DedupIdempotent<T(!new)>(s: seq<T>)
    ensures Dedup(Dedup(s)) == Dedup(s)
  {
    DedupOfDistinct(Dedup(s));
  }

  /** Rows survive in their original order. */
  lemma {:induction false} DedupIsSubsequence<T(!new)>(s: seq<T>)
    ensures IsSubsequence(Dedup(s), s)
  {
    if s != [] {
      var init := s[..|s| - 1];
      DedupIsSubsequence(init);
      if s[|s| - 1] !in init {
        var d := Dedup(s);
        assert d[..|d| - 1] == Dedup(init);
      }
    }
  }

  /** The first occurrences are the ones kept: de-duplicating a prefix gives
      a prefix of the de-duplicated whole. */
  lemma {:induction false} DedupPrefix<T(!new)>(s: seq<T>, n: nat)
    requires n <= |s|
    ensures Dedup(s[..n]) <= Dedup(s)
  {
    if n < |s| {
      var init := s[..|s| - 1];
      assert init[..n] == s[..n];
      DedupPrefix(init, n);
    } else {
      assert s[..n] == s;
    }
  }

  /** The table handed to the insight generator for a view: the projected
      rows of the view, de-duplicated except for the overall trend. */
  function InsightData(table: seq<Record>, v: View): (rows: seq<InsightRow>)
  {
    var projected := Project(v, Select(table, v));
    if v == OverallTrend then projected else Dedup(projected)
  }

  /** Each insight row is the projection of a row the view selects, and
      every selected row is represented; de-duplication never adds rows. */
  lemma InsightDataRows(table: seq<Record>, v: View, x: InsightRow)
    ensures |InsightData(table, v)| <= |Select(table, v)|
    ensures v != OverallTrend ==> NoDuplicates(InsightData(table, v))
    ensures x in InsightData(table, v) <==> exists r :: r in table && Selects(v, r) && Projection(v, r) == x
  {
    var sub := Select(table, v);
    var projected := Project(v, sub);
    if x in projected {
      var n :| 0 <= n < |projected| && projected[n] == x;
      assert sub[n] in sub;
    }
    if exists r :: r in table && Selects(v, r) && Projection(v, r) == x {
      var r :| r in table && Selects(v, r) && Projection(v, r) == x;
      var n :| 0 <= n < |sub| && sub[n] == r;
      assert projected[n] == x;
    }
  }
}
