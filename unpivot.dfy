/** The core of `fetch_ssb_data`: unpivoting the JSON-stat cube into one
    record per (year, gender, age group), then converting the year and
    count columns. All-or-nothing: any failure yields no table at all. */
module Unpivot {
  import opened Wrappers
  import opened Numbers
  import opened JsonStat
  import opened Layout

  /** The fixed gender names; the response's own gender labels are never read. */
  const GenderNames: map<string, string> := map["0" := "Begge kjønn", "1" := "Menn", "2" := "Kvinner"]

  /** A gender code's display name: the fixed name, or the code itself when unmapped. */
  function GenderLabel(code: string): (name: string)
    ensures code in GenderNames ==> name == GenderNames[code]
    ensures code !in GenderNames ==> name == code
    ensures name in GenderNames.Values || (name == code && code !in GenderNames)
  {
    if code in GenderNames then GenderNames[code] else code
  }

  /** A row as the loop builds it, before the column conversions. */
  datatype RawRecord = RawRecord(year: Scalar, gender: string, ageGroup: Scalar, count: JsonValue)

  /** A row of the final table. `count` is None where pandas holds NaN. */
  datatype Record = Record(year: int, gender: string, ageGroup: Scalar, count: Option<int>)

  function T(ax: Axes): nat { |ax.timeCodes| }
  function G(ax: Axes): nat { |ax.genderCodes| }
  function A(ax: Axes): nat { |ax.ageCodes| }

  /** `values[pos] if pos < len(values) else None` */
  function ValueAt(values: seq<JsonValue>, pos: nat): JsonValue
  {
    if pos < |values| then values[pos] else JNull
  }

  /** The row the loop emits for time i, gender j, age k. */
  function RawAt(ax: Axes, i: nat, j: nat, k: nat): RawRecord
    requires InCube(T(ax), G(ax), A(ax), i, j, k)
  {
    RawRecord(Lookup(ax.timeTable, ax.timeCodes[i]),
              GenderLabel(ax.genderCodes[j]),
              Lookup(ax.ageTable, ax.ageCodes[k]),
              ValueAt(ax.values, Pos(G(ax), A(ax), i, j, k)))
  }

  /** The rows for time i, gender j and the first n age codes. */
  function AgeBlock(ax: Axes, i: nat, j: nat, n: nat): (rs: seq<RawRecord>)
    requires i < T(ax) && j < G(ax) && n <= A(ax)
    ensures |rs| == n
  {
    if n == 0 then [] else AgeBlock(ax, i, j, n - 1) + [RawAt(ax, i, j, n - 1)]
  }

  /** The rows for time i and the first n gender codes. */
  function GenderBlocks(ax: Axes, i: nat, n: nat): (rs: seq<RawRecord>)
    requires i < T(ax) && n <= G(ax)
  {
    if n == 0 then [] else GenderBlocks(ax, i, n - 1) + AgeBlock(ax, i, n - 1, A(ax))
  }

  /** The rows for the first n time codes. */
  function TimeBlocks(ax: Axes, n: nat): (rs: seq<RawRecord>)
    requires n <= T(ax)
  {
    if n == 0 then [] else TimeBlocks(ax, n - 1) + GenderBlocks(ax, n - 1, G(ax))
  }

  lemma {:induction false} GenderBlocksLength(ax: Axes, i: nat, n: nat)
    requires i < T(ax) && n <= G(ax)
    ensures |GenderBlocks(ax, i, n)| == n * A(ax)
  {
    if n > 0 {
      GenderBlocksLength(ax, i, n - 1);
      MulStep(n, A(ax));
    }
  }

  lemma {:induction false} TimeBlocksLength(ax: Axes, n: nat)
    requires n <= T(ax)
    ensures |TimeBlocks(ax, n)| == Size(n, G(ax), A(ax))
  {
    if n > 0 {
      TimeBlocksLength(ax, n - 1);
      GenderBlocksLength(ax, n - 1, G(ax));
      SizeStep(n, G(ax), A(ax));
    }
  }

  /** The whole unpivoted list: time outermost, then gender, then age group. */
  function RawRecords(ax: Axes): (rs: seq<RawRecord>)
    ensures |rs| == Size(T(ax), G(ax), A(ax))
  {
    TimeBlocksLength(ax, T(ax));
    TimeBlocks(ax, T(ax))
  }

  lemma {:induction false} AgeBlockAt(ax: Axes, i: nat, j: nat, n: nat, k: nat)
    requires i < T(ax) && j < G(ax) && n <= A(ax) && k < n
    ensures AgeBlock(ax, i, j, n)[k] == RawAt(ax, i, j, k)
  {
    if k < n - 1 {
      AgeBlockAt(ax, i, j, n - 1, k);
    }
  }

  /** Indexing into the first part of a concatenation. */
  lemma IndexBefore<X>(front: seq<X>, back: seq<X>, p: nat)
    requires p < |front|
    ensures p < |front + back| && (front + back)[p] == front[p]
  {
  }

  /** Indexing into the second part of a concatenation. */
  lemma IndexAfter<X>(front: seq<X>, back: seq<X>, p: nat, q: nat)
    requires p == |front| + q && q < |back|
    ensures p < |front + back| && (front + back)[p] == back[q]
  {
  }

  lemma {:induction false} GenderBlocksAt(ax: Axes, i: nat, n: nat, j: nat, k: nat)
    requires i < T(ax) && n <= G(ax) && j < n && k < A(ax)
    ensures Offset(A(ax), j, k) < |GenderBlocks(ax, i, n)|
    ensures GenderBlocks(ax, i, n)[Offset(A(ax), j, k)] == RawAt(ax, i, j, k)
  {
    var q := Offset(A(ax), j, k);
    var front, last := GenderBlocks(ax, i, n - 1), AgeBlock(ax, i, n - 1, A(ax));
    GenderBlocksLength(ax, i, n - 1);
    if j < n - 1 {
      GenderBlocksAt(ax, i, n - 1, j, k);
      IndexBefore(front, last, q);
    } else {
      AgeBlockAt(ax, i, j, A(ax), k);
      IndexAfter(front, last, q, k);
    }
  }

  lemma {:induction false} TimeBlocksAt(ax: Axes, n: nat, i: nat, j: nat, k: nat)
    requires n <= T(ax) && i < n && j < G(ax) && k < A(ax)
    ensures Pos(G(ax), A(ax), i, j, k) < |TimeBlocks(ax, n)|
    ensures TimeBlocks(ax, n)[Pos(G(ax), A(ax), i, j, k)] == RawAt(ax, i, j, k)
  {
    var p := Pos(G(ax), A(ax), i, j, k);
    var front, last := TimeBlocks(ax, n - 1), GenderBlocks(ax, n - 1, G(ax));
    if i < n - 1 {
      TimeBlocksAt(ax, n - 1, i, j, k);
      IndexBefore(front, last, p);
    } else {
      TimeBlocksLength(ax, i);
      SlabOffset(G(ax), A(ax), i, j, k);
      GenderBlocksAt(ax, i, G(ax), j, k);
      IndexAfter(front, last, p, Offset(A(ax), j, k));
    }
  }

  /** The unpivoted list holds, at the position of each cell, that cell's row. */
  lemma RawRecordsAt(ax: Axes, i: nat, j: nat, k: nat)
    requires InCube(T(ax), G(ax), A(ax), i, j, k)
    ensures Pos(G(ax), A(ax), i, j, k) < |RawRecords(ax)|
    ensures RawRecords(ax)[Pos(G(ax), A(ax), i, j, k)] == RawAt(ax, i, j, k)
  {
    TimeBlocksAt(ax, T(ax), i, j, k);
  }

  /** One pass of the innermost loop body: appending the row built from the
      labels and the value at the source's position extends the age block. */
  lemma AgeStep(ax: Axes, i: nat, j: nat, k: nat, pos: nat, before: seq<RawRecord>, records: seq<RawRecord>)
    requires InCube(T(ax), G(ax), A(ax), i, j, k)
    requires pos == Pos(G(ax), A(ax), i, j, k)
    requires records == before + AgeBlock(ax, i, j, k)
    ensures records + [RawRecord(Lookup(ax.timeTable, ax.timeCodes[i]), GenderLabel(ax.genderCodes[j]),
                                 Lookup(ax.ageTable, ax.ageCodes[k]), if pos < |ax.values| then ax.values[pos] else JNull)]
            == before + AgeBlock(ax, i, j, k + 1)
  {
  }

  /** The end of the innermost loop completes one gender block. */
  lemma GenderStep(ax: Axes, i: nat, j: nat, base: seq<RawRecord>, before: seq<RawRecord>, records: seq<RawRecord>)
    requires i < T(ax) && j < G(ax)
    requires before == base + GenderBlocks(ax, i, j)
    requires records == before + AgeBlock(ax, i, j, A(ax))
    ensures records == base + GenderBlocks(ax, i, j + 1)
  {
  }

  /** The innermost loop: for one time code and one gender code, append a
      row per age code with the value at the row-major position. */
  method AppendAgeRows(ax: Axes, ti: nat, gj: nat, yearLabel: Scalar, genderLabel: string, before: seq<RawRecord>)
    returns (records: seq<RawRecord>)
    requires ti < T(ax) && gj < G(ax)
    requires yearLabel == Lookup(ax.timeTable, ax.timeCodes[ti])
    requires genderLabel == GenderLabel(ax.genderCodes[gj])
    ensures records == before + AgeBlock(ax, ti, gj, A(ax))
  {
    var g, a := |ax.genderCodes|, |ax.ageCodes|;
    records := before;
    var ak := 0;
    while ak < a
      invariant 0 <= ak <= a
      invariant records == before + AgeBlock(ax, ti, gj, ak)
    {
      var ageLabel := Lookup(ax.ageTable, ax.ageCodes[ak]);
      var pos := ti * g * a + gj * a + ak;
      PosExpanded(g, a, ti, gj, ak);
      var value := if pos < |ax.values| then ax.values[pos] else JNull;
      AgeStep(ax, ti, gj, ak, pos, before, records);
      records := records + [RawRecord(yearLabel, genderLabel, ageLabel, value)];
      ak := ak + 1;
    }
  }

  /** The middle loop: for one time code, run the age loop once per gender
      code, in order. */
  method AppendGenderBlocks(ax: Axes, ti: nat, yearLabel: Scalar, base: seq<RawRecord>)
    returns (records: seq<RawRecord>)
    requires ti < T(ax)
    requires yearLabel == Lookup(ax.timeTable, ax.timeCodes[ti])
    ensures records == base + GenderBlocks(ax, ti, G(ax))
  {
    var g := |ax.genderCodes|;
    records := base;
    var gj := 0;
    while gj < g
      invariant 0 <= gj <= g
      invariant records == base + GenderBlocks(ax, ti, gj)
    {
      var genderLabel := GenderLabel(ax.genderCodes[gj]);
      var extended := AppendAgeRows(ax, ti, gj, yearLabel, genderLabel, records);
      GenderStep(ax, ti, gj, base, records, extended);
      records := extended;
      gj := gj + 1;
    }
  }

  /** The end of the middle loop completes one time block. */
  lemma TimeStep(ax: Axes, i: nat, records: seq<RawRecord>)
    requires i < T(ax)
    requires records == TimeBlocks(ax, i) + GenderBlocks(ax, i, G(ax))
    ensures records == TimeBlocks(ax, i + 1)
  {
  }

  /** The triple loop: for each time code, gender code and age code, in that
      nesting order, append one row with the value at the row-major position.
      The middle loop is `AppendGenderBlocks`, the innermost `AppendAgeRows`. */
  method Unpivot(ax: Axes) returns (records: seq<RawRecord>)
    ensures records == RawRecords(ax)
  {
    var t := |ax.timeCodes|;
    records := [];
    var ti := 0;
    while ti < t
      invariant 0 <= ti <= t
      invariant records == TimeBlocks(ax, ti)
    {
      var yearLabel := Lookup(ax.timeTable, ax.timeCodes[ti]);
      records := AppendGenderBlocks(ax, ti, yearLabel, records);
      TimeStep(ax, ti, records);
      ti := ti + 1;
    }
  }

  /** `astype(int)` on one year cell: the target is a 64-bit integer, so an
      integer stays when it fits, and text must be an integer literal whose
      value fits; anything else raises. */
  function YearOf(s: Scalar): (y: Option<int>)
    ensures y.Some? ==> InInt64(y.value)
    ensures s.Int? ==> (y.Some? <==> InInt64(s.i)) && (y.Some? ==> y.value == s.i)
    ensures s.Str? ==> (y.Some? <==> IsIntLiteral(s.s) && InInt64(ParseInt(s.s).value))
    ensures s.Str? && y.Some? ==> y == ParseInt(s.s)
  {
    match s
    case Int(i) => if InInt64(i) then Some(i) else None
    case Str(t) =>
      var n := ParseInt(t);
      if n.Some? && InInt64(n.value) then n else None
  }

  /** `to_numeric(..., errors="coerce")` on one count cell: anything that is
      not a number becomes missing instead of failing. */
  function ToNumeric(v: JsonValue): Option<int>
  {
    match v
    case JNull => None
    case JNum(n) => Some(n)
    case JStr(t) => ParseInt(t)
  }

  predicate YearsConvert(rs: seq<RawRecord>) {
    forall p :: 0 <= p < |rs| ==> YearOf(rs[p].year).Some?
  }

  /** One row after the column conversions. */
  function ConvertRow(row: RawRecord): Record
    requires YearOf(row.year).Some?
  {
    Record(YearOf(row.year).value, row.gender, row.ageGroup, ToNumeric(row.count))
  }

  /** Building the DataFrame and converting its columns. An empty record
      list makes a frame without an "År" column, so selecting it fails;
      one year that is not an integer fails the whole column. */
  function Convert(rs: seq<RawRecord>): (table: Option<seq<Record>>)
    ensures table.Some? <==> |rs| > 0 && YearsConvert(rs)
    ensures table.Some? ==> |table.value| == |rs|
  {
    if |rs| == 0 || !YearsConvert(rs) then None
    else Some(seq(|rs|, p requires 0 <= p < |rs| => ConvertRow(rs[p])))
  }

  /** The table `fetch_ssb_data` returns for an already-decoded response body. */
  function Transform(r: Response): Option<seq<Record>>
  {
    match Extract(r)
    case None => None
    case Some(ax) => Convert(RawRecords(ax))
  }

  /** The transform body of `fetch_ssb_data`, from the decoded body to the table. */
  method FetchSsbData(r: Response) returns (table: Option<seq<Record>>)
    ensures table == Transform(r)
  {
    var ax := Extract(r);
    if ax.None? {
      return None;
    }
    var records := Unpivot(ax.value);
    table := Convert(records);
  }

  /** The count the table holds for flat position p: the converted value,
      or missing past the end of the value array. */
  function CountAt(values: seq<JsonValue>, p: nat): Option<int>
  {
    ToNumeric(ValueAt(values, p))
  }

  /** One row per combination of codes, at the row-major position of its
      cell: year, fixed gender name, age label and count of that cell. */
  lemma TableRows(r: Response, i: nat, j: nat, k: nat)
    requires WellShaped(r) && Transform(r).Some?
    requires var ax := Extract(r).value; InCube(T(ax), G(ax), A(ax), i, j, k)
    ensures var ax := Extract(r).value;
      var rows := Transform(r).value;
      var p := Pos(G(ax), A(ax), i, j, k);
      && |rows| == Size(T(ax), G(ax), A(ax)) > 0
      && p < |rows|
      && Some(rows[p].year) == YearOf(Lookup(ax.timeTable, ax.timeCodes[i]))
      && rows[p].gender == GenderLabel(ax.genderCodes[j])
      && rows[p].ageGroup == Lookup(ax.ageTable, ax.ageCodes[k])
      && rows[p].count == CountAt(ax.values, p)
  {
    var ax := Extract(r).value;
    RawRecordsAt(ax, i, j, k);
  }

  /** Past the end of the value array the count is missing; within it, it is
      the converted value. No position is ever out of bounds. */
  lemma CountPastEndMissing(r: Response, i: nat, j: nat, k: nat)
    requires WellShaped(r) && Transform(r).Some?
    requires var ax := Extract(r).value; InCube(T(ax), G(ax), A(ax), i, j, k)
    ensures var ax := Extract(r).value;
      var p := Pos(G(ax), A(ax), i, j, k);
      && p < |Transform(r).value|
      && (p >= |r.value.value| ==> Transform(r).value[p].count == None)
      && (p < |r.value.value| ==> Transform(r).value[p].count == ToNumeric(r.value.value[p]))
  {
    var ax := Extract(r).value;
    assert ax.values == r.value.value;
    TableRows(r, i, j, k);
  }

  /** With the synthetic value array [0, 1, ..., N-1] every row carries its
      own flat position i*G*A + j*A + k as its count. */
  lemma SyntheticValues(r: Response, i: nat, j: nat, k: nat)
    requires WellShaped(r) && Transform(r).Some?
    requires var ax := Extract(r).value;
      && InCube(T(ax), G(ax), A(ax), i, j, k)
      && |r.value.value| == Size(T(ax), G(ax), A(ax))
      && forall p :: 0 <= p < |r.value.value| ==> r.value.value[p] == JNum(p)
    ensures var ax := Extract(r).value;
      var p := Pos(G(ax), A(ax), i, j, k);
      p < |Transform(r).value| && Transform(r).value[p].count == Some(p)
  {
    TableRows(r, i, j, k);
  }

  /** A year label of some time code that is not an integer. */
  predicate SomeYearFails(ax: Axes) {
    exists i :: 0 <= i < T(ax) && YearOf(Lookup(ax.timeTable, ax.timeCodes[i])).None?
  }

  /** All or nothing: no table exactly when a key is missing, some axis is
      empty (the empty frame has no year column) or some year label is not
      an integer. */
  lemma TableFails(r: Response)
    ensures Transform(r).None? <==>
      || !WellShaped(r)
      || (var ax := Extract(r).value; Size(T(ax), G(ax), A(ax)) == 0 || SomeYearFails(ax))
  {
    if WellShaped(r) {
      var ax := Extract(r).value;
      var rs := RawRecords(ax);
      if Size(T(ax), G(ax), A(ax)) > 0 {
        if SomeYearFails(ax) {
          var i :| 0 <= i < T(ax) && YearOf(Lookup(ax.timeTable, ax.timeCodes[i])).None?;
          PosOfCell(T(ax), G(ax), A(ax), 0);
          RawRecordsAt(ax, i, 0, 0);
          assert !YearsConvert(rs);
        } else if !YearsConvert(rs) {
          var p :| 0 <= p < |rs| && YearOf(rs[p].year).None?;
          PosOfCell(T(ax), G(ax), A(ax), p);
          var (i, j, k) := Cell(G(ax), A(ax), p);
          RawRecordsAt(ax, i, j, k);
          assert false;
        }
      }
    }
  }

  /** An axis with no codes gives no table at all, not an empty one. */
  lemma EmptyAxisGivesNoTable(r: Response)
    requires WellShaped(r)
    requires var ax := Extract(r).value; T(ax) == 0 || G(ax) == 0 || A(ax) == 0
    ensures Transform(r) == None
  {
    TableFails(r);
  }

  /** Every gender in the table is one of the fixed names, or a gender code
      of the response that the fixed map does not know. */
  lemma GendersFromFixedMap(r: Response, p: nat)
    requires WellShaped(r) && Transform(r).Some? && p < |Transform(r).value|
    ensures var g := Transform(r).value[p].gender;
      g in GenderNames.Values || (g in Extract(r).value.genderCodes && g !in GenderNames)
  {
    var ax := Extract(r).value;
    PosOfCell(T(ax), G(ax), A(ax), p);
    var (i, j, k) := Cell(G(ax), A(ax), p);
    TableRows(r, i, j, k);
  }

  /** The response with the gender dimension's `label` object replaced. */
  function WithGenderLabels(r: Response, labels: Option<Dict<string>>): Response
    requires r.dimension.Some? && GenderId in r.dimension.value
    requires r.dimension.value[GenderId].category.Some?
  {
    var dims := r.dimension.value;
    var cat := dims[GenderId].category.value;
    r.(dimension := Some(dims[GenderId := Dimension(Some(cat.(labels := labels)))]))
  }

  /** The response's own gender labels never reach the table. */
  lemma UpstreamGenderLabelsIgnored(r: Response, labels: Option<Dict<string>>)
    requires r.dimension.Some? && GenderId in r.dimension.value
    requires r.dimension.value[GenderId].category.Some?
    ensures Transform(WithGenderLabels(r, labels)) == Transform(r)
  {
    var r' := WithGenderLabels(r, labels);
    assert TimeId != GenderId && AgeId != GenderId;
    assert WellShaped(r') == WellShaped(r);
    if WellShaped(r) {
      assert Extract(r') == Extract(r);
    }
  }
}
