/** Worked examples of the transform on small responses. */
module Scenarios {
  import opened Wrappers
  import opened Numbers
  import opened JsonStat
  import opened Layout
  import opened Unpivot

  /** A response whose categories carry only `index` objects. */
  function IndexOnlyResponse(): Response
  {
    Response(
      Some(map[
        TimeId := Dimension(Some(Category(Some([("2020", 0), ("2021", 1)]), None))),
        GenderId := Dimension(Some(Category(Some([("0", 0)]), None))),
        AgeId := Dimension(Some(Category(Some([("15-74", 0)]), None)))]),
      Some([JNum(100), JNum(120)]))
  }

  /** Without `label` objects the index object is the label table: the year
      becomes the code's index (0, 1), not 2020 and 2021, and the age group
      the integer 0, not the code "15-74". */
  lemma IndexOnlyExample()
    ensures Transform(IndexOnlyResponse()) == Some([
      Record(0, "Begge kjønn", Int(0), Some(100)),
      Record(1, "Begge kjønn", Int(0), Some(120))])
  {
    var ax := Axes(["2020", "2021"], Indices([("2020", 0), ("2021", 1)]), ["0"], ["15-74"], Indices([("15-74", 0)]), [JNum(100), JNum(120)]);
    IndexOnlyAxes(ax);
    var rows := [RawRecord(Int(0), "Begge kjønn", Int(0), JNum(100)), RawRecord(Int(1), "Begge kjønn", Int(0), JNum(120))];
    IndexOnlyRows(ax, rows);
    ConvertTwo(rows);
  }

  lemma IndexOnlyAxes(ax: Axes)
    requires ax == Axes(["2020", "2021"], Indices([("2020", 0), ("2021", 1)]), ["0"], ["15-74"], Indices([("15-74", 0)]), [JNum(100), JNum(120)])
    ensures Extract(IndexOnlyResponse()) == Some(ax)
  {
    assert WellShaped(IndexOnlyResponse());
    assert Keys([("2020", 0), ("2021", 1)]) == ["2020", "2021"];
    assert Keys([("0", 0)]) == ["0"] && Keys([("15-74", 0)]) == ["15-74"];
  }

  lemma IndexOnlyRows(ax: Axes, rows: seq<RawRecord>)
    requires ax == Axes(["2020", "2021"], Indices([("2020", 0), ("2021", 1)]), ["0"], ["15-74"], Indices([("15-74", 0)]), [JNum(100), JNum(120)])
    requires rows == [RawRecord(Int(0), "Begge kjønn", Int(0), JNum(100)), RawRecord(Int(1), "Begge kjønn", Int(0), JNum(120))]
    ensures RawRecords(ax) == rows && YearsConvert(rows)
  {
    TwoByOneByOne(ax);
    IndexOnlyRow(ax, 0, "2020", 0);
    IndexOnlyRow(ax, 1, "2021", 1);
  }

  lemma IndexOnlyRow(ax: Axes, i: nat, code: string, index: int)
    requires ax == Axes(["2020", "2021"], Indices([("2020", 0), ("2021", 1)]), ["0"], ["15-74"], Indices([("15-74", 0)]), [JNum(100), JNum(120)])
    requires i < 2 && code == ax.timeCodes[i] && (code, index) in ax.timeTable.indices
    ensures RawAt(ax, i, 0, 0) == RawRecord(Int(index), "Begge kjønn", Int(0), ax.values[i])
  {
    assert Keys(ax.timeTable.indices) == ["2020", "2021"];
    assert Get([("15-74", 0)], "15-74") == Some(0);
    if i == 1 {
      assert Get(ax.timeTable.indices, code) == Some(1);
    }
  }

  /** The unpivoted rows of a cube with two time codes and one gender and age code. */
  lemma TwoByOneByOne(ax: Axes)
    requires T(ax) == 2 && G(ax) == 1 && A(ax) == 1
    ensures RawRecords(ax) == [RawAt(ax, 0, 0, 0), RawAt(ax, 1, 0, 0)]
  {
    SingleCell(ax, 0);
    SingleCell(ax, 1);
    assert TimeBlocks(ax, 1) == [RawAt(ax, 0, 0, 0)];
  }

  lemma SingleCell(ax: Axes, i: nat)
    requires i < T(ax) && G(ax) == 1 && A(ax) == 1
    ensures GenderBlocks(ax, i, 1) == [RawAt(ax, i, 0, 0)]
    ensures RawAt(ax, i, 0, 0).count == ValueAt(ax.values, i)
  {
    assert AgeBlock(ax, i, 0, 1) == [RawAt(ax, i, 0, 0)];
  }

  /** The same cube with `label` objects, as the statistics service sends it. */
  function LabelledResponse(): Response
  {
    Response(
      Some(map[
        TimeId := Dimension(Some(Category(Some([("2020", 0), ("2021", 1)]), Some([("2020", "2020"), ("2021", "2021")])))),
        GenderId := Dimension(Some(Category(Some([("0", 0)]), Some([("0", "Begge kjønn")])))),
        AgeId := Dimension(Some(Category(Some([("15-74", 0)]), Some([("15-74", "15-74 år")]))))]),
      Some([JNum(100), JNum(120)]))
  }

  /** With `label` objects the years are the parsed labels and the age group
      is the label text. */
  lemma LabelledExample()
    ensures Transform(LabelledResponse()) == Some([
      Record(2020, "Begge kjønn", Str("15-74 år"), Some(100)),
      Record(2021, "Begge kjønn", Str("15-74 år"), Some(120))])
  {
    var ax := Axes(["2020", "2021"], Labels([("2020", "2020"), ("2021", "2021")]), ["0"], ["15-74"], Labels([("15-74", "15-74 år")]), [JNum(100), JNum(120)]);
    LabelledAxes(ax);
    var rows := [RawRecord(Str("2020"), "Begge kjønn", Str("15-74 år"), JNum(100)), RawRecord(Str("2021"), "Begge kjønn", Str("15-74 år"), JNum(120))];
    LabelledRows(ax, rows);
    YearLiterals();
    assert YearsConvert(rows);
    ConvertTwo(rows);
  }

  lemma LabelledAxes(ax: Axes)
    requires ax == Axes(["2020", "2021"], Labels([("2020", "2020"), ("2021", "2021")]), ["0"], ["15-74"], Labels([("15-74", "15-74 år")]), [JNum(100), JNum(120)])
    ensures Extract(LabelledResponse()) == Some(ax)
  {
    assert WellShaped(LabelledResponse());
    assert Keys([("2020", 0), ("2021", 1)]) == ["2020", "2021"];
    assert Keys([("0", 0)]) == ["0"] && Keys([("15-74", 0)]) == ["15-74"];
  }

  lemma LabelledRows(ax: Axes, rows: seq<RawRecord>)
    requires ax == Axes(["2020", "2021"], Labels([("2020", "2020"), ("2021", "2021")]), ["0"], ["15-74"], Labels([("15-74", "15-74 år")]), [JNum(100), JNum(120)])
    requires rows == [RawRecord(Str("2020"), "Begge kjønn", Str("15-74 år"), JNum(100)), RawRecord(Str("2021"), "Begge kjønn", Str("15-74 år"), JNum(120))]
    ensures RawRecords(ax) == rows
  {
    TwoByOneByOne(ax);
    LabelledRow(ax, 0, "2020");
    LabelledRow(ax, 1, "2021");
  }

  lemma LabelledRow(ax: Axes, i: nat, code: string)
    requires ax == Axes(["2020", "2021"], Labels([("2020", "2020"), ("2021", "2021")]), ["0"], ["15-74"], Labels([("15-74", "15-74 år")]), [JNum(100), JNum(120)])
    requires i < 2 && code == ax.timeCodes[i]
    ensures RawAt(ax, i, 0, 0) == RawRecord(Str(code), "Begge kjønn", Str("15-74 år"), ax.values[i])
  {
    assert Keys(ax.timeTable.labels) == ["2020", "2021"];
    assert Get([("15-74", "15-74 år")], "15-74") == Some("15-74 år");
    if i == 1 {
      assert Get(ax.timeTable.labels, code) == Some("2021");
    }
  }

  /** Converting two rows whose years convert. */
  lemma ConvertTwo(rows: seq<RawRecord>)
    requires |rows| == 2 && YearsConvert(rows)
    ensures Convert(rows) == Some([ConvertRow(rows[0]), ConvertRow(rows[1])])
  {
    var t := Convert(rows).value;
    assert t[0] == ConvertRow(rows[0]);
    assert t[1] == ConvertRow(rows[1]);
    assert t == [ConvertRow(rows[0]), ConvertRow(rows[1])];
  }

  lemma YearLiterals()
    ensures ParseInt("2020") == Some(2020) && ParseInt("2021") == Some(2021)
  {
    assert "2020"[..3] == "202" && "202"[..2] == "20" && "20"[..1] == "2" && "2"[..0] == "";
    assert "2021"[..3] == "202";
  }
}
