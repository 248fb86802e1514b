/** The parsed JSON-stat 2.0 response body, as far as the table transform
    reads it, and the extraction of the three axes it walks. */
module JsonStat {
  import opened Wrappers

  /** A JSON object: its entries in document order. A parsed object has
      distinct keys, so looking up the first match is looking up the entry. */
  type Dict<V> = seq<(string, V)>

  /** An element of the response's flat `value` array. Fractional numbers
      are not modelled; `JNull` is JSON null (Python `None`). */
  datatype JsonValue = JNull | JNum(n: int) | JStr(s: string)

  /** `category` of one dimension: `index` maps code to position, `label`
      maps code to display text; either may be absent. */
  datatype Category = Category(index: Option<Dict<int>>, labels: Option<Dict<string>>)

  datatype Dimension = Dimension(category: Option<Category>)

  /** The response body: the `dimension` object keyed by dimension id and
      the `value` array; either key may be missing. */
  datatype Response = Response(dimension: Option<map<string, Dimension>>, value: Option<seq<JsonValue>>)

  /** What a label lookup yields: text from a `label` object, or the
      integer stored in the `index` object when that is used instead. */
  datatype Scalar = Str(s: string) | Int(i: int)

  /** The table a dimension's labels are looked up in: its `label` object
      when the category has one, otherwise its `index` object. */
  datatype LabelTable = Labels(labels: Dict<string>) | Indices(indices: Dict<int>)

  /** The three axes the transform walks (time, gender, age group), their
      code lists in index order, the label tables of time and age, and the
      flat value array. */
  datatype Axes = Axes(
    timeCodes: seq<string>, timeTable: LabelTable,
    genderCodes: seq<string>,
    ageCodes: seq<string>, ageTable: LabelTable,
    values: seq<JsonValue>)

  const TimeId := "Tid"
  const GenderId := "Kjonn"
  const AgeId := "Alder"

  function Keys<V>(d: Dict<V>): (ks: seq<string>)
    ensures |ks| == |d| && forall n :: 0 <= n < |d| ==> ks[n] == d[n].0
  {
    if d == [] then [] else [d[0].0] + Keys(d[1..])
  }

  /** `d.get(key)`: the value of the first entry with that key. */
  function Get<V>(d: Dict<V>, key: string): (r: Option<V>)
    ensures r.Some? <==> key in Keys(d)
    ensures r.Some? ==> (key, r.value) in d
  {
    if d == [] then None
    else if d[0].0 == key then Some(d[0].1)
    else Get(d[1..], key)
  }

  /** `table.get(code, code)`: the code's label, falling back to the code itself. */
  function Lookup(table: LabelTable, code: string): (r: Scalar)
    ensures table.Labels? && code !in Keys(table.labels) ==> r == Str(code)
    ensures table.Labels? && code in Keys(table.labels) ==> r.Str? && (code, r.s) in table.labels
    ensures table.Indices? && code in Keys(table.indices) ==> r.Int? && (code, r.i) in table.indices
    ensures table.Indices? && code !in Keys(table.indices) ==> r == Str(code)
  {
    match table
    case Labels(d) => if Get(d, code).Some? then Str(Get(d, code).value) else Str(code)
    case Indices(d) => if Get(d, code).Some? then Int(Get(d, code).value) else Str(code)
  }

  /** A category that has an `index` object: the only part every axis needs. */
  predicate Indexed(dims: map<string, Dimension>, id: string) {
    id in dims && dims[id].category.Some? && dims[id].category.value.index.Some?
  }

  /** The response has everything the transform dereferences. */
  predicate WellShaped(r: Response) {
    && r.dimension.Some? && r.value.Some?
    && Indexed(r.dimension.value, TimeId)
    && Indexed(r.dimension.value, GenderId)
    && Indexed(r.dimension.value, AgeId)
  }

  function TableOf(c: Category): LabelTable
    requires c.index.Some?
  {
    if c.labels.Some? then Labels(c.labels.value) else Indices(c.index.value)
  }

  /** Reading the axes out of the response; any missing key is the
      `KeyError` that makes the whole fetch give up. */
  function Extract(r: Response): (ax: Option<Axes>)
    ensures ax.Some? <==> WellShaped(r)
    ensures ax.Some? ==>
      var dims := r.dimension.value;
      var time := dims[TimeId].category.value;
      var gender := dims[GenderId].category.value;
      var age := dims[AgeId].category.value;
      && ax.value.timeCodes == Keys(time.index.value)
      && ax.value.genderCodes == Keys(gender.index.value)
      && ax.value.ageCodes == Keys(age.index.value)
      && ax.value.timeTable == (if time.labels.Some? then Labels(time.labels.value) else Indices(time.index.value))
      && ax.value.ageTable == (if age.labels.Some? then Labels(age.labels.value) else Indices(age.index.value))
      && ax.value.values == r.value.value
  {
    if !WellShaped(r) then None
    else
      var dims := r.dimension.value;
      var time := dims[TimeId].category.value;
      var gender := dims[GenderId].category.value;
      var age := dims[AgeId].category.value;
      Some(Axes(Keys(time.index.value), TableOf(time),
                Keys(gender.index.value),
                Keys(age.index.value), TableOf(age),
                r.value.value))
  }
}
