/**
 * The vehicle coating-specification lookup: the spreadsheet loaded as a table of
 * rows, the cleaning done at load time, the brand and model dropdowns that
 * cascade, the table filtered by the two selections, and the count of matches.
 */
module CarSpecs {
  import opened Wrappers
  import opened StrOrder
  import opened Lists

  /** The wildcard entry at the head of both dropdowns ('全部', "all"). */
  const All: string := "全部"

  /** The five displayed columns: length, width and height in mm, the coating class and the price band. */
  datatype Spec = Spec(
    lengthMm: Option<int>,
    widthMm: Option<int>,
    heightMm: Option<int>,
    category: Option<string>,
    priceBand: Option<string>)

  /** One spreadsheet row; an empty cell is `None`. */
  datatype Row = Row(brand: Option<string>, model: Option<string>, spec: Spec)

  type Table = seq<Row>

  predicate Complete(row: Row) {
    row.brand.Some? && row.model.Some?
  }

  /** Every row has a brand and a model, as after `load_data`. */
  predicate Cleaned(t: Table) {
    forall i :: 0 <= i < |t| ==> Complete(t[i])
  }

  /** `dropna(subset=['品牌', '車型'])`: drop the rows missing a brand or a model. */
  function DropIncomplete(t: Table): (r: Table)
    ensures Cleaned(r)
    ensures forall row :: row in r <==> row in t && Complete(row)
    ensures IsSubsequence(r, t)
    ensures |r| == |Satisfying(t, Complete)|
  {
    FilterCount(t, Complete);
    Filter(t, Complete)
  }

  /** The brand column of a cleaned table. */
  function Brands(t: Table): (r: seq<string>)
    requires Cleaned(t)
    ensures |r| == |t|
    ensures forall i :: 0 <= i < |t| ==> t[i].brand == Some(r[i])
    decreases |t|
  {
    if t == [] then [] else [t[0].brand.value] + Brands(t[1..])
  }

  /** The model column of a cleaned table. */
  function Models(t: Table): (r: seq<string>)
    requires Cleaned(t)
    ensures |r| == |t|
    ensures forall i :: 0 <= i < |t| ==> t[i].model == Some(r[i])
    decreases |t|
  {
    if t == [] then [] else [t[0].model.value] + Models(t[1..])
  }

  /** Some row of `t` has the brand `b`. */
  predicate HasBrand(t: Table, b: string) {
    exists i :: 0 <= i < |t| && t[i].brand == Some(b)
  }

  /** The brand dropdown: the wildcard, then the distinct brands in increasing order. */
  function BrandOptions(t: Table): (r: seq<string>)
    requires Cleaned(t)
    ensures |r| >= 1 && r[0] == All
    ensures StrictlyAscending(r[1..]) && NoDuplicates(r[1..])
    ensures forall b :: b in r[1..] <==> HasBrand(t, b)
  {
    var brands := Brands(t);
    assert forall b :: b in brands <==> HasBrand(t, b);
    [All] + SortedUnique(brands)
  }

  /** The rows whose brand is `brand`: `df[df['品牌'] == brand]`, used by the model dropdown and the filter. */
  function RowsOfBrand(t: Table, brand: string): (r: Table)
    ensures forall row :: row in r <==> row in t && row.brand == Some(brand)
  {
    Filter(t, (row: Row) => row.brand == Some(brand))
  }

  /** Some row of `t` has the model `m` and the brand `brand`, or any brand when `brand` is the wildcard. */
  predicate OffersModel(t: Table, brand: string, m: string) {
    exists i :: 0 <= i < |t| && (brand == All || t[i].brand == Some(brand)) && t[i].model == Some(m)
  }

  /**
   * The model dropdown, which depends on the chosen brand: the wildcard, then the
   * distinct models of the whole table (brand is the wildcard) or of that brand's
   * rows, in increasing order.
   */
  function ModelOptions(t: Table, brand: string): (r: seq<string>)
    requires Cleaned(t)
    ensures |r| >= 1 && r[0] == All
    ensures StrictlyAscending(r[1..]) && NoDuplicates(r[1..])
    ensures forall m :: m in r[1..] <==> OffersModel(t, brand, m)
  {
    var rows := if brand == All then t else RowsOfBrand(t, brand);
    var available := Models(rows);
    assert forall m :: m in available <==> exists k :: 0 <= k < |rows| && rows[k].model == Some(m);
    [All] + SortedUnique(available)
  }

  /** The selection as one rule: each dropdown is either the wildcard or equal to the row's value. */
  predicate RowMatches(row: Row, brand: string, model: string) {
    && (brand == All || row.brand == Some(brand))
    && (model == All || row.model == Some(model))
  }

  /**
   * The table shown for a (brand, model) selection, chosen among four cases:
   * a subsequence of the table holding exactly the rows that match the
   * selection, and the whole table when both dropdowns are on the wildcard.
   */
  function FilterRows(t: Table, brand: string, model: string): (r: Table)
    ensures IsSubsequence(r, t)
    ensures forall row :: row in r <==> row in t && RowMatches(row, brand, model)
    ensures brand == All && model == All ==> r == t
  {
    if brand == All && model == All then SubsequenceReflexive(t); t
    else if brand == All then Filter(t, (row: Row) => row.model == Some(model))
    else if model == All then RowsOfBrand(t, brand)
    else Filter(t, (row: Row) => row.brand == Some(brand) && row.model == Some(model))
  }

  /** The four cases select exactly what the single wildcard rule `RowMatches` selects. */
  lemma FilterRowsIsWildcardRule(t: Table, brand: string, model: string)
    ensures FilterRows(t, brand, model) == Filter(t, (row: Row) => RowMatches(row, brand, model))
  {
    var rule := (row: Row) => RowMatches(row, brand, model);
    if brand == All && model == All {
      FilterAllTrue(t, rule);
    } else if brand == All {
      FilterSameMask(t, (row: Row) => row.model == Some(model), rule);
    } else if model == All {
      FilterSameMask(t, (row: Row) => row.brand == Some(brand), rule);
    } else {
      FilterSameMask(t, (row: Row) => row.brand == Some(brand) && row.model == Some(model), rule);
    }
  }

  /** `filtered_df[[...]]`: the five displayed columns of each row, one entry per row. */
  function Display(t: Table): (v: seq<Spec>)
    ensures |v| == |t|
    ensures forall k :: 0 <= k < |t| ==> v[k] == t[k].spec
  {
    seq(|t|, k requires 0 <= k < |t| => t[k].spec)
  }

  /** The reported number of matching vehicles. */
  function MatchCount(t: Table, brand: string, model: string): (n: nat)
    ensures n == |FilterRows(t, brand, model)|
    ensures n == |Satisfying(t, (row: Row) => RowMatches(row, brand, model))|
  {
    FilterRowsIsWildcardRule(t, brand, model);
    FilterCount(t, (row: Row) => RowMatches(row, brand, model));
    |Display(FilterRows(t, brand, model))|
  }

  /** Cleaning a table that is already clean changes nothing. */
  lemma DropIncompleteIdempotent(t: Table)
    ensures DropIncomplete(DropIncomplete(t)) == DropIncomplete(t)
  {
    FilterAllTrue(DropIncomplete(t), Complete);
  }

  /** The brand dropdown after the wildcard is the only increasing list of the table's brands. */
  lemma BrandOptionsExact(t: Table, s: seq<string>)
    requires Cleaned(t)
    requires StrictlyAscending(s)
    requires forall b :: b in s <==> HasBrand(t, b)
    ensures BrandOptions(t)[1..] == s
  {
    StrictlyAscendingUnique(BrandOptions(t)[1..], s);
  }

  /** The model dropdown after the wildcard is the only increasing list of the offered models. */
  lemma ModelOptionsExact(t: Table, brand: string, s: seq<string>)
    requires Cleaned(t)
    requires StrictlyAscending(s)
    requires forall m :: m in s <==> OffersModel(t, brand, m)
    ensures ModelOptions(t, brand)[1..] == s
  {
    StrictlyAscendingUnique(ModelOptions(t, brand)[1..], s);
  }

  /** A specific model is offered for a brand selection exactly when selecting it shows some row. */
  lemma ModelOfferedIffShown(t: Table, brand: string, model: string)
    requires Cleaned(t)
    requires model != All
    ensures model in ModelOptions(t, brand) <==> |FilterRows(t, brand, model)| > 0
  {
    var opts := ModelOptions(t, brand);
    var r := FilterRows(t, brand, model);
    assert opts == [All] + opts[1..];
    if model in opts {
      assert model in opts[1..];
      var i :| 0 <= i < |t| && (brand == All || t[i].brand == Some(brand)) && t[i].model == Some(model);
      assert t[i] in r;
    }
    if |r| > 0 {
      assert r[0] in t && RowMatches(r[0], brand, model);
      var i :| 0 <= i < |t| && t[i] == r[0];
      assert model in opts[1..];
    }
  }

  /** Any selection made from the offered dropdowns shows at least one row, unless the table is empty. */
  lemma OfferedSelectionShown(t: Table, brand: string, model: string)
    requires Cleaned(t)
    requires brand in BrandOptions(t)
    requires model in ModelOptions(t, brand)
    ensures |FilterRows(t, brand, model)| > 0 <==> |t| > 0
  {
    var r := FilterRows(t, brand, model);
    if model != All {
      ModelOfferedIffShown(t, brand, model);
    } else if brand != All {
      var opts := BrandOptions(t);
      assert opts == [All] + opts[1..];
      assert brand in opts[1..];
      var i :| 0 <= i < |t| && t[i].brand == Some(brand);
      assert t[i] in r;
    }
    if |r| > 0 {
      assert r[0] in t;
    }
  }
}
