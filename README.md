# Coating-specification lookup, modelled in Dafny

`app.py` is a small web page for a car-coating shop. It loads one spreadsheet of
vehicle specifications, drops the rows that lack a brand (品牌) or a model (車型),
offers two cascading dropdowns (brand, then the models of that brand, each headed
by the wildcard entry `全部`, "all"), shows the rows that match the selection in
five columns (length, width and height in mm, the coating class 巧思分類 and the
price band 總價落點), and reports how many vehicles match.

This project models that lookup as pure functions over sequences and proves what
the page promises about it.

- `wrappers.dfy`: `Option`, standing for a cell that pandas reads as NaN.
- `str_order.dfy` (module `StrOrder`): Python's `<` on `str` (code-point
  lexicographic, a proper prefix first), proved to be a strict total order.
- `lists.dfy` (module `Lists`): boolean-mask selection (`Filter`), the
  subsequence relation, `Series.unique()` (`Unique`), `sorted` (`Sort`) and
  their composition `SortedUnique`. It also proves that an increasing list is
  determined by its elements.
- `car_specs.dfy` (module `CarSpecs`): rows and tables, load-time cleaning, both
  dropdowns, the four-case filter, the displayed projection and the count.

The selections are plain strings. They are compared with the literal `全部`
exactly as the page compares them. So a spreadsheet brand or model that is
literally `全部` would act as the wildcard. The model keeps that behaviour.

The repository's documentation describes option pricing, quote totals and printed
quote sheets. None of that is in `app.py`, so this model follows the code and
leaves it out.

## Model

| member | source | states |
|---|---|---|
| `StrOrder.BelowIrreflexive` | app.py:30 | No string sorts strictly before itself under the order `sorted` uses. |
| `StrOrder.BelowTransitive` | app.py:30 | The string order `sorted` uses is transitive. |
| `StrOrder.BelowAsymmetric` | app.py:30 | Two strings are never each below the other. |
| `StrOrder.BelowTotal` | app.py:30 | Any two different strings are ordered one way or the other, so sorting strings is well defined. |
| `StrOrder.AtMostTransitive` | app.py:30 | The non-strict order (`<=`) on strings is transitive. |
| `Lists.SubsequenceReflexive` | app.py:48 | Every table is a subsequence of itself, so the unfiltered branch keeps order. |
| `Lists.Filter` | app.py:50-54 | Mask selection keeps exactly the elements that satisfy the mask and is an order-preserving subsequence. |
| `Lists.FilterAppend` | app.py:50-54 | Selecting from a concatenation is the concatenation of the selections. |
| `Lists.FilterSameMask` | app.py:50-54 | Two masks that agree on every row select the same rows. |
| `Lists.FilterAllTrue` | app.py:48 | A mask that is true on every row selects the whole table unchanged. |
| `Lists.FilterCount` | app.py:71 | The selection has exactly one element per position where the mask is true. |
| `Lists.Unique` | app.py:36 | `unique()` has no duplicates and holds exactly the values of the column. |
| `Lists.Sort` | app.py:30 | `sorted` returns a permutation of its input (same multiset) in non-decreasing order. |
| `Lists.InsertAscending` | app.py:30 | Inserting into a non-decreasing list keeps it non-decreasing. |
| `Lists.InsertStrictlyAscending` | app.py:30 | Inserting a new value into an increasing list keeps it increasing. |
| `Lists.SortStrictlyAscending` | app.py:30 | Sorting a list without duplicates gives a strictly increasing list. |
| `Lists.StrictlyAscendingNoDuplicates` | app.py:30 | An increasing list repeats no element. |
| `Lists.SortedUnique` | app.py:30 | `sorted(col.unique())` is increasing, has no duplicates and holds exactly the column's values. |
| `Lists.StrictlyAscendingUnique` | app.py:42 | Two increasing lists with the same elements are equal, so any correct sort yields the same dropdown. |
| `CarSpecs.DropIncomplete` | app.py:18 | After cleaning, every row has a brand and a model. A row is kept iff it had both, in original order, one row per complete input row. |
| `CarSpecs.DropIncompleteIdempotent` | app.py:18 | Cleaning an already cleaned table changes nothing. |
| `CarSpecs.Brands` | app.py:30 | The brand column has one present brand per row of a cleaned table. |
| `CarSpecs.Models` | app.py:36 | The model column has one present model per row of a cleaned table. |
| `CarSpecs.BrandOptions` | app.py:30 | The brand dropdown is `全部` followed by an increasing, duplicate-free list of exactly the brands in the table. |
| `CarSpecs.BrandOptionsExact` | app.py:30 | Any increasing list of exactly the table's brands is the brand dropdown after `全部`. |
| `CarSpecs.RowsOfBrand` | app.py:38 | The brand mask (also the filter's brand-only case at line 52) selects exactly the rows with that brand. |
| `CarSpecs.ModelOptions` | app.py:35-42 | The model dropdown is `全部` followed by an increasing, duplicate-free list of exactly the models of all rows (brand `全部`) or of the chosen brand's rows. |
| `CarSpecs.ModelOptionsExact` | app.py:35-42 | Any increasing list of exactly those models is the model dropdown after `全部`. |
| `CarSpecs.FilterRows` | app.py:47-54 | The shown table is a subsequence of the table holding exactly the rows that match the selection. With both dropdowns on `全部` it is the whole table. |
| `CarSpecs.FilterRowsIsWildcardRule` | app.py:47-54 | The four cases equal one selection by the rule "(brand is `全部` or equals the row's brand) and (model is `全部` or equals the row's model)". |
| `CarSpecs.Display` | app.py:59 | Projecting to the five displayed columns keeps one entry per row, each that row's columns. |
| `CarSpecs.MatchCount` | app.py:71 | The reported count is the number of shown rows and the number of table rows that match the selection. |
| `CarSpecs.ModelOfferedIffShown` | app.py:35-54 | For a specific model, the model is offered under the chosen brand iff selecting it shows at least one row. |
| `CarSpecs.OfferedSelectionShown` | app.py:28-54 | A brand and a model picked from the offered dropdowns show at least one row iff the table is non-empty. |

## Left out

- Page setup, the sidebar, the `selectbox` widgets, table rendering and column
  formatting (app.py:6-10, 24-25, 57-68): presentation through the UI framework.
  The user's choices are parameters of the functions instead.
- The memoisation decorator (app.py:13): framework caching with no effect on
  the values.
- Reading the `.xlsx` file (app.py:15-16): file I/O through pandas and openpyxl.
  The loaded sheet is an input `Table`.
- Cell types: brand, model, class and price band are strings, and the mm columns
  are integers. A spreadsheet cell that pandas reads as a number where the others
  are text (a model named `86`, say) would make Python's `sorted` raise a
  `TypeError`. The model does not represent mixed-type columns, so it does not
  capture that failure.
- Columns of the sheet other than brand, model and the five displayed ones are
  never read by the page and are not part of `Row`.
- The `%d mm` number format (app.py:61-63): presentation only.
- Option pricing, quote totals and printing: not present in `app.py`.
