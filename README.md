# Feature-file loader and dataset view, modelled in Dafny

This project models `info_leakage/data_utils.py` from the reWeFDE website-fingerprinting
toolkit. The file has two parts:

- `load_data` reads per-site feature files named `<class>_<rest>.<ext>`. It coerces every
  field to a number: empty fields are dropped, and fields that do not parse become 0.
  A file with fewer than 500 lines is skipped. A longer file is cut to its first 500 lines.
  Each kept line is labelled `class - 1`. At the end the labels are remapped to their rank
  among the distinct labels (0, 1, 2, ...). A cache file short-circuits all of this when it exists.
- `WebsiteData` is a read-only view over the pair (X, Y). It offers a length, the site and
  feature ranges, per-site row selection (optionally one column), column selection and a
  copy of the labels.

Layout:

- `wrappers.dfy`: `Option` and `Result`.
- `seqs.dfy`: occurrence counting, and the fact that counts over the values 0..k-1 add up
  to the length.
- `text.dfy`: `str.endswith` and `str.split` for the file name, with `Join` as the inverse
  of `Split`.
- `labels.dfy`: the sorted distinct label list, the position lookup and the dense remap,
  with their properties.
- `loader.dfy`: `load_data`.
  - Pure specification: `FileContribution` (one turn of the loop over files), `Scan` (all
    files) and `Load` (scan, then remap).
  - Imperative `LoadData` method: a loop that extends X and Y, and `DenseLabels`, the loop
    that fills the dictionary `d`. Both are proved equal to the specification.
- `website_data.dfy`: class `WebsiteData`, with constant fields and functions returning
  fresh sequences.

Inputs that the model takes as parameters:

- The directory walk's output is a sequence of `FeatureFile(name, rows)` values in walk
  order, with the files of all directories concatenated.
- Each row is the list of fields the CSV reader yields for one line. A blank line is `[]`.
  As in the code, a blank line still counts as an instance toward the 500-line threshold.
- Python's `float()` and `int()` are the two oracles of `Parsers`. Each returns `None` where
  Python raises `ValueError`.
- The cache is an `Option<Dataset>` input: the contents of `features.pkl` if it exists.
  What the loader stores in the cache is the `written` output.
- The two `ValueError`s raised while the files are read are `LoadError` values:
  - the file name does not unpack into two parts on `_`;
  - `int(cls)` fails. This is raised only for a kept file, because `int(cls)` runs only
    inside the 500-line branch.

## Model

| member | source | states |
|---|---|---|
| Text.SplitJoin | info_leakage/data_utils.py:118 | joining the pieces of `name.split("_")` with `_` gives back the name |
| Text.Split | info_leakage/data_utils.py:118 | `file.split("_")`: no piece contains the separator, and there is one piece more than separators |
| Text.SplitInTwo | info_leakage/data_utils.py:118 | `cls, ls = file.split("_")` unpacks iff the name has exactly one `_`, and then name == cls + "_" + ls |
| Text.EndsWith | info_leakage/data_utils.py:106 | `fi.endswith(extension)` holds only for a name that is some prefix followed by the extension |
| Text.EndsWithAppend | info_leakage/data_utils.py:106 | conversely, any prefix followed by the extension ends with it |
| Loader.Matching | info_leakage/data_utils.py:105-106 | the filtered list holds exactly the files whose name ends with the extension |
| Loader.MatchingAppend | info_leakage/data_utils.py:106 | the filter keeps order and duplicates: it distributes over concatenation |
| Loader.MatchingSingle | info_leakage/data_utils.py:106 | a single file is kept iff its name ends with the extension |
| Loader.Coerce | info_leakage/data_utils.py:108-121 | a field that `float()` parses becomes its value, any other field becomes 0 |
| Loader.CoerceRow | info_leakage/data_utils.py:108-121 | a line keeps one value per non-empty field: its length is the field count minus the empty fields |
| Loader.CoerceRows | info_leakage/data_utils.py:120-121 | every line, blank ones included, stays one instance |
| Loader.CoerceRowAppend | info_leakage/data_utils.py:121 | coercion keeps field order: it distributes over concatenation |
| Loader.CoerceRowNoBlanks | info_leakage/data_utils.py:108-121 | without empty fields, field k becomes its float value if it parses and 0 otherwise |
| Loader.FileContribution | info_leakage/data_utils.py:116-127 | one file fails iff it matches and its name does not split in two, or it has 500+ lines and its class is not an int; otherwise it adds 500 rows (its first 500 coerced lines) when it matches and has at least 500 lines, else none, with every label equal to class - 1 |
| Loader.Scan | info_leakage/data_utils.py:101-127 | after the loop over files, X and Y have equal length, a multiple of 500 and at most 500 per file |
| Loader.ScanIgnoresNonMatching | info_leakage/data_utils.py:103-106 | files not ending with the extension change neither X nor Y |
| Loader.ScanErrorSticks | info_leakage/data_utils.py:116-127 | once a file raises, the remaining files do not change the outcome |
| Loader.ScanFirstError | info_leakage/data_utils.py:116-127 | the loop fails iff some file's step fails, and with the error of the first such file |
| Loader.ScanLabelsFromKeptFiles | info_leakage/data_utils.py:123-127 | every raw label is class - 1 of some kept file (matching, name in two parts, 500+ lines, integer class) |
| Loader.ScanKeptFilesLabelled | info_leakage/data_utils.py:116-127 | when the loop succeeds, every matching file with 500+ lines is kept and its class - 1 is among the raw labels |
| Loader.ScanLabelSet | info_leakage/data_utils.py:116-127 | the distinct raw labels are exactly the labels class - 1 of the kept files |
| Loader.Load | info_leakage/data_utils.py:101-134 | the uncached load fails exactly when the scan fails, and otherwise X and Y have equal length |
| Loader.LoadedLabelsDense | info_leakage/data_utils.py:116-134 | the loaded labels are exactly 0..k-1, with k the number of distinct classes among the kept files, and their order follows the raw labels |
| Loader.LoadData | info_leakage/data_utils.py:88-142 | with a cache it returns the cached pair and writes nothing; otherwise it returns the specified load and writes exactly the pair it returns, and nothing on an error |
| Loader.DenseLabels | info_leakage/data_utils.py:129-134 | the dictionary loop maps every label to its position among the sorted distinct labels |
| Loader.ReloadFromCache | info_leakage/data_utils.py:95-142 | a second load that reads the cache written by the first returns the same result |
| Labels.Insert | info_leakage/data_utils.py:129-130 | adding a label to a strictly increasing list keeps it strictly increasing and adds exactly that label |
| Labels.SortedDistinct | info_leakage/data_utils.py:129-130 | `labels` is strictly increasing and holds exactly the values of Y |
| Labels.IndexOf | info_leakage/data_utils.py:131-134 | `d[x]` is a position of x in `labels` |
| Labels.Remap | info_leakage/data_utils.py:134 | the remap keeps the length, and each new label is the position of the old one among the sorted distinct labels |
| Labels.DistinctCount | info_leakage/data_utils.py:61 | `len(np.unique(Y))`: the length of the sorted distinct list, zero only for no labels |
| Labels.RemapDense | info_leakage/data_utils.py:129-134 | every new label is in [0, k) and every value of [0, k) is used |
| Labels.RemapMonotone | info_leakage/data_utils.py:129-134 | the remap preserves and reflects both < and = between labels |
| Labels.RemapDistinctCount | info_leakage/data_utils.py:129-134 | the remap keeps the number of distinct labels |
| Labels.RemapIsRank | info_leakage/data_utils.py:129-134 | a new label is the number of distinct raw labels strictly below the old one |
| WebsiteView.Mask | info_leakage/data_utils.py:76 | entry i of the mask is true iff label i equals the site |
| WebsiteView.Select | info_leakage/data_utils.py:79 | boolean indexing keeps one element per true mask entry, each taken from the input |
| WebsiteView.Positions | info_leakage/data_utils.py:76 | positions whose label equals the site, increasing, one per occurrence |
| WebsiteView.PositionsComplete | info_leakage/data_utils.py:76 | every position whose label equals the site is among them |
| WebsiteView.SelectByMask | info_leakage/data_utils.py:76-79 | boolean indexing with the site's mask picks the rows at the site's positions, in order |
| WebsiteView.SelectColumn | info_leakage/data_utils.py:78 | selecting column c of all rows by the mask gives column c of the selected rows |
| WebsiteView.WebsiteData.constructor | info_leakage/data_utils.py:57-61 | stores X and Y; `features` is the column count; `sites` is the number of distinct labels |
| WebsiteView.WebsiteData.Length | info_leakage/data_utils.py:63-64 | the length is the number of rows of X |
| WebsiteView.WebsiteData.GetLabels | info_leakage/data_utils.py:66-70 | a copy of the labels, equal to Y |
| WebsiteView.WebsiteData.Column | info_leakage/data_utils.py:78 | numpy's column index: in range, and either the requested index or that index counted back from the end |
| WebsiteView.WebsiteData.GetSite | info_leakage/data_utils.py:72-79 | exactly the rows labelled with the site, in their original order, as many as the site's occurrences in `get_labels()`; none when there are no labels |
| WebsiteView.WebsiteData.GetSiteFeature | info_leakage/data_utils.py:72-79 | column `feature` of each row `get_site(site)` returns |
| WebsiteView.WebsiteData.GetFeature | info_leakage/data_utils.py:81-85 | one entry per row: that row's value in column `feature` |
| WebsiteView.SitesPartitionRows | info_leakage/data_utils.py:61-79 | when labels lie in range(sites), the sizes of all `get_site` selections add up to `len` |
| WebsiteView.LoadedViewSites | info_leakage/data_utils.py:61-79 | over a loaded pair, every site in range(sites) selects at least one row, and together they select every row |

## Left out

- Logging (`ready_logger` and the module-level logger): configuration of output streams only.
- Pickle serialisation and opening `features.pkl`. The cache is an optional input pair and a written output.
  The model does not capture that the cache ignores the extension and delimiter arguments: it is keyed by
  the directory alone.
- The order of `os.walk`, which depends on the filesystem. The walk's output is an input sequence.
- The CSV reader's quoting, dialect and delimiter handling. Rows arrive already split into fields.
- The grammar of Python's `float()` and `int()`. They are the oracle parameters of `Parsers`.
- Floating-point values. Feature values are `real`, and the model never computes with them. Python's
  `float()` also accepts "nan", "inf" and out-of-range literals such as "1e999", whose values are not reals;
  the `toFloat` oracle cannot return those values.
- NumPy array conversion (`np.array(X)`, `np.array(Y)`). X stays a sequence of rows of any length.
- Loader.LoadData: returns Ok and writes the pair even when the kept instances have different lengths,
  for example when a blank or shorter line is among a file's first 500. There `np.array(X)` at
  data_utils.py line 137 raises ValueError on NumPy 1.24 and later, so the source returns nothing and
  writes no cache (older NumPy builds an object array instead). The model does not capture that error.
- Aliasing. `WebsiteData.__init__` keeps references to the caller's arrays. The model keeps values in
  constant fields, so neither the view nor any caller can change them after construction.
- WebsiteView.WebsiteData.constructor: requires a non-empty rectangular X. `X.shape[1]` fails on a 1-D
  array, and an empty 2-D array with columns cannot be represented as a sequence of rows.
- WebsiteView.WebsiteData.GetSite: requires |X| == |Y| or no labels at all. With no labels the mask is
  the empty list, which numpy reads as an empty integer index, and the model returns no rows as numpy
  does. Any other length mismatch makes numpy's boolean indexing raise IndexError, which is not
  modelled as an error value. The same holds for GetSiteFeature.
- WebsiteView.WebsiteData.GetFeature: an out-of-range column (numpy IndexError) is excluded by the
  precondition rather than modelled as an error. The same holds for GetSiteFeature.
- The ECDF exporter (`graphing/ecdf.py`). It is a wrapper over a statistics library, with argument
  parsing and float formatting. It is not part of this model.
