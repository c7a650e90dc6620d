# cyphy2cad-postprocess: the reader and the JSON helpers, in Dafny

This project models the core of `cyphy2cad-postprocess`. The core is `CyPhy2CADReader`, which reads the three
XML documents CyPhy2CAD leaves in an output directory into one per-component dict. It also models the two text
and value helpers of `json_utils`.

- **Documents and numbers.** An XML document is an `Element` tree (`Xml`). `iter` is a pre-order walk. `find`
  and `findall` run the ElementPath subset the reader uses: child steps and one `[@attr='value']` filter.
  A number is the literal `float()` accepted (`Numbers`). The ASCII literal syntax of Python 2's `float()`
  is recognised (sign, digits, point, exponent, `inf`, `infinity` and `nan` in any case, surrounding
  whitespace), and no arithmetic is done on the number.
- **The helpers** (`Extract`):
  - `extract_matrix` pre-fills a zero grid of the requested shape (3x3 by default). It then overwrites one cell
    per `Rows/Row/Column`.
  - A non-numeric cell raises.
  - So does a cell outside the grid.
  - `extract_xyz_vector` reads X, Y, Z in that order. `get_scalar` gives None when no Scalar of that name exists.
- **The three passes**:
  - `_parse_cadassembly_xml` (`AssemblyPass`).
  - `_parse_cadassembly_metrics_xml` (`MetricsPass`).
  - `_parse_computed_values_xml` (`ComputedValuesPass`).

  Each is written twice:
  - As a function from the document to the partial records the pass merges, or the exception it raises.
  - As imperative methods: the mining loops, then the record loop `components[comp].update(component_data)`.
    These are proved equal to the functions.

  The per-key dicts the loops fill are `TableBy`/`OptTableBy` (`Tables`). Assignment in document order means
  the last element with a key wins. The lemmas state that rule in terms of the elements.
- **The data and the reader** (`Records`, `Reader`).
  - `CadData` is `CyPhy2CADData`: the three stored documents and the `components` defaultdict, a
    `map<ComponentId, map<Field, Value>>`.
  - `CadReader` is `CyPhy2CADReader`: the chosen directory and `cadData`, the `cad_data` property. It is
    `null` until a parse.
  - `Parse` installs a fresh `CadData` and runs the passes in order. It is proved equal to the function
    `ParseAll`.
  - The lemmas about `ParseAll` state the key set after a parse: the union of the three ID sets. They also
    state that every field holds what its one writing pass wrote.
- **`json_utils`** (`JsonUtils`).
  - `newline_replace` is modelled on strings. The lemmas show that its replacement is one line with single
    spaces. It keeps the tokens in order, and it is idempotent.
  - `_byteify` is modelled on a JSON value datatype. The lemmas cover the list rule, the dict rule (which keys
    remain and which value each keeps) and the fixed points. They also show that the encoding is invertible
    outside dicts, so it keeps the size of a dict.

Component and MetricIDs are `Option<string>`, because `Element.get` returns None for a missing attribute and
None is a valid dict key. A dict value of None (`Null`) is kept distinct from a missing key.

The model follows the code in these behaviours:
- **Missing matrix cells.** `extract_matrix` leaves a cell that no Column covers at 0. It is not an error.
- **Absent items.** The metrics pass writes every one of its twelve keys for every component. An absent centre
  of gravity, inertia tensor, principal-moments block or scalar is stored as None, and so are the rotation and
  translation of a component that is not a child of MetricID '1'.
- **Failing passes.** A failing pass can leave fields of earlier passes, and of the records it already merged,
  in the fresh `CyPhy2CADData` the reader has installed.
- **Uncaught errors.** Each of these raises, and the parse stops there:
  - A `Metric` without MetricID raises TypeError.
  - A component whose MetricID no MetricComponent defines raises KeyError.
  - A ChildMetric without RotationMatrix or Translation raises AttributeError, as does a MetricComponent
    without BoundingBox or Units.
  - A matrix cell outside the requested shape raises IndexError.

## Model

| member | source | states |
|---|---|---|
| Numbers.ParseNum | src/cyphy2cad_postprocess/reader.py:105 | `float(x)` succeeds exactly on a present attribute holding a Python float literal, and otherwise fails with the offending value |
| Numbers.IsFloatLiteral | src/cyphy2cad_postprocess/reader.py:105 | a string that is empty or all whitespace is never a float literal (`float('')` raises) |
| Numbers.FloatLiteralPadded | src/cyphy2cad_postprocess/reader.py:105 | whitespace padding on either side does not change whether `float()` accepts a string |
| Numbers.FloatLiteralAccepted | src/cyphy2cad_postprocess/reader.py:105 | a signed literal with digits, a point, a fraction and an exponent is accepted |
| Numbers.FloatLiteralsRejected | src/cyphy2cad_postprocess/reader.py:105 | a blank string, a decimal comma and an exponent without digits are rejected |
| Numbers.SignedDigitsLiteral | src/cyphy2cad_postprocess/reader.py:105 | every non-empty ASCII digit string, with no sign, `+` or `-`, is accepted by `float()` |
| Numbers.ParseList | src/cyphy2cad_postprocess/reader.py:213 | the list comprehension parses every item in order, and fails iff some item is not a float literal |
| Text.SplitOn | src/cyphy2cad_postprocess/reader.py:213 | `split(sep)` gives at least one piece, no piece holds the separator, a string without the separator is its only piece, and one with it gives two or more |
| Text.LastPiece | src/cyphy2cad_postprocess/reader.py:212 | `split(":")[-1]` holds no ':'; LastPieceIsTail states where it lies in the string |
| Text.JoinSplit | src/cyphy2cad_postprocess/reader.py:213 | joining the pieces of `s.split(";")` with ';' gives `s` back |
| Text.SplitJoin | src/cyphy2cad_postprocess/reader.py:213 | splitting separator-free pieces joined by the separator gives the pieces back |
| Text.LastPieceIsTail | src/cyphy2cad_postprocess/reader.py:212 | `split(":")[-1]` is the suffix after the last ':' and holds no ':'; without a ':' it is the whole string |
| Xml.Get | src/cyphy2cad_postprocess/reader.py:53 | `element.get(name)` is the attribute's value when the element has it, and None otherwise |
| Xml.FindAll | src/cyphy2cad_postprocess/reader.py:103-104 | every element `findall` returns carries the tag (and attribute filter) of the path's last step; FindAllTwoSteps states which ones are returned |
| Xml.Iter | src/cyphy2cad_postprocess/reader.py:52 | `iter(tag)` yields only elements with that tag, starting with the element itself when it matches |
| Xml.IterIncludesNested | src/cyphy2cad_postprocess/reader.py:210 | `iter` also reaches elements nested at any depth below a child |
| Xml.Find | src/cyphy2cad_postprocess/reader.py:137 | `find` is None iff `findall` is empty, and otherwise returns the first of its matches, in document order |
| Xml.FindAllTwoSteps | src/cyphy2cad_postprocess/reader.py:103 | a two-step path matches exactly the matching grandchildren under matching children |
| Extract.Required | src/cyphy2cad_postprocess/reader.py:120-121 | a sub-element used without a None check either exists or raises a missing-element error naming it |
| Extract.Zeros | src/cyphy2cad_postprocess/reader.py:102 | the pre-filled grid has the requested shape and every cell is 0 |
| Extract.SetCell | src/cyphy2cad_postprocess/reader.py:105 | the Value is parsed before the grid is indexed: a bad Value raises its own error even outside the grid, a good one raises IndexError only outside the grid; on success the row count and the row's length are kept and cell (i, j) holds the value |
| Extract.MatrixOf | src/cyphy2cad_postprocess/reader.py:99-106 | `extract_matrix` succeeds iff every Column's Value parses and lies inside the requested shape (3x3 by default), and then returns a grid of that shape; MatrixCells gives every cell |
| Extract.FillRowOf | src/cyphy2cad_postprocess/reader.py:104-105 | the column loop of one row returns exactly `FillRow`, including its first error |
| Extract.ExtractMatrix | src/cyphy2cad_postprocess/reader.py:99-106 | the cell-by-cell loop returns exactly `MatrixOf`, including its first error |
| Extract.FillRowCells | src/cyphy2cad_postprocess/reader.py:104-105 | the column loop of one row succeeds iff every cell parses and lies in the grid; it then keeps the shape, sets exactly the cells of that row and leaves every other cell alone |
| Extract.FillRowsCells | src/cyphy2cad_postprocess/reader.py:103-105 | the row loop succeeds iff every row's cells parse and fit; the grid keeps its shape; a cell is written by its row and column or keeps its old value |
| Extract.MatrixCells | src/cyphy2cad_postprocess/reader.py:99-106 | `extract_matrix` succeeds iff every cell parses and fits the shape (3x3 by default); the result has that shape, the value of the Column at row i, column j in cell (i, j), and 0 in every cell no Column covers |
| Extract.XyzVector | src/cyphy2cad_postprocess/reader.py:108-112 | the vector has three entries, X, Y and Z in that order, and fails iff one of them is missing or not a number |
| Extract.GetScalar | src/cyphy2cad_postprocess/reader.py:157-162 | None exactly when no `Scalars/Scalar` has the name; otherwise that Scalar's value, failing iff it is not a number |
| Extract.ScalarAbsent | src/cyphy2cad_postprocess/reader.py:157-162 | `get_scalar` gives None iff no child `Scalars` holds a `Scalar` with that Name attribute |
| Tables.TableBy | src/cyphy2cad_postprocess/reader.py:52-56 | the keys of a dict filled by `d[key(e)] = val(e)` are exactly the keys of the elements; TableByLast gives the value under each |
| Tables.OptTableBy | src/cyphy2cad_postprocess/reader.py:137-139 | a dict filled only when the value is present has no key that no element has; OptTableByLast states which keys and values |
| Tables.TableByLast | src/cyphy2cad_postprocess/reader.py:52-56 | a dict filled by `d[key(e)] = val(e)` in document order holds, under each key, the value of the last element with that key |
| Tables.OptTableByLast | src/cyphy2cad_postprocess/reader.py:137-139 | a dict filled only when the value is present holds a key iff some element gives it a value, and then the value of the last such element |
| Tables.GetOrNone | src/cyphy2cad_postprocess/reader.py:181 | `d.get(k, None)` is the value under `k` when `k` is a key, and None otherwise |
| Tables.GetOptTable | src/cyphy2cad_postprocess/reader.py:186 | `.get(met, None)` on a conditionally filled dict is None iff no element with that key has the value, and else the last one's value |
| Tables.Collect | src/cyphy2cad_postprocess/reader.py:123-175 | a loop whose body may raise succeeds iff every iteration does; it stops at the first failing element and raises its error |
| Records.Update | src/cyphy2cad_postprocess/reader.py:72 | `components[id].update(partial)` adds `id`, gives the partial record's fields its values, keeps the other fields and leaves other components unchanged |
| Records.Merge | src/cyphy2cad_postprocess/reader.py:65-72 | after a pass's updates, the component IDs are the old ones plus the pass's |
| Records.MergeKeepsOtherFields | src/cyphy2cad_postprocess/reader.py:72 | an update only adds or overwrites the fields its record carries: no field is removed and every other field keeps its value |
| Records.MergeInsert | src/cyphy2cad_postprocess/reader.py:65-72 | merging a table with one more record is one more `update` |
| Records.MergeField | src/cyphy2cad_postprocess/reader.py:72 | after an update, a field is present iff it was before or the record carries it, and the record's value wins |
| Records.Combine | src/cyphy2cad_postprocess/reader.py:35-37 | after the three passes the component IDs are the union of the three passes' IDs |
| Records.CombineField | src/cyphy2cad_postprocess/reader.py:35-37 | when no two passes write the same field, a field after the three passes is present iff one pass wrote it, with the value that pass wrote |
| AssemblyPass.AssemblyPartials | src/cyphy2cad_postprocess/reader.py:65-72 | the assembly pass writes one record per ComponentID of any CADComponent, each with exactly `component_name`, `cad_filename_original` and `cad_type` |
| AssemblyPass.AssemblyRecordOfLast | src/cyphy2cad_postprocess/reader.py:52-72 | a ComponentID gets a record iff some CADComponent has it; the record holds DisplayName, Name and Type of the last such CADComponent |
| AssemblyPass.MineAssembly | src/cyphy2cad_postprocess/reader.py:52-56 | the mining loop's three dicts are the keyed tables of DisplayName, Name and Type |
| MetricsPass.PlacementOf | src/cyphy2cad_postprocess/reader.py:119-121 | a ChildMetric is read into its ComponentInstanceID, its RotationMatrix as a 3x3 grid and its Translation in X, Y, Z order, or raises |
| MetricsPass.MetricDataOf | src/cyphy2cad_postprocess/reader.py:123-175 | a MetricComponent without BoundingBox raises before anything else is read; one read without error has BoundingBox and Units and carries its own MetricID, CoordinateSystem and Name; MetricDataFacts gives the rest |
| MetricsPass.MetricDataFacts | src/cyphy2cad_postprocess/reader.py:123-175 | a MetricComponent read without error holds its own MetricID, CoordinateSystem, Name, bounding box and units; each optional item is present iff its element is; each inertia tensor is the one with its own At value |
| MetricsPass.MetricsPartials | src/cyphy2cad_postprocess/reader.py:178-197 | when the metrics pass succeeds, it writes a record for exactly the ComponentInstanceIDs of the CADComponents |
| MetricsPass.MetricRecordKeys | src/cyphy2cad_postprocess/reader.py:179-196 | every metrics record has exactly the twelve keys of `component_data` |
| MetricsPass.MetricRecordFields | src/cyphy2cad_postprocess/reader.py:179-196 | each of the twelve fields holds the joined value for that key, None where the source has `.get(…, None)` and nothing |
| MetricsPass.InertiaDictFields | src/cyphy2cad_postprocess/reader.py:187-191 | `inertia` is a dict with exactly the two tensors and the principal-moments block, each None when absent |
| MetricsPass.JoinWritten | src/cyphy2cad_postprocess/reader.py:178-197 | the metrics pass writes only metrics fields |
| MetricsPass.CollectedMetricData | src/cyphy2cad_postprocess/reader.py:123-175 | the data read from the MetricComponents lines up one to one with them, each describing its own element |
| MetricsPass.CollectedMetricIds | src/cyphy2cad_postprocess/reader.py:123-124 | the MetricIDs of the read data are the MetricIDs of the MetricComponents |
| MetricsPass.CollectedPlacements | src/cyphy2cad_postprocess/reader.py:118-121 | the placements read line up one to one with the ChildMetrics, each carrying its own ComponentInstanceID |
| MetricsPass.PlacementsByLast | src/cyphy2cad_postprocess/reader.py:118-121 | a component has a rotation iff it has a translation iff some ChildMetric names it; both come from the last such ChildMetric |
| MetricsPass.PlacedByJoin | src/cyphy2cad_postprocess/reader.py:181-182 | `comp_to_rotation.get(comp, None)` and the translation are None iff no ChildMetric names the component, else the last one's |
| MetricsPass.MetricsPlacement | src/cyphy2cad_postprocess/reader.py:118-121 | a component's `rotation` and `translation` come only from the ChildMetrics under the MetricComponent with MetricID '1', from the last one naming it, and are None otherwise |
| MetricsPass.MetricsRecordJoin | src/cyphy2cad_postprocess/reader.py:178-197 | a component's metrics record is its placement joined with the MetricComponent data of its MetricID |
| MetricsPass.MetricsRecordKeys | src/cyphy2cad_postprocess/reader.py:115-116 | a metrics record has the twelve keys, and `metric_id` is the MetricID of the last CADComponent with that ComponentInstanceID |
| MetricsPass.JoinedAlwaysWritten | src/cyphy2cad_postprocess/reader.py:123-135 | the always-written per-MetricID values come from the last MetricComponent with that MetricID |
| MetricsPass.AlwaysWrittenRecord | src/cyphy2cad_postprocess/reader.py:183-195 | a record built from data that agrees with a MetricComponent carries that element's CoordinateSystem, Name, bounding box, scalars and units |
| MetricsPass.LastMetricComponent | src/cyphy2cad_postprocess/reader.py:123-124 | the last read datum with a MetricID is the datum of the last MetricComponent with it |
| MetricsPass.AlwaysWrittenByLast | src/cyphy2cad_postprocess/reader.py:183-195 | the always-written fields of a record come from the last MetricComponent with its MetricID |
| MetricsPass.MetricsAlwaysWritten | src/cyphy2cad_postprocess/reader.py:183-195 | `coordinate_system`, `cad_filename_generated`, `bounding_box`, the scalars and `units` of a component come from the last MetricComponent with its MetricID |
| MetricsPass.OptionalNone | src/cyphy2cad_postprocess/reader.py:137-155 | an optional per-MetricID value is None iff no MetricComponent with the MetricID has the element |
| MetricsPass.OptionalLast | src/cyphy2cad_postprocess/reader.py:137-155 | a present optional per-MetricID value is that of the last MetricComponent with the MetricID that has the element |
| MetricsPass.CogByLast | src/cyphy2cad_postprocess/reader.py:137-139 | `center_of_gravity` is None iff no MetricComponent with the MetricID has a CG, else the last such CG in X, Y, Z order |
| MetricsPass.InertiaByLast | src/cyphy2cad_postprocess/reader.py:141-147 | each inertia tensor is None iff no MetricComponent with the MetricID has one with that At value, else the last such tensor |
| MetricsPass.PrincipleByLast | src/cyphy2cad_postprocess/reader.py:149-155 | the principal-moments block is None iff none is present, else the last one: its rotation as 3x3 and its moments as 3x1 |
| MetricsPass.OptionalRecord | src/cyphy2cad_postprocess/reader.py:186-191 | a record's CG, two tensors and principal moments follow the optional rules above |
| MetricsPass.MetricsOptional | src/cyphy2cad_postprocess/reader.py:137-155 | in a component's metrics record the optional items are None exactly when absent, each inertia tensor chosen by its At value |
| MetricsPass.MetricsOutcome | src/cyphy2cad_postprocess/reader.py:115-197 | the pass fails on the first bad ChildMetric, then on the first bad MetricComponent, then iff some component's MetricID is defined by no MetricComponent |
| MetricsPass.MetricsPartialsJoin | src/cyphy2cad_postprocess/reader.py:178-197 | the pass's records are the join of the four mined tables |
| MetricsPass.RecordForAt | src/cyphy2cad_postprocess/reader.py:178-197 | the record loop's body gives a component a record iff its MetricID is defined, and that record is the joined one |
| MetricsPass.JoinRecordsBuilt | src/cyphy2cad_postprocess/reader.py:178-197 | when every MetricID is defined, the loop body's records are the joined table |
| MetricsPass.JoinIsBuilt | src/cyphy2cad_postprocess/reader.py:178-197 | the join succeeds iff the loop body succeeds for every component, and then it is what the loop builds |
| MetricsPass.Tabulate | src/cyphy2cad_postprocess/reader.py:123-175 | the dicts written on every MetricComponent share one key set, the MetricIDs of the MetricComponents read |
| MetricsPass.TabulateSnoc | src/cyphy2cad_postprocess/reader.py:123-175 | one more MetricComponent overwrites each always-written per-MetricID dict, and an optional one only when its element is present |
| MetricsPass.CompToMetric | src/cyphy2cad_postprocess/reader.py:115-116 | `comp_to_metric` has a key for exactly the ComponentInstanceIDs of the CADComponents, at any depth |
| MetricsPass.Join | src/cyphy2cad_postprocess/reader.py:178-197 | the record loop succeeds iff every component's MetricID is defined by some MetricComponent, else raises the undefined-MetricID error; it then writes a record for exactly the components of `comp_to_metric` |
| MetricsPass.MineCompToMetric | src/cyphy2cad_postprocess/reader.py:115-116 | the loop's dict is the table from ComponentInstanceID to MetricID |
| MetricsPass.ReadPlacement | src/cyphy2cad_postprocess/reader.py:119-121 | one ChildMetric iteration returns or raises exactly what `PlacementOf` says |
| MetricsPass.MinePlacements | src/cyphy2cad_postprocess/reader.py:118-121 | the ChildMetric loop fills the rotation and translation tables, or raises the first error |
| MetricsPass.ReadBox | src/cyphy2cad_postprocess/reader.py:128-135 | the bounding box with its outline points, collected by the append loop |
| MetricsPass.ReadTensor | src/cyphy2cad_postprocess/reader.py:141-147 | an inertia tensor is read when found and is None otherwise |
| MetricsPass.ReadPrincipleBlock | src/cyphy2cad_postprocess/reader.py:149-155 | the principal-moments block is read when found and is None otherwise |
| MetricsPass.ReadMetricComponent | src/cyphy2cad_postprocess/reader.py:123-175 | one MetricComponent iteration returns or raises exactly what `MetricDataOf` says |
| MetricsPass.MineMetricComponents | src/cyphy2cad_postprocess/reader.py:123-175 | the MetricComponent loop fills the per-MetricID tables, or raises the first error |
| MetricsPass.MineMetrics | src/cyphy2cad_postprocess/reader.py:115-175 | the three mining loops raise exactly the error the pass raises, or give the tables whose join is the pass's records |
| ComputedValuesPass.PointOf | src/cyphy2cad_postprocess/reader.py:211-214 | a Metric without MetricID raises; one without ':' or ArrayValue is skipped; otherwise it gives a point |
| ComputedValuesPass.PointRule | src/cyphy2cad_postprocess/reader.py:211-214 | a Metric gives a point iff its MetricID has a ':', it has an ArrayValue and every ';'-item is a number; the name is the part after the last ':' and the value is the items in order |
| ComputedValuesPass.PointsFrom | src/cyphy2cad_postprocess/reader.py:209-214 | the Metric loop of one Component; PointsFromRule states what it returns and raises |
| ComputedValuesPass.PointsFromRule | src/cyphy2cad_postprocess/reader.py:209-214 | a Component's points succeed iff each Metric does, and otherwise fail with the first failing Metric's error; a name is present iff some Metric names it, with the value of the last such Metric |
| ComputedValuesPass.CollectedPoints | src/cyphy2cad_postprocess/reader.py:210-214 | the points read line up one to one with the Metrics; one is present iff its Metric names a point, with that name and value |
| ComputedValuesPass.HasPoints | src/cyphy2cad_postprocess/reader.py:215 | a Component has points iff one of its Metrics names a point |
| ComputedValuesPass.NestedPointsShared | src/cyphy2cad_postprocess/reader.py:210 | `iter('Metric')` also collects Metrics nested in child elements |
| ComputedValuesPass.PointsValue | src/cyphy2cad_postprocess/reader.py:214 | the `points` field is a dict from point name to its vector |
| ComputedValuesPass.ComputedPartials | src/cyphy2cad_postprocess/reader.py:219-223 | every computed-values record holds exactly `points` |
| ComputedValuesPass.ContributesMeans | src/cyphy2cad_postprocess/reader.py:215-216 | a Component contributes to an ID iff its points are read, its ComponentInstanceID is that ID and it has at least one point |
| ComputedValuesPass.PointsTableOk | src/cyphy2cad_postprocess/reader.py:207-216 | the Component loop succeeds iff every Component's Metrics do |
| ComputedValuesPass.PointsTableRule | src/cyphy2cad_postprocess/reader.py:207-216 | an ID is in `comp_to_points` iff some Component with it has a point, and it holds the last such Component's points |
| ComputedValuesPass.PointsTableKeys | src/cyphy2cad_postprocess/reader.py:207-216 | an ID is a key of `comp_to_points` iff some Component with it has a point |
| ComputedValuesPass.PointsTableLast | src/cyphy2cad_postprocess/reader.py:207-216 | for a stored ID, returns the last Component with that ID and a point, and the stored dict is that Component's points |
| ComputedValuesPass.ComputedPointsRule | src/cyphy2cad_postprocess/reader.py:207-223 | the pass succeeds iff each Component does; it writes `points` for exactly the IDs with a point, from the last such Component |
| ComputedValuesPass.MinePoints | src/cyphy2cad_postprocess/reader.py:209-214 | the Metric loop returns the points dict or the first error |
| ComputedValuesPass.MineComputedValues | src/cyphy2cad_postprocess/reader.py:207-216 | the Component loop returns `comp_to_points` or the first error |
| Reader.JoinPath | src/cyphy2cad_postprocess/reader.py:42 | `os.path.join`: an absolute name wins; otherwise the name follows the directory after at most one added '/' |
| Reader.LoadXml | src/cyphy2cad_postprocess/reader.py:42-43 | parsing gives the document's root iff the file exists and is XML; otherwise it raises the missing-file or malformed-XML error |
| Reader.ChooseDir | src/cyphy2cad_postprocess/reader.py:17-18 | None and the empty string fall back to the default directory; any other value is kept |
| Reader.ParseAllOutcome | src/cyphy2cad_postprocess/reader.py:33-37 | a parse succeeds iff the three files load and the metrics and computed-values passes succeed, and an unloadable CADAssembly.xml fails it first |
| Reader.ParseAll | src/cyphy2cad_postprocess/reader.py:28-39 | a successful parse's metrics and computed-values passes succeed, and its components are the three passes' records merged in order |
| Reader.AssemblyIds | src/cyphy2cad_postprocess/reader.py:52-53 | the assembly pass's IDs are the ComponentIDs of the CADComponents |
| Reader.MetricIds | src/cyphy2cad_postprocess/reader.py:115-116 | the metrics pass's IDs are the ComponentInstanceIDs of the CADComponents |
| Reader.ComputedIds | src/cyphy2cad_postprocess/reader.py:207-216 | the computed-values pass's IDs are those of the Components with at least one point |
| Reader.ParsedComponentIds | src/cyphy2cad_postprocess/reader.py:33-37 | after a parse the component IDs are exactly the union of the three documents' ID sets |
| Reader.ParsedField | src/cyphy2cad_postprocess/reader.py:33-37 | after a parse, a field is present iff the one pass owning it wrote it for that component, with the value that pass wrote: later passes keep earlier fields |
| Reader.AssemblyWritten | src/cyphy2cad_postprocess/reader.py:66-71 | the assembly pass writes only its three fields |
| Reader.MetricsWritten | src/cyphy2cad_postprocess/reader.py:179-196 | the metrics pass writes only its twelve fields |
| Reader.ComputedWritten | src/cyphy2cad_postprocess/reader.py:220-222 | the computed-values pass writes only `points` |
| Reader.CadData.constructor | src/cyphy2cad_postprocess/reader.py:227-235 | a new data object has no documents and no components |
| Reader.CadData.MergeRecords | src/cyphy2cad_postprocess/reader.py:219-223 | the record loop leaves `components` equal to the old components merged with the records, and touches nothing else |
| Reader.CadData.MergeBuilt | src/cyphy2cad_postprocess/reader.py:178-197 | a record loop whose body may raise succeeds iff every body does, and then merges what the bodies built |
| Reader.CadData.RecordMetrics | src/cyphy2cad_postprocess/reader.py:178-197 | the metrics record loop succeeds iff the join does and merges the joined records; otherwise it raises the undefined-MetricID error |
| Reader.CadData.Data | src/cyphy2cad_postprocess/reader.py:293-298 | `data` is a dict with the single key `components`, holding the components |
| Reader.CadReader.constructor | src/cyphy2cad_postprocess/reader.py:13-19 | a reader built without parsing stores the chosen directory and has no data yet |
| Reader.CadReader.Create | src/cyphy2cad_postprocess/reader.py:13-22 | with `parse` the constructor parses at once and fails with the parse's error; on success the new data object holds the three parsed documents and the merged components; without `parse` there is no data |
| Reader.CadReader.Parse | src/cyphy2cad_postprocess/reader.py:28-39 | installs fresh data; it succeeds iff `ParseAll` does, and then holds the three documents and the merged components and returns the installed object |
| Reader.CadReader.ParseCadAssembly | src/cyphy2cad_postprocess/reader.py:41-72 | stores the document and merges the assembly records; it fails, changing nothing, only when the file cannot be loaded |
| Reader.CadReader.AssemblyOfRoot | src/cyphy2cad_postprocess/reader.py:46-72 | the assembly loops merge exactly `AssemblyPartials` |
| Reader.CadReader.ParseMetrics | src/cyphy2cad_postprocess/reader.py:74-197 | stores the document; it succeeds iff the metrics pass does, merging its records, and fails with the pass's error otherwise, leaving the components unchanged unless the error is the undefined-MetricID KeyError |
| Reader.CadReader.MetricsOfRoot | src/cyphy2cad_postprocess/reader.py:79-197 | the metrics loops succeed iff `MetricsPartials` does and merge its records, or raise its error; a mining error leaves the components unchanged |
| Reader.CadReader.ParseComputedValues | src/cyphy2cad_postprocess/reader.py:199-223 | stores the document; it succeeds iff the pass does, merging its records; otherwise it fails leaving the components as they were |
| Reader.CadReader.PointsOfRoot | src/cyphy2cad_postprocess/reader.py:204-223 | the computed-values loops merge exactly `ComputedPartials`, or raise its error before writing anything |
| JsonUtils.RemoveNewlines | src/cyphy2cad_postprocess/json_utils.py:40 | `replace("\n", "")` leaves no newline |
| JsonUtils.Words | src/cyphy2cad_postprocess/json_utils.py:41 | `split()` gives non-empty tokens without whitespace |
| JsonUtils.NewlineReplace | src/cyphy2cad_postprocess/json_utils.py:39-43 | the replacement is group 1 followed by the collapsed group 2 |
| JsonUtils.SpacedOneLine | src/cyphy2cad_postprocess/json_utils.py:42 | `" " + token` for each token gives one line in which every whitespace character is a single space before a token |
| JsonUtils.CollapseOneLine | src/cyphy2cad_postprocess/json_utils.py:40-42 | the collapsed group holds no newline and no two adjacent whitespace characters |
| JsonUtils.WordsSquash | src/cyphy2cad_postprocess/json_utils.py:41-42 | the spaced-out tokens hold the non-whitespace characters of the input, in order |
| JsonUtils.CollapseKeepsTokens | src/cyphy2cad_postprocess/json_utils.py:40-42 | with whitespace deleted, the collapsed group equals group 2, and splitting it on whitespace gives exactly the tokens of group 2 with newlines removed (no two tokens merge) |
| JsonUtils.WordsSpaced | src/cyphy2cad_postprocess/json_utils.py:41-42 | splitting the spaced-out tokens gives the tokens back |
| JsonUtils.CollapseIdempotent | src/cyphy2cad_postprocess/json_utils.py:40-42 | collapsing twice is collapsing once |
| JsonUtils.NewlineReplaceIdempotent | src/cyphy2cad_postprocess/json_utils.py:39-43 | replacing again with the same group 1 leaves the output unchanged |
| JsonUtils.Insert | src/cyphy2cad_postprocess/json_utils.py:30-33 | `d[k] = v` keeps the keys distinct, adds `k` to the key set, and appends the pair when `k` is new |
| JsonUtils.DictOf | src/cyphy2cad_postprocess/json_utils.py:30-33 | the dict comprehension has distinct keys, exactly the keys of its pairs |
| JsonUtils.DictOfDistinct | src/cyphy2cad_postprocess/json_utils.py:30-33 | pairs with distinct keys make a dict holding exactly them |
| JsonUtils.InsertFrom | src/cyphy2cad_postprocess/json_utils.py:30-33 | after `d[k] = v` every pair is the new one or an old one under another key |
| JsonUtils.Byteify | src/cyphy2cad_postprocess/json_utils.py:20-35 | outside a rebuilt dict, the result holds no unicode string; a rebuilt dict has distinct, byteified keys and values |
| JsonUtils.ByteifyFixes | src/cyphy2cad_postprocess/json_utils.py:20-35 | with `ignore_dicts=True` a value is returned unchanged iff it holds no unicode string outside dicts |
| JsonUtils.ByteifyIdempotent | src/cyphy2cad_postprocess/json_utils.py:20-35 | byteifying twice is byteifying once |
| JsonUtils.ByteifyList | src/cyphy2cad_postprocess/json_utils.py:25-26 | a list keeps its length and order, each item byteified with `ignore_dicts=True` |
| JsonUtils.ByteifyDictKeys | src/cyphy2cad_postprocess/json_utils.py:29-33 | with `ignore_dicts=False`, the dict's keys are the byteified keys of the original |
| JsonUtils.ByteifyDictLast | src/cyphy2cad_postprocess/json_utils.py:29-33 | each value is the byteified value of the last entry whose key byteifies to that key |
| JsonUtils.ByteifyDictDistinct | src/cyphy2cad_postprocess/json_utils.py:29-33 | when the byteified keys are distinct, every entry is kept, byteified, in order |
| JsonUtils.DecodeByteify | src/cyphy2cad_postprocess/json_utils.py:22-23 | decoding a byteified decoded value gives it back |
| JsonUtils.ByteifyInjective | src/cyphy2cad_postprocess/json_utils.py:22-23 | byteifying never maps two decoded values to the same value |
| JsonUtils.ByteifyDictSize | src/cyphy2cad_postprocess/json_utils.py:29-33 | a decoded dict keeps its number of keys |

## Left out

- Input and output: the file system is a map from path to parsed document or "not XML"; `os.getcwd()` is a parameter. `dump`, `write` and `NumpyEncoder` (JSON serialisation) are not part of this model.
- Floating point: a number is the literal `float()` accepted. Precision, rounding and numpy arrays (`np.array` is the identity here) are not modelled.
- `json_reformat_lists`'s regular expression and `re.sub` are not modelled. `newline_replace` is modelled on the two groups of one match.
- `json_load_byteified` and `json_loads_byteified`: they wrap `json.load`, which is not part of this model. `_byteify` is modelled on its own.
- JsonUtils.Byteify: UTF-8 encoding is a change of tag from unicode to byte string that keeps the characters. Byte-level encoding is not modelled.
- JsonUtils.Byteify: Python 2 dicts are unordered; the model keeps insertion order. Python 2 also treats `u'a'` and `'a'` as the same key, and the model does not.
- The constraint loop of `_parse_cadassembly_xml` builds nothing that is used. `cadname_to_metric` is never read. Neither is modelled.
- The getters, setters and deleters of the raw documents and of `components` are plain field accesses. Only the `data` property is modelled.
- Reader.CadData.MergeBuilt: the error case states only the error, not the records merged before the failing component. Which those are depends on dict iteration order.
- Reader.CadReader.Parse: the error case states only the error, not what the passes before the failure left in the fresh data object.
- Reader.CadReader.MetricsOfRoot: a ChildMetric or MetricComponent that cannot be read is proved to leave the components unchanged. For the KeyError of an undefined MetricID, the state is not stated: the records merged before the failing component depend on dict iteration order.
- Reader.CadReader.ParseMetrics: has the same gap as MetricsOfRoot. After the KeyError of an undefined MetricID, the partially merged components are not stated.
- Reader.CadData.RecordMetrics: the undefined-MetricID error carries no key. Which missing key Python reports depends on dict iteration order.
- Reader.JoinPath: only POSIX path joining is modelled, not Windows drive letters.
- Numbers.ParseNum: only ASCII digits and ASCII whitespace are recognised. Python 2's `float()` of a unicode value, which ElementTree returns for non-ASCII attribute text, also maps the other Unicode decimal digits to digits and Unicode whitespace to spaces, so `float(u'\u0661')` is 1.0 and `float(u'1.5\xa0')` is 1.5. Here both fail as not a number, because the Unicode character database is not part of this model.
- Numbers.ParseList: inherits the gap of ParseNum: an ArrayValue item with non-ASCII Unicode digits or whitespace fails here although Python 2 accepts it.
