# Steel column check: a Dafny model

This project models the core of a small structural-engineering package that
checks steel columns under axial load. It has two parts.

The column model (`w_sections/columns.py`, module `Columns` in `columns.dfy`) covers:
- loads with five components and the rule that combines them: 1.2 × dead plus the largest of 1.5 × live, snow, wind and quake;
- the doubly symmetric column with its radius of gyration and Euler buckling load;
- the steel column with its buckling resistance and its demand/capacity ratio;
- building loads and columns from rows of text tokens.

The catalog layer (`w_sections/processing.py`, module `Processing` in `processing.dfy`) covers:
- the unit scaling applied to a table of profiles after it is read;
- the conjunctive threshold filters and the sort by weight;
- building a steel column from a profile;
- loading a column and loading a list of columns;
- the batch calculation that writes Height, Dead, Live, Factored load, Axial Resistance and DCR into the table, in place.

`results.dfy` (module `Results`) holds the error kinds the Python code raises and the `Result` and `Option` types used to model them.

Modelling choices:
- Python floats are modelled as `real`.
- `math.pi` and `math.sqrt` are not computed. They are the two fields of a `Numerics` value that every formula receives. So the model fixes which quantities the formulas combine, in which order, and where the code raises. Where a bound on the buckling resistance needs the square root to be exact, the lemma says so as a precondition (`SqrtExactAt`).
- Each exception is a `Result` error:
  - `ValueError` for a bad axis, a zero area, a zero effective length, `sqrt` of a negative number, or a token that does not parse;
  - `ZeroDivisionError`;
  - `AttributeError` for a missing load;
  - `IndexError`;
  - `KeyError`.
- Python's `float()` on strings is a parameter `parse: string -> Option<real>`.
- A table is a set of numeric column names plus a sequence of rows. Each row carries its 'Section name' and a map from column name to value.
- The DataFrame that the unit scaling and `calculate_steelcolumns` update in place is a class, `Processing.DataFrame`, whose methods reassign its `columns` and `rows` fields.
- A steel column is a class, `Columns.SteelColumn`. Only its axial load is a mutable field, because that is the only field the source reassigns (`processing.py:97` and `:145`).

## Model

| member | source | states |
|---|---|---|
| `Columns.Max` | w_sections/columns.py:131 | Python's `max` of a non-empty list: the result is an element of the list and no element exceeds it |
| `Columns.MaxFactoredLoad` | w_sections/columns.py:114-132 | `max_factored_load`: 1.2 × dead plus the largest of the four factored variable components; it carries no contract of its own, and what it promises is stated by `Columns.MaxFactoredLoadBounds` and `Columns.MaxFactoredLoadClosedForm` |
| `Columns.MaxFactoredLoadBounds` | w_sections/columns.py:114-132 | the combined load is at least 1.2·dead + 1.5·c for each of live, snow, wind and quake, and equals that sum for at least one of them |
| `Columns.MaxFactoredLoadClosedForm` | w_sections/columns.py:118-131 | the combined load equals the closed form 1.2·dead + max(1.5·live, 1.5·snow, 1.5·wind, 1.5·quake) |
| `Columns.DeadLoadOnly` | w_sections/columns.py:131 | with every variable component zero, the combined load is 1.2·dead |
| `Columns.MaxFactoredLoadExample` | w_sections/test_columns.py:45-47 | Load(dead=25.7, snow=37.9, quake=56.6) combines to exactly 115.74 |
| `Columns.MaxFactoredLoadMonotone` | w_sections/columns.py:128-131 | raising any of the five load components (dead, live, snow, wind, quake) never lowers the combined load |
| `Columns.ParseField` | w_sections/columns.py:140-149 | `float(row[i])` succeeds exactly when the index is in range and the token parses, with the parsed value; an IndexError exactly when the row is too short |
| `Columns.CreateLoad` | w_sections/columns.py:107-111 | succeeds exactly when there are two parsable tokens, giving Load(dead=line[0], live=line[1]) with the other components zero; a ValueError exactly when one of the first two tokens present does not parse |
| `Columns.Lower` | w_sections/columns.py:45-47 | `axis.lower()` keeps the length and gives "x" exactly for "x" or "X", and "y" exactly for "y" or "Y" |
| `Columns.Sqrt` | w_sections/columns.py:36 | `math.sqrt` succeeds exactly on non-negative arguments and raises ValueError otherwise |
| `Columns.EulerLoad` | w_sections/columns.py:53 | the Euler load times (K·height)² equals π²·E·MoI |
| `Columns.ColumnDoublySymmetric.CalcRadiusOfGyration` | w_sections/columns.py:30-39 | a zero-area ValueError exactly when the area is zero, never an axis error; sqrt(MoIx/area) for "x" and "X", sqrt(MoIy/area) for every other string |
| `Columns.ColumnDoublySymmetric.CalcEulerBucklingLoad` | w_sections/columns.py:41-56 | an axis error exactly for strings other than x, X, y and Y; (MoIx, K_x) for x and X, (MoIy, K_y) for y and Y; it succeeds exactly when K·height ≠ 0 and then satisfies the Euler formula |
| `Columns.ColumnDoublySymmetric.EulerAbout` | w_sections/columns.py:52-56 | the zero-length ValueError exactly when K·height = 0, otherwise the Euler formula |
| `Columns.EulerBucklingLoadExample` | w_sections/test_columns.py:18-26 | for the test column (height 3000, K_x 1.0, K_y 0.7) the Euler loads about x and y are π²·E·MoI divided by 3000² and by 2100² |
| `Columns.DegenerateColumnFails` | w_sections/test_columns.py:27-35 | the column of zero height and area fails the radius of gyration with the area error and the Euler load with the length error, about either axis |
| `Columns.EulerSwapAxes` | w_sections/columns.py:45-48 | exchanging the principal axes of a column exchanges its x and y Euler loads |
| `Columns.ImperfectionFactor` | w_sections/columns.py:79-82 | α = 0.34 (curve b) exactly for the string "x", and 0.49 (curve c) exactly for every other string, "X" included |
| `Columns.Rho` | w_sections/columns.py:92 | ρ = 0.5·(1 + α·(λ − 0.2) + λ²); it carries no contract of its own, and its bounds are stated by `Columns.RadicandNonNegativeWhenSlender` and `Columns.ReductionDenominatorBelowOneWhenStocky` |
| `Columns.ReferenceSlenderness` | w_sections/columns.py:87 | λ₁ = π·sqrt(E/f_y) is a ZeroDivisionError exactly when f_y = 0 and succeeds exactly when E/f_y ≥ 0 |
| `Columns.RelativeSlenderness` | w_sections/columns.py:89-90 | passes on the Euler load's error, raises ZeroDivisionError for a zero Euler load, otherwise is sqrt(area·f_y/N_cr) when that argument is non-negative |
| `Columns.ReductionFactor` | w_sections/columns.py:92-93 | ξ·(ρ + sqrt(ρ² − λ²)) = 1 when it succeeds; a math-domain error exactly when ρ² − λ² < 0 |
| `Columns.RadicandNonNegativeWhenSlender` | w_sections/columns.py:92-93 | for α ≥ 0 and λ ≥ 0.2, ρ ≥ λ, so the argument ρ² − λ² of the square root is never negative and the math-domain error cannot occur |
| `Columns.ReductionDenominatorAtLeastOne` | w_sections/columns.py:92-93 | for α ≥ 0 and λ ≥ 0.2, ρ + sqrt(ρ² − λ²) ≥ 1 |
| `Columns.ReductionDenominatorBelowOneWhenStocky` | w_sections/columns.py:92-93 | for 0 < α ≤ 1 and 0 ≤ λ < 0.2 (below the plateau of the buckling curves), 0 < ρ + sqrt(ρ² − λ²) < 1 |
| `Columns.ReductionFactorInUnitInterval` | w_sections/columns.py:92-93 | for α ≥ 0, λ ≥ 0.2 and an exact square root, 0 < ξ ≤ 1 |
| `Columns.ReductionFactorAboveOneWhenStocky` | w_sections/columns.py:92-93 | for 0 < α ≤ 1, 0 ≤ λ < 0.2 and an exact square root, the code's ξ exceeds 1: the source does not cap the reduction factor at 1 |
| `Columns.AxialCapacity` | w_sections/columns.py:75-97 | success needs a valid axis, a non-zero area, gamma_m and yield stress; an invalid axis always fails; gamma_m = 0 is a ZeroDivisionError, then a zero area is the area ValueError |
| `Columns.AxialCapacityValue` | w_sections/columns.py:79-97 | for a non-zero gamma_m, with f_y = yield_stress/gamma_m: the radius-of-gyration error comes first, then the λ₁ error, then the relative-slenderness error, then the reduction-factor error; when all succeed the capacity succeeds with N_b·gamma_m = ξ·area·f_y, where ξ is the reduction factor for α = ImperfectionFactor(axis) and that λ_rel |
| `Columns.CapacityFrom` | w_sections/columns.py:86-97 | the radius-of-gyration error comes first, then the λ₁ error; success needs every intermediate value and the reduction factor ξ, and then N_b·gamma_m = ξ·area·f_y |
| `Columns.CapacityDependsOnLowerAndCurve` | w_sections/columns.py:79-90 | two axis strings with the same lower-cased form and the same α give the same capacity |
| `Columns.CapacityWeakAxisCaseInsensitive` | w_sections/columns.py:79-90 | "Y" and "y" give the same capacity |
| `Columns.CapacityUpperXUsesCurveC` | w_sections/columns.py:79-82 | "X" uses the strong-axis properties with curve c (α = 0.49): its capacity is the "y" capacity of the column with its axes exchanged |
| `Columns.CapacityFromAtMostSquashLoad` | w_sections/columns.py:92-97 | with λ_rel ≥ 0.2, α ≥ 0 and an exact square root, the capacity lies in (0, area·yield_stress/gamma_m²] |
| `Columns.CapacityAtMostSquashLoad` | w_sections/columns.py:84-97 | the same bound for the whole capacity computation: the material factor divides the squash load twice (f_y = yield_stress/gamma_m, then N_b divides by gamma_m again) |
| `Columns.CapacityAboveBound` | w_sections/columns.py:95 | if N_b·gamma_m = ξ·area·(yield_stress/gamma_m) with ξ > 1 and positive inputs, then N_b > area·yield_stress/gamma_m² |
| `Columns.CapacityFromAboveSquashLoad` | w_sections/columns.py:92-97 | with 0 ≤ λ_rel < 0.2, 0 < α ≤ 1 and an exact square root, the capacity exceeds area·yield_stress/gamma_m² |
| `Columns.CapacityAboveSquashLoadWhenStocky` | w_sections/columns.py:84-97 | for positive area, yield stress and gamma_m, a successful capacity with 0 ≤ λ_rel < 0.2 and an exact square root exceeds area·yield_stress/gamma_m²: a stocky column gets more than its squash load |
| `Columns.Ratio` | w_sections/columns.py:103 | a ZeroDivisionError exactly for a zero capacity; otherwise ratio × capacity = demand |
| `Columns.RatioAtMostOne` | w_sections/columns.py:99-104 | for a positive capacity, DCR ≤ 1 exactly when the demand is at most the capacity |
| `Columns.DemandCapacityRatio` | w_sections/columns.py:99-104 | the AttributeError of a missing load comes first, then the capacity's error, then division by zero; on success DCR × capacity = the combined load |
| `Columns.SteelColumn.constructor` | w_sections/columns.py:59-67 | every field takes its argument; the defaults are tag "", no load, yield stress 235 and gamma_m 1.0 |
| `Columns.SteelColumn.FactoredAxialLoad` | w_sections/columns.py:69-73 | the combined load of the current axial load; the AttributeError exactly while it is None |
| `Columns.SteelColumn.FactoredAxialCapacity` | w_sections/columns.py:75-97 | `factored_axial_capacity` on the column's own fields; it carries no contract of its own and is `Columns.AxialCapacity` of its geometry, yield stress and gamma_m: the error conditions are that function's contract, and the error order past gamma_m and the value N_b·gamma_m = ξ·area·f_y are stated by `Columns.AxialCapacityValue` |
| `Columns.SteelColumn.FactoredDcr` | w_sections/columns.py:99-104 | succeeds exactly with a load and a non-zero capacity; the AttributeError without a load; DCR × capacity = factored load |
| `Columns.ConvertRowToColData` | w_sections/columns.py:135-154 | succeeds exactly when the row has at least 11 tokens and tokens 1 to 10 parse (later tokens are ignored); a ValueError exactly when one of tokens 1 to 10 present does not parse, an IndexError exactly when the row is shorter than 11 tokens and all its tokens 1 onward parse; the fields are mapped by position (tag, area, height, MoIx, MoIy, fy, E, K_x, K_y, dead, live) into a fresh column with Load(dead, live) and gamma_m 1.0 |
| `Processing.Names` | w_sections/processing.py:141 | the 'Section name' column: one entry per row, in row order |
| `Processing.Select` | w_sections/processing.py:46-48 | the kept rows are exactly the rows meeting every condition, no more rows than before, a sub-multiset of the input |
| `Processing.SelectAppend` | w_sections/processing.py:47-48 | selection distributes over concatenation, so kept rows stay in their original order |
| `Processing.MeetsAllSnoc` | w_sections/processing.py:46-47 | meeting one more keyword condition is meeting the old ones and the new one (the logical AND) |
| `Processing.SelectNarrowing` | w_sections/processing.py:46-48 | selecting with one more condition is selecting the earlier result once more with the new condition |
| `Processing.CellsPresent` | w_sections/processing.py:46 | when every keyword names a column of a well-formed table, every row has those cells and meets all the conditions exactly when each cell meets its threshold |
| `Processing.Filter` | w_sections/processing.py:46-48 | a KeyError exactly when there is no keyword (the reduced mask is a bare boolean, not a row label) or some keyword is not a column; otherwise the same columns and the selection of the rows in their order: exactly the rows that have every named cell and whose every named cell meets its threshold, so a row with a missing (NaN) cell is dropped; a well-formed table gives a well-formed result |
| `Processing.SectionsGreaterThan` | w_sections/processing.py:42-48 | a KeyError exactly without keywords or for a keyword that is not a column; otherwise the rows in their order that have every named cell ≥ its threshold |
| `Processing.SectionsLessThan` | w_sections/processing.py:51-57 | a KeyError exactly without keywords or for a keyword that is not a column; otherwise the rows in their order that have every named cell ≤ its threshold |
| `Processing.FilterNarrowing` | w_sections/processing.py:42-57 | adding a keyword to either filter gives the earlier result filtered once more by the new keyword, so a subset of it; the shorter call keeps a well-formed table well formed |
| `Processing.InsertByWeight` | w_sections/processing.py:64 | inserting into rows sorted by weight keeps them sorted and adds exactly that row to the multiset |
| `Processing.SortRows` | w_sections/processing.py:64 | the result is a permutation of the rows, ordered by 'kg/m' |
| `Processing.Weighed` | w_sections/processing.py:64 | the rows that have a weight, in their order: every one of them has a weight |
| `Processing.Unweighed` | w_sections/processing.py:64 | the rows whose weight is missing (NaN), in their order: none of them has a weight |
| `Processing.WeightPartition` | w_sections/processing.py:64 | the weighed and the unweighed rows together are exactly the rows (as a multiset) |
| `Processing.AllWeighed` | w_sections/processing.py:64 | when every row has a weight, every row is weighed and none is set aside |
| `Processing.SortByWeight` | w_sections/processing.py:60-65 | ascending by default; a KeyError exactly without a 'kg/m' column; otherwise the same columns and a permutation of the rows in which the rows with a weight come first, non-decreasing by weight when ascending and non-increasing otherwise, and the rows whose weight is missing (NaN) come last in either direction |
| `Processing.SortByWeightWellFormed` | w_sections/processing.py:64 | on a table with every cell present, the sorted table is still well formed and every row is ordered by weight |
| `Processing.ScaledValueNone` | w_sections/processing.py:25-37 | a column in no unit group keeps its value |
| `Processing.ScaledValueSingle` | w_sections/processing.py:25-37 | a column in exactly one group is multiplied by that group's scalar only |
| `Processing.UnitGroupsScaleOnce` | w_sections/processing.py:27-37 | after all the groups, each value is multiplied by its column's unit scalar |
| `Processing.SectionPropertiesScaleOnce` | w_sections/processing.py:27-31 | iy, iz and Ss are multiplied by 10; A and Avz by 100; Wel.y, Wpl.y, Wel.z and Wpl.z by 1000 |
| `Processing.InertiaScaleOnce` | w_sections/processing.py:34-37 | Iy, Iz and It are multiplied by 10⁴ and Iw by 10⁹; every other column is multiplied by 1 |
| `Processing.UnitScalar` | w_sections/processing.py:27-37 | the scalar each column ends up multiplied by (the product of the scalars of the groups in `Processing.UnitGroups`, the constant list of groups in the source's order); no contract of its own: `Processing.UnitGroupsScaleOnce` proves it is what the groups apply |
| `Processing.ScaledValue` | w_sections/processing.py:25-37 | a cell scaled by a list of groups in turn; no contract of its own: `Processing.ScaledValueNone`, `Processing.ScaledValueSingle` and `Processing.UnitGroupsScaleOnce` state what it gives |
| `Processing.FirstMissingGroup` | w_sections/processing.py:25-37 | the index of the first group naming a missing column: every earlier group is present |
| `Processing.ScaleRow` | w_sections/processing.py:25 | scaling keeps the row's name and its set of columns |
| `Processing.ScaleColumns` | w_sections/processing.py:25 | `profiles[group] *= scalar` keeps the row count, every name and every row's columns |
| `Processing.ScaledRow` | w_sections/processing.py:27-37 | scaling by a list of groups keeps the row's name and columns |
| `Processing.ScaledRows` | w_sections/processing.py:27-37 | scaling by a list of groups keeps the row count, names and columns |
| `Processing.ScaleRowExtends` | w_sections/processing.py:25-37 | scaling a row by one more group after earlier ones is scaling it by the longer list |
| `Processing.ScaleColumnsExtends` | w_sections/processing.py:25-37 | the same for the whole table |
| `Processing.ScaledRowsByNoGroup` | w_sections/processing.py:20-39 | scaling by no group changes nothing |
| `Processing.ScaledRowsByUnitGroups` | w_sections/processing.py:20-39 | each cell ends up multiplied by its column's unit scalar; columns outside the groups are unchanged |
| `Processing.DataFrame.ApplyScalars` | w_sections/processing.py:21-26 | the groups are applied in order until the first group that names a missing column; a KeyError exactly then; the columns are unchanged and the rows are the input scaled by the groups applied |
| `Processing.DataFrame.ApplyUnitScalars` | w_sections/processing.py:20-39 | the same for the fixed unit groups of the source |
| `Processing.DataFrame.constructor` | w_sections/processing.py:11-15 | the frame holds exactly the given columns and rows, as `pd.read_csv` returns them |
| `Processing.CreateSteelColumn` | w_sections/processing.py:68-84 | succeeds exactly with A, Iy and Iz columns and a non-empty selection; 'A' is read first (KeyError), then the first value (IndexError), then 'Iy' and 'Iz' (KeyError); the new column has area from 'A', MoIx from 'Iy', MoIy from 'Iz' of the first row, E = 210000, K_x = K_y = 1.0, the given fy (235 by default) and no load |
| `Processing.SectionGeometry` | w_sections/processing.py:72-83 | the geometry create_steelcolumn builds from a row: area, MoIx and MoIy from A, Iy and Iz, E = 210000, K_x = K_y = 1.0; no contract of its own: `Processing.CreateSteelColumn` and `Processing.SectionRowsPresent` state where it is used |
| `Processing.WellFormedHasProperties` | w_sections/processing.py:72-76 | a table with every cell present has A, Iy and Iz in the first row of every section name whenever it has those columns |
| `Processing.ColumnLoadOutcome` | w_sections/processing.py:87-103 | succeeds exactly with a non-zero capacity; the capacity's error first, then division by zero; the outputs are the combined load and the capacity |
| `Processing.ColumnLoadRatio` | w_sections/processing.py:99-103 | the DCR output times the resistance output gives the factored load output |
| `Processing.ColumnLoadDcrAtMostOne` | w_sections/processing.py:99-103 | with a positive resistance, DCR ≤ 1 exactly when the factored load is at most the resistance |
| `Processing.CalculateColumnLoad` | w_sections/processing.py:87-103 | the column's load becomes Load(dead, live) and the result is that load's outputs for the column's x-axis capacity |
| `Processing.Capacities` | w_sections/processing.py:114-115 | one capacity per column |
| `Processing.BatchOutcome` | w_sections/processing.py:106-117 | a successful batch has one output per column |
| `Processing.BatchOutcomeInOrder` | w_sections/processing.py:113-117 | the batch succeeds exactly when every column does, and then output i is column i's; a failure is the error of a column all of whose predecessors succeed |
| `Processing.PrefixFailure` | w_sections/processing.py:113-117 | a failure right after a successful prefix is the error of the whole batch |
| `Processing.BatchStopsAt` | w_sections/processing.py:113-117 | a batch whose first k columns succeed and whose next column fails succeeds exactly when k covers every column |
| `Processing.CalculateColumns` | w_sections/processing.py:106-117 | the result is the batch outcome of the columns in order; every column up to the failing one gets Load(dead, live); a later column that is not the same object as an earlier one keeps its load |
| `Processing.WithInputsCells` | w_sections/processing.py:137-139 | Height, Dead and Live are set; the name and every other cell are kept |
| `Processing.WithInputs` | w_sections/processing.py:137-139 | one row with Height, Dead and Live set; no contract of its own: `Processing.WithInputsCells` states it |
| `Processing.AddInputs` | w_sections/processing.py:137-139 | every row gets the three input cells, and the row count is unchanged |
| `Processing.WithOutputsCells` | w_sections/processing.py:149-151 | Factored load, Axial Resistance and DCR are set; the name and every other cell are kept |
| `Processing.WithOutputs` | w_sections/processing.py:149-151 | one row with Factored load, Axial Resistance and DCR set; no contract of its own: `Processing.WithOutputsCells` and `Processing.WithOutputsIdempotent` state it |
| `Processing.WithOutputsIdempotent` | w_sections/processing.py:149-151 | writing the same outputs twice is writing them once |
| `Processing.WriteOutputs` | w_sections/processing.py:149-151 | the rows of that name get the outputs and the other rows are unchanged; the row count is kept |
| `Processing.WriteAllOutputs` | w_sections/processing.py:141-151 | the writes for a list of names in turn keep the row count |
| `Processing.WriteAllOutputsKeeps` | w_sections/processing.py:141-151 | after any sequence of writes, every row keeps its name, its columns and every cell outside the output columns |
| `Processing.WriteAllOutputsRow` | w_sections/processing.py:141-151 | when every write for a row's name carries the same outputs, the row ends with those outputs; a row whose name is never written is unchanged |
| `Processing.WriteAllOutputsCovers` | w_sections/processing.py:149-151 | after the writes for a list of names, every row whose name is in the list has a cell in each output column |
| `Processing.SteelColumnsWellFormed` | w_sections/processing.py:137-153 | after a successful run on a table with every cell present, every row has a cell in every column, the three input and three output columns included |
| `Processing.FirstIndexOf` | w_sections/processing.py:142 | the index of the first row with that name, or the row count when there is none |
| `Processing.RowsNamed` | w_sections/processing.py:142 | the selection has no more rows than the table |
| `Processing.RowsNamedMembers` | w_sections/processing.py:142 | the selection holds exactly the rows of that name |
| `Processing.RowsNamedFirst` | w_sections/processing.py:142 | the selection is non-empty exactly when some row has that name, and then it starts with the first such row |
| `Processing.SectionCapacities` | w_sections/processing.py:141-147 | one capacity per row: the capacity of the column built from the first row of that row's section name |
| `Processing.SteelColumnsRow` | w_sections/processing.py:141-151 | when every section succeeds and rows of one name share a capacity, row i ends with the outputs of its own capacity |
| `Processing.SteelColumnsSuccess` | w_sections/processing.py:137-151 | after a successful run, row i is the original row with the inputs and then its own section's outputs |
| `Processing.SteelColumnsTable` | w_sections/processing.py:120-153 | the same, stated for the table: row i carries the outputs of the section it is named after, whichever row of that name was processed last |
| `Processing.InputsAndOutputsCells` | w_sections/processing.py:137-151 | a processed row keeps its name and other cells and has exactly the six new cells with their values |
| `Processing.SectionPropertiesNotWritten` | w_sections/processing.py:137-151 | A, Iy and Iz are neither input nor output columns, so the batch never overwrites what create_steelcolumn reads |
| `Processing.SectionRowsPresent` | w_sections/processing.py:141-144 | during the loop the names are unchanged, the selection for a name is non-empty, its first row has A, Iy and Iz when the table has those columns, and the column built from it has the geometry of the original first row of that name |
| `Processing.LoadSection` | w_sections/processing.py:142-147 | one pass on a selection: its outcome is the outputs for the capacity of the column built from its first row |
| `Processing.LoadNamedSection` | w_sections/processing.py:141-147 | on the table as written so far, the outcome for a name depends only on the original first row of that name |
| `Processing.SectionStep` | w_sections/processing.py:141-151 | one more successful section extends both the batch outcome and the rows written |
| `Processing.DataFrame.AddInputColumns` | w_sections/processing.py:137-139 | every row gets Height, Dead and Live, and the three columns are added |
| `Processing.DataFrame.AddOutputColumns` | w_sections/processing.py:149-151 | the three output columns are added and the rows are unchanged |
| `Processing.DataFrame.LoadSections` | w_sections/processing.py:141-151 | the loop stops at the first failing section with its error; the sections before it all succeed and the rows hold exactly their writes; the columns are unchanged |
| `Processing.DataFrame.CalculateSteelColumns` | w_sections/processing.py:120-153 | the inputs are set in every row; the sections are processed in row order; the call succeeds exactly when every section does, and otherwise fails with the first failing section's error; the rows hold the writes for the names processed; the output columns exist once one section is written; after a successful call on a table with every cell present, every row has a cell in every column |

## Left out

- Floating point: reals replace Python floats and numpy float64 values, so rounding, NaN and infinity are not modelled.
  - In the batch calculation the section values are numpy floats. Their division by zero gives infinity or NaN instead of raising. The model raises as for Python floats.
  - The values of π and of the square root stay abstract.
- `str.lower()` is modelled on ASCII letters only.
- CSV reading (`pd.read_csv`) and the discarded `pd.to_numeric` calls in `read_profiles` are file I/O and a library call with no effect. The unit scaling is modelled as a transform of a table already in memory.
- `calculate_steelcolumns_1` is unfinished code without defined behaviour. `main.py` is printing and hard-coded parameters. Neither is part of this model.
- pandas index labels, column order and dtypes are not modelled. A missing cell (NaN) is a missing key in the row's map.
- `Processing.SortByWeight` states the order and the permutation, not the arrangement of ties: pandas' default quicksort is not stable.
- `Processing.CreateSteelColumn` takes the tag as the first row's name. The source stores the whole 'Section name' Series as `column_tag`.
- `Processing.DataFrame.CalculateSteelColumns` adds the three output columns to the column set at the end of the call, when at least one section was written. pandas creates them at the first write. The selection passed to create_steelcolumn during the loop lists the original and input columns only. create_steelcolumn reads only A, Iy and Iz, so its outcome does not depend on this.
- The keyword thresholds pass through `float(v)` in the filters. The model takes them as reals already.
- `Processing.SteelColumnsSuccess` leaves the ratio between the outputs to `Processing.ColumnLoadRatio`. It states only which outputs a row ends with.
- `Columns.SteelColumn.FactoredAxialCapacity`, `Columns.MaxFactoredLoad`, `Columns.Rho`, `Processing.UnitScalar`, `Processing.ScaledValue`, `Processing.SectionGeometry`, `Processing.WithInputs` and `Processing.WithOutputs` carry no contract of their own. The lemmas and contracts named in their rows state what they compute. Keeping those facts in lemmas keeps them out of every proof that only calls these functions.
- `Processing.CreateSteelColumn` requires that the first row of the selection have A, Iy and Iz when the table has those columns. The source would read NaN there and build a column of NaN values, and NaN arithmetic is not modelled.
- `Processing.DataFrame.CalculateSteelColumns` requires the same of the first row of every section name, for the same reason. Other missing cells are allowed. The filters and the sort take any table, with missing cells dropped or placed last as pandas does.
