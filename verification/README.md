# Well-log toolkit core in Dafny

This project models the core of the `well_log_toolkit` Python package for
petrophysical well logs, and proves properties of that model.

- **Statistics** (`statistics.dfy`) covers the midpoint-rule thickness of each
  sample and the depth-weighted kernels: mean, sum, variance and percentile.
  It also covers the arithmetic kernels and `compute_all_statistics`.
- **Properties** (`properties.dfy`) covers one log curve and its `Property`
  operations:
  - null-sentinel normalisation and the `source` accessor;
  - `_resample_to_grid` and `_align_depths`;
  - `_apply_labels`, the display keys of filter groups, and `_compute_stats`.
- **Grouping** (`grouping.dfy`) covers `sums_avg` and `_recursive_group`, the
  statistics tree nested by the secondary (filter) properties.
- **Series** (`series.dfy`) covers `_merge_property`: the samples are
  concatenated, sorted by depth, and near duplicates are dropped.
- **Wells** (`wells.dfy`) covers a `Well` and its operations:
  - `get_property`, and `Property.filter`, which needs the owning well;
  - `load_las`, `add_dataframe` and the `sources` accessor;
  - `resample` and `to_dataframe`.
- **Manager** (`manager.dfy`) covers `WellDataManager`:
  - `add_well`, `wells`, `get_well` and `remove_well`;
  - `load_las` for one file and for a list of files;
  - the column check and the surface code tables of `load_tops`.
- **Support modules:**
  - `Common`: `Option`, `Result` and the exception kinds;
  - `Numeric`: sums, min/max, truncation, integer rendering with its parse-back, and np.arange;
  - `Sorting`: a stable key sort and a strictly sorted de-duplication;
  - `Dicts`: Python's insertion-ordered `dict`.

A NaN sample is `None` in `Sample = Option<real>`. Every operation is a pure
function. An operation that changes its receiver returns the changed value.
When the source mutates a well and then raises, the model returns the well in
the state it has at the raise, together with the error (`Wells.Step`,
`Wells.Exported`).

Some collaborators are outside this model and are function parameters:

- the name sanitizers `sanitize_well_name` and `sanitize_property_name`;
- scipy's `interp1d`, as a `Kernel`: whether it can be built, and its value at a depth;
- `np.arange` (`Numeric.Arange` gives numpy's definition for a positive step);
- the `.2f` rendering of a float;
- `LasFile.from_dataframe`.

## Model

| member | source | states |
|---|---|---|
| Statistics.Intervals | well_log_toolkit/statistics.py:40-60 | An empty depth column has no intervals and a lone sample gets 1.0. With two or more samples, the end samples get half the gap to their neighbour and interior samples the distance between the neighbouring midpoints. |
| Statistics.IntervalsTelescope | well_log_toolkit/statistics.py:16-17 | With two or more samples the intervals add up to exactly the logged range, last depth minus first. |
| Statistics.IntervalsNonNegative | well_log_toolkit/statistics.py:21-22 | On an ascending depth column no interval is negative. |
| Statistics.IntervalsPositive | well_log_toolkit/statistics.py:21-22 | On a strictly ascending depth column every interval is positive. |
| Statistics.IntervalsExample | well_log_toolkit/statistics.py:31-38 | The documented example: depths 1500, 1501, 1505 give intervals 0.5, 2.5, 2.0. |
| Statistics.ValidValuesMembers | well_log_toolkit/statistics.py:228 | The values kept by the NaN mask are exactly the non-NaN samples. |
| Statistics.ValidPairs | well_log_toolkit/statistics.py:86-88 | The pairs kept are (value, weight) pairs found at one position of the inputs. There are none exactly when every position has a NaN value or a NaN weight. |
| Statistics.WeightedMean | well_log_toolkit/statistics.py:86-93 | The result is NaN exactly when no valid pair is left or the valid weights sum to zero. Otherwise it is the weighted total over the total weight. |
| Statistics.WeightedSum | well_log_toolkit/statistics.py:120-127 | The result is NaN exactly when no valid pair is left. Otherwise it is the sum of value times weight over the valid pairs. |
| Statistics.WeightedVariance | well_log_toolkit/statistics.py:146-155 | The result is NaN exactly when fewer than two pairs are valid or the weights sum to zero. A value implies the weighted mean exists. |
| Statistics.WeightedMeanBounded | well_log_toolkit/statistics.py:86-93 | With non-negative weights, the weighted mean lies within any bounds that hold for the valid values. |
| Statistics.WeightedVarianceNonNegative | well_log_toolkit/statistics.py:153-155 | With non-negative weights the variance is never negative, so its square root exists. |
| Statistics.CumulativeWeights | well_log_toolkit/statistics.py:193 | Entry i is the total weight of the first i+1 pairs. |
| Statistics.Bisect | well_log_toolkit/statistics.py:200 | numpy's left bisection on any array, sorted or not: the index it returns has the entry before it below the target and the entry at it at or above the target. |
| Statistics.SearchLeft | well_log_toolkit/statistics.py:200 | The search over the whole cumulative array is bracketed the same way, with the index at most the array's length. |
| Statistics.SearchLeftAscending | well_log_toolkit/statistics.py:200 | On ascending cumulative weights, every entry before the index is below the target, so the index is the first entry that reaches it. |
| Statistics.SearchLeftDescending | well_log_toolkit/statistics.py:200 | On descending cumulative weights -0.5, -1.5, -2.0 with target -1.0 the bisection returns 3, past the end, not the first entry that reaches the target. |
| Statistics.WeightedPercentileUpward | well_log_toolkit/statistics.py:180-205 | For a log recorded upward (depths 3, 2, 1) the intervals are negative, and the weighted median of 10, 20, 30 takes the past-the-end branch and is 30. |
| Statistics.InterpolateBetween | well_log_toolkit/statistics.py:207-211 | When the target lies strictly above the lower bracket and at most at the upper one, the interpolated value lies between the two bracketing values. |
| Statistics.PercentileOfSorted | well_log_toolkit/statistics.py:192-211 | The percentile read off sorted pairs: values that are all equal give that value, whatever the weights. Its bounds are stated by PercentileOfSortedBetween. |
| Statistics.SortedEncloses | well_log_toolkit/statistics.py:187-190 | After the argsort every valid value lies between the first and the last sorted value. |
| Statistics.SortedFirstIsMin | well_log_toolkit/statistics.py:187-190 | The first sorted value is the minimum of the valid values. |
| Statistics.SortedLastIsMax | well_log_toolkit/statistics.py:187-190 | The last sorted value is the maximum of the valid values. |
| Statistics.PercentileOfSortedBetween | well_log_toolkit/statistics.py:192-211 | On sorted pairs, the percentile lies between the first and the last sorted value, whichever branch of the search it takes. |
| Statistics.WeightedPercentile | well_log_toolkit/statistics.py:180-211 | The result is NaN exactly when no valid pair is left. Otherwise it lies between the smallest and the largest valid value. |
| Statistics.PercentileZeroIsMin | well_log_toolkit/statistics.py:197-203 | With non-negative weights, the 0th percentile is the smallest valid value. |
| Statistics.PercentileHundredIsMax | well_log_toolkit/statistics.py:197-211 | With positive weights, the 100th percentile is the largest valid value. |
| Statistics.ArithmeticMean | well_log_toolkit/statistics.py:228-231 | The result is NaN exactly when no value is valid. Otherwise it is the total of the valid values over their count. |
| Statistics.ArithmeticSum | well_log_toolkit/statistics.py:248-251 | The result is NaN exactly when no value is valid. Otherwise it is the total of the valid values. |
| Statistics.PopulationVariance | well_log_toolkit/statistics.py:271 | np.std with ddof 0, before the root: never negative, and the mean squared deviation from the mean. |
| Statistics.ArithmeticVariance | well_log_toolkit/statistics.py:268-271 | The result is NaN exactly when fewer than two values are valid. Otherwise it is non-negative. |
| Statistics.ArithmeticIsUnitWeighted | well_log_toolkit/statistics.py:214-271 | With every weight 1, the weighted mean, sum and variance equal the arithmetic ones. |
| Statistics.WeightedExample | well_log_toolkit/statistics.py:81-84 | The documented NTG example: flags 0, 1, 0 over intervals 0.5, 2.5, 2.0 give weighted mean 0.5 and weighted sum 2.5. |
| Statistics.ComputeAllStatistics | well_log_toolkit/statistics.py:305-330 | The valid count and the sample count are reported. The thickness is 0 without valid values; otherwise it is the intervals of the valid samples. The weighted sum and the min/max are NaN exactly when nothing is valid. Min and max are the smallest and largest valid value. Each weighted field is its kernel over the intervals of the depth, and each arithmetic field is its kernel over the values. |
| Statistics.ThicknessSpansDepthRange | well_log_toolkit/statistics.py:305-327 | With no NaN and two or more samples, the reported thickness is the whole logged range. |
| Properties.Normalize | well_log_toolkit/property.py:112-117 | A value within 1e-6 of the null sentinel becomes NaN. Every other value is kept, position by position. |
| Properties.NormalizeIdempotent | well_log_toolkit/property.py:112-117 | After normalisation no value is null, so normalising again changes nothing. |
| Properties.NormalizeWithoutNulls | well_log_toolkit/property.py:112-117 | Values without a null among them pass through unchanged. |
| Properties.NewProperty | well_log_toolkit/property.py:82-117 | The constructor records its arguments. The original name is `original_name or name`. Values are normalised and there are no secondaries. Aligned depth and values give a well-formed property. |
| Properties.Source | well_log_toolkit/property.py:119-137 | A non-empty source name wins. Otherwise the LAS path is used, and without one there is no source. |
| Properties.ResampleToGrid | well_log_toolkit/property.py:313-339 | All NaN in gives all NaN out. A single valid point uses nearest neighbour; two or more use the requested method. A kernel that cannot be built is a DepthAlignmentError. Each output is the kernel's value at the new depth, one per new depth. |
| Properties.ResampleSinglePoint | well_log_toolkit/property.py:322-324 | With a single valid point, the requested method makes no difference. |
| Properties.Median | well_log_toolkit/property.py:263-264 | The median lies between the minimum and the maximum. |
| Properties.SortedUnique | well_log_toolkit/property.py:263-264 | Two ascending orderings of the same values are the same sequence, so the sorted copy np.median reads is determined. |
| Properties.MedianOfSorted | well_log_toolkit/property.py:263-264 | np.median: over any ascending ordering of the values, the middle value for an odd count and the mean of the two middle values for an even count. |
| Properties.StepOfSorted | well_log_toolkit/property.py:263-264 | The step of a grid with two or more depths is np.median of its spacings, read off their ascending ordering. |
| Properties.StepOf | well_log_toolkit/property.py:263-264 | The step of a one-sample grid is 0.1. Otherwise it lies between the smallest and the largest spacing. |
| Properties.StepOfPositive | well_log_toolkit/property.py:263-265 | A strictly ascending grid has a positive step. |
| Properties.CommonStep | well_log_toolkit/property.py:265 | The common step is the finer of the two steps. |
| Properties.CommonStepPositive | well_log_toolkit/property.py:265-268 | Two strictly ascending grids give a positive common step, so the grid the range builds advances. |
| Properties.OverlapWithinBoth | well_log_toolkit/property.py:251-253 | Every depth of the shared range lies within the range of both grids. |
| Properties.AlignedGridSpan | well_log_toolkit/property.py:262-268 | With np.arange as the grid constructor, the common grid of two strictly ascending grids starts at the low end of their shared range. It ends within half a step of the high end and strictly ascends. |
| Properties.ResampleBoth | well_log_toolkit/property.py:270-285 | The receiver is resampled by its kind's method and the other property by nearest neighbour. It succeeds when both do, and the result lies on the common grid. |
| Properties.AlignDepths | well_log_toolkit/property.py:242-286 | No overlap of positive length is a DepthAlignmentError. An empty grid fails as numpy's min does. Otherwise both properties are resampled onto the overlap at the finer step. |
| Properties.NumberCells | well_log_toolkit/well.py:626 | An exported raw column: NaN stays missing and every other value is its number. |
| Properties.ApplyLabels | well_log_toolkit/property.py:450-477 | Without a mapping the values are returned as numbers. With one, NaN stays missing and every other value shows its truncated integer code: the code's label when it has one, the code itself otherwise. |
| Properties.ApplyLabelsRecoversCodes | well_log_toolkit/property.py:470-475 | With an injective mapping, a labelled cell shows code c exactly when c is the truncated value. |
| Properties.GroupKey | well_log_toolkit/property.py:404-411 | An integral value with a label is keyed by the label. Any other value is keyed by the filter name and an underscore, followed by the two-decimal rendering for a fractional value. |
| Properties.GroupKeyRoundTrip | well_log_toolkit/property.py:408-409 | An unlabelled integral value has the key `name_<int>`, and the integer can be read back from it. |
| Properties.GroupKeysDistinct | well_log_toolkit/property.py:404-411 | Distinct unlabelled integral values get distinct keys. |
| Properties.SelectMembers | well_log_toolkit/property.py:431 | Boolean indexing keeps exactly the entries at true positions. |
| Properties.MeanWithinRange | well_log_toolkit/property.py:440-446 | The mean of a non-empty selection lies between its minimum and its maximum. |
| Properties.MaskedThickness | well_log_toolkit/property.py:434-437 | With two or more masked samples, the thickness is the last minus the first masked depth. Otherwise it is 0. |
| Properties.ComputeStats | well_log_toolkit/property.py:430-448 | The count is the non-NaN masked values and the sample count is the mask's true entries. Mean, sum, min, max and variance are NaN exactly when the count is 0. The mean and sum are the arithmetic kernels over the masked values. Min and max are the smallest and largest valid masked value, and the variance is their population variance, which is non-negative. |
| Properties.ThicknessNonNegative | well_log_toolkit/property.py:434-437 | On an ascending grid the masked thickness is never negative. |
| Grouping.SubMask | well_log_toolkit/property.py:402 | A position is in the sub-mask exactly when it is masked and the filter equals the value there; NaN never matches. |
| Grouping.UniqueValues | well_log_toolkit/property.py:391-393 | Strictly ascending, and exactly the non-NaN filter values found under the mask. |
| Grouping.Assemble | well_log_toolkit/property.py:400-413 | The grouped dict holds exactly the keys assigned. Which value each keeps is stated by AssembleFrom and AssembleAt. |
| Grouping.GroupPartition | well_log_toolkit/property.py:399-402 | The sub-masks of distinct values are disjoint. Together they cover exactly the masked positions whose filter is not NaN. |
| Grouping.AssembleFrom | well_log_toolkit/property.py:400-413 | Every entry of the grouped dict comes from a value stored under its key. |
| Grouping.AssembleAt | well_log_toolkit/property.py:400-413 | A key that is not repeated later holds the value assigned at its position. |
| Grouping.LevelKeys | well_log_toolkit/property.py:404-411 | One display key per distinct value, in ascending order of the values. |
| Grouping.RecursiveGroup | well_log_toolkit/property.py:370-415 | Past the last secondary, or when no valid filter value lies under the mask, the result is the flat statistics of the mask. Otherwise it is a branch keyed by exactly the level's display keys. |
| Grouping.ChildOfValue | well_log_toolkit/property.py:399-413 | The child under a value's key is the grouping of that value's sub-mask one level down, unless a later value produces the same key. |
| Grouping.ChildIsSubgroup | well_log_toolkit/property.py:399-413 | Every child is keyed by the display key of one distinct value under the mask, and is that value's sub-mask grouped one level down. |
| Grouping.GroupDepth | well_log_toolkit/property.py:386-415 | The tree never nests deeper than the number of secondaries left. |
| Grouping.PathMaskAt | well_log_toolkit/property.py:399-402 | A sample is under a path's mask exactly when it is under the starting mask and every secondary on the path holds the path's value there. |
| Grouping.LeafOfPath | well_log_toolkit/property.py:386-415 | A leaf reached by one key per level holds the flat statistics of the path's mask. Each key is the display key of the value picked for its level. |
| Grouping.LeafMean | well_log_toolkit/property.py:386-447 | The mean of such a leaf is the arithmetic mean of the property over exactly the samples where each secondary on the path holds its key's value. |
| Grouping.SumsAvg | well_log_toolkit/property.py:363-365 | With no secondaries the result is the flat statistics of every sample. |
| Grouping.SumsAvgIsGrouping | well_log_toolkit/property.py:341-368 | The special case for no secondaries equals the grouping over every sample, so the result nests at most one level per secondary. |
| Series.DropNearDuplicatesSeparates | well_log_toolkit/well.py:273-276 | On an ascending series, the kept samples are drawn from the input, start with its first sample, and are more than 1e-6 apart in depth. |
| Series.DropNearDuplicates | well_log_toolkit/well.py:273-276 | The kept samples are no more than the input, start with its first sample, and are all drawn from it. |
| Series.DropNearDuplicatesOfSeparated | well_log_toolkit/well.py:273-276 | A series already more than 1e-6 apart loses nothing. |
| Series.MergeSamples | well_log_toolkit/well.py:264-276 | The merged samples number at most the combined length. They are more than 1e-6 apart in depth, each comes from one of the two inputs, and the first is at the shallowest depth. |
| Series.MergeSeries | well_log_toolkit/well.py:264-276 | With no sample in either input the mask `[True]` does not fit the empty array, and the merge is numpy's IndexError exactly then. Otherwise it is the merged samples. |
| Series.SortedHeadIsMin | well_log_toolkit/well.py:268-271 | After sorting, the first sample has the minimum depth. |
| Series.MergeWithNothing | well_log_toolkit/well.py:264-276 | Merging a separated series with nothing returns it unchanged, and merging nothing with nothing is the IndexError. |
| Wells.NewWell | well_log_toolkit/well.py:63-76 | A new well has its names, no properties, no sources and no DataFrame counter. |
| Wells.SecondaryAsWritten | well_log_toolkit/property.py:208-221 | The secondary as written: the discrete property's name, kind and labels on the receiver's depth grid, with the interpolated values normalised again against -999.25. |
| Wells.Secondary | well_log_toolkit/property.py:208-221 | The intended secondary: the same property with the interpolated values kept unchanged. |
| Wells.PropertyNames | well_log_toolkit/well.py:315-318 | Each property name once, and exactly the stored ones. |
| Wells.GetProperty | well_log_toolkit/well.py:407-421 | The name as given is tried first, then its sanitized form, and otherwise the result is a PropertyNotFoundError. |
| Wells.GetPropertyByName | well_log_toolkit/well.py:407-409 | Every stored property is found under its own name, whatever the sanitizer. |
| Wells.FilterAsWritten | well_log_toolkit/property.py:139-240 | The code as written: the filtered copy's values are normalised again against -999.25, and one secondary is appended. |
| Wells.AddFilter | well_log_toolkit/property.py:197-240 | The intended tail of filter. Interpolation failure is the only error. On success the receiver's depth, values, kind, labels and source are kept, and the old secondaries are kept in front. One secondary is appended: the discrete property resampled by nearest neighbour onto the receiver's grid. |
| Wells.Filter | well_log_toolkit/property.py:172-240 | With no owning well, or a name the well lacks, the result is a PropertyNotFoundError. A property that is not discrete is a PropertyTypeError. Otherwise the found property is added as a filter. |
| Wells.FilterAgreesWithoutSentinel | well_log_toolkit/property.py:208-238 | When no value lies within 1e-6 of -999.25, the code as written and the intended filter agree. |
| Wells.FilterAsWrittenLosesValue | well_log_toolkit/property.py:224-238 | A porosity of exactly -999.25, read with null -9999, becomes NaN in the filter as written and is kept by the intended one. |
| Wells.CurveProperty | well_log_toolkit/well.py:135-169 | The loader's property is named by the sanitized `alias or name`, lies on the file's depth, and is normalised by the file's null. It is discrete when listed as such and has the file as its source. |
| Wells.MergeProperty | well_log_toolkit/well.py:255-280 | Two properties without samples are an IndexError, raised before anything is stored. Otherwise only depth and values change. The result is separated, has at most the combined length, and takes each sample from one of the two properties. |
| Wells.LoadCurve | well_log_toolkit/well.py:131-177 | The depth curve and curves without a column are skipped. Otherwise the curve's key is added or merged, and existing properties keep their place. An IndexError occurs exactly when the key is already stored with no sample and the file has no depth sample, and then the well is unchanged. |
| Wells.LoadCurveValues | well_log_toolkit/well.py:171-177 | A new key holds the curve's property and records the curve's name as its original name. An existing key holds the merge when it succeeded. Other keys are unchanged. |
| Wells.LoadCurves | well_log_toolkit/well.py:131-177 | The curve loop keeps the property order. It stops at the first failed merge, and that can only be an IndexError on a file without depth samples. |
| Wells.LoadCurvesKeys | well_log_toolkit/well.py:131-177 | After the loop the well holds its old properties and only keys of loadable curves. When no merge failed it holds all of them. |
| Wells.LoadLas | well_log_toolkit/well.py:107-179 | A file for another well is a WellNameMismatchError and changes nothing. Otherwise the file is recorded as a source first, and a missing depth column is then a WellError. The only other error is the IndexError of a merge, on a file without depth samples. On success every loadable curve can be looked up and nothing else is added. |
| Wells.ExternalNameInjective | well_log_toolkit/well.py:236-239 | Distinct DataFrames get distinct source names. |
| Wells.ExternalName | well_log_toolkit/well.py:236-240 | Every DataFrame source name begins with `external_df`. |
| Wells.AddDataframe | well_log_toolkit/well.py:236-253 | The counter advances and the frame's source is recorded. Only a WellError or a merge's IndexError can occur, and existing properties keep their place. |
| Wells.AppendNewDistinct | well_log_toolkit/well.py:339-357 | The seen-set loop lists no element twice, and adds nothing that was already listed. |
| Wells.AppendNew | well_log_toolkit/well.py:339-357 | The seen-set loop lists exactly the elements already listed and those of its input, and keeps the ones already listed in front. |
| Wells.Sources | well_log_toolkit/well.py:320-359 | Each source once, exactly the LAS paths and the DataFrame names, with no DataFrame name listed before a LAS path. |
| Wells.FirstIndex | well_log_toolkit/well.py:339-357 | The position where an element first occurs: it holds the element and nothing before it does. |
| Wells.DedupFirstOccurrence | well_log_toolkit/well.py:339-357 | The reference de-duplication lists exactly the elements of its input, each once, ordered by where each first occurs. |
| Wells.AppendNewConcat | well_log_toolkit/well.py:339-357 | The two seen-set loops run one after the other, sharing the seen set, are one loop over the concatenation. |
| Wells.AppendNewIsDedup | well_log_toolkit/well.py:339-357 | The seen-set loop, started from a list without repeats, is the reference de-duplication of that list followed by the input. |
| Wells.SourcesInLoadingOrder | well_log_toolkit/well.py:320-359 | For any paths, repeated or not, the sources are the de-duplication of the LAS paths followed by the DataFrame names. Each source is listed once, ordered by where it first occurs in that sequence. |
| Wells.SourcesWithoutRepeats | well_log_toolkit/well.py:339-357 | Distinct LAS paths that are not DataFrame names are listed as loaded, followed by the DataFrame names in order. |
| Wells.ResampleProperty | well_log_toolkit/well.py:475-483 | One property is moved onto the grid by its kind's method. Only the depth and values change, and only a DepthAlignmentError can occur. |
| Wells.ResampleAll | well_log_toolkit/well.py:475-483 | The resampling loop keeps the well valid, changes only the properties, and keeps their order. |
| Wells.ResampleOnto | well_log_toolkit/well.py:472-483 | The grid is recorded, only the properties change, and their order is kept. |
| Wells.ResampleAllEffect | well_log_toolkit/well.py:475-483 | The loop stops only on a DepthAlignmentError, and properties not visited are untouched. Every property is either untouched or resampled. When there is no error, all of them are resampled. |
| Wells.ResampleOntoEffect | well_log_toolkit/well.py:472-483 | Resampling onto a grid fails only on a DepthAlignmentError, and when it does not fail every property has been resampled onto the grid. |
| Wells.ResampleOntoAligns | well_log_toolkit/well.py:472-483 | After a successful resample every property lies on the grid. |
| Wells.LowestDepth | well_log_toolkit/well.py:458-464 | The smallest minimum depth over all properties. |
| Wells.HighestDepth | well_log_toolkit/well.py:458-464 | The largest maximum depth over all properties. |
| Wells.GridFor | well_log_toolkit/well.py:451-470 | An explicit grid is used as given. Otherwise a regular grid is built with step 0.1 by default, over the range or the properties' extent. With neither grid nor range, a well without properties is a WellError and one with an empty property is a ValueError. |
| Numeric.Arange | well_log_toolkit/well.py:466-470 | np.arange with a positive step: values step apart from the start, all below the stop. There is at least one exactly when the start is below the stop, and one more step would reach the stop. |
| Numeric.ArangeHalfStep | well_log_toolkit/well.py:466-470 | np.arange(lo, hi + step/2, step) starts at lo, ends within half a step of hi, and strictly ascends. |
| Wells.RegularGridSpan | well_log_toolkit/well.py:466-470 | With np.arange as the grid constructor, the regular grid of resample() starts at the range's low end, ends within half a step of its high end, and strictly ascends. |
| Wells.Resample | well_log_toolkit/well.py:423-485 | A grid that cannot be chosen leaves the well unchanged. Otherwise the grid is recorded and every property moved onto it, with the property order kept. |
| Wells.ResampleAligns | well_log_toolkit/well.py:472-483 | After a successful resample every property lies on the recorded grid. |
| Wells.KeepWhere | well_log_toolkit/well.py:585-604 | The include/exclude selection in the well's order, without repeats. |
| Wells.Column | well_log_toolkit/well.py:623-626 | Labels are applied when asked and the label table is non-empty. Otherwise the raw values are exported. |
| Wells.BuildTable | well_log_toolkit/well.py:620-626 | The table holds DEPT first and exactly the exported names besides. |
| Wells.BuildTableKeys | well_log_toolkit/well.py:620-626 | The table holds DEPT, then the exported names other than DEPT, in order. |
| Wells.BuildTableEntries | well_log_toolkit/well.py:620-626 | Each name holds its column, and DEPT holds the depths unless a property named DEPT replaced them. |
| Wells.BuildTableRows | well_log_toolkit/well.py:620-628 | Every column has one row per depth. |
| Wells.Selected | well_log_toolkit/well.py:585-607 | Include keeps the well's properties that are listed, and exclude drops them. Neither exports all of them, in the well's order. |
| Wells.Reference | well_log_toolkit/well.py:563-577 | The reference is the first stored property by default. A named reference must exist, or the result is a PropertyNotFoundError. |
| Wells.ExportTable | well_log_toolkit/well.py:585-628 | An included name that is not a property is a PropertyNotFoundError. Without auto-resampling, the result is a WellError exactly when a selected property is off the reference grid. Otherwise the result is the table. |
| Wells.ToDataframe | well_log_toolkit/well.py:552-628 | An empty well gives an empty table. Include with exclude is a ValueError, and an unknown reference a PropertyNotFoundError. Auto-resampling moves every property onto the reference grid before the names are checked, and the well keeps that change. |
| Wells.ExportChecked | well_log_toolkit/well.py:555-598 | A successful export had a valid reference, not both include and exclude, and only existing included names. |
| Wells.ExportSucceeded | well_log_toolkit/well.py:580-628 | In a successful export every selected property lies on the reference grid. |
| Wells.ToDataframeShape | well_log_toolkit/well.py:620-628 | A successful export has DEPT followed by the selected names, and one row per reference depth in every column. |
| Wells.ResampledWellExports | well_log_toolkit/well.py:610-617 | After a successful resample, an export without auto-resampling passes the grid check. |
| Manager.NewManager | well_log_toolkit/manager.py:409-440 | A new registry is valid and empty. |
| Manager.AddWell | well_log_toolkit/manager.py:428-440 | An existing key returns its well unchanged. A new key appends an empty well of that name, maps the name to it, and leaves the other wells alone. |
| Manager.AddWellIdempotent | well_log_toolkit/manager.py:428-440 | Adding a name twice is adding it once. |
| Manager.AddWellCount | well_log_toolkit/manager.py:432-440 | The registry grows by one well only when the key was new. |
| Manager.WellNames | well_log_toolkit/manager.py:469-483 | The keys in the order the wells were added. Each key is listed once, exactly the stored wells, and each starts with `well_`. |
| Manager.WellNamesAfterAdd | well_log_toolkit/manager.py:428-483 | Adding a well lists its key last when it is new, and leaves the list as it was otherwise. |
| Manager.WellNamesAfterRemove | well_log_toolkit/manager.py:469-555 | Removing a well drops exactly its resolved key from the list and keeps the others in order. |
| Manager.ResolveKey | well_log_toolkit/manager.py:511-525 | The name as given is tried first, then with the prefix when it lacks one, then the key of its sanitized form. |
| Manager.GetWell | well_log_toolkit/manager.py:511-532 | The result is the well under the resolved key, or a KeyError. |
| Manager.GetWellNotFound | well_log_toolkit/manager.py:511-532 | A KeyError occurs exactly when none of the three candidate keys is stored. |
| Manager.GetWellAfterAdd | well_log_toolkit/manager.py:409-532 | get_well finds the well add_well returned, unless the name is itself the key of another well. |
| Manager.RemoveWell | well_log_toolkit/manager.py:534-555 | The found well's key is removed and the others keep their order and wells. Its original name is unmapped and the other names are kept. An unknown name is a KeyError. |
| Manager.RemoveAfterAdd | well_log_toolkit/manager.py:409-555 | Removing a just-added well restores the registry, with the name unmapped. |
| Manager.LoadLas | well_log_toolkit/manager.py:102-118 | The well is created when absent and the file loaded into it. The result is stored back under the key, and the key order is kept. Every other well and the name map are as add_well leaves them. |
| Manager.LoadLasNameCheck | well_log_toolkit/manager.py:104-118 | A new well never refuses its file. A file whose name differs from the stored well's is refused and changes nothing. |
| Manager.LoadLasFiles | well_log_toolkit/manager.py:89-92 | Loading a list keeps the registry valid. |
| Manager.LoadLasFilesKeys | well_log_toolkit/manager.py:89-92 | Wells already registered keep their place, and an error comes from one of the files. Without an error every file's well is registered. |
| Manager.LoadLasFilesAppend | well_log_toolkit/manager.py:89-92 | Loading a + b equals loading a, then b unless a raised. |
| Manager.LoadLasFilesSingle | well_log_toolkit/manager.py:89-92 | A one-file list is the single-file load. |
| Manager.MissingColumns | well_log_toolkit/manager.py:184-185 | The missing required columns are exactly those absent from the frame, and there are none exactly when all three are present. |
| Manager.CheckTopsColumns | well_log_toolkit/manager.py:184-190 | A ValueError names the missing columns and occurs exactly when one is missing. No well changes. |
| Manager.Surfaces | well_log_toolkit/manager.py:193 | The surfaces are strictly ascending, without repeats, and exactly the values given. |
| Manager.ValueToCode | well_log_toolkit/manager.py:194 | Exactly the surfaces are coded, each by its position in the ascending list of distinct surfaces. |
| Manager.CodeToValue | well_log_toolkit/manager.py:195 | Each code stands for the surface at that position in the ascending list, and every surface's code maps back to it. |
| Manager.CodesOrdered | well_log_toolkit/manager.py:193-194 | The codes are 0 to k-1, in the order of the surface names. |
| Manager.LabelsInvertCodes | well_log_toolkit/manager.py:194-195 | The label table maps exactly the codes 0 to k-1 and is the inverse of the code table. |
| Manager.CodeMapping | well_log_toolkit/manager.py:193-195 | The code and label tables are mutually inverse bijections between the surfaces and 0 to k-1, and the codes follow name order. |

## Left out

- Parsing LAS and CSV files (`LasFile`) is outside this model. A parsed file is a `Wells.LasTable` value, and `LasFile.from_dataframe` is a parameter of `Wells.AddDataframe`.
- Manager.LoadLas: a file whose header has no WELL name (a LasFileError) is not modelled, because the table type always carries a name.
- Project save and load, `export_to_las`, `__repr__`, `Property.to_dataframe` and the `__getattr__` attribute access are outside the core and not modelled.
- `load_tops` past its column check and code tables is not modelled. That part covers grouping the frame by well, creating wells and attaching the tops property.
- The parent references (`parent_well`, `parent_manager`) are not fields. `Wells.Filter` takes the owning well as an argument.
- Interpolation (`interp1d`) is an uninterpreted `Kernel`. Its failure is the "cannot be built" case that becomes a DepthAlignmentError. The `.2f` rendering is a parameter as well.
- `np.arange` is a parameter of the grid builders. `Numeric.Arange` is numpy's definition for a positive step, and the span lemmas hold when the parameter is that function. A zero or negative step is not modelled.
- The square root of the standard deviations is not modelled. The kernels return the variance under the root, and the model proves it non-negative.
- Floating point is modelled as exact reals. Rounding, and NaN arising inside arithmetic, are not modelled; NaN is only an input marker.
- Statistics.WeightedPercentile: the contract bounds the result between the smallest and largest valid value, and the extreme percentiles are proved separately. The interpolated value for other percentiles is not stated in closed form. The argsort tie order is a stable sort.
- Wells.MergeProperty: the contract does not state which of several near-equal samples survives. The model sorts stably, while `np.argsort`'s default sort may order equal depths either way. The model's order is one of the orders numpy may produce.
- Statistics.ComputeAllStatistics: the p10/p50/p90 fields and the weighted mean and variance are the kernels applied to the intervals. Their properties are stated on the kernels, not repeated on the record.
- The messages of the exceptions are not modelled; only their kinds are.
- Property.filter catches KeyError around the lookup. The exception module is not part of this model. Whether or not PropertyNotFoundError is a KeyError, the caller sees a PropertyNotFoundError, which is what `Wells.Filter` returns.

## Findings

| source | as written | input that shows it | evidently intended | confidence | as-written member | corrected member |
|---|---|---|---|---|---|---|
| well_log_toolkit/property.py:216, well_log_toolkit/property.py:232 | `filter` rebuilds both the filtered copy and its new secondary with `null_value=-999.25`. The comment says "Already cleaned", but the constructor normalises the values again. | A porosity property read from a file whose null is -9999, holding the real value -999.25, filtered by any discrete property. | The values were already cleaned and are kept unchanged; only a secondary is added. | not executed | Wells.FilterAsWrittenLosesValue | Wells.AddFilter |
