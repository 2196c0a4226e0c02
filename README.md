# eovsapy flare spectrogram and calibration records, in Dafny

This project models the deterministic core of two eovsapy modules and
proves properties of it.

`eovsapy/flare_spec.py` builds a flare spectrogram from EOVSA interferometer
data. The model covers:
- the file-name rules: `sanitize_filename`, the flare ID taken from a peak
  time, the default FITS and plot names, and image-extension defaulting;
- the baseline enumeration and length selection of `inspect` and
  `combine_subtracted`;
- the spectrogram post-processing of `make_plot`: background subtraction
  with no window, one window or two windows, NaN masking of the notched
  frequency rows, the in-place time-stamp repair `fix_times`, and NaN
  masking of the columns before a time gap.

`eovsapy/sqlutil.py` reads reference-calibration records (`sql2refcalX`) and
phase-calibration records (`sql2phacalX`). The model covers:
- the dispatch on what the record reader returns: an array of buffers, one
  `bytes` buffer, or anything else;
- skipping failed records on the batch path;
- how each record is assembled from its fields, including the split of
  the MBD field's last axis.

Modules:

| file | module | contents |
|---|---|---|
| common.dfy | Common | `Option`, `Result` |
| numerics.dfy | Numerics | NaN-tagged cells; numpy's NaN-ignoring mean, Python slicing and index wrap-around, `np.where`, `np.round` |
| filenames.dfy | FileNames | sanitizing, flare ID, FITS and plot names |
| baselines.dfy | Baselines | antenna-pair enumeration, baseline selection |
| spectrogram.dfy | Spectrogram | background subtraction, masking, `fix_times`, `make_plot`'s data path |
| calrecords.dfy | CalRecords | record decoding, the batch loop, the two `sql2*X` functions |

Numbers are exact reals, and NaN is a tag (`Cell = NaN | Num(x)`) that
arithmetic propagates. External calls enter as parameters:
- The antenna list, baseline lengths and pair→index table `bl2ord` are
  inputs of the selection.
- The ISO conversion of the first time stamp is a function argument of
  `MakePlot`.
- `cal_header.read_calX`, `util.extract`, the `Time(..., format='lv')`
  conversion and its `.iso` form, and numpy's complex arithmetic are the
  fields of `CalRecords.Services`. Each of them returns a `Result`, so it
  may raise.

Where the code and its documentation disagree, the model follows the code:
- The baseline length window excludes both ends (150 < len < 1000).
- With fewer than two antennas the index list is an empty float array, and
  indexing with it raises. The selection therefore fails instead of
  returning an empty selection.
- `fix_times` overwrites the later sample `jd[b+1]`, not `jd[b]`. It
  overwrites in sequence, so a repaired value feeds the next repair. The bad
  set is computed once, from the original stamps.
- When the last step of the series is bad, `jd[b+2]` does not exist. The
  loop then raises after making every earlier repair, and the caller's time
  array keeps those repairs.
- The two-window interpolation reads `time[bg2idx[1]]`, the exclusive end of
  the second window used as an index. It raises when that index is outside
  the time axis.
- The batch handler prints the failed record's time stamp by extracting
  that field again. If the time stamp itself does not decode, the exception
  leaves the handler, and the whole call fails.

## Model

| member | source | states |
|---|---|---|
| Numerics.NanMean | eovsapy/flare_spec.py:283 | the NaN-ignoring mean is NaN exactly when no cell holds a number |
| Numerics.NanMeanWithin | eovsapy/flare_spec.py:283 | the NaN-ignoring mean of values in [lo, hi] lies in [lo, hi] |
| Numerics.NumSumWithin | eovsapy/flare_spec.py:283 | the sum of the n non-NaN values in [lo, hi] lies between n·lo and n·hi |
| Numerics.SliceBound | eovsapy/flare_spec.py:283 | a slice bound in [0, n] is kept, a negative one counts from the end, and one outside is clamped to 0 or n |
| Numerics.PySlice | eovsapy/flare_spec.py:283 | a Python slice never fails; when the bounds are in range it is the plain subsequence |
| Numerics.NpIndex | eovsapy/flare_spec.py:289 | a numpy index is valid exactly in [-n, n); a negative one counts from the end |
| Numerics.Where | eovsapy/flare_spec.py:294 | `np.where` gives exactly the indices below n where the condition holds, ascending |
| Numerics.RoundHalfEven | eovsapy/flare_spec.py:299 | `np.round` is within 0.5 of its argument and rounds halves to even |
| FileNames.ReplaceReservedAt | eovsapy/flare_spec.py:65 | each of `< > : " / \ \| ? *` becomes one '_' in place; every other character is kept |
| FileNames.ReplaceReservedAppend | eovsapy/flare_spec.py:65 | the reserved-character pass works character by character (it distributes over concatenation) |
| FileNames.CollapseRun | eovsapy/flare_spec.py:66 | a maximal whitespace run becomes exactly one '_' |
| FileNames.CollapseChars | eovsapy/flare_spec.py:66 | every character of the collapsed string is '_' or a non-whitespace character of the input |
| FileNames.CollapseAppend | eovsapy/flare_spec.py:66 | whitespace collapsing distributes over any split that does not cut a whitespace run, so order is kept |
| FileNames.CollapseNoSpace | eovsapy/flare_spec.py:66 | a string without whitespace is left unchanged |
| FileNames.Sanitize | eovsapy/flare_spec.py:60-67 | the sanitized name has no reserved character and no whitespace, so the final `strip()` removes nothing |
| FileNames.SanitizeFixesClean | eovsapy/flare_spec.py:60-67 | a name with no reserved character and no whitespace is its own sanitized form |
| FileNames.SanitizeIdempotent | eovsapy/flare_spec.py:60-67 | sanitizing twice equals sanitizing once |
| FileNames.SanitizeChar | eovsapy/flare_spec.py:65-66 | a lone reserved or whitespace character becomes "_"; any other character is kept |
| FileNames.SanitizeRun | eovsapy/flare_spec.py:66 | a whole whitespace run sanitizes to one "_" |
| FileNames.SanitizeAppend | eovsapy/flare_spec.py:65-66 | sanitizing distributes over any split that does not cut a whitespace run |
| FileNames.DeleteChars | eovsapy/flare_spec.py:182 | after `replace(c, '')` no c is left, and every remaining character comes from the input |
| FileNames.DeleteAbsent | eovsapy/flare_spec.py:182 | `replace(c, '')` leaves a string without c unchanged |
| FileNames.FlareIdAppend | eovsapy/flare_spec.py:182 | the flare ID of a concatenation is the concatenation of the flare IDs (order kept) |
| FileNames.FlareIdChar | eovsapy/flare_spec.py:342 | a '-', ' ' or ':' vanishes from the flare ID; any other character stays |
| FileNames.FlareIdNoSeparator | eovsapy/flare_spec.py:342 | the flare ID has no separator and only characters of the peak time; a peak time without separators is its own ID |
| FileNames.PeakTime | eovsapy/flare_spec.py:339-340 | the peak time is the caller's `tpk`, or else the first 19 characters (at most) of the first time stamp's ISO string |
| FileNames.FitsName | eovsapy/flare_spec.py:183 | the FITS name starts with `eovsa.spec.flare_id_`, ends with `.fits`, and the flare ID is read back from between the two |
| FileNames.FitsNameInjective | eovsapy/flare_spec.py:183 | two flares with different IDs never get the same FITS name |
| FileNames.LowerAppend | eovsapy/flare_spec.py:348 | lower-casing works character by character |
| FileNames.WithImageExtensionAccepted | eovsapy/flare_spec.py:346-349 | the result always ends in an accepted extension; it is the name itself exactly when the name had one, else the name + ".png" |
| FileNames.WithImageExtensionIdempotent | eovsapy/flare_spec.py:346-349 | applying the extension rule twice adds nothing |
| FileNames.PlotName | eovsapy/flare_spec.py:343-349 | the image name has no reserved character and no whitespace, and it carries an accepted extension |
| FileNames.DefaultPlotName | eovsapy/flare_spec.py:343-349 | with no name and a clean flare ID, the image name is the default stem + ".png", and the FITS name is the same stem + ".fits" |
| Baselines.RowStartClosed | eovsapy/flare_spec.py:143-145 | the rows before row k hold k(2n-k-1)/2 pairs |
| Baselines.PairsLength | eovsapy/flare_spec.py:143-145 | the enumeration has n(n-1)/2 pairs, and none when n < 2 |
| Baselines.PairsAt | eovsapy/flare_spec.py:143-145 | (ants[k], ants[m]) for k < m stands at row-major position RowStart(n, k) + (m-k-1) |
| Baselines.PairsUpToDecode | eovsapy/flare_spec.py:143-145 | every position of the enumeration holds (ants[k], ants[m]) for some k < m, at that pair's row-major position |
| Baselines.PairsMember | eovsapy/flare_spec.py:143-145 | a pair is enumerated exactly when it is (ants[k], ants[m]) for some k < m |
| Baselines.PairsDistinct | eovsapy/flare_spec.py:143-145 | for distinct antennas no antenna is paired with itself and no pair repeats |
| Baselines.BaselineOrderAt | eovsapy/flare_spec.py:145 | entry i of the index list is `bl2ord` of pair i |
| Baselines.EnumerateBaselines | eovsapy/flare_spec.py:142-146 | the nested loop builds exactly `bl2ord` of every enumerated pair, in enumeration order |
| Baselines.BaselineOrderClosedForm | eovsapy/flare_spec.py:161-165 | the index list has n(n-1)/2 entries, and `bl2ord[ants[k], ants[m]]` sits at row-major position RowStart(n, k) + (m-k-1) |
| Baselines.SelectGood | eovsapy/flare_spec.py:147 | selection fails exactly on an empty or out-of-range index list; otherwise it gives the ascending positions p with 150 < blen[idx[p]] < 1000, and only those |
| Baselines.SelectBaselinesSound | eovsapy/flare_spec.py:142-147 | every selected baseline is `bl2ord` of antennas at positions k < m, and its length lies strictly inside (150, 1000) |
| Baselines.SelectBaselinesComplete | eovsapy/flare_spec.py:166 | every pair k < m whose length lies strictly inside (150, 1000) is selected |
| Baselines.SelectBaselines | eovsapy/flare_spec.py:142-147 | the selection fails exactly when there are fewer than two antennas (an empty float index array) or an enumerated index is outside `blen` |
| Spectrogram.RelTime | eovsapy/flare_spec.py:289 | the relative time is a number exactly when the span is non-zero, and then it scales (x - t0) by the span |
| Spectrogram.NoBackgroundIsCopy | eovsapy/flare_spec.py:279-281 | with `bgidx` None every cell is copied unchanged |
| Spectrogram.SingleWindowRowConstant | eovsapy/flare_spec.py:283-285 | with one window every column of row f loses the same amount, the row's NaN-ignoring mean over the window; when the window holds no number of the row, that amount is NaN and every cell of the row becomes NaN |
| Spectrogram.DefaultWindowOnShortRecording | eovsapy/flare_spec.py:235 | with the default `bgidx` [100, 110] and at most 100 time samples the window is empty, and every subtracted cell is NaN |
| Spectrogram.SingleWindowBounded | eovsapy/flare_spec.py:283-285 | when the window's values of row f lie in [lo, hi] and one of them is a number, the subtracted amount lies in [lo, hi] |
| Spectrogram.DualMatchesSingleAtStart | eovsapy/flare_spec.py:286-291 | with two windows, at column `bgidx[0]` the background equals the first window's mean |
| Spectrogram.DualReachesSecondAtEnd | eovsapy/flare_spec.py:286-291 | with two windows, at column `bg2idx[1]` the background equals the second window's mean |
| Spectrogram.DualIsLinearInTime | eovsapy/flare_spec.py:286-291 | with two windows the background is linear in the time stamp, with slope (bgd2 - bgd1) / (time[bg2idx[1]] - time[bgidx[0]]) |
| Spectrogram.InterpolatedBackground | eovsapy/flare_spec.py:288-291 | the column loop fills cell (f, i) with (bgd2[f] - bgd1[f]) * ti[i] + bgd1[f] |
| Spectrogram.SubtractBackground | eovsapy/flare_spec.py:279-292 | each cell of a fresh `subspec` is the spectrum cell minus the background of the chosen mode |
| Spectrogram.NotchRowsMember | eovsapy/flare_spec.py:294 | row f is selected exactly when abs(fghz[f] - 1.742) < 0.001 |
| Spectrogram.MaskNotchRows | eovsapy/flare_spec.py:294-295 | every cell of a notched row becomes NaN, and every other cell is unchanged |
| Spectrogram.BadStepsMember | eovsapy/flare_spec.py:299 | step b is bad exactly when the rounded step (jd[b+1] - jd[b]) * 86400 is below 1 |
| Spectrogram.RepairedAppend | eovsapy/flare_spec.py:300-301 | running the loop over a and then over b is running it over a + b |
| Spectrogram.RepairedUnchanged | eovsapy/flare_spec.py:300-301 | only the entries jd[b+1] for bad b can change |
| Spectrogram.RepairedAt | eovsapy/flare_spec.py:300-301 | the entry after a bad step b becomes the mean of jd[b], as already repaired, and the original jd[b+2] |
| Spectrogram.RepairedIsolated | eovsapy/flare_spec.py:300-301 | after an isolated bad step the entry becomes the mean of its two original neighbours |
| Spectrogram.RepairLoop | eovsapy/flare_spec.py:300-301 | the loop stops at the first bad step without `jd[b+2]`, or completes; the array is then the sequential repair over the bad steps before that point |
| Spectrogram.FixTimes | eovsapy/flare_spec.py:298-302 | the array becomes the sequential repair over the bad steps of the original stamps; the call completes exactly when the last step is not bad |
| Spectrogram.LastBadStep | eovsapy/flare_spec.py:301 | a bad step without `jd[b+2]` is the last step and the last bad step, and its repair does nothing |
| Spectrogram.CompletedInRange | eovsapy/flare_spec.py:301 | when every bad step has its `jd[b+2]`, the last step of the series is not bad |
| Spectrogram.GapColumnsMember | eovsapy/flare_spec.py:306 | column k is selected exactly when the rounded step (time[k+1] - time[k]) * 86400 exceeds 1 |
| Spectrogram.MaskGapColumns | eovsapy/flare_spec.py:306-308 | every cell of a column before a gap becomes NaN, and every other cell is unchanged |
| Spectrogram.MakePlot | eovsapy/flare_spec.py:277-308 | of the modelled steps, the call fails exactly on an empty time axis, an out-of-range interpolation index or a bad last step. It leaves the time array repaired, makes each cell NaN on a notched row or before a gap of the repaired times and background-subtracted otherwise, and names the image and FITS files from the flare ID |
| CalRecords.TakeOne | eovsapy/sqlutil.py:60 | indexing the first axis succeeds exactly within its length, and gives that entry |
| CalRecords.TakeThirdAxis | eovsapy/sqlutil.py:60-61 | `v[:, :, k]` succeeds exactly when v has three axes and the third is longer than k, even when an outer axis is empty; element (i, j) of the result is v[i, j, k], and its shape is v's without the third axis |
| CalRecords.DecodeRefcal | eovsapy/sqlutil.py:15-24 | a refcal record decodes exactly when all eight fields and the complex value decode. pha/amp are the angle/absolute value of Real + Imag·i; flag, fghz and sigma are passed straight through; timestamp, t_bg and t_ed come from Timestamp, T_beg and T_end |
| CalRecords.DecodePhacal | eovsapy/sqlutil.py:51-65 | a phacal record decodes exactly when every field decodes and MBD and Flag are three-dimensional with third axes of length at least 2 and 1. poff/pslope are MBD[:, :, 0]/MBD[:, :, 1] and flag is Flag[:, :, 0]. t_pha and phacal.timestamp are one value, and the nested fields pass through unmodified |
| CalRecords.PhacalSplitsMbd | eovsapy/sqlutil.py:59-60 | element (i, j) of poff is MBD[i, j, 0] and of pslope is MBD[i, j, 1] |
| CalRecords.Decoded | eovsapy/sqlutil.py:12-27 | the records of a batch are never more than its buffers |
| CalRecords.DecodedAppend | eovsapy/sqlutil.py:13-26 | batch results compose: decoding a + b gives a's records then b's |
| CalRecords.DecodedSkips | eovsapy/sqlutil.py:25-26 | a failing buffer is skipped, and the buffers after it are still decoded |
| CalRecords.DecodedCount | eovsapy/sqlutil.py:13-27 | records plus failed buffers make up the batch, so the result is never longer than the input |
| CalRecords.DecodedMember | eovsapy/sqlutil.py:49-68 | a record is in the batch result exactly when some buffer decodes to it |
| CalRecords.DecodeBatch | eovsapy/sqlutil.py:12-27 | the loop completes exactly when every buffer decodes or its time stamp does. It then returns the decoded records in input order; otherwise it raises the first such time-stamp fault |
| CalRecords.Diagnostic | eovsapy/sqlutil.py:26 | a buffer whose time stamp cannot be read fails to decode as either record type, and the handler's own message then raises the time-stamp fault (also line 67) |
| CalRecords.Dispatch | eovsapy/sqlutil.py:11-38 | an array of buffers goes to the batch loop, a single bytes buffer to the unguarded decode, and anything else gives None. A failing bytes buffer raises the decoder's own fault; a failing batch raises the time-stamp fault of its first buffer that neither decodes nor has a readable time stamp |
| CalRecords.Sql2RefcalX | eovsapy/sqlutil.py:6-38 | a reader fault propagates; otherwise the result, and the fault when it fails, is that of the dispatch of type-8 records with the refcal decoder |
| CalRecords.Sql2PhacalX | eovsapy/sqlutil.py:41-84 | a reader fault propagates; otherwise the result, and the fault when it fails, is that of the dispatch of type-9 records with the phacal decoder |
| CalRecords.BatchOfOneIsSingle | eovsapy/sqlutil.py:47-84 | for the same buffer, the batch path and the single path build the same record |

## Left out

- `calIDB` (eovsapy/flare_spec.py:69-103) is not modelled: interactive prompts, file lookup and external calibration.
- `read_idb`, `ant_str2list`, `bl2ord`, `cal_header.read_calX` and `util.extract` are external. They are inputs or fields of `CalRecords.Services`.
- The `sqrt` over `uvw` that gives the baseline lengths (eovsapy/flare_spec.py:140, 159) is left out. The lengths are an input.
- The median and mean across baselines (eovsapy/flare_spec.py:148, 167-168) are left out. The model covers the selection they consume, not the aggregation.
- All plotting is left out: figures, `pcolormesh`, the light-curve loop, axis formatting, `savefig` (eovsapy/flare_spec.py:150-151, 310-329, 350). The model produces the image name only. Faults raised while plotting are not modelled either, such as an `lcfreqs` entry outside the frequency axis (eovsapy/flare_spec.py:316).
- FITS construction and writing (eovsapy/flare_spec.py:185-231) are left out, including `Time.now()`. The model produces the FITS file name only.
- Time conversions (`jd`, `lv`, `iso`, `isot`) are abstract functions.
- `np.angle`, `np.absolute` and the complex `re + im * 1j` are abstract functions.
- The `spec is None` branch of `make_plot` (eovsapy/flare_spec.py:275-276) is left out. It calls `combine_subtracted` with an undefined `ant_str`, a NameError.
- The first relative-time line (eovsapy/flare_spec.py:278) is modelled only for its IndexError on an empty time axis. Its value is overwritten or unused.
- The `print` calls of the batch handlers (eovsapy/sqlutil.py:26, 67) are left out. The model keeps the time-stamp extraction they perform, because it can raise.
- Floating point:
  - Values are exact reals, not float64, so rounding error is not modelled.
  - Infinities are not modelled. A division by a zero time span gives NaN.
- `bgidx` and `bg2idx` are modelled as two-element windows. A list of another length (an IndexError or ignored entries) is not modelled.
- Numerics.NanMean, Spectrogram.SubtractBackground: `spec` is a grid of rows of equal length. Ragged input is outside the model.
- CalRecords.Take: only `v[:, ..., :, k]` with a non-negative k is modelled; negative indices and slices other than `:` are not used by the source.
- FileNames.Lower: lower-cases ASCII letters only. Python's `str.lower` also maps non-ASCII letters. That matters only for a name whose non-ASCII characters would lower-case into an accepted extension.
- Baselines.SelectGood: `blen[idx]` is modelled for integer indices only. `bl2ord` is a total function, so a missing pair in the table (a KeyError) is not modelled.
