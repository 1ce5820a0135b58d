# Verification of the balloon's flight code

Dafny models of six components of the balloon flight software, and proofs about them. Each module stands
for one source file or one layer of it. Where the C or Python code works by assignment, there is a class or
a method on arrays with the same branches, proved equal to a function of the old state; the modules named
`...Laws`, and the later parts of the others, prove what the source promises about those functions, over
every input and every run.

Verify with `dafny verify dfyconfig.toml`.

| component | modules |
|---|---|
| star-camera downlink: server, client, the two over a lossy channel | `Wire`, `Downlink`, `DownlinkLaws`, `DownlinkRate`, `DownlinkStall`, `Client`, `ClientLaws`, `WireLaws`, `Reassembly`, `EndToEnd`, `Delivery`, `Repeats` |
| star-camera image kernels | `BoxcarFilter`, `BoxcarLaws`, `BlobScan`, `BlobList`, `BlobSpacing`, `BlobLaws`, `BlobSort`, `BlobSortLaws` |
| autofocus solver | `Matrix`, `MatrixLaws`, `LensAdapter`, `LensAdapterLaws`, `LensAdapterPivots` |
| elevation control | `Regulator`, `RegulatorLaws`, `Dither`, `OnOffScan` |
| accelerometer stream | `Accelerometer`, `AccelerometerLaws` |
| day number, status message | `JulianDay`, `StatusJson`, `StatusJsonLaws`, `StatusMessageLaws` |

## How the models read the source

- The downlink server is a state machine. `replace_current_image`, a request, one turn of the chunk loop and
  the end of a transmission (or its abort) are each one atomic step. The C code assigns `active` outside the
  mutex at Oph/src/starcam_downlink.c:319, 400 and 468, so this is an assumption, and
  `DownlinkLaws.ClearingActiveFirstKeepsTheNewestIff` says exactly when freshness survives without it. JPEG data is an
  opaque byte sequence; `sendto`, `malloc` and the clock are inputs of a step. Buffers are named by the number
  of their allocation, so that sharing and freeing can be stated.
- `uint32_t` arithmetic, `int16_t` and `char` assignments, and the passage of a negative sum through
  `uint64_t` are written out. Floating point is modelled over `real`.
- Image pixels are signed `char` values, masked by 0 or 1.
- The matrix is a flat array of 12 cells and a spare one. `pivot` runs one column past the row's end
  (Oph/src/matrix.c:58); the model performs that step on the cell it reaches.
- A copied sentinel in `merge` also reads the coordinates next to it, which are uninitialised, so the
  specification is `None` there and the laws say exactly when that happens.
- `sscanf` in the accelerometer loop is a parameter: any function of the line without its newline.
- The derivative term of the current regulator is an input.

## What the proofs found

- `get_JD` multiplies by 3 before dividing by 100 and so loses a day on some dates, the next on 1 March 2034.
- The client unpacks the header as `<QIIIBII` where the server sends a one-byte quality and a four-byte blob
  count, although the comment beside it has the widths right.
- A chunk without a newline that arrives on a pending accelerometer fragment overwrites the fragment, and a
  long fragment overflows its buffer.
- An off dwell of the on/off scan starts while the telescope is on the source.
- The autofocus fit can refuse a parabola that its samples determine, because the third pivot of foci far
  from zero falls below EPSILON: at 2999, 3000 and 3001 it is about 8e-15. Elimination after a skipped first
  pivot can change the solutions of a matrix in general, but not of the fit's normal equations.
- The box filter's counts wrap beyond 127, and then it is not the masked mean of every image; with nothing
  masked, a radius of 64 to 127 gives an image of zeros.
- The bandwidth test can stall a transmission, and block the server for ever; a clock that comes back to an
  earlier second lets that second exceed the limit.
- Replacing blobs does not keep them apart, unless their places are clustered.
- A repeated request from one address can make the client accept a chunk twice, or chunks of another image.
- With a chunk size above 4079 no image of more than 4079 bytes can be downloaded.

## Model

| member | source | states |
|---|---|---|
| `JulianDay.JdnAgainstCount` | Oph/src/coords.c:39-43 | For every Gregorian date from year 1, the day number equals a count of days one at a time, less one day exactly on the dates whose shifted year has the century remainders of `LosesADay`; so it is right if and only if the date is not one of them |
| `JulianDay.CenturyFirstIsCounted` | Oph/src/coords.c:39-43 | The formula the code is derived from, which divides by 100 before multiplying by 3, is the counted day number on every date |
| `JulianDay.SuccessiveDays` | Oph/src/coords.c:39-43 | Two successive days get successive numbers exactly when both or neither lose a day |
| `JulianDay.ExactUntil2034` | Oph/src/coords.c:39-43 | From 1 March 2000 through 28 February 2034 the number is the counted one; 1 March 2034 repeats the number of the day before |
| `JulianDay.JulianDateMeasuresElapsedTime` | Oph/src/coords.c:30-46 | The difference of two Julian dates is the elapsed time in days exactly when both or neither of the dates lose a day |
| `JulianDay.NoonIsTheCountedDay` | Oph/src/coords.c:30-46 | Noon of a day is its counted number, and any moment differs from it by the time since noon, exactly on the dates that lose no day |
| `Matrix.Swap` | Oph/src/matrix.c:43-49 | In place, the two rows trade their four cells and nothing else moves, the spare cell included |
| `Matrix.SubtractRow` | Oph/src/matrix.c:55-62 | The inner loop, one column too long: the row loses the multiple of the pivot row, and what the extra column does to the first cell of the next row, or to the spare cell, is stated |
| `Matrix.Pivot` | Oph/src/matrix.c:55-62 | The rows below the pivot are reduced by it from the pivot's column on, whatever the extra column touched on the way |
| `Matrix.FindPivotRow` | Oph/src/matrix.c:68-91 | The row from `p` on with the largest absolute entry in column `p`, the first of equals |
| `Matrix.ForwardElimination` | Oph/src/matrix.c:68-91 | The array ends as the eliminated matrix; the spare cell is untouched unless the first pivot is skipped |
| `Matrix.BackSubstitution` | Oph/src/matrix.c:98-139 | The solution vector, or failure on an equation that reads 0 = nonzero, as the specification of back substitution gives it |
| `Matrix.GaussianElimination` | Oph/src/matrix.c:146-172 | Returns 1 with the solution in `x`, or -1 with `x` untouched, and leaves the eliminated matrix |
| `MatrixLaws.RowSubtraction` | Oph/src/matrix.c:55-62 | Subtracting a multiple of an equation that holds keeps the other equation's truth, in both directions |
| `MatrixLaws.EliminationKeepsSolutions` | Oph/src/matrix.c:68-91 | Without distortion the eliminated system has the solutions of the system given, for every matrix |
| `MatrixLaws.KeepsSolutionsIffUndistorted` | Oph/src/matrix.c:55-91 | For every coefficient matrix: the solution set is kept for every right-hand side exactly when round 1 does not subtract a row whose column 0 a skipped round 0 left nonzero |
| `MatrixLaws.DistortionHappens` | Oph/src/matrix.c:68-91 | A matrix on which that does occur |
| `MatrixLaws.FirstPivotPreventsDistortion` | Oph/src/matrix.c:68-91 | If the first pivot is taken, no later round distorts |
| `MatrixLaws.EliminationIsUpper` | Oph/src/matrix.c:68-91 | With no pivot skipped the result is upper triangular with every pivot above EPSILON |
| `MatrixLaws.BackSubstitutionIsUnique` | Oph/src/matrix.c:98-139 | On such a triangle back substitution returns the one vector that solves it |
| `MatrixLaws.SolverIsExact` | Oph/src/matrix.c:146-172 | With no pivot skipped the solver returns the unique exact solution of the original system |
| `MatrixLaws.ExactIffNoPivotSkipped` | Oph/src/matrix.c:146-172 | For every coefficient matrix: the solver returns the unique solution for every right-hand side exactly when no pivot is skipped |
| `MatrixLaws.SkippedIff` | Oph/src/matrix.c:68-91 | A pivot is skipped exactly when every entry of its column from its row down is within 1e-8 of zero |
| `MatrixLaws.BackSubstitutionMeets` | Oph/src/matrix.c:98-139 | On every upper triangle, pivots missing or not, a vector returned meets every row to within 1e-8, and the rows with a pivot exactly |
| `MatrixLaws.NoCoefficients` | Oph/src/matrix.c:98-172 | With no coefficient at all the solver returns zeros if every right-hand side is within 1e-8 of zero, and fails otherwise |
| `LensAdapter.Regression.QuadRegression` | Oph/src/lens_adapter.c:85-169 | Sets the globals a, b, c to the specified fit and returns 1, or returns -1 and leaves them |
| `LensAdapter.Regression.SumSelected` | Oph/src/lens_adapter.c:101-140 | The sums over exactly the samples of flux at least (max + min) / 2 |
| `LensAdapter.Regression.CalculateOptimalFocus` | Oph/src/lens_adapter.c:446-483 | The rounded vertex of the fit, -1000 without a maximum, -1 without a fit |
| `LensAdapterLaws.AtLeastKeepsExactly` | Oph/src/lens_adapter.c:124-140 | The samples fitted are those at or above the threshold, with their multiplicity, and no others |
| `LensAdapterLaws.TheUpperHalfIsSelected` | Oph/src/lens_adapter.c:101-140 | From the lowest and highest flux alone: a sample is fitted, as often as it occurs, if and only if it is no farther from the highest than from the lowest |
| `LensAdapterLaws.SsrOfShift` | Oph/src/lens_adapter.c:122-147 | Moving a parabola changes its sum of squared residuals by a linear term the normal equations give and a nonnegative quadratic one |
| `LensAdapterLaws.NormalEquationsCharacteriseLeastSquares` | Oph/src/lens_adapter.c:122-147 | A triple solves the normal equations if and only if no other real triple has a smaller sum of squares |
| `LensAdapterLaws.FitIsTheLeastSquaresParabola` | Oph/src/lens_adapter.c:85-169 | When no pivot is skipped, the coefficients returned are the one minimiser of the sum of squares over the selected samples |
| `LensAdapterPivots.NeverDistorts` | Oph/src/lens_adapter.c:122-147 | The foci are integers, so the elimination of the normal equations never changes their solutions, whatever pivots are skipped |
| `LensAdapterPivots.FittedForAllFluxesIff` | Oph/src/lens_adapter.c:101-168 | For the foci the threshold selects: the one least-squares parabola of the selection is returned, whatever the samples, if and only if no pivot is skipped, which the foci alone decide |
| `LensAdapterPivots.PeakIsRefused` | Oph/src/lens_adapter.c:85-169 | Four samples around a peak at focus 3000 that determine exactly one parabola, whose third pivot is below EPSILON and whose fit is refused |
| `LensAdapterLaws.OptimalFocusIsBest` | Oph/src/lens_adapter.c:460-483 | For a < 0 the vertex is the highest real point of the fit and the position returned the highest integer one; otherwise -1000 is returned |
| `LensAdapterLaws.RoundIsNearest` | Oph/src/lens_adapter.c:475-476 | The rounded vertex is an integer as near as any; how halves go is in the two rows below |
| `LensAdapterLaws.RoundIsOdd` | Oph/src/lens_adapter.c:474 | Rounding -x gives minus the rounding of x |
| `LensAdapterLaws.HalvesGoAwayFromZero` | Oph/src/lens_adapter.c:474 | A half is rounded away from zero |
| `LensAdapterLaws.TiesGoAwayFromZero` | Oph/src/lens_adapter.c:460-483 | Of two integer foci that are both highest on the fit, the one returned is the one farther from zero |
| `Regulator.CurrentRegulator.CalculateCurrent` | Oph/src/motor_control.c:78-194 | The statics and the current after a call are those of the specified tick, with int16 assignments wrapping |
| `Regulator.LimitsAreKept` | Oph/src/motor_control.c:176-189 | For every nonnegative pair of limits, one that wraps in its int16 included, the current commanded is within the current limit and within the slew limit of the last |
| `Regulator.LimitsPickTheNearestIff` | Oph/src/motor_control.c:109-186 | The current commanded is the one nearest the demand within both limits, for every demand and last current, if and only if the slew limit survives its int16 or never matters |
| `Regulator.FrictionIsBounded` | Oph/src/motor_control.c:161-173 | The friction compensation and its filtered value never exceed the configured friction |
| `Regulator.TickIsSafe` | Oph/src/motor_control.c:78-194 | One call keeps every bound, moves the current by at most one slew step and the integral by at most MAX_DI_EL while the demand is unchanged |
| `Regulator.EveryRunIsSafe` | Oph/src/motor_control.c:78-194 | Over every run from power on with a constant configuration: the current, its steps, the integral and the friction compensation stay within their limits, for any inputs |
| `RegulatorLaws.RawDemandIs` | Oph/src/motor_control.c:124-152 | The demand before friction is the gain times the velocity error, plus the integral and derivative terms, truncated |
| `RegulatorLaws.TruncateIsTowardsZero` | Oph/src/motor_control.c:152 | A float becomes the integer next to it on the side of zero |
| `RegulatorLaws.IntegralIs` | Oph/src/motor_control.c:109-144 | The integral starts again when the demand changes, steps by 0 in the deadband and by 20 at most, and is 800 at most |
| `RegulatorLaws.CurrentIsTheLimitedDemand` | Oph/src/motor_control.c:124-189 | While no conversion overflows, the current is that demand plus the friction compensation, truncated, moved within the slew limit and then within the current limit |
| `RegulatorLaws.CurrentIs` | Oph/src/motor_control.c:124-189 | With the integral step in its deadband and no friction, the current is the truncation of gain times error plus the integral and derivative terms, and only the two limits change that |
| `RegulatorLaws.FirstCurrent` | Oph/src/motor_control.c:78-194 | From power on with the gains noted in the source, an error of 10 asks for 250 and is let through at 5 |
| `RegulatorLaws.LargerErrorNeverGivesLess` | Oph/src/motor_control.c:124-189 | For one state, demand and derivative term, a larger velocity error never gives a smaller current while no conversion overflows |
| `RegulatorLaws.IntegralGrowsEvenly` | Oph/src/motor_control.c:126-144 | Over any number of ticks of constant demand and velocity, outside the deadband and below both clamps, the integral grows each tick by error * gain / (200 * integral time) |
| `RegulatorLaws.FrictionIs` | Oph/src/motor_control.c:161-171 | The compensation is the filter of the signed friction, for a demand above, below or within the friction deadband |
| `RegulatorLaws.FrictionSetsOff` | Oph/src/motor_control.c:161-173 | From rest, one tick moves the compensation to the side of the demand, and nowhere within the deadband |
| `RegulatorLaws.FrictionConverges` | Oph/src/motor_control.c:161-173 | Over any run whose demand stays on one side, the distance of the compensation from its settled value shrinks by 0.996863 on every tick |
| `RegulatorLaws.SettledIsNearFriction` | Oph/src/motor_control.c:161-173 | The settled value is between 0.999 of the configured friction and all of it |
| `Dither.Scanner.DoEncDither` | Oph/src/motor_control.c:245-322 | The fields of `scan_mode` and `axes_mode` after a call are those of the specified tick |
| `Dither.SettingOff` | Oph/src/motor_control.c:257-283 | At the start position the first sweep begins towards the stop; elsewhere the drive is sent to the start |
| `Dither.SweepStep` | Oph/src/motor_control.c:285-320 | One move and one tick of a sweep: it goes on nearer its end, or reverses past the right end and starts the next sweep, or ends the scan |
| `Dither.SweepsRun` | Oph/src/motor_control.c:245-322 | Over every run of a drive whose moves lie between dMin and dMax: the position stays within tolerance and one move of the interval, reversals alternate ends, and the reversal count is the scan count |
| `Dither.WholeDither` | Oph/src/motor_control.c:245-322 | From setting off: every velocity commanded is `vel`, up or down as the sweep goes; exactly `nscans` reversals end the scan at velocity 0, and a run driven long enough does end |
| `OnOffScan.Scanner.Track` | Oph/src/motor_control.c:453-509 | Destination and elevation flag after the elevation part of `track` |
| `OnOffScan.Scanner.EncOnOff` | Oph/src/motor_control.c:511-571 | The scan's fields and static flags after a call are those of the specified tick |
| `OnOffScan.PhaseStep` | Oph/src/motor_control.c:511-571 | In a phase, the destination is the target plus the phase's offset, and the next phase is entered exactly when the dwell is over or the flag is up |
| `OnOffScan.EveryRunCycles` | Oph/src/motor_control.c:511-571 | For every run from scan 0 with a non-decreasing clock: nothing until the first acquisition, then the six phases in fixed cyclic order, the scan number once per lap, the on phase longer than `time` and each off phase longer than time / 2 |
| `OnOffScan.FirstAcquisition` | Oph/src/motor_control.c:520-531 | The scan begins exactly on a tick with the elevation flag up |
| `OnOffScan.EveryCommandFollowsTheTarget` | Oph/src/motor_control.c:453-571 | Over every run from scan 0, every tick commands the target's elevation, held at 53 above and at 0 below -0.7, plus the offset on the way to and in the upper off position, minus it for the lower one, and nothing added otherwise |
| `OnOffScan.TargetFlagsAre` | Oph/src/motor_control.c:453-509 | The flags mean within a tenth of a degree of the elevation and azimuth commanded, on the axes driven, and the azimuth is the target's while its elevation is in range |
| `OnOffScan.OffDwellStartsOnTheSource` | Oph/src/motor_control.c:532-562 | The tick that starts an off dwell has the telescope on the source: the flag is computed before the offset is added |
| `OnOffScan.OffDwellOnPositionIff` | Oph/src/motor_control.c:532-562 | An off dwell can start on its own position if and only if the offset is less than twice the target tolerance |
| `BlobSort.Merge` | Oph/src/camera.c:994-1028 | In place on three parallel arrays, the stretch becomes the specified merge and the rest is unchanged |
| `BlobSort.Part` | Oph/src/camera.c:1034-1041 | In place, the stretch becomes the specified sort and the rest is unchanged |
| `BlobSortLaws.MergeAvoidsSentinelsIff` | Oph/src/camera.c:994-1028 | A merge copies no zero sentinel if and only if the left half is nonnegative and the right half positive |
| `BlobSortLaws.SortAvoidsSentinelsIff` | Oph/src/camera.c:1034-1041 | A sort copies no sentinel if and only if it has at most one blob, or its first magnitude is nonnegative and all others are positive |
| `BlobSortLaws.PartedPermutes` | Oph/src/camera.c:1034-1041 | The sort permutes the (magnitude, x, y) triples |
| `BlobSortLaws.PartedIsOrdered` | Oph/src/camera.c:1034-1041 | The result is in descending order of magnitude |
| `BlobSortLaws.PartedIsStable` | Oph/src/camera.c:1034-1041 | Blobs of equal magnitude keep their order |
| `BlobSortLaws.SortIsCorrect` | Oph/src/camera.c:994-1041 | All of these at once, for every stretch that avoids the sentinels |
| `BlobList.Finder.Consider` | Oph/src/camera.c:932-971 | The arrays after one candidate hold the specified list, growing by 500 slots when needed; every slot written is below the allocation |
| `BlobList.Finder.Finish` | Oph/src/camera.c:975-987 | The arrays hold the flipped list sorted, and the count is returned |
| `BlobList.ConsiderOne` | Oph/src/camera.c:946-971 | One candidate: slot magnitudes never drop, nothing else enters the list, some slot ends at least as bright |
| `BlobList.SlotsOnlyBrighten` | Oph/src/camera.c:946-971 | Over any further candidates the slots only get brighter |
| `BlobList.ListRepresentsCandidates` | Oph/src/camera.c:932-971 | For every candidate sequence and spacing: every blob is a candidate with its own coordinates and every candidate is matched by a blob at least as bright, so the maxima agree |
| `BlobList.SpacingKeptIff` | Oph/src/camera.c:953-967 | A spaced list stays spaced after a candidate exactly when the candidate replaces blobs cleanly |
| `BlobList.SpacingIsLost` | Oph/src/camera.c:953-967 | Three candidates that leave the same blob listed twice |
| `BlobSpacing.EndsApartIff` | Oph/src/camera.c:953-967 | For the places of an image's candidates in scan order: the list ends with its blobs apart whatever the magnitudes if and only if no place has two earlier ones within four times the spacing that are not within the spacing of each other |
| `BlobList.FoundBlobs` | Oph/src/camera.c:911-988 | For every image's candidates of nonzero value, the returned arrays are the list's blobs, flipped back, brightest first, and no sentinel is copied |
| `BlobScan.CandidatesAre` | Oph/src/camera.c:915-931 | The candidates are exactly the scanned pixels above the threshold that are local maxima, or saturated |
| `BlobScan.FindBlobs` | Oph/src/camera.c:911-988 | The scan, the list and the end together: the arrays hold the list of the image's candidates, flipped and sorted, and its length is returned |
| `BlobScan.FoundInTheScan` | Oph/src/camera.c:911-988 | With a nonnegative threshold no sentinel is copied, and what is returned is the brightest first, candidates only, headed by the brightest of all |
| `BlobLaws.CandidateIs` | Oph/src/camera.c:911-928 | From the pixels alone: a pixel is a candidate if and only if it exceeds the threshold and either exceeds 254 or is no dimmer than the four neighbours scanned before and brighter than the four after |
| `BlobLaws.NeighboursAreNotBothPeaks` | Oph/src/camera.c:911-928 | Of two neighbouring pixels at most one is a peak, so a plateau gives one |
| `BlobLaws.CandidatesInScanOrder` | Oph/src/camera.c:911-943 | The candidates come row by row from left to right, each once |
| `BlobLaws.MagnitudeIs` | Oph/src/camera.c:943-948 | The magnitude of a nonnegative pixel is 100 times its value, of a negative one 2^32 - 1 |
| `BlobLaws.ReachIs` | Oph/src/camera.c:950-955 | A candidate is held to four times the spacing if and only if its pixel exceeds 254 |
| `BlobLaws.NearIs` | Oph/src/camera.c:956-968 | Two pixels are near exactly when their columns and their rows are less than the spacing apart |
| `BlobLaws.FarIsAdded` | Oph/src/camera.c:956-973 | A candidate near no listed blob is added |
| `BlobLaws.NearIsKeptOrReplaced` | Oph/src/camera.c:956-973 | A candidate near some blob takes the place of exactly those near it that are dimmer, and adds none |
| `BlobLaws.FoundAreTheBrightPixels` | Oph/src/camera.c:911-987 | For every image with a nonnegative threshold: each blob returned sits on a candidate pixel, column x and row 1216 - y, with 100 times its value; they come in descending order of those pixels; and the first sits on a candidate of the greatest value |
| `BoxcarFilter.Boxcar.SlideRows` | Oph/src/camera.c:689-710 | After the first pass each scratch cell holds the sum and the count of its window's row, as uint64 and char keep them |
| `BoxcarFilter.Boxcar.ColumnSums` | Oph/src/camera.c:712-719 | A column of scratch cells adds up to the window's sum and to the count the stored chars give |
| `BoxcarFilter.Boxcar.BoxcarFilterImage` | Oph/src/camera.c:671-731 | For every image, mask and radius whose window fits the region, every interior pixel gets its filtered value, with char counts, and no other cell changes |
| `BoxcarFilter.FilteredIsMean` | Oph/src/camera.c:671-731 | When the row counts fit a char, the filtered value is the masked mean of the window, computed directly, or the last mean in scan order when nothing is unmasked |
| `BoxcarFilter.NarrowWindowsFit` | Oph/src/camera.c:692-709 | They fit for every mask when 2r + 1 is at most 127 |
| `BoxcarFilter.WideWindowsGiveZero` | Oph/src/camera.c:671-731 | With nothing masked and a radius of 64 to 127 the counts wrap and the whole image is filtered to 0 |
| `BoxcarLaws.RightForEveryImageIff` | Oph/src/camera.c:671-731 | For every mask, region and radius: every interior pixel of every image is filtered to the mean of its window if and only if every row count fits a char, or no window fits the region |
| `BoxcarLaws.InteriorIff` | Oph/src/camera.c:671-731 | The pixels filtered are exactly those whose whole window lies in the region |
| `BoxcarLaws.WindowAdds` | Oph/src/camera.c:671-731 | Window sums of the sum of two images are the sums of theirs, so that the images of one bright pixel fix them |
| `BoxcarLaws.WindowOfDot` | Oph/src/camera.c:671-731 | The window sum of an image of one bright pixel is its mask where the window contains it, and 0 elsewhere |
| `BoxcarFilter.Slide` | Oph/src/camera.c:699-706 | Moving a row's window on by one cell drops its first cell and adds the next, for sums and counts |
| `BoxcarFilter.MeanIsBetween` | Oph/src/camera.c:714-728 | A window's mean lies between its darkest and brightest unmasked pixels |
| `Accelerometer.Receiver.ProcessLine` | Oph/src/accelerometer.c:168-205 | One line: the sensor it names gets its record, in a file opened if none is, rotated if old enough; the other sensors are untouched |
| `Accelerometer.Receiver.Receive` | Oph/src/accelerometer.c:145-260 | One turn of the loop: the lines it parses go to the files in order and the specified fragment is left pending |
| `AccelerometerLaws.SplitOfSum` | Oph/src/accelerometer.c:158-260 | Splitting a text into lines can be done piece by piece, carrying the tail over |
| `AccelerometerLaws.JoinedOfSplit` | Oph/src/accelerometer.c:158-260 | The lines, a newline after each, and the tail are the text that was split, and none of them holds a newline |
| `AccelerometerLaws.ShortLinesFit` | Oph/src/accelerometer.c:162-166 | Cut anywhere, a stream of short lines has fragments that fit |
| `AccelerometerLaws.ReceivedSize` | Oph/src/accelerometer.c:145-260 | Every turn accounts for all characters, pending and received, except an overwritten fragment |
| `Accelerometer.Receiver.Run` | Oph/src/accelerometer.c:133-260 | The whole loop over what the recv calls return: the fragment left and every sensor are those of the specification |
| `AccelerometerLaws.FramingIsExactIff` | Oph/src/accelerometer.c:145-260 | For every sequence of chunks: the receiver stays within its 256-byte buffer and frames the concatenated stream if and only if every nonempty chunk has a newline or arrives at a line boundary, and the unterminated line at every cut, and a line completed across one, fit the buffer |
| `AccelerometerLaws.ShortLinesAreFramedIff` | Oph/src/accelerometer.c:145-260 | For a stream of lines of at most 254 characters and a tail of at most 255 the first condition alone is exact |
| `AccelerometerLaws.OverwritingHappens` | Oph/src/accelerometer.c:256-259 | The chunks "1," and "2" leave "2" pending instead of "1,2" |
| `AccelerometerLaws.LongFragmentsOverflow` | Oph/src/accelerometer.c:256-259 | Every first line of 256 characters or more that is cut before its newline is aligned and overflows the buffer |
| `AccelerometerLaws.LoggingFiles` | Oph/src/accelerometer.c:172-204 | A record keeps the files of a sensor holding its records in order, with rotation exactly at chunk_duration and chunk numbers going up by one |
| `AccelerometerLaws.FilesHoldTheAcceptedReadings` | Oph/src/accelerometer.c:211-251 | For every sequence of lines, from what parses alone: the files of sensor k together are the records of the lines of id k + 1 in order, for 0 <= k < num, and none otherwise; `samples_received` counts them, and every rotated file is full at its last record and not before |
| `AccelerometerLaws.OtherIdsChangeNothing` | Oph/src/accelerometer.c:168-205 | A line that does not parse or has an id outside 1 to num changes no sensor |
| `AccelerometerLaws.SamplesAddUp` | Oph/src/accelerometer.c:211-251 | The sample counts of the sensors add up to the number of lines of an id from 1 to num |
| `AccelerometerLaws.FilesHoldTheStream` | Oph/src/accelerometer.c:145-260 | End to end: with aligned cuts and fragments that fit, the receiver stays within its buffer and the files of sensor k hold the records of the concatenated stream's lines of id k + 1 |
| `AccelerometerLaws.PacketsDoNotMatter` | Oph/src/accelerometer.c:145-260 | Two such ways of cutting one stream leave the same files and the same tail |
| `StatusJson.StatusStore.ExtractJsonNumber` | Sag/src/aquila_status.c:52-72 | The value after the first occurrence of the quoted key, or the old value and 0 |
| `StatusJson.StatusStore.ExtractJsonInt` | Sag/src/aquila_status.c:77-97 | The same for integers |
| `StatusJson.StatusStore.UpdateFromJson` | Sag/src/aquila_status.c:103-165 | The fields after a message, with refusal of anything that is not a status message |
| `StatusJsonLaws.KeyIsFound` | Sag/src/aquila_status.c:52-61 | The first occurrence of a key in a text of quoted words is that of the first segment of its own |
| `StatusJsonLaws.TenthsRoundTrip` | Sag/src/aquila_system_monitor.c:223-252 | Scanning a number printed with one decimal gives it back, whatever follows that is no digit |
| `StatusJsonLaws.HundredthsRoundTrip` | Sag/src/aquila_system_monitor.c:223-252 | The same with two decimals |
| `StatusJsonLaws.IntRoundTrip` | Sag/src/aquila_system_monitor.c:223-252 | The same for integers, negative ones included |
| `StatusJsonLaws.DiskFound` | Sag/src/aquila_status.c:121-136 | The four values of a disk are read from the first disk section of the text searched |
| `StatusJsonLaws.StatusRoundTrip` | Sag/src/aquila_system_monitor.c:223-252 | For all field values at printed precision and any earlier state, updating from the printed message recovers all twelve values |
| `StatusJsonLaws.MessageFitsItsBuffer` | Sag/src/aquila_system_monitor.c:266-275 | For all values of the C types the message fits the 1024 bytes it is printed into |
| `StatusMessageLaws.TimestampFound` | Sag/src/aquila_system_monitor.c:223-252 | Scanning the integer behind the timestamp key of a printed message gives its timestamp |
| `StatusMessageLaws.DigitsAreDecimal` | Sag/src/aquila_system_monitor.c:223-252 | Numbers are printed in the ten decimal digits, most significant first |
| `StatusMessageLaws.RefusedIff` | Sag/src/aquila_status.c:103-112 | A message is refused, and changes nothing, if and only if it is missing, shorter than ten characters or without the word aquila_system_status |
| `StatusMessageLaws.AbsentKeysKeepTheirFields` | Sag/src/aquila_status.c:121-150 | For every message: a key or a section that is not there leaves its fields as they were, but the first disk then counts as not mounted |
| `StatusMessageLaws.NumberIsReadBehindItsKey` | Sag/src/aquila_status.c:52-97 | In any text, what is scanned is what stands behind the first quoted key and colon, whatever white space is between |
| `StatusMessageLaws.LongKeysAreCut` | Sag/src/aquila_status.c:52-56 | What is searched for is the quoted key and colon, cut to 63 characters |
| `StatusMessageLaws.PlusIsIgnored` | Sag/src/aquila_status.c:90-93 | A plus sign before the digits changes nothing |
| `StatusMessageLaws.WordsAreNotNumbers` | Sag/src/aquila_status.c:66-97 | Text that begins with no digit, sign, point or white space is no number |
| `Wire.LERoundTrip` | Oph/include/starcam_downlink.h:49-90 | Reading back the low bytes of a number gives it modulo their range |
| `Wire.HeaderRoundTrip` | Oph/star_camera_client.py:206-213 | The client reads back timestamp, sizes and dimensions of every image header |
| `Wire.QualityAndBlobCount` | Oph/star_camera_client.py:206-213 | It exchanges the widths of quality and blob count: the blob count is read back if and only if it is 0, the quality if and only if the blob count is a multiple of 2^24 |
| `WireLaws.ImageHeaderIs` | Oph/include/starcam_downlink.h:49-90 | An image header has 38 bytes, kind 5, the size of its payload and the request's sequence number |
| `WireLaws.ImageChunkIs` | Oph/src/starcam_downlink.c:411-434 | The kind, size, number and data of every chunk message are read back from their places |
| `WireLaws.ImageCompleteIs` | Oph/src/starcam_downlink.c:454-462 | The same for the message that ends an image |
| `WireLaws.ErrorMessageIs` | Oph/src/starcam_downlink.c:299-388 | The same for an error |
| `WireLaws.StatusResponseIs` | Oph/src/starcam_downlink.c:345-362 | The same for a status reply |
| `WireLaws.RequestIsAnswered` | Oph/src/starcam_downlink.c:299-388 | In every state: which kind of reply each request gets, with its own sequence number, and which transmission it starts; requests too short or unknown get none |
| `WireLaws.StatusRoundTrip` | Oph/src/starcam_downlink.c:345-362 | What the client unpacks of the server's status: one image or none, the bandwidth of the second before in kbps, and whether the image is from after the epoch |
| `WireLaws.ChunkCountIs` | Oph/src/starcam_downlink.c:318-343 | The chunks announced are the size over the chunk size, rounded up |
| `Downlink.Server.UpdateBandwidthUsage` | Oph/src/starcam_downlink.c:262-272 | The account after a datagram: the second's running total, or a new second's first |
| `Downlink.Server.SendMessage` | Oph/src/starcam_downlink.c:281-296 | The datagram goes out and is accounted, or nothing changes; the result tells which |
| `Downlink.Server.ReplaceCurrentImage` | Oph/src/starcam_downlink.c:171-223 | A compressed image takes the pending slot during a transmission and the current one otherwise, and frees what was there; a failed compression changes nothing |
| `Downlink.Server.OnTransmissionComplete` | Oph/src/starcam_downlink.c:240-259 | The transmission ends and a pending image becomes current |
| `Downlink.Server.HandleClientRequest` | Oph/src/starcam_downlink.c:299-387 | The state after each kind of request, malformed and unknown ones included |
| `Downlink.Server.NextChunk` | Oph/src/starcam_downlink.c:411-434 | The chunk built in 32-bit arithmetic is the specified slice of the image |
| `Downlink.Server.ContinueTransmission` | Oph/src/starcam_downlink.c:390-472 | A call is a number of chunk steps followed by the finishing step |
| `DownlinkLaws.StepKeeps` | Oph/src/starcam_downlink.c:158-472 | Every step keeps the invariant; the latest image changes only to a newly delivered one; an active transmission's image does not change |
| `DownlinkLaws.OwnershipInEveryRun` | Oph/src/starcam_downlink.c:158-259 | In every run: no buffer is freed twice, the slots share none and own none that was freed, and freed plus owned is allocated |
| `DownlinkLaws.NothingLeaks` | Oph/src/starcam_downlink.c:546-557 | After any run and the cleanup, every buffer allocated has been freed exactly once |
| `DownlinkLaws.NewestIsLatest` | Oph/src/starcam_downlink.c:171-259 | After every run the newest image that compressed is pending if one is pending and current otherwise |
| `DownlinkLaws.TransmissionKeepsItsImage` | Oph/src/starcam_downlink.c:318-403 | While a transmission stays active the current image is the one it began with, so the branch for a vanished image is never taken |
| `DownlinkLaws.ClearingActiveFirstKeepsTheNewestIff` | Oph/src/starcam_downlink.c:466-471 | If the flag is cleared in a step of its own, an image delivered in between stays the latest if and only if none was pending; otherwise the older pending one replaces it and it is freed |
| `DownlinkRate.CanSendIsExact` | Oph/src/starcam_downlink.c:275-278 | On an account within the limit the 32-bit comparison is the exact one |
| `DownlinkRate.NoSecondExceedsTheLimit` | Oph/src/starcam_downlink.c:262-296 | In every run that accounts to no second again after another, for every mix of messages, no second is given more than max_bandwidth_kbps * 1024 / 8 bytes, `bytes_sent` is the total of the last second and `current_bps` that of the one before; a clock that does not step back makes such a run |
| `DownlinkRate.RateIsKeptIff` | Oph/src/starcam_downlink.c:262-296 | For every sequence of seconds without equal neighbours: all runs that account to a prefix of it keep the limit if and only if no second occurs in it twice, or the limit is 0 and nothing is ever sent |
| `DownlinkStall.TheLimiterWedgesIff` | Oph/src/starcam_downlink.c:275-296 | After any run, nothing is ever sent again whatever happens if and only if the account leaves no room for the shortest message, since the test never looks at the clock |
| `DownlinkStall.TheLimiterDoesWedge` | Oph/src/starcam_downlink.c:275-296 | On every link and in every second there is a run after which the server is silent for ever |
| `DownlinkStall.TransmissionStallsIff` | Oph/src/starcam_downlink.c:275-278 | While no one asks, an unfinished transmission sends nothing any more, whatever arrives, if and only if its next chunk does not fit beside what the account holds |
| `Client.StarCameraClient.GetLatestImage` | Oph/star_camera_client.py:163-307 | The result, the failure count and the byte count for every sequence of datagrams, every early exit included |
| `Client.StarCameraClient.ReceiveChunks` | Oph/star_camera_client.py:220-272 | The chunk loop counts and appends exactly the chunks the specification accepts and reads as many datagrams |
| `Client.StarCameraClient.GetImages` | Oph/star_camera_client.py:163-307 | The images and the failure count of any sequence of calls on a new client are those of the specification |
| `Client.StarCameraClient.GetStatus` | Oph/star_camera_client.py:98-161 | The status unpacked from a reply, the failure count cleared by a valid one and raised otherwise, and the bytes counted |
| `ClientLaws.FailuresAreBadCalls` | Oph/star_camera_client.py:163-307 | For every sequence of calls, from the images returned and the first datagrams alone: the count is the number of calls without a valid image since the last one, error replies not counted, and stops at four |
| `ClientLaws.RefusedIff` | Oph/star_camera_client.py:166-169 | A call that would succeed is refused if and only if four calls or more have been bad since the last valid image, and clears the count otherwise |
| `ClientLaws.ValidClears` | Oph/star_camera_client.py:278-279 | After a call that returned a valid image the count is 0 |
| `ClientLaws.SuccessesAreNeverRefused` | Oph/star_camera_client.py:163-307 | Any number of calls that would succeed are all answered with their images |
| `ClientLaws.DownloadedIs` | Oph/star_camera_client.py:190-307 | The image told from the datagrams alone: valid if and only if the first is a header and as many whole chunks follow as it announces, before an end; its fields are read from the header's bytes, its data is the chunks', and the bytes counted are those read |
| `ClientLaws.StatusIs` | Oph/star_camera_client.py:112-150 | A reply counts if and only if it is a status of 25 bytes or more, and its fields are read from bytes 9 to 24 |
| `Reassembly.SpanIsASlice` | Oph/src/starcam_downlink.c:411-434 | Consecutive chunks put together are the slice of the image between their offsets |
| `Reassembly.ChunksAreTheImageIff` | Oph/src/starcam_downlink.c:318-343 | All announced chunks put together are the compressed image if and only if size + chunk_size - 1 fits 32 bits |
| `Reassembly.ChunkIsTakenIff` | Oph/star_camera_client.py:228-253 | The client takes a chunk datagram if and only if it fits the 4096-byte read, and then takes exactly its data |
| `Reassembly.CountingAllMeansMissingNone` | Oph/star_camera_client.py:221-275 | If the count reaches the announced number on an ordered subsequence of what was sent, no chunk was missed and the data is the whole |
| `EndToEnd.OutboxOfARun` | Oph/src/starcam_downlink.c:309-472 | In any run in which an address asks while no transmission is for it and does not ask again, what it is sent from then on is the header unless that send failed, the chunks from the first on in order and once each, and the completion only after the last |
| `EndToEnd.NewAddressAsksOnce` | Oph/src/starcam_downlink.c:309-326 | No transmission is for an address that has not asked before |
| `EndToEnd.ValidMeansTheImageAskedFor` | Oph/star_camera_client.py:163-307 | For every such run of the server and every ordered subsequence of what the client was sent: a valid image has the timestamp and dimensions of the image current at the request, its quality and blob count as the exchanged widths read them, and its bytes if and only if the chunk count did not overflow |
| `EndToEnd.LongChunksAreNeverValid` | Oph/star_camera_client.py:228-253 | Whatever arrives, an image whose chunks are too long for the client's read is never reported valid |
| `EndToEnd.AskedWhileIdleMeansTheNewest` | Oph/src/starcam_downlink.c:309-326 | If no transmission was active when the client asked, that image is the newest of all |
| `EndToEnd.EverythingArrivedIsValidIff` | Oph/star_camera_client.py:221-295 | When everything is sent and arrives, the download is valid if and only if a chunk datagram fits the read or there is none |
| `Delivery.AskingOnceDelivers` | Oph/src/starcam_downlink.c:390-472 | With room for its datagrams and sends that succeed, every image asked for once whose chunks fit the read and whose count does not overflow arrives whole |
| `Repeats.RunAbout` | Oph/src/starcam_downlink.c:299-472 | While an image stays current, whatever is asked, an address is sent no header or chunk but those of that image |
| `Repeats.RepeatsAreSafeIff` | Oph/star_camera_client.py:221-295 | For an image that stays current, whose chunks fit the read and with room for them: every valid download, over any number of requests and any losses, has its bytes if and only if its chunks are all equal |
| `Repeats.RepeatGoesWrong` | Oph/star_camera_client.py:221-295 | Otherwise the request repeated after the first chunk, with nothing lost, gives a valid image of the first chunk and all but the last |
| `Repeats.NewImageCompletesTheOldHeader` | Oph/star_camera_client.py:221-295 | A second request after a new image arrived: a client that missed the last chunks of the first image and the completion reports a valid image with the timestamp of the first and bytes of both |

## Left out

- Accelerometer.Receiver.Receive: asks that a fragment and the line it becomes fit their 256 bytes; past that the C code writes outside the buffer, which the model does not follow. `Receiver.Run` asks it of every turn; the laws say exactly when it holds.
- Accelerometer.Receiver.ProcessLine: the progress message every `print_interval` samples and the closing of the files at the end are not modelled.
- LensAdapter.Regression.QuadRegression: the sample arrays, which are only read, are a sequence; the doubles are reals, so rounding in the sums is not modelled.
- Regulator.CurrentRegulator.CalculateCurrent: a configured integral gain of zero divides by zero, which gives an infinity or not-a-number in C and has no counterpart over the reals.
- Regulator.EveryRunIsSafe: is for a constant configuration; the bound on steps does not hold across a change of the current limit by command.
- OnOffScan.Scanner.Track: the azimuth part is not modelled beyond the motor choice that decides whether the elevation flag is refreshed.
- BlobSort.Merge: asks that no sentinel be copied; past that the C code reads coordinates that were never set and may read outside its halves. The laws say exactly when that happens.
- BlobSort.Part: the same.
- BlobList.Finder.Finish: the same, for the list it sorts.
- BlobScan.FindBlobs: asks the same of the image's list; the filtering, the mean and the deviation before the scan are not modelled together with it, and the border around the part scanned is at least one pixel.
- StatusJson.StatusStore.ExtractJsonNumber: exponents, hexadecimal, infinities and not-a-number are not scanned, and minus zero is zero; values are decimals at the printed precision.
- Downlink.Server.HandleClientRequest: asks for a positive chunk size, without which the C code divides by zero or by a number near 2^32, and for a bandwidth whose product with 1024 fits an int.
- Downlink.Server.NextChunk: the same.
- Downlink.Server.ContinueTransmission: the same.
- Client.StarCameraClient.GetImages: is for calls of `get_latest_image` alone; a status asked for in between changes the same count, as `GetStatus` says.
- Client.StarCameraClient.GetLatestImage: the time of the last success and the log are not modelled; a time-out is the end of the datagrams, and an exception is not told apart from it.
- DownlinkRate.RateIsKeptIff: is about the seconds the server accounts to, read from the clock after each send.
- Liveness of the downlink is not claimed: a lost header or completion is not sent again and the limiter can block.
- Interleavings inside a step of the downlink, other than the one shown, are not modelled.
- Sockets, files, threads, JPEG compression, the camera, serial and EtherCAT devices.
- `lpfilter`, `track_dither`, `skydip_track`, sidereal time and coordinate conversion, and the velocity laws of the pointing loop.
- The command line, the command packets, power relays, housekeeping, temperature control and the system monitors' collectors.
