# Verified models of the PROJ.4 numeric and bookkeeping cores

The repository vendors PROJ.4 4.8.0. This project models its self-contained cores in
Dafny and proves what they promise. C doubles are exact reals, so every statement is
algebraic; HUGE_VAL is a separate value. Arrays, linked lists, static state and loops
keep their imperative form, and each such method is proved against a function or a
predicate whose properties are then proved as lemmas.

- Approximation series (`Series`, `ChebPower`, `Matrix`, `BchCols`, `Bch2Bps`, `BchGen`,
  `ChebNodes`, `Interpolation`, `MkCheby`, `BivEval`): sampling, the cosine transforms,
  pruning with an error bound, the change from Chebyshev to power series, ragged storage,
  and both evaluators. The main result is `MkCheby.EvaluateBoth`: both stored forms agree,
  in the box they stay within the reported residual of the full series, and at the nodes
  within it of the function that was sampled.
- Sine series of the extended transverse Mercator (`Etmerc`).
- Datum grid shifts (`NadGrid`, `NadCvt`, `GridShift`, `GridList`, `ByteSwap`, `Ntv2`, `Ctable2`):
  bilinear interpolation as one continuous surface, its fixed-point inverse with a
  contraction bound, choice of table per point, the grid cache, and the NTv2 and ctable2
  files written and read on machines of different byte order.
- Icosahedral hexagons (`IseaHex`): nearest hexagon, folding between quads, numbering.
- Text (`CStrings`, `Decimal`, `Rtodms`, `Dmstor`, `DmsRoundTrip`, `AngleText`, `ProjDef`): printing and
  reading angles, printing and splitting definition strings.
- Arrays of points and caches (`Strided`, `Geocentric`, `InitCache`).

Cosine, sine and the hyperbolic functions are parameters; what makes one a cosine, where
that matters, is `ChebNodes.IsCosine`: the addition rule, 1 at 0, 0 at a quarter of the
period, and falling over half of it. Reading a grid file is a
function from the name to the chain of grids it yields. Number formats are parameters
with fixed widths. The radians in a second of arc are a positive parameter of the angle
printer and parser, with 3600 and 60 seconds in a degree and a minute.

Where the code differs from what it is meant to do, the model follows the code:

- `rtodms.c:62-66` takes zeros off the end of whole seconds when no decimals are printed:
  ten seconds print as one (`DmsRoundTrip.TenSeconds`). `DmsRoundTrip.RoundTrip` gives the
  exact condition.
- `pj_init.c:210-215` means to trim blanks in front of a parameter, but leaves the argument
  pointing at the terminator it wrote, so a parameter behind `+` and a blank becomes empty
  (`ProjDef.BlankBehindPlus`). `ProjDef.LeadingBlanksLost` gives the exact condition.
- Two edges of quads 6-10 are folded wrong (`PJ_isea.c:840-858`). Where -z is the side
  length, the cell keeps an address outside its quad (`IseaHex.FoldedTopEdge`). Where x is
  the side length, the cell is sent to the diagonal of the next quad instead of its bottom
  edge, as lines 773-779 do for aperture 3, so two hexagons share a name and a number
  (`IseaHex.FoldedCollision`). Lines 854-858 test for an edge that no cell of the quad is
  on. `IseaHex.FoldedIsOwner` and `IseaHex.FoldedOwn` give the exact condition, and
  `IseaHex.Grid.Assign` carries it to the points of a quad.
- The inverse shift stops as soon as either coordinate has converged (`nad_cvt.c:49`).
  `NadCvt.StopsAtOnce` says exactly at which iterate, `NadCvt.FirstStop` when already at the
  first by comparing two lookups, `NadCvt.EndsExactly` how every run ends, and
  `NadCvt.ConvergedBoth` exactly which runs leave both coordinates within the tolerance.
  `NadCvt.EarlyStopMiss` and `NadCvt.EarlyStopBackward` are a table and a point that stop
  after one correction with 1/16 still missing. `NadCvt.NeverGivesUp` excludes the failure
  after the last try; a run that leaves the table may still end at its edge.
- `nad2bin.c:340` clears only the first cell of the row buffer, and the accuracy words of
  the other cells, meant to be zero (line 355), reach the file as the allocator left them,
  in alternating byte order on a machine with the most significant byte first.
  `Ntv2.WriteCells` gives the exact condition for one allocation and `Ntv2.AccuracyAlways`
  for all of them: no rows, or a single column.
- On a machine with the most significant byte first `nad2bin.c:198` swaps as many words as
  there are cells, half of what a ctable2 file holds, while `nad_init.c:186` swaps them all:
  `Ctable2.OneCellLost`, with the exact condition in `Ctable2.WriteAndLoad`.

Elsewhere the model repairs the code or narrows its input:

- `bch2bps.c:38` asks for one work element fewer than lines 40 and 55 use; the model
  allocates all of them.
- `mk_cheby.c:44-46` allocates nu + nv row counts and starts those of v at nu, but lines 64
  and 84 write a count of v for each of the nu rows. `MkCheby.CountsFit` shows that this
  stays inside the block exactly when nu <= nv, and `gen_cheb.c:28-29` lets a user ask for
  more; the model allocates enough for both passes.
- `mk_cheby.c` returns an uninitialised pointer when sampling fails (lines 39, 47, 160);
  the model returns nothing there.
- `bchgen.c:16` looks for HUGE_VAL in one component only; a sample here fails as a whole.
- `ceval` counts down from a row degree that is -1 when nothing was kept
  (`biveval.c:8`), so the Chebyshev evaluator requires a row per component;
  `MkCheby.Make` says exactly when there is one. Power evaluation has no such condition.
- `nad2bin.c:340` clears 16 bytes of a table without columns too; nothing is cleared there.

## Model

| member | source | states |
|---|---|---|
| `Bch2Bps.Rows` | MOOS/proj-4.8.0/src/bch2bps.c:33-61 | one row: for each component the loops over `d` and `dd` leave the power series whose value is that of the Chebyshev row (with `ChebPower.ChebToPowerValue`) |
| `BchCols.Cols` | MOOS/proj-4.8.0/src/bch2bps.c:62-87 | the same for every column of a matrix at once, by whole-row operations, leaving the source matrix as it was |
| `Bch2Bps.RowShift` | MOOS/proj-4.8.0/src/bch2bps.c:88-106 | a row over -1..1 becomes, in place, the row of the same polynomial over a..b |
| `BchCols.ColShift` | MOOS/proj-4.8.0/src/bch2bps.c:107-122 | the same change of range for all columns, row by row in place |
| `Bch2Bps.Convert` | MOOS/proj-4.8.0/src/bch2bps.c:123-140 | fails exactly when a dimension is below 1; otherwise the power series left in `c` has at every (u, v) the value of the given Chebyshev series at the normalised point, for both components |
| `ChebPower.ChebToPowerValue` | MOOS/proj-4.8.0/src/bch2bps.c:33-61 | the power coefficients that the recurrence builds have the value of the Chebyshev sum (first term halved) at every x |
| `ChebPower.ToRangeValue` | MOOS/proj-4.8.0/src/bch2bps.c:88-106 | scaling by powers and repeated synthetic division is the substitution of the normalised argument |
| `ChebPower.MatrixConverted` | MOOS/proj-4.8.0/src/bch2bps.c:130-137 | rows first and columns second preserves the value of the double sum |
| `Series.Fubini` | MOOS/proj-4.8.0/src/bch2bps.c:130-137 | a double sum by rows equals the sum by columns |
| `Series.ChebBounded` | MOOS/proj-4.8.0/src/mk_cheby.c:51-77 | no Chebyshev polynomial exceeds 1 in size on -1..1 (from T_n^2 + (1 - x^2) U_{n-1}^2 = 1), which is why a dropped coefficient costs at most its size |
| `MkCheby.Eval` | MOOS/proj-4.8.0/src/mk_cheby.c:2-16 | the residual is, per component, the total size of the coefficients below the cut |
| `MkCheby.FindCut` | MOOS/proj-4.8.0/src/mk_cheby.c:51-60 | at most four halvings of the cut, with the sign of the u residual as the warning |
| `MkCheby.CutSearchBound` | MOOS/proj-4.8.0/src/mk_cheby.c:51-60 | either the residual belongs to the cut returned and is below the requested resolution, or it belongs to twice that cut; in both cases its size bounds what the cut removes |
| `MkCheby.PruningBound` | MOOS/proj-4.8.0/src/mk_cheby.c:61-77 | at every point of the square pruning moves the Chebyshev value by at most the residual |
| `MkCheby.CountsFit` | MOOS/proj-4.8.0/src/mk_cheby.c:44-93 | every row count that the two passes write lies inside the allocated block exactly when nu <= nv; otherwise row nv is the first with a count outside |
| `MkCheby.PruneAll` | MOOS/proj-4.8.0/src/mk_cheby.c:61-77 | coefficients below the cut become zero in place, and the row and column counts are the exact extents of what is kept |
| `MkCheby.MeasureAll` | MOOS/proj-4.8.0/src/mk_cheby.c:81-93 | after conversion the counts are recomputed as the exact extents of the nonzero coefficients |
| `MkCheby.RaggedValue` | MOOS/proj-4.8.0/src/mk_cheby.c:98-141 | ragged rows that drop only zeros keep the value of the double sum |
| `MkCheby.Store` | MOOS/proj-4.8.0/src/mk_cheby.c:61-142 | in both forms the stored series has at every point the value of the pruned Chebyshev series; the Chebyshev form has a row exactly when some coefficient reaches the cut |
| `MkCheby.Make` | MOOS/proj-4.8.0/src/mk_cheby.c:35-161 | the whole construction: a series exists exactly when the function answers at every node; in the box each component stays within the size of its reported residual of the series that was not pruned, and at the nodes of the function itself |
| `MkCheby.FirstCut` | MOOS/proj-4.8.0/src/mk_cheby.c:51-60 | the cut is the first of the resolution, its half, quarter and eighth whose removed sizes are below the resolution, else a sixteenth with the sign of u reversed |
| `MkCheby.BoxNormalised` | MOOS/proj-4.8.0/src/biveval.c:35-38 | the points of the box are exactly those whose normalised coordinates lie in -1..1 |
| `MkCheby.EvaluateBoth` | MOOS/proj-4.8.0/src/mk_cheby.c:78-142 | the Chebyshev form and the power form built from the same samples give the same pair wherever the Chebyshev form answers, which at the nodes it does, within the residual of the function |
| `Series.ChebClenshaw` | MOOS/proj-4.8.0/src/biveval.c:8-29 | Clenshaw's recurrence sums the Chebyshev series |
| `BivEval.CEval` | MOOS/proj-4.8.0/src/biveval.c:4-29 | nested Clenshaw loops over ragged rows give the direct Chebyshev double sum, empty rows included |
| `BivEval.PEval` | MOOS/proj-4.8.0/src/biveval.c:50-76 | nested Horner loops over ragged rows give the direct power double sum |
| `BivEval.BchEval` | MOOS/proj-4.8.0/src/biveval.c:31-48 | fails exactly when a scaled coordinate exceeds NEAR_ONE, else both components are the Chebyshev double sums |
| `BivEval.Evaluate` | MOOS/proj-4.8.0/src/biveval.c:78-86 | the dispatcher gives the value the stored form stands for |
| `Interpolation.NodeNormalised` | MOOS/proj-4.8.0/src/bchgen.c:8-14 | a coordinate is sample position i exactly when its normalised form is cos(PI (i + 0.5) / n) |
| `Interpolation.FiniteAtNodes` | MOOS/proj-4.8.0/src/bchgen.c:11-19 | no sample fails exactly when the function answers at every point of the box whose normalised coordinates are those cosines |
| `BchGen.SamplePass` | MOOS/proj-4.8.0/src/bchgen.c:11-19 | sampling stops with failure exactly when some sample fails, else the matrix holds the samples at the Chebyshev nodes |
| `BchGen.ColumnPass` | MOOS/proj-4.8.0/src/bchgen.c:20-37 | each column is replaced by its cosine transform although it is overwritten in place |
| `BchGen.RowPass` | MOOS/proj-4.8.0/src/bchgen.c:38-56 | each row is replaced by its transform; buffers move down one place, stay pairwise distinct, and exactly the last original buffer is released |
| `BchGen.Generate` | MOOS/proj-4.8.0/src/bchgen.c:3-58 | without a failing sample f[i][j] is 4/(nu nv) times the double cosine sum of the samples, per component |
| `ChebNodes.CosRoots` | MOOS/proj-4.8.0/src/bchgen.c:12-14 | for a cosine those n values are n different roots of T_n |
| `ChebNodes.KernelGap` | MOOS/proj-4.8.0/src/bchgen.c:20-56 | Christoffel and Darboux: 2 (x - y) times the half-weighted sum of T_k(x) T_k(y) for k < n is T_n(x) T_{n-1}(y) - T_{n-1}(x) T_n(y) |
| `ChebNodes.Interpolates` | MOOS/proj-4.8.0/src/bchgen.c:20-56 | over n different roots of T_n the cosine sums of the samples are the coefficients of a series that takes the samples (discrete orthogonality is proved, not assumed) |
| `Interpolation.SeriesIsFunction` | MOOS/proj-4.8.0/src/bchgen.c:3-58 | at every node of the box the double series generated equals the function, for both components |
| `Etmerc.Clens` | MOOS/proj-4.8.0/src/proj_etmerc.c:111-125 | the real loop gives the sum of a[k-1] S_k, where S_0 = 0, S_1 = s and S_{k+1} = 2c S_k - S_{k-1} |
| `Etmerc.SineSeries` | MOOS/proj-4.8.0/src/proj_etmerc.c:111-125 | for a sine and its cosine, given the addition rule, S_k is sin kx and the sum that of a[k-1] sin kx |
| `Etmerc.ClenS` | MOOS/proj-4.8.0/src/proj_etmerc.c:76-110 | the complex loop gives the same sum over complex numbers |
| `Etmerc.CClenshawTail` | MOOS/proj-4.8.0/src/proj_etmerc.c:96-104 | complex Clenshaw summation from any index on |
| `Etmerc.RealSineSum` | MOOS/proj-4.8.0/src/proj_etmerc.c:111-125 | with zero imaginary parts the complex sum is the real one |
| `Etmerc.Gatg` | MOOS/proj-4.8.0/src/proj_etmerc.c:62-71 | for two coefficients or more B plus the series at 2B (its three callers pass five) |
| `NadGrid.CellAndFraction` | MOOS/proj-4.8.0/src/nad_intr.c:13-43 | an axis position is accepted exactly within 1e-11 of the grid; the cell and fraction found are in bounds and stand for the position clamped to the grid |
| `NadGrid.NadIntr` | MOOS/proj-4.8.0/src/nad_intr.c:4-62 | reads four in-bounds nodes and returns the piecewise bilinear surface at the clamped position, or fails |
| `NadGrid.SurfaceCell` | MOOS/proj-4.8.0/src/nad_intr.c:44-60 | in any closed cell that holds the point the surface is the bilinear blend of its corners, so neighbouring cells agree on their shared edge |
| `NadGrid.SurfaceBetween` | MOOS/proj-4.8.0/src/nad_intr.c:50-60 | a shift lies between any bounds that its four corners satisfy |
| `NadGrid.InterpolatedNode` | MOOS/proj-4.8.0/src/nad_intr.c:4-62 | at a node the shift is the node value |
| `NadGrid.InterpolatedLipschitz` | MOOS/proj-4.8.0/src/nad_intr.c:4-62 | bounds on neighbouring-node differences give a Lipschitz bound on the shifts at any two accepted points |
| `NadCvt.AdjlonUndoes` | MOOS/proj-4.8.0/src/adjlon.c:9-15 | the reduction undoes any number of whole turns away from the seam |
| `NadCvt.Invert` | MOOS/proj-4.8.0/src/nad_cvt.c:25-56 | the do-while loop is the iteration that stops as soon as one coordinate has converged, with at most ten table lookups |
| `NadCvt.NodeStepsContract` | MOOS/proj-4.8.0/src/nad_cvt.c:25-49 | node-difference bounds make the table a contraction in max norm with a computable constant |
| `NadCvt.StepResidual` | MOOS/proj-4.8.0/src/nad_cvt.c:47-49 | the next correction equals the forward miss, and both are at most l times the correction just made |
| `NadCvt.IterateShrinks` | MOOS/proj-4.8.0/src/nad_cvt.c:25-49 | over a converged run the last correction is at most l^k times the first |
| `NadCvt.InverseQuality` | MOOS/proj-4.8.0/src/nad_cvt.c:17-59 | shifting the final iterate forward misses the target by at most l times the last correction, and by at most l^steps times the first |
| `NadCvt.EndsExactly` | MOOS/proj-4.8.0/src/nad_cvt.c:25-56 | an outcome is the loop's exactly when some iterate, all before which have both coordinates of their correction beyond the tolerance, ends it that way: a coordinate within the tolerance, a failing lookup, or no try left |
| `NadCvt.ConvergedBoth` | MOOS/proj-4.8.0/src/nad_cvt.c:47-49 | a converged run leaves both coordinates within the tolerance exactly when at every iterate it looks at both are or neither is; one always is |
| `NadCvt.StopsAtOnce` | MOOS/proj-4.8.0/src/nad_cvt.c:47-49 | an iterate ends the loop exactly when its equation holds within the tolerance in one coordinate, whatever the other misses; the position returned and the correction are stated |
| `NadCvt.FirstStop` | MOOS/proj-4.8.0/src/nad_cvt.c:17-49 | the inverse shift of a point stops after one correction exactly when the lookups at the point and at the first approximation agree in one coordinate to within the tolerance |
| `NadCvt.EarlyStopBackward` | MOOS/proj-4.8.0/src/nad_cvt.c:5-68 | with that table the inverse shift of its middle is the iterate that misses by 1/16 |
| `NadCvt.EarlyStopMiss` | MOOS/proj-4.8.0/src/nad_cvt.c:17-59 | a table and a point for which the loop ends after one correction and misses by 1/16, although a solution exists |
| `NadCvt.NeverGivesUp` | MOOS/proj-4.8.0/src/nad_cvt.c:25-56 | if the contraction brings the first correction under the tolerance within the tries, the loop does not fail |
| `NadCvt.BackwardForward` | MOOS/proj-4.8.0/src/nad_cvt.c:5-68 | forward after a converged inverse returns to the point, up to whole turns of longitude and l times the last correction |
| `NadCvt.BackwardAnswer` | MOOS/proj-4.8.0/src/nad_cvt.c:17-59 | the inverse answers HUGE_VAL exactly when the first lookup fails, or when ten more answer and none of the first nine iterates is within 1e-12 in a coordinate; the iterate at which a lookup fails; and the one after the first that is settled |
| `NadCvt.EdgeBackward` | MOOS/proj-4.8.0/src/nad_cvt.c:37-45 | near the far edge of a table the first approximation lies outside and is the answer |
| `NadCvt.AdjlonReduced` | MOOS/proj-4.8.0/src/adjlon.c:9-15 | the reduced longitude is at most half a turn in size |
| `NadCvt.Convert` | MOOS/proj-4.8.0/src/nad_cvt.c:5-68 | both directions, stated by the lookups: forward the shift or failure, inverse as above |
| `GridShift.CoversExact` | MOOS/proj-4.8.0/src/pj_apply_gridshift.c:143-152 | a table covers exactly the points within a ten-thousandth of the two cell sides together of the rectangle from its first to its last node, and never HUGE_VAL |
| `GridShift.LookupCovered` | MOOS/proj-4.8.0/src/pj_apply_gridshift.c:143-152 | wherever its own lookup answers, a table covers the point |
| `GridShift.RefinedFirst` | MOOS/proj-4.8.0/src/pj_apply_gridshift.c:154-182 | the first child in order that covers the point is used, or the table itself when none does |
| `GridShift.FirstDecides` | MOOS/proj-4.8.0/src/pj_apply_gridshift.c:138-199 | the first table that covers the point and whose lookup does not fail decides it; a needed table that cannot be loaded fails the call; if no table decides, the point stays unshifted |
| `GridShift.ShiftPoint` | MOOS/proj-4.8.0/src/pj_apply_gridshift.c:133-199 | the loop over tables, with grids loaded on first use, gives that result |
| `GridShift.OneTable` | MOOS/proj-4.8.0/src/pj_apply_gridshift.c:138-199 | one readable table without refinements, forward: a point at which the lookup answers gets that shift, one beyond the margin keeps its coordinates |
| `GridShift.ApplyGridshift3` | MOOS/proj-4.8.0/src/pj_apply_gridshift.c:111-248 | each handled point gets its own result from its original coordinates, x and y interleaved in one buffer included; nothing between the points changes, and on failure the first point needing an unreadable table and all later ones are untouched; with one table every point gets what its lookup says |
| `Strided.FitsLast` | MOOS/proj-4.8.0/src/pj_apply_gridshift.c:127-134 | all points of a pointer lie inside its buffer exactly when the last one does |
| `Strided.InterleavedApart` | MOOS/proj-4.8.0/src/pj_apply_gridshift.c:127-134 | pointers into one buffer that start at different places below the stride never meet |
| `GridList.LoadedMatches` | MOOS/proj-4.8.0/src/pj_gridlist.c:90-124 | searching the list for a loaded name yields exactly the chain its file gave, once |
| `GridList.GridArray.Append` | MOOS/proj-4.8.0/src/pj_gridlist.c:100-120 | one more entry, terminator in place and within capacity, across growth by twenty |
| `GridList.GridCache.Merge` | MOOS/proj-4.8.0/src/pj_gridlist.c:75-151 | the named chain is appended, its file read only the first time; a stub appends nothing and fails; the recursion ends |
| `GridList.GridCache.Deallocate` | MOOS/proj-4.8.0/src/pj_gridlist.c:55-66 | empties the list, after which names are read again |
| `GridList.TextEntries` | MOOS/proj-4.8.0/src/pj_gridlist.c:176-207 | names written one after the other, an at sign before the optional ones and commas between, are read back in order exactly when no required one starts with an at sign and the last is not an empty required one |
| `GridList.CollectExact` | MOOS/proj-4.8.0/src/pj_gridlist.c:191-217 | a request fails exactly when some name has 128 characters or more or is required and only a stub; otherwise it gives the usable chains in order |
| `GridList.FromNadgrids` | MOOS/proj-4.8.0/src/pj_gridlist.c:163-224 | on a string written from such a list of names: NULL exactly when one of them blocks it or no grid is usable, else the usable grids in order, NULL-terminated; the names read are those looked up |
| `GridList.NamesSettled` | MOOS/proj-4.8.0/src/pj_gridlist.c:163-224 | repeating a request reads nothing new |
| `ByteSwap.SwapWords` | MOOS/proj-4.8.0/src/pj_gridinfo.c:55-77 | reverses each word in place and touches nothing else |
| `ByteSwap.SwappedTwice` | MOOS/proj-4.8.0/src/pj_gridinfo.c:55-77 | swapping twice restores the bytes |
| `Ntv2.LimitExact` | MOOS/proj-4.8.0/src/pj_gridinfo.c:464-465 | the rounding count formula finds n nodes exactly when the span is within half an increment of n - 1 increments |
| `Ntv2.HeaderRoundTrip` | MOOS/proj-4.8.0/src/nad2bin.c:266-330 | a header written on one machine and read on another of any byte order gives the same limits while spans are kept, and the same header when its six numbers are not rounded |
| `Ntv2.HeaderFields` | MOOS/proj-4.8.0/src/nad2bin.c:287-315 | what each field of a written header is: the four edges in seconds of arc, east and west positive to the west, both increments, and the number of cells |
| `Ntv2.ReadHeader` | MOOS/proj-4.8.0/src/pj_gridinfo.c:434-488 | origin, cell size and limits from the sub-file header, refused when the cell count disagrees |
| `Ntv2.CountDecides` | MOOS/proj-4.8.0/src/pj_gridinfo.c:479-488 | a header that is read has as many nodes as its count says, and with any other count it is refused |
| `Ntv2.WriteCells` | MOOS/proj-4.8.0/src/nad2bin.c:335-368 | every row on disk holds its cells from east to west, latitude first, in seconds, least significant byte first; all accuracy words are zero exactly when there is no row or the allocator left zeros behind the first cell |
| `Ntv2.RowLayout` | MOOS/proj-4.8.0/src/nad2bin.c:346-366 | the i-th cell of a row on disk is the i-th from the east, latitude shift before longitude shift, in seconds of arc |
| `Ntv2.AccuracyAlways` | MOOS/proj-4.8.0/src/nad2bin.c:339-340 | whatever the allocator leaves, that is so exactly without rows or with at most one column |
| `Ntv2.ReadCells` | MOOS/proj-4.8.0/src/pj_gridinfo.c:263-305 | every cell is read into its place; fails exactly when a row is missing or short |
| `Ntv2.CellsRoundTrip` | MOOS/proj-4.8.0/src/pj_gridinfo.c:263-305 | every cell comes back in its place with its seconds rounded to the file's float format, and the table is unchanged exactly when none is rounded |
| `Ntv2.FileRoundTrip` | MOOS/proj-4.8.0/src/nad2bin.c:250-368 | header and cells written on one machine, the header read on another and the cells read with the limits it gave: while the spans are kept the table comes back with its numbers rounded, and unchanged exactly when origin, cell size and cells are not rounded |
| `Ntv2.LoadTable` | MOOS/proj-4.8.0/src/nad2bin.c:118-146 | the text table is loaded by running sums into its place, row by row; it fails exactly when a line is missing or not numbered by its position, or the text ends with the last number |
| `Ntv2.LinesBack` | MOOS/proj-4.8.0/src/nad2bin.c:118-141 | loading the difference form of any table puts every cell in its place, longitude and latitude in radians per micro-second of arc |
| `Ctable2.SaveBlock` | MOOS/proj-4.8.0/src/nad2bin.c:193-199 | the writer turns the first half of the words of the cell block to file order and leaves the second half |
| `Ctable2.LoadBlock` | MOOS/proj-4.8.0/src/nad_init.c:180-187 | the loader turns all words |
| `Ctable2.TransferExact` | MOOS/proj-4.8.0/src/nad2bin.c:193-199 | a block written on one machine and loaded on another has every word right exactly when the writer has the file order already or every word of the second half reads the same both ways |
| `Ctable2.TransferNumbers` | MOOS/proj-4.8.0/src/nad2bin.c:193-199 | under the same condition, and only then, the loaded block is the other machine's encoding of the same floats |
| `Ctable2.WriteAndLoad` | MOOS/proj-4.8.0/src/nad2bin.c:193-199 | writer and loader one after the other: words and floats arrive exactly under that condition |
| `Ctable2.OneCellLost` | MOOS/proj-4.8.0/src/nad2bin.c:193-199 | a single cell with a 1 in its second word comes back with the bytes of that word reversed |
| `IseaHex.Hex.ThereAndBack` | MOOS/proj-4.8.0/src/PJ_isea.c:31-59 | the x,y form of a cube triple converts back to the same triple |
| `IseaHex.CubeRound` | MOOS/proj-4.8.0/src/PJ_isea.c:76-96 | the adjusted triple sums to zero, no integer triple summing to zero is closer, and it is a hexagon of every closed quad that holds the point |
| `IseaHex.SpreadNearest` | MOOS/proj-4.8.0/src/PJ_isea.c:84-96 | a triple whose rounding errors differ by at most one pairwise is a nearest one |
| `IseaHex.PlaneIsCube` | MOOS/proj-4.8.0/src/PJ_isea.c:69-76 | squared plane distance to a hexagon centre is half the squared cube distance times the squared width |
| `IseaHex.HexBin2` | MOOS/proj-4.8.0/src/PJ_isea.c:61-106 | the hexagon returned has a nearest centre in the plane among all hexagons |
| `IseaHex.SerialBijective` | MOOS/proj-4.8.0/src/PJ_isea.c:879-909 | cell numbering is a bijection from the poles and the cells of quads 1-10 onto 1..10 hexes + 2, for aperture 4 and for aperture 3 at even resolution |
| `IseaHex.SerialOrder` | MOOS/proj-4.8.0/src/PJ_isea.c:879-909 | the numbers rise with the quad, then the column, then the row, from 1 at the north pole to 10 hexes + 2 at the south pole |
| `IseaHex.Grid.Number` | MOOS/proj-4.8.0/src/PJ_isea.c:879-909 | the number computed and stored is that numbering |
| `IseaHex.OwnerConsistent` | MOOS/proj-4.8.0/src/PJ_isea.c:820-859 | the name every cell of a closed quad should get: an address in range, the same from both quads at each shared edge, and the cell itself inside its quad |
| `IseaHex.FoldedIsOwner` | MOOS/proj-4.8.0/src/PJ_isea.c:820-859 | folding gives that name exactly for quads 1-5, for cells of quads 6-10 off the two far edges, and for the south pole |
| `IseaHex.FoldedOwn` | MOOS/proj-4.8.0/src/PJ_isea.c:820-859 | under the same condition, and only then, the address is in range and no interior cell of any quad, other than the cell itself, has it |
| `IseaHex.FoldedCollision` | MOOS/proj-4.8.0/src/PJ_isea.c:847-853 | on the right edge of quad 6 a cell gets the name and the number of a cell inside quad 7 |
| `IseaHex.FoldedTopEdge` | MOOS/proj-4.8.0/src/PJ_isea.c:854-858 | on the top edge of quad 6 a cell keeps an address out of range, with the number of a cell in the next column |
| `IseaHex.FoldedCanonical` | MOOS/proj-4.8.0/src/PJ_isea.c:820-859 | the folded address is in range exactly for quads 1-5 and, for quads 6-10, off the edge where -z is the side length; interior cells stay |
| `IseaHex.FoldedInjective` | MOOS/proj-4.8.0/src/PJ_isea.c:820-859 | no two cells of one closed quad fold together |
| `IseaHex.FoldedGlue` | MOOS/proj-4.8.0/src/PJ_isea.c:828-839 | cells on the top and right edges of quads 1-5 get the same name from the quad on the other side |
| `IseaHex.Grid.Fold` | MOOS/proj-4.8.0/src/PJ_isea.c:820-864 | the branches on the triple give the folded cell and keep the triple summing to zero |
| `IseaHex.TurnedDist` | MOOS/proj-4.8.0/src/PJ_isea.c:664-679 | turning the point by 30 degrees keeps its distance to every hexagon centre |
| `IseaHex.QuadInside` | MOOS/proj-4.8.0/src/PJ_isea.c:812-816 | the unit rhombus of a quad, turned by 30 degrees, is the range of its hexagon coordinates |
| `IseaHex.Grid.Assign` | MOOS/proj-4.8.0/src/PJ_isea.c:794-865 | a point is turned by 30 degrees and gets the folded cell of a hexagon nearest to it in the frame of its quad; for a point of the quad that is a hexagon of the closed quad, and the address is its owner's exactly under the folding condition |
| `Rtodms.Printer.Set` | MOOS/proj-4.8.0/src/rtodms.c:18-36 | valid precisions set the resolution, its multiple, the conversion factor and the format together; others change nothing |
| `Rtodms.Printer.Parts` | MOOS/proj-4.8.0/src/rtodms.c:49-54 | degrees, minutes below 60 and seconds below 60 make up the rounded count, and the seconds print exactly |
| `Rtodms.TrimInPlace` | MOOS/proj-4.8.0/src/rtodms.c:58-66 | the trailing zeros of the seconds, and a point before them, are removed in place and nothing else |
| `Decimal.TrimmedExact` | MOOS/proj-4.8.0/src/rtodms.c:62-66 | what is trimmed is zeros, with a point before them or not, and no zero behind the point is left |
| `Rtodms.Printer.Write` | MOOS/proj-4.8.0/src/rtodms.c:37-72 | the buffer holds the text of the rounded angle in the long, seconds, minutes or degrees form, with its sign or letter |
| `Rtodms.TextSign` | MOOS/proj-4.8.0/src/rtodms.c:42-48 | a letter behind the angle for either sign, or without letters a minus sign in front of a negative one, never both |
| `Rtodms.ShortForm` | MOOS/proj-4.8.0/src/rtodms.c:58-70 | the short form shows seconds exactly when they are not zero, and minutes exactly when they or the seconds are not |
| `Rtodms.LongForm` | MOOS/proj-4.8.0/src/rtodms.c:30-31 | the long form has exactly two digits of minutes, two of whole seconds and as many behind the point as there are decimals |
| `Dmstor.Read` | MOOS/proj-4.8.0/src/dmstor.c:23-82 | skipping blanks, copying at most 63 graphic characters, the field loop and the sign rules are those of the parse function, failures included |
| `Dmstor.Scan` | MOOS/proj-4.8.0/src/dmstor.c:41-71 | the loop over the fields: marks, order of fields, radians, and a last number without a mark |
| `Dmstor.FieldsMeaning` | MOOS/proj-4.8.0/src/dmstor.c:41-71 | for every text: the numbers that stand one behind the other fail exactly when their places do not rise or radians follow a field, and otherwise sum up by place, a last unmarked number counting for the place after its predecessor |
| `Dmstor.ParseMeaning` | MOOS/proj-4.8.0/src/dmstor.c:23-82 | for every text: failure exactly when the fields are out of order, else the sum with the sign of the letter behind it or, without one, of the sign in front, and the number of characters used |
| `Decimal.ReadNumber` | MOOS/proj-4.8.0/src/dmstor.c:84-112 | digits, digits around a point, a point first, and each with a signed exponent, are read as their value and end where they were written to end, at the end of the text too |
| `Decimal.ReadCount` | MOOS/proj-4.8.0/src/dmstor.c:84-112 | a printed decimal fraction is read back |
| `AngleText.ReadAngle` | MOOS/proj-4.8.0/src/dmstor.c:23-82 | an angle of one number in any of those forms, without a mark (degrees) or with d, D, ', ", r or R, with a sign in front or a hemisphere letter behind: its value, and the whole text is used |
| `AngleText.ReadDegrees` | MOOS/proj-4.8.0/src/dmstor.c:23-82 | decimal degrees written without a mark are that many degrees |
| `AngleText.ReadBehindSpaces` | MOOS/proj-4.8.0/src/dmstor.c:32-32 | blanks in front are skipped and counted |
| `AngleText.StopsAtUnprintable` | MOOS/proj-4.8.0/src/dmstor.c:33-35 | reading ends before the first character that is not printable |
| `AngleText.ReadsSixtyThree` | MOOS/proj-4.8.0/src/dmstor.c:33-35 | of a longer text the first 63 characters are read |
| `DmsRoundTrip.PartsSum` | MOOS/proj-4.8.0/src/rtodms.c:49-54 | degrees, minutes and seconds sum to the rounded angle |
| `DmsRoundTrip.ReadText` | MOOS/proj-4.8.0/src/dmstor.c:23-82 | reading any text rtodms prints uses all of it and gives its degrees, minutes, sign and seconds, where the seconds lose a final zero in the one form that trims it |
| `DmsRoundTrip.RoundTrip` | MOOS/proj-4.8.0/src/rtodms.c:37-72 | dmstor reads the rounded angle back exactly when the long form is on, decimals are printed, or the whole seconds do not end in a zero (or are zero) |
| `DmsRoundTrip.TenSeconds` | MOOS/proj-4.8.0/src/rtodms.c:58-66 | ten seconds without decimals print as 0d0'1" and are read back as one second |
| `DmsRoundTrip.Nearest` | MOOS/proj-4.8.0/src/rtodms.c:49-49 | the rounded angle is within half a unit of the last printed decimal of the given one |
| `DmsRoundTrip.WriteAndRead` | MOOS/proj-4.8.0/src/rtodms.c:37-72 | the printer and the parser run one after the other return the angle rounded to the nearest unit with its sign |
| `ProjDef.UsedExact` | MOOS/proj-4.8.0/src/pj_pr_list.c:66-88 | exactly the parameters marked used are printed, in their order |
| `ProjDef.GetDef` | MOOS/proj-4.8.0/src/pj_pr_list.c:55-91 | the buffer, grown as needed and never overrun, holds every used parameter after a blank and a plus sign |
| `ProjDef.StepInPlace` | MOOS/proj-4.8.0/src/pj_init.c:185-220 | one character of the copy: plus signs, blanks and others change buffer, arguments and blank count as the step function says, or the limit is met |
| `ProjDef.StepProgress` | MOOS/proj-4.8.0/src/pj_init.c:183-221 | for every text each step keeps what is known of the arguments so far, and fails exactly at one start too many |
| `ProjDef.Tokenize` | MOOS/proj-4.8.0/src/pj_init.c:177-223 | for every text: an argument starts behind each plus sign that is first or follows a blank and nowhere else; splitting fails exactly when there are 200 or more; the C string at each offset is the text up to the next start without the blanks at its end, or nothing when it starts with a blank |
| `ProjDef.LeadingBlanksLost` | MOOS/proj-4.8.0/src/pj_init.c:210-215 | an argument is its text trimmed at both ends exactly when the text does not start with a blank or holds only blanks |
| `ProjDef.BlankBehindPlus` | MOOS/proj-4.8.0/src/pj_init.c:210-215 | the text of a plus sign, a blank and a letter gives one argument, and that is empty |
| `ProjDef.ParamArgument` | MOOS/proj-4.8.0/src/pj_pr_list.c:66-88 | when no parameter has a plus sign behind a blank, the k-th argument of a printed definition is its k-th parameter exactly if that has no blank at either end |
| `ProjDef.SameArguments` | MOOS/proj-4.8.0/src/pj_init.c:183-221 | printing and splitting loses nothing exactly when no parameter has a plus sign behind a blank or a blank at either end |
| `ProjDef.PrintAndSplit` | MOOS/proj-4.8.0/src/pj_pr_list.c:55-91 | for arbitrary parameters: splitting the printed text fails exactly when the plus signs make 200 arguments, and gives the same parameters in order exactly when fewer than 200 are used and none has a plus sign behind a blank or a blank at either end |
| `Geocentric.ThreeIsSeven` | MOOS/proj-4.8.0/src/pj_transform.c:502-592 | three parameters are seven without rotation and with scale 1, both ways |
| `Geocentric.SevenMeaning` | MOOS/proj-4.8.0/src/pj_transform.c:524-540 | the point plus its cross product with the rotation, scaled, and moved by the shift |
| `Geocentric.CentreShift` | MOOS/proj-4.8.0/src/pj_transform.c:509-540 | the centre of the datum goes to the shift |
| `Geocentric.FromTo` | MOOS/proj-4.8.0/src/pj_transform.c:502-592 | from WGS 84 after to WGS 84 is the point less r x (r x p); exact for three parameters |
| `Geocentric.DefectBound` | MOOS/proj-4.8.0/src/pj_transform.c:533-587 | the squared error of that round trip is at most r^4 p^2 (norms) |
| `Geocentric.LayoutKinds` | MOOS/proj-4.8.0/src/pj_transform.c:502-592 | three separate buffers, and one buffer with three different starts below the stride, are layouts the transforms are proved for |
| `Geocentric.ToWgs84` | MOOS/proj-4.8.0/src/pj_transform.c:502-544 | every visited point that is not HUGE_VAL is transformed from its original coordinates; every other element of the buffers stays |
| `Geocentric.FromWgs84` | MOOS/proj-4.8.0/src/pj_transform.c:550-592 | the same for the inverse transform |
| `Geocentric.RoundTrip` | MOOS/proj-4.8.0/src/pj_transform.c:502-592 | over strided pointers, interleaved or not: each visited point loses exactly its defect, the elements between them and HUGE_VAL points stay fixed, and three parameters restore everything |
| `InitCache.Clone` | MOOS/proj-4.8.0/src/pj_initcache.c:46-68 | a fresh list of the same parameters with clear used flags |
| `InitCache.Cache.Store` | MOOS/proj-4.8.0/src/pj_initcache.c:141-180 | one more entry in the history, its list copied in, across growth of both arrays |
| `InitCache.Cache.Find` | MOOS/proj-4.8.0/src/pj_initcache.c:114-133 | a fresh copy of the first nonempty list of that key; the cache is untouched |
| `InitCache.Cache.ClearAll` | MOOS/proj-4.8.0/src/pj_initcache.c:76-106 | forgets everything |
| `InitCache.FirstInserted` | MOOS/proj-4.8.0/src/pj_initcache.c:114-180 | over any history a search answers with the first nonempty list inserted under its key since the last clear |
| `InitCache.NeverInserted` | MOOS/proj-4.8.0/src/pj_initcache.c:114-180 | without such an insert it finds nothing |
| `InitCache.Session` | MOOS/proj-4.8.0/src/pj_initcache.c:46-180 | over any sequence of inserts, searches, clears and overwritten nodes of inserted or returned lists, every search answers from the lists as they were when inserted |

## Left out

- Decimal.StrToD: models `strtod` on decimal text with an optional exponent; hexadecimal
  numbers and overflow are not modelled, so neither is the step of `proj_strtod` that hides
  a following d from it, which changes nothing for decimal text.
- GridShift.GridInfo: file reading is a stored outcome, and children are a sequence fixed
  at creation.
- GridShift.OneTable: leaves open what becomes of a point whose longitude is reduced by a turn;
  `NadCvt.Convert` covers it.
- GridList.GridCache: the linked list of loaded grids is a sequence field; nodes are
  values, so links and freeing of grids are not modelled.
- Ntv2.ReadHeader: one sub-file; the links between sub-files and their parents, the
  overview header and the text fields are not modelled.
- Ntv2.CellsRoundTrip: rounding of the table's own float cells after reading is not modelled.
- Ntv2.ReadCells: the file is a sequence of rows, so a reader that expects rows of another
  width, which the file would serve across row ends, fails here.
- Ntv2.LoadTable: lines with another number of pairs than the table is wide, which the
  original reads across line ends, and text that is no number are not modelled.
- InitCache.Cache.ClearAll: drops references; freeing memory is not modelled.
- Geocentric.ToWgs84: a point whose x is a number has numbers in y and z; a HUGE_VAL there
  alone is not modelled.
- BivEval.Tseries: coefficient rows are sequences, not allocated arrays.
- Floating-point rounding, overflow and NaN elsewhere, and integer overflow; degrees are
  required to fit 32 bits where they are printed.
- Allocation failure in all modules.
- Aperture 3 at odd resolution in `IseaHex`.
- The axis reordering of `pj_adjust_axis`, which would only add a permutation of three
  coordinates.
- The other grid formats (ctable, NTv1, GTX, and the header of ctable2), file access,
  logging and locks.
- The individual projections, the geodesic and geocentric solvers, whose truth rests on
  trigonometry, and rHEALPix.
- The rest of the repository: command-line programs, bindings, log tools and scripts.
