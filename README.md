# Global-coarsening multigrid transfer: the bookkeeping layer

This project models, in Dafny, the integer and index logic of deal.II's
two-level transfer for global-coarsening multigrid
(`include/deal.II/multigrid/mg_transfer_global_coarsening.templates.h`),
and proves properties of it. The numeric kernels, MPI and the finite element
library are not modelled: their results enter as inputs. The model covers:

- **Degree dispatch** (`dispatch.dfy`): `CellTransferFactory::run` and
  `fast_polynomial_transfer_supported`, the six fast (fine, coarse) degree
  patterns for degrees 1..9.
- **Child index arithmetic** (`child_offsets.dfy`): `compute_shift_within_children`,
  `get_child_offset`, `get_child_offsets` and `get_child_offsets_general`, with
  the offsets written by nested loops into an array.
- **Transfer matrices** (`matrices.dfy`): the 1-D hierarchic-to-lexicographic
  renumbering, the zeroing of non-additive restriction rows that an earlier
  child already claims, and the packed layout of the 1-D and full
  prolongation and restriction matrices.
- **Scheme construction** (`schemes.dfy`, `patch.dfy`): counting cells into
  schemes, prefix sums, the `cell_no` slot counters, grouping cells by
  (coarse, fine) fe-index pair, and merging the children of a refined cell
  into one lexicographic patch with the consistency check.
- **Continuity weights** (`weights.dfy`): `setup_weights`: valence counting,
  inversion, zeroing of constrained DoFs, and the cell-major copy.
- **Fine-view exchange** (`fineview.dfy`): the message of
  `BlackBoxFineDoFHandlerView::reinit` as data (encoding, parsing, round
  trip), grouping remote ids by owner, `has_cell_any_children` and the sorted
  "not found" report.
- **Non-nested support points** (`support.dfy`, `point_tables.dfy`,
  `point_values.dfy`): the de-duplication, stable sort and CRS conversion of
  `support_point_indices_to_dof_indices`, the inverse table `indices_state`,
  and the averaging, scatter and gather of point values through
  `level_dof_indices_fine`.
- **Execution skeleton** (`cell_loop.dfy`, `ghost_state.dfy`): the batched cell
  loop with `n_lanes_filled`, `cell_counter` and the weight cursors, and the
  ghost-state handling of `prolongate_and_add`, `restrict_and_add` and
  `interpolate`.
- **Partitioners and selection** (`partitioners.dfy`, `selection.dfy`):
  `is_partitioner_contained`, `create_embedded_partitioner`, the in-place
  remap of stored indices in `internal_enable_inplace_operations_if_possible`,
  the `external_partitioners` list of `MGTransferMF::build`, and the choice of
  transfer (`p_transfer_involves_repartitioning`,
  `h_transfer_uses_first_child_policy`, polynomial versus geometric in
  `reinit`).

`arith.dfy` holds small arithmetic lemmas the proofs share, and `wrappers.dfy` the shared `Option` type and the `Position` search.

All source paths below are relative to the repository root; every line range
is in `include/deal.II/multigrid/mg_transfer_global_coarsening.templates.h`.

## Model

| member | source | states |
|---|---|---|
| CellTransferDispatch.Run | include/deal.II/multigrid/mg_transfer_global_coarsening.templates.h:76-108 | the dispatch starting at `deg` takes a fast path exactly when some degree from `deg` up to 9 matches one of the six (fine, coarse) patterns, and a fast kernel is always instantiated with the run-time degrees |
| CellTransferDispatch.FastPolynomialTransferSupported | include/deal.II/multigrid/mg_transfer_global_coarsening.templates.h:3622-3632 | true exactly when some deg in 1..9 matches one of the six patterns |
| CellTransferDispatch.FastPolynomialTransferClosedForm | include/deal.II/multigrid/mg_transfer_global_coarsening.templates.h:76-108 | the dispatch result is equivalent to an explicit arithmetic description of the supported (fine, coarse) pairs |
| CellTransferDispatch.NoFastPathForDegreeZero | include/deal.II/multigrid/mg_transfer_global_coarsening.templates.h:98-105 | fine degree 0 never matches and falls to the slow path |
| CellTransferDispatch.GeometricSchemeFastPath | include/deal.II/multigrid/mg_transfer_global_coarsening.templates.h:80-83 | the h-multigrid pairs (2k, k) and (2k+1, k) have a fast kernel exactly for 1 <= k <= 9 |
| CellTransferDispatch.PolynomialSchemeFastPath | include/deal.II/multigrid/mg_transfer_global_coarsening.templates.h:84-97 | bisection, decrement, identity and jump-to-1 pairs are fast for every fine degree 1..9 |
| ChildIndexing.ChildBits | include/deal.II/multigrid/mg_transfer_global_coarsening.templates.h:288-294 | the tensor index of a child has one entry per direction, each 0 or 1 |
| ChildIndexing.ComputeShiftWithinChildren | include/deal.II/multigrid/mg_transfer_global_coarsening.templates.h:280-304 | the loop computes the digit sum of the child's tensor index, each direction weighted by fe_shift_1d times a power of n_child_dofs_1d |
| ChildIndexing.PatchIndexIncreasing | include/deal.II/multigrid/mg_transfer_global_coarsening.templates.h:320-326 | inside the merged patch the DoFs of one child keep their lexicographic order |
| ChildIndexing.PatchIndexBound | include/deal.II/multigrid/mg_transfer_global_coarsening.templates.h:320-326 | every child DoF lands inside the n_child_dofs_1d^dim patch |
| ChildIndexing.LoopBodyOffset | include/deal.II/multigrid/mg_transfer_global_coarsening.templates.h:320-326 | the value the innermost loop body writes at position m is the offset of m's digits in the merged patch |
| ChildIndexing.OffsetAtIncreasing | include/deal.II/multigrid/mg_transfer_global_coarsening.templates.h:320-326 | the offsets of one child strictly increase with m |
| ChildIndexing.OffsetAtBound | include/deal.II/multigrid/mg_transfer_global_coarsening.templates.h:316-326 | every offset is below n_components * n_child_dofs_1d^dim |
| ChildIndexing.ZeroChildHasNoShift | include/deal.II/multigrid/mg_transfer_global_coarsening.templates.h:288-303 | child 0 has shift 0 |
| ChildIndexing.WriteLine | include/deal.II/multigrid/mg_transfer_global_coarsening.templates.h:323-326 | the x-loop writes p consecutive entries with the source's offset formula, advancing m |
| ChildIndexing.WritePlane | include/deal.II/multigrid/mg_transfer_global_coarsening.templates.h:322-326 | the y-loop writes its lines one after another |
| ChildIndexing.WriteComponent | include/deal.II/multigrid/mg_transfer_global_coarsening.templates.h:321-326 | the z-loop writes the planes of one component |
| ChildIndexing.ComponentTargets | include/deal.II/multigrid/mg_transfer_global_coarsening.templates.h:320-326 | each loop position of component c holds c * n^dim + k*n*n + j*n + i + shift in the specification vector |
| ChildIndexing.GetChildOffset | include/deal.II/multigrid/mg_transfer_global_coarsening.templates.h:306-327 | the filled vector equals the specification vector of the child (entries past n_components * p^dim keep their initial 0) |
| ChildIndexing.ChildOffsetVectorProperties | include/deal.II/multigrid/mg_transfer_global_coarsening.templates.h:306-327 | the offsets of one child strictly increase (so are pairwise distinct), stay below n_components * n^dim, and child 0 starts at 0 |
| ChildIndexing.GetChildOffsets | include/deal.II/multigrid/mg_transfer_global_coarsening.templates.h:329-345 | one vector per child (2^dim of them), each the specification vector of that child |
| ChildIndexing.GetChildOffsetsGeneral | include/deal.II/multigrid/mg_transfer_global_coarsening.templates.h:347-360 | 2^dim vectors of length n_dofs_per_cell_coarse, with child c's DoF d at c * n + d |
| ChildIndexing.StackedInjective | include/deal.II/multigrid/mg_transfer_global_coarsening.templates.h:354-358 | distinct (child, DoF) pairs get distinct positions in the stacked layout |
| ChildIndexing.StackedOnto | include/deal.II/multigrid/mg_transfer_global_coarsening.templates.h:354-358 | every position below children * n is some (child, DoF) pair's |
| ChildIndexing.StackedBound | include/deal.II/multigrid/mg_transfer_global_coarsening.templates.h:354-358 | every stacked position is below children * n |
| TransferMatrices.Renumbering | include/deal.II/multigrid/mg_transfer_global_coarsening.templates.h:1908-1919 | the filled vector is the lexicographic-to-hierarchic table of a 1-D element with at most one DoF per vertex |
| TransferMatrices.RenumberingIsPermutation | include/deal.II/multigrid/mg_transfer_global_coarsening.templates.h:1908-1919 | the renumbering is a permutation of 0..n-1 with an explicit inverse; it is the identity without vertex DoFs, and with one DoF per vertex it maps 0 to 0 and n-1 to 1 |
| TransferMatrices.ZeroedRestrictionRows | include/deal.II/multigrid/mg_transfer_global_coarsening.templates.h:377-403 | child 0 keeps its whole matrix; additive rows are never changed; a non-additive row in which an earlier child has a nonzero entry is zero; every row that differs from the element's row is such a claimed row |
| TransferMatrices.RowHasNonzero | include/deal.II/multigrid/mg_transfer_global_coarsening.templates.h:392-395 | `do_zero` is true exactly when the row has a nonzero entry |
| TransferMatrices.ZeroRow | include/deal.II/multigrid/mg_transfer_global_coarsening.templates.h:397-399 | exactly row i is replaced by zeros |
| TransferMatrices.GetRestrictionMatrix | include/deal.II/multigrid/mg_transfer_global_coarsening.templates.h:377-403 | the loop over earlier children produces the zeroed restriction matrix |
| TransferMatrices.RestrictionMatrices | include/deal.II/multigrid/mg_transfer_global_coarsening.templates.h:1949-1953 | one zeroed restriction matrix per child, in child order |
| TransferMatrices.WriteBlock | include/deal.II/multigrid/mg_transfer_global_coarsening.templates.h:1937-1943 | one child's i/j loops leave the packed vector equal to the previous one with that child's block written (or added) at its column offset |
| TransferMatrices.FillBlocks | include/deal.II/multigrid/mg_transfer_global_coarsening.templates.h:1934-1943 | the child loop applies the children's blocks in child order, child c at column offset c * shift |
| TransferMatrices.PackBlocks | include/deal.II/multigrid/mg_transfer_global_coarsening.templates.h:1931-1943 | a zero vector of n * n_child_dofs_1d entries filled child by child |
| TransferMatrices.HypercubeProlongation1D | include/deal.II/multigrid/mg_transfer_global_coarsening.templates.h:1923-1944 | `prolongation_matrix_1d` is the packing of the renumbered, transposed prolongation matrices of both children, with overwriting |
| TransferMatrices.HypercubeRestriction1D | include/deal.II/multigrid/mg_transfer_global_coarsening.templates.h:1945-1961 | `restriction_matrix_1d` is the packing of the renumbered zeroed restriction matrices of both children, with accumulation |
| TransferMatrices.HypercubeProlongationEntries | include/deal.II/multigrid/mg_transfer_global_coarsening.templates.h:1934-1943 | entry (i, q) holds child 1's value P_1(ren[q-shift], ren[i]) when q >= shift and child 0's P_0(ren[q], ren[i]) otherwise: on the shared column of a continuous element the later child wins |
| TransferMatrices.HypercubeRestrictionEntries | include/deal.II/multigrid/mg_transfer_global_coarsening.templates.h:1949-1960 | entry (i, q) is the sum of both children's contributions that cover column q |
| TransferMatrices.NonHypercubeProlongation | include/deal.II/multigrid/mg_transfer_global_coarsening.templates.h:1968-1983 | the full prolongation matrix is the packing of all children's transposed matrices at column offsets c * n |
| TransferMatrices.NonHypercubeRestriction | include/deal.II/multigrid/mg_transfer_global_coarsening.templates.h:1984-2001 | the full restriction matrix is the packing of all children's zeroed restriction matrices at column offsets c * n |
| TransferMatrices.NonHypercubeProlongationEntries | include/deal.II/multigrid/mg_transfer_global_coarsening.templates.h:1973-1982 | entry (i, c*n + j) holds P_c(j, i): non-hypercube children never overlap |
| TransferMatrices.NonHypercubeRestrictionEntries | include/deal.II/multigrid/mg_transfer_global_coarsening.templates.h:1989-1999 | entry (i, c*n + j) holds child c's zeroed restriction entry (i, j) |
| TransferMatrices.PolynomialMatrices1D | include/deal.II/multigrid/mg_transfer_global_coarsening.templates.h:2389-2419 | entry k = i * n_fine + j of the 1-D prolongation holds the projection matrix at (ren_fine[j], ren_coarse[i]), and of the restriction the one at (ren_coarse[i], ren_fine[j]) |
| SchemeSetup.SumOfCounts | include/deal.II/multigrid/mg_transfer_global_coarsening.templates.h:1730-1747 | the per-scheme cell counts of schemes 0..S-1 add up to the number of cells whose key is below S |
| SchemeSetup.SlotsInjective | include/deal.II/multigrid/mg_transfer_global_coarsening.templates.h:1784-1880 | every processed cell gets a slot below the number of cells, and no two cells share a slot |
| SchemeSetup.SlotBelowNextScheme | include/deal.II/multigrid/mg_transfer_global_coarsening.templates.h:2250-2308 | a cell's slot lies below the first slot of the next scheme, so the slots of one scheme are consecutive |
| SchemeSetup.EarlierCellEarlierSlot | include/deal.II/multigrid/mg_transfer_global_coarsening.templates.h:2276-2308 | within one scheme, cells keep their processing order |
| SchemeSetup.PrefixSums | include/deal.II/multigrid/mg_transfer_global_coarsening.templates.h:1730-1747 | entry i of the prefix-sum vector is the sum of the first i values, entry 0 being 0 |
| SchemeSetup.CellRangeInsideScheme | include/deal.II/multigrid/mg_transfer_global_coarsening.templates.h:1730-1747 | the DoF range of cell j of scheme s, starting at the scheme's prefix sum plus j cells, lies inside the scheme's block and below the total |
| SchemeSetup.GeometricKeys | include/deal.II/multigrid/mg_transfer_global_coarsening.templates.h:1637-1672 | `process_cells` visits each coarse cell once, a refined one in scheme 1 and an unrefined one in scheme 0 (only refined cells on a multigrid level); all keys are 0 or 1 |
| SchemeSetup.GeometricKeysLength | include/deal.II/multigrid/mg_transfer_global_coarsening.templates.h:1637-1672 | on the active level every coarse cell yields a key; on a multigrid level scheme 0 is empty |
| SchemeSetup.CountGeometricCells | include/deal.II/multigrid/mg_transfer_global_coarsening.templates.h:1705-1719 | `n_coarse_cells` of scheme 0 counts the unrefined cells, that of scheme 1 each refined cell once, at child 0 |
| SchemeSetup.GeometricCountsCoverCells | include/deal.II/multigrid/mg_transfer_global_coarsening.templates.h:1705-1719 | the two counts add up to the visited cells; on the active level that is every coarse cell |
| SchemeSetup.GeometricCellSlots | include/deal.II/multigrid/mg_transfer_global_coarsening.templates.h:1784-1882 | `cell_no_0` and `cell_no_1` give each visited cell the slot of its scheme's rank order, scheme 1 starting after scheme 0 |
| SchemeSetup.VisitChildren | include/deal.II/multigrid/mg_transfer_global_coarsening.templates.h:1837-1881 | the child loop of a refined cell takes the slot and advances `cell_no_1` exactly once, after the last child |
| SchemeSetup.Emplace | include/deal.II/multigrid/mg_transfer_global_coarsening.templates.h:2119-2124 | inserting into the ordered map keeps the keys strictly ascending and adds exactly the new pair |
| Wrappers.Position | include/deal.II/multigrid/mg_transfer_global_coarsening.templates.h:2126-2128 | a pair's scheme number is the position of its first occurrence among the ordered keys |
| SchemeSetup.GroupByFePair | include/deal.II/multigrid/mg_transfer_global_coarsening.templates.h:2116-2142 | the schemes are the distinct (coarse, fine) fe-index pairs of the processed cells in ascending order, each cell is mapped to its pair's scheme, and `n_coarse_cells` counts the cells of each scheme |
| SchemeSetup.SchemeCountsCoverCells | include/deal.II/multigrid/mg_transfer_global_coarsening.templates.h:2116-2142 | every scheme of the polynomial transfer has at least one cell, and the counts sum to the number of processed cells |
| SchemeSetup.PolynomialCellSlots | include/deal.II/multigrid/mg_transfer_global_coarsening.templates.h:2159-2161 | `cell_no` receives the counts, becomes their prefix sums, and hands every processed cell its scheme's next slot; the total is the number of cells |
| SchemeSetup.PolynomialSchemeSizes | include/deal.II/multigrid/mg_transfer_global_coarsening.templates.h:2144-2157 | each scheme's DoF counts and degrees are read from the coarse and fine elements of its pair |
| GeometricPatch.SchemeSizes | include/deal.II/multigrid/mg_transfer_global_coarsening.templates.h:1681-1700 | schemes 0 and 1 share the coarse element's DoF count and degree; the fine cell of scheme 1 is an FE_Q patch of (2k+1)^dim points per component with degree 2k, or 2^dim stacked copies of the element with degree 2k+1 |
| GeometricPatch.ChildOffsetsFitPatch | include/deal.II/multigrid/mg_transfer_global_coarsening.templates.h:1722-1728 | every offset `get_child_offsets` produces, with the shift of FE_Q or of any other element, lies inside scheme 1's fine patch |
| GeometricPatch.Apply | include/deal.II/multigrid/mg_transfer_global_coarsening.templates.h:1848-1871 | the child assignments applied in order keep the patch length (the last writer of a position wins) |
| GeometricPatch.ApplyConsistent | include/deal.II/multigrid/mg_transfer_global_coarsening.templates.h:1862-1870 | consistent writes leave every written position holding its DoF and every other position as it was |
| GeometricPatch.ConsistentSnoc | include/deal.II/multigrid/mg_transfer_global_coarsening.templates.h:1862-1867 | one more write keeps the writes consistent exactly when its position holds `invalid_dof_index` or already the same DoF, the assertion the loop checks |
| GeometricPatch.MergeStep | include/deal.II/multigrid/mg_transfer_global_coarsening.templates.h:1859-1870 | one checked assignment extends both the patch and the consistency flag by one write |
| GeometricPatch.MergeChild | include/deal.II/multigrid/mg_transfer_global_coarsening.templates.h:1853-1872 | the loop over one child's DoFs appends that child's writes to the patch and to the consistency flag |
| GeometricPatch.MergeChildren | include/deal.II/multigrid/mg_transfer_global_coarsening.templates.h:1837-1882 | the patch starts all `invalid_dof_index`, the children are merged in order, and `consistent` says whether the assertion held throughout |
| GeometricPatch.ChildWriteListed | include/deal.II/multigrid/mg_transfer_global_coarsening.templates.h:1855-1870 | every DoF of every child is among the loop's writes |
| GeometricPatch.WriteHasSource | include/deal.II/multigrid/mg_transfer_global_coarsening.templates.h:1855-1870 | every write of the loop comes from some child and DoF |
| GeometricPatch.ConsistentPatch | include/deal.II/multigrid/mg_transfer_global_coarsening.templates.h:1848-1881 | when the assertion held, the patch holds each child's DoF at that child's offset, and `invalid_dof_index` exactly where no offset reaches |
| GeometricPatch.UnreachedUnwritten | include/deal.II/multigrid/mg_transfer_global_coarsening.templates.h:1848-1870 | a position no child's offset reaches is never written |
| GeometricPatch.UnrefinedCellMerge | include/deal.II/multigrid/mg_transfer_global_coarsening.templates.h:1820-1830 | an unrefined cell's gather `local_dof_indices[lex[i]]` is the always-consistent one-child merge with identity offsets |
| ContinuityWeights.CountValence | include/deal.II/multigrid/mg_transfer_global_coarsening.templates.h:1414-1417 | each entry of the weight vector ends holding the number of times its DoF occurs in `dof_indices` |
| ContinuityWeights.InvertValence | include/deal.II/multigrid/mg_transfer_global_coarsening.templates.h:1419-1422 | every owned entry is replaced by its inverse |
| ContinuityWeights.ClearConstrained | include/deal.II/multigrid/mg_transfer_global_coarsening.templates.h:1424-1427 | exactly the entries of constrained lines become 0, all others are kept |
| ContinuityWeights.WeightVector | include/deal.II/multigrid/mg_transfer_global_coarsening.templates.h:1409-1429 | each DoF's weight is 0 when constrained and 1/valence otherwise |
| ContinuityWeights.CopyCell | include/deal.II/multigrid/mg_transfer_global_coarsening.templates.h:1457-1459 | one cell's slots receive the weights of their DoFs; later slots are untouched |
| ContinuityWeights.CopyBatch | include/deal.II/multigrid/mg_transfer_global_coarsening.templates.h:1453-1455 | a batch of `n_lanes_filled` cells advances `offset` by that many cells' DoFs and fills their slots |
| ContinuityWeights.CopyScheme | include/deal.II/multigrid/mg_transfer_global_coarsening.templates.h:1442-1480 | all cells of one scheme, batch by batch, advance `offset` by n_coarse_cells * n_dofs_per_cell_fine and fill their slots |
| ContinuityWeights.CopyCellMajor | include/deal.II/multigrid/mg_transfer_global_coarsening.templates.h:1431-1480 | `weights[k]` is the weight of DoF `dof_indices[k]` for every slot the schemes cover, scheme after scheme and cell after cell |
| ContinuityWeights.SetupWeights | include/deal.II/multigrid/mg_transfer_global_coarsening.templates.h:1398-1487 | nothing changes for a discontinuous fine element; for a continuous one the compressed weights survive exactly when the element is FE_Q and every cell compresses, and then `weights` is emptied; otherwise every covered slot receives 1/valence of its DoF, or 0 for a constrained DoF |
| ContinuityWeights.WeightsPartitionUnity | include/deal.II/multigrid/mg_transfer_global_coarsening.templates.h:1409-1459 | the copies of an unconstrained DoF carry weights adding up to exactly 1, those of a constrained DoF to 0 |
| ContinuityWeights.SlotsHaveValence | include/deal.II/multigrid/mg_transfer_global_coarsening.templates.h:1415-1422 | every slot reads the weight of a DoF of valence at least 1, never the 1/0 of an unused DoF |
| FineView.EncodeCells | include/deal.II/multigrid/mg_transfer_global_coarsening.templates.h:879-895 | the sender's buffer is the concatenation, cell by cell, of `[active_fe_index, dof_0, ..., dof_{n-1}]` |
| FineView.ParseFrom | include/deal.II/multigrid/mg_transfer_global_coarsening.templates.h:960-970 | reading `count` cells from a cursor yields exactly `count` cells, or nothing when the message ends early or names an fe index that does not exist |
| FineView.DecodeMessage | include/deal.II/multigrid/mg_transfer_global_coarsening.templates.h:956-970 | the receiver's loop with cursor k stores what the reading specification yields for the ids of that rank |
| FineView.ParseStep | include/deal.II/multigrid/mg_transfer_global_coarsening.templates.h:962-969 | reading one cell moves the cursor past its fe index and its DoFs |
| FineView.ReadDofs | include/deal.II/multigrid/mg_transfer_global_coarsening.templates.h:967-968 | the inner loop copies the next n buffer entries and advances the cursor by n |
| FineView.MessageRoundTrip | include/deal.II/multigrid/mg_transfer_global_coarsening.templates.h:879-970 | when both sides agree on the DoFs per fe index and the ids, the receiver stores exactly the sent (fe index, DoFs) pair under each id |
| FineView.StoreLookup | include/deal.II/multigrid/mg_transfer_global_coarsening.templates.h:969 | with distinct ids each id maps to its own cell and every other key keeps its entry |
| FineView.GroupByOwner | include/deal.II/multigrid/mg_transfer_global_coarsening.templates.h:913-917 | `rank_to_ids` has a key exactly for each owning rank, mapped to the remote ids that rank owns |
| FineView.IdsOwnedByContents | include/deal.II/multigrid/mg_transfer_global_coarsening.templates.h:913-917 | a rank's group holds exactly the remote ids it owns, in the ascending order of the remote index set |
| FineView.IdsOwnedByAbsent | include/deal.II/multigrid/mg_transfer_global_coarsening.templates.h:913-917 | a rank owning no remote id has no group entries |
| FineView.AscendingListsAgree | include/deal.II/multigrid/mg_transfer_global_coarsening.templates.h:879-960 | the sender's ascending list of requested cells and the receiver's ascending list for that rank, holding the same ids, are the same list |
| FineView.HasCellAnyChildren | include/deal.II/multigrid/mg_transfer_global_coarsening.templates.h:994-1011 | true as soon as some child id is owned or remote; otherwise false when the cell itself is present, and the internal error when it is not |
| FineView.AnyChildPresent | include/deal.II/multigrid/mg_transfer_global_coarsening.templates.h:1200-1211 | the `flag \|=` loop is true exactly when some child id is owned or remote |
| FineView.CellView | include/deal.II/multigrid/mg_transfer_global_coarsening.templates.h:1015-1036 | an owned cell reports the local DoFs, a remote cell the received ones, and a cell that is neither fails |
| FineView.RemoteCellViewed | include/deal.II/multigrid/mg_transfer_global_coarsening.templates.h:1028-1031 | a remote cell whose message was received and parsed is viewed with the DoFs its owner packed for it |
| FineView.NotFoundCells | include/deal.II/multigrid/mg_transfer_global_coarsening.templates.h:1192-1220 | the check collects the names of the coarse cells that are neither present nor have a present child |
| FineView.MissingExactly | include/deal.II/multigrid/mg_transfer_global_coarsening.templates.h:1192-1216 | a name is collected exactly when some coarse cell of that name is not found |
| FineView.InsertString | include/deal.II/multigrid/mg_transfer_global_coarsening.templates.h:1236 | inserting into a sorted list keeps it sorted and adds exactly the new name |
| FineView.SortStrings | include/deal.II/multigrid/mg_transfer_global_coarsening.templates.h:1236 | the result is sorted and a permutation of the input |
| FineView.NotFoundReport | include/deal.II/multigrid/mg_transfer_global_coarsening.templates.h:1187-1249 | on a multigrid coarse level no check runs and there is never an error; on the active level there is no error exactly when every coarse cell is found, otherwise the error lists the missing cells, sorted |
| SupportPoints.Components | include/deal.II/multigrid/mg_transfer_global_coarsening.templates.h:4501-4509 | one support point offers one (point, DoF) pair per component, in component order |
| SupportPoints.MarkStep | include/deal.II/multigrid/mg_transfer_global_coarsening.templates.h:4516-4525 | marking a DoF processed records exactly the DoFs met so far |
| SupportPoints.CollectPoint | include/deal.II/multigrid/mg_transfer_global_coarsening.templates.h:4501-4538 | the component loop of one point marks its DoFs and appends exactly the pairs whose DoF is unprocessed and unconstrained |
| SupportPoints.CollectLocalPoint | include/deal.II/multigrid/mg_transfer_global_coarsening.templates.h:4497-4539 | only a support point in the local range contributes pairs |
| SupportPoints.CollectCell | include/deal.II/multigrid/mg_transfer_global_coarsening.templates.h:4490-4539 | the support-point loop of one cell collects the de-duplicated pairs of its local points |
| SupportPoints.CollectSupportPointDofs | include/deal.II/multigrid/mg_transfer_global_coarsening.templates.h:4441-4542 | the cell loop yields exactly the de-duplicated, unconstrained candidates, in the order the loop meets them |
| SupportPoints.KeptProperties | include/deal.II/multigrid/mg_transfer_global_coarsening.templates.h:4516-4525 | after de-duplication every DoF appears at most once, every kept pair is a candidate with an unconstrained DoF, and every unconstrained DoF met is kept |
| SupportPoints.DofSetMembers | include/deal.II/multigrid/mg_transfer_global_coarsening.templates.h:4516-4525 | the DoF set of a pair sequence consists exactly of the DoFs its pairs carry |
| SupportPoints.InsertBeforePermutes | include/deal.II/multigrid/mg_transfer_global_coarsening.templates.h:4545-4549 | inserting one pair into the sorted rest adds exactly that pair |
| SupportPoints.InsertBeforeSorted | include/deal.II/multigrid/mg_transfer_global_coarsening.templates.h:4545-4549 | inserting keeps the pairs ordered by support point |
| SupportPoints.InsertBeforeFilter | include/deal.II/multigrid/mg_transfer_global_coarsening.templates.h:4545-4549 | an inserted pair goes in front of every pair with the same support point |
| SupportPoints.StableSortSorted | include/deal.II/multigrid/mg_transfer_global_coarsening.templates.h:4544-4549 | the sort orders pairs by support point and permutes its input |
| SupportPoints.StableSortStable | include/deal.II/multigrid/mg_transfer_global_coarsening.templates.h:4544-4549 | the pairs of each support point keep their input order |
| SupportPoints.StableSortDistinct | include/deal.II/multigrid/mg_transfer_global_coarsening.templates.h:4544-4549 | sorting keeps the DoFs distinct |
| SupportPoints.ToCrs | include/deal.II/multigrid/mg_transfer_global_coarsening.templates.h:4551-4572 | `dof_indices` lists the sorted pairs' DoFs, one `support_point_indices` entry per run of one support point, and `dof_ptrs` starts at 0 and holds each run end divided by `n_components` |
| SupportPoints.CrsStep | include/deal.II/multigrid/mg_transfer_global_coarsening.templates.h:4562-4572 | one pass of the outer loop appends one complete run to the three tables |
| SupportPoints.CollectRun | include/deal.II/multigrid/mg_transfer_global_coarsening.templates.h:4565-4569 | the inner loop copies the DoFs of the run starting at `it`, stopping at the first pair of another point |
| SupportPoints.RunsSnoc | include/deal.II/multigrid/mg_transfer_global_coarsening.templates.h:4562-4572 | appending a complete run extends the run tables of a prefix |
| SupportPoints.RunBounds | include/deal.II/multigrid/mg_transfer_global_coarsening.templates.h:4562-4572 | each run is a non-empty block whose first and last pairs carry its key, and consecutive runs have different keys |
| SupportPoints.RunKeysIncreasing | include/deal.II/multigrid/mg_transfer_global_coarsening.templates.h:4545-4572 | on pairs sorted by key the run keys strictly increase |
| SupportPoints.RunIsFilter | include/deal.II/multigrid/mg_transfer_global_coarsening.templates.h:4545-4572 | in sorted pairs, run j holds exactly the pairs of its key |
| SupportPoints.PointersNondecreasing | include/deal.II/multigrid/mg_transfer_global_coarsening.templates.h:4571 | dividing increasing run ends by `n_components` gives non-decreasing pointers |
| SupportPoints.SupportPointIndicesToDofIndices | include/deal.II/multigrid/mg_transfer_global_coarsening.templates.h:4382-4577 | support point indices strictly increase; `dof_ptrs` starts at 0, never decreases, has one more entry and ends at `\|dof_indices\| / n_components`; each DoF appears once and exactly the unconstrained DoFs met appear; the DoFs of each support point form one block in the order the cell loop met them |
| SupportPoints.CrsBlocks | include/deal.II/multigrid/mg_transfer_global_coarsening.templates.h:4544-4572 | each CRS block of the sorted pairs holds the DoFs of one support point in collection order |
| SupportPoints.SortedDofs | include/deal.II/multigrid/mg_transfer_global_coarsening.templates.h:4544-4572 | the sorted DoFs are distinct and exactly the DoFs of the kept pairs |
| SupportPoints.DofsPermuted | include/deal.II/multigrid/mg_transfer_global_coarsening.templates.h:4544-4549 | a permutation of the pairs carries the same, distinct DoFs |
| PointTables.BuildIndexState | include/deal.II/multigrid/mg_transfer_global_coarsening.templates.h:4666-4674 | the table has one slot per owned support point and is the inverse of `local_support_point_indices`: a slot is invalid exactly when its index is not listed, and otherwise names the position that lists it |
| PointTables.InverseIndexing | include/deal.II/multigrid/mg_transfer_global_coarsening.templates.h:4673-4674 | on strictly increasing indices, slot `local[i]` holds position i |
| PointTables.FirstHitIsFirst | include/deal.II/multigrid/mg_transfer_global_coarsening.templates.h:4691-4705 | a first report of local index k exists exactly when some query reports k, and no earlier query reports it |
| PointTables.StorePoints | include/deal.II/multigrid/mg_transfer_global_coarsening.templates.h:4687-4705 | each position receives the coordinates of the first query that reports its support point (else the initial value), and a slot ends invalid exactly when its support point was reported, all other slots unchanged |
| PointTables.StoreStep | include/deal.II/multigrid/mg_transfer_global_coarsening.templates.h:4691-4705 | processing one more query changes the first report and the reported set only by that query |
| PointTables.ReportedFound | include/deal.II/multigrid/mg_transfer_global_coarsening.templates.h:4699-4704 | a support point was reported exactly when a first report exists |
| PointTables.CollectOwnedPoints | include/deal.II/multigrid/mg_transfer_global_coarsening.templates.h:4638-4712 | `points[i]` holds the coordinates of support point `local_support_point_indices[i]` as first reported by a cell, one entry per listed support point |
| PointValues.AverageSegment | include/deal.II/multigrid/mg_transfer_global_coarsening.templates.h:4957-4967 | one segment's result is the mean of its values, and the zero value for an empty segment |
| PointValues.Average | include/deal.II/multigrid/mg_transfer_global_coarsening.templates.h:4947-4969 | one result per segment of `ptr`, each the mean of the values of that segment |
| PointValues.RepeatIsProduct | include/deal.II/multigrid/mg_transfer_global_coarsening.templates.h:4963-4965 | adding up k copies of a value gives k times that value |
| PointValues.SegmentSumConstant | include/deal.II/multigrid/mg_transfer_global_coarsening.templates.h:4963-4964 | summing equal values gives their count times the value, component by component |
| PointValues.MeanOfEqualValues | include/deal.II/multigrid/mg_transfer_global_coarsening.templates.h:4957-4967 | a point that receives the same value from every cell averages back to that value |
| PointValues.Normalise | include/deal.II/multigrid/mg_transfer_global_coarsening.templates.h:5070-5080 | each value is divided by its entry count, and points without entries keep their value |
| PointValues.SegmentSums | include/deal.II/multigrid/mg_transfer_global_coarsening.templates.h:5070-5080 | one sum per segment of `ptr` |
| PointValues.AverageIsNormalisedSums | include/deal.II/multigrid/mg_transfer_global_coarsening.templates.h:4947-4969 | averaging a segment equals summing it and dividing by its entry count as the restriction does, with empty segments left as their (zero) sum |
| PointValues.OffsetIsProduct | include/deal.II/multigrid/mg_transfer_global_coarsening.templates.h:4977-4980 | the offset of block i is `n_components * i` |
| PointValues.OffsetMonotone | include/deal.II/multigrid/mg_transfer_global_coarsening.templates.h:4987-4994 | later blocks start later |
| PointValues.ComponentUpdates | include/deal.II/multigrid/mg_transfer_global_coarsening.templates.h:4975-4982 | one value gives one update per component, to the DoF `fine[nc*i + c]` |
| PointValues.Blocks | include/deal.II/multigrid/mg_transfer_global_coarsening.templates.h:4973-4990 | without `level_dof_indices_fine_ptrs` every point uses exactly its own block, otherwise those offsets are used as given |
| PointValues.LayoutPoint | include/deal.II/multigrid/mg_transfer_global_coarsening.templates.h:4987-4994 | the blocks of point j lie inside `level_dof_indices_fine` |
| PointValues.SingleBlock | include/deal.II/multigrid/mg_transfer_global_coarsening.templates.h:4973-4982 | without `level_dof_indices_fine_ptrs` point j writes exactly the DoFs of block j |
| PointValues.AppliedPrefix | include/deal.II/multigrid/mg_transfer_global_coarsening.templates.h:4971-4998 | the first updates of a concatenation are those of its first part |
| PointValues.AppliedConcat | include/deal.II/multigrid/mg_transfer_global_coarsening.templates.h:4971-4998 | applying a concatenation part way into its second part is applying the first part, then that much of the second |
| PointValues.ApplyConcat | include/deal.II/multigrid/mg_transfer_global_coarsening.templates.h:4971-4998 | applying two update lists one after the other is applying their concatenation |
| PointValues.AppliedUntouched | include/deal.II/multigrid/mg_transfer_global_coarsening.templates.h:4971-4998 | entries none of the first n updates names keep their values |
| PointValues.ApplyUntouched | include/deal.II/multigrid/mg_transfer_global_coarsening.templates.h:4971-4998 | entries no update names keep their values |
| PointValues.AppliedOnce | include/deal.II/multigrid/mg_transfer_global_coarsening.templates.h:4971-4998 | an entry named by exactly one of the first n updates receives that update's value |
| PointValues.ApplyOnce | include/deal.II/multigrid/mg_transfer_global_coarsening.templates.h:4971-4998 | an entry named by exactly one update receives that update's value |
| PointValues.AddComponents | include/deal.II/multigrid/mg_transfer_global_coarsening.templates.h:4975-4982 | the component loop applies exactly the component updates of one block |
| PointValues.AddBlocks | include/deal.II/multigrid/mg_transfer_global_coarsening.templates.h:4987-4995 | the `ptrs` loop applies exactly the updates of blocks `a..b` in order |
| PointValues.ApplyBlockStep | include/deal.II/multigrid/mg_transfer_global_coarsening.templates.h:4987-4995 | the updates of one more block extend those of the blocks before it |
| PointValues.ScatterPoint | include/deal.II/multigrid/mg_transfer_global_coarsening.templates.h:4973-4996 | the loop body for point j applies exactly that point's updates |
| PointValues.Scatter | include/deal.II/multigrid/mg_transfer_global_coarsening.templates.h:4971-4998 | the scatter loop applies exactly the updates of every point, in order |
| PointValues.BlockUpdatesIndices | include/deal.II/multigrid/mg_transfer_global_coarsening.templates.h:4987-4995 | the updates of blocks `a..b` name consecutive entries of `level_dof_indices_fine` |
| PointValues.BlockUpdatesAt | include/deal.II/multigrid/mg_transfer_global_coarsening.templates.h:4987-4995 | the update for block i, component c is at a known position and carries component c of the value |
| PointValues.UpdatesStep | include/deal.II/multigrid/mg_transfer_global_coarsening.templates.h:4971-4998 | the updates of one more point extend those of the points before it by that point's blocks |
| PointValues.UpdatesIndices | include/deal.II/multigrid/mg_transfer_global_coarsening.templates.h:4971-4998 | the scatter updates name consecutive entries of `level_dof_indices_fine` |
| PointValues.ConsecutiveConcat | include/deal.II/multigrid/mg_transfer_global_coarsening.templates.h:4971-4998 | two adjacent runs of consecutive entries form one run |
| PointValues.UpdatesAt | include/deal.II/multigrid/mg_transfer_global_coarsening.templates.h:4971-4998 | the update for point j, block i, component c is at a known position and carries component c of the point's value |
| PointValues.ApplyDistinct | include/deal.II/multigrid/mg_transfer_global_coarsening.templates.h:4971-4998 | when no two updates share an entry, each entry receives exactly its update's value |
| PointValues.DistinctPair | include/deal.II/multigrid/mg_transfer_global_coarsening.templates.h:4971-4998 | different positions of distinct DoFs name different DoFs |
| PointValues.ConsecutiveDistinct | include/deal.II/multigrid/mg_transfer_global_coarsening.templates.h:4971-4998 | updates on consecutive entries of distinct DoFs name distinct DoFs |
| PointValues.ConsecutiveAvoids | include/deal.II/multigrid/mg_transfer_global_coarsening.templates.h:4971-4998 | updates on consecutive entries avoid every DoF those entries avoid |
| PointValues.UpdatesDistinct | include/deal.II/multigrid/mg_transfer_global_coarsening.templates.h:4971-4998 | with distinct fine DoFs no two scatter updates share a DoF |
| PointValues.ScatterValue | include/deal.II/multigrid/mg_transfer_global_coarsening.templates.h:4971-4998 | with distinct fine DoFs each DoF of block i of point j receives exactly component c of the point's value |
| PointValues.UpdatesAvoid | include/deal.II/multigrid/mg_transfer_global_coarsening.templates.h:4971-4998 | no scatter update names a DoF outside the blocks in use |
| PointValues.ScatterUntouched | include/deal.II/multigrid/mg_transfer_global_coarsening.templates.h:4971-4998 | DoFs outside the blocks in use keep their values |
| PointValues.BlockValues | include/deal.II/multigrid/mg_transfer_global_coarsening.templates.h:5037-5046 | the values read for block i are `src[fine[nc*i + c]]` |
| PointValues.GatheredSingle | include/deal.II/multigrid/mg_transfer_global_coarsening.templates.h:5037-5046 | a single block gathers exactly its own values |
| PointValues.AddBlockValues | include/deal.II/multigrid/mg_transfer_global_coarsening.templates.h:5055-5063 | the component loop of the restriction adds exactly the block's values |
| PointValues.GatherBlocks | include/deal.II/multigrid/mg_transfer_global_coarsening.templates.h:5049-5063 | the `ptrs` loop sums the values of blocks `a..b` |
| PointValues.GatherPoint | include/deal.II/multigrid/mg_transfer_global_coarsening.templates.h:5037-5064 | point j reads block j without `level_dof_indices_fine_ptrs`, else the sum over its blocks |
| PointValues.Gather | include/deal.II/multigrid/mg_transfer_global_coarsening.templates.h:5033-5065 | one result per point, each the values gathered for that point |
| PointValues.GatheredConstant | include/deal.II/multigrid/mg_transfer_global_coarsening.templates.h:5055-5063 | blocks that all hold one value gather their count times that value |
| PointValues.GatherOfScatter | include/deal.II/multigrid/mg_transfer_global_coarsening.templates.h:4971-5065 | restricting a prolongation into a zero vector: with distinct DoFs point j gathers its value once per block |
| PointValues.ScatterBlocks | include/deal.II/multigrid/mg_transfer_global_coarsening.templates.h:4971-4998 | after prolongating into a zero vector every block of point j holds the point's value |
| PointValues.PointGatheredConstant | include/deal.II/multigrid/mg_transfer_global_coarsening.templates.h:5049-5063 | a point whose blocks all hold one value gathers its block count times that value |
| PointValues.ScatterBlock | include/deal.II/multigrid/mg_transfer_global_coarsening.templates.h:4971-4998 | after prolongating into a zero vector block i of point j holds the point's value |
| PointValues.RestrictProlongate | include/deal.II/multigrid/mg_transfer_global_coarsening.templates.h:4971-5065 | without `level_dof_indices_fine_ptrs`, restricting a prolongation into a zero vector gives back every point's value |
| CellLoop.ExtendRun | include/deal.II/multigrid/mg_transfer_global_coarsening.templates.h:2951-3027 | a batch starting at cell `\|ns\| * n_lanes` of the scheme, with the counters the loop holds there, extends the scheme's run of batches |
| CellLoop.AdvanceLanes | include/deal.II/multigrid/mg_transfer_global_coarsening.templates.h:3007-3012 | the lane loop advances `weights` by `n_dofs_per_cell_fine` for each filled lane |
| CellLoop.NextBatch | include/deal.II/multigrid/mg_transfer_global_coarsening.templates.h:2951-3027 | one pass of the inner loop records the next batch of the scheme and strictly advances `cell_counter` |
| CellLoop.SchemeBatches | include/deal.II/multigrid/mg_transfer_global_coarsening.templates.h:2951-3027 | the inner loop yields the complete run of batches of one scheme; `cell_counter` advances by the scheme's cells, `weights` ends after the scheme's block and `weights_compressed` one stride per batch |
| CellLoop.AppendScheme | include/deal.II/multigrid/mg_transfer_global_coarsening.templates.h:2926-3028 | appending the batches of scheme s extends the batches of the schemes before it |
| CellLoop.SchemeAdvance | include/deal.II/multigrid/mg_transfer_global_coarsening.templates.h:2926-3028 | over one scheme the counter advances by its cells and `weights` by its block, and a scheme without batches moves neither |
| CellLoop.SkipScheme | include/deal.II/multigrid/mg_transfer_global_coarsening.templates.h:2928-2929 | a scheme without cells, or skipped by the interpolation, yields no batch |
| CellLoop.NextScheme | include/deal.II/multigrid/mg_transfer_global_coarsening.templates.h:2926-3028 | one pass of the scheme loop keeps the loop invariant: the batches of schemes before s in order, and the counters and cursors after them |
| CellLoop.RunLoop | include/deal.II/multigrid/mg_transfer_global_coarsening.templates.h:2924-3028 | the whole loop: every batch is placed in a processed scheme and follows its predecessor, `cell_counter` ends at the number of coarse cells, and both weight cursors end past the last weights used |
| CellLoop.BatchShape | include/deal.II/multigrid/mg_transfer_global_coarsening.templates.h:2953-2956 | a batch fills between 1 and `n_lanes` lanes, inside its scheme, and only a scheme's last batch is partial |
| CellLoop.SumFirstFlat | include/deal.II/multigrid/mg_transfer_global_coarsening.templates.h:2928-2929 | schemes without cells do not move the cell counter |
| CellLoop.IdleFlat | include/deal.II/multigrid/mg_transfer_global_coarsening.templates.h:2928-2929 | when every scheme is processed, the idle schemes are those without cells and do not move the counter |
| CellLoop.CountersAdvance | include/deal.II/multigrid/mg_transfer_global_coarsening.templates.h:3026 | each batch starts no earlier than where the previous one ends, and exactly there when no scheme is skipped |
| CellLoop.CountersTile | include/deal.II/multigrid/mg_transfer_global_coarsening.templates.h:2924-3028 | in the transfers the batches cut the cell counters 0..n-1 into consecutive pieces |
| CellLoop.CountersEnds | include/deal.II/multigrid/mg_transfer_global_coarsening.templates.h:2924-3028 | the first batch starts at counter 0 and the last ends at the number of coarse cells; there are no batches exactly when there are no coarse cells |
| CellLoop.EarlierCellsVisited | include/deal.II/multigrid/mg_transfer_global_coarsening.templates.h:2926-3028 | every cell of a processed scheme before a given batch is visited by an earlier batch |
| CellLoop.VisitingBatch | include/deal.II/multigrid/mg_transfer_global_coarsening.templates.h:2926-3028 | every cell of a processed scheme is visited by some batch |
| CellLoop.CountersIncrease | include/deal.II/multigrid/mg_transfer_global_coarsening.templates.h:3026 | a later batch starts after every earlier batch ends |
| CellLoop.VisitedOnce | include/deal.II/multigrid/mg_transfer_global_coarsening.templates.h:2926-3028 | each cell of a processed scheme is visited by exactly one batch, and a cell of a skipped scheme by none |
| CellLoop.LaneWeights | include/deal.II/multigrid/mg_transfer_global_coarsening.templates.h:1440-1462 | with per-DoF weights, lane v of a batch uses the `weights` block that `setup_weights` copied for its own cell, and stays inside the weights |
| GhostState.Put | include/deal.II/multigrid/mg_transfer_global_coarsening.templates.h:2862-2900 | replacing one vector leaves exactly that vector changed |
| GhostState.ProlongateAndAdd | include/deal.II/multigrid/mg_transfer_global_coarsening.templates.h:2862-2900 | the coarse vector is read with valid ghost values, the caller's `src` leaves in the ghost state it came in, and no contribution is left unsent in `dst` |
| GhostState.RestrictAndAdd | include/deal.II/multigrid/mg_transfer_global_coarsening.templates.h:3033-3080 | the fine vector is read with valid ghost values when `vec_fine_needs_ghost_update`, the caller's `src` leaves in the ghost state it came in, the internal fine vector ends without ghost state, and every contribution to the coarse vector is sent |
| GhostState.InterpolateAsWritten | include/deal.II/multigrid/mg_transfer_global_coarsening.templates.h:3214-3341 | as written: the fine vector is read with ghost values when needed and the internal fine vector ends without ghost state, but `src` keeps its ghost state only for a continuous fine element or a fine vector without ghosts |
| GhostState.InterpolateLeavesSrcGhosted | include/deal.II/multigrid/mg_transfer_global_coarsening.templates.h:3333-3337 | a discontinuous fine element with ghost entries, in place with a clean `src`, leaves `interpolate` with `src` ghosted |
| GhostState.Interpolate | include/deal.II/multigrid/mg_transfer_global_coarsening.templates.h:3214-3341 | with the clean-up condition of `restrict_and_add`, `src` always leaves in the ghost state it came in |
| GhostState.InterpolateVersionsDiffer | include/deal.II/multigrid/mg_transfer_global_coarsening.templates.h:3333-3337 | the two versions differ exactly in place, with a clean `src`, a fine vector with ghost entries and a discontinuous fine element |
| Partitioners.GlobalToLocal | include/deal.II/multigrid/mg_transfer_global_coarsening.templates.h:3423-3425 | a global index has a local index exactly when the rank owns or imports it, and that local index maps back to it |
| Partitioners.LocalRoundTrip | include/deal.II/multigrid/mg_transfer_global_coarsening.templates.h:3423-3425 | on a well-formed partitioner `global_to_local(local_to_global(i)) == i` for every local index |
| Partitioners.ContainedIffTranslatable | include/deal.II/multigrid/mg_transfer_global_coarsening.templates.h:3349-3375 | for partitioners of equal size and owned range, `is_partitioner_contained` holds exactly when every local index of the current partitioner has a local index in the external one |
| Partitioners.TranslateDefined | include/deal.II/multigrid/mg_transfer_global_coarsening.templates.h:3418-3425 | under containment every local index translates |
| Partitioners.TranslateKeepsGlobal | include/deal.II/multigrid/mg_transfer_global_coarsening.templates.h:3423-3425 | a translated index is local to the external partitioner and names the same global DoF, and distinct indices stay distinct |
| Partitioners.Remap | include/deal.II/multigrid/mg_transfer_global_coarsening.templates.h:3423-3425 | every entry of the index array is replaced by its translation and nothing else changes |
| Partitioners.Embedded | include/deal.II/multigrid/mg_transfer_global_coarsening.templates.h:3378-3391 | `create_embedded_partitioner` is well formed, contained in the larger partitioner, owns its owned range and imports only the ghosts of the smaller one, laid out within the ghost set of the larger one |
| Partitioners.GhostSlot | include/deal.II/multigrid/mg_transfer_global_coarsening.templates.h:3386-3388 | each ghost of the embedded partitioner has a slot in the larger ghost set that holds that very index |
| Partitioners.PositionMonotone | include/deal.II/multigrid/mg_transfer_global_coarsening.templates.h:3386-3388 | in an ascending index set, a smaller index sits at an earlier position |
| Partitioners.EmbeddedGhostLayout | include/deal.II/multigrid/mg_transfer_global_coarsening.templates.h:3378-3391 | the k-th embedded ghost is stored at the larger partitioner's local index of that DoF, and the slots keep the order of the embedded ghosts |
| Partitioners.Adopted | include/deal.II/multigrid/mg_transfer_global_coarsening.templates.h:3411-3436 | a side ends with the external partitioner or keeps its own, well formed either way |
| Partitioners.EmbeddedAfter | include/deal.II/multigrid/mg_transfer_global_coarsening.templates.h:3418-3436 | an embedded partitioner is set only when the partitioners were not compatible but contained, and is then the embedded one with the external partitioner's ghosts as its layout |
| Partitioners.TransferPartitioning.constructor | include/deal.II/multigrid/mg_transfer_global_coarsening.templates.h:2856-2858 | a new transfer starts out of place, without embedded partitioners, and with `vec_fine_needs_ghost_update` set |
| Partitioners.TransferPartitioning.EnableInplaceOperations | include/deal.II/multigrid/mg_transfer_global_coarsening.templates.h:3401-3462 | each side adopts the external partitioner exactly when it is compatible or contains the current one and then works in place; the stored indices are renumbered only in the contained case and name the same global DoFs afterwards; `vec_fine_needs_ghost_update` says whether the old fine partitioner had ghosts |
| Partitioners.TransferPartitioning.EnableCoarse | include/deal.II/multigrid/mg_transfer_global_coarsening.templates.h:3411-3436 | the coarse half: `dof_indices` and `plain_dof_indices` are renumbered under containment and keep their global DoFs, the fine side is unchanged |
| Partitioners.TransferPartitioning.EnableFine | include/deal.II/multigrid/mg_transfer_global_coarsening.templates.h:3442-3461 | the fine half: `dof_indices_fine` is renumbered under containment and keeps its global DoFs, the coarse side is unchanged |
| Partitioners.RemapKeepsGlobal | include/deal.II/multigrid/mg_transfer_global_coarsening.templates.h:3423-3429 | after renumbering every index is local to the external partitioner and names the global DoF it named before |
| Partitioners.BuildExternalPartitioners | include/deal.II/multigrid/mg_transfer_global_coarsening.templates.h:3944-3955 | without given partitioners the list holds the coarse partitioner of the first transfer, then the fine partitioner of every transfer, and is empty without transfers |
| Partitioners.ExternalListIsOwnPairs | include/deal.II/multigrid/mg_transfer_global_coarsening.templates.h:3924-3958 | when each transfer's coarse partitioner is the fine partitioner of the transfer below, the list hands every transfer its own pair, so handing it back changes nothing |
| TransferSelection.RepartitioningExactlyWhenApart | include/deal.II/multigrid/mg_transfer_global_coarsening.templates.h:1305-1321 | `p_transfer_involves_repartitioning` is false exactly when both sides are on the same level of the same triangulation |
| TransferSelection.FirstChildPolicyHolds | include/deal.II/multigrid/mg_transfer_global_coarsening.templates.h:1333-1372 | the cell loop reports true exactly when every visited coarse cell exists in the fine triangulation and it, or its first child, belongs to the coarse cell's subdomain |
| TransferSelection.HTransferUsesFirstChildPolicy | include/deal.II/multigrid/mg_transfer_global_coarsening.templates.h:1325-1388 | between two active levels the result is that cell test, otherwise the single-handler test |
| TransferSelection.SingleHandlerFirstChildExactly | include/deal.II/multigrid/mg_transfer_global_coarsening.templates.h:1374-1388 | on one handler the policy holds exactly between multigrid levels l + 1 and l, and such a pair always involves repartitioning |
| TransferSelection.ChooseTransfer | include/deal.II/multigrid/mg_transfer_global_coarsening.templates.h:3541-3617 | the transfer is polynomial exactly when a multigrid level is involved or every locally owned coarse cell is a locally owned fine cell, and geometric otherwise |

## Left out

- MPI: the model is one rank. `Utilities::MPI::min`/`max` reductions become the local value. The consensus owner lookup becomes membership in a given set of owned cells. Sends, probes and receives become one message handed from sender to receiver as data.
- Numeric kernels: `FEEvaluationImplBasisChange`, `CellProlongator`/`CellRestrictor`, hanging-node constraint application and `weight_fe_q_dofs_by_entity` are not visible source. The cell loop records each batch with the counters it hands to them.
- Weight compression: `compute_weights_fe_q_dofs_by_entity` is not visible source. Whether it succeeds on every cell is the input `everyCellCompresses` of ContinuityWeights.SetupWeights. The contents of `weights_compressed` are not modelled, only its cursor, which moves 3^dim entries per batch.
- ContinuityWeights.InvertValence: a DoF of valence 0 gets weight 0, where the source computes 1/0. No cell slot reads such an entry (ContinuityWeights.SlotsHaveValence).
- Finite element library calls: `FETools::get_projection_matrix`, `create_1D_fe`, `ShapeInfo`, the element's prolongation and restriction matrices, `restriction_is_additive`, `lexicographic_numbering` and `n_dofs_per_cell` are inputs.
- Triangulation work is out: `create_geometric_coarsening_sequence`, the cell iterators, `FEValues` coordinates (a type parameter in PointTables), `RemotePointEvaluation` and `MappingInfo`. Cell ids, child ids and the fine cell found for a coarse id are inputs.
- TransferSelection.HTransferUsesFirstChildPolicy: the fine cell at a coarse cell's id (`create_cell_iterator`) is a given `FineCell`. Whether two handlers or two triangulations are the same object is a boolean.
- Signals (`signals_non_nested`) and the `memory_consumption` functions are instrumentation and left out.
- Integer widths: indices are unbounded naturals. The source's `unsigned int` cannot wrap at any size the source asserts. `numbers::invalid_unsigned_int` and `numbers::invalid_dof_index` are separate datatype constructors.
- Floating point: weights, matrix entries and point values are exact reals. The only test the source makes on a matrix entry is "nonzero".
- Checks that only `Assert`/`AssertThrow` in debug builds become preconditions. Examples: the DoF-per-vertex bound of the 1-D renumbering, `n_components` in {1, dim}, index ranges.
- SupportPoints.StableSortSorted: `std::stable_sort` is modelled by an insertion sort, specified by sortedness, permutation and stability.
- PointValues: `value_type` is a vector of `n_components` reals for both the scalar and the vector case.
- PointValues.Scatter: `dst` is a sequence value, not the caller's vector updated in place. PointValues.Gather reads `src` as a value.
- GhostState: vectors are reduced to their ghost state and whether ghost entries hold unsent contributions. Vector entries are not modelled. `vector = 0` is taken to zero the ghost entries too and leave the ghosted state; `copy_locally_owned_data_from` to leave the ghost state alone.
- Partitioners: `MGTransferMF::build` with given partitioners calls `enable_inplace_operations_if_possible` level by level (3934-3940). That loop is not modelled; a single call is (Partitioners.TransferPartitioning.EnableInplaceOperations).
- Partitioners.Adopted: `is_globally_compatible` is modelled as equality of partitioners, and `reinit(0)` of an internal vector as the side's in-place flag.
- CellTransferDispatch: the compile-time kernel instantiation is reduced to the degrees it is instantiated with.

## Findings

| source | as written | input that shows it | evidently intended | confidence | as-written member | corrected member |
|---|---|---|---|---|---|---|
| include/deal.II/multigrid/mg_transfer_global_coarsening.templates.h:3333-3337 | `interpolate` cleans up the ghost values of an in-place `src` only when `fine_element_is_continuous`. It imports them (3237-3239) whenever `vec_fine_needs_ghost_update` holds and `src` had none. | a discontinuous fine element whose partitioner has ghosts, used in place, with a `src` without ghost values: `src` leaves the call with ghost values set | clean up under `vec_fine_needs_ghost_update`, as `restrict_and_add` does (3073-3074), so `src` leaves in the ghost state it came in | medium, not executed | GhostState.InterpolateAsWritten, GhostState.InterpolateLeavesSrcGhosted | GhostState.Interpolate |
