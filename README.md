# A verified model of the list-view test's directory browser

`tests/testlistview.c` browses a file system tree in a virtualised list. Its
own logic is a small core:

- **Enumeration scheduler.** `start_enumerate` and `got_files` keep two
  globals. `active` counts the enumerations with a fetch in flight. `pending`
  holds the stores whose enumeration was put off.
  - Opening a directory is admitted, deferred or dropped.
  - Each batch of entries is spliced onto the end of its directory's store.
  - An empty batch ends a directory. It re-submits one deferred store and
    then decrements `active`.
- **Directory model.** `create_list_model_for_directory` builds the store for
  a directory and submits it to the scheduler.
- **Sort comparator.** `compare_files` compares two entries' paths without
  regard to case. `sort_tree` orders two rows of the flattened tree. It walks
  them up to a common depth, then up to a common parent, and compares the two
  sibling ancestors. `toggle_sort` flips `invert_sort`, which negates that
  comparison.
- **Search filter.** `match_file` keeps a row when the search text occurs in
  its path.
- **Status bar.** `update_statusbar` writes the row counts and the number of
  directories still to do. It tells its caller whether to keep polling.

Modules:

| module | holds |
|---|---|
| `Wrappers` | the `Option` type |
| `CString` | strcasecmp, strcmp, strstr and `%u` |
| `Files` | locations, infos, entries, child files and the `Store` class for a GListStore |
| `Enumeration` | the scheduler |
| `TreeSort` | the comparator and the sort direction |
| `Filter` | the search filter |
| `Status` | the status bar |

The scheduler is stated twice:

- **As functions** on a `Sched` value: `Start` and `Finish`.
- **As a `Scheduler` class** whose fields are the two globals. Its methods
  follow the C code step by step and are proved equal to those functions.

`sort_tree` is likewise both a function, `TreeOrder`, over an arena of rows
(each row has a parent link and a depth), and a method, `SortOrder.SortTree`,
with the source's three loops, proved to compute it.

`pending` is a stack. New stores are prepended at lines 34 and 46, and the
head is taken at 77-78. The model follows the code.

## Model

| member | source | states |
|---|---|---|
| CString.CaseCmp | tests/testlistview.c:135 | strcasecmp's sign: between -1 and 1, zero exactly when the two paths are equal after ASCII case folding, and always the sign strcmp gives for the two folded paths |
| CString.CaseCmpOrder | tests/testlistview.c:135 | strcasecmp is negative exactly when the first path comes first in dictionary order once both are folded, and positive exactly when the second does |
| CString.CmpOrder | tests/testlistview.c:135 | strcmp is negative exactly when the first string comes first in dictionary order (a proper prefix, or a smaller character after a common prefix), and positive exactly when the second does |
| CString.CmpTransitive | tests/testlistview.c:135 | strcmp orders strings transitively |
| CString.CaseCmpAntisymmetric | tests/testlistview.c:135 | swapping the arguments of the case-insensitive comparison negates its result |
| CString.Contains | tests/testlistview.c:330 | strstr finds the needle exactly when it occurs at some index of the haystack |
| CString.Decimal | tests/testlistview.c:298 | `%u` gives a non-empty string of decimal digits without a leading zero |
| CString.DecimalRoundTrip | tests/testlistview.c:298 | reading back the digits `%u` printed gives the number |
| Files.Child | tests/testlistview.c:92 | a child file lives on the directory's kind of file system, and its path extends the directory's path and ends in the child's name |
| Files.Attach | tests/testlistview.c:87-95 | got_files makes one entry per info, in batch order, each carrying the info and its child file |
| Files.Store.constructor | tests/testlistview.c:151-152 | a new store holds its directory's file, no entries and no notifications |
| Files.Store.Splice | tests/testlistview.c:98 | a splice replaces the given range with the additions, keeps everything around it, and emits exactly one items-changed notification |
| Enumeration.BatchSize | tests/testlistview.c:51-52 | a fetch asks for 5000 infos on a native file system and 100 otherwise |
| Enumeration.Start | tests/testlistview.c:13-60 | start_enumerate is TRUE exactly for a successful open, or too-many-open-files while something runs. A dropped store changes nothing and issues no fetch. A fetch is issued exactly when the open succeeds with at most 20 running; it raises `active` by one. A deferred store goes on top of `pending`. `active` never rises above 21. The work left grows by one exactly on TRUE, and a state in which every deferred store has someone to pop it stays so |
| Enumeration.Finish | tests/testlistview.c:72-82 | an empty batch with nothing deferred just lowers `active` by one. Otherwise the head of `pending` is re-submitted, and the re-open decides. A fetch is issued exactly when it succeeds with at most 20 running; the fetch is for that store with its batch size, and `active` is then unchanged. The store stays on `pending` exactly when the re-open runs out of file descriptors or succeeds with more than 20 running. Any other error drops it and lowers `active` by one. Without a fetch, `active` drops by one. The work left always shrinks, and from at most 21 running `active` ends at most 20 |
| Enumeration.ExhaustedOpenIsRetried | tests/testlistview.c:29-35 | with one enumeration running, a directory whose open runs out of file descriptors is deferred, not dropped. It is re-opened when that enumeration ends, and takes over its slot if the re-open succeeds |
| Enumeration.FinishCanStrand | tests/testlistview.c:75-81 | as written, an end-of-directory completion can leave a store pending with nothing running |
| Enumeration.StrandedStoreWaitsForNextOpen | tests/testlistview.c:29-82 | the stranded store waits until another directory is opened and admitted. That directory's end re-submits it, unless another store was deferred on top of it meanwhile (then that store is popped instead and the stranded one stays pending); it gets its fetch only if its re-open succeeds, is stranded again on too-many-open-files, and is dropped on any other error |
| Enumeration.Resubmit | tests/testlistview.c:75-80 | re-submitting deferred stores, skipping only those dropped while nothing runs, leaves every deferred store with a running enumeration to pop it. What stays pending is a suffix of what was pending. No store is lost whose directory opens, or whose open runs out of file descriptors while something runs: it stays pending or gets the fetch. It never adds work, keeps `active` within 21, and any fetch is for a store that was pending |
| Enumeration.FinishFixed | tests/testlistview.c:72-82 | an end-of-directory step that frees the slot first keeps every deferred store poppable. It only removes stores from the front of `pending`. It never loses a store whose directory opens, nor one whose open runs out of file descriptors while another enumeration still runs. It shrinks the work left and keeps `active` within 21 |
| Enumeration.Scheduler.constructor | tests/testlistview.c:5-6 | the globals start with nothing active and nothing pending |
| Enumeration.Scheduler.StartEnumerate | tests/testlistview.c:13-60 | the imperative start_enumerate moves the globals exactly as `Start` says and returns its result and fetch; one running enumeration is recorded per admitted store. It takes only a store that is neither running nor pending, as both call sites (79 and 154) pass a fresh or just-popped store, and it keeps each store at most once running, at most once pending, and never both |
| Enumeration.Scheduler.GotFiles | tests/testlistview.c:62-107 | a non-empty batch is appended at the old end of the store with zero removals, in one notification. It leaves `active` and `pending` untouched and issues the next fetch with the same batch size. An empty batch leaves the store alone and moves the globals exactly as `Finish` says |
| Enumeration.Scheduler.EndOfDirectory | tests/testlistview.c:72-82 | the empty-batch path pops the head of `pending`, re-submits it and then decrements `active`, moving the globals exactly as `Finish` says |
| Enumeration.Scheduler.CreateListModelForDirectory | tests/testlistview.c:143-158 | no store for a non-directory, nor when start_enumerate gives up. Otherwise a new, empty store for the file, submitted as `Start` says |
| TreeSort.Anc | tests/testlistview.c:364-375 | walking a row up to a depth not below the top reaches an existing row at exactly that depth, and the row itself at its own depth |
| TreeSort.AncParent | tests/testlistview.c:367 | the parent of a row's ancestor at depth k is its ancestor at depth k - 1, and a top-level row has none |
| TreeSort.Branch | tests/testlistview.c:384-391 | the do-while stops at the depth where the two ancestors differ but their parents coincide |
| TreeSort.BranchUnique | tests/testlistview.c:384-391 | there is only one such depth |
| TreeSort.CompareFiles | tests/testlistview.c:109-141 | compare_files answers between -1 and 1, and zero exactly when the two paths are equal without regard to case |
| TreeSort.CompareFilesOrder | tests/testlistview.c:109-141 | compare_files is negative exactly when the first path comes first in dictionary order once both are case-folded, and positive exactly when the second does |
| TreeSort.TreeOrder | tests/testlistview.c:350-407 | sort_tree ties two rows on one line of descent exactly when they are the same row, and answers a sign between -1 and 1 for rows on different lines |
| TreeSort.TreeOrderAntisymmetric | tests/testlistview.c:350-407 | swapping the rows negates sort_tree's answer, and a row ties with itself |
| TreeSort.AncestorSortsFirst | tests/testlistview.c:379-380 | an ancestor sorts before its descendants in both sort directions |
| TreeSort.InvertReverses | tests/testlistview.c:403-404 | for rows not on one line of descent, inverting the sort negates the comparison |
| TreeSort.BranchRowsAreSiblings | tests/testlistview.c:393 | the two ancestors reached by the loop are distinct rows with the same parent |
| TreeSort.OrderAtBranchPoint | tests/testlistview.c:393-406 | rows not on one line of descent compare as compare_files on their sibling ancestors at the branch point, negated exactly when the sort is inverted |
| TreeSort.TreeOrderAt | tests/testlistview.c:393-406 | any depth at which the rows' ancestors differ under a shared parent yields that same comparison |
| TreeSort.SubtreeStaysTogether | tests/testlistview.c:350-407 | every row of a subtree compares with an outside row exactly as the subtree's root does |
| TreeSort.ListingOrder | tests/testlistview.c:350-407 | a root holding b, A and c, with A holding x, sorts ascending as A, A/x, b, c |
| TreeSort.ListingOrderInverted | tests/testlistview.c:403-404 | the same rows sort inverted as c, b, A, A/x: x still follows A |
| TreeSort.CaseTieSplitsSubtree | tests/testlistview.c:135 | as written, siblings F and f tie, and so do F/x and f, while F precedes F/x |
| TreeSort.CompareFilesFixed | tests/testlistview.c:135 | the tie-broken comparison is zero only for equal paths, and agrees with compare_files whenever that does not tie |
| TreeSort.TreeOrderFixed | tests/testlistview.c:350-407 | the corrected comparator ties two rows on one line of descent exactly when they are the same row, and answers a sign between -1 and 1 for rows on different lines |
| TreeSort.TreeOrderFixedStrict | tests/testlistview.c:350-407 | with distinct sibling paths, the corrected comparator ties a row only with itself, is antisymmetric, and agrees with sort_tree wherever sort_tree does not tie |
| TreeSort.CompareFilesFixedOrder | tests/testlistview.c:135 | the tie-broken comparison is antisymmetric and transitive |
| TreeSort.TreeOrderFixedTransitive | tests/testlistview.c:350-407 | the corrected comparator is transitive: if a sorts before b and b before c, a sorts before c. With TreeOrderFixedStrict it is a strict total order |
| TreeSort.SubtreeStaysTogetherFixed | tests/testlistview.c:350-407 | under the corrected comparator, every row of a subtree compares with an outside row exactly as the subtree's root does |
| TreeSort.SortOrder.constructor | tests/testlistview.c:338 | `invert_sort` starts false |
| TreeSort.SortOrder.ToggleSort | tests/testlistview.c:343 | toggle_sort flips the sort direction |
| TreeSort.SortOrder.SortTree | tests/testlistview.c:350-407 | the loops of sort_tree compute `TreeOrder` for the current direction |
| Filter.MatchFile | tests/testlistview.c:319-336 | a row matches exactly when the search text occurs somewhere in its path; empty text matches every row |
| Filter.NarrowingSearch | tests/testlistview.c:330 | a row matching a longer search text matches every prefix of it |
| Filter.ChildrenOfMatchingDirectoryMatch | tests/testlistview.c:330 | every entry read from a directory whose path matches also matches |
| Filter.MatchIsCaseSensitive | tests/testlistview.c:330 | "a" does not find "/A" while "A" does |
| Status.UpdateStatusbar | tests/testlistview.c:287-317 | the bar keeps polling exactly while something is pending or active. The text is the shown count, then "/" and the unfiltered count when the model is a filter model and the counts differ, then " items". While polling it ends with " (", the guint sum of `active` and the length of `pending`, and " directories remaining)"; otherwise it ends with " items" |
| Status.StatusbarLeadsWithCount | tests/testlistview.c:297-298 | the leading number of the text reads back as the shown row count |
| Status.StatusbarShowsUnfilteredCount | tests/testlistview.c:299-304 | when the counts differ, a '/' follows the shown count, and the number after it reads back as the unfiltered count |
| Status.StatusbarReportsRemaining | tests/testlistview.c:307-311 | while polling, the text ends with " directories remaining)", and the number just before it reads back as the guint sum of `active` and the length of `pending` |
| Status.SlashInCounts | tests/testlistview.c:299-305 | the counts hold a '/' exactly when there is an unfiltered count different from the shown one |
| Status.NoSlashInRemaining | tests/testlistview.c:307-311 | the remaining-work part holds no '/' |
| Status.StatusbarShowsUnfilteredOnlyWhenDifferent | tests/testlistview.c:299-304 | the text holds a second count exactly when filtering hides rows |
| Status.StrandedStoreKeepsPolling | tests/testlistview.c:307-311 | after the stranding step nothing runs, yet the bar keeps polling, and the number it reports as remaining reads back as 1 |

## Left out

- The GIO calls are inputs or left out:
  - The outcome of `g_file_enumerate_children` is an `OpenResult`.
  - What a fetch returns is a batch of infos; a read error ends the directory like an empty batch, as in the code.
  - `g_file_is_native` is a flag on the location.
  - `g_file_query_file_type` is a `FileKind` argument.
  - `g_file_get_path` is the location's path.
- `g_file_get_path` returns NULL for a file without a local path. `strcasecmp` at line 135 and `strstr` at line 330 would then dereference NULL. Every location here has a path, so that crash is not modelled.
- Asynchronous delivery:
  - A fetch is returned as a value, and its completion is a later call of `Scheduler.GotFiles`.
  - Callback priorities are not modelled.
  - Which completion comes next is the caller's choice.
- Reference counting is not modelled. This covers `g_object_ref`/`unref`, the enumerator dropped when a store is deferred, and the stray `g_ptr_array_new_with_free_func` at line 86.
- The enumerator object is not modelled. Successive fetches on the same directory are calls of `GotFiles` for the same store.
- The icon and display-name attributes are requested but not used by the core; they are not modelled.
- Library list models are not modelled:
  - GtkTreeListModel flattening, expansion, collapse and autoexpand; the model's rows are given as an arena of rows with parent links and depths.
  - The internals of GtkSortListModel and GtkFilterListModel, such as re-sorting on toggle and re-filtering on typing. The model proves what the callbacks answer.
- `create_list_model_for_file_info` (lines 275-285) only looks up the entry's file and calls `create_list_model_for_directory`. Every entry here carries its file.
- Row widgets, `main`, the button icon set by `toggle_sort`, the status bar tick registration and `gtk_statusbar_push` are not modelled.
- The other repository files are not part of this model:
  - `gtk/gtksearchbar.c` is widget plumbing.
  - `gdk/broadway/gdkbroadwaywindow.h` holds only type macros.
  - `gtk/gen-gtk-gresources-xml.py` is a build script.
- Paths and the search text are sequences of Unicode characters. This matches the byte-wise C functions `strcasecmp` (line 135) and `strstr` (line 330) for UTF-8 file names only; a file name that is not valid UTF-8 cannot be represented.
- CString.CaseCmp: returns only the sign of strcasecmp and folds ASCII letters only. The C library may return any negative or positive value and follows the locale. sort_tree hands the value to the sort model, which uses only its sign.
- Files.Child: joins the directory path and the name with one '/', omitted when the directory path already ends in '/'. It does not normalise paths as GIO does.
- Enumeration.Scheduler.GotFiles: requires that the completion is for a store with a fetch in flight. That is how GIO calls it back, and it rules out the guint underflow of `active--` at 0.
- Enumeration.Scheduler.StartEnumerate: `active` is unbounded and kept at most 21 by the invariant, so guint wrap-around cannot arise.
- Status.UpdateStatusbar: the row counts are unbounded naturals where the C code reads guint values. Only the sum `active + |pending|` is reduced modulo 2^32 as the C code computes it.
- TreeSort.SortOrder.SortTree: the depth difference is computed on unbounded integers. The C code subtracts guint depths and converts the result to int, which agrees for depths below 2^31.

## Findings

| source | as written | input that shows it | evidently intended | confidence | as-written member | corrected member |
|---|---|---|---|---|---|---|
| tests/testlistview.c:75-81 | `got_files` re-submits the head of `pending` while the finishing enumeration is still counted in `active`, and decrements afterwards | `active` = 1, `pending` = [a], empty batch, and re-opening a fails with too-many-open-files: a is deferred again (active was 1), then `active` becomes 0 with a still pending. No completion pops it until another directory is opened (`create_list_model_for_directory`, 143-158). The next end-of-directory completion then re-submits a, unless another store was deferred on top of it meanwhile; a gets its fetch if its re-open succeeds. Until a runs or is dropped, the status bar keeps polling. Likewise `pending` = [a, b] when re-opening a fails with another error | a deferred store is always eventually re-submitted: free the slot first, and keep re-submitting past dropped stores while nothing runs. On this input the correction re-opens a with nothing running, and start_enumerate's own rule (31-40) then drops a for good; the code as written instead can re-submit a once another directory is opened and admitted (StrandedStoreWaitsForNextOpen) | medium, not executed | Enumeration.FinishCanStrand | Enumeration.FinishFixed |
| tests/testlistview.c:135 | `compare_files` uses strcasecmp alone, so two sibling paths that differ only in case compare equal, and so do their descendants against each other's siblings | top-level directories "/F" and "/f", with "/F/x" under "/F": F ties with f, f ties with F/x, yet F sorts before F/x. An order consistent with every answer is F, f, F/x, which splits F's subtree | ties between distinct siblings are broken (here by strcmp). The comparator is then a strict total order (TreeOrderFixedStrict with TreeOrderFixedTransitive), and subtrees stay together (SubtreeStaysTogetherFixed) | medium, not executed | TreeSort.CaseTieSplitsSubtree | TreeSort.TreeOrderFixedTransitive |

`Scheduler.GotFiles` and `SortOrder.SortTree` model the code as written. The
corrected definitions (`FinishFixed` with `Resubmit`, and `TreeOrderFixed`
with `CompareFilesFixed`) stand beside them with the intended properties
proved.
