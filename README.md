# choochoo core logic in Dafny

This project models eight self-contained pieces of the choochoo training diary and proves properties about them:

- **Response provenance.** These are the Composite sources of the SHRIMP response calculator (`ResponseCalculator`):
  - the forward chain of composites built from the heart-rate impulse series;
  - the walk that tags each hourly output with the composite in effect at its time;
  - the completeness checks `__missing_recent` and `__missing_sources`, which decide between rebuilding everything and doing nothing, and the delete that a rebuild starts with.
- **Rest heart rate.** `RestHRCalculator` builds a histogram with one bin per beat per minute, finds its peaks and writes the first peak holding more than one percent of the samples.
- **Kit tables.** Groups, items, components and models are held in id-keyed maps, together with their KIT_ADDED and KIT_RETIRED timestamps. This part covers:
  - name lookup and name uniqueness across the four tables;
  - the closed "in use at t" interval;
  - retiring an item, with or without force;
  - the retirement shuffle among sibling models when a model is added or undone.
- **Activity import.** This covers how the FIT reader:
  - resolves the sport to an activity group;
  - merges the kit named in the file name into the command-line define;
  - walks the records, loading data only at increasing timestamps and opening and closing timespans at timer events.
- **Kit command trees.** The `Node`/`Leaf` text trees of the kit commands (`+-`, `` `- ``, `| ` prefixes), their CSV form, their size, and `stats`.
- **Sector page helpers.**
  - `bracket`, a bisection over one column of a track;
  - `hms`, the h:mm:ss axis labels;
  - `zip`, the column-to-row transposition;
  - the default choice of the two sector journals.
- **Form binder.** The urwid binder of `uweird/database.py` covers:
  - a view of the form's values through per-column transforms;
  - default filling;
  - the key-change logic of the dynamic binder;
  - the `replace`/`insert` statements of the static binder, with one `?` per column.
- **Statistic display.** `ActivityStatistic.fmt_value` for integer metres, beats per minute and durations in seconds.

Stores are values or class fields: maps keyed by integer ids, and sequences of rows. SQL is not executed. Each SQL statement the binder would execute is appended to a log instead. What the database would answer (a row id, a row read back) is passed in as a parameter. The current time is also a parameter. `Wrappers`, `Text` and `OrderedMaps` are support modules:

- `Wrappers`: Option and Result;
- `Text`: decimal rendering and parsing of integers, and splitting on one character;
- `OrderedMaps`: Python's insertion-ordered `dict` as a sequence of pairs.

## Model

| member | source | states |
|---|---|---|
| Response.ChangeIndices | py/ch2/pipeline/calculate/response.py:216 | Lists exactly the change rows, in increasing order. The first row is always one of them (a comparison with NaN). |
| Response.ChangeRowsAlternate | py/ch2/pipeline/calculate/response.py:216 | Two consecutive change rows never carry the same source: each has no source or a different one from the change row before it. |
| Response.ChangeRowsCover | py/ch2/pipeline/calculate/response.py:216 | Every input row has the source of the last change row at or before it, so dropping the rows that are not changes loses no source. |
| Response.LastNullRowIsChange | py/ch2/pipeline/calculate/response.py:150 | A final row with no source (the row `_run_one` appends at now) is always the last change row. |
| Response.ChangeRowsSorted | py/ch2/pipeline/calculate/response.py:216-217 | Change rows of a time-ordered series are in time order. |
| Response.ChainShape | py/ch2/pipeline/calculate/response.py:213-225 | The chain is the zero composite at onset 0, then one new composite per change row, at that row's time. |
| Response.ChainCountsAt | py/ch2/pipeline/calculate/response.py:218-224 | The zero composite records 0 components. Every later one records 1, or 2 when its change row has a leaf source. |
| Response.ChainCountsDomain | py/ch2/pipeline/calculate/response.py:213-225 | Counts are recorded for exactly the chain's own composites. |
| Response.ChainEdgesOutputs | py/ch2/pipeline/calculate/response.py:220-224 | Every added edge goes into one of the new composites, never into the zero composite or an older one. |
| Response.StepInputs | py/ch2/pipeline/calculate/response.py:219-224 | One step gives the new composite the row's leaf source (when there is one), then the previous tail, and gives no other composite anything. |
| Response.ChainEdgesInputs | py/ch2/pipeline/calculate/response.py:218-225 | Composite c after the zero composite has as inputs its row's leaf source (if any), then c - 1. This makes the chain linear. |
| Response.ChainInputs | py/ch2/pipeline/calculate/response.py:213-226 | Added to an existing store, the chain leaves every older composite's inputs unchanged and gives each new composite its own. |
| Response.ChainOnsetsSorted | py/ch2/pipeline/calculate/response.py:214-226 | For time-ordered rows at or after time 0, chain onsets never decrease. |
| Response.RunChainTail | py/ch2/pipeline/calculate/response.py:150-152 | With the appended null row, the chain ends in a composite at now. Its only input is the previous tail, and it records one component. |
| Response.BuildChain | py/ch2/pipeline/calculate/response.py:217-226 | The builder loop yields exactly the specified chain, component counts and edges, in insertion order. |
| Response.ProvenanceStore.MakeSources | py/ch2/pipeline/calculate/response.py:208-227 | The store gains exactly the chain's composites and edges, with ids allocated from the next free id. Counts stay equal to edge counts. |
| Response.ProvenanceStore.MakeRunSources | py/ch2/pipeline/calculate/response.py:150-152 | The chain, edges, counts and next id are those `__make_sources` gives for the rows with a source-less row at now appended. So the chain ends at now, in a one-component composite linked only to the tail before it. Counts stay equal to edge counts. |
| Response.TagOutputs | py/ch2/pipeline/calculate/response.py:161-170 | Chain elements are consumed only from the front. Each output is tagged with the last element popped, and warned about iff more than one was popped for it. |
| Response.ConsumesLatestOnset | py/ch2/pipeline/calculate/response.py:161-170 | With sorted onsets and times, the elements consumed by output k are exactly those with onset at or before its time. So its tag is the latest such element. |
| Response.Latest | py/ch2/pipeline/calculate/response.py:97-101 | None iff the statistic has no row. Otherwise the time of one of its rows, and no row of it is newer. |
| Response.MissingRecent | py/ch2/pipeline/calculate/response.py:96-108 | Not missing iff some row of the statistic is at most three hours before now. |
| Response.FreshnessBoundary | py/ch2/pipeline/calculate/response.py:105-107 | Output exactly three hours old is complete; one second older is not. |
| Response.MissingSources | py/ch2/pipeline/calculate/response.py:110-134 | Non-zero iff some leaf row's source was never an input of a composite referenced by a response row. |
| Response.UnusedWitness | py/ch2/pipeline/calculate/response.py:113-121 | An unused leaf row makes the set of unused sources non-empty. |
| Response.RoundHourDown | py/ch2/pipeline/calculate/response.py:91 | The start of the hour holding t. |
| Response.RoundHourUp | py/ch2/pipeline/calculate/response.py:83 | The end of the hour holding t (t itself when it is on the hour). |
| Response.Earliest | py/ch2/pipeline/calculate/response.py:136-141 | The earliest time after 1 second, or None when there is none. |
| Response.JournalWithout | py/ch2/pipeline/calculate/response.py:73-75 | Keeps exactly the journal rows whose source is not deleted. |
| Response.EdgesWithout | py/ch2/pipeline/calculate/response.py:73-75 | Keeps exactly the edges with neither end deleted. |
| Response.JournalWithoutNothing | py/ch2/pipeline/calculate/response.py:71-77 | Deleting no source leaves the journal as it was. |
| Response.EdgesWithoutNothing | py/ch2/pipeline/calculate/response.py:71-77 | Deleting no source leaves the edges as they were. |
| Response.ProvenanceStore.DeleteFrom | py/ch2/pipeline/calculate/response.py:60-77 | Deletes exactly the composites referenced by the owner's rows (from start on), cascading to their rows and edges, and returns their number. No such row remains. |
| Response.ProvenanceStore.Missing | py/ch2/pipeline/calculate/response.py:79-94 | When either check fails: deletes the owner's composites and returns the single interval from the earliest time (rounded down) to now (rounded up). Otherwise returns nothing and changes nothing. |
| HeartRate.HistogramTotal | py/ch2/pipeline/calculate/heart_rate.py:34 | The 59 bins add up to the number of samples in [30, 89): each such sample lands in exactly one bin, and no other sample lands in any. |
| HeartRate.PeelBin | py/ch2/pipeline/calculate/heart_rate.py:34 | The range [lo, hi) is the bin [lo, lo + 1) followed by [lo + 1, hi). |
| HeartRate.PeaksFrom | py/ch2/pipeline/calculate/heart_rate.py:35 | Exactly the peaks of the histogram, in increasing bin order. |
| HeartRate.SelectRestHR | py/ch2/pipeline/calculate/heart_rate.py:36-48 | Writes nothing iff no peak holds more than 1% of all samples. Otherwise it writes once: the left edge of the first such peak, at the interval start. Every peak before it was skipped with a warning. |
| HeartRate.WrittenIsPeak | py/ch2/pipeline/calculate/heart_rate.py:35-43 | A selected bin is a histogram peak, so the value written lies in 31..87. |
| HeartRate.CountInAppend | py/ch2/pipeline/calculate/heart_rate.py:34 | Bin counts add up over concatenated samples. |
| HeartRate.OutlierLeavesHistogram | py/ch2/pipeline/calculate/heart_rate.py:34-39 | A sample outside 30..89 changes no bin and no peak, but still counts towards the 1% threshold. |
| KitTables.Expiry | py/ch2/sql/tables/kit.py:156-160 | The retirement time iff there is one, else None. |
| KitTables.LatestBeforeExists | py/ch2/sql/tables/kit.py:543-547 | If any sibling was added before t, one of them was added latest. |
| KitTables.EarliestAfterExists | py/ch2/sql/tables/kit.py:549-553 | If any sibling was added after t, one of them was added earliest. |
| KitTables.LatestBefore | py/ch2/sql/tables/kit.py:543-547 | `before`: a sibling added strictly before t with none added later before t, or None if there is none. |
| KitTables.EarliestAfter | py/ch2/sql/tables/kit.py:549-553 | `after`: the mirror image, strictly after t. |
| KitTables.UndoRestoresRetirements | py/ch2/sql/tables/kit.py:555-563 | Undo after add restores the retirements, when the earlier sibling was retired exactly when the later one was added. |
| KitTables.UndoReopensEarlierRetirement | py/ch2/sql/tables/kit.py:555-563 | The exception: an earlier sibling already retired by t, with no later sibling, is left unretired by undo. |
| KitTables.AppendIndividual | py/ch2/sql/tables/kit.py:184-190 | Appends the count and sum of the values, or nothing when there are none, and keeps the earlier entries. |
| KitTables.KeepOwn | py/ch2/sql/tables/kit.py:332 | Filtering never adds entries. |
| KitTables.KeepOwnMembers | py/ch2/sql/tables/kit.py:328-332 | Keeps exactly the entries whose model belongs to this item. |
| KitTables.KeepOwnIdempotent | py/ch2/sql/tables/kit.py:332 | Filtering twice is filtering once. |
| KitTables.RestrictToOwn | py/ch2/sql/tables/kit.py:326-333 | With `own_models`, each component keeps its name and only this item's models. Otherwise nothing changes. |
| KitTables.FirstMatch | py/ch2/sql/tables/kit.py:56-61 | The first table in search order that holds the name, and no earlier one does. |
| KitTables.Pick | py/ch2/sql/tables/kit.py:59 | `.first()`: some row of the requested table with that name. |
| KitTables.GetName | py/ch2/sql/tables/kit.py:54-63 | Searches Group, Item, Component, Model by default. Returns a row of the first table holding the name. With nothing found, raises iff `require`, otherwise returns None. |
| KitTables.AssertNameDoesNotExist | py/ch2/sql/tables/kit.py:66-69 | Raises iff the first table holding the name is not the one being added to. |
| KitTables.GetAllAt | py/ch2/sql/tables/kit.py:491-503 | Only models of the item, each added at or before the time. |
| KitTables.InUseWindow | py/ch2/sql/tables/kit.py:498-503 | In a consistent table a model is in use when it is added and, the interval being closed, when it is retired; it is not in use before it was added or after it was retired. |
| KitTables.HandoverBothInUse | py/ch2/sql/tables/kit.py:498-503 | At the moment one model replaces another, both are in use (closed interval). |
| KitTables.ExpandItem | py/ch2/sql/tables/kit.py:72-90 | Raises iff there is no such item. Returns the item and exactly its models in use at the time iff the item is in use then. Otherwise returns nothing. |
| KitTables.Lifetime | py/ch2/sql/tables/kit.py:171-174 | Retirement (or now) minus the added time. It is positive for a retired model. |
| KitTables.Siblings | py/ch2/sql/tables/kit.py:533-541 | The sibling query only returns models. |
| KitTables.AddedIsDuplicate | py/ch2/sql/tables/kit.py:454-463 | Once a model is in the tables, adding the same part (item, component, name) at its added time again is a duplicate. |
| KitTables.AddItemKeeps | py/ch2/sql/tables/kit.py:277-289 | Adding an item with a new name keeps the table invariant. |
| KitTables.FinishKeeps | py/ch2/sql/tables/kit.py:305-311 | Retiring an item keeps it. |
| KitTables.AddModelKeeps | py/ch2/sql/tables/kit.py:473-488 | So does adding a model with its sibling adjustment. |
| KitTables.FitModel | py/ch2/sql/tables/kit.py:473-488 | The new model is stamped at t and its nearest siblings are found. The earlier sibling is retired at t unless already retired by then; the new model is retired when the later one was added. The invariant holds after. |
| KitTables.UndoKeeps | py/ch2/sql/tables/kit.py:555-563 | Undoing a model keeps the table invariant. |
| KitTables.UnfitModel | py/ch2/sql/tables/kit.py:555-563 | Removes the model and its stamps, clears the earlier sibling's retirement, and re-retires it at the later sibling's added time when there is one. The invariant holds after. |
| KitTables.KitStore.AddItem | py/ch2/sql/tables/kit.py:277-286 | An existing item name is rejected. Otherwise the item is added with its added time iff its name is new to every table. |
| KitTables.KitStore.Finish | py/ch2/sql/tables/kit.py:305-311 | Raises iff the item is already retired and not forced. Otherwise exactly one retirement, at the date, remains. |
| KitTables.KitStore.AddModel | py/ch2/sql/tables/kit.py:446-488 | Rejects a duplicate (same item, component, name and time), and also a new name taken in another table. Otherwise fits the model as FitModel says, after which adding the same part at that time again is a duplicate. |
| KitTables.KitStore.Undo | py/ch2/sql/tables/kit.py:555-563 | As UnfitModel, on the store. |
| ActivityReader.ValueMatch | py/ch2/pipeline/read/activity.py:125-127 | The first of the comma-separated values that selects a sub-lookup, or None iff none does. |
| ActivityReader.DefineMatch | py/ch2/pipeline/read/activity.py:124-127 | Whatever it finds is a hit. |
| ActivityReader.DefineMatchNone | py/ch2/pipeline/read/activity.py:124-127 | It finds nothing iff no value of any define entry hits. |
| ActivityReader.DefineMatchFirst | py/ch2/pipeline/read/activity.py:124-127 | What it finds is the first hit in define order, then value order. |
| ActivityReader.ResolveGroup | py/ch2/pipeline/read/activity.py:118-146 | Resolves to an existing group. Otherwise the error is "ignored" exactly for the generic sport and fatal for any other. |
| ActivityReader.ResolutionOrder | py/ch2/pipeline/read/activity.py:122-134 | An entry for the sport wins over a define match, and a define match over `Default`. Only with none of them is the generic sport ignored and any other refused. |
| ActivityReader.ResolvedIsLeaf | py/ch2/pipeline/read/activity.py:118-134 | The resolved group is one of the names in the lookup. |
| ActivityReader.DefineIrrelevant | py/ch2/pipeline/read/activity.py:122-123 | When the sport is a key at every level, the define entries do not matter. |
| ActivityReader.BuildDefine | py/ch2/pipeline/read/activity.py:63-74 | A copy in which the command line's kit wins, the file name's kit is added only when none is given, and every other key and the key order are kept. |
| ActivityReader.BuildDefineIdempotent | py/ch2/pipeline/read/activity.py:63-74 | Building it twice from the same file name changes nothing more. |
| ActivityReader.BuildDefineDistinct | py/ch2/pipeline/read/activity.py:64-71 | No key is repeated. |
| ActivityReader.EventKinds | py/ch2/pipeline/read/activity.py:202-207 | `is_event`: a record is at most one of a timer start and a timer stop, and both are timer events. |
| ActivityReader.Initial | py/ch2/pipeline/read/activity.py:218-221 | Without timer starts, one timespan from the first to the final data record is open. |
| ActivityReader.Step | py/ch2/pipeline/read/activity.py:223-273 | A loop iteration keeps the invariant that an open timespan exists. |
| ActivityReader.Fold | py/ch2/pipeline/read/activity.py:223-273 | So does the whole loop. |
| ActivityReader.IgnoredRecords | py/ch2/pipeline/read/activity.py:223-273 | A start while a timespan is open, a stop while none is, and every record that is neither data nor an acted-on timer event leave the state unchanged. |
| ActivityReader.ActedOnEvents | py/ch2/pipeline/read/activity.py:225-273 | With starts, a start while no timespan is open appends a timespan beginning and ending at its time and opens it. A stop while one is open closes it at its time, keeping the others, and moves the journal finish there. |
| ActivityReader.SpansPerStart | py/ch2/pipeline/read/activity.py:225-231 | The pass adds at most one timespan per start event. |
| ActivityReader.LoadData | py/ch2/pipeline/read/activity.py:196-277 | The imperative loop computes exactly the specified pass. A file without data records fails. |
| ActivityReader.LoadedOrSkipped | py/ch2/pipeline/read/activity.py:233-263 | Every data record is either loaded or skipped as a duplicate. |
| ActivityReader.LastIsPreviousRecord | py/ch2/pipeline/read/activity.py:263-265 | The previous timestamp is the last data record's, loaded or not. Without starts the journal finish follows it. |
| ActivityReader.IncreasingLoadsAll | py/ch2/pipeline/read/activity.py:234 | Strictly increasing timestamps load every record and skip none. |
| ActivityReader.RepeatIsSkipped | py/ch2/pipeline/read/activity.py:260-262 | A record not later than the previous one is skipped, not loaded. |
| ActivityReader.NoStartOneSpan | py/ch2/pipeline/read/activity.py:218-265 | Without starts: exactly one timespan, from the first to the final data record, and the journal finishes at the final record. |
| ActivityReader.SpansFixedWithoutStarts | py/ch2/pipeline/read/activity.py:225-273 | Without starts, events never touch the timespans. |
| ActivityReader.FoldSpansFromEvents | py/ch2/pipeline/read/activity.py:225-273 | With starts, every timespan begins at a start event and a closed one ends at a stop event. |
| ActivityReader.SpansWithStarts | py/ch2/pipeline/read/activity.py:225-277 | With starts, no timespan is left open. Each ends at a stop or, when dangling, at the final record. The journal finish is the initial one or a stop's. There are no more timespans than starts. |
| KitTree.Size | ch2/commands/kit.py:240-256 | `__len__` is at least one and at least the number of leaves, and more than that for a node. |
| KitTree.Indent | ch2/commands/kit.py:237 | Every line gets a prefix and none is lost. |
| KitTree.Prefixed | ch2/commands/kit.py:235-238 | One child's lines keep their number. |
| KitTree.PrefixedAt | ch2/commands/kit.py:235-238 | A child's first line carries `+-` (`` `- `` when last), and each further line `| ` (two spaces when last). |
| KitTree.TreeLines | ch2/commands/kit.py:231-232 | The first line is the node's label, or the leaf's value. |
| KitTree.ChildlessNodeShowsTitle | ch2/commands/kit.py:231-235 | A node without children shows only its label. |
| KitTree.LinesMatchSize | ch2/commands/kit.py:231-256 | `tree_lines` yields exactly `len` lines. |
| KitTree.BlocksMatchSize | ch2/commands/kit.py:234-241 | The children's lines number the children's sizes. |
| KitTree.UnprefixBlocks | ch2/commands/kit.py:234-238 | Stripping the two-character prefixes gives back the children's own lines in order. |
| KitTree.OneStartPerChild | ch2/commands/kit.py:235-238 | Only a child's first line starts a child at this level. |
| KitTree.ChildStartsCount | ch2/commands/kit.py:234-238 | Exactly one line per child starts with `+-` or `` `- ``. |
| KitTree.LastChildMarked | ch2/commands/kit.py:233-238 | The lines of the last child close the block, prefixed `` `- `` then two spaces. |
| KitTree.InnerChildrenMarked | ch2/commands/kit.py:233-238 | Every line before them carries `+-` or `| `. |
| KitTree.CsvLines | ch2/commands/kit.py:224-250 | One line per leaf. |
| KitTree.CsvAll | ch2/commands/kit.py:225-226 | One line per leaf of the children. |
| KitTree.CsvPerLeaf | ch2/commands/kit.py:224-250 | One line per leaf, each the given line followed by the ancestors' labels with commas, then the value. |
| KitTree.CsvAllPerLeaf | ch2/commands/kit.py:224-226 | The same over a node's children. |
| KitTree.Stats | ch2/commands/kit.py:126-140 | A "[no data]" leaf for no values, one leaf for one value, else a node of four leaves. |
| KitTree.StatsLines | ch2/commands/kit.py:126-140 | With two or more values it prints five lines: the title, then Count, Sum and Average under `+-` and Median under `` `- ``. |
| Sector.Probe | js/src/components/pages/sector/Sector.jsx:112 | The probe is the upper middle, strictly between a and c while they are more than one apart. |
| Sector.Weights | js/src/components/pages/sector/Sector.jsx:119 | Returns the indices, and the two weights sum to the norm. |
| Sector.BracketOf | js/src/components/pages/sector/Sector.jsx:107-120 | Fails iff the track is empty. Otherwise it returns neighbouring indices: the lower at or below the value unless first, the upper above it unless last. |
| Sector.BracketEncloses | js/src/components/pages/sector/Sector.jsx:107-120 | For a value within the first and last entries, the bracket encloses it and both weights are non-negative. |
| Sector.BracketCount | js/src/components/pages/sector/Sector.jsx:109-118 | On an ascending column the lower index is the number of inner entries at or below the value, so it is determined by the value alone. |
| Sector.SplitSeconds | js/src/components/pages/sector/Sector.jsx:18-20 | Hours, minutes and seconds recompose the seconds, and select the branch. |
| Sector.HmsFields | js/src/components/pages/sector/Sector.jsx:17-23 | One field below a minute, two below an hour, three from an hour on. Every field is digits; fields after the first are two digits below 60. |
| Sector.HmsFieldSum | js/src/components/pages/sector/Sector.jsx:17-24 | Read in base 60, the fields give the seconds back. |
| Sector.Hms | js/src/components/pages/sector/Sector.jsx:17-24 | Splitting the label on `:` gives the fields. Below a minute the label is the plain number. |
| Sector.HmsRoundTrip | js/src/components/pages/sector/Sector.jsx:17-24 | Reading a label back gives the seconds it was made from. |
| Sector.Zip | js/src/components/pages/sector/Sector.jsx:138-143 | Fails iff there are no columns or a column is longer than the first. Otherwise it returns one row per entry of the first column, each mapping every column reaching it to its entry. |
| Sector.FirstRows | js/src/components/pages/sector/Sector.jsx:140 | The rows made from the first column hold it alone. |
| Sector.WriteColumn | js/src/components/pages/sector/Sector.jsx:141 | Entry i of a column goes into row i; rows beyond it are unchanged. |
| Sector.RowsStep | js/src/components/pages/sector/Sector.jsx:141 | Writing column j extends the rows of the first j columns to those of the first j + 1. |
| Sector.ZipUnzip | js/src/components/pages/sector/Sector.jsx:138-143 | With equal-length columns, reading a column back out of the rows gives the column. |
| Sector.ZipUnique | js/src/components/pages/sector/Sector.jsx:138-143 | The rows are determined by the columns. |
| Sector.Fastest | js/src/components/pages/sector/Sector.jsx:262-271 | Fails iff there are no journals. Otherwise it returns the first index with the smallest final time. |
| Sector.FromIndex | js/src/components/pages/sector/Sector.jsx:273-287 | Found iff some journal has the `from` id. Then it returns the last such index, else 0. |
| Binding.OrNone | choochoo/uweird/database.py:10 | None passes through; anything else goes to f. |
| Binding.DateOrdinalInverse | choochoo/uweird/database.py:14 | DATE_ORDINAL is an inverse pair. Writing succeeds exactly on None and valid ordinals. |
| Binding.ViewRead | choochoo/uweird/database.py:24-28 | A KeyError iff the name is absent. Without a transform the stored value is read unchanged. |
| Binding.ViewWrite | choochoo/uweird/database.py:30-33 | Raises iff the name's transform raises. A new name goes last; an existing one keeps its place. |
| Binding.ViewContains | choochoo/uweird/database.py:24-28 | True iff reading succeeds, false iff the name is absent. |
| Binding.ViewReadAll | choochoo/uweird/database.py:171 | Every name read in order, or the first failure. |
| Binding.ReadAfterWrite | choochoo/uweird/database.py:24-33 | With an inverse transform (or none), reading a written name gives the value written, and other names read as before. |
| Binding.TransformedView.constructor | choochoo/uweird/database.py:19-22 | The view holds the given dict and transforms. |
| Binding.TransformedView.Write | choochoo/uweird/database.py:30-33 | Writes through to the dict as ViewWrite says. A raise stores nothing. |
| Binding.TransformedView.Length | choochoo/uweird/database.py:38-39 | The length of the underlying dict. |
| Binding.TransformedView.Names | choochoo/uweird/database.py:41-42 | The keys of the underlying dict, in order. |
| Binding.TransformedView.Delete | choochoo/uweird/database.py:35-36 | Always raises. |
| Binding.DefaultsKeep | choochoo/uweird/database.py:81-84 | Defaults never overwrite a held value. |
| Binding.DefaultsAdd | choochoo/uweird/database.py:81-84 | An absent name gets its default. |
| Binding.DefaultsOnly | choochoo/uweird/database.py:81-84 | Nothing but held values and defaults appears. |
| Binding.Binder.constructor | choochoo/uweird/database.py:54-61 | Starts with the defaults filled and nothing bound. |
| Binding.Binder.Bind | choochoo/uweird/database.py:63-75 | Records the widget's column, plus its transform and default when given. |
| Binding.Binder.SetDefaults | choochoo/uweird/database.py:81-84 | Fills the defaults as FillDefaults says. |
| Binding.Binder.SaveValue | choochoo/uweird/database.py:86-88 | Stores the value untransformed under the widget's column. An unbound widget raises. |
| Binding.Marks | choochoo/uweird/database.py:169 | n question marks. |
| Binding.MarksCount | choochoo/uweird/database.py:169 | Joined, they hold exactly n `?`. |
| Binding.WriteCommandShape | choochoo/uweird/database.py:246-250 | The statement starts with its verb and holds one `?` per column. |
| Binding.AllKeys | choochoo/uweird/database.py:225-226 | True iff every key reads. No key names raises, and false means some key is absent. |
| Binding.StaticWriteStatement | choochoo/uweird/database.py:244-253 | A write executes one statement (unless it raises first): `replace` iff every key is present, else `insert`, with one value per column. |
| Binding.StaticInsertSetsKey | choochoo/uweird/database.py:254-256 | After an insert under one key name, the key reads as the new row id, other columns read as before, and the callback runs once if set. |
| Binding.StaticReplaceKeeps | choochoo/uweird/database.py:254-256 | A replace, or several key names, keeps the values. |
| Binding.StaticSaveWrites | choochoo/uweird/database.py:228-234 | Saving executes a statement iff autosave is on and every key is present. With autosave and a key missing it warns instead. The value is always stored. |
| Binding.StaticSaveAppends | choochoo/uweird/database.py:228-234 | A save adds at most one statement to the log and never changes earlier ones. |
| Binding.StaticTable.constructor | choochoo/uweird/database.py:217-223 | Starts with the given settings and an empty log. |
| Binding.StaticTable.WriteValues | choochoo/uweird/database.py:244-256 | Changes the form and log exactly as StaticWrite says. |
| Binding.StaticTable.SaveWidgetValue | choochoo/uweird/database.py:228-234 | Changes the form and log exactly as StaticSave says. |
| Binding.StaticTable.Autosave | choochoo/uweird/database.py:230-234 | Writes, or warns, as StaticAutosave says. |
| Binding.StoreRow | choochoo/uweird/database.py:183-186 | A row stored without a raise held every name. |
| Binding.DynamicSameKey | choochoo/uweird/database.py:131-141 | A value that does not change the key only stores it: no statement and no broadcast. |
| Binding.DynamicReadSelects | choochoo/uweird/database.py:175-188 | A read that gets the key executes one `select` of the widgets' columns with the key. |
| Binding.DynamicLoadSelects | choochoo/uweird/database.py:137-139 | A completed load stores the value, selects its row and broadcasts once. |
| Binding.DynamicChangeSteps | choochoo/uweird/database.py:131-139 | A change of key writes first iff a key is held, then loads. |
| Binding.DynamicKeyChange | choochoo/uweird/database.py:131-141 | A completed change of key executes a `replace` of the current row iff a key was held, then the `select` of the new key, and broadcasts once. |
| Binding.DynamicTable.constructor | choochoo/uweird/database.py:117-120 | No key bound and an empty log. |
| Binding.DynamicTable.BindKey | choochoo/uweird/database.py:122-125 | Records the key widget and name and binds it. Nothing else changes. |
| Binding.DynamicTable.WriteValues | choochoo/uweird/database.py:165-173 | Appends the `replace` as DynamicWrite says. |
| Binding.DynamicTable.ReadValues | choochoo/uweird/database.py:175-188 | Changes the form and log as DynamicRead says. |
| Binding.DynamicTable.Load | choochoo/uweird/database.py:137-139 | Stores, reads and broadcasts as DynamicLoad says. |
| Binding.DynamicTable.ChangeKey | choochoo/uweird/database.py:133-139 | Writes when a key is held, then loads, as DynamicChangeKey says. |
| Binding.DynamicTable.SaveWidgetValue | choochoo/uweird/database.py:131-141 | Follows DynamicSave: through the database only on a change of key. |
| ActivityStatistic.FormatSeconds | choochoo/squeal/tables/activity.py:129-144 | The field-by-field loop yields exactly the seconds text as written, quirks included. |
| ActivityStatistic.SecondsShape | choochoo/squeal/tables/activity.py:129-144 | Every seconds text ends in `s`. It begins with a digit iff the value is not negative. |
| ActivityStatistic.ReadBackSeconds | choochoo/squeal/tables/activity.py:140-143 | Up to 60 seconds the text reads back exactly. |
| ActivityStatistic.ReadBackMinutes | choochoo/squeal/tables/activity.py:134-143 | Above 60 and up to 3600, the text shows the minutes and `n % 80` seconds. |
| ActivityStatistic.ReadBackHours | choochoo/squeal/tables/activity.py:131-144 | Beyond 3600 it shows the hours and `n % 60` seconds; the minutes of the last hour are lost. |
| ActivityStatistic.ReadBackExact | choochoo/squeal/tables/activity.py:129-144 | The text reads back exactly iff neither quirk applies. |
| ActivityStatistic.MinutesMisread | choochoo/squeal/tables/activity.py:139 | 150 seconds is shown "2m70s", which reads as 190. |
| ActivityStatistic.HoursMisread | choochoo/squeal/tables/activity.py:133 | 3700 seconds is shown "1hr40s", which reads as 3640. |
| ActivityStatistic.ReadAfterHours | choochoo/squeal/tables/activity.py:134-143 | The fields after a corrected hours field read back as the remaining seconds. |
| ActivityStatistic.ReadFixedMinutes | choochoo/squeal/tables/activity.py:134-143 | The corrected text above 60 and up to 3600 seconds reads back exactly. |
| ActivityStatistic.ReadFixedHours | choochoo/squeal/tables/activity.py:131-143 | The corrected text beyond an hour reads back exactly. |
| ActivityStatistic.FixedRoundTrip | choochoo/squeal/tables/activity.py:129-144 | The corrected text reads back as exactly the seconds for every value. |
| ActivityStatistic.FmtValue | choochoo/squeal/tables/activity.py:122-152 | Metres up to 2000 give `<n>m`, seconds the seconds text, and bpm `<n>bpm`. The floating-point branches give None, and only they do. |
| ActivityStatistic.NumberBeforeSuffix | choochoo/squeal/tables/activity.py:128 | A `<number><unit>` text gives back its number. |
| Text.IntToString | choochoo/squeal/tables/activity.py:143 | `'%d'`: a leading digit iff not negative, else `-` and the digits. |
| Text.Pad2 | choochoo/squeal/tables/activity.py:141 | `'%02d'`: at least two digits, exactly two below 100. |
| Text.Split | py/ch2/pipeline/read/activity.py:125 | `split(',')`: one more part than separators, none holding the separator. |
| OrderedMaps.Put | py/ch2/pipeline/read/activity.py:71 | Dict assignment: an existing key keeps its place, a new one goes last, and other keys keep their values. |

## Left out

- `Composite.clean` (response.py:77, 81) and `round_hour` in `lib/date` are not part of this model. Deleting composites is modelled as a cascade over the store. `round_hour` is taken to round to the start or end of the hour.
- Response: `calc_response`, `sum_to_hour`, the coverage and fill of `__read_data` and the SCALED column are floating-point numerics over data frames. Only the tag each output gets is modelled, not its value or the loader write.
- Response.ProvenanceStore.Missing: returns an error when the journal has no time after 1 second. There `round_hour(None)` would raise.
- Response: `_delete` (the command-line start and the force flag), sessions, commits and logging are left out.
- HeartRate.PeaksFrom: scipy's `find_peaks` is not part of this model. A peak is taken to be the middle (rounding down) of a plateau with a smaller count on each side, as `find_peaks` does with no extra arguments. Samples are reals, and the NaN handling of `pd.cut` is left out.
- KitTables: `_add_timestamp` with a composite source, `add_use`, `active_times`/`active_distances`, and the AGE entry of `_add_individual_statistics` are queries over composites of activity sources. They are left out.
- KitTables: `_add_population_statistics` is left out, as are `KitGroup.get_or_add`, the `KitComponent` lookups, `KitModel.get`/`get_all`, `to_model`'s depth recursion with `fmt_time`, and `delete`.
- KitTables.LatestBefore: when several siblings share the nearest added time, the database's `.first()` picks one. The model allows any of them.
- KitTables.Lifetime: the current time is a parameter. Times are integers, not datetimes.
- The command functions of ch2/commands/kit.py (`group_statistics` … `model_statistics` and the CLI commands) are left out. `display`, `tree` and `csv` print to an output stream; the model returns the lines instead.
- KitTree.Stats: the average and the median are left abstract. `fmt` and `median` are parameters.
- KitTree.TreeLines: `child is last` compares object identity. The model marks only the child at the final position. So a node holding the same child object twice, which would mark both occurrences, is not modelled.
- ActivityReader: FIT parsing (`read_fit`, `parse_records`, `read_sport`, its first and last timestamps) and `split_fit_path` are left out; the sport, the records and the kit from the file name are parameters. Also left out: `_create_activity`, `_load_define`, `_save_name`, the per-field loader, the km division, Web Mercator, elevation and PostGIS.
- ActivityReader.LoadData: keeps only the timestamp bookkeeping. The `logged` counter only gates debug logging and is left out.
- ActivityReader.ResolveGroup: `_lookup_activity_group` is modelled as membership in the set of existing groups.
- ActivityReader.Hit: only a table entry under a define key can be hit. In the source, `value in lookup[key]` on a string entry is a substring test, and when it succeeds the next level raises a TypeError on indexing the string. The model treats a string entry as no match, so that failure is not modelled.
- Sector: React/visx rendering, the floating-point `interpolate`, and `sort` (its `instanceof String` comparator) are left out. JavaScript numbers are reals (track columns) or integers (seconds, ids). `last()` gives the final times as a parameter. `parseInt(from)` is an `Option<int>`, and the React state guards are left out.
- Sector.HmsFields: whole non-negative seconds only. Negative and fractional seconds are left out.
- Binding: urwid signal wiring (`connect_signal`, `connect`), `bootstrap` and the widget setters of `_broadcast_values_to_widgets` are left out. Broadcasts are only counted.
- Binding: sqlite execution is recorded as a statement log. `StaticBinder.save`/`reset`, `SingleTableStatic.read_row`/`read_values_from_db` and the insert callback's body are left out.
- Binding.KeyChanges: assumes every widget is truthy (`if widget`).
- Binding: the binder and its views hold their own copies of `defaults` and `transforms`. In the source they share the caller's dicts, so a change the caller makes later would show through. That aliasing is not modelled.
- ActivityStatistic.FmtValue: the floating-point branches (metres above 2000, km/h, percent, any other unit) are returned as None. The value is an integer, so `int()` of a float is not modelled.
- ActivityStatistic: the corrected seconds formatter is a function with its round-trip lemma. There is no imperative version.
- The ORM column declarations and everything else outside these eight parts are left out.

## Findings

| source | as written | input that shows it | evidently intended | confidence | as-written member | corrected member |
|---|---|---|---|---|---|---|
| choochoo/squeal/tables/activity.py:139 | the seconds field after minutes is `value % 80` | 150 seconds gives "2m70s" | `value % 60`, giving "2m30s" | not executed | ActivityStatistic.MinutesMisread | ActivityStatistic.FixedRoundTrip |
| choochoo/squeal/tables/activity.py:133 | after the hours field `value %= 60` drops the minutes of the last hour | 3700 seconds gives "1hr40s" | `value %= 3600`, giving "1hr01m40s" | not executed | ActivityStatistic.HoursMisread | ActivityStatistic.FixedRoundTrip |
