# imgui-command-palette: the palette core in Dafny

This project models the core of an ImGui command palette. An application
registers named commands. The user picks one from a filterable list, and
the command may prompt the user for further choices, possibly several
times, before it finishes. The model covers four parts:

- **The command registry** (`Commands`). `CommandRegistry` keeps its
  commands sorted by byte-wise `strcmp` on their names. `AddCommand` inserts
  at the `lower_bound` position. `RemoveCommand` erases the whole
  `equal_range` of a name.
- **The execution context** (`Execution`). `ExecutionContext` holds the
  running command, the options of the current prompt and the depth, which
  counts the prompts made so far. `Initiate`, `Prompt` and `Finish` drive it.
- **Search results** (`Search`, `Highlight`). The palette runs the fuzzy
  matcher over the current source list (command names at depth 0, the
  prompt's options deeper). It keeps the hits and sorts them by descending
  score. When a result is drawn, its matched offsets are split into
  highlighted runs.
- **The palette** (`Palette`). `CommandPalette` resolves a row to a command
  or an option, directly or through a search result. It rebuilds the
  results when the query changes, moves the focus with the arrow keys,
  tracks visibility, and drives the context when the focused row is
  selected.

C strings are byte sequences without their terminator (`CStr`, bytes
1..255). The search text is a fixed 256-byte buffer (`array<Byte>`), and
the query is empty when byte 0 is the terminator.

A user callback is modelled by its effect on the context, a `Reaction`: a
run of `Prompt` calls, then `Finish` when its flag is set. The subsequent
callback is a function from the execution depth and the chosen option's
ordinal to a `Reaction`, so a command can prompt several levels deep.
For the terminating callback the model records only whether it is set, and
`SelectFocusedItem` returns whether it ran.

The fuzzy matcher's body is not part of this model. It appears only as a
parameter `matcher: (CStr, CStr) -> Option<Match>` of the operations that
call it.

The running command is held by value, not by pointer.

Several specification functions have no contract of their own. The lemmas
and methods in the table below are stated in terms of them:

- `Commands.Without(s, name)` is the list `s` without the commands called
  `name`, in the same order. It is what `RemoveCommand` must leave
  (imcmd_command_palette.cpp:30-50).
- `Execution.PromptStep`, `Execution.AfterPrompts` and
  `Execution.AfterReaction` give the context state after one `Prompt`, after
  a run of them, and after a whole callback (imcmd_command_palette.cpp:79-92).
- `Search.Hits(matcher, pattern, texts, n)` is the list of matcher results
  for the first `n` texts that match, in source order. It is what the
  matching loop of the rebuild collects (imcmd_command_palette.cpp:306-320).

The code behaves as follows where a reader might expect otherwise:

- Names need not be unique. `AddCommand` accepts duplicates, and
  `RemoveCommand` removes every command with the name.
- Equal scores are not kept in source order. `std::sort` is not stable, so
  the rebuild promises only a permutation of the hits ordered by
  non-increasing score (`Search.IsRanking`).
- Selecting with the focus outside the rows does not fail. It is a silent
  no-op (imcmd_command_palette.cpp:205-207).
- `RemoveCommand` compares the two ends of the equal range after `erase`
  has invalidated them (imcmd_command_palette.cpp:46-49). The model compares
  them before the erase, which is what the comparison evidently means.
- `Prompt` and `Finish` without a running command, and the assertions in
  `SelectFocusedItem`, are debug assertions (`IM_ASSERT`). The model turns
  them into preconditions, as it does with out-of-range vector indexing.

## Model

| member | source | states |
|---|---|---|
| CStrings.StrcmpZeroIffEqual | imcmd_command_palette.cpp:22-24 | `strcmp` is zero exactly for equal names |
| CStrings.StrcmpAntisymmetric | imcmd_command_palette.cpp:34-42 | swapping the arguments of `strcmp` flips its sign, so the two comparator overloads of `equal_range` agree |
| CStrings.LessTransitive | imcmd_command_palette.cpp:22-24 | the `strcmp < 0` comparator is transitive |
| CStrings.Trichotomy | imcmd_command_palette.cpp:22-24 | any two names are ordered one way or the other, or are equal |
| CStrings.NotLessTransitive | imcmd_command_palette.cpp:22-24 | "not below" is transitive, so a sorted registry is totally ordered |
| CStrings.CPrefix | imcmd_command_palette.h:82 | the query a `char*` into the buffer denotes: its bytes agree with the buffer, and a terminator follows them when they stop short of the end |
| CStrings.CPrefixOfTerminated | imcmd_command_palette.cpp:293 | a buffer holding a string and then a terminator denotes exactly that string |
| Commands.LowerBound | imcmd_command_palette.cpp:18-24 | every name before the position is below the new name; the name at the position is not |
| Commands.LowerBoundPartitions | imcmd_command_palette.cpp:18-24 | on a sorted registry, no name from the lower bound on is below the new name |
| Commands.UpperBound | imcmd_command_palette.cpp:45 | no name before the position is above `name`; the name at the position is |
| Commands.UpperBoundPartitions | imcmd_command_palette.cpp:45 | on a sorted registry, every name from the upper bound on is above `name` |
| Commands.InsertAtLowerBound | imcmd_command_palette.cpp:16-25 | inserting at the lower bound grows the list by one and keeps it sorted; the new command follows every smaller name and precedes every equal or larger one |
| Commands.WithoutMembers | imcmd_command_palette.cpp:30-50 | a command survives removal iff it was present and has a different name |
| Commands.EraseRun | imcmd_command_palette.cpp:46 | cutting out a run of `name`s that no other command shares leaves exactly the commands not called `name`, in order |
| Commands.EqualRangeBounds | imcmd_command_palette.cpp:45 | on a sorted registry the equal range holds exactly the commands called `name` |
| Commands.EqualRangeErase | imcmd_command_palette.cpp:45-49 | erasing the equal range removes exactly the commands called `name` and keeps the rest in order; the range is non-empty iff the name occurs |
| Commands.SortedAfterErase | imcmd_command_palette.cpp:46 | erasing a contiguous range keeps the registry sorted |
| Commands.CommandRegistry.AddCommand | imcmd_command_palette.cpp:16-28 | the command is inserted at the lower bound of its name, the count grows by one, and the registry stays sorted |
| Commands.CommandRegistry.RemoveCommand | imcmd_command_palette.cpp:30-50 | the new list is the old one without the commands called `name`, in the same order; the result is true iff one was there; the registry stays sorted |
| Execution.AfterPromptsClosedForm | imcmd_command_palette.h:61-64 | after a run of prompts the command is unchanged, the depth has grown by the number of prompts, and the options are those of the last prompt |
| Execution.ReactionKeepsWellFormed | imcmd_command_palette.cpp:79-92 | a callback's prompts and finish leave a reachable state; the command ends iff the callback finished it |
| Execution.ExecutionContext.constructor | imcmd_command_palette.h:49-51 | a fresh context has no command, no options and depth 0 |
| Execution.ExecutionContext.Initiate | imcmd_command_palette.cpp:72-77 | the command is set only when none is running; otherwise nothing changes |
| Execution.ExecutionContext.Prompt | imcmd_command_palette.cpp:79-84 | needs a running command; replaces the options, adds one to the depth, keeps the command |
| Execution.ExecutionContext.Finish | imcmd_command_palette.cpp:86-92 | needs a running command; afterwards there is no command, no options, depth 0, and the context is not initiated |
| Execution.ExecutionContext.RunCallback | imcmd_command_palette.h:26-27 | a callback's `Prompt` and `Finish` calls take the context to the state its effect prescribes |
| Search.HitsSound | imcmd_command_palette.cpp:306-320 | each hit names a source index below the count and carries the matcher's score and offsets for it; indices increase; an index is present iff the matcher accepted its text |
| Search.HitsStep | imcmd_command_palette.cpp:314-319 | one more iteration appends the next text's result iff it matched |
| Search.InsertByScorePermutes | imcmd_command_palette.cpp:322-328 | an insertion step of the sort adds exactly the inserted result |
| Search.InsertByScoreMembers | imcmd_command_palette.cpp:322-328 | an insertion step introduces no value other than the inserted one |
| Search.InsertByScoreRanks | imcmd_command_palette.cpp:322-328 | an insertion step keeps the results ordered by non-increasing score |
| Search.SortByScore | imcmd_command_palette.cpp:322-328 | one order the sort may produce: a permutation of its input with the biggest score first |
| Search.DistinctOnce | imcmd_command_palette.cpp:306-320 | results with distinct indices hold each value at most once |
| Search.PermutationKeepsDistinct | imcmd_command_palette.cpp:322-328 | any reordering the sort chooses still has no index twice |
| Search.RankedHits | imcmd_command_palette.cpp:296-328 | after a rebuild, whatever order the sort chose: every index is valid and matched, no index appears twice, an index is present iff the matcher accepted it, and scores never increase |
| Highlight.HighlightedAppend | imcmd_command_palette.cpp:418 | one more draw highlights exactly its own range in addition |
| Highlight.SegmentedAppend | imcmd_command_palette.cpp:418-421 | a draw that starts where the last highlight ended keeps the walk over the text gap-free and ordered |
| Highlight.ExtendStep | imcmd_command_palette.cpp:414-416 | an offset that continues the run extends the open range by one |
| Highlight.BreakStep | imcmd_command_palette.cpp:417-422 | an offset that breaks the run closes the open range as a draw and opens a new one |
| Highlight.FinalStep | imcmd_command_palette.cpp:427-430 | drawing the open range after the last offset completes a gap-free walk whose highlights are exactly the matched offsets |
| Highlight.HighlightRanges | imcmd_command_palette.cpp:406-433 | the draws walk the text from offset 0 without gaps or overlap; the highlighted bytes are exactly the matched offsets, grouped in maximal runs; the rest is drawn plain from the end of the last range |
| Palette.CommandPalette.constructor | imcmd_command_palette.h:81-84 | a fresh palette has focus 0, is hidden, has no pending search-box focus, has an idle context and an all-zero (empty) search buffer |
| Palette.CommandPalette.GetItemCount | imcmd_command_palette.cpp:135-151 | the row count is the result count while searching, else the size of the source list (registry or options) |
| Palette.CommandPalette.GetItem | imcmd_command_palette.cpp:153-192 | the item type is `CommandItem` iff depth is 0; the index type is direct iff the query is empty; the id is the row (direct) or the result's item index (search); the text and command are the source element at that id |
| Palette.CommandPalette.InvalidateSearchResults | imcmd_command_palette.cpp:212-216 | the query buffer is zeroed, the results are emptied and the focus is 0 |
| Palette.CommandPalette.CollectHits | imcmd_command_palette.cpp:299-320 | the matching loop yields exactly the hits of the source list, in source order |
| Palette.CommandPalette.RebuildSearchResults | imcmd_command_palette.cpp:296-328 | focus becomes 0; the results are a ranking of the hits over the current source list; every result's index is in range |
| Palette.CommandPalette.EditSearchText | imcmd_command_palette.cpp:293-296 | after an edit the buffer denotes the new query and the results are rebuilt for it |
| Palette.CommandPalette.SelectFocusedItem | imcmd_command_palette.cpp:203-252 | a no-op outside the rows; at depth 0 the command is initiated and its initial callback run, or finished at once without one, and the search is reset only if it is still running; deeper, the subsequent callback gets the unfiltered option ordinal and the search is always reset; once idle, the terminating callback runs and the window closes |
| Palette.CommandPalette.SetVisible | imcmd_command_palette.cpp:259-267 | visibility becomes the argument; a hidden-to-visible edge requests search-box focus |
| Palette.CommandPalette.BeginFrame | imcmd_command_palette.cpp:271-291 | a hidden palette is left alone; a visible one stays visible iff its window still has focus, and a pending search-box focus request is consumed and reported |
| Palette.CommandPalette.MoveFocusUp | imcmd_command_palette.cpp:450-451 | the focus moves up by one and never below 0 |
| Palette.CommandPalette.MoveFocusDown | imcmd_command_palette.cpp:452-453 | the focus moves down by one and never past the last row; with rows present it lands on a row; with none it becomes -1, which selection ignores |

## Left out

- Drawing and layout are not modelled: window placement and size, the input box, the child window, drawing text and rectangles, measuring text, hover and held state (`m_Items`), and key polling (imcmd_command_palette.cpp:269-293, 331-448). The integer logic inside them is modelled: the rebuild, the highlight split and the focus clamp.
- Selecting by clicking a row (imcmd_command_palette.cpp:444-447) depends on ImGui's button behaviour. Its effect is setting the focus and then `SelectFocusedItem`.
- The fuzzy matcher's scoring and its 32-offset capacity belong to code that is not part of this model (imcmd_fuzzy_search.h:9-10). It is a parameter with no assumed properties.
- Whether the palette window has focus (imcmd_command_palette.cpp:281) and moving the keyboard focus to the search box (290) are ImGui state. The first is a parameter of `BeginFrame`, which returns the second.
- A callback's effect depends only on the depth and, for the subsequent callback, on the chosen option. State a `std::function` captures and changes between calls is not modelled.
- Callbacks are modelled by their calls on the context. A callback that calls `Initiate`, calls `Prompt` after `Finish`, or changes the registry is not modelled. The pointer to the running command that such a change could leave dangling (imcmd_command_palette.cpp:225) is replaced by a value.
- `GetCommandCount`, `GetCommand`, `GetCurrentCommand`, `IsInitiated`, `GetExecutionDepth` and `IsVisible` are plain reads. The model reads the fields, with no contracts of their own.
- `int` overflow of the depth and the focus after 2^31 steps is not modelled. Both are unbounded integers.
- Option strings are `std::string`, which may contain NUL bytes. The model treats them as C strings, as the palette only ever uses them through `c_str()`.
- The registry does not invalidate the search results when it changes (imcmd_command_palette.cpp:27, 48). So `GetItem` and `SelectFocusedItem` require the selected result to name an existing element.
- Palette.CommandPalette.SelectFocusedItem: an initial callback that neither prompts nor finishes leaves the command running at depth 0 with the window open on the registry (`Scenarios.SilentInitialCallback` reaches this state). The next selection then violates the debug assertion at imcmd_command_palette.cpp:220, which the model's precondition excludes. With assertions compiled out, `Initiate` is ignored and the new command's callbacks run against the old running command; that behaviour is not modelled.
- Search.SortByScore: fixes one order among equal scores. The rebuild's contract promises only what `std::sort` does: some permutation ordered by non-increasing score.
- Highlight.HighlightRanges: requires the offsets to increase strictly, which is how the matcher reports them. The loop's output for other offset lists is not stated.
- RebuildSearchResults: builds the hits in a local list and then assigns it to the results, where the code pushes directly into `m_SearchResults`. The sort is modelled on values, not in place.
