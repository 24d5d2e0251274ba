/**
 * `CommandPalette`: resolves the rows it shows to commands or options, rebuilds
 * the search results when the query changes, and drives the execution context
 * when the focused row is selected. Drawing and input polling are not modelled;
 * the integer logic embedded in them is.
 */
module Palette {
  import opened Wrappers
  import opened CStrings
  import opened Commands
  import opened Execution
  import opened Search

  /** `m_SearchText` holds `std::numeric_limits<uint8_t>::max() + 1` chars. */
  const SearchCapacity: nat := 256

  datatype ItemType = CommandItem | CommandOptionItem
  datatype IndexType = DirectIndex | SearchResultIndex

  /** `Item::ItemInfo`, with the associated command held by value. */
  datatype ItemInfo = ItemInfo(
    text: CStr,
    associatedCommand: Command,
    itemId: int,
    itemType: ItemType,
    indexType: IndexType)

  class CommandPalette {
    const registry: CommandRegistry
    const ctx: ExecutionContext
    const searchText: array<Byte>
    var searchResults: seq<SearchResult>
    var focusedItemId: int
    var focusSearchBox: bool
    var windowVisible: bool

    /**
     * The buffer has its fixed capacity, the context is in a reachable state,
     * the focus never drops below -1 and no item index appears twice among the
     * results.
     */
    ghost predicate Valid()
      reads this, ctx, searchText
    {
      && searchText.Length == SearchCapacity
      && ctx.Valid()
      && focusedItemId >= -1
      && DistinctIndices(searchResults)
      && (forall k :: 0 <= k < |searchResults| ==> searchResults[k].itemIndex >= 0)
    }

    /** A fresh palette: focus 0, hidden, no pending focus of the search box, empty query. */
    constructor (registry: CommandRegistry)
      ensures Valid() && this.registry == registry
      ensures fresh(ctx) && fresh(searchText)
      ensures ctx.State() == Idle
      ensures searchResults == [] && focusedItemId == 0
      ensures !focusSearchBox && !windowVisible
      ensures forall i :: 0 <= i < searchText.Length ==> searchText[i] == 0
    {
      this.registry := registry;
      ctx := new ExecutionContext();
      searchText := new Byte[SearchCapacity](_ => 0);
      searchResults := [];
      focusedItemId := 0;
      focusSearchBox := false;
      windowVisible := false;
    }

    /** The query is non-empty: its first byte is not the terminator. */
    predicate SearchActive()
      reads this, searchText
      requires searchText.Length == SearchCapacity
    {
      searchText[0] != 0
    }

    /** The query as the matcher sees it: the buffer up to its terminator. */
    function Pattern(): CStr
      reads this, searchText
    {
      CPrefix(searchText[..])
    }

    /** The list the rows come from: command names at depth 0, else the prompt's options. */
    function Sources(): seq<CStr>
      reads this, ctx, registry
    {
      if ctx.depth == 0 then Names(registry.commands) else ctx.options
    }

    /** `Item::GetItemCount`: the source list's size, or the result count while searching. */
    function GetItemCount(): (n: nat)
      reads this, ctx, registry, searchText
      requires Valid()
      ensures n == if SearchActive() then |searchResults| else |Sources()|
    {
      if ctx.GetExecutionDepth() == 0 then
        if !SearchActive() then |registry.commands| else |searchResults|
      else
        if !SearchActive() then |ctx.options| else |searchResults|
    }

    /** The result at `idx` (if searching) names an element of the source list. */
    predicate Resolvable(idx: int)
      reads this, ctx, registry, searchText
      requires Valid()
    {
      SearchActive() && 0 <= idx < |searchResults| ==> searchResults[idx].itemIndex < |Sources()|
    }

    /**
     * `Item::GetItem`: row `idx` resolved directly, or through the search
     * result at `idx`, to a command (depth 0) or an option of the running
     * command (deeper).
     */
    function GetItem(idx: int): (item: ItemInfo)
      reads this, ctx, registry, searchText
      requires Valid() && 0 <= idx < GetItemCount() && Resolvable(idx)
      ensures item.itemType == CommandItem <==> ctx.depth == 0
      ensures item.indexType == DirectIndex <==> !SearchActive()
      ensures item.itemId == if SearchActive() then searchResults[idx].itemIndex else idx
      ensures 0 <= item.itemId < |Sources()| && item.text == Sources()[item.itemId]
      ensures item.associatedCommand ==
        if ctx.depth == 0 then registry.commands[item.itemId] else ctx.command.value
    {
      if ctx.GetExecutionDepth() == 0 then
        if !SearchActive() then
          var command := registry.commands[idx];
          ItemInfo(command.name, command, idx, CommandItem, DirectIndex)
        else
          var id := searchResults[idx].itemIndex;
          var command := registry.commands[id];
          ItemInfo(command.name, command, id, CommandItem, SearchResultIndex)
      else
        if !SearchActive() then
          ItemInfo(ctx.options[idx], ctx.command.value, idx, CommandOptionItem, DirectIndex)
        else
          var id := searchResults[idx].itemIndex;
          ItemInfo(ctx.options[id], ctx.command.value, id, CommandOptionItem, SearchResultIndex)
    }

    /** The focused row exists. */
    predicate FocusInRange()
      reads this, ctx, registry, searchText
      requires Valid()
    {
      0 <= focusedItemId < GetItemCount()
    }

    /** The query, the results and the focus were all reset. */
    ghost predicate Invalidated()
      reads this, searchText
    {
      && searchResults == []
      && focusedItemId == 0
      && (forall i :: 0 <= i < searchText.Length ==> searchText[i] == 0)
    }

    /** The `InvalidateSearchResults` step of a selection. */
    method InvalidateSearchResults()
      requires Valid()
      modifies this`searchResults, this`focusedItemId, searchText
      ensures Valid() && Invalidated() && !SearchActive()
    {
      forall i | 0 <= i < searchText.Length {
        searchText[i] := 0;
      }
      searchResults := [];
      focusedItemId := 0;
    }

    /**
     * The matching pass of the rebuild: every element of the source list, in
     * order, is run through the matcher against the query, and each hit is
     * appended with its index, score and offsets.
     */
    method CollectHits(matcher: Matcher) returns (hits: seq<SearchResult>)
      ensures hits == Hits(matcher, Pattern(), Sources(), |Sources()|)
    {
      hits := [];
      var itemCount := if ctx.GetExecutionDepth() == 0 then |registry.commands| else |ctx.options|;
      var pattern := Pattern();
      ghost var texts := Sources();
      for i := 0 to itemCount
        invariant hits == Hits(matcher, pattern, texts, i)
      {
        var text := if ctx.GetExecutionDepth() == 0 then registry.commands[i].name else ctx.options[i];
        HitsStep(matcher, pattern, texts, i);
        var found := matcher(pattern, text);
        if found.Some? {
          hits := hits + [SearchResult(i, found.value.score, found.value.matches)];
        }
      }
    }

    /**
     * The rebuild after the query changed: focus the first row, collect the
     * hits and sort them by descending score.
     */
    method RebuildSearchResults(matcher: Matcher)
      requires Valid()
      modifies this`searchResults, this`focusedItemId
      ensures Valid()
      ensures focusedItemId == 0
      ensures IsRanking(searchResults, Hits(matcher, Pattern(), Sources(), |Sources()|))
      ensures forall k :: 0 <= k < |searchResults| ==> searchResults[k].itemIndex < |Sources()|
    {
      focusedItemId := 0;
      searchResults := CollectHits(matcher);
      searchResults := SortByScore(searchResults);
      RankedHits(matcher, Pattern(), Sources(), searchResults);
    }

    /**
     * The search box was edited: the buffer now holds `text`, terminated, and
     * the results are rebuilt for it.
     */
    method EditSearchText(text: CStr, matcher: Matcher)
      requires Valid() && |text| < SearchCapacity
      modifies this`searchResults, this`focusedItemId, searchText
      ensures Valid()
      ensures Pattern() == text && (SearchActive() <==> text != [])
      ensures focusedItemId == 0
      ensures IsRanking(searchResults, Hits(matcher, text, Sources(), |Sources()|))
      ensures forall k :: 0 <= k < |searchResults| ==> searchResults[k].itemIndex < |Sources()|
    {
      forall i | 0 <= i < |text| {
        searchText[i] := text[i];
      }
      searchText[|text|] := 0;
      CPrefixOfTerminated(searchText[..], text);
      RebuildSearchResults(matcher);
    }

    /**
     * `SelectFocusedItem`, returning whether the command's terminating
     * callback was invoked. Nothing happens when the focus is outside the
     * rows. At depth 0 the command is initiated and its initial callback run
     * (or, without one, the command is finished at once); deeper, the
     * subsequent callback gets the depth and the option's ordinal in the
     * unfiltered list, and the query, results and focus are reset. Once the context is idle,
     * the terminating callback runs and the window closes.
     */
    method SelectFocusedItem() returns (terminated: bool)
      requires Valid()
      requires Resolvable(focusedItemId)
      requires FocusInRange() && ctx.depth == 0 ==> !ctx.IsInitiated()
      requires FocusInRange() && ctx.depth > 0 ==> ctx.command.value.subsequent.Some?
      modifies this`searchResults, this`focusedItemId, this`focusSearchBox, this`windowVisible
      modifies ctx, searchText
      ensures Valid()
      ensures !old(FocusInRange()) ==> unchanged(this, ctx, searchText) && !terminated
      ensures old(FocusInRange()) && old(ctx.depth) == 0 ==>
        var command := old(GetItem(focusedItemId)).associatedCommand;
        var after := if command.initial.Some?
                     then AfterReaction(Exec(Some(command), [], 0), command.initial.value)
                     else Idle;
        && ctx.State() == after
        && focusSearchBox == (old(focusSearchBox) || command.initial.Some?)
        && (after.command.Some? ==> Invalidated() && windowVisible == old(windowVisible) && !terminated)
        && (after.command.None? ==>
              && searchResults == old(searchResults) && focusedItemId == old(focusedItemId)
              && unchanged(searchText)
              && !windowVisible && terminated == command.terminating)
      ensures old(FocusInRange()) && old(ctx.depth) > 0 ==>
        var item := old(GetItem(focusedItemId));
        var after := AfterReaction(old(ctx.State()), item.associatedCommand.subsequent.value(old(ctx.depth), item.itemId));
        && ctx.State() == after
        && focusSearchBox && Invalidated()
        && windowVisible == (old(windowVisible) && after.command.Some?)
        && terminated == (after.command.None? && item.associatedCommand.terminating)
      ensures old(FocusInRange()) && !ctx.IsInitiated() ==> !windowVisible
    {
      terminated := false;
      var itemCount := GetItemCount();
      if focusedItemId < 0 || focusedItemId >= itemCount {
        return;
      }
      var selectedItem := GetItem(focusedItemId);
      var command := selectedItem.associatedCommand;
      var depth := ctx.GetExecutionDepth();
      if depth == 0 {
        ctx.Initiate(command);
        if command.initial.Some? {
          ctx.RunCallback(command.initial.value);
          focusSearchBox := true;
          if ctx.IsInitiated() {
            InvalidateSearchResults();
          }
        } else {
          ctx.Finish();
        }
      } else {
        ctx.RunCallback(command.subsequent.value(depth, selectedItem.itemId));
        focusSearchBox := true;
        InvalidateSearchResults();
      }
      if !ctx.IsInitiated() {
        terminated := command.terminating;
        windowVisible := false;
      }
    }

    predicate IsVisible()
      reads this
    {
      windowVisible
    }

    /** `SetVisible`: on a rising edge the search box is to be focused. */
    method SetVisible(visible: bool)
      modifies this`windowVisible, this`focusSearchBox
      ensures windowVisible == visible
      ensures focusSearchBox == (old(focusSearchBox) || (!old(windowVisible) && visible))
    {
      if !windowVisible && visible {
        focusSearchBox := true;
      }
      windowVisible := visible;
    }

    /**
     * The state-changing head of a frame of `Show`, before the search box is
     * drawn. Only a visible palette takes part. It closes when its window has
     * lost focus (`windowFocused` is ImGui's answer), and it consumes a
     * pending search-box focus request, returning whether the keyboard focus
     * is moved to the search box this frame.
     */
    method BeginFrame(windowFocused: bool) returns (focusRequested: bool)
      modifies this`windowVisible, this`focusSearchBox
      ensures !old(windowVisible) ==> unchanged(this) && !focusRequested
      ensures old(windowVisible) ==>
        && windowVisible == windowFocused
        && focusRequested == old(focusSearchBox)
        && !focusSearchBox
    {
      focusRequested := false;
      if windowVisible {
        if !windowFocused {
          windowVisible := false;
        }
        if focusSearchBox {
          focusSearchBox := false;
          focusRequested := true;
        }
      }
    }

    /** The up-arrow key: `ImMax(focus - 1, 0)`. */
    method MoveFocusUp()
      requires Valid()
      modifies this`focusedItemId
      ensures Valid()
      ensures focusedItemId == if old(focusedItemId) - 1 >= 0 then old(focusedItemId) - 1 else 0
      ensures 0 <= focusedItemId <= old(focusedItemId) || (old(focusedItemId) == -1 && focusedItemId == 0)
    {
      focusedItemId := if focusedItemId - 1 >= 0 then focusedItemId - 1 else 0;
    }

    /**
     * The down-arrow key: `ImMin(focus + 1, count - 1)`. With rows present the
     * focus lands on a row; with none it becomes -1, which selection ignores.
     */
    method MoveFocusDown()
      requires Valid()
      modifies this`focusedItemId
      ensures Valid()
      ensures var count := GetItemCount();
              focusedItemId == if old(focusedItemId) + 1 < count - 1 then old(focusedItemId) + 1 else count - 1
      ensures GetItemCount() > 0 ==> 0 <= focusedItemId < GetItemCount()
      ensures GetItemCount() == 0 ==> focusedItemId == -1 && !FocusInRange()
    {
      var itemCount: int := GetItemCount();
      focusedItemId := if focusedItemId + 1 < itemCount - 1 then focusedItemId + 1 else itemCount - 1;
    }
  }
}
