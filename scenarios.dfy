/**
 * A client of the palette: what a caller can conclude from the contracts
 * alone when a command prompts once and then finishes.
 */
module Scenarios {
  import opened Wrappers
  import opened CStrings
  import opened Commands
  import opened Execution
  import opened Palette

  /**
   * A command "Go" whose initial callback prompts with the options "X" and
   * "Y", and whose subsequent callback finishes. Selecting it leaves the
   * palette open at depth 1 on the two options; selecting an option closes it
   * and runs the terminating callback.
   */
  method PromptThenFinish()
  {
    var registry := new CommandRegistry();
    var go: CStr := [71, 111];
    var options: seq<CStr> := [[88], [89]];
    var command := Command(go, Some(Reaction([options], false)), Some((_, _) => Reaction([], true)), true);
    registry.AddCommand(command);
    assert registry.commands == [command];

    var palette := new CommandPalette(registry);
    palette.SetVisible(true);
    assert palette.windowVisible && palette.focusSearchBox;
    assert !palette.SearchActive() && palette.GetItemCount() == 1;
    assert palette.GetItem(0).associatedCommand == command;

    var terminated := palette.SelectFocusedItem();
    AfterPromptsClosedForm(Exec(Some(command), [], 0), [options]);
    assert palette.ctx.State() == Exec(Some(command), options, 1);
    assert palette.windowVisible && !terminated;
    assert palette.Sources() == options && palette.GetItemCount() == 2;

    terminated := palette.SelectFocusedItem();
    assert palette.ctx.State() == Idle;
    assert !palette.windowVisible && terminated;
  }

  /**
   * A command that prompts twice: its subsequent callback reads the depth,
   * prompting again with the option "Z" at depth 1 and finishing at depth 2.
   * Each selection moves one level deeper until the last one closes the
   * palette.
   */
  method NestedPrompts()
  {
    var registry := new CommandRegistry();
    var go: CStr := [71, 111];
    var first: seq<CStr> := [[88], [89]];
    var second: seq<CStr> := [[90]];
    var command := Command(go, Some(Reaction([first], false)),
                           Some((depth: nat, _) => if depth == 1 then Reaction([second], false) else Reaction([], true)),
                           false);
    registry.AddCommand(command);
    assert registry.commands == [command];

    var palette := new CommandPalette(registry);
    palette.SetVisible(true);
    assert palette.GetItemCount() == 1;

    var terminated := palette.SelectFocusedItem();
    AfterPromptsClosedForm(Exec(Some(command), [], 0), [first]);
    assert palette.ctx.State() == Exec(Some(command), first, 1);
    assert palette.GetItemCount() == 2 && palette.focusedItemId == 0;

    terminated := palette.SelectFocusedItem();
    AfterPromptsClosedForm(Exec(Some(command), first, 1), [second]);
    assert palette.ctx.State() == Exec(Some(command), second, 2);
    assert palette.windowVisible && palette.GetItemCount() == 1;

    terminated := palette.SelectFocusedItem();
    assert palette.ctx.State() == Idle;
    assert !palette.windowVisible && !terminated;
  }

  /**
   * An initial callback that neither prompts nor finishes leaves the command
   * running at depth 0 with the window open on the registry. The focused row
   * is then a command again while the context is initiated, so the next
   * selection violates `SelectFocusedItem`'s precondition (the debug
   * assertion at imcmd_command_palette.cpp:220).
   */
  method SilentInitialCallback()
  {
    var registry := new CommandRegistry();
    var go: CStr := [71, 111];
    var command := Command(go, Some(Reaction([], false)), None, false);
    registry.AddCommand(command);
    assert registry.commands == [command];

    var palette := new CommandPalette(registry);
    palette.SetVisible(true);
    assert palette.GetItemCount() == 1;

    var terminated := palette.SelectFocusedItem();
    AfterPromptsClosedForm(Exec(Some(command), [], 0), []);
    assert palette.ctx.State() == Exec(Some(command), [], 0);
    assert palette.windowVisible && !terminated;
    assert palette.FocusInRange() && palette.ctx.depth == 0 && palette.ctx.IsInitiated();
  }
}
