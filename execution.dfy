/**
 * `CommandExecutionContext`: the running command, the options of its current
 * prompt and the number of prompts answered so far.
 */
module Execution {
  import opened Wrappers
  import opened CStrings
  import opened Commands

  /** The observable state of an execution context. */
  datatype Exec = Exec(command: Option<Command>, options: seq<CStr>, depth: nat)

  /** No command running: the state a fresh context has and `Finish` restores. */
  const Idle: Exec := Exec(None, [], 0)

  /**
   * Reachable states: with no command there are no options and no depth,
   * and options only exist once a prompt has been made.
   */
  ghost predicate WellFormed(e: Exec)
  {
    && (e.command.None? ==> e.depth == 0 && e.options == [])
    && (e.options != [] ==> e.depth > 0)
  }

  /** The state after one `Prompt(options)` call. */
  function PromptStep(e: Exec, options: seq<CStr>): Exec
  {
    Exec(e.command, options, e.depth + 1)
  }

  /** The state after a run of `Prompt` calls, one per entry, in order. */
  function AfterPrompts(e: Exec, prompts: seq<seq<CStr>>): Exec
    decreases |prompts|
  {
    if prompts == [] then e else AfterPrompts(PromptStep(e, prompts[0]), prompts[1..])
  }

  /** The state after a callback with effect `r` has run. */
  function AfterReaction(e: Exec, r: Reaction): Exec
  {
    if r.finish then Idle else AfterPrompts(e, r.prompts)
  }

  /**
   * Depth counts prompts: after a run of prompts the command is the same, the
   * depth has grown by the number of prompts and the options are those of the
   * last one (unchanged when there was none).
   */
  lemma {:induction false} AfterPromptsClosedForm(e: Exec, prompts: seq<seq<CStr>>)
    ensures AfterPrompts(e, prompts) ==
      Exec(e.command,
           if prompts == [] then e.options else prompts[|prompts| - 1],
           e.depth + |prompts|)
    decreases |prompts|
  {
    if prompts != [] {
      AfterPromptsClosedForm(PromptStep(e, prompts[0]), prompts[1..]);
    }
  }

  /** Every callback effect, run on a state with a command, leaves a reachable state. */
  lemma ReactionKeepsWellFormed(e: Exec, r: Reaction)
    requires WellFormed(e) && e.command.Some?
    ensures WellFormed(AfterReaction(e, r))
    ensures AfterReaction(e, r).command.None? <==> r.finish
  {
    AfterPromptsClosedForm(e, r.prompts);
  }

  class ExecutionContext {
    var command: Option<Command>
    var options: seq<CStr>
    var depth: nat

    function State(): Exec
      reads this
    {
      Exec(command, options, depth)
    }

    ghost predicate Valid()
      reads this
    {
      WellFormed(State())
    }

    /** A fresh context: no command, no options, depth 0. */
    constructor ()
      ensures Valid() && State() == Idle
    {
      command := None;
      options := [];
      depth := 0;
    }

    predicate IsInitiated()
      reads this
    {
      command.Some?
    }

    function GetExecutionDepth(): nat
      reads this
    {
      depth
    }

    /** `Initiate`: start `c` unless a command is already running. */
    method Initiate(c: Command)
      requires Valid()
      modifies this
      ensures Valid()
      ensures old(command).None? ==> State() == Exec(Some(c), old(options), old(depth))
      ensures old(command).Some? ==> State() == old(State())
    {
      if command.None? {
        command := Some(c);
      }
    }

    /** `Prompt`: replace the options and go one level deeper; needs a running command. */
    method Prompt(newOptions: seq<CStr>)
      requires Valid() && IsInitiated()
      modifies this
      ensures Valid()
      ensures command == old(command) && options == newOptions && depth == old(depth) + 1
    {
      options := newOptions;
      depth := depth + 1;
    }

    /** `Finish`: end the running command and return to the idle state. */
    method Finish()
      requires Valid() && IsInitiated()
      modifies this
      ensures Valid() && State() == Idle && !IsInitiated()
    {
      command := None;
      options := [];
      depth := 0;
    }

    /** Runs a user callback on this context: its `Prompt` calls, then its `Finish`. */
    method RunCallback(r: Reaction)
      requires Valid() && IsInitiated()
      modifies this
      ensures Valid()
      ensures State() == AfterReaction(old(State()), r)
    {
      var i := 0;
      while i < |r.prompts|
        invariant 0 <= i <= |r.prompts|
        invariant Valid() && IsInitiated()
        invariant State() == AfterPrompts(old(State()), r.prompts[..i])
      {
        AfterPromptsClosedForm(old(State()), r.prompts[..i]);
        AfterPromptsClosedForm(old(State()), r.prompts[..i + 1]);
        Prompt(r.prompts[i]);
        i := i + 1;
      }
      assert r.prompts[..i] == r.prompts;
      if r.finish {
        Finish();
      }
    }
  }
}
