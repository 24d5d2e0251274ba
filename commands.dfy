/**
 * Commands and the registry that keeps them sorted by name
 * (`Command` and `CommandRegistry` of the palette library).
 */
module Commands {
  import opened Wrappers
  import opened CStrings

  /**
   * What a user callback does to the execution context it is handed: it calls
   * `Prompt` once for each entry of `prompts`, in order, and then `Finish` when
   * `finish` holds. Anything else the callback does is outside the model.
   */
  datatype Reaction = Reaction(prompts: seq<seq<CStr>>, finish: bool)

  /**
   * A command: its name and three independently optional callbacks. The
   * subsequent callback is handed the context, whose public face is its
   * execution depth, and the ordinal of the chosen option, so its effect is a
   * function of the depth and that ordinal; the terminating callback takes no
   * context, so only whether it is set is recorded.
   */
  datatype Command = Command(
    name: CStr,
    initial: Option<Reaction>,
    subsequent: Option<(nat, int) -> Reaction>,
    terminating: bool)

  /** Non-decreasing by `strcmp` on the names. */
  ghost predicate SortedByName(s: seq<Command>)
  {
    forall i, j :: 0 <= i < j < |s| ==> !Less(s[j].name, s[i].name)
  }

  /** The names of a list of commands, in order. */
  function Names(s: seq<Command>): (r: seq<CStr>)
    ensures |r| == |s| && forall i :: 0 <= i < |s| ==> r[i] == s[i].name
  {
    seq(|s|, i requires 0 <= i < |s| => s[i].name)
  }

  /**
   * `std::lower_bound` by name: the first position whose name is not below
   * `name` (or the end).
   */
  function LowerBound(s: seq<Command>, name: CStr): (k: nat)
    ensures k <= |s|
    ensures forall i :: 0 <= i < k ==> Less(s[i].name, name)
    ensures k < |s| ==> !Less(s[k].name, name)
  {
    if s == [] || !Less(s[0].name, name) then 0 else 1 + LowerBound(s[1..], name)
  }

  /**
   * `std::upper_bound` by name: the first position whose name is above `name`
   * (or the end).
   */
  function UpperBound(s: seq<Command>, name: CStr): (k: nat)
    ensures k <= |s|
    ensures forall i :: 0 <= i < k ==> !Less(name, s[i].name)
    ensures k < |s| ==> Less(name, s[k].name)
  {
    if s == [] || Less(name, s[0].name) then 0 else 1 + UpperBound(s[1..], name)
  }

  /** On a sorted list, everything from the lower bound on is not below `name`. */
  lemma LowerBoundPartitions(s: seq<Command>, name: CStr)
    requires SortedByName(s)
    ensures forall i :: LowerBound(s, name) <= i < |s| ==> !Less(s[i].name, name)
  {
    var k := LowerBound(s, name);
    forall i | k <= i < |s|
      ensures !Less(s[i].name, name)
    {
      if i > k {
        NotLessTransitive(name, s[k].name, s[i].name);
      }
    }
  }

  /** On a sorted list, everything from the upper bound on is above `name`. */
  lemma UpperBoundPartitions(s: seq<Command>, name: CStr)
    requires SortedByName(s)
    ensures forall i :: UpperBound(s, name) <= i < |s| ==> Less(name, s[i].name)
  {
    var k := UpperBound(s, name);
    forall i | k <= i < |s|
      ensures Less(name, s[i].name)
    {
      if i > k {
        Trichotomy(s[k].name, s[i].name);
        if s[k].name != s[i].name {
          LessTransitive(name, s[k].name, s[i].name);
        }
      }
    }
  }

  /**
   * Inserting at the lower bound keeps the list sorted, and the new command
   * lands after every smaller name and before every equal or larger one.
   */
  lemma InsertAtLowerBound(s: seq<Command>, c: Command)
    requires SortedByName(s)
    ensures var k := LowerBound(s, c.name);
            var r := s[..k] + [c] + s[k..];
            && |r| == |s| + 1
            && r[k] == c
            && SortedByName(r)
            && (forall i :: 0 <= i < k ==> Less(r[i].name, c.name))
            && (forall i :: k < i < |r| ==> !Less(r[i].name, c.name))
  {
    var k := LowerBound(s, c.name);
    var r := s[..k] + [c] + s[k..];
    LowerBoundPartitions(s, c.name);
    forall i, j | 0 <= i < j < |r|
      ensures !Less(r[j].name, r[i].name)
    {
      if j < k {
        assert r[i] == s[i] && r[j] == s[j];
      } else if i < k && j == k {
        StrcmpAntisymmetric(r[i].name, c.name);
      } else if i < k {
        assert r[j] == s[j - 1] && r[i] == s[i];
      } else if i == k {
        assert r[j] == s[j - 1];
      } else {
        assert r[i] == s[i - 1] && r[j] == s[j - 1];
      }
    }
  }

  /** The list without the commands called `name`, the others in their order. */
  function Without(s: seq<Command>, name: CStr): seq<Command>
  {
    if s == [] then []
    else (if s[0].name == name then [] else [s[0]]) + Without(s[1..], name)
  }

  /** A command survives removal iff it was present and has a different name. */
  lemma {:induction false} WithoutMembers(s: seq<Command>, name: CStr, c: Command)
    ensures c in Without(s, name) <==> c in s && c.name != name
  {
    if s != [] {
      WithoutMembers(s[1..], name, c);
      assert s == [s[0]] + s[1..];
    }
  }

  /** Removing a name nobody has changes nothing. */
  lemma {:induction false} WithoutNoMatch(s: seq<Command>, name: CStr)
    requires forall i :: 0 <= i < |s| ==> s[i].name != name
    ensures Without(s, name) == s
  {
    if s != [] {
      WithoutNoMatch(s[1..], name);
    }
  }

  /**
   * On a sorted list, `std::equal_range` by name is the run of commands called
   * `name`: below it every name differs, inside it every name is `name`, above
   * it every name differs.
   */
  lemma EqualRangeBounds(s: seq<Command>, name: CStr)
    requires SortedByName(s)
    ensures var lo, hi := LowerBound(s, name), UpperBound(s, name);
            && lo <= hi
            && (forall i :: 0 <= i < lo ==> s[i].name != name)
            && (forall i :: lo <= i < hi ==> s[i].name == name)
            && (forall i :: hi <= i < |s| ==> s[i].name != name)
  {
    var lo, hi := LowerBound(s, name), UpperBound(s, name);
    LowerBoundPartitions(s, name);
    UpperBoundPartitions(s, name);
    if hi < lo {
      StrcmpAntisymmetric(name, s[hi].name);
      assert false;
    }
    forall i | lo <= i < hi
      ensures s[i].name == name
    {
      Trichotomy(s[i].name, name);
    }
    forall i | 0 <= i < lo
      ensures s[i].name != name
    {
      StrcmpZeroIffEqual(s[i].name, name);
    }
    forall i | hi <= i < |s|
      ensures s[i].name != name
    {
      StrcmpZeroIffEqual(name, s[i].name);
    }
  }

  /**
   * Erasing the equal range of `name` from a sorted list removes exactly the
   * commands called `name` and keeps the rest in order; the range is empty iff
   * no command has that name.
   */
  lemma EqualRangeErase(s: seq<Command>, name: CStr)
    requires SortedByName(s)
    ensures var lo, hi := LowerBound(s, name), UpperBound(s, name);
            && lo <= hi
            && s[..lo] + s[hi..] == Without(s, name)
            && (lo != hi <==> exists i :: 0 <= i < |s| && s[i].name == name)
  {
    var lo, hi := LowerBound(s, name), UpperBound(s, name);
    EqualRangeBounds(s, name);
    EraseRun(s, lo, hi, name);
    if lo != hi {
      assert s[lo].name == name;
    }
  }

  /** Splitting the list around a run of `name`s that nothing else shares. */
  lemma {:induction false} EraseRun(s: seq<Command>, lo: nat, hi: nat, name: CStr)
    requires lo <= hi <= |s|
    requires forall i :: 0 <= i < lo ==> s[i].name != name
    requires forall i :: lo <= i < hi ==> s[i].name == name
    requires forall i :: hi <= i < |s| ==> s[i].name != name
    ensures s[..lo] + s[hi..] == Without(s, name)
  {
    if hi == 0 {
      WithoutNoMatch(s, name);
      assert s[..lo] + s[hi..] == s;
    } else {
      var t := s[1..];
      var lo', hi' := if lo == 0 then 0 else lo - 1, hi - 1;
      EraseRun(t, lo', hi', name);
      if lo == 0 {
        assert s[..lo] + s[hi..] == t[..lo'] + t[hi'..];
      } else {
        assert s[..lo] + s[hi..] == [s[0]] + (t[..lo'] + t[hi'..]);
      }
    }
  }

  /** Cutting a contiguous range out of a sorted list leaves it sorted. */
  lemma SortedAfterErase(s: seq<Command>, lo: nat, hi: nat)
    requires SortedByName(s) && lo <= hi <= |s|
    ensures SortedByName(s[..lo] + s[hi..])
  {
    var r := s[..lo] + s[hi..];
    forall i, j | 0 <= i < j < |r|
      ensures !Less(r[j].name, r[i].name)
    {
      var i', j' := if i < lo then i else i + hi - lo, if j < lo then j else j + hi - lo;
      assert r[i] == s[i'] && r[j] == s[j'];
    }
  }

  /** The registry: commands kept sorted by name (`m_Commands`). */
  class CommandRegistry {
    var commands: seq<Command>

    ghost predicate Valid()
      reads this
    {
      SortedByName(commands)
    }

    constructor ()
      ensures Valid() && commands == []
    {
      commands := [];
    }

    /**
     * `AddCommand`: insert at the lower bound of the name, so the registry
     * stays sorted and the new command precedes existing equal names.
     */
    method AddCommand(command: Command)
      requires Valid()
      modifies this
      ensures Valid()
      ensures var k := LowerBound(old(commands), command.name);
              commands == old(commands)[..k] + [command] + old(commands)[k..]
      ensures |commands| == |old(commands)| + 1
    {
      var location := LowerBound(commands, command.name);
      InsertAtLowerBound(commands, command);
      commands := commands[..location] + [command] + commands[location..];
    }

    /**
     * `RemoveCommand`: erase the equal range of `name`; report whether it was
     * non-empty.
     */
    method RemoveCommand(name: CStr) returns (removed: bool)
      requires Valid()
      modifies this
      ensures Valid()
      ensures commands == Without(old(commands), name)
      ensures removed <==> exists i :: 0 <= i < |old(commands)| && old(commands)[i].name == name
    {
      var first := LowerBound(commands, name);
      var second := UpperBound(commands, name);
      EqualRangeErase(commands, name);
      SortedAfterErase(commands, first, second);
      commands := commands[..first] + commands[second..];
      removed := first != second;
    }
  }
}
