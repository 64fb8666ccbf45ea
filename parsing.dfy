/** Command-line token search (tap/adapter/Parsing.cpp, Parsing.hpp).
    `argv` is the whole argument vector, so `argc` is `|argv|`; a pointer
    `args` into it is the index at which a search starts, and a NULL result
    is `None`. */
module Parsing {
  import opened Errors

  const TapNameArg: string := "--tap-name"
  const NetworkArg: string := "--network"
  const RegUriArg: string := "--registry-uri"
  const ConfigurationArg: string := "--configuration"
  const LogLevelArg: string := "--log"
  const ParticipantNameArg: string := "--name"
  const VersionArg: string := "--version"
  const HelpArg: string := "--help"

  /** The switch names, in declaration order. */
  function Switches(): (names: seq<string>)
    ensures |names| == 8
    ensures forall i, j :: 0 <= i < j < |names| ==> names[i] != names[j]
  {
    [TapNameArg, NetworkArg, RegUriArg, ConfigurationArg, LogLevelArg, ParticipantNameArg, VersionArg, HelpArg]
  }

  /** `findArg`: the first index in `[start, |argv|)` whose token equals
      `argument`. */
  function FindArg(argv: seq<string>, argument: string, start: nat): (found: Option<nat>)
    requires start <= |argv|
    ensures found.Some? ==> start <= found.value < |argv| && argv[found.value] == argument
    ensures found.Some? ==> forall j :: start <= j < found.value ==> argv[j] != argument
    ensures found.None? <==> forall j :: start <= j < |argv| ==> argv[j] != argument
    decreases |argv| - start
  {
    if start == |argv| then None
    else if argv[start] == argument then Some(start)
    else FindArg(argv, argument, start + 1)
  }

  /** `findArgOf`: the index just after the first match, when that index
      is still inside `argv`. */
  function FindArgOf(argv: seq<string>, argument: string, start: nat): (found: Option<nat>)
    requires start <= |argv|
    ensures found.Some? <==> FindArg(argv, argument, start).Some? && FindArg(argv, argument, start).value + 1 < |argv|
    ensures found.Some? ==> found.value == FindArg(argv, argument, start).value + 1
    ensures found.Some? ==> start < found.value < |argv| && argv[found.value - 1] == argument
  {
    var match_ := FindArg(argv, argument, start);
    if match_.Some? && match_.value + 1 < |argv| then Some(match_.value + 1) else None
  }

  /** `getArgDefault`: the token after the first occurrence of `argument`,
      or `defaultValue` when there is none or it is the last token. */
  function GetArgDefault(argv: seq<string>, argument: string, defaultValue: string): (value: string)
    ensures (exists i :: 0 <= i < |argv| - 1 && argv[i] == argument && FirstAt(argv, argument, i))
         || value == defaultValue
    ensures forall i :: 0 <= i < |argv| - 1 && argv[i] == argument && FirstAt(argv, argument, i) ==> value == argv[i + 1]
  {
    match FindArgOf(argv, argument, 0)
    case Some(i) => argv[i]
    case None => defaultValue
  }

  /** `argv[i]` is the first occurrence of `argument`. */
  predicate FirstAt(argv: seq<string>, argument: string, i: nat)
    requires i < |argv|
  {
    forall j :: 0 <= j < i ==> argv[j] != argument
  }

  /** Later occurrences of a switch are ignored: whatever follows the value
      of its first occurrence does not change what `getArgDefault` returns. */
  lemma LaterDuplicatesIgnored(argv: seq<string>, argument: string, defaultValue: string, i: nat, rest: seq<string>)
    requires i + 1 < |argv| && argv[i] == argument && FirstAt(argv, argument, i)
    ensures GetArgDefault(argv[..i + 2] + rest, argument, defaultValue) == argv[i + 1]
  {
    var changed := argv[..i + 2] + rest;
    assert changed[i] == argument && changed[i + 1] == argv[i + 1];
    assert FirstAt(changed, argument, i);
  }

  /** When the first occurrence is the last token, later searches find
      nothing and the default is used. */
  lemma DanglingSwitchGivesDefault(argv: seq<string>, argument: string, defaultValue: string)
    requires |argv| > 0 && argv[|argv| - 1] == argument && FirstAt(argv, argument, |argv| - 1)
    ensures GetArgDefault(argv, argument, defaultValue) == defaultValue
  {
    assert FindArg(argv, argument, 0) == Some(|argv| - 1);
  }

  /** `assertAdditionalIterator`: an iterator at the end of its container
      (index `size`) raises InvalidCli. */
  function AssertAdditionalIterator(it: nat, size: nat): (r: Outcome)
    requires it <= size
    ensures r.Fail? <==> it == size
    ensures r.Fail? ==> r.error == InvalidCli
  {
    ThrowIf(it == size, InvalidCli)
  }

  /** The positions `foreachArgDo` hands to its action: each value found by
      `findArgOf`, the next search starting one past that value. */
  function ValuePositions(argv: seq<string>, argument: string, start: nat): (positions: seq<nat>)
    requires start <= |argv|
    decreases |argv| - start
  {
    match FindArgOf(argv, argument, start)
    case None => []
    case Some(p) => [p] + ValuePositions(argv, argument, p + 1)
  }

  /** Every position lies after `start`, follows a token equal to
      `argument`, and each is at least two past the one before, so a value
      is never examined again as a switch. */
  lemma {:induction false} ValuePositionsShape(argv: seq<string>, argument: string, start: nat)
    requires start <= |argv|
    ensures forall k :: 0 <= k < |ValuePositions(argv, argument, start)| ==>
              var p := ValuePositions(argv, argument, start)[k];
              start < p < |argv| && argv[p - 1] == argument
    ensures forall k :: 0 < k < |ValuePositions(argv, argument, start)| ==>
              ValuePositions(argv, argument, start)[k - 1] + 2 <= ValuePositions(argv, argument, start)[k]
    decreases |argv| - start
  {
    match FindArgOf(argv, argument, start)
    case None =>
    case Some(p) =>
      ValuePositionsShape(argv, argument, p + 1);
      var tail := ValuePositions(argv, argument, p + 1);
      assert ValuePositions(argv, argument, start) == [p] + tail;
      assert |tail| > 0 ==> p + 1 < tail[0];
  }

  /** No switch is skipped: an occurrence of `argument` before the last
      token that is not itself consumed as a value is followed by a
      position. */
  lemma {:induction false} ValuePositionsComplete(argv: seq<string>, argument: string, start: nat, i: nat)
    requires start <= i < |argv| - 1 && argv[i] == argument
    requires forall k :: 0 <= k < |ValuePositions(argv, argument, start)| ==> ValuePositions(argv, argument, start)[k] != i
    ensures exists k :: 0 <= k < |ValuePositions(argv, argument, start)| && ValuePositions(argv, argument, start)[k] == i + 1
    decreases |argv| - start
  {
    assert FindArg(argv, argument, start).Some?;
    var p := FindArgOf(argv, argument, start).value;
    var tail := ValuePositions(argv, argument, p + 1);
    assert ValuePositions(argv, argument, start) == [p] + tail;
    if p != i + 1 {
      assert ValuePositions(argv, argument, start)[0] == p;
      forall k | 0 <= k < |tail|
        ensures tail[k] != i
      {
        assert tail[k] == ValuePositions(argv, argument, start)[k + 1];
      }
      ValuePositionsComplete(argv, argument, p + 1, i);
      var k :| 0 <= k < |tail| && tail[k] == i + 1;
      assert ValuePositions(argv, argument, start)[k + 1] == i + 1;
    }
  }

  /** `foreachArgDo`: the loop over `findArgOf` results; returns, in call
      order, the positions of the tokens the action is invoked on. */
  method ForeachArgDo(argv: seq<string>, argument: string) returns (positions: seq<nat>)
    ensures positions == ValuePositions(argv, argument, 0)
  {
    positions := [];
    var start := 0;
    var arg := FindArgOf(argv, argument, start);
    while arg.Some?
      invariant start <= |argv|
      invariant arg == FindArgOf(argv, argument, start)
      invariant positions + ValuePositions(argv, argument, start) == ValuePositions(argv, argument, 0)
      decreases |argv| - start
    {
      positions := positions + [arg.value];
      start := arg.value + 1;
      arg := FindArgOf(argv, argument, start);
    }
  }
}
