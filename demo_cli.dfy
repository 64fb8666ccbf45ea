/** The echo demo's own check for unknown command-line arguments
    (`thereAreDemoUnknownArguments` in
    tap/demos/IcmpEchoDevice/SilKitDemoEthernetIcmpEchoDevice.cpp). The
    source walks `argv` with a counter `argc` that it decreases by 2 over a
    switch with a value and loops `while (argc)`; a switch with a value as
    the last token takes the counter below zero and the walk goes on past
    the end of `argv`. `ThereAreDemoUnknownArgumentsAsWritten` models that
    walk and reports the out-of-bounds read as `ReadsPastEnd`;
    `ThereAreDemoUnknownArguments` is the corrected check. */
module DemoCli {
  import opened Parsing

  const DemoSwitchesWithArgument: seq<string> := [NetworkArg, RegUriArg, LogLevelArg, ParticipantNameArg]
  const DemoSwitchesWithoutArgument: seq<string> := [HelpArg]

  /** `strncmp(token, "--", 2) == 0`: the token begins with `--`. */
  function StartsWithDashes(token: string): (b: bool)
    ensures b <==> "--" <= token
  {
    |token| >= 2 && token[..2] == "--"
  }

  /** Every demo switch starts with `--`, so the prefix test only ever
      rejects tokens that neither table holds. */
  lemma SwitchesStartWithDashes(token: string)
    ensures token in DemoSwitchesWithArgument ==> StartsWithDashes(token)
    ensures token in DemoSwitchesWithoutArgument ==> StartsWithDashes(token)
  {
  }

  /** What the source's walk does: answers, or reads a token past the end. */
  datatype ScanOutcome = Unknown | AllKnown | ReadsPastEnd

  /** The source's walk over the tokens after `argv[0]`. */
  function Scan(tokens: seq<string>): ScanOutcome
    decreases |tokens|
  {
    if |tokens| == 0 then AllKnown
    else if !StartsWithDashes(tokens[0]) then Unknown
    else if tokens[0] in DemoSwitchesWithArgument then
      (if |tokens| == 1 then ReadsPastEnd else Scan(tokens[2..]))
    else if tokens[0] in DemoSwitchesWithoutArgument then Scan(tokens[1..])
    else Unknown
  }

  /** The source's result for a whole `argv`; with `argc == 0` the first
      decrement already takes the counter below zero. */
  function DemoScanAsWritten(argv: seq<string>): ScanOutcome
  {
    if |argv| == 0 then ReadsPastEnd else Scan(argv[1..])
  }

  /** `thereAreDemoUnknownArguments` as written: `argc` and the `argv`
      cursor move together, and the loop runs while `argc != 0`. */
  method ThereAreDemoUnknownArgumentsAsWritten(argv: seq<string>) returns (outcome: ScanOutcome)
    ensures outcome == DemoScanAsWritten(argv)
  {
    var argc: int := |argv|;
    var cursor: nat := 0;
    argc := argc - 1;
    cursor := cursor + 1;
    while argc != 0
      invariant argc == |argv| - cursor
      invariant 1 <= cursor <= |argv| + 1
      invariant DemoScanAsWritten(argv) == if cursor <= |argv| then Scan(argv[cursor..]) else ReadsPastEnd
      decreases |argv| + 1 - cursor
    {
      if cursor >= |argv| {
        return ReadsPastEnd;
      }
      var token := argv[cursor];
      if !StartsWithDashes(token) {
        return Unknown;
      }
      if token in DemoSwitchesWithArgument {
        argc := argc - 2;
        cursor := cursor + 2;
      } else if token in DemoSwitchesWithoutArgument {
        argc := argc - 1;
        cursor := cursor + 1;
      } else {
        return Unknown;
      }
    }
    return AllKnown;
  }

  /** A switch with a value as the last token makes the source read past
      the end of `argv`. */
  lemma DanglingSwitchReadsPastEnd()
    ensures DemoScanAsWritten(["demo", NetworkArg]) == ReadsPastEnd
    ensures !WellFormedDemoArgs([NetworkArg])
  {
  }

  /** The demo's command-line grammar: switches with a value are followed
      by one, `--help` stands alone, nothing else is allowed. */
  predicate WellFormedDemoArgs(tokens: seq<string>)
    decreases |tokens|
  {
    |tokens| == 0
    || (tokens[0] in DemoSwitchesWithArgument && |tokens| >= 2 && WellFormedDemoArgs(tokens[2..]))
    || (tokens[0] in DemoSwitchesWithoutArgument && WellFormedDemoArgs(tokens[1..]))
  }

  /** The corrected check: a switch missing its value is an unknown
      argument, and an empty `argv` has nothing to check. */
  method ThereAreDemoUnknownArguments(argv: seq<string>) returns (unknown: bool)
    ensures unknown <==> |argv| > 0 && !WellFormedDemoArgs(argv[1..])
  {
    if |argv| == 0 {
      return false;
    }
    var cursor: nat := 1;
    while cursor < |argv|
      invariant 1 <= cursor <= |argv|
      invariant WellFormedDemoArgs(argv[1..]) <==> WellFormedDemoArgs(argv[cursor..])
      decreases |argv| - cursor
    {
      var token := argv[cursor];
      SwitchesStartWithDashes(token);
      if !StartsWithDashes(token) {
        return true;
      }
      if token in DemoSwitchesWithArgument {
        if cursor + 1 == |argv| {
          return true;
        }
        assert argv[cursor..][2..] == argv[cursor + 2..];
        cursor := cursor + 2;
      } else if token in DemoSwitchesWithoutArgument {
        assert argv[cursor..][1..] == argv[cursor + 1..];
        cursor := cursor + 1;
      } else {
        return true;
      }
    }
    return false;
  }

  /** Wherever the source stays inside `argv`, its answer is the corrected
      one, and it goes past the end only on tokens outside the grammar. */
  lemma {:induction false} ScanAgrees(tokens: seq<string>)
    ensures Scan(tokens) == AllKnown ==> WellFormedDemoArgs(tokens)
    ensures Scan(tokens) == Unknown ==> !WellFormedDemoArgs(tokens)
    ensures Scan(tokens) == ReadsPastEnd ==> !WellFormedDemoArgs(tokens)
    decreases |tokens|
  {
    if |tokens| > 0 {
      SwitchesStartWithDashes(tokens[0]);
      if tokens[0] in DemoSwitchesWithArgument && |tokens| >= 2 {
        ScanAgrees(tokens[2..]);
      } else if tokens[0] in DemoSwitchesWithoutArgument {
        ScanAgrees(tokens[1..]);
      }
    }
  }

  /** The as-written and the corrected check give the same answer on every
      `argv` the source walks without reading past its end. */
  lemma AsWrittenAgreesWhenInBounds(argv: seq<string>)
    requires DemoScanAsWritten(argv) != ReadsPastEnd
    ensures (DemoScanAsWritten(argv) == Unknown) <==> (|argv| > 0 && !WellFormedDemoArgs(argv[1..]))
  {
    ScanAgrees(argv[1..]);
  }
}
