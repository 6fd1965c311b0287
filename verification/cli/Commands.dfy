/** The command table (src/cli/commands.ts) and the whole trip of a case: printed to an argument
    vector, matched against the table and parsed again. */
module Commands {
  import opened Arguments
  import opened Text

  datatype Command = Operation(words: seq<string>, name: string) | Standalone(words: seq<string>)

  const COMMANDS: seq<Command> := [
    Operation(["claim"], "claim"),
    Operation(["status"], "status"),
    Operation(["release"], "release"),
    Operation(["tab", "replace"], "tab_replace"),
    Operation(["navigate"], "navigate"),
    Operation(["act"], "act"),
    Operation(["read"], "read"),
    Operation(["evaluate"], "evaluate"),
    Operation(["capture"], "capture"),
    Operation(["sign", "in"], "sign_in"),
    Operation(["sign", "in", "done"], "sign_in_done"),
    Operation(["feedback"], "feedback"),
    Standalone(["snapshot"]),
    Standalone(["doctor"]),
    Standalone(["login"]),
    Standalone(["init"]),
    Standalone(["diffs"]),
    Standalone(["image"]),
    Standalone(["captures"]),
    Standalone(["reconcile"]),
    Standalone(["events"])]

  datatype ParsedCommand = Matched(command: Command, rest: seq<string>) | Unknown(attempted: seq<string>)

  // ----- Longest name first

  /** Put a command behind every other of the same length or longer, as a stable sort does. */
  function Insert(sorted: seq<Command>, command: Command): (r: seq<Command>)
    ensures forall c :: c in r <==> c in sorted || c == command
  {
    if sorted != [] && |sorted[0].words| >= |command.words| then [sorted[0]] + Insert(sorted[1..], command)
    else [command] + sorted
  }

  function LongestFirst(table: seq<Command>): (r: seq<Command>)
    ensures forall c :: c in r <==> c in table
  {
    if table == [] then [] else Insert(LongestFirst(table[..|table| - 1]), table[|table| - 1])
  }

  ghost predicate Descending(table: seq<Command>) {
    forall i, j :: 0 <= i < j < |table| ==> |table[i].words| >= |table[j].words|
  }

  lemma {:induction false} InsertKeepsDescending(sorted: seq<Command>, command: Command)
    requires Descending(sorted)
    ensures Descending(Insert(sorted, command))
  {
    if sorted != [] && |sorted[0].words| >= |command.words| {
      InsertKeepsDescending(sorted[1..], command);
      var tail := Insert(sorted[1..], command);
      forall j | 0 <= j < |tail|
        ensures |sorted[0].words| >= |tail[j].words|
      {
        assert tail[j] in tail;
      }
    }
  }

  lemma {:induction false} LongestFirstDescends(table: seq<Command>)
    ensures Descending(LongestFirst(table))
  {
    if table != [] {
      LongestFirstDescends(table[..|table| - 1]);
      InsertKeepsDescending(LongestFirst(table[..|table| - 1]), table[|table| - 1]);
    }
  }

  function FirstMatch(candidates: seq<Command>, argv: seq<string>): ParsedCommand {
    if candidates == [] then Unknown(Attempted(argv))
    else if candidates[0].words <= argv then Matched(candidates[0], argv[|candidates[0].words|..])
    else FirstMatch(candidates[1..], argv)
  }

  /** The words a refusal quotes: those that do not begin with a dash. */
  function Attempted(argv: seq<string>): seq<string> {
    if argv == [] then [] else (if "-" <= argv[0] then [] else [argv[0]]) + Attempted(argv[1..])
  }

  /** A refusal quotes every word that does not begin with a dash, and only those, in their order. */
  lemma {:induction false} AttemptedSplits(a: seq<string>, b: seq<string>)
    ensures Attempted(a + b) == Attempted(a) + Attempted(b)
    ensures |a| == 1 ==> Attempted(a) == if a[0] != "" && a[0][0] == '-' then [] else a
  {
    if a == [] {
      assert a + b == b;
    } else {
      assert (a + b)[1..] == a[1..] + b;
      assert a == [a[0]] + a[1..];
      AttemptedSplits(a[1..], b);
    }
  }

  function ParseCommand(table: seq<Command>, argv: seq<string>): ParsedCommand {
    FirstMatch(LongestFirst(table), argv)
  }

  /** No two commands share their words. */
  ghost predicate Distinct(table: seq<Command>) {
    forall c, d | c in table && d in table && c.words == d.words :: c == d
  }

  lemma HeadIsLongest(candidates: seq<Command>)
    requires Descending(candidates) && candidates != []
    ensures Descending(candidates[1..])
    ensures forall c | c in candidates :: |c.words| <= |candidates[0].words|
  {
  }

  lemma {:induction false} FirstMatchIs(candidates: seq<Command>, argv: seq<string>)
    requires Descending(candidates)
    ensures var parsed := FirstMatch(candidates, argv);
            && (parsed.Unknown? <==> forall c | c in candidates :: !(c.words <= argv))
            && (parsed.Matched? ==>
                  && parsed.command in candidates && parsed.command.words <= argv
                  && argv == parsed.command.words + parsed.rest
                  && forall c | c in candidates && c.words <= argv :: |c.words| <= |parsed.command.words|)
  {
    if candidates != [] {
      HeadIsLongest(candidates);
      hide Descending;
      var head, tail := candidates[0], candidates[1..];
      assert forall c :: c in candidates <==> c == head || c in tail;
      if !(head.words <= argv) {
        FirstMatchIs(tail, argv);
      }
    }
  }

  /** Parsing a command picks the longest name the vector begins with, whatever the order of the table,
      and is unknown exactly when it begins with none. */
  lemma LongestNameWins(table: seq<Command>, argv: seq<string>)
    requires Distinct(table)
    ensures ParseCommand(table, argv).Unknown? <==> forall c | c in table :: !(c.words <= argv)
    ensures forall c, rest :: ParseCommand(table, argv) == Matched(c, rest) <==>
              && c in table && argv == c.words + rest
              && forall d | d in table && d.words <= argv :: |d.words| <= |c.words|
  {
    LongestFirstDescends(table);
    var candidates := LongestFirst(table);
    FirstMatchIs(candidates, argv);
    hide FirstMatch, LongestFirst, Descending;
    forall c, rest
      ensures ParseCommand(table, argv) == Matched(c, rest) <==>
              && c in table && argv == c.words + rest
              && forall d | d in table && d.words <= argv :: |d.words| <= |c.words|
    {
      if c in table && argv == c.words + rest && forall d | d in table && d.words <= argv :: |d.words| <= |c.words| {
        var parsed := ParseCommand(table, argv);
        SamePrefix(c.words, parsed.command.words, argv);
        assert rest == argv[|c.words|..];
        assert parsed.rest == argv[|c.words|..];
      }
    }
  }

  lemma SamePrefix(a: seq<string>, b: seq<string>, argv: seq<string>)
    requires a <= argv && b <= argv && |a| == |b|
    ensures a == b
  {
  }

  // ----- The table

  /** The length of a name, of its first word, and that word's first letter: enough to tell the
      commands of the table apart. */
  ghost function Signature(command: Command): (int, int, char) {
    if command.words == [] || command.words[0] == "" then (0, 0, ' ')
    else (|command.words|, |command.words[0]|, command.words[0][0])
  }

  ghost predicate TableOk(table: seq<Command>) {
    && Distinct(table)
    && forall c, w | c in table && w in c.words :: !IsOption(w)
  }

  lemma LongerNameReachesOptions(shorter: seq<string>, longer: seq<string>, rest: seq<string>)
    requires longer <= shorter + rest && |longer| > |shorter|
    ensures rest != [] && rest[0] in longer
  {
    assert longer[|shorter|] == (shorter + rest)[|shorter|];
  }

  /** An operation's words followed by its options are matched to that operation and to no other. */
  lemma OperationIsMatched(table: seq<Command>, c: Command, rest: seq<string>)
    requires TableOk(table) && c in table
    requires rest != [] ==> IsOption(rest[0])
    ensures ParseCommand(table, c.words + rest) == Matched(c, rest)
  {
    hide ParseCommand, IsOption;
    var argv := c.words + rest;
    LongestNameWins(table, argv);
    forall d | d in table && d.words <= argv
      ensures |d.words| <= |c.words|
    {
      if |d.words| > |c.words| {
        LongerNameReachesOptions(c.words, d.words, rest);
      }
    }
    assert c in table && argv == c.words + rest;
  }

  /** The signatures of the table, in its own order. */
  ghost const SIGNATURES: seq<(int, int, char)> := [
    (1, 5, 'c'), (1, 6, 's'), (1, 7, 'r'), (2, 3, 't'), (1, 8, 'n'), (1, 3, 'a'), (1, 4, 'r'), (1, 8, 'e'), (1, 7, 'c'),
    (2, 4, 's'), (3, 4, 's'), (1, 8, 'f'), (1, 8, 's'), (1, 6, 'd'), (1, 5, 'l'), (1, 4, 'i'), (1, 5, 'd'), (1, 5, 'i'),
    (1, 8, 'c'), (1, 9, 'r'), (1, 6, 'e')]

  lemma SignaturesDiffer()
    ensures |SIGNATURES| == 21
    ensures forall i, j :: 0 <= i < j < |SIGNATURES| ==> SIGNATURES[i] != SIGNATURES[j]
  {
  }

  lemma SignaturesAre()
    ensures |COMMANDS| == 21 && forall i :: 0 <= i < 21 ==> Signature(COMMANDS[i]) == SIGNATURES[i]
  {
  }

  /** No word is empty or begins with a dash. */
  ghost predicate Plain(words: seq<string>) {
    words == [] || (words[0] != "" && words[0][0] != '-' && Plain(words[1..]))
  }

  lemma {:induction false} PlainIsNoOption(words: seq<string>, w: string)
    requires Plain(words) && w in words
    ensures !IsOption(w)
  {
    if w != words[0] {
      PlainIsNoOption(words[1..], w);
    }
  }

  lemma CommandsArePlain()
    ensures forall i :: 0 <= i < |COMMANDS| ==> Plain(COMMANDS[i].words)
  {
    forall i | 0 <= i < |COMMANDS|
      ensures Plain(COMMANDS[i].words)
    {
      var words := COMMANDS[i].words;
      assert |words| <= 3;
      assert |words| > 1 ==> words[1] != "" && words[1][0] != '-';
      assert |words| > 2 ==> words[2] != "" && words[2][0] != '-';
      PlainUpToThree(words);
    }
  }

  lemma PlainUpToThree(words: seq<string>)
    requires |words| <= 3 && forall k :: 0 <= k < |words| ==> words[k] != "" && words[k][0] != '-'
    ensures Plain(words)
  {
    if |words| > 0 {
      var one := words[1..];
      if |one| > 0 {
        var two := one[1..];
        assert |two| > 0 ==> Plain(two[1..]);
      }
    }
  }

  lemma NoCommandWordIsAnOption()
    ensures forall c, w | c in COMMANDS && w in c.words :: !IsOption(w)
  {
    hide COMMANDS, IsOption;
    CommandsArePlain();
    forall c, w | c in COMMANDS && w in c.words
      ensures !IsOption(w)
    {
      PlainIsNoOption(c.words, w);
    }
  }

  lemma TheTableIsOk()
    ensures TableOk(COMMANDS)
  {
    NoCommandWordIsAnOption();
    SignaturesDiffer();
    SignaturesAre();
    hide COMMANDS, SIGNATURES, Signature, IsOption;
    forall c, d | c in COMMANDS && d in COMMANDS && c.words == d.words
      ensures c == d
    {
      var i :| 0 <= i < |COMMANDS| && COMMANDS[i] == c;
      var j :| 0 <= j < |COMMANDS| && COMMANDS[j] == d;
      SameWordsSameSignature(c, d);
    }
  }

  /** An operation is called what its command's words say, joined by underscores. */
  lemma NamesAreWordsJoined()
    ensures forall i :: 0 <= i < |COMMANDS| && COMMANDS[i].Operation? ==> COMMANDS[i].name == Join(COMMANDS[i].words, '_')
  {
    forall i | 0 <= i < |COMMANDS| && COMMANDS[i].Operation?
      ensures COMMANDS[i].name == Join(COMMANDS[i].words, '_')
    {
      assert |COMMANDS[i].words| <= 3;
      JoinUpToThree(COMMANDS[i].words);
    }
  }

  lemma JoinStep(words: seq<string>)
    requires words != []
    ensures Join(words, '_') == if |words| == 1 then words[0] else words[0] + "_" + Join(words[1..], '_')
  {
  }

  lemma JoinUpToThree(words: seq<string>)
    requires 1 <= |words| <= 3
    ensures |words| == 1 ==> Join(words, '_') == words[0]
    ensures |words| == 2 ==> Join(words, '_') == words[0] + "_" + words[1]
    ensures |words| == 3 ==> Join(words, '_') == words[0] + "_" + (words[1] + "_" + words[2])
  {
    hide Join;
    JoinStep(words);
    if |words| > 1 {
      JoinStep(words[1..]);
      if |words| > 2 {
        JoinStep(words[1..][1..]);
      }
    }
  }

  lemma SameWordsSameSignature(c: Command, d: Command)
    requires c.words == d.words
    ensures Signature(c) == Signature(d)
  {
  }

  // ----- The whole trip

  lemma PrintedCaseIsMatched(c: Command, input: Input)
    requires c in COMMANDS && Printable(input)
    ensures ParseCommand(COMMANDS, c.words + (InputWords(input) + ["--json"])) == Matched(c, InputWords(input) + ["--json"])
  {
    hide COMMANDS, ParseCommand, TableOk;
    TheTableIsOk();
    var rest := InputWords(input) + ["--json"];
    InputStartsWithFlag(input);
    FlagsAreOptions(rest[0]);
    OperationIsMatched(COMMANDS, c, rest);
  }

  /** For every operation and every printable case: the printed vector is matched to that operation,
      and its arguments come back exactly when none of its values has the shape of an option. */
  lemma PrintedCaseComesBack(c: Command, input: Input)
    requires c in COMMANDS && Printable(input)
    ensures var parsed := ParseCommand(COMMANDS, c.words + InputWords(input) + ["--json"]);
            && parsed == Matched(c, InputWords(input) + ["--json"])
            && (Recovers(input, ParseWords(parsed.rest, map[]))
                <==> forall i :: 0 <= i < |input| ==> !Ambiguous(input[i].1))
  {
    hide COMMANDS, Recovers, ParseCommand, ParseWords, InputWords, Ambiguous, Printable;
    PrintedCaseIsMatched(c, input);
    assert c.words + InputWords(input) + ["--json"] == c.words + (InputWords(input) + ["--json"]);
    RoundTrip(input);
  }
}
