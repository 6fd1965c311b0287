/** Command-line arguments: the parser (`parseArguments` in src/cli/adapter.ts) and the printer it
    undoes (`argvFor` in src/cli/conformance-driver.ts). */
module Arguments {
  import opened Text

  // ----- Words

  predicate IsNameChar(c: char) {
    'a' <= c <= 'z' || '0' <= c <= '9'
  }

  /** Nonempty runs of lower-case letters and digits, joined by single separators. */
  predicate IsJoined(name: string, separator: char) {
    && name != "" && IsNameChar(name[0]) && IsNameChar(name[|name| - 1])
    && (forall i :: 0 <= i < |name| ==> IsNameChar(name[i]) || name[i] == separator)
    && (forall i :: 0 <= i < |name| - 1 ==> IsNameChar(name[i]) || IsNameChar(name[i + 1]))
  }

  /** Such a name is exactly one that its separator splits into nonempty runs of letters and digits. */
  lemma {:induction false} JoinedMeansSplit(name: string, separator: char)
    requires !IsNameChar(separator)
    ensures IsJoined(name, separator) <==> GoodParts(Split(name, separator))
  {
    if name == "" || !IsNameChar(name[0]) {
      var first := Split(name, separator)[0];
      assert first in Split(name, separator);
      assert name != "" && name[0] != separator ==> first[0] == name[0];
    } else if |name| == 1 {
      assert name[1..] == "" && Split("", separator) == [""];
      assert [name[0]] + "" == name;
      assert Split(name, separator) == [name];
    } else {
      var rest := name[1..];
      if name[1] != separator {
        JoinedMeansSplit(rest, separator);
        assert Split(name, separator) == [[name[0]] + Split(rest, separator)[0]] + Split(rest, separator)[1..];
        JoinedOneMore(name, separator);
        GoodPartsOneMore(name[0], Split(rest, separator));
      } else {
        var after := rest[1..];
        JoinedMeansSplit(after, separator);
        assert Split(rest, separator) == [""] + Split(after, separator);
        assert Split(name, separator) == [[name[0]] + ""] + Split(rest, separator)[1..];
        assert [name[0]] + "" == [name[0]];
        assert Split(name, separator) == [[name[0]]] + Split(after, separator);
        GoodPartMore(name[0], Split(after, separator));
        JoinedPartMore(name, separator);
      }
    }
  }

  lemma GoodPartMore(c: char, parts: seq<string>)
    requires IsNameChar(c)
    ensures GoodParts([[c]] + parts) <==> GoodParts(parts)
  {
    var more := [[c]] + parts;
    if GoodParts(more) {
      assert forall w | w in parts :: w in more;
    }
  }

  lemma GoodPartsOneMore(c: char, parts: seq<string>)
    requires |parts| > 0 && parts[0] != "" && IsNameChar(c)
    ensures GoodParts([[c] + parts[0]] + parts[1..]) <==> GoodParts(parts)
  {
    var more := [[c] + parts[0]] + parts[1..];
    assert parts == [parts[0]] + parts[1..];
    if GoodParts(more) {
      assert more[0] in more;
      assert forall i :: 0 <= i < |parts[0]| ==> parts[0][i] == more[0][i + 1];
      assert forall w | w in parts[1..] :: w in more;
    }
    if GoodParts(parts) {
      assert parts[0] in parts;
      assert forall w | w in parts[1..] :: w in parts;
    }
  }

  predicate GoodParts(parts: seq<string>) {
    forall w | w in parts :: w != "" && forall i :: 0 <= i < |w| ==> IsNameChar(w[i])
  }

  lemma JoinedOneMore(name: string, separator: char)
    requires |name| >= 2 && IsNameChar(name[0]) && name[1] != separator && !IsNameChar(separator)
    ensures IsJoined(name, separator) <==> IsJoined(name[1..], separator)
  {
    var rest := name[1..];
    assert forall i :: 0 < i < |name| ==> name[i] == rest[i - 1];
  }

  lemma JoinedPartMore(name: string, separator: char)
    requires |name| >= 2 && IsNameChar(name[0]) && name[1] == separator && !IsNameChar(separator)
    ensures IsJoined(name, separator) <==> IsJoined(name[2..], separator)
  {
    var rest := name[2..];
    assert forall i :: 1 < i < |name| ==> name[i] == rest[i - 2];
  }

  function Replace(text: string, from: char, to: char): (r: string)
    ensures |r| == |text|
    ensures forall i :: 0 <= i < |text| ==> r[i] == if text[i] == from then to else text[i]
  {
    seq(|text|, i requires 0 <= i < |text| => if text[i] == from then to else text[i])
  }

  function NormaliseKey(key: string): string {
    Replace(key, '-', '_')
  }

  /** `indexOf('=')`, or the length when there is none. */
  function EqualsAt(body: string): (n: nat)
    ensures n <= |body| && '=' !in body[..n] && (n < |body| ==> body[n] == '=')
  {
    if body == "" || body[0] == '=' then 0
    else
      var n := 1 + EqualsAt(body[1..]);
      assert body[..n] == [body[0]] + body[1..][..n - 1];
      n
  }

  lemma {:induction false} EqualsAtIs(body: string, n: nat)
    requires n <= |body| && '=' !in body[..n] && (n < |body| ==> body[n] == '=')
    ensures EqualsAt(body) == n
  {
    if n > 0 {
      assert body[0] == body[..n][0];
      assert body[1..][..n - 1] == body[..n][1..];
      EqualsAtIs(body[1..], n - 1);
    }
  }

  predicate IsOption(word: string) {
    "--" <= word
  }

  predicate LooksLikeFlag(word: string) {
    IsOption(word) && IsJoined(word[2..][..EqualsAt(word[2..])], '-')
  }

  /** Nonempty runs of lower-case letters and digits. */
  ghost predicate LowerWords(words: seq<string>) {
    forall w | w in words :: w != "" && forall i :: 0 <= i < |w| ==> 'a' <= w[i] <= 'z' || '0' <= w[i] <= '9'
  }

  /** Two dashes, then lower-case words joined by hyphens, and then nothing or an equals sign and anything. */
  ghost predicate HasShape(word: string, name: string, rest: string) {
    word == "--" + name + rest && '=' !in name && (rest == "" || rest[0] == '=') && LowerWords(Split(name, '-'))
  }

  lemma LowerIsGood(words: seq<string>)
    ensures LowerWords(words) <==> GoodParts(words)
  {
  }

  lemma FlagHasShape(word: string) returns (name: string, rest: string)
    requires LooksLikeFlag(word)
    ensures HasShape(word, name, rest)
  {
    hide IsJoined, GoodParts, LowerWords, Split, EqualsAt;
    var body := word[2..];
    var n := EqualsAt(body);
    name, rest := body[..n], body[n..];
    assert word == "--" + name + rest;
    JoinedMeansSplit(name, '-');
    LowerIsGood(Split(name, '-'));
  }

  lemma ShapeIsFlag(word: string, name: string, rest: string)
    requires HasShape(word, name, rest)
    ensures LooksLikeFlag(word)
  {
    hide IsJoined, GoodParts, LowerWords, Split, EqualsAt;
    var body := word[2..];
    assert body == name + rest && body[..|name|] == name;
    EqualsAtIs(body, |name|);
    JoinedMeansSplit(name, '-');
    LowerIsGood(Split(name, '-'));
  }

  /** The shape of an option is that and nothing else. */
  lemma ShapeOfOptions(word: string)
    ensures LooksLikeFlag(word) <==> exists name, rest :: HasShape(word, name, rest)
  {
    hide LooksLikeFlag, HasShape;
    if LooksLikeFlag(word) {
      var name, rest := FlagHasShape(word);
    }
    if name, rest :| HasShape(word, name, rest) {
      ShapeIsFlag(word, name, rest);
    }
  }

  /** A lease key is a value however it begins: one character outside the option alphabet is enough. */
  lemma KeysAreValues(word: string, i: nat)
    requires 2 <= i < |word| && '=' !in word && !IsNameChar(word[i]) && word[i] != '-'
    ensures !LooksLikeFlag(word)
  {
    var body := word[2..];
    forall k | 0 <= k < |body|
      ensures body[k] != '='
    {
      assert body[k] == word[k + 2];
    }
    EqualsAtIs(body, |body|);
    assert body[..|body|][i - 2] == word[i];
  }

  // ----- The parser

  /** A parsed value: a bare flag, a text, or the collected values of a repeatable option. */
  datatype Parsed = Flag | One(text: string) | Many(items: seq<Parsed>)

  type Arguments = map<string, Parsed>

  predicate Repeatable(key: string) {
    key == "field" || key == "path"
  }

  /** Repeatable options always hold a collection. */
  ghost predicate WellFormed(parsed: Arguments) {
    forall k | k in parsed && Repeatable(k) :: parsed[k].Many?
  }

  function Record(parsed: Arguments, key: string, value: Parsed): (r: Arguments)
    requires WellFormed(parsed)
    ensures WellFormed(r)
  {
    if !Repeatable(key) then parsed[key := value]
    else if key !in parsed then parsed[key := Many([value])]
    else parsed[key := Many(parsed[key].items + [value])]
  }

  /** What the words from here on add to what has been parsed. */
  function ParseWords(rest: seq<string>, parsed: Arguments): (r: Arguments)
    requires WellFormed(parsed)
    ensures WellFormed(r)
  {
    if rest == [] then parsed
    else if !IsOption(rest[0]) then ParseWords(rest[1..], parsed)
    else
      var body := rest[0][2..];
      var equals := EqualsAt(body);
      if equals < |body| then
        ParseWords(rest[1..], Record(parsed, NormaliseKey(body[..equals]), One(body[equals + 1..])))
      else if |rest| == 1 || LooksLikeFlag(rest[1]) then
        ParseWords(rest[1..], Record(parsed, NormaliseKey(body), Flag))
      else
        ParseWords(rest[2..], Record(parsed, NormaliseKey(body), One(rest[1])))
  }

  /** `parseArguments`, with its index. */
  method ParseArguments(rest: seq<string>) returns (parsed: Arguments)
    ensures parsed == ParseWords(rest, map[])
  {
    parsed := map[];
    var index := 0;
    while index < |rest|
      invariant 0 <= index <= |rest|
      invariant WellFormed(parsed)
      invariant ParseWords(rest[index..], parsed) == ParseWords(rest, map[])
    {
      hide EqualsAt, LooksLikeFlag, Record, NormaliseKey;
      assert rest[index..][1..] == rest[index + 1..];
      var word := rest[index];
      if !IsOption(word) {
        index := index + 1;
        continue;
      }
      var body := word[2..];
      var equals := EqualsAt(body);
      if equals < |body| {
        parsed := Record(parsed, NormaliseKey(body[..equals]), One(body[equals + 1..]));
        index := index + 1;
        continue;
      }
      if index + 1 == |rest| || LooksLikeFlag(rest[index + 1]) {
        parsed := Record(parsed, NormaliseKey(body), Flag);
        index := index + 1;
        continue;
      }
      assert rest[index..][2..] == rest[index + 2..];
      parsed := Record(parsed, NormaliseKey(body), One(rest[index + 1]));
      index := index + 2;
    }
  }

  // ----- The printer

  /** A value of a case's input. A number is the text it prints as. */
  datatype Value = Text(text: string) | Number(text: string) | True | False | Null | Structure

  /** The entries of a case's input, in order. */
  type Input = seq<(string, Value)>

  datatype Printed = Argv(words: seq<string>) | CannotCarry(key: string)

  function FlagOf(key: string): string {
    "--" + Replace(key, '_', '-')
  }

  function EntryWords(entry: (string, Value)): seq<string> {
    match entry.1
    case True => [FlagOf(entry.0)]
    case Text(text) => [FlagOf(entry.0), text]
    case Number(text) => [FlagOf(entry.0), text]
    case _ => []
  }

  /** False, null and structures print nothing; true prints its option alone; a text or a number follows
      its option. */
  lemma EntryIsPrinted(key: string, value: Value)
    ensures EntryWords((key, False)) == [] && EntryWords((key, Null)) == []
    ensures EntryWords((key, True)) == [FlagOf(key)] && "--" <= FlagOf(key)
    ensures value.Text? || value.Number? ==> EntryWords((key, value)) == [FlagOf(key), value.text]
  {
  }

  function InputWords(input: Input): seq<string> {
    if input == [] then [] else EntryWords(input[0]) + InputWords(input[1..])
  }

  lemma {:induction false} InputWordsGrow(input: Input, i: nat)
    requires i < |input|
    ensures InputWords(input[..i + 1]) == InputWords(input[..i]) + EntryWords(input[i])
  {
    hide EntryWords;
    if i == 0 {
      assert input[..1][1..] == [];
      assert InputWords(input[..1]) == EntryWords(input[0]) + InputWords([]);
    } else {
      InputWordsGrow(input[1..], i - 1);
      assert input[..i + 1][1..] == input[1..][..i];
      assert input[..i][1..] == input[1..][..i - 1];
    }
  }

  /** `argvFor`: the command's words, the entries, and `--json`; a structure cannot be carried. */
  method ArgvFor(command: seq<string>, input: Input) returns (printed: Printed)
    ensures printed.Argv? <==> forall i :: 0 <= i < |input| ==> !input[i].1.Structure?
    ensures printed.Argv? ==> printed.words == command + InputWords(input) + ["--json"]
    ensures printed.CannotCarry? ==> exists i :: 0 <= i < |input| && printed.key == input[i].0 && input[i].1.Structure?
                                               && forall k :: 0 <= k < i ==> !input[k].1.Structure?
  {
    hide InputWords, FlagOf;
    var argv := command;
    assert InputWords(input[..0]) == [] by { NoWords(); }
    for i := 0 to |input|
      invariant forall k :: 0 <= k < i ==> !input[k].1.Structure?
      invariant argv == command + InputWords(input[..i])
    {
      InputWordsGrow(input, i);
      var flag := FlagOf(input[i].0);
      match input[i].1 {
        case True => argv := argv + [flag];
        case False =>
        case Null =>
        case Structure => return CannotCarry(input[i].0);
        case Text(text) => argv := argv + [flag, text];
        case Number(text) => argv := argv + [flag, text];
      }
    }
    assert input[..|input|] == input;
    printed := Argv(argv + ["--json"]);
  }

  lemma NoWords()
    ensures InputWords([]) == []
  {
  }

  // ----- What a round trip should give back

  /** A case whose keys are lower-case words joined by underscores, each once, none of them `json`. */
  ghost predicate Printable(input: Input) {
    && (forall i :: 0 <= i < |input| ==> IsJoined(input[i].0, '_') && input[i].0 != "json" && !input[i].1.Structure?)
    && (forall i, j :: 0 <= i < j < |input| ==> input[i].0 != input[j].0)
  }

  /** False and null are dropped. */
  predicate Kept(value: Value) {
    value.Text? || value.Number? || value.True?
  }

  /** Numbers come back as text, and `field` and `path` as lists. */
  function Recovered(key: string, value: Value): Parsed
    requires Kept(value)
  {
    var parsed := if value.True? then Flag else One(value.text);
    if Repeatable(key) then Many([parsed]) else parsed
  }

  /** Exactly the kept entries, each under its own key, and `json`. */
  ghost predicate Recovers(input: Input, parsed: Arguments) {
    && (forall k :: k in parsed <==> k == "json" || HoldsKey(input, k))
    && "json" in parsed && parsed["json"] == Flag
    && forall i :: 0 <= i < |input| && Kept(input[i].1) ==>
         input[i].0 in parsed && parsed[input[i].0] == Recovered(input[i].0, input[i].1)
  }

  ghost predicate HoldsKey(input: Input, k: string) {
    exists i :: 0 <= i < |input| && input[i].0 == k && Kept(input[i].1)
  }

  /** A text the parser would take for another option. */
  predicate Ambiguous(value: Value) {
    (value.Text? || value.Number?) && LooksLikeFlag(value.text)
  }

  // ----- One entry at a time

  lemma FlagOfKey(key: string)
    requires IsJoined(key, '_')
    ensures IsOption(FlagOf(key)) && FlagOf(key)[2..] == Replace(key, '_', '-')
    ensures EqualsAt(FlagOf(key)[2..]) == |FlagOf(key)[2..]|
    ensures NormaliseKey(FlagOf(key)[2..]) == key
    ensures LooksLikeFlag(FlagOf(key))
  {
    var body := Replace(key, '_', '-');
    assert FlagOf(key)[2..] == body;
    forall i | 0 <= i < |body|
      ensures body[i] != '='
    {
      assert IsNameChar(key[i]) || key[i] == '_';
    }
    EqualsAtIs(body, |body|);
    assert body[..|body|] == body;
    assert NormaliseKey(body) == key;
  }

  /** The option a flag-shaped value is taken for, and the value it is given. */
  function AsOption(word: string): (string, Parsed)
    requires IsOption(word)
  {
    var body := word[2..];
    var equals := EqualsAt(body);
    if equals < |body| then (NormaliseKey(body[..equals]), One(body[equals + 1..])) else (NormaliseKey(body), Flag)
  }

  /** What one entry does to the parsed arguments. */
  function Effect(parsed: Arguments, entry: (string, Value)): (r: Arguments)
    requires WellFormed(parsed)
    ensures WellFormed(r)
  {
    if !Kept(entry.1) then parsed
    else if entry.1.True? then Record(parsed, entry.0, Flag)
    else if !LooksLikeFlag(entry.1.text) then Record(parsed, entry.0, One(entry.1.text))
    else
      var option := AsOption(entry.1.text);
      Record(Record(parsed, entry.0, Flag), option.0, option.1)
  }

  /** The parser is back in step at the end of every entry, provided an option follows. */
  lemma ParseEntry(entry: (string, Value), rest: seq<string>, parsed: Arguments)
    requires WellFormed(parsed) && IsJoined(entry.0, '_') && !entry.1.Structure?
    requires rest != [] && LooksLikeFlag(rest[0])
    ensures ParseWords(EntryWords(entry) + rest, parsed) == ParseWords(rest, Effect(parsed, entry))
  {
    hide LooksLikeFlag, IsJoined, EqualsAt, Record, NormaliseKey, FlagOf;
    FlagOfKey(entry.0);
    var flag := FlagOf(entry.0);
    if entry.1.True? {
      assert ([flag] + rest)[1..] == rest;
    } else if Kept(entry.1) {
      var text := entry.1.text;
      var words := [flag, text] + rest;
      assert words[1..] == [text] + rest && words[2..] == rest;
      if LooksLikeFlag(text) {
        FlagsAreOptions(text);
        assert ([text] + rest)[1..] == rest;
      }
    } else {
      assert [] + rest == rest;
    }
  }

  lemma FlagsAreOptions(word: string)
    requires LooksLikeFlag(word)
    ensures IsOption(word)
  {
  }

  function Effects(parsed: Arguments, input: Input): (r: Arguments)
    requires WellFormed(parsed)
    ensures WellFormed(r)
    decreases |input|
  {
    if input == [] then parsed else Effects(Effect(parsed, input[0]), input[1..])
  }

  lemma JsonIsFlag()
    ensures LooksLikeFlag("--json") && IsOption("--json") && "--json"[2..] == "json"
    ensures EqualsAt("json") == 4 && NormaliseKey("json") == "json"
  {
    assert "--json"[2..] == "json";
    EqualsAtIs("json", 4);
    assert "json"[..4] == "json";
  }

  lemma InputStartsWithFlag(input: Input)
    requires Printable(input)
    ensures var words := InputWords(input) + ["--json"];
            words != [] && LooksLikeFlag(words[0])
  {
    hide LooksLikeFlag, IsJoined;
    JsonIsFlag();
    if input != [] {
      if EntryWords(input[0]) == [] {
        InputStartsWithFlag(input[1..]);
      } else {
        FlagOfKey(input[0].0);
      }
    }
  }

  lemma {:induction false} ParseInput(input: Input, parsed: Arguments)
    requires Printable(input) && WellFormed(parsed)
    ensures ParseWords(InputWords(input) + ["--json"], parsed) == Effects(parsed, input)["json" := Flag]
    decreases |input|
  {
    hide LooksLikeFlag, IsJoined, Effect, EqualsAt;
    if input == [] {
      JsonIsFlag();
      assert [] + ["--json"] == ["--json"] && ["--json"][1..] == [];
      assert ParseWords([], parsed["json" := Flag]) == parsed["json" := Flag];
    } else {
      var rest := InputWords(input[1..]) + ["--json"];
      InputStartsWithFlag(input[1..]);
      ParseEntry(input[0], rest, parsed);
      assert InputWords(input) + ["--json"] == EntryWords(input[0]) + rest;
      ParseInput(input[1..], Effect(parsed, input[0]));
    }
  }

  // ----- When every value is unambiguous

  /** The keys an entry writes, when it is read as it was meant. */
  lemma {:induction false} EffectsRecover(parsed: Arguments, input: Input)
    requires Printable(input) && WellFormed(parsed)
    requires forall i :: 0 <= i < |input| ==> !Ambiguous(input[i].1) && input[i].0 !in parsed
    ensures var r := Effects(parsed, input);
            && (forall k :: k in r <==> k in parsed || HoldsKey(input, k))
            && (forall k | k in parsed :: r[k] == parsed[k])
            && (forall i :: 0 <= i < |input| && Kept(input[i].1) ==>
                  input[i].0 in r && r[input[i].0] == Recovered(input[i].0, input[i].1))
    decreases |input|
  {
    hide LooksLikeFlag, IsJoined;
    if input != [] {
      var once, tail := Effect(parsed, input[0]), input[1..];
      EffectsRecover(once, tail);
      forall k
        ensures HoldsKey(input, k) <==> (input[0].0 == k && Kept(input[0].1)) || HoldsKey(tail, k)
      {
        if i :| 0 <= i < |input| && input[i].0 == k && Kept(input[i].1) {
          assert i > 0 ==> tail[i - 1] == input[i];
        }
        if j :| 0 <= j < |tail| && tail[j].0 == k && Kept(tail[j].1) {
          assert input[j + 1] == tail[j];
        }
      }
      var r := Effects(parsed, input);
      forall i | 0 <= i < |input| && Kept(input[i].1)
        ensures input[i].0 in r && r[input[i].0] == Recovered(input[i].0, input[i].1)
      {
        if i > 0 {
          assert tail[i - 1] == input[i];
        }
      }
    }
  }

  // ----- When some value is ambiguous

  /** Entries that are read as meant leave other keys alone. */
  lemma {:induction false} EffectsLeave(parsed: Arguments, input: Input, k: string)
    requires WellFormed(parsed) && k in parsed
    requires forall i :: 0 <= i < |input| ==> !Ambiguous(input[i].1) && input[i].0 != k
    ensures k in Effects(parsed, input) && Effects(parsed, input)[k] == parsed[k]
    decreases |input|
  {
    hide LooksLikeFlag;
    if input != [] {
      EffectsLeave(Effect(parsed, input[0]), input[1..], k);
    }
  }

  /** A flag-shaped value is lost: its key is left with something else. */
  lemma AmbiguousIsLost(parsed: Arguments, entry: (string, Value))
    requires WellFormed(parsed) && Ambiguous(entry.1)
    ensures var r := Effect(parsed, entry);
            entry.0 in r && r[entry.0] != Recovered(entry.0, entry.1)
  {
    var k, text := entry.0, entry.1.text;
    var option := AsOption(text);
    if option.1.One? {
      assert |option.1.text| < |text|;
    }
    hide LooksLikeFlag, AsOption;
    var once := Record(parsed, k, Flag);
    if Repeatable(k) {
      var items := once[k].items;
      assert items[|items| - 1] == Flag;
      if option.0 == k {
        assert Record(once, k, option.1)[k].items[|items| - 1] == Flag;
      }
    }
  }

  lemma {:induction false} EffectsAppend(parsed: Arguments, a: Input, b: Input)
    requires WellFormed(parsed)
    ensures Effects(parsed, a + b) == Effects(Effects(parsed, a), b)
    decreases |a|
  {
    if a == [] {
      assert a + b == b;
    } else {
      assert (a + b)[1..] == a[1..] + b;
      EffectsAppend(Effect(parsed, a[0]), a[1..], b);
    }
  }

  /** The last ambiguous entry of an input that has one. */
  lemma {:induction false} LastAmbiguous(input: Input, n: nat) returns (m: nat)
    requires n <= |input| && exists i :: 0 <= i < n && Ambiguous(input[i].1)
    ensures m < n && Ambiguous(input[m].1) && forall i :: m < i < n ==> !Ambiguous(input[i].1)
  {
    hide LooksLikeFlag, Ambiguous;
    m := n - 1;
    if !Ambiguous(input[m].1) {
      m := LastAmbiguous(input, n - 1);
    }
  }

  // ----- Other spellings

  /** One option and its value, wherever they stand. */
  lemma OptionIsRecorded(key: string, value: string, rest: seq<string>, parsed: Arguments)
    requires WellFormed(parsed) && IsJoined(key, '_') && !LooksLikeFlag(value)
    ensures ParseWords([FlagOf(key), value] + rest, parsed) == ParseWords(rest, Record(parsed, key, One(value)))
  {
    FlagOfKey(key);
    hide LooksLikeFlag, IsJoined, EqualsAt, Record, NormaliseKey, FlagOf;
    var words := [FlagOf(key), value] + rest;
    assert words[1..] == [value] + rest && words[2..] == rest;
  }

  /** `--key=value` records its value whatever shape it has, and is the two-word spelling when the value
      does not have the shape of an option. */
  lemma EqualsFormIsRecorded(key: string, value: string, rest: seq<string>, parsed: Arguments)
    requires WellFormed(parsed) && IsJoined(key, '_')
    ensures ParseWords([FlagOf(key) + "=" + value] + rest, parsed) == ParseWords(rest, Record(parsed, key, One(value)))
    ensures !LooksLikeFlag(value) ==>
              ParseWords([FlagOf(key) + "=" + value] + rest, parsed) == ParseWords([FlagOf(key), value] + rest, parsed)
  {
    FlagOfKey(key);
    EqualsFound(key, value);
    if !LooksLikeFlag(value) {
      OptionIsRecorded(key, value, rest, parsed);
    }
    hide LooksLikeFlag, IsJoined, EqualsAt, Record, NormaliseKey, FlagOf;
    assert ([FlagOf(key) + "=" + value] + rest)[1..] == rest;
  }

  lemma EqualsFound(key: string, value: string)
    requires IsJoined(key, '_')
    ensures var word := FlagOf(key) + "=" + value;
            var body := word[2..];
            && IsOption(word) && EqualsAt(body) == |key| < |body|
            && NormaliseKey(body[..|key|]) == key && body[|key| + 1..] == value
  {
    FlagOfKey(key);
    var word, name := FlagOf(key) + "=" + value, FlagOf(key)[2..];
    var body := word[2..];
    assert |name| == |key|;
    assert body == name + "=" + value;
    assert body[..|key|] == name;
    hide IsJoined, NormaliseKey, FlagOf;
    assert '=' !in name by {
      assert name[..EqualsAt(name)] == name;
    }
    EqualsAtIs(body, |key|);
  }

  /** A word that is no option and follows none is passed over. */
  lemma StrayWordIsSkipped(word: string, rest: seq<string>, parsed: Arguments)
    requires WellFormed(parsed) && !("--" <= word)
    ensures ParseWords([word] + rest, parsed) == ParseWords(rest, parsed)
  {
    assert ([word] + rest)[1..] == rest;
  }

  /** One option given once for every value, in order. */
  function Repeat(key: string, values: seq<string>): seq<string> {
    if values == [] then [] else [FlagOf(key), values[0]] + Repeat(key, values[1..])
  }

  function Ones(values: seq<string>): seq<Parsed> {
    seq(|values|, i requires 0 <= i < |values| => One(values[i]))
  }

  lemma {:induction false} RepeatedIsCollected(key: string, done: seq<string>, values: seq<string>)
    requires (key == "field" || key == "path") && forall v | v in values :: !LooksLikeFlag(v)
    ensures ParseWords(Repeat(key, values), map[key := Many(Ones(done))]) == map[key := Many(Ones(done + values))]
    decreases |values|
  {
    PlainKeys();
    hide LooksLikeFlag, IsJoined, FlagOf, IsOption;
    if values == [] {
      assert done + values == done;
    } else {
      var parsed: Arguments := map[key := Many(Ones(done))];
      OptionIsRecorded(key, values[0], Repeat(key, values[1..]), parsed);
      assert Ones(done) + [One(values[0])] == Ones(done + [values[0]]);
      assert Record(parsed, key, One(values[0])) == map[key := Many(Ones(done + [values[0]]))];
      hide ParseWords, Record;
      RepeatedIsCollected(key, done + [values[0]], values[1..]);
      assert done + [values[0]] + values[1..] == done + values;
    }
  }

  lemma PlainKeys()
    ensures IsJoined("field", '_') && IsJoined("path", '_')
  {
  }

  lemma {:induction false} LastValueStands(key: string, values: seq<string>, parsed: Arguments)
    requires WellFormed(parsed) && IsJoined(key, '_') && key != "field" && key != "path"
    requires values != [] && forall v | v in values :: !LooksLikeFlag(v)
    ensures ParseWords(Repeat(key, values), parsed) == parsed[key := One(values[|values| - 1])]
    decreases |values|
  {
    hide LooksLikeFlag, IsJoined, FlagOf, IsOption;
    OptionIsRecorded(key, values[0], Repeat(key, values[1..]), parsed);
    if |values| > 1 {
      LastValueStands(key, values[1..], parsed[key := One(values[0])]);
      assert parsed[key := One(values[0])][key := One(values[|values| - 1])] == parsed[key := One(values[|values| - 1])];
    } else {
      assert values[1..] == [];
    }
  }

  /** An option given several times: `field` and `path` keep every value in the order given, and of any
      other option the last value stands. */
  lemma RepeatedOption(key: string, values: seq<string>)
    requires IsJoined(key, '_') && values != [] && forall v | v in values :: !LooksLikeFlag(v)
    ensures var parsed := ParseWords(Repeat(key, values), map[]);
            && parsed.Keys == {key}
            && ((key == "field" || key == "path") ==> parsed[key] == Many(Ones(values)))
            && (key != "field" && key != "path" ==> parsed[key] == One(values[|values| - 1]))
  {
    hide LooksLikeFlag, IsJoined, FlagOf, IsOption;
    if key == "field" || key == "path" {
      OptionIsRecorded(key, values[0], Repeat(key, values[1..]), map[]);
      hide ParseWords;
      assert [One(values[0])] == Ones([values[0]]);
      RepeatedIsCollected(key, [values[0]], values[1..]);
      assert [values[0]] + values[1..] == values;
    } else {
      LastValueStands(key, values, map[]);
    }
  }

  // ----- The round trip

  /** Parsing what was printed gives the arguments back exactly when no value has the shape of an
      option. Values that merely begin with two dashes come back; a flag-shaped one is always lost. */
  lemma {:induction false} RoundTrip(input: Input)
    requires Printable(input)
    ensures Recovers(input, ParseWords(InputWords(input) + ["--json"], map[]))
            <==> forall i :: 0 <= i < |input| ==> !Ambiguous(input[i].1)
  {
    ParseInput(input, map[]);
    hide Ambiguous, Effects, Printable, Recovers, ParseWords;
    if forall i :: 0 <= i < |input| ==> !Ambiguous(input[i].1) {
      UnambiguousRecovers(input);
    } else {
      AmbiguousDoesNot(input);
    }
  }

  lemma UnambiguousRecovers(input: Input)
    requires Printable(input) && forall i :: 0 <= i < |input| ==> !Ambiguous(input[i].1)
    ensures Recovers(input, Effects(map[], input)["json" := Flag])
  {
    hide Ambiguous, Effects, Recovered, IsJoined, Record;
    EffectsRecover(map[], input);
    var r := Effects(map[], input);
    assert forall k :: k in r <==> HoldsKey(input, k);
    hide HoldsKey;
  }

  lemma AmbiguousDoesNot(input: Input)
    requires Printable(input) && exists i :: 0 <= i < |input| && Ambiguous(input[i].1)
    ensures !Recovers(input, Effects(map[], input)["json" := Flag])
  {
    hide Recovered, Ambiguous, Effects, IsJoined, Kept;
    var m := LastAmbiguous(input, |input|);
    LostInTheEnd(input, m);
    AmbiguousIsKept(input[m].1);
    assert input[m].0 != "json";
  }

  lemma LostInTheEnd(input: Input, m: nat)
    requires Printable(input) && m < |input| && Ambiguous(input[m].1)
    requires forall i :: m < i < |input| ==> !Ambiguous(input[i].1)
    ensures var r := Effects(map[], input);
            input[m].0 in r && r[input[m].0] != Recovered(input[m].0, input[m].1)
  {
    hide Recovered, Ambiguous, Effects, IsJoined;
    var a, b := input[..m], input[m..];
    assert input == a + b && b[0] == input[m];
    EffectsAppend(map[], a, b);
    LostForGood(Effects(map[], a), b);
  }

  lemma AmbiguousIsKept(value: Value)
    requires Ambiguous(value)
    ensures Kept(value)
  {
  }

  lemma LostForGood(before: Arguments, b: Input)
    requires WellFormed(before) && Printable(b) && b != [] && Ambiguous(b[0].1)
    requires forall i :: 0 < i < |b| ==> !Ambiguous(b[i].1)
    ensures var r := Effects(before, b);
            b[0].0 in r && r[b[0].0] != Recovered(b[0].0, b[0].1)
  {
    hide Ambiguous, IsJoined;
    AmbiguousIsKept(b[0].1);
    AmbiguousIsLost(before, b[0]);
    var tail := b[1..];
    EffectsLeave(Effect(before, b[0]), tail, b[0].0);
  }
}
