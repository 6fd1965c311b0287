/** Splitting a text at a separator and joining it again, as `split` and `join` do. */
module Text {

  /** Always at least one part, and no part holds the separator. */
  function Split(text: string, separator: char): (parts: seq<string>)
    ensures |parts| > 0
    ensures forall i :: 0 <= i < |parts| ==> separator !in parts[i]
  {
    if text == "" then [""]
    else
      var rest := Split(text[1..], separator);
      if text[0] == separator then [""] + rest else [[text[0]] + rest[0]] + rest[1..]
  }

  function Join(parts: seq<string>, separator: char): string {
    if parts == [] then "" else if |parts| == 1 then parts[0] else parts[0] + [separator] + Join(parts[1..], separator)
  }

  lemma {:induction false} SplitAfterPart(part: string, text: string, separator: char)
    requires separator !in part
    ensures Split(part + [separator] + text, separator) == [part] + Split(text, separator)
  {
    var whole := part + [separator] + text;
    if part == "" {
      assert whole[1..] == text;
    } else {
      assert whole[1..] == part[1..] + [separator] + text;
      SplitAfterPart(part[1..], text, separator);
      assert [whole[0]] + part[1..] == part;
    }
  }

  lemma {:induction false} SplitOnePart(part: string, separator: char)
    requires separator !in part
    ensures Split(part, separator) == [part]
  {
    if part != "" {
      SplitOnePart(part[1..], separator);
      assert [part[0]] + part[1..] == part;
    }
  }

  /** Splitting what was joined gives the parts back. */
  lemma {:induction false} SplitOfJoin(parts: seq<string>, separator: char)
    requires |parts| > 0 && forall i :: 0 <= i < |parts| ==> separator !in parts[i]
    ensures Split(Join(parts, separator), separator) == parts
  {
    if |parts| == 1 {
      SplitOnePart(parts[0], separator);
    } else {
      SplitOfJoin(parts[1..], separator);
      SplitAfterPart(parts[0], Join(parts[1..], separator), separator);
      assert parts == [parts[0]] + parts[1..];
    }
  }

  /** Splitting gives one part more than there are separators. */
  lemma {:induction false} PartsOfSplit(text: string, separator: char)
    ensures |Split(text, separator)| == 1 + multiset(text)[separator]
  {
    if text != "" {
      PartsOfSplit(text[1..], separator);
      assert text == [text[0]] + text[1..];
      assert multiset(text) == multiset{text[0]} + multiset(text[1..]);
    }
  }

  /** Joining what was split gives the text back: nothing is lost. */
  lemma {:induction false} JoinOfSplit(text: string, separator: char)
    ensures Join(Split(text, separator), separator) == text
  {
    if text != "" {
      var rest := Split(text[1..], separator);
      JoinOfSplit(text[1..], separator);
      assert text == [text[0]] + text[1..];
      if text[0] == separator {
        assert ([""] + rest)[1..] == rest;
        assert Join([""] + rest, separator) == "" + [separator] + Join(rest, separator);
      } else {
        JoinOfLonger(text[0], rest, separator);
      }
    }
  }

  lemma JoinOfLonger(c: char, parts: seq<string>, separator: char)
    requires |parts| > 0
    ensures Join([[c] + parts[0]] + parts[1..], separator) == [c] + Join(parts, separator)
  {
    var longer := [[c] + parts[0]] + parts[1..];
    assert longer[1..] == parts[1..];
  }
}
