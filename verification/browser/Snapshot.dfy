/** Narrowing an accessibility snapshot to matching lines and their ancestors (`filterSnapshot` in
    src/browser/real.ts). Nesting is indentation; the filter is one pass with a stack. */
module Snapshot {
  import opened Text

  type Line = string

  // ----- Lines

  /** The characters `trim` removes. */
  predicate IsSpace(c: char) {
    || '\t' <= c <= '\r' || c == ' ' || c == '\U{00A0}' || c == '\U{1680}' || '\U{2000}' <= c <= '\U{200A}'
    || c == '\U{2028}' || c == '\U{2029}' || c == '\U{202F}' || c == '\U{205F}' || c == '\U{3000}' || c == '\U{FEFF}'
  }

  /** Number of leading spaces: `line.length - line.trimStart().length`. */
  function Depth(line: Line): nat {
    if line != "" && IsSpace(line[0]) then 1 + Depth(line[1..]) else 0
  }

  predicate Blank(line: Line) {
    forall i :: 0 <= i < |line| ==> IsSpace(line[i])
  }

  /** The depth is the length of the run of spaces the line begins with. */
  lemma {:induction false} DepthIsIndent(line: Line)
    ensures Depth(line) <= |line|
    ensures forall i :: 0 <= i < Depth(line) ==> IsSpace(line[i])
    ensures Depth(line) < |line| ==> !IsSpace(line[Depth(line)])
  {
    if line != "" && IsSpace(line[0]) {
      DepthIsIndent(line[1..]);
      assert forall i :: 0 < i < Depth(line) ==> line[i] == line[1..][i - 1];
    }
  }

  /** What a snapshot is indented with is a space, and nothing printable is one. */
  lemma SpacesAreSpaces()
    ensures IsSpace(' ') && IsSpace('\t') && IsSpace('\n') && IsSpace('\r')
    ensures forall c :: '!' <= c <= '~' ==> !IsSpace(c)
  {
  }

  /** The line is its indent and then its text; an empty text makes it blank. */
  ghost predicate IsIndented(line: Line, indent: string, text: string) {
    && line == indent + text
    && (forall i :: 0 <= i < |indent| ==> IsSpace(indent[i]))
    && (text != "" ==> !IsSpace(text[0]))
  }

  lemma IndentedDepth(line: Line, indent: string, text: string)
    requires IsIndented(line, indent, text)
    ensures Depth(line) == |indent|
    ensures Blank(line) <==> text == ""
  {
    DepthIsIndent(line);
    assert forall i :: 0 <= i < |indent| ==> line[i] == indent[i];
    assert text != "" ==> line[|indent|] == text[0];
  }

  // ----- Ancestry

  /** Line `a` encloses everything from just after it up to position `i`: it is shallower than every
      nonblank line in between. */
  ghost predicate Encloses(lines: seq<Line>, a: int, i: int) {
    && 0 <= a < i <= |lines| && !Blank(lines[a])
    && forall b :: a < b < i && !Blank(lines[b]) ==> Depth(lines[a]) < Depth(lines[b])
  }

  /** Line `a` is an ancestor of line `i`. */
  ghost predicate Ancestor(lines: seq<Line>, a: int, i: int) {
    0 <= a < i < |lines| && !Blank(lines[i]) && Encloses(lines, a, i + 1)
  }

  /** Ancestry in terms of indents: line `a` is an ancestor of line `i` exactly when both have a text and
      every line with a text from just after `a` up to `i` is indented further than `a`. */
  lemma AncestorByIndent(lines: seq<Line>, indents: seq<string>, texts: seq<string>, a: int, i: int)
    requires |indents| == |texts| == |lines|
    requires forall k :: 0 <= k < |lines| ==> IsIndented(lines[k], indents[k], texts[k])
    ensures Ancestor(lines, a, i) <==>
            && 0 <= a < i < |lines| && texts[a] != "" && texts[i] != ""
            && forall b :: a < b <= i && texts[b] != "" ==> |indents[a]| < |indents[b]|
  {
    hide IsIndented, Depth, Blank;
    forall k | 0 <= k < |lines|
      ensures Depth(lines[k]) == |indents[k]| && (Blank(lines[k]) <==> texts[k] == "")
    {
      IndentedDepth(lines[k], indents[k], texts[k]);
    }
  }

  /** A nonblank line that matches the filter. */
  ghost predicate Hit(lines: seq<Line>, matches: Line -> bool, i: int) {
    0 <= i < |lines| && !Blank(lines[i]) && matches(lines[i])
  }

  /** What a caller asked for: the hits among the first `n` lines, and their ancestors. */
  ghost predicate Wanted(lines: seq<Line>, matches: Line -> bool, n: int, k: int) {
    (Hit(lines, matches, k) && k < n) || exists i :: i < n && Hit(lines, matches, i) && Ancestor(lines, k, i)
  }

  // ----- The pass

  /** The stack holds exactly the lines that enclose position `i`, outermost first. */
  ghost predicate IsStack(lines: seq<Line>, stack: seq<int>, i: int) {
    && 0 <= i <= |lines|
    && (forall a :: a in stack <==> Encloses(lines, a, i))
    && (forall s, t :: 0 <= s < t < |stack| ==> stack[s] < stack[t])
  }

  lemma StackIsDeepening(lines: seq<Line>, stack: seq<int>, i: int, s: int, t: int)
    requires IsStack(lines, stack, i) && 0 <= s < t < |stack|
    ensures 0 <= stack[s] < stack[t] < |lines| && Depth(lines[stack[s]]) < Depth(lines[stack[t]])
  {
    assert stack[s] in stack && stack[t] in stack;
    assert Encloses(lines, stack[s], i) && Encloses(lines, stack[t], i);
  }

  /** `while` the top is at least as deep as the line, pop. What is left is the line's ancestors. */
  method PopTo(lines: seq<Line>, stack: seq<int>, i: nat) returns (kept: seq<int>)
    requires IsStack(lines, stack, i) && i < |lines| && !Blank(lines[i])
    ensures forall a :: a in kept <==> Ancestor(lines, a, i)
    ensures kept <= stack
  {
    kept := stack;
    var depth := Depth(lines[i]);
    forall t | 0 <= t < |stack|
      ensures 0 <= stack[t] < |lines|
    {
      assert stack[t] in stack;
    }
    while |kept| > 0 && Depth(lines[kept[|kept| - 1]]) >= depth
      invariant kept <= stack
      invariant forall t :: |kept| <= t < |stack| ==> DeepAt(lines, stack[t], depth)
    {
      kept := kept[..|kept| - 1];
    }
    forall a
      ensures a in kept <==> Ancestor(lines, a, i)
    {
      KeptAreAncestors(lines, stack, kept, i, a);
    }
  }

  ghost predicate DeepAt(lines: seq<Line>, a: int, depth: nat) {
    0 <= a < |lines| && Depth(lines[a]) >= depth
  }

  lemma KeptAreAncestors(lines: seq<Line>, stack: seq<int>, kept: seq<int>, i: nat, a: int)
    requires IsStack(lines, stack, i) && i < |lines| && !Blank(lines[i]) && kept <= stack
    requires forall t :: |kept| <= t < |stack| ==> DeepAt(lines, stack[t], Depth(lines[i]))
    requires |kept| > 0 ==> !DeepAt(lines, kept[|kept| - 1], Depth(lines[i]))
    ensures a in kept <==> Ancestor(lines, a, i)
  {
    if a in kept {
      var s :| 0 <= s < |kept| && kept[s] == a;
      assert stack[s] == a && a in stack;
      var t := |kept| - 1;
      assert kept[t] == stack[t];
      assert stack[t] in stack;
      if s < t {
        StackIsDeepening(lines, stack, i, s, t);
      }
      assert Encloses(lines, a, i + 1);
    }
    if Ancestor(lines, a, i) {
      assert Encloses(lines, a, i);
      var t :| 0 <= t < |stack| && stack[t] == a;
      assert !DeepAt(lines, stack[t], Depth(lines[i]));
      assert kept[t] == a;
    }
  }

  lemma PushKeepsStack(lines: seq<Line>, stack: seq<int>, kept: seq<int>, i: nat)
    requires IsStack(lines, stack, i) && i < |lines| && !Blank(lines[i]) && kept <= stack
    requires forall a :: a in kept <==> Ancestor(lines, a, i)
    ensures IsStack(lines, kept + [i], i + 1)
  {
    var pushed := kept + [i];
    forall a
      ensures a in pushed <==> Encloses(lines, a, i + 1)
    {
      if a != i {
        assert a in pushed <==> a in kept;
        if Encloses(lines, a, i + 1) {
          assert a < i;
        }
      }
    }
    forall s, t | 0 <= s < t < |pushed|
      ensures pushed[s] < pushed[t]
    {
      if t == |kept| {
        assert pushed[s] == kept[s] && kept[s] in kept;
      } else {
        assert pushed[s] == stack[s] && pushed[t] == stack[t];
      }
    }
  }

  lemma BlankKeepsStack(lines: seq<Line>, stack: seq<int>, i: nat)
    requires IsStack(lines, stack, i) && i < |lines| && Blank(lines[i])
    ensures IsStack(lines, stack, i + 1)
  {
    forall a
      ensures a in stack <==> Encloses(lines, a, i + 1)
    {
    }
  }

  ghost predicate IsKeep(lines: seq<Line>, matches: Line -> bool, keep: set<int>, n: int) {
    forall k :: k in keep <==> Wanted(lines, matches, n, k)
  }

  lemma WantedNext(lines: seq<Line>, matches: Line -> bool, i: nat, k: int)
    requires i < |lines|
    ensures Wanted(lines, matches, i + 1, k) <==>
            || Wanted(lines, matches, i, k)
            || (Hit(lines, matches, i) && (k == i || Ancestor(lines, k, i)))
  {
    hide Ancestor, Hit;
    if Wanted(lines, matches, i + 1, k) && !Wanted(lines, matches, i, k) && !(Hit(lines, matches, k) && k == i) {
      HitInRange(lines, matches, k);
      var h :| h < i + 1 && Hit(lines, matches, h) && Ancestor(lines, k, h);
    }
  }

  lemma HitInRange(lines: seq<Line>, matches: Line -> bool, k: int)
    ensures Hit(lines, matches, k) ==> 0 <= k < |lines|
  {
  }

  /** The walk over the lines: which line numbers to keep. */
  method KeepLines(lines: seq<Line>, matches: Line -> bool) returns (keep: set<int>)
    ensures IsKeep(lines, matches, keep, |lines|)
  {
    hide Wanted, IsStack, Ancestor;
    keep := {};
    var stack: seq<int> := [];
    NothingYet(lines, matches);
    for index := 0 to |lines|
      invariant IsStack(lines, stack, index)
      invariant IsKeep(lines, matches, keep, index)
    {
      forall k {
        WantedNext(lines, matches, index, k);
      }
      if Blank(lines[index]) {
        BlankKeepsStack(lines, stack, index);
        continue;
      }
      var kept := PopTo(lines, stack, index);
      PushKeepsStack(lines, stack, kept, index);
      if matches(lines[index]) {
        keep := keep + (set a | a in kept) + {index};
      }
      stack := kept + [index];
    }
  }

  lemma NothingYet(lines: seq<Line>, matches: Line -> bool)
    ensures IsStack(lines, [], 0) && IsKeep(lines, matches, {}, 0)
  {
  }

  // ----- The narrowed snapshot

  /** The members of `keep` below `n`, ascending. */
  function Indices(keep: set<int>, n: nat): seq<int> {
    if n == 0 then [] else Indices(keep, n - 1) + if n - 1 in keep then [n - 1] else []
  }

  function Pick(lines: seq<Line>, indices: seq<int>): (r: seq<Line>)
    requires forall k | k in indices :: 0 <= k < |lines|
    ensures |r| == |indices|
  {
    seq(|indices|, p requires 0 <= p < |indices| => assert indices[p] in indices; lines[indices[p]])
  }

  lemma {:induction false} IndicesAscend(keep: set<int>, n: nat)
    ensures forall p, q :: 0 <= p < q < |Indices(keep, n)| ==> Indices(keep, n)[p] < Indices(keep, n)[q]
    ensures forall k :: k in Indices(keep, n) <==> 0 <= k < n && k in keep
  {
    if n > 0 {
      IndicesAscend(keep, n - 1);
      var shorter := Indices(keep, n - 1);
      assert forall p :: 0 <= p < |shorter| ==> shorter[p] in shorter;
    }
  }

  /** Line `p` of `out` is line `at[p]` of `lines`: the wanted lines, each once, in their order. */
  ghost predicate Narrows(lines: seq<Line>, matches: Line -> bool, out: seq<Line>, at: seq<int>) {
    && |at| == |out|
    && (forall p :: 0 <= p < |at| ==> 0 <= at[p] < |lines| && out[p] == lines[at[p]])
    && (forall p, q :: 0 <= p < q < |at| ==> at[p] < at[q])
    && (forall k :: k in at <==> Wanted(lines, matches, |lines|, k))
  }

  lemma WantedInRange(lines: seq<Line>, matches: Line -> bool, n: int, k: int)
    requires Wanted(lines, matches, n, k)
    ensures 0 <= k < |lines|
  {
  }

  /** Which lines are kept, in terms of indents and texts: one that has a text and matches, and one with a
      text that some matching line stands below, indented further, with every line with a text in between
      indented further too. */
  lemma KeptByIndent(lines: seq<Line>, indents: seq<string>, texts: seq<string>, matches: Line -> bool,
                     out: seq<Line>, at: seq<int>, k: int)
    requires |indents| == |texts| == |lines|
    requires forall k :: 0 <= k < |lines| ==> IsIndented(lines[k], indents[k], texts[k])
    requires Narrows(lines, matches, out, at)
    ensures k in at <==>
            && 0 <= k < |lines| && texts[k] != ""
            && exists i :: k <= i < |lines| && texts[i] != "" && matches(lines[i])
                 && forall b :: k < b <= i && texts[b] != "" ==> |indents[k]| < |indents[b]|
  {
    hide IsIndented, Ancestor, Depth, Blank;
    forall i | 0 <= i < |lines|
      ensures Blank(lines[i]) <==> texts[i] == ""
      ensures Ancestor(lines, k, i) <==>
              && 0 <= k < i && texts[k] != "" && texts[i] != ""
              && forall b :: k < b <= i && texts[b] != "" ==> |indents[k]| < |indents[b]|
    {
      IndentedDepth(lines[i], indents[i], texts[i]);
      AncestorByIndent(lines, indents, texts, k, i);
    }
    if k in at {
      WantedInRange(lines, matches, |lines|, k);
      if Hit(lines, matches, k) {
        assert k <= k;
      } else {
        var i :| i < |lines| && Hit(lines, matches, i) && Ancestor(lines, k, i);
        AncestorByIndent(lines, indents, texts, k, i);
      }
    }
    if 0 <= k < |lines| && texts[k] != "" {
      if i :| k <= i < |lines| && texts[i] != "" && matches(lines[i])
              && forall b :: k < b <= i && texts[b] != "" ==> |indents[k]| < |indents[b]| {
        assert Hit(lines, matches, i);
        assert i == k || Ancestor(lines, k, i);
      }
    }
  }

  method Narrow(lines: seq<Line>, matches: Line -> bool) returns (keep: set<int>, out: seq<Line>, ghost at: seq<int>)
    ensures Narrows(lines, matches, out, at)
    ensures keep == {} <==> out == []
    ensures keep == {} <==> forall i :: !Hit(lines, matches, i)
  {
    hide Wanted, Indices;
    keep := KeepLines(lines, matches);
    forall k | k in keep
      ensures 0 <= k < |lines|
    {
      WantedInRange(lines, matches, |lines|, k);
    }
    IndicesAscend(keep, |lines|);
    var indices := Indices(keep, |lines|);
    at := indices;
    out := Pick(lines, indices);
    forall p | 0 <= p < |at|
      ensures 0 <= at[p] < |lines| && out[p] == lines[at[p]]
    {
      assert at[p] in at;
    }
    if keep == {} {
      forall i
        ensures !Hit(lines, matches, i)
      {
        HitIsWanted(lines, matches, i);
      }
    } else {
      var k :| k in keep;
      assert k in indices;
      WantedHasHit(lines, matches, k);
    }
    assert out == [] <==> indices == [];
    assert indices != [] ==> indices[0] in indices;
  }

  lemma HitIsWanted(lines: seq<Line>, matches: Line -> bool, i: int)
    ensures Hit(lines, matches, i) ==> Wanted(lines, matches, |lines|, i)
  {
  }

  lemma WantedHasHit(lines: seq<Line>, matches: Line -> bool, k: int)
    requires Wanted(lines, matches, |lines|, k)
    ensures exists i :: Hit(lines, matches, i)
  {
  }

  // ----- Ancestry survives the filter

  lemma AncestorIsTransitive(lines: seq<Line>, a: int, b: int, c: int)
    requires Ancestor(lines, a, b) && Ancestor(lines, b, c)
    ensures Ancestor(lines, a, c)
  {
  }

  /** Every ancestor of a wanted line is wanted. */
  lemma WantedIsAncestorClosed(lines: seq<Line>, matches: Line -> bool, a: int, k: int)
    requires Wanted(lines, matches, |lines|, k) && Ancestor(lines, a, k)
    ensures Wanted(lines, matches, |lines|, a)
  {
    hide Ancestor, Hit;
    if !(Hit(lines, matches, k) && k < |lines|) {
      var i :| i < |lines| && Hit(lines, matches, i) && Ancestor(lines, k, i);
      AncestorIsTransitive(lines, a, k, i);
    }
  }

  /** If a nonblank line between `a` and `i` is no deeper than `a`, the last such line is an ancestor
      of `i`. */
  lemma {:induction false} LastShallow(lines: seq<Line>, a: int, b: int, i: int) returns (c: int)
    requires 0 <= a < b < i < |lines| && !Blank(lines[i]) && !Blank(lines[b])
    requires Depth(lines[b]) <= Depth(lines[a]) < Depth(lines[i])
    ensures b <= c < i && Depth(lines[c]) <= Depth(lines[a]) && Ancestor(lines, c, i)
    decreases i - b
  {
    if Ancestor(lines, b, i) {
      c := b;
    } else {
      var d :| b < d < i + 1 && !Blank(lines[d]) && Depth(lines[b]) >= Depth(lines[d]);
      c := LastShallow(lines, a, d, i);
    }
  }

  /** Every kept line has the same ancestors in the output as in the input. */
  lemma AncestorsAreKept(lines: seq<Line>, matches: Line -> bool, out: seq<Line>, at: seq<int>, p: int, q: int)
    requires Narrows(lines, matches, out, at) && 0 <= p < |out| && 0 <= q < |out|
    ensures Ancestor(out, p, q) <==> Ancestor(lines, at[p], at[q])
  {
    hide Wanted;
    if Ancestor(lines, at[p], at[q]) {
      OrderReflects(at, p, q);
      forall b | p < b < q + 1 && !Blank(out[b])
        ensures Depth(out[p]) < Depth(out[b])
      {
        assert at[p] < at[b] && at[b] < at[q] + 1;
      }
      assert Encloses(out, p, q + 1);
    }
    if Ancestor(out, p, q) && !Ancestor(lines, at[p], at[q]) {
      assert at[p] < at[q];
      assert Depth(out[p]) < Depth(out[q]);
      var b :| at[p] < b < at[q] + 1 && !Blank(lines[b]) && Depth(lines[at[p]]) >= Depth(lines[b]);
      var c := LastShallow(lines, at[p], b, at[q]);
      assert at[q] in at;
      WantedIsAncestorClosed(lines, matches, c, at[q]);
      var r :| 0 <= r < |at| && at[r] == c;
      OrderReflects(at, p, r);
      OrderReflects(at, r, q);
      BetweenIsDeeper(out, p, r, q);
    }
  }

  lemma OrderReflects(at: seq<int>, p: int, q: int)
    requires 0 <= p < |at| && 0 <= q < |at| && at[p] < at[q]
    requires forall i, j :: 0 <= i < j < |at| ==> at[i] < at[j]
    ensures p < q
  {
  }

  lemma BetweenIsDeeper(lines: seq<Line>, a: int, b: int, i: int)
    requires Ancestor(lines, a, i) && a < b <= i && !Blank(lines[b])
    ensures Depth(lines[a]) < Depth(lines[b])
  {
  }

  /** In the narrowed snapshot every line is wanted. */
  lemma OutputIsAllWanted(lines: seq<Line>, matches: Line -> bool, out: seq<Line>, at: seq<int>, p: int)
    requires Narrows(lines, matches, out, at) && 0 <= p < |out|
    ensures Wanted(out, matches, |out|, p)
  {
    assert at[p] in at;
    assert Wanted(lines, matches, |lines|, at[p]);
    if !Hit(lines, matches, at[p]) {
      var i :| i < |lines| && Hit(lines, matches, i) && Ancestor(lines, at[p], i);
      HitIsWanted(lines, matches, i);
      var q :| 0 <= q < |at| && at[q] == i;
      AncestorsAreKept(lines, matches, out, at, p, q);
      assert Hit(out, matches, q);
    }
  }

  /** Narrowing again with the same filter changes nothing. */
  lemma NarrowingIsIdempotent(lines: seq<Line>, matches: Line -> bool, out: seq<Line>, at: seq<int>,
                              again: seq<Line>, at': seq<int>)
    requires Narrows(lines, matches, out, at) && Narrows(out, matches, again, at')
    ensures again == out
  {
    hide Wanted;
    forall p | 0 <= p < |out|
      ensures p in at'
    {
      OutputIsAllWanted(lines, matches, out, at, p);
    }
    AscendingRange(at', |out|);
  }

  lemma {:induction false} AscendingRange(at: seq<int>, n: nat)
    requires forall p, q :: 0 <= p < q < |at| ==> at[p] < at[q]
    requires forall p :: 0 <= p < |at| ==> 0 <= at[p] < n
    requires forall k :: 0 <= k < n ==> k in at
    ensures |at| == n && forall p :: 0 <= p < |at| ==> at[p] == p
  {
    if |at| == 0 {
      assert n == 0 || 0 in at;
    } else {
      assert 0 <= at[0] < n;
      assert n - 1 in at;
      var last := |at| - 1;
      assert at[last] == n - 1;
      var front := at[..last];
      forall k | 0 <= k < n - 1
        ensures k in front
      {
        assert k in at;
      }
      AscendingRange(front, n - 1);
    }
  }

  // ----- Whole texts

  /** How lines are chosen: text compared in lower case, or a pattern. */
  datatype SnapshotFilter = Words(text: string) | Pattern(test: string -> bool)

  predicate ContainsText(line: string, text: string) {
    text <= line || (line != "" && ContainsText(line[1..], text))
  }

  /** A line contains a text exactly when it is that text with something, or nothing, on either side. */
  lemma {:induction false} ContainsMeans(line: string, text: string)
    ensures ContainsText(line, text) <==> exists before, after :: line == before + text + after
  {
    if text <= line {
      assert line == "" + text + line[|text|..];
    } else if line != "" {
      ContainsMeans(line[1..], text);
      if before, after :| line[1..] == before + text + after {
        assert line == ([line[0]] + before) + text + after;
      }
      if before, after :| line == before + text + after {
        assert before == "" ==> line == text + after;
        assert line[1..] == before[1..] + text + after;
      }
    } else {
      assert text != "";
    }
  }

  predicate Matches(find: SnapshotFilter, lower: string -> string, line: Line) {
    match find
    case Words(text) => ContainsText(lower(line), lower(text))
    case Pattern(test) => test(line)
  }

  /** Words are looked for whatever the case of either side; a pattern sees the line as it is. */
  lemma MatchesMeans(find: SnapshotFilter, lower: string -> string, line: Line)
    ensures find.Words? ==> (Matches(find, lower, line) <==>
                             exists before, after :: lower(line) == before + lower(find.text) + after)
    ensures find.Pattern? ==> (Matches(find, lower, line) <==> find.test(line))
  {
    if find.Words? {
      ContainsMeans(lower(line), lower(find.text));
    }
  }

  /** The narrowed text, or the fact that nothing matched and how many lines there were. */
  datatype Filtered = Narrowed(text: string) | NoMatch(lineCount: nat)

  ghost predicate IsFiltered(snapshot: string, find: SnapshotFilter, lower: string -> string, r: Filtered) {
    var lines, matches := Split(snapshot, '\n'), line => Matches(find, lower, line);
    if forall i :: !Hit(lines, matches, i) then r == NoMatch(|lines|)
    else exists out, at :: out != [] && Narrows(lines, matches, out, at) && r == Narrowed(Join(out, '\n'))
  }

  method FilterSnapshot(snapshot: string, find: SnapshotFilter, lower: string -> string) returns (r: Filtered)
    ensures IsFiltered(snapshot, find, lower, r)
  {
    hide Split, Join, Hit, Narrows;
    var lines := Split(snapshot, '\n');
    var keep, out, at := Narrow(lines, line => Matches(find, lower, line));
    r := if |keep| == 0 then NoMatch(|lines|) else Narrowed(Join(out, '\n'));
  }

  /** A miss is reported exactly when no nonblank line matches, and it counts the lines: one more than there
      are line breaks. */
  lemma MissTellsLineCount(snapshot: string, find: SnapshotFilter, lower: string -> string, r: Filtered)
    requires IsFiltered(snapshot, find, lower, r)
    ensures var lines, matches := Split(snapshot, '\n'), line => Matches(find, lower, line);
            r.NoMatch? <==> forall i :: !Hit(lines, matches, i)
    ensures r.NoMatch? ==> r.lineCount == 1 + multiset(snapshot)['\n']
  {
    hide Split, Hit, Narrows;
    PartsOfSplit(snapshot, '\n');
  }

  /** Filtering the result again with the same filter gives the result back, whenever anything matched. */
  lemma FilterIsIdempotent(snapshot: string, find: SnapshotFilter, lower: string -> string, r: Filtered, again: Filtered)
    requires IsFiltered(snapshot, find, lower, r) && r.Narrowed?
    requires IsFiltered(r.text, find, lower, again)
    ensures again == r
  {
    hide Split, Join, Hit;
    var lines, matches := Split(snapshot, '\n'), line => Matches(find, lower, line);
    var out, at :| out != [] && Narrows(lines, matches, out, at) && r == Narrowed(Join(out, '\n'));
    SplitOfJoin(out, '\n');
    OutputHasHit(lines, matches, out, at);
    var out', at' :| out' != [] && Narrows(out, matches, out', at') && again == Narrowed(Join(out', '\n'));
    NarrowingIsIdempotent(lines, matches, out, at, out', at');
  }

  lemma OutputHasHit(lines: seq<Line>, matches: Line -> bool, out: seq<Line>, at: seq<int>)
    requires Narrows(lines, matches, out, at) && out != []
    ensures exists i :: Hit(out, matches, i)
  {
    OutputIsAllWanted(lines, matches, out, at, 0);
    WantedHasHit(out, matches, 0);
  }
}
