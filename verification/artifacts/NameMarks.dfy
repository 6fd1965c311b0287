/** Which characters of a text leave a mark in the name it reduces to, and two things the words beside
    `reduce` (src/artifacts/names.ts:79-110) promise that it does not do: names may hold a run of hyphens,
    and two different texts may give one name. Both are stated with the condition under which they happen. */
module NameMarks {
  import opened Names
  import opened Wrappers

  /** A letter or a digit: what a name is made of, apart from hyphens. */
  predicate IsWord(c: char) {
    IsSafe(c) && c != '-'
  }

  predicate HasWord(v: string) {
    exists i :: 0 <= i < |v| && IsWord(v[i])
  }

  /** Character `j` leaves a mark of its own: a letter or a digit always, and after the first of these a
      hyphen, or an unsafe character that follows one of these directly. */
  predicate LeavesMark(v: string, j: nat)
    requires j < |v|
  {
    IsWord(v[j]) || (HasWord(v[..j]) && (v[j] == '-' || IsWord(v[j - 1])))
  }

  /** How many of the first `k` characters leave a mark: the column that character `k` would have. */
  function Column(v: string, k: nat): nat
    requires k <= |v|
  {
    if k == 0 then 0 else Column(v, k - 1) + if LeavesMark(v, k - 1) then 1 else 0
  }

  // ----- One character at a time

  function Trimmed(v: string): string {
    TrimStart(Collapse(v))
  }

  function Extend(t: string, c: char): string {
    if IsWord(c) then t + [c]
    else if t != "" && (c == '-' || t[|t| - 1] != '-') then t + "-"
    else t
  }

  lemma {:induction false} TrimStartOfAppend(x: string, c: char)
    ensures TrimStart(x + [c]) == if TrimStart(x) == "" && c == '-' then "" else TrimStart(x) + [c]
    ensures TrimStart(x) != "" ==> TrimStart(x)[|TrimStart(x)| - 1] == x[|x| - 1]
    ensures TrimStart(x) == "" && x != "" ==> x[|x| - 1] == '-'
  {
    if x != "" {
      assert (x + [c])[1..] == x[1..] + [c];
      TrimStartOfAppend(x[1..], c);
    } else {
      assert [c][1..] == "";
    }
  }

  lemma TrimmedNext(v: string, c: char)
    ensures Trimmed(v + [c]) == Extend(Trimmed(v), c)
  {
    hide Collapse;
    CollapseNext(v, c);
    var x := Collapse(v);
    TrimStartOfAppend(x, c);
    TrimStartOfAppend(x, '-');
    if x != "" {
      assert IsWord(c) || c == '-' || Push(x, c) == x || Push(x, c) == x + ['-'];
    }
  }

  lemma TrimmedUpTo(v: string, k: nat)
    requires k < |v|
    ensures Trimmed(v[..k + 1]) == Extend(Trimmed(v[..k]), v[k])
  {
    hide Trimmed, Extend;
    assert v[..k + 1] == v[..k] + [v[k]];
    TrimmedNext(v[..k], v[k]);
  }

  lemma NothingIsRead(v: string)
    ensures Trimmed(v[..0]) == ""
  {
    assert v[..0] == "";
  }

  /** What the next character does to the trimmed text depends only on what came right before it. */
  lemma {:induction false} TrimmedEnd(v: string, k: nat)
    requires k <= |v|
    ensures var t := Trimmed(v[..k]);
            && (t != "" <==> HasWord(v[..k]))
            && (t != "" ==> (t[|t| - 1] != '-' <==> IsWord(v[k - 1])))
  {
    hide Trimmed;
    if k == 0 {
      NothingIsRead(v);
    } else {
      TrimmedEnd(v, k - 1);
      TrimmedUpTo(v, k - 1);
      assert v[..k][k - 1] == v[k - 1];
      assert forall i :: 0 <= i < k - 1 ==> v[..k][i] == v[..k - 1][i];
    }
  }

  /** The trimmed text is exactly one character for every mark. */
  lemma {:induction false} ColumnIsLength(v: string, k: nat)
    requires k <= |v|
    ensures Column(v, k) == |Trimmed(v[..k])|
  {
    hide Trimmed, HasWord, IsWord;
    if k == 0 {
      NothingIsRead(v);
    } else {
      ColumnIsLength(v, k - 1);
      TrimmedUpTo(v, k - 1);
      TrimmedEnd(v, k - 1);
    }
  }

  lemma {:induction false} TrimmedGrows(v: string, j: nat, k: nat)
    requires j <= k <= |v|
    ensures Trimmed(v[..j]) <= Trimmed(v[..k])
  {
    hide Trimmed;
    if j < k {
      TrimmedGrows(v, j, k - 1);
      TrimmedUpTo(v, k - 1);
    }
  }

  // ----- From the trimmed text to the name

  /** `u` ends in a letter or a digit. */
  predicate EndsInWord(u: string) {
    u != "" && u[|u| - 1] != '-'
  }

  /** The name is the longest beginning of the trimmed text that fits and ends in a letter or a digit. */
  lemma PartCuts(v: string)
    ensures HasWord(v) ==> PartOf(v) <= Trimmed(v)
    ensures HasWord(v) ==> forall u :: u <= Trimmed(v) && EndsInWord(u) && |u| <= MAXIMUM_PART_LENGTH ==> u <= PartOf(v)
    ensures !HasWord(v) ==> PartOf(v) == EMPTY_PART
  {
    assert v[..|v|] == v;
    TrimmedEnd(v, |v|);
    PartIsPart(v);
    hide HasWord, Collapse, TrimStart;
    var t := Trimmed(v);
    if t != "" {
      var collapsed := TrimEnd(t);
      var clipped := TrimEnd(Clip(collapsed));
      assert t[0] != '-';
      assert collapsed[0] == t[0];
      assert Clip(collapsed)[0] == collapsed[0];
      forall u | u <= t && EndsInWord(u) && |u| <= MAXIMUM_PART_LENGTH
        ensures u <= PartOf(v)
      {
        TrimEndKeeps(t, u);
        TrimEndKeeps(Clip(collapsed), u);
      }
    }
  }

  lemma PartHolds(v: string, u: string)
    requires HasWord(v) && u <= Trimmed(v) && EndsInWord(u) && |u| <= MAXIMUM_PART_LENGTH
    ensures u <= PartOf(v)
  {
    hide Trimmed, PartOf, HasWord, EndsInWord;
    PartCuts(v);
  }

  /** A name is itself such a beginning of the trimmed text. */
  lemma PartIsBeginning(v: string)
    requires HasWord(v)
    ensures PartOf(v) <= Trimmed(v) && EndsInWord(PartOf(v)) && |PartOf(v)| <= MAXIMUM_PART_LENGTH
  {
    PartIsPart(v);
    hide Trimmed, PartOf, HasWord;
    PartCuts(v);
  }

  lemma {:induction false} TrimEndKeeps(t: string, u: string)
    requires u <= t && EndsInWord(u)
    ensures u <= TrimEnd(t)
  {
    if t[|t| - 1] == '-' {
      assert |u| < |t|;
      TrimEndKeeps(t[..|t| - 1], u);
    }
  }

  /** Every beginning of the trimmed text that ends in a letter or a digit was complete when that
      character was read. */
  lemma {:induction false} WordWasRead(v: string, n: nat, u: string) returns (k: nat)
    requires n <= |v| && u <= Trimmed(v[..n]) && EndsInWord(u)
    ensures k < n && IsWord(v[k]) && u == Trimmed(v[..k]) + [v[k]]
  {
    hide Trimmed;
    NothingIsRead(v);
    TrimmedUpTo(v, n - 1);
    var t := Trimmed(v[..n - 1]);
    if |u| <= |t| {
      k := WordWasRead(v, n - 1, u);
    } else {
      k := n - 1;
    }
  }

  lemma WordIsRead(v: string, k: nat)
    requires k < |v| && IsWord(v[k])
    ensures Trimmed(v[..k]) + [v[k]] <= Trimmed(v)
  {
    hide Trimmed;
    TrimmedUpTo(v, k);
    TrimmedGrows(v, k + 1, |v|);
    assert v[..|v|] == v;
  }

  /** Letter or digit `c` stands at a column of the name. */
  predicate Shows(v: string, column: nat, c: char) {
    IsWord(c) && exists k :: 0 <= k < |v| && v[k] == c && Column(v, k) == column
  }

  /** The letters and digits of a name are those of the text, each at its own column, as far as they fit. */
  lemma PartShows(v: string, column: nat, c: char)
    requires HasWord(v) && IsWord(c)
    ensures (column < |PartOf(v)| && PartOf(v)[column] == c) <==> column < MAXIMUM_PART_LENGTH && Shows(v, column, c)
  {
    PartIsPart(v);
    PartCuts(v);
    hide Trimmed, PartOf, HasWord;
    var part := PartOf(v);
    if column < |part| && part[column] == c {
      assert v[..|v|] == v;
      var k := WordWasRead(v, |v|, part[..column + 1]);
      ColumnIsLength(v, k);
      assert v[k] == part[..column + 1][column] == c && Column(v, k) == column;
    }
    if column < MAXIMUM_PART_LENGTH && Shows(v, column, c) {
      var k :| 0 <= k < |v| && v[k] == c && Column(v, k) == column;
      ColumnIsLength(v, k);
      WordIsRead(v, k);
      var u := Trimmed(v[..k]) + [c];
      assert u <= part && part[column] == u[column];
    }
  }

  /** The name of a page that parses begins with the name of its host; one that does not parse is named
      after its text up to the query. */
  lemma HostComesFirst(address: string, env: Environment)
    requires !IsBlank(address, env.space)
    ensures env.parse(WithoutQuery(address)).None? ==> SlugFromUrl(Some(address), env) == PartOf(env.lower(WithoutQuery(address)))
    ensures match env.parse(WithoutQuery(address))
            case Some((host, path)) =>
              env.lower(host + path) == env.lower(host) + env.lower(path) && HasWord(env.lower(host)) ==>
                PartOf(env.lower(host)) <= SlugFromUrl(Some(address), env)
            case None => true
  {
    hide PartOf, HasWord;
    match env.parse(WithoutQuery(address)) {
      case Some((host, path)) =>
        if env.lower(host + path) == env.lower(host) + env.lower(path) && HasWord(env.lower(host)) {
          LongerTextSameStart(env.lower(host), env.lower(path));
        }
      case None =>
    }
  }

  /** What follows a text never changes the name's beginning. */
  lemma LongerTextSameStart(v: string, more: string)
    requires HasWord(v)
    ensures PartOf(v) <= PartOf(v + more)
  {
    assert HasWord(v + more) by {
      var i :| 0 <= i < |v| && IsWord(v[i]);
      assert (v + more)[i] == v[i];
    }
    hide Trimmed, PartOf, HasWord, EndsInWord, IsWord;
    PartIsBeginning(v);
    TrimmedGrows(v + more, |v|, |v + more|);
    assert (v + more)[..|v|] == v && (v + more)[..|v + more|] == v + more;
    PartHolds(v + more, PartOf(v));
  }

  // ----- Runs of hyphens

  predicate HasRun(t: string) {
    exists p :: 0 <= p < |t| - 1 && t[p] == '-' && t[p + 1] == '-'
  }

  /** A hyphen of the text that follows another hyphen, or an unsafe character, after a letter or digit. */
  predicate DoublesAt(v: string, i: int, j: int) {
    0 <= i < j < |v| && IsWord(v[i]) && v[j] == '-' && !IsWord(v[j - 1])
  }

  lemma ExtendRun(t: string, c: char)
    ensures HasRun(Extend(t, c)) <==> HasRun(t) || (c == '-' && t != "" && t[|t| - 1] == '-')
  {
    var r := Extend(t, c);
    if HasRun(t) {
      var p :| 0 <= p < |t| - 1 && t[p] == '-' && t[p + 1] == '-';
      assert r[p] == '-' && r[p + 1] == '-';
    }
    if HasRun(r) {
      var p :| 0 <= p < |r| - 1 && r[p] == '-' && r[p + 1] == '-';
      if p < |t| - 1 {
        assert t[p] == '-' && t[p + 1] == '-';
      }
    }
    if c == '-' && t != "" && t[|t| - 1] == '-' {
      assert r[|t| - 1] == '-' && r[|t|] == '-';
    }
  }

  lemma NoRunInNothing()
    ensures !HasRun("") && !HasRun(EMPTY_PART)
  {
  }

  /** After a letter or a digit, a hyphen that follows anything else is a double. */
  lemma DoublesLast(v: string, j: nat)
    requires j < |v|
    ensures (exists i, last :: last == j && DoublesAt(v, i, last)) <==> v[j] == '-' && HasWord(v[..j]) && !IsWord(v[j - 1])
  {
    hide IsWord;
    if v[j] == '-' && HasWord(v[..j]) && !IsWord(v[j - 1]) {
      var i :| 0 <= i < j && IsWord(v[..j][i]);
      assert DoublesAt(v, i, j);
    }
    if i, last :| last == j && DoublesAt(v, i, last) {
      assert IsWord(v[..j][i]);
    }
  }

  lemma {:induction false} RunsAreDoubles(v: string, k: nat)
    requires k <= |v|
    ensures HasRun(Trimmed(v[..k])) <==> exists i, j :: j < k && DoublesAt(v, i, j)
  {
    hide Trimmed, Extend, HasRun, HasWord, IsWord;
    if k == 0 {
      NothingIsRead(v);
      NoRunInNothing();
    } else {
      RunsAreDoubles(v, k - 1);
      TrimmedUpTo(v, k - 1);
      TrimmedEnd(v, k - 1);
      ExtendRun(Trimmed(v[..k - 1]), v[k - 1]);
      DoublesLast(v, k - 1);
    }
  }

  lemma RunsOfPrefix(t: string, u: string)
    requires t <= u && HasRun(t)
    ensures HasRun(u)
  {
    var p :| 0 <= p < |t| - 1 && t[p] == '-' && t[p + 1] == '-';
    assert u[p] == '-' && u[p + 1] == '-';
  }

  /** The double at `j` is followed by a letter or a digit whose column a name still reaches. */
  predicate DoubleFits(v: string, i: int, j: int, k: int) {
    DoublesAt(v, i, j) && j < k < |v| && IsWord(v[k]) && Column(v, k) < MAXIMUM_PART_LENGTH
  }

  /** A name holds a run of hyphens exactly when its text has, after a letter or a digit, a hyphen that
      follows a hyphen or an unsafe character, and after that a letter or a digit that still fits. */
  lemma RunSurvives(v: string)
    ensures HasRun(PartOf(v)) <==> exists i, j, k :: DoubleFits(v, i, j, k)
  {
    hide HasRun, PartOf, DoubleFits;
    if HasRun(PartOf(v)) {
      var i, j, k := RunWasDouble(v);
    }
    if i, j, k :| DoubleFits(v, i, j, k) {
      DoubleReachesName(v, i, j, k);
    }
  }

  lemma RunWasDouble(v: string) returns (i: int, j: int, k: int)
    requires HasRun(PartOf(v))
    ensures DoubleFits(v, i, j, k)
  {
    NoRunInNothing();
    PartCuts(v);
    assert v[..|v|] == v;
    hide Trimmed, PartOf, HasRun, DoublesAt, Column, HasWord, EndsInWord;
    PartIsBeginning(v);
    k := WordWasRead(v, |v|, PartOf(v));
    ColumnIsLength(v, k);
    ExtendRun(Trimmed(v[..k]), v[k]);
    RunsAreDoubles(v, k);
    i, j :| j < k && DoublesAt(v, i, j);
  }

  lemma DoubleReachesName(v: string, i: int, j: int, k: int)
    requires DoubleFits(v, i, j, k)
    ensures HasRun(PartOf(v))
  {
    assert HasWord(v);
    hide Trimmed, PartOf, HasRun, Column, HasWord, DoublesAt;
    ColumnIsLength(v, k);
    RunsAreDoubles(v, k);
    WordIsRead(v, k);
    var u := Trimmed(v[..k]) + [v[k]];
    RunsOfPrefix(Trimmed(v[..k]), u);
    PartHolds(v, u);
    RunsOfPrefix(u, PartOf(v));
  }

  /** A run that nobody typed: a space and a hyphen between two letters. */
  lemma RunFromNothingTyped()
    ensures !HasRun("a -b") && PartOf("a -b") == "a--b" && HasRun(PartOf("a -b"))
  {
    RunWhenRead();
    PartOfShort("a -b");
    hide Trimmed, PartOf;
    var t := "a--b";
    assert t[1] == '-' && t[2] == '-';
  }

  lemma RunWhenRead()
    ensures Trimmed("a -b") == "a--b"
  {
    hide Trimmed;
    ReadOne("", "", 'a', "a", "a");
    ReadOne("a", "a", ' ', "a ", "a-");
    ReadOne("a ", "a-", '-', "a -", "a--");
    ReadOne("a -", "a--", 'b', "a -b", "a--b");
  }

  lemma ReadOne(v: string, t: string, c: char, next: string, r: string)
    requires if v == "" then t == "" else Trimmed(v) == t
    requires next == v + [c] && Extend(t, c) == r
    ensures Trimmed(next) == r
  {
    NothingIsRead(v);
    TrimmedNext(v, c);
    hide Trimmed;
    assert v == "" ==> v[..0] == v;
  }

  lemma PartOfShort(v: string)
    requires EndsInWord(Trimmed(v)) && |Trimmed(v)| <= MAXIMUM_PART_LENGTH
    ensures PartOf(v) == Trimmed(v)
  {
  }

  // ----- Texts that give one name

  /** The text a name is made from: the text itself, or the stand-in when it holds no letter or digit. */
  function Named(v: string): string {
    if HasWord(v) then v else EMPTY_PART
  }

  /** Two texts give one name exactly when, column by column as far as a name reaches, they show the same
      letters and digits. */
  lemma SameName(a: string, b: string)
    ensures PartOf(a) == PartOf(b) <==>
            forall column: nat, c :: column < MAXIMUM_PART_LENGTH ==>
              (Shows(Named(a), column, c) <==> Shows(Named(b), column, c))
  {
    NamedGivesName(a);
    NamedGivesName(b);
    hide Named, HasWord, PartOf, Shows;
    var x, y := Named(a), Named(b);
    if PartOf(x) == PartOf(y) {
      forall column: nat, c | column < MAXIMUM_PART_LENGTH
        ensures Shows(x, column, c) <==> Shows(y, column, c)
      {
        ShowsWordsOnly(x, y, column, c);
        if IsWord(c) {
          PartShows(x, column, c);
          PartShows(y, column, c);
        }
      }
    }
    if forall column: nat, c :: column < MAXIMUM_PART_LENGTH ==> (Shows(x, column, c) <==> Shows(y, column, c)) {
      PartIsPart(x);
      PartIsPart(y);
      forall column: nat, c | column < MAXIMUM_PART_LENGTH && IsWord(c)
        ensures Stands(PartOf(x), column, c) <==> Stands(PartOf(y), column, c)
      {
        PartShows(x, column, c);
        PartShows(y, column, c);
      }
      PartsAgree(PartOf(x), PartOf(y));
    }
  }

  lemma NamedGivesName(v: string)
    ensures HasWord(Named(v)) && PartOf(Named(v)) == PartOf(v)
  {
    assert IsWord(EMPTY_PART[0]);
    assert IsPart(EMPTY_PART);
    if !HasWord(v) {
      PartCuts(v);
      hide PartOf, Trimmed, HasWord;
      PartsAreFixed(EMPTY_PART);
    }
  }

  lemma ShowsWordsOnly(x: string, y: string, column: nat, c: char)
    ensures Shows(x, column, c) || Shows(y, column, c) ==> IsWord(c)
  {
  }

  predicate Stands(part: string, column: nat, c: char) {
    column < |part| && part[column] == c
  }

  /** Between the letters and digits of a name there is nothing but hyphens. */
  lemma PartsAgree(x: string, y: string)
    requires IsPart(x) && IsPart(y)
    requires forall column: nat, c :: column < MAXIMUM_PART_LENGTH && IsWord(c) ==> (Stands(x, column, c) <==> Stands(y, column, c))
    ensures x == y
  {
    assert Stands(x, |x| - 1, x[|x| - 1]) && Stands(y, |y| - 1, y[|y| - 1]);
    assert |x| == |y|;
    forall i | 0 <= i < |x|
      ensures x[i] == y[i]
    {
      assert Stands(x, i, x[i]) && Stands(y, i, y[i]);
    }
  }

  /** Two texts, each with one space and one hyphen in a place of its own, and one name. */
  lemma DifferentTextsOneName()
    ensures "a b-c" != "a-b c" && PartOf("a b-c") == PartOf("a-b c") == "a-b-c"
  {
    BothWhenRead();
    PartOfShort("a b-c");
    PartOfShort("a-b c");
    hide Trimmed, PartOf;
    assert "a b-c"[1] != "a-b c"[1];
  }

  lemma BothWhenRead()
    ensures Trimmed("a b-c") == "a-b-c" && Trimmed("a-b c") == "a-b-c"
  {
    hide Trimmed;
    ReadOne("", "", 'a', "a", "a");
    ReadOne("a", "a", ' ', "a ", "a-");
    ReadOne("a ", "a-", 'b', "a b", "a-b");
    ReadOne("a b", "a-b", '-', "a b-", "a-b-");
    ReadOne("a b-", "a-b-", 'c', "a b-c", "a-b-c");
    ReadOne("a", "a", '-', "a-", "a-");
    ReadOne("a-", "a-", 'b', "a-b", "a-b");
    ReadOne("a-b", "a-b", ' ', "a-b ", "a-b-");
    ReadOne("a-b ", "a-b-", 'c', "a-b c", "a-b-c");
  }
}
