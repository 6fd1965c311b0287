/** Turning what a caller supplies into one safe path segment (src/artifacts/names.ts). Lower-casing
    and address parsing are parameters. */
module Names {
  import opened Wrappers

  const MAXIMUM_PART_LENGTH := 48
  const EMPTY_PART := "unnamed"

  predicate IsSafe(c: char) {
    'a' <= c <= 'z' || '0' <= c <= '9' || c == '-'
  }

  predicate AllSafe(text: string) {
    forall i :: 0 <= i < |text| ==> IsSafe(text[i])
  }

  /** What a derived part looks like. */
  predicate IsPart(text: string) {
    && 1 <= |text| <= MAXIMUM_PART_LENGTH && AllSafe(text)
    && text[0] != '-' && text[|text| - 1] != '-'
  }

  /** Lower-casing leaves safe characters alone. */
  ghost predicate FixesSafeText(lower: string -> string) {
    forall text {:trigger lower(text)} :: AllSafe(text) ==> lower(text) == text
  }

  // ----- Reducing

  /** An unsafe character becomes a hyphen, unless a hyphen or nothing is already there. */
  function Push(before: string, c: char): (r: string)
    ensures AllSafe(before) ==> AllSafe(r)
  {
    if IsSafe(c) then before + [c]
    else if before != "" && before[|before| - 1] != '-' then before + ['-']
    else before
  }

  function Collapse(value: string): (r: string)
    ensures AllSafe(r)
  {
    if value == "" then "" else Push(Collapse(value[..|value| - 1]), value[|value| - 1])
  }

  lemma CollapseNext(value: string, c: char)
    ensures Collapse(value + [c]) == Push(Collapse(value), c)
  {
    assert (value + [c])[..|value|] == value;
  }

  function TrimStart(text: string): (r: string)
    ensures AllSafe(text) ==> AllSafe(r)
    ensures r == "" || r[0] != '-'
    ensures text != "" && text[|text| - 1] != '-' ==> r != "" && r[|r| - 1] != '-'
  {
    if text != "" && text[0] == '-' then TrimStart(text[1..]) else text
  }

  function TrimEnd(text: string): (r: string)
    ensures r <= text
    ensures AllSafe(text) ==> AllSafe(r)
    ensures r == "" || r[|r| - 1] != '-'
    ensures text != "" && text[0] != '-' ==> r != ""
  {
    if text != "" && text[|text| - 1] == '-' then TrimEnd(text[..|text| - 1]) else text
  }

  function Clip(text: string): (r: string)
    ensures r <= text && |r| <= MAXIMUM_PART_LENGTH
    ensures |text| <= MAXIMUM_PART_LENGTH ==> r == text
  {
    if |text| <= MAXIMUM_PART_LENGTH then text else text[..MAXIMUM_PART_LENGTH]
  }

  /** The part a lower-cased text reduces to. */
  function PartOf(lowered: string): string {
    var collapsed := TrimEnd(TrimStart(Collapse(lowered)));
    if collapsed == "" then EMPTY_PART
    else
      var clipped := TrimEnd(Clip(collapsed));
      if clipped == "" then EMPTY_PART else clipped
  }

  /** `reduce`, with the array it pushes characters onto. */
  method Reduce(value: string, lower: string -> string) returns (part: string)
    ensures part == PartOf(lower(value))
    ensures IsPart(part)
  {
    var lowered := lower(value);
    var characters := "";
    for i := 0 to |lowered|
      invariant characters == Collapse(lowered[..i])
    {
      assert lowered[..i + 1][..i] == lowered[..i];
      var character := lowered[i];
      if IsSafe(character) {
        characters := characters + [character];
        continue;
      }
      if |characters| > 0 && characters[|characters| - 1] != '-' {
        characters := characters + ['-'];
      }
    }
    assert lowered[..|lowered|] == lowered;
    var collapsed := TrimEnd(TrimStart(characters));
    PartIsPart(lowered);
    if collapsed == "" {
      return EMPTY_PART;
    }
    var clipped := TrimEnd(Clip(collapsed));
    part := if clipped == "" then EMPTY_PART else clipped;
  }

  /** Every text reduces to 1 to 48 safe characters with no hyphen at either end. */
  lemma PartIsPart(lowered: string)
    ensures IsPart(PartOf(lowered))
  {
    hide Collapse, TrimStart, TrimEnd;
    var started := TrimStart(Collapse(lowered));
    var collapsed := TrimEnd(started);
    if collapsed != "" {
      assert collapsed[0] == started[0];
      var clip := Clip(collapsed);
      assert clip[0] == collapsed[0];
      var clipped := TrimEnd(clip);
      assert clipped[0] == clip[0];
    }
  }

  lemma {:induction false} SafeTextIsKept(text: string)
    requires AllSafe(text)
    ensures Collapse(text) == text
  {
    if text != "" {
      var front, c := text[..|text| - 1], text[|text| - 1];
      hide Collapse;
      SafeTextIsKept(front);
      CollapseNext(front, c);
      assert text == front + [c];
    }
  }

  lemma {:induction false} CollapseUnsafe(a: string, us: string)
    requires a != "" && IsSafe(a[|a| - 1]) && a[|a| - 1] != '-'
    requires us != "" && forall i :: 0 <= i < |us| ==> !IsSafe(us[i])
    ensures Collapse(a + us) == Collapse(a) + "-"
  {
    var front := us[..|us| - 1];
    assert (a + us)[..|a + us| - 1] == a + front;
    if front == "" {
      assert a + front == a;
    } else {
      CollapseUnsafe(a, front);
    }
  }

  /** Collapsing `b` onto what has been collapsed already. */
  function CollapseOnto(before: string, b: string): string {
    if b == "" then before else Push(CollapseOnto(before, b[..|b| - 1]), b[|b| - 1])
  }

  lemma {:induction false} CollapseInTwo(a: string, b: string)
    ensures Collapse(a + b) == CollapseOnto(Collapse(a), b)
  {
    if b == "" {
      assert a + b == a;
    } else {
      var front, c := b[..|b| - 1], b[|b| - 1];
      CollapseInTwo(a, front);
      CollapseNext(a + front, c);
      assert a + b == a + front + [c];
    }
  }

  lemma {:induction false} CollapseAfterHyphen(x: string, b: string)
    requires b != "" ==> IsSafe(b[0])
    ensures CollapseOnto(x + "-", b) == x + "-" + Collapse(b)
    ensures b != "" ==> Collapse(b) != ""
  {
    if b == "" {
      assert x + "-" + "" == x + "-";
    } else {
      var front, c := b[..|b| - 1], b[|b| - 1];
      assert front != "" ==> front[0] == b[0];
      CollapseAfterHyphen(x, front);
      PushAfter(x, Collapse(front), c);
    }
  }

  lemma PushAfter(x: string, y: string, c: char)
    requires y != "" || IsSafe(c)
    ensures Push(x + "-" + y, c) == x + "-" + Push(y, c)
  {
    if y != "" {
      assert (x + "-" + y)[|x + "-" + y| - 1] == y[|y| - 1];
    }
  }

  /** A run of unsafe characters between two others becomes exactly one hyphen; everything else is kept
      in its place. */
  lemma {:induction false} UnsafeRunIsOneHyphen(a: string, us: string, b: string)
    requires a != "" && IsSafe(a[|a| - 1]) && a[|a| - 1] != '-'
    requires us != "" && forall i :: 0 <= i < |us| ==> !IsSafe(us[i])
    requires b != "" ==> IsSafe(b[0])
    ensures Collapse(a + us + b) == Collapse(a) + "-" + Collapse(b)
  {
    hide Collapse, CollapseOnto, IsSafe;
    CollapseUnsafe(a, us);
    CollapseInTwo(a + us, b);
    CollapseAfterHyphen(Collapse(a), b);
  }

  /** A part is the beginning of the collapsed text, cut at 48 characters and not inside trailing hyphens. */
  lemma PartIsPrefix(lowered: string)
    ensures var collapsed := TrimEnd(TrimStart(Collapse(lowered)));
            && (collapsed == "" ==> PartOf(lowered) == EMPTY_PART)
            && (collapsed != "" ==> PartOf(lowered) <= collapsed)
            && (0 < |collapsed| <= MAXIMUM_PART_LENGTH ==> PartOf(lowered) == collapsed)
  {
    hide Collapse, TrimStart;
    var started := TrimStart(Collapse(lowered));
    var collapsed := TrimEnd(started);
    if collapsed != "" {
      assert collapsed[0] == started[0];
      assert Clip(collapsed)[0] == collapsed[0];
    }
  }

  /** The shape of a part, spelled out. */
  lemma PartShape(text: string)
    ensures IsPart(text) <==>
            && 1 <= |text| <= 48
            && (forall i :: 0 <= i < |text| ==> 'a' <= text[i] <= 'z' || '0' <= text[i] <= '9' || text[i] == '-')
            && text[0] != '-' && text[|text| - 1] != '-'
    ensures PartOf("") == "unnamed"
  {
  }

  /** Exactly the texts that already have the shape are left as they are. */
  lemma PartsAreFixed(text: string)
    ensures PartOf(text) == text <==> IsPart(text)
  {
    if IsPart(text) {
      SafeTextIsKept(text);
    }
    PartIsPart(text);
  }

  /** Reducing twice is reducing once. */
  lemma ReducingIsIdempotent(value: string, lower: string -> string)
    requires FixesSafeText(lower)
    ensures PartOf(lower(PartOf(lower(value)))) == PartOf(lower(value))
  {
    var part := PartOf(lower(value));
    PartIsPart(lower(value));
    assert lower(part) == part;
    PartsAreFixed(part);
  }

  // ----- Addresses and labels

  /** The address up to its first `?` or `#`. */
  function WithoutQuery(address: string): (r: string)
    ensures r <= address && '?' !in r && '#' !in r
    ensures |r| < |address| ==> address[|r|] == '?' || address[|r|] == '#'
  {
    if address == "" || address[0] == '?' || address[0] == '#' then ""
    else [address[0]] + WithoutQuery(address[1..])
  }

  /** `trim() === ''`, for a given notion of space. */
  predicate IsBlank(text: string, space: char -> bool) {
    forall i :: 0 <= i < |text| ==> space(text[i])
  }

  datatype Environment = Environment(
    lower: string -> string,
    space: char -> bool,
    parse: string -> Option<(string, string)>)

  function SlugFromUrl(address: Option<string>, env: Environment): string {
    if address.None? || IsBlank(address.value, env.space) then EMPTY_PART
    else
      var stripped := WithoutQuery(address.value);
      var parsed := env.parse(stripped);
      PartOf(env.lower(if parsed.Some? then parsed.value.0 + parsed.value.1 else stripped))
  }

  function SanitiseLabel(caption: Option<string>, env: Environment): string {
    if caption.None? || IsBlank(caption.value, env.space) then EMPTY_PART else PartOf(env.lower(caption.value))
  }

  /** A label that says something is reduced whole, and without one the name says so. */
  lemma LabelIsReduced(caption: Option<string>, env: Environment)
    ensures SanitiseLabel(caption, env)
            == if caption.Some? && exists i :: 0 <= i < |caption.value| && !env.space(caption.value[i])
               then PartOf(env.lower(caption.value)) else "unnamed"
  {
  }

  /** An address that is missing or nothing but space gives the same stand-in. */
  lemma BlankAddressIsUnnamed(url: Option<string>, env: Environment)
    requires url.Some? ==> forall i :: 0 <= i < |url.value| ==> env.space(url.value[i])
    ensures SlugFromUrl(url, env) == "unnamed"
  {
  }

  lemma {:induction false} QueryIsStripped(page: string, mark: char, query: string)
    requires '?' !in page && '#' !in page && (mark == '?' || mark == '#')
    ensures WithoutQuery(page + [mark] + query) == page && WithoutQuery(page) == page
  {
    if page != "" {
      assert (page + [mark] + query)[1..] == page[1..] + [mark] + query;
      QueryIsStripped(page[1..], mark, query);
    } else {
      assert (page + [mark] + query)[0] == mark;
    }
  }

  /** Nothing after the first `?` or `#` of an address can reach the name, whether or not the address
      parses: one page under any two queries, or under none, gives one name. All that is left of a query
      is whether it makes the difference between an address and none at all. */
  lemma QueryNeverReachesName(page: string, a: string, b: string, env: Environment)
    requires '?' !in page && '#' !in page
    requires a == "" || a[0] == '?' || a[0] == '#'
    requires b == "" || b[0] == '?' || b[0] == '#'
    ensures (IsBlank(page + a, env.space) <==> IsBlank(page + b, env.space)) ==>
              SlugFromUrl(Some(page + a), env) == SlugFromUrl(Some(page + b), env)
    ensures !IsBlank(page, env.space) ==> SlugFromUrl(Some(page + a), env) == SlugFromUrl(Some(page), env)
  {
    PageIsKept(page, a);
    PageIsKept(page, b);
    PageIsKept(page, "");
    if !IsBlank(page, env.space) {
      var i :| 0 <= i < |page| && !env.space(page[i]);
      assert (page + a)[i] == page[i];
    }
  }

  lemma PageIsKept(page: string, query: string)
    requires '?' !in page && '#' !in page
    requires query == "" || query[0] == '?' || query[0] == '#'
    ensures WithoutQuery(page + query) == page && WithoutQuery(page) == page
  {
    if query == "" {
      assert page + query == page;
      QueryIsStripped(page, '?', "");
    } else {
      assert page + query == page + [query[0]] + query[1..];
      QueryIsStripped(page, query[0], query[1..]);
    }
  }

  // ----- The whole name

  predicate IsStamp(stamp: string) {
    |stamp| == 14 && forall i :: 0 <= i < |stamp| ==> '0' <= stamp[i] <= '9'
  }

  /** `captureFileName`. The width is the text of a truncated number, the stamp fourteen digits. */
  function CaptureFileName(url: Option<string>, caption: Option<string>, width: string, stamp: string, id: string,
                           env: Environment): string {
    SlugFromUrl(url, env) + "-" + SanitiseLabel(caption, env) + "-" + PartOf(env.lower(width)) + "-" + stamp + "-"
    + PartOf(env.lower(id)) + ".png"
  }

  /** The order of a directory listing: the first differing character decides, and a beginning comes first. */
  predicate Precedes(a: string, b: string) {
    b != "" && (a == "" || a[0] < b[0] || (a[0] == b[0] && Precedes(a[1..], b[1..])))
  }

  lemma {:induction false} CommonStartIsPassed(common: string, a: string, b: string)
    ensures Precedes(common + a, common + b) <==> Precedes(a, b)
  {
    if common == "" {
      assert common + a == a && common + b == b;
    } else {
      assert (common + a)[1..] == common[1..] + a && (common + b)[1..] == common[1..] + b;
      CommonStartIsPassed(common[1..], a, b);
    }
  }

  lemma {:induction false} FirstDifferenceDecides(a: string, b: string, restA: string, restB: string)
    requires |a| == |b| && a != b
    ensures Precedes(a + restA, b + restB) <==> Precedes(a, b)
  {
    assert (a + restA)[0] == a[0] && (b + restB)[0] == b[0];
    if a[0] == b[0] {
      assert (a + restA)[1..] == a[1..] + restA && (b + restB)[1..] == b[1..] + restB;
      assert a == [a[0]] + a[1..] && b == [b[0]] + b[1..];
      FirstDifferenceDecides(a[1..], b[1..], restA, restB);
    }
  }

  /** The number its digits spell: a stamp holds year, month, day, hour, minute and second in that order. */
  function StampValue(stamp: string): nat
    requires forall i :: 0 <= i < |stamp| ==> '0' <= stamp[i] <= '9'
  {
    if stamp == "" then 0 else StampValue(stamp[..|stamp| - 1]) * 10 + (stamp[|stamp| - 1] as int - '0' as int)
  }

  /** The last character decides exactly when everything before it is equal. */
  lemma LastDecides(x: string, y: string, c: char, d: char)
    requires |x| == |y|
    ensures Precedes(x + [c], y + [d]) <==> if x == y then c < d else Precedes(x, y)
  {
    if x == y {
      CommonStartIsPassed(x, [c], [d]);
      assert Precedes([c], [d]) <==> c < d;
    } else {
      hide Precedes;
      FirstDifferenceDecides(x, y, [c], [d]);
    }
  }

  lemma StampStep(stamp: string)
    requires stamp != "" && forall i :: 0 <= i < |stamp| ==> '0' <= stamp[i] <= '9'
    ensures var n := |stamp| - 1;
            StampValue(stamp) == StampValue(stamp[..n]) * 10 + (stamp[n] as int - '0' as int)
  {
  }

  lemma EqualInParts(a: string, b: string, n: nat)
    requires n + 1 == |a| == |b|
    ensures a == a[..n] + [a[n]] && b == b[..n] + [b[n]]
    ensures a == b <==> a[..n] == b[..n] && a[n] == b[n]
  {
  }

  /** Digits of one length stand in the order of the numbers they spell. */
  lemma {:induction false} DigitsStandInOrder(a: string, b: string)
    requires |a| == |b|
    requires forall i :: 0 <= i < |a| ==> '0' <= a[i] <= '9' && '0' <= b[i] <= '9'
    ensures Precedes(a, b) <==> StampValue(a) < StampValue(b)
    ensures a == b <==> StampValue(a) == StampValue(b)
  {
    if a != "" {
      StampStep(a);
      StampStep(b);
      hide Precedes, StampValue;
      var n := |a| - 1;
      var x, y := a[..n], b[..n];
      DigitsStandInOrder(x, y);
      EqualInParts(a, b, n);
      LastDecides(x, y, a[n], b[n]);
    }
  }

  /** What a name holds before its stamp: the page, then the view, then the width. */
  function BeforeStamp(url: Option<string>, caption: Option<string>, width: string, env: Environment): string {
    SlugFromUrl(url, env) + "-" + SanitiseLabel(caption, env) + "-" + PartOf(env.lower(width)) + "-"
  }

  lemma NameSplitsAtStamp(url: Option<string>, caption: Option<string>, width: string, stamp: string, id: string,
                          env: Environment)
    ensures CaptureFileName(url, caption, width, stamp, id, env)
            == BeforeStamp(url, caption, width, env) + (stamp + ("-" + PartOf(env.lower(id)) + ".png"))
  {
    hide SlugFromUrl, SanitiseLabel, PartOf;
  }

  /** Two pictures of one view, taken at one width at different seconds: their names agree up to the stamp,
      page first, and stand in a directory listing in the order in which they were taken, whatever their
      identifiers. */
  lemma SameViewSortsByTime(url: Option<string>, caption: Option<string>, width: string, env: Environment,
                            stamp1: string, id1: string, stamp2: string, id2: string)
    requires IsStamp(stamp1) && IsStamp(stamp2) && stamp1 != stamp2
    ensures var name1, name2 := CaptureFileName(url, caption, width, stamp1, id1, env),
                                CaptureFileName(url, caption, width, stamp2, id2, env);
            && BeforeStamp(url, caption, width, env) + stamp1 <= name1
            && BeforeStamp(url, caption, width, env) + stamp2 <= name2
            && (Precedes(name1, name2) <==> StampValue(stamp1) < StampValue(stamp2))
  {
    hide PartOf, Precedes, CaptureFileName, StampValue, BeforeStamp;
    NameSplitsAtStamp(url, caption, width, stamp1, id1, env);
    NameSplitsAtStamp(url, caption, width, stamp2, id2, env);
    var rest1, rest2 := "-" + PartOf(env.lower(id1)) + ".png", "-" + PartOf(env.lower(id2)) + ".png";
    CommonStartIsPassed(BeforeStamp(url, caption, width, env), stamp1 + rest1, stamp2 + rest2);
    FirstDifferenceDecides(stamp1, stamp2, rest1, rest2);
    DigitsStandInOrder(stamp1, stamp2);
  }

  /** One path segment that no file system reads as anything else: it starts with a letter or a digit,
      and before its extension holds nothing but letters, digits and hyphens. */
  predicate IsFileName(name: string) {
    && 5 <= |name| <= 214
    && name[|name| - 4..] == ".png"
    && AllSafe(name[..|name| - 4]) && name[0] != '-'
  }

  lemma SlugAndLabelAreParts(url: Option<string>, caption: Option<string>, env: Environment)
    ensures IsPart(SlugFromUrl(url, env)) && IsPart(SanitiseLabel(caption, env))
  {
    hide PartOf;
    assert IsPart(EMPTY_PART);
    if url.Some? {
      var stripped := WithoutQuery(url.value);
      var parsed := env.parse(stripped);
      PartIsPart(env.lower(if parsed.Some? then parsed.value.0 + parsed.value.1 else stripped));
    }
    if caption.Some? {
      PartIsPart(env.lower(caption.value));
    }
  }

  lemma CaptureNamesAreFileNames(url: Option<string>, caption: Option<string>, width: string, stamp: string, id: string,
                                 env: Environment)
    requires IsStamp(stamp)
    ensures IsFileName(CaptureFileName(url, caption, width, stamp, id, env))
    ensures SlugFromUrl(url, env) + "-" + SanitiseLabel(caption, env) + "-" + PartOf(env.lower(width)) + "-" + stamp + "-"
            <= CaptureFileName(url, caption, width, stamp, id, env)
  {
    hide PartOf, SlugFromUrl, SanitiseLabel;
    SlugAndLabelAreParts(url, caption, env);
    PartIsPart(env.lower(width));
    PartIsPart(env.lower(id));
    var a, b, c, d := SlugFromUrl(url, env), SanitiseLabel(caption, env), PartOf(env.lower(width)), PartOf(env.lower(id));
    var body := a + "-" + b + "-" + c + "-" + stamp + "-" + d;
    SafeJoin(a, b);
    SafeJoin(a + "-" + b, c);
    SafeJoin(a + "-" + b + "-" + c, stamp);
    SafeJoin(a + "-" + b + "-" + c + "-" + stamp, d);
    assert body == a + "-" + b + "-" + c + "-" + stamp + "-" + d;
    var name := body + ".png";
    assert name == CaptureFileName(url, caption, width, stamp, id, env);
    assert name[..|name| - 4] == body && name[|name| - 4..] == ".png";
    assert name[0] == a[0];
  }

  /** Whatever else they hold, two names made for identifiers of one length are different when what the
      identifiers reduce to is. */
  lemma IdentifierTellsApart(url1: Option<string>, caption1: Option<string>, width1: string, stamp1: string, id1: string,
                             url2: Option<string>, caption2: Option<string>, width2: string, stamp2: string, id2: string,
                             env: Environment)
    requires PartOf(env.lower(id1)) != PartOf(env.lower(id2))
    requires |PartOf(env.lower(id1))| == |PartOf(env.lower(id2))|
    ensures CaptureFileName(url1, caption1, width1, stamp1, id1, env) != CaptureFileName(url2, caption2, width2, stamp2, id2, env)
  {
    hide PartOf, CaptureFileName;
    NameEndsInIdentifier(url1, caption1, width1, stamp1, id1, env);
    NameEndsInIdentifier(url2, caption2, width2, stamp2, id2, env);
  }

  lemma NameEndsInIdentifier(url: Option<string>, caption: Option<string>, width: string, stamp: string, id: string,
                             env: Environment)
    ensures var name, part := CaptureFileName(url, caption, width, stamp, id, env), PartOf(env.lower(id));
            |name| >= |part| + 4 && name[|name| - 4 - |part|..|name| - 4] == part
  {
    hide PartOf, SlugFromUrl, SanitiseLabel;
    var part := PartOf(env.lower(id));
    var front := SlugFromUrl(url, env) + "-" + SanitiseLabel(caption, env) + "-" + PartOf(env.lower(width)) + "-" + stamp + "-";
    var name := CaptureFileName(url, caption, width, stamp, id, env);
    assert name == front + part + ".png";
  }

  lemma SafeJoin(a: string, b: string)
    requires AllSafe(a) && AllSafe(b)
    ensures AllSafe(a + "-" + b)
  {
  }
}
