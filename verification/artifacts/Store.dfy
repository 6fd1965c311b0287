/** Where artefacts go under the root, and back (src/artifacts/store.ts). Paths are modelled on one
    namespace: separated by slashes, resolved segment by segment. */
module Store {
  import opened Arithmetic
  import opened Text
  import opened Names
  import opened Wrappers

  /** An absolute path: its segments from the file system's root. */
  type Path = seq<string>

  const SEPARATOR := '/'

  // ----- Path arithmetic

  /** A segment a normalised path may hold. */
  predicate IsSegment(s: string) {
    s != "" && s != "." && s != ".." && SEPARATOR !in s
  }

  predicate IsPath(path: Path) {
    forall i :: 0 <= i < |path| ==> IsSegment(path[i])
  }

  /** Walk the parts of a relative path from `from`. */
  function Walk(from: Path, parts: seq<string>): (r: Path)
    requires IsPath(from) && forall i :: 0 <= i < |parts| ==> SEPARATOR !in parts[i]
    ensures IsPath(r)
    decreases |parts|
  {
    if parts == [] then from
    else if parts[0] == "" || parts[0] == "." then Walk(from, parts[1..])
    else if parts[0] == ".." then Walk(if from == [] then [] else from[..|from| - 1], parts[1..])
    else Walk(from + [parts[0]], parts[1..])
  }

  predicate IsPlainParts(parts: seq<string>) {
    forall i :: 0 <= i < |parts| ==> SEPARATOR !in parts[i]
  }

  /** One part: nothing and one dot stay, two dots drop the last segment if there is one, and a name is
      put behind. */
  function StepOne(from: Path, part: string): Path {
    if part == "" || part == "." then from
    else if part == ".." then (if from == [] then [] else from[..|from| - 1])
    else from + [part]
  }

  lemma StepIsPath(from: Path, part: string)
    requires IsPath(from) && SEPARATOR !in part
    ensures IsPath(StepOne(from, part))
  {
  }

  lemma WalkFirst(from: Path, parts: seq<string>)
    requires IsPath(from) && IsPlainParts(parts) && parts != []
    ensures IsPath(StepOne(from, parts[0])) && Walk(from, parts) == Walk(StepOne(from, parts[0]), parts[1..])
  {
    StepIsPath(from, parts[0]);
  }

  lemma WalkOne(from: Path, part: string)
    requires IsPath(from) && SEPARATOR !in part
    ensures Walk(from, [part]) == StepOne(from, part)
  {
    WalkFirst(from, [part]);
    hide StepOne;
    assert [part][1..] == [];
  }

  /** Walking one way and then another is walking both in one. */
  lemma {:induction false} WalkSplits(from: Path, a: seq<string>, b: seq<string>)
    requires IsPath(from) && IsPlainParts(a) && IsPlainParts(b)
    ensures Walk(from, a + b) == Walk(Walk(from, a), b)
    decreases |a|
  {
    if a == [] {
      assert a + b == b;
      WalkOfNothing(from);
    } else {
      hide Walk, StepOne;
      assert (a + b)[1..] == a[1..] + b && (a + b)[0] == a[0];
      WalkFirst(from, a);
      WalkFirst(from, a + b);
      WalkSplits(StepOne(from, a[0]), a[1..], b);
    }
  }

  lemma WalkNext(from: Path, parts: seq<string>)
    requires IsPath(from) && IsPlainParts(parts) && parts != []
    ensures var front, last := parts[..|parts| - 1], parts[|parts| - 1];
            Walk(from, parts) == Walk(Walk(from, front), [last])
  {
    var front, last := parts[..|parts| - 1], parts[|parts| - 1];
    assert parts == front + [last];
    hide Walk;
    WalkSplits(from, front, [last]);
  }

  /** A name directly followed by two dots might as well not be there. */
  lemma NameThenClimbCancels(from: Path, a: seq<string>, name: string, b: seq<string>)
    requires IsPath(from) && IsPlainParts(a) && IsPlainParts(b) && IsSegment(name)
    ensures IsPlainParts(a + [name, ".."] + b) && IsPlainParts(a + b)
    ensures Walk(from, a + [name, ".."] + b) == Walk(from, a + b)
  {
    OutAndBack(Walk(from, a), name);
    hide Walk, IsSegment;
    assert IsPlainParts([name, ".."]);
    WalkSplits(from, a + [name, ".."], b);
    WalkSplits(from, a, [name, ".."]);
    WalkSplits(from, a, b);
  }

  lemma OutAndBack(here: Path, name: string)
    requires IsPath(here) && IsSegment(name)
    ensures IsPlainParts([name, ".."]) && Walk(here, [name, ".."]) == here
  {
    var parts := [name, ".."];
    WalkFirst(here, parts);
    assert parts[1..] == [".."];
    assert StepOne(here, name) == here + [name];
    WalkOne(here + [name], "..");
    hide Walk;
    assert (here + [name])[..|here|] == here;
  }

  /** How many more names than climbs there are among the parts. */
  ghost function Height(parts: seq<string>): int {
    |parts| - multiset(parts)[""] - multiset(parts)["."] - 2 * multiset(parts)[".."]
  }

  lemma HeightNext(parts: seq<string>, part: string)
    ensures Height(parts + [part]) == Height(parts) + if part == "" || part == "." then 0 else if part == ".." then -1 else 1
  {
    assert multiset(parts + [part]) == multiset(parts) + multiset{part};
    assert |""| == 0 && |"."| == 1 && |".."| == 2;
  }

  /** The parts never stand lower than after the first `k` of them. */
  ghost predicate IsDeepest(parts: seq<string>, k: nat) {
    k <= |parts| && forall j :: 0 <= j <= |parts| ==> Height(parts[..k]) <= Height(parts[..j])
  }

  /** The parts never climb more often than they have named anything. */
  ghost predicate NeverBelow(parts: seq<string>) {
    forall j :: 0 <= j <= |parts| ==> Height(parts[..j]) >= 0
  }

  /** What is left of `from` after climbing `ups` times. */
  function Above(from: Path, ups: nat): Path {
    if ups >= |from| then [] else from[..|from| - ups]
  }

  /** Where a walk ends, by counting: it climbs as often as the climbs exceed the names at the deepest
      point, and behind that keeps one segment for every name that exceeds the climbs after it. */
  lemma {:induction false} WalkByCounting(from: Path, parts: seq<string>) returns (k: nat)
    requires IsPath(from) && IsPlainParts(parts)
    ensures k <= |parts| && IsDeepest(parts, k) && Height(parts[..k]) <= 0
    ensures Walk(from, parts) == Above(from, -Height(parts[..k])) + Walk([], parts[k..])
    ensures |Walk([], parts[k..])| == Height(parts) - Height(parts[..k])
    decreases |parts|
  {
    hide Walk, Height, IsDeepest, Above, StepOne;
    if parts == [] {
      k := 0;
      WalkOfNothing(from);
      WalkOfNothing([]);
      NothingIsDeepest(from);
    } else {
      var front, last := parts[..|parts| - 1], parts[|parts| - 1];
      assert parts == front + [last];
      var k' := WalkByCounting(from, front);
      k := CountOneMore(from, front, last, k');
    }
  }

  /** One more part: the deepest point stays, unless the part climbs from there. */
  lemma CountOneMore(from: Path, front: seq<string>, last: string, k': nat) returns (k: nat)
    requires IsPath(from) && IsPlainParts(front) && SEPARATOR !in last
    requires k' <= |front| && IsDeepest(front, k') && Height(front[..k']) <= 0
    requires Walk(from, front) == Above(from, -Height(front[..k'])) + Walk([], front[k'..])
    requires |Walk([], front[k'..])| == Height(front) - Height(front[..k'])
    ensures var parts := front + [last];
            && k <= |parts| && IsPlainParts(parts) && IsDeepest(parts, k) && Height(parts[..k]) <= 0
            && Walk(from, parts) == Above(from, -Height(parts[..k])) + Walk([], parts[k..])
            && |Walk([], parts[k..])| == Height(parts) - Height(parts[..k])
  {
    hide Walk, Height, StepOne, Above, IsDeepest;
    var parts, ups, tail := front + [last], -Height(front[..k']), Walk([], front[k'..]);
    WalkNext(from, parts);
    assert parts[..|parts| - 1] == front;
    HeightNext(front, last);
    DeepestGoesOn(front, last, k');
    WalkOne(Walk(from, front), last);
    if last == ".." && tail == [] {
      k := |parts|;
      assert parts[..k] == parts && parts[k..] == [];
      WalkOfNothing([]);
      assert Above(from, ups) + tail == Above(from, ups);
      assert Above(from, ups + 1) + [] == Above(from, ups + 1);
      ClimbOnce(from, ups);
    } else {
      k := k';
      assert parts[..k] == front[..k];
      assert parts[k..] == front[k..] + [last];
      WalkNext([], parts[k..]);
      assert parts[k..][..|parts[k..]| - 1] == front[k..];
      WalkOne(tail, last);
      StepBehind(Above(from, ups), tail, last);
    }
  }

  lemma ClimbOnce(from: Path, ups: nat)
    ensures StepOne(Above(from, ups), "..") == Above(from, ups + 1)
  {
  }

  /** What a part does to a walk that has something behind it, it does to what is behind. */
  lemma StepBehind(start: Path, tail: Path, part: string)
    requires part != ".." || tail != []
    ensures StepOne(start + tail, part) == start + StepOne(tail, part)
    ensures |StepOne(tail, part)| == |tail| + if part == "" || part == "." then 0 else if part == ".." then -1 else 1
  {
  }

  lemma NothingIsDeepest(from: Path)
    ensures IsDeepest([], 0) && Height([]) == 0 && Above(from, 0) == from
  {
  }

  lemma WalkOfNothing(from: Path)
    requires IsPath(from)
    ensures Walk(from, []) == from && Height([]) == 0
  {
  }

  lemma DeepestGoesOn(front: seq<string>, last: string, k: nat)
    requires IsDeepest(front, k)
    ensures last != ".." || Height(front) > Height(front[..k]) ==> IsDeepest(front + [last], k)
    ensures last == ".." && Height(front) == Height(front[..k]) ==> IsDeepest(front + [last], |front| + 1)
  {
    hide Height;
    var parts := front + [last];
    HeightNext(front, last);
    assert parts[..|parts|] == parts && front[..|front|] == front;
    assert forall j :: 0 <= j <= |front| ==> parts[..j] == front[..j];
  }

  /** `path.resolve(from, text)`. */
  function Resolve(from: Path, text: string): (r: Path)
    requires IsPath(from)
    ensures IsPath(r)
  {
    Walk(if text != "" && text[0] == SEPARATOR then [] else from, Split(text, SEPARATOR))
  }

  function CommonLength(a: Path, b: Path): (n: nat)
    ensures n <= |a| && n <= |b| && a[..n] == b[..n]
    ensures n == |a| <==> a <= b
  {
    if a == [] || b == [] || a[0] != b[0] then 0
    else
      var n := 1 + CommonLength(a[1..], b[1..]);
      assert a[..n] == [a[0]] + a[1..][..n - 1] && b[..n] == [b[0]] + b[1..][..n - 1];
      assert a == [a[0]] + a[1..] && b == [b[0]] + b[1..];
      n
  }

  function Ups(n: nat): (r: seq<string>)
    ensures |r| == n && forall i :: 0 <= i < n ==> r[i] == ".."
  {
    seq(n, _ => "..")
  }

  /** The parts of `path.relative(from, to)`. */
  function RelativeParts(from: Path, to: Path): seq<string> {
    var n := CommonLength(from, to);
    Ups(|from| - n) + to[n..]
  }

  function Relative(from: Path, to: Path): string {
    Join(RelativeParts(from, to), SEPARATOR)
  }

  predicate IsLetter(c: char) {
    'a' <= c <= 'z' || 'A' <= c <= 'Z'
  }

  /** Absolute in either namespace: a leading separator of either spelling, or a drive letter and a colon. */
  predicate IsAbsoluteInEitherNamespace(target: string) {
    || (target != "" && (target[0] == '/' || target[0] == '\\'))
    || (|target| >= 2 && IsLetter(target[0]) && target[1] == ':')
  }

  // ----- The store

  datatype ArtifactKind = Images | Snapshots | Console | Network | Downloads

  function Folder(kind: ArtifactKind): string {
    match kind
    case Images => "images"
    case Snapshots => "snapshots"
    case Console => "console"
    case Network => "network"
    case Downloads => "downloads"
  }

  /** What a row records, and where the bytes went. */
  datatype StoredArtifact = StoredArtifact(relativePath: string, absolutePath: Path)

  function SafeCharacters(text: string): (r: string)
    ensures AllSafe(r) && |r| <= |text|
  {
    if text == "" then ""
    else if IsSafe(text[0]) then [text[0]] + SafeCharacters(text[1..])
    else SafeCharacters(text[1..])
  }

  lemma {:induction false} NothingIsDropped(text: string)
    ensures SafeCharacters(text) == text <==> AllSafe(text)
  {
    if text != "" {
      NothingIsDropped(text[1..]);
      assert text == [text[0]] + text[1..];
      assert ([text[0]] + SafeCharacters(text[1..]))[1..] == SafeCharacters(text[1..]);
    }
  }

  function SafeSegment(value: string, lower: string -> string): Result<string> {
    var reduced := SafeCharacters(lower(value));
    if reduced == "" || reduced != lower(value) then Failure("not usable as a directory name") else Success(reduced)
  }

  /** A claim identifier is usable exactly when, lower-cased, it is a nonempty run of letters, digits
      and hyphens. */
  lemma UsableClaims(value: string, lower: string -> string)
    ensures SafeSegment(value, lower).Success? <==> lower(value) != "" && AllSafe(lower(value))
    ensures SafeSegment(value, lower).Success? ==> SafeSegment(value, lower).value == lower(value)
  {
    NothingIsDropped(lower(value));
  }

  lemma SafeTextIsSegment(text: string)
    requires text != "" && AllSafe(text)
    ensures IsSegment(text)
  {
    assert IsSafe(text[0]);
    assert "."[0] == '.' && ".."[0] == '.';
    forall i | 0 <= i < |text|
      ensures text[i] != SEPARATOR
    {
      assert IsSafe(text[i]);
    }
  }

  /** Every kind has a folder of its own. */
  lemma FoldersDiffer(a: ArtifactKind, b: ArtifactKind)
    ensures Folder(a) == Folder(b) <==> a == b
    ensures Folder(Images) == "images" && Folder(Snapshots) == "snapshots" && Folder(Console) == "console"
    ensures Folder(Network) == "network" && Folder(Downloads) == "downloads"
  {
    assert "images"[0] == 'i' && "snapshots"[0] == 's' && "console"[0] == 'c' && "network"[0] == 'n' && "downloads"[0] == 'd';
  }

  /** A name is absolute exactly when it begins with a separator of either spelling or with a drive. */
  lemma AbsoluteMeans(target: string)
    ensures IsAbsoluteInEitherNamespace(target) <==>
            || "/" <= target || "\\" <= target
            || exists c :: ('a' <= c <= 'z' || 'A' <= c <= 'Z') && [c] + ":" <= target
  {
    if |target| >= 2 && IsLetter(target[0]) && target[1] == ':' {
      assert [target[0]] + ":" <= target;
    }
  }

  lemma FolderIsSegment(kind: ArtifactKind)
    ensures IsSegment(Folder(kind))
  {
  }

  /** Neither the name nor the place it resolves to lies outside the root. */
  predicate Escapes(root: Path, absolutePath: Path, name: string) {
    var relative := Relative(root, absolutePath);
    ".." <= relative || IsAbsoluteInEitherNamespace(relative) || IsAbsoluteInEitherNamespace(name)
  }

  /** A place inside the root whose first step below it is not mistaken for a climb or a drive. */
  predicate Inside(root: Path, place: Path) {
    && root <= place
    && (|place| > |root| ==> !(".." <= place[|root|]) && !IsAbsoluteInEitherNamespace(place[|root|]))
  }

  /** The steps from the root to a place below it, as a relative path spells them. */
  function Steps(root: Path, place: Path): seq<string>
    requires root <= place
  {
    if place == root then [""] else place[|root|..]
  }

  function DirectoryFor(root: Path, segment: string, kind: ArtifactKind): Path {
    root + ["claims", segment, Folder(kind)]
  }

  lemma DirectoriesArePaths(root: Path, segment: string, kind: ArtifactKind)
    requires IsPath(root) && segment != "" && AllSafe(segment)
    ensures IsPath(DirectoryFor(root, segment, kind))
  {
    SafeTextIsSegment(segment);
    FolderIsSegment(kind);
  }

  /** Where a recorded path leads. */
  function Located(root: Path, relativePath: string): Result<Path>
    requires IsPath(root)
  {
    var absolutePath := Resolve(root, relativePath);
    if Escapes(root, absolutePath, relativePath) then Failure("does not resolve under the artifact root")
    else Success(absolutePath)
  }

  class ArtifactStore {
    const root: Path

    constructor (root: Path)
      requires IsPath(root)
      ensures this.root == root
    {
      this.root := root;
    }

    /** `write`, up to the bytes: the claim must be usable, and the name must be relative and lead to a
        place inside the root. The row then spells that place out from the root, and leads back to it. */
    method Write(claimId: string, kind: ArtifactKind, fileName: string, lower: string -> string)
      returns (stored: Result<StoredArtifact>)
      requires IsPath(root)
      ensures var segment := lower(claimId);
              var directory := DirectoryFor(root, segment, kind);
              && (segment != "" && AllSafe(segment) ==> IsPath(directory))
              && (stored.Success? <==>
                    && segment != "" && AllSafe(segment)
                    && !IsAbsoluteInEitherNamespace(fileName) && Inside(root, Resolve(directory, fileName)))
              && (stored.Success? ==> stored.value.absolutePath == Resolve(directory, fileName))
      ensures stored.Success? ==>
                && root <= stored.value.absolutePath
                && Split(stored.value.relativePath, SEPARATOR) == Steps(root, stored.value.absolutePath)
                && Located(root, stored.value.relativePath) == Success(stored.value.absolutePath)
    {
      UsableClaims(claimId, lower);
      var claim := SafeSegment(claimId, lower);
      if claim.Failure? {
        return Failure(claim.error);
      }
      DirectoriesArePaths(root, claim.value, kind);
      hide Resolve, Escapes, SafeSegment, Located, DirectoryFor, Inside, Relative;
      var directory := DirectoryFor(root, claim.value, kind);
      var absolutePath := Resolve(directory, fileName);
      EscapesMeans(root, absolutePath, fileName);
      if Escapes(root, absolutePath, fileName) {
        return Failure("outside the artifact root");
      }
      AcceptedIsInside(root, absolutePath, fileName);
      RelativeSpellsSteps(root, absolutePath);
      WrittenIsLocated(root, directory, fileName);
      stored := Success(StoredArtifact(Relative(root, absolutePath), absolutePath));
    }

    /** `resolve`: a recorded path must be relative and lead to a place inside the root, and a plain one
        leads where it says. */
    method Locate(relativePath: string) returns (location: Result<Path>)
      requires IsPath(root)
      ensures location == Located(root, relativePath)
      ensures location.Success? <==>
                !IsAbsoluteInEitherNamespace(relativePath) && Inside(root, Resolve(root, relativePath))
      ensures location.Success? ==> root <= location.value
      ensures location.Success? && IsPath(Split(relativePath, SEPARATOR)) ==>
                location.value == root + Split(relativePath, SEPARATOR)
    {
      var absolutePath := Resolve(root, relativePath);
      EscapesMeans(root, absolutePath, relativePath);
      if Escapes(root, absolutePath, relativePath) {
        return Failure("does not resolve under the artifact root");
      }
      AcceptedIsInside(root, absolutePath, relativePath);
      PlainResolves(root, relativePath);
      location := Success(absolutePath);
    }
  }

  // ----- Inside the root

  lemma JoinStarts(parts: seq<string>)
    requires |parts| > 0
    ensures parts[0] <= Join(parts, SEPARATOR)
    ensures Join(parts, SEPARATOR) == parts[0] || parts[0] + [SEPARATOR] <= Join(parts, SEPARATOR)
  {
  }

  /** A relative path begins with two dots exactly when it climbs, or its first segment does. */
  lemma StartsWithDots(root: Path, to: Path)
    requires IsPath(root) && IsPath(to)
    ensures ".." <= Relative(root, to) <==> !(root <= to) || (|to| > |root| && ".." <= to[|root|])
  {
    var n := CommonLength(root, to);
    var parts := RelativeParts(root, to);
    if parts != [] {
      JoinStarts(parts);
      DotsOfJoin(parts);
      if n < |root| {
        assert parts[0] == "..";
      } else {
        assert parts[0] == to[|root|];
      }
    }
  }

  lemma DotsOfJoin(parts: seq<string>)
    requires |parts| > 0 && parts[0] != "" && parts[0] != "."
    ensures ".." <= Join(parts, SEPARATOR) <==> ".." <= parts[0]
  {
    JoinStarts(parts);
    hide Join;
    var joined := Join(parts, SEPARATOR);
    if ".." <= joined {
      assert parts[0][0] == joined[0] == '.';
      assert |parts[0]| >= 2;
      assert parts[0][1] == joined[1] == '.';
    }
  }

  /** Nothing is written or served outside the root: an accepted place extends the root. */
  lemma AcceptedIsInside(root: Path, absolutePath: Path, name: string)
    requires IsPath(root) && IsPath(absolutePath) && !Escapes(root, absolutePath, name)
    ensures root <= absolutePath
  {
    StartsWithDots(root, absolutePath);
  }

  lemma AbsoluteOfJoin(parts: seq<string>)
    requires |parts| > 0 && IsSegment(parts[0])
    ensures IsAbsoluteInEitherNamespace(Join(parts, SEPARATOR)) <==> IsAbsoluteInEitherNamespace(parts[0])
  {
    JoinStarts(parts);
    hide Join;
    var joined := Join(parts, SEPARATOR);
    assert parts[0][0] == joined[0];
    assert parts[0][0] in parts[0];
    if |joined| >= 2 {
      if |parts[0]| >= 2 {
        assert parts[0][1] == joined[1];
      } else {
        assert (parts[0] + [SEPARATOR])[1] == joined[1];
      }
    }
  }

  /** The three textual tests together: a name is let through exactly when it is relative and leads to
      a place inside the root. */
  lemma EscapesMeans(root: Path, place: Path, name: string)
    requires IsPath(root) && IsPath(place)
    ensures !Escapes(root, place, name) <==> Inside(root, place) && !IsAbsoluteInEitherNamespace(name)
  {
    hide IsAbsoluteInEitherNamespace;
    StartsWithDots(root, place);
    if root <= place {
      var steps := place[|root|..];
      assert RelativeParts(root, place) == steps;
      if steps == [] {
        EmptyText();
        EmptyIsRelative();
      } else {
        assert IsSegment(steps[0]);
        hide Join;
        AbsoluteOfJoin(steps);
      }
    }
  }

  /** An absolute text leads to the same place from everywhere. */
  lemma AbsoluteStartsOver(from: Path, other: Path, text: string)
    requires IsPath(from) && IsPath(other) && "/" <= text
    ensures Resolve(from, text) == Resolve(other, text) == Walk([], Split(text, SEPARATOR))
  {
  }

  /** Where a relative text leads, by counting its climbs against its names. */
  lemma ResolveByCounting(from: Path, text: string) returns (k: nat)
    requires IsPath(from) && (text == "" || text[0] != SEPARATOR)
    ensures var parts := Split(text, SEPARATOR);
            && k <= |parts| && IsDeepest(parts, k) && Height(parts[..k]) <= 0
            && Resolve(from, text) == Above(from, -Height(parts[..k])) + Walk([], parts[k..])
            && |Walk([], parts[k..])| == Height(parts) - Height(parts[..k])
  {
    hide Walk, Height, IsDeepest, Above, Split;
    k := WalkByCounting(from, Split(text, SEPARATOR));
  }

  /** A walk that has climbed `climbed` off the root names those very segments again first, and what it
      names next is neither a climb nor a drive. */
  predicate LeadsBack(climbed: Path, tail: Path) {
    && climbed <= tail
    && (|tail| > |climbed| ==> !(".." <= tail[|climbed|]) && !IsAbsoluteInEitherNamespace(tail[|climbed|]))
  }

  /** When a recorded path is served, by counting: it is relative, and whatever it climbs off the root it
      leads back into. A path that never climbs more often than it has named anything climbs nothing off. */
  lemma LocatedByCounting(root: Path, text: string) returns (climbed: Path, k: nat)
    requires IsPath(root) && (text == "" || text[0] != SEPARATOR)
    ensures var parts := Split(text, SEPARATOR);
            && k <= |parts| && IsDeepest(parts, k)
            && root == Above(root, |climbed|) + climbed && |climbed| == Min(|root|, -Height(parts[..k]))
            && (Located(root, text).Success? <==>
                  !IsAbsoluteInEitherNamespace(text) && LeadsBack(climbed, Walk([], parts[k..])))
    ensures NeverBelow(Split(text, SEPARATOR)) ==> climbed == []
  {
    hide Walk, Height, IsDeepest, NeverBelow, Split, IsAbsoluteInEitherNamespace, Resolve, Located, Inside, Above, LeadsBack;
    k := ResolveByCounting(root, text);
    var parts := Split(text, SEPARATOR);
    NeverBelowClimbsNothing(parts, k);
    var ups: nat := -Height(parts[..k]);
    climbed := ClimbedOff(root, ups);
    LocatedMeans(root, text);
    InsideAgain(Above(root, ups), climbed, Walk([], parts[k..]));
  }

  lemma NeverBelowClimbsNothing(parts: seq<string>, k: nat)
    requires IsDeepest(parts, k)
    ensures NeverBelow(parts) ==> Height(parts[..k]) >= 0
  {
  }

  lemma ClimbedOff(root: Path, ups: nat) returns (climbed: Path)
    ensures root == Above(root, ups) + climbed == Above(root, |climbed|) + climbed && |climbed| == Min(|root|, ups)
  {
    climbed := root[|Above(root, ups)|..];
  }

  lemma InsideAgain(high: Path, climbed: Path, tail: Path)
    ensures Inside(high + climbed, high + tail) <==> LeadsBack(climbed, tail)
  {
    hide IsAbsoluteInEitherNamespace;
    var root, place := high + climbed, high + tail;
    if root <= place {
      assert forall i :: 0 <= i < |climbed| ==> tail[i] == place[|high| + i] == root[|high| + i];
    }
    assert |tail| > |climbed| ==> place[|root|] == tail[|climbed|];
  }

  lemma LocatedMeans(root: Path, text: string)
    requires IsPath(root)
    ensures Located(root, text).Success? <==> !IsAbsoluteInEitherNamespace(text) && Inside(root, Resolve(root, text))
  {
    hide Escapes, Inside, Resolve, IsAbsoluteInEitherNamespace;
    EscapesMeans(root, Resolve(root, text), text);
  }

  /** One climb out of the root and into something else is refused. */
  lemma ClimbingOutIsRefused(root: Path, name: string)
    requires IsPath(root) && root != [] && IsSegment(name) && name != root[|root| - 1]
    ensures Located(root, "../" + name).Failure?
  {
    hide Walk, Escapes;
    var text, parts := "../" + name, ["..", name];
    assert Join(parts, SEPARATOR) == text by {
      assert parts[1..] == [name];
    }
    SplitOfJoin(parts, SEPARATOR);
    WalkFirst(root, parts);
    assert parts[1..] == [name];
    WalkOne(root[..|root| - 1], name);
    var place := root[..|root| - 1] + [name];
    assert text[0] == '.';
    assert Resolve(root, text) == place;
    assert place[|root| - 1] != root[|root| - 1];
    EscapesMeans(root, place, text);
  }

  lemma EmptyIsRelative()
    ensures !IsAbsoluteInEitherNamespace("")
  {
  }

  // ----- There and back

  lemma RelativeSpellsSteps(root: Path, place: Path)
    requires IsPath(root) && IsPath(place) && root <= place
    ensures Split(Relative(root, place), SEPARATOR) == Steps(root, place)
  {
    hide Split, Join;
    var steps := place[|root|..];
    assert RelativeParts(root, place) == steps;
    EmptyText();
    if steps == [] {
      assert place == root;
    } else {
      SplitOfJoin(steps, SEPARATOR);
    }
  }

  lemma PlainResolves(root: Path, relativePath: string)
    requires IsPath(root)
    ensures var parts := Split(relativePath, SEPARATOR);
            IsPath(parts) ==> Resolve(root, relativePath) == root + parts
  {
    var parts := Split(relativePath, SEPARATOR);
    if IsPath(parts) {
      assert IsSegment(parts[0]);
      hide Walk;
      WalkPlain(root, parts);
    }
  }

  lemma {:induction false} WalkPlain(from: Path, parts: seq<string>)
    requires IsPath(from) && IsPath(parts)
    ensures Walk(from, parts) == from + parts
    decreases |parts|
  {
    if parts == [] {
      assert from + parts == from;
    } else {
      assert IsSegment(parts[0]);
      WalkPlain(from + [parts[0]], parts[1..]);
      assert from + [parts[0]] + parts[1..] == from + parts;
    }
  }

  lemma ResolveRelative(root: Path, to: Path)
    requires IsPath(root) && IsPath(to) && root <= to
    ensures Resolve(root, Relative(root, to)) == to
  {
    hide Walk, Split, Relative;
    RelativeSpellsSteps(root, to);
    if to == root {
      assert RelativeParts(root, to) == [];
      RelativeOfNothing(root);
      WalkNothing(root);
    } else {
      var parts := to[|root|..];
      assert IsSegment(parts[0]);
      RelativeStarts(root, to);
      WalkPlain(root, parts);
      assert root + parts == to;
    }
  }

  lemma RelativeOfNothing(root: Path)
    ensures Relative(root, root) == ""
  {
    assert RelativeParts(root, root) == [];
  }

  lemma RelativeStarts(root: Path, to: Path)
    requires IsPath(to) && root < to
    ensures Relative(root, to) != "" && Relative(root, to)[0] != SEPARATOR
  {
    var parts := to[|root|..];
    assert RelativeParts(root, to) == parts;
    assert IsSegment(parts[0]);
    JoinStarts(parts);
    hide Join;
    assert Join(parts, SEPARATOR)[0] == parts[0][0];
    assert parts[0][0] in parts[0];
  }

  lemma EmptyText()
    ensures Join([], SEPARATOR) == "" && Split("", SEPARATOR) == [""]
  {
  }

  lemma WalkNothing(from: Path)
    requires IsPath(from)
    ensures Walk(from, [""]) == from
  {
    assert [""][1..] == [];
  }

  /** Whatever was written is found again: resolving the recorded relative path gives the path written,
      for every accepted name. */
  lemma WrittenIsLocated(root: Path, directory: Path, name: string)
    requires IsPath(root) && IsPath(directory)
    requires !Escapes(root, Resolve(directory, name), name)
    ensures Located(root, Relative(root, Resolve(directory, name))) == Success(Resolve(directory, name))
  {
    hide Resolve, Relative;
    var absolutePath := Resolve(directory, name);
    AcceptedIsInside(root, absolutePath, name);
    ResolveRelative(root, absolutePath);
  }

  // ----- Captures

  lemma FileNameIsSegment(name: string)
    requires IsFileName(name)
    ensures IsSegment(name) && !IsAbsoluteInEitherNamespace(name)
  {
    var body := name[..|name| - 4];
    var tail := name[|name| - 4..];
    assert name == body + tail;
    assert IsSafe(body[0]);
    forall i | 0 <= i < |name|
      ensures name[i] != SEPARATOR && name[i] != ':' && name[i] != '\\'
    {
      if i < |body| {
        assert name[i] == body[i] && IsSafe(body[i]);
      } else {
        assert name[i] == tail[i - |body|];
      }
    }
  }

  lemma SegmentResolves(directory: Path, name: string)
    requires IsPath(directory) && IsSegment(name)
    ensures Resolve(directory, name) == directory + [name]
  {
    assert name[0] in name;
    SplitOnePart(name, SEPARATOR);
    WalkPlain(directory, [name]);
  }

  /** Every assembled capture name is accepted for every usable claim identifier, lands directly in the
      claim's images folder, and is found again from the path recorded. */
  lemma CapturesAreStored(root: Path, claim: string, url: Option<string>, caption: Option<string>, width: string,
                          stamp: string, id: string, env: Environment)
    requires IsPath(root) && IsStamp(stamp) && SafeSegment(claim, env.lower).Success?
    ensures var name := CaptureFileName(url, caption, width, stamp, id, env);
            var directory := DirectoryFor(root, SafeSegment(claim, env.lower).value, Images);
            && IsPath(directory) && directory == root + ["claims", env.lower(claim), "images"]
            && Resolve(directory, name) == directory + [name]
            && !Escapes(root, directory + [name], name)
            && Located(root, Relative(root, directory + [name])) == Success(directory + [name])
  {
    hide Resolve, CaptureFileName, SafeSegment, IsFileName, Folder, Located;
    var name := CaptureFileName(url, caption, width, stamp, id, env);
    CaptureNamesAreFileNames(url, caption, width, stamp, id, env);
    FileNameIsSegment(name);
    UsableClaims(claim, env.lower);
    var segment := SafeSegment(claim, env.lower).value;
    DirectoriesArePaths(root, segment, Images);
    FoldersDiffer(Images, Images);
    var directory := DirectoryFor(root, segment, Images);
    SegmentResolves(directory, name);
    UnderClaims(root, directory + [name], name);
    WrittenIsLocated(root, directory, name);
  }

  lemma UnderClaims(root: Path, to: Path, name: string)
    requires IsPath(root) && IsPath(to) && root + ["claims"] <= to && !IsAbsoluteInEitherNamespace(name)
    ensures !Escapes(root, to, name)
  {
    hide Escapes, IsAbsoluteInEitherNamespace;
    assert root <= to && to[|root|] == "claims";
    ClaimsIsPlain();
    EscapesMeans(root, to, name);
  }

  lemma ClaimsIsPlain()
    ensures !(".." <= "claims") && !IsAbsoluteInEitherNamespace("claims")
  {
    assert "claims"[0] == 'c' && "claims"[1] == 'l' && ".."[0] == '.';
  }
}
