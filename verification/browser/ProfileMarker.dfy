/** Which binary may open which profile (`compareVersions` and `profileCompatibility` in
    src/browser/profile-marker.ts). A version is the list of its numeric components. */
module ProfileMarker {
  import opened Wrappers

  type Version = seq<nat>

  /** A missing component is zero. */
  function Part(v: Version, i: nat): nat {
    if i < |v| then v[i] else 0
  }

  // ----- The order

  ghost predicate AgreeBelow(a: Version, b: Version, n: nat) {
    forall i: nat | i < n :: Part(a, i) == Part(b, i)
  }

  /** At the first component where they differ, `a` has the smaller one. */
  ghost predicate Older(a: Version, b: Version) {
    exists n: nat :: AgreeBelow(a, b, n) && Part(a, n) < Part(b, n)
  }

  ghost predicate SameVersion(a: Version, b: Version) {
    forall i: nat :: Part(a, i) == Part(b, i)
  }

  /** `compareVersions`: component by component, with an early return. */
  method CompareVersions(left: Version, right: Version) returns (order: int)
    ensures order == -1 || order == 0 || order == 1
    ensures order == -1 <==> Older(left, right)
    ensures order == 1 <==> Older(right, left)
    ensures order == 0 <==> SameVersion(left, right)
  {
    var length := if |left| >= |right| then |left| else |right|;
    for index := 0 to length
      invariant AgreeBelow(left, right, index)
    {
      var a := Part(left, index);
      var b := Part(right, index);
      if a != b {
        OlderIsAntisymmetric(left, right);
        if a < b {
          assert Older(left, right);
          return -1;
        }
        assert AgreeBelow(right, left, index);
        assert Older(right, left);
        return 1;
      }
    }
    assert SameVersion(left, right);
    order := 0;
  }

  lemma OlderIsAntisymmetric(a: Version, b: Version)
    ensures !(Older(a, b) && Older(b, a))
    ensures SameVersion(a, b) ==> !Older(a, b) && !Older(b, a)
  {
  }

  lemma OlderIsTransitive(a: Version, b: Version, c: Version)
    requires Older(a, b) && Older(b, c)
    ensures Older(a, c)
  {
    var m: nat :| AgreeBelow(a, b, m) && Part(a, m) < Part(b, m);
    var n: nat :| AgreeBelow(b, c, n) && Part(b, n) < Part(c, n);
    var k := if m <= n then m else n;
    assert AgreeBelow(a, c, k) && Part(a, k) < Part(c, k);
  }

  lemma SameAsOlder(a: Version, b: Version, c: Version)
    requires SameVersion(a, b)
    ensures Older(a, c) <==> Older(b, c)
    ensures Older(c, a) <==> Older(c, b)
  {
    if n: nat :| AgreeBelow(a, c, n) && Part(a, n) < Part(c, n) { assert AgreeBelow(b, c, n); }
    if n: nat :| AgreeBelow(b, c, n) && Part(b, n) < Part(c, n) { assert AgreeBelow(a, c, n); }
    if n: nat :| AgreeBelow(c, a, n) && Part(c, n) < Part(a, n) { assert AgreeBelow(c, b, n); }
    if n: nat :| AgreeBelow(c, b, n) && Part(c, n) < Part(b, n) { assert AgreeBelow(c, a, n); }
  }

  /** Any two versions are ordered one way, the other way, or are one version. */
  lemma OlderIsTotal(a: Version, b: Version)
    ensures Older(a, b) || Older(b, a) || SameVersion(a, b)
  {
    if i: nat :| Part(a, i) != Part(b, i) {
      FirstDifference(a, b, i);
    }
  }

  lemma {:induction false} FirstDifference(a: Version, b: Version, i: nat)
    requires Part(a, i) != Part(b, i)
    ensures Older(a, b) || Older(b, a)
  {
    if j: nat :| j < i && Part(a, j) != Part(b, j) {
      FirstDifference(a, b, j);
    } else {
      assert AgreeBelow(a, b, i) && AgreeBelow(b, a, i);
    }
  }

  /** A version without its trailing zero components. */
  function Trimmed(v: Version): Version {
    if v != [] && v[|v| - 1] == 0 then Trimmed(v[..|v| - 1]) else v
  }

  lemma {:induction false} TrimmingKeepsVersion(v: Version)
    ensures SameVersion(v, Trimmed(v))
    ensures Trimmed(v) == [] || Trimmed(v)[|Trimmed(v)| - 1] != 0
  {
    if v != [] && v[|v| - 1] == 0 {
      TrimmingKeepsVersion(v[..|v| - 1]);
      assert SameVersion(v, v[..|v| - 1]);
    }
  }

  lemma NoLonger(s: Version, t: Version)
    requires SameVersion(s, t) && (s == [] || s[|s| - 1] != 0)
    ensures |s| <= |t|
  {
    if |s| > 0 {
      assert Part(s, |s| - 1) == Part(t, |s| - 1);
    }
  }

  /** Two texts are one version exactly when they differ only in trailing zero components. */
  lemma SameUpToTrailingZeros(a: Version, b: Version)
    ensures SameVersion(a, b) <==> Trimmed(a) == Trimmed(b)
  {
    TrimmingKeepsVersion(a);
    TrimmingKeepsVersion(b);
    var s, t := Trimmed(a), Trimmed(b);
    if SameVersion(a, b) {
      assert forall i: nat :: Part(s, i) == Part(a, i) == Part(b, i) == Part(t, i);
      NoLonger(s, t);
      NoLonger(t, s);
      assert forall i :: 0 <= i < |s| ==> s[i] == Part(s, i) && t[i] == Part(t, i);
    }
  }

  // ----- Compatibility

  datatype Marker = Marker(version: Option<Version>, browserPath: Option<string>)

  /** How two paths are compared: resolved first, and without regard to case on Windows. */
  datatype Platform = Platform(windows: bool, resolve: string -> string, lower: string -> string) {
    predicate SamePath(left: string, right: string) {
      if windows then lower(resolve(left)) == lower(resolve(right)) else resolve(left) == resolve(right)
    }
  }

  /** The binary is the one recorded, or none is recorded. */
  predicate PathOk(marker: Marker, platform: Platform, executablePath: string) {
    marker.browserPath.None? || platform.SamePath(marker.browserPath.value, executablePath)
  }

  ghost predicate Compatible(marker: Marker, platform: Platform, executablePath: string, version: Option<Version>) {
    && PathOk(marker, platform, executablePath)
    && (marker.version.Some? && version.Some? ==> !Older(version.value, marker.version.value))
  }

  method ProfileCompatibility(marker: Marker, platform: Platform, executablePath: string, executableVersion: Option<Version>)
    returns (ok: bool)
    ensures ok <==> Compatible(marker, platform, executablePath, executableVersion)
  {
    if marker.browserPath.None? && marker.version.None? {
      return true;
    }
    if marker.browserPath.Some? && !platform.SamePath(marker.browserPath.value, executablePath) {
      return false;
    }
    if marker.version.Some? && executableVersion.Some? {
      var order := CompareVersions(executableVersion.value, marker.version.value);
      if order < 0 {
        return false;
      }
    }
    ok := true;
  }

  /** Who is turned away, without a word about how it is decided: another recorded binary, paths compared
      after resolving and on Windows without regard to case, or a known version whose first difference
      from the recorded one is a smaller component. */
  lemma WhoIsTurnedAway(marker: Marker, platform: Platform, executablePath: string, version: Option<Version>)
    ensures !Compatible(marker, platform, executablePath, version) <==>
            || (marker.browserPath.Some? && !platform.windows
                && platform.resolve(marker.browserPath.value) != platform.resolve(executablePath))
            || (marker.browserPath.Some? && platform.windows
                && platform.lower(platform.resolve(marker.browserPath.value)) != platform.lower(platform.resolve(executablePath)))
            || (marker.version.Some? && version.Some? && exists n: nat ::
                  && (forall i: nat | i < n :: Part(version.value, i) == Part(marker.version.value, i))
                  && Part(version.value, n) < Part(marker.version.value, n))
  {
    if marker.version.Some? && version.Some? {
      var a, b := version.value, marker.version.value;
      if n: nat :| (forall i: nat | i < n :: Part(a, i) == Part(b, i)) && Part(a, n) < Part(b, n) {
        assert AgreeBelow(a, b, n);
      }
    }
  }

  /** For a fixed profile and binary path, upgrading never turns a compatible binary away. */
  lemma CompatibilityIsUpwardClosed(marker: Marker, platform: Platform, executablePath: string, v: Version, w: Version)
    requires Compatible(marker, platform, executablePath, Some(v)) && !Older(w, v)
    ensures Compatible(marker, platform, executablePath, Some(w))
  {
    if marker.version.Some? && Older(w, marker.version.value) {
      var m := marker.version.value;
      OlderIsTotal(v, w);
      OlderIsTotal(m, v);
      if Older(v, w) {
        OlderIsTransitive(v, w, m);
      } else {
        SameAsOlder(v, w, m);
      }
    }
  }

  /** A profile written by one version opens in another and back again only if they are one version:
      otherwise one of the two directions is a downgrade. */
  lemma {:induction false} BothWaysMeansSameVersion(platform: Platform, path: string, v: Version, w: Version)
    ensures (Compatible(Marker(Some(v), None), platform, path, Some(w)) && Compatible(Marker(Some(w), None), platform, path, Some(v)))
            <==> Trimmed(v) == Trimmed(w)
  {
    SameUpToTrailingZeros(v, w);
    OlderIsTotal(v, w);
    OlderIsAntisymmetric(v, w);
  }
}
