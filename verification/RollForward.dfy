/** Selection of an installed framework under the roll-forward policies. The directory listing is a sequence of
    entries in any order; two directory names can stand for one version, as `8.0.1` and `08.0.1` do. */
module RollForward {
  import opened Wrappers

  datatype Version = Version(major: nat, minor: nat, patch: nat)

  datatype Entry = Entry(version: Version, path: string)

  datatype Policy = Disable | LatestPatch | Minor | LatestMinor | Major | LatestMajor

  /** Numeric order of versions. */
  predicate AtMost(a: Version, b: Version) {
    || a.major < b.major
    || (a.major == b.major && (a.minor < b.minor || (a.minor == b.minor && a.patch <= b.patch)))
  }

  predicate Installed(all: seq<Entry>, v: Version) {
    exists e :: e in all && e.version == v
  }

  // ------------------------------------------------------------ what the policies ask for

  /** The lowest (or the latest) installed minor of the major that is not below `minimum`, with its highest patch. */
  ghost predicate ChosenMinor(all: seq<Entry>, major: nat, minimum: nat, latest: bool, c: Version) {
    && Installed(all, c) && c.major == major && minimum <= c.minor
    && forall e :: e in all && e.version.major == major && minimum <= e.version.minor ==>
         && (if latest then e.version.minor <= c.minor else c.minor <= e.version.minor)
         && (e.version.minor == c.minor ==> e.version.patch <= c.patch)
  }

  /** The lowest (or the latest) installed major that is not below the requested one. */
  ghost predicate ChosenMajor(all: seq<Entry>, minimum: nat, latest: bool, major: nat) {
    && minimum <= major && (exists e :: e in all && e.version.major == major)
    && forall e :: e in all && minimum <= e.version.major ==>
         if latest then e.version.major <= major else major <= e.version.major
  }

  /** The highest installed patch of one minor. */
  ghost predicate ChosenPatch(all: seq<Entry>, major: nat, minor: nat, c: Version) {
    && Installed(all, c) && c.major == major && c.minor == minor
    && forall e :: e in all && e.version.major == major && e.version.minor == minor ==> e.version.patch <= c.patch
  }

  function MinimumMinor(requested: Version, major: nat): nat {
    if major == requested.major then requested.minor else 0
  }

  /** `v` is the version that the policy asks for. */
  ghost predicate IsTarget(all: seq<Entry>, requested: Version, policy: Policy, v: Version) {
    match policy
    case Disable => v == requested && Installed(all, v)
    case LatestPatch => ChosenPatch(all, requested.major, requested.minor, v)
    case Minor => ChosenMinor(all, requested.major, requested.minor, false, v)
    case LatestMinor => ChosenMinor(all, requested.major, requested.minor, true, v)
    case Major => TargetOfMajor(all, requested, false, v)
    case LatestMajor => TargetOfMajor(all, requested, true, v)
  }

  ghost predicate TargetOfMajor(all: seq<Entry>, requested: Version, latest: bool, v: Version) {
    && ChosenMajor(all, requested.major, latest, v.major)
    && ChosenMinor(all, v.major, MinimumMinor(requested, v.major), latest, v)
  }

  /** Of the entries of one version, an exact match takes the first and every other policy the last. */
  predicate Wins(all: seq<Entry>, policy: Policy, k: nat)
    requires k < |all|
  {
    if policy.Disable? then forall j :: 0 <= j < k ==> all[j].version != all[k].version
    else forall j :: k < j < |all| ==> all[j].version != all[k].version
  }

  /** The result of a selection: the winning entry of the version asked for, or nothing if there is no such version. */
  ghost predicate Selects(all: seq<Entry>, requested: Version, policy: Policy, r: Option<Entry>) {
    match r
    case Some(e) => exists k :: 0 <= k < |all| && all[k] == e && IsTarget(all, requested, policy, e.version)
                                && Wins(all, policy, k)
    case None => forall v :: !IsTarget(all, requested, policy, v)
  }

  // ------------------------------------------------------------ the selection

  method Select(all: seq<Entry>, requested: Version, policy: Policy) returns (r: Option<Entry>)
    ensures Selects(all, requested, policy, r)
  {
    match policy {
      case Disable => r := Find(all, requested);
      case LatestPatch => r := HighestPatch(all, requested, policy);
      case Minor => r := SelectMinor(all, requested, false, policy);
      case LatestMinor => r := SelectMinor(all, requested, true, policy);
      case Major => r := SelectMajor(all, requested, false, policy);
      case LatestMajor => r := SelectMajor(all, requested, true, policy);
    }
  }

  method Find(all: seq<Entry>, v: Version) returns (r: Option<Entry>)
    ensures Selects(all, v, Disable, r)
  {
    for k := 0 to |all|
      invariant forall j :: 0 <= j < k ==> all[j].version != v
    {
      if all[k].version == v {
        return Some(all[k]);
      }
    }
    r := None;
  }

  /** The last entry with the highest patch among those of one minor. */
  method LastHighest(all: seq<Entry>, major: nat, minor: nat) returns (best: Option<nat>)
    ensures best.None? ==> forall e :: e in all ==> !(e.version.major == major && e.version.minor == minor)
    ensures best.Some? ==> best.value < |all| && ChosenPatch(all, major, minor, all[best.value].version)
    ensures best.Some? ==> Wins(all, LatestPatch, best.value)
  {
    best := None;
    for k := 0 to |all|
      invariant best.None? ==> forall j :: 0 <= j < k ==>
          !(all[j].version.major == major && all[j].version.minor == minor)
      invariant best.Some? ==> best.value < k && all[best.value].version.major == major
                               && all[best.value].version.minor == minor
      invariant best.Some? ==> forall j ::
          0 <= j < k && all[j].version.major == major && all[j].version.minor == minor ==>
                  all[j].version.patch <= all[best.value].version.patch
      invariant best.Some? ==> forall j :: best.value < j < k ==> all[j].version != all[best.value].version
    {
      var v := all[k].version;
      if v.major == major && v.minor == minor && (best.None? || all[best.value].version.patch <= v.patch) {
        best := Some(k);
      }
    }
  }

  method HighestPatch(all: seq<Entry>, requested: Version, policy: Policy) returns (r: Option<Entry>)
    requires policy == LatestPatch
    ensures Selects(all, requested, policy, r)
  {
    var best := LastHighest(all, requested.major, requested.minor);
    r := if best.Some? then Some(all[best.value]) else None;
  }

  /** The lowest or the latest minor of a major that is not below `minimum`. */
  method ExtremeMinor(all: seq<Entry>, major: nat, minimum: nat, latest: bool) returns (m: Option<nat>)
    ensures m.None? ==> forall e :: e in all ==> !(e.version.major == major && minimum <= e.version.minor)
    ensures m.Some? ==> minimum <= m.value && exists e ::
        e in all && e.version.major == major && e.version.minor == m.value
    ensures m.Some? ==> forall e :: e in all && e.version.major == major && minimum <= e.version.minor ==>
              if latest then e.version.minor <= m.value else m.value <= e.version.minor
  {
    m := None;
    for k := 0 to |all|
      invariant m.None? ==> forall j :: 0 <= j < k ==>
          !(all[j].version.major == major && minimum <= all[j].version.minor)
      invariant m.Some? ==> minimum <= m.value && exists j ::
          0 <= j < k && all[j].version.major == major && all[j].version.minor == m.value
      invariant m.Some? ==> forall j ::
          0 <= j < k && all[j].version.major == major && minimum <= all[j].version.minor ==>
                  if latest then all[j].version.minor <= m.value else m.value <= all[j].version.minor
    {
      var v := all[k].version;
      if v.major == major && minimum <= v.minor
         && (m.None? || (if latest then m.value < v.minor else v.minor < m.value)) {
        m := Some(v.minor);
      }
    }
  }

  /** The lowest or the latest major that is not below `minimum`. */
  method ExtremeMajor(all: seq<Entry>, minimum: nat, latest: bool) returns (m: Option<nat>)
    ensures m.None? ==> forall e :: e in all ==> e.version.major < minimum
    ensures m.Some? ==> ChosenMajor(all, minimum, latest, m.value)
  {
    m := None;
    for k := 0 to |all|
      invariant m.None? ==> forall j :: 0 <= j < k ==> all[j].version.major < minimum
      invariant m.Some? ==> minimum <= m.value && exists j :: 0 <= j < k && all[j].version.major == m.value
      invariant m.Some? ==> forall j :: 0 <= j < k && minimum <= all[j].version.major ==>
                  if latest then all[j].version.major <= m.value else m.value <= all[j].version.major
    {
      var major := all[k].version.major;
      if minimum <= major && (m.None? || (if latest then m.value < major else major < m.value)) {
        m := Some(major);
      }
    }
  }

  method MinorWithPatch(all: seq<Entry>, major: nat, minimum: nat, latest: bool) returns (best: Option<nat>)
    ensures best.None? ==> forall e :: e in all ==> !(e.version.major == major && minimum <= e.version.minor)
    ensures best.Some? ==> best.value < |all| && ChosenMinor(all, major, minimum, latest, all[best.value].version)
    ensures best.Some? ==> Wins(all, Minor, best.value)
  {
    var minor := ExtremeMinor(all, major, minimum, latest);
    if minor.None? {
      return None;
    }
    best := LastHighest(all, major, minor.value);
  }

  method SelectMinor(all: seq<Entry>, requested: Version, latest: bool, policy: Policy) returns (r: Option<Entry>)
    requires policy == if latest then LatestMinor else Minor
    ensures Selects(all, requested, policy, r)
  {
    var best := MinorWithPatch(all, requested.major, requested.minor, latest);
    r := if best.Some? then Some(all[best.value]) else None;
  }

  method SelectMajor(all: seq<Entry>, requested: Version, latest: bool, policy: Policy) returns (r: Option<Entry>)
    requires policy == if latest then LatestMajor else Major
    ensures Selects(all, requested, policy, r)
  {
    var major := ExtremeMajor(all, requested.major, latest);
    if major.None? {
      return None;
    }
    var best := MinorWithPatch(all, major.value, MinimumMinor(requested, major.value), latest);
    if best.None? {
      MajorWithoutMinor(all, requested, latest, major.value);
      return None;
    }
    r := Some(all[best.value]);
  }

  lemma MajorWithoutMinor(all: seq<Entry>, requested: Version, latest: bool, major: nat)
    requires ChosenMajor(all, requested.major, latest, major)
    requires forall e :: e in all ==> !(e.version.major == major && MinimumMinor(requested, major) <= e.version.minor)
    ensures forall v :: !TargetOfMajor(all, requested, latest, v)
  {
    forall v ensures !TargetOfMajor(all, requested, latest, v) {
      if ChosenMajor(all, requested.major, latest, v.major) { assert v.major == major; }
    }
  }

  // ------------------------------------------------------------ order of the directory

  /** A policy asks for at most one version. */
  lemma TargetIsUnique(all: seq<Entry>, requested: Version, policy: Policy, v: Version, v': Version)
    requires IsTarget(all, requested, policy, v) && IsTarget(all, requested, policy, v')
    ensures v == v'
  {
  }

  /** Which version is asked for does not depend on the order of the listing. */
  lemma TargetIgnoresOrder(a: seq<Entry>, b: seq<Entry>, requested: Version, policy: Policy, v: Version)
    requires multiset(a) == multiset(b) && IsTarget(a, requested, policy, v)
    ensures IsTarget(b, requested, policy, v)
  {
    forall e ensures e in a <==> e in b {
      assert e in multiset(a) <==> e in multiset(b);
    }
  }

  /** Listings in different orders give the same version, or nothing on both sides. */
  lemma VersionIgnoresOrder(a: seq<Entry>, b: seq<Entry>, requested: Version, policy: Policy, ra: Option<Entry>,
                            rb: Option<Entry>)
    requires multiset(a) == multiset(b) && Selects(a, requested, policy, ra) && Selects(b, requested, policy, rb)
    ensures ra.Some? <==> rb.Some?
    ensures ra.Some? ==> ra.value.version == rb.value.version && rb.value in a
  {
    if ra.Some? { TargetIgnoresOrder(a, b, requested, policy, ra.value.version); }
    if rb.Some? {
      TargetIgnoresOrder(b, a, requested, policy, rb.value.version);
      assert rb.value in multiset(b);
    }
    if ra.Some? && rb.Some? { TargetIsUnique(a, requested, policy, ra.value.version, rb.value.version); }
  }

  /** Every order of the listing gives the entry `e`. */
  ghost predicate OrderFree(all: seq<Entry>, requested: Version, policy: Policy, e: Entry) {
    forall b, r :: multiset(b) == multiset(all) && Selects(b, requested, policy, r) ==> r == Some(e)
  }

  /** The selected directory does not depend on the order of the listing if and only if no other entry has the
      selected version. */
  lemma PathIgnoresOrderExactlyWhen(all: seq<Entry>, requested: Version, policy: Policy, e: Entry)
    requires Selects(all, requested, policy, Some(e))
    ensures OrderFree(all, requested, policy, e) <==> forall x :: x in all && x.version == e.version ==> x == e
  {
    if OrderFree(all, requested, policy, e) {
      forall x | x in all && x.version == e.version ensures x == e {
        var b := MakeWinner(all, requested, policy, e, x);
      }
    }
    if forall x :: x in all && x.version == e.version ==> x == e {
      forall b, r | multiset(b) == multiset(all) && Selects(b, requested, policy, r) ensures r == Some(e) {
        VersionIgnoresOrder(all, b, requested, policy, Some(e), r);
      }
    }
  }

  /** Any entry of the selected version wins in some order. */
  lemma MakeWinner(all: seq<Entry>, requested: Version, policy: Policy, e: Entry, x: Entry) returns (b: seq<Entry>)
    requires Selects(all, requested, policy, Some(e)) && x in all && x.version == e.version
    ensures multiset(b) == multiset(all) && Selects(b, requested, policy, Some(x))
  {
    var i :| 0 <= i < |all| && all[i] == x;
    var rest := all[..i] + all[i + 1..];
    assert all == all[..i] + [x] + all[i + 1..];
    b := if policy.Disable? then [x] + rest else rest + [x];
    TargetIgnoresOrder(all, b, requested, policy, e.version);
    var k := if policy.Disable? then 0 else |rest|;
    assert b[k] == x && Wins(b, policy, k);
  }

  /** Two directories of one version: the one listed last is selected, in either order. */
  lemma LastListedWins()
    ensures var v, e, e' := Version(8, 0, 1), Entry(Version(8, 0, 1), "8.0.1"), Entry(Version(8, 0, 1), "08.0.1");
            Selects([e, e'], v, LatestPatch, Some(e')) && Selects([e', e], v, LatestPatch, Some(e)) && e != e'
  {
    var e, e' := Entry(Version(8, 0, 1), "8.0.1"), Entry(Version(8, 0, 1), "08.0.1");
    assert [e, e'][1] == e' && e' in [e, e'] && Wins([e, e'], LatestPatch, 1);
    assert [e', e][1] == e && e in [e', e] && Wins([e', e], LatestPatch, 1);
    assert e.path[0] == '8' && e'.path[0] == '0';
  }

  // ------------------------------------------------------------ how the policies relate

  /** No policy selects a lower major, or a lower minor of the requested major, or something not installed. */
  lemma NeverBelowRequestedMinor(all: seq<Entry>, requested: Version, policy: Policy, e: Entry)
    requires Selects(all, requested, policy, Some(e))
    ensures e in all
    ensures e.version.major > requested.major
            || (e.version.major == requested.major && e.version.minor >= requested.minor)
  {
  }

  /** Patches of the requested minor are installed, and none is recent enough. */
  predicate OnlyOlderPatches(all: seq<Entry>, requested: Version) {
    && (exists e :: e in all && e.version.major == requested.major && e.version.minor == requested.minor)
    && forall e :: e in all && e.version.major == requested.major && e.version.minor == requested.minor ==>
         e.version.patch < requested.patch
  }

  /** The policy prefers something installed to the requested minor. */
  predicate PrefersLater(all: seq<Entry>, requested: Version, policy: Policy) {
    match policy
    case Disable => false
    case LatestPatch => false
    case Minor => false
    case Major => false
    case LatestMinor => exists e :: e in all && e.version.major == requested.major && requested.minor < e.version.minor
    case LatestMajor =>
      exists e :: e in all && (requested.major < e.version.major
                               || (requested.major == e.version.major && requested.minor < e.version.minor))
  }

  /** What a policy selects is at least the requested version, unless only older patches of the requested minor are
      installed and the policy prefers nothing to that minor. An exact match never selects an older patch. */
  lemma SelectionIsRecentExactlyWhen(all: seq<Entry>, requested: Version, policy: Policy, v: Version)
    requires IsTarget(all, requested, policy, v)
    ensures AtMost(requested, v) <==>
            policy.Disable? || !OnlyOlderPatches(all, requested) || PrefersLater(all, requested, policy)
  {
    var e :| e in all && e.version == v;
  }

  /** Version 8.0.5 is requested and only 8.0.1 is installed: every policy but an exact match selects it. */
  lemma OlderPatchIsSelected(policy: Policy)
    requires policy != Disable
    ensures var e := Entry(Version(8, 0, 1), "8.0.1");
            Selects([e], Version(8, 0, 5), policy, Some(e)) && !AtMost(Version(8, 0, 5), e.version)
  {
    var e := Entry(Version(8, 0, 1), "8.0.1");
    assert [e][0] == e && Wins([e], policy, 0) && e in [e];
  }

  /** What LatestPatch selects, Minor selects too. */
  lemma LatestPatchRefinesMinor(all: seq<Entry>, requested: Version, e: Entry)
    requires Selects(all, requested, LatestPatch, Some(e))
    ensures Selects(all, requested, Minor, Some(e))
  {
    var k :| 0 <= k < |all| && all[k] == e && IsTarget(all, requested, LatestPatch, e.version)
    && Wins(all, LatestPatch, k);
    assert Wins(all, Minor, k);
  }

  /** What Minor selects, Major selects too. */
  lemma MinorRefinesMajor(all: seq<Entry>, requested: Version, e: Entry)
    requires Selects(all, requested, Minor, Some(e))
    ensures Selects(all, requested, Major, Some(e))
  {
    var k :| 0 <= k < |all| && all[k] == e && IsTarget(all, requested, Minor, e.version) && Wins(all, Minor, k);
    assert Wins(all, Major, k);
  }

  /** Minor, LatestMinor and LatestMajor select ever later versions. */
  lemma LatestPoliciesAreLater(all: seq<Entry>, requested: Version, a: Version, r: Option<Entry>, s: Option<Entry>)
    requires IsTarget(all, requested, Minor, a)
    requires Selects(all, requested, LatestMinor, r) && Selects(all, requested, LatestMajor, s)
    ensures r.Some? && s.Some? && AtMost(a, r.value.version) && AtMost(r.value.version, s.value.version)
  {
    var b := LatestMinorExists(all, requested.major, requested.minor);
    assert IsTarget(all, requested, LatestMinor, b);
    TargetIsUnique(all, requested, LatestMinor, b, r.value.version);
    var major := LatestMajorExists(all, requested.major);
    var c := LatestMinorExists(all, major, MinimumMinor(requested, major));
    assert IsTarget(all, requested, LatestMajor, c);
    TargetIsUnique(all, requested, LatestMajor, c, s.value.version);
  }

  lemma LatestMajorExists(all: seq<Entry>, minimum: nat) returns (major: nat)
    requires exists e :: e in all && minimum <= e.version.major
    ensures ChosenMajor(all, minimum, true, major)
  {
    var e :| e in all && minimum <= e.version.major;
    major := e.version.major;
    for k := 0 to |all|
      invariant minimum <= major && exists x :: x in all && x.version.major == major
      invariant forall j :: 0 <= j < k ==> all[j].version.major <= major
    {
      if major < all[k].version.major { major := all[k].version.major; }
    }
  }

  lemma LatestMinorExists(all: seq<Entry>, major: nat, minimum: nat) returns (v: Version)
    requires exists e :: e in all && e.version.major == major && minimum <= e.version.minor
    ensures ChosenMinor(all, major, minimum, true, v)
  {
    var e :| e in all && e.version.major == major && minimum <= e.version.minor;
    v := e.version;
    for k := 0 to |all|
      invariant Installed(all, v) && v.major == major && minimum <= v.minor
      invariant forall j :: 0 <= j < k && all[j].version.major == major ==> AtMost(all[j].version, v)
    {
      if all[k].version.major == major && AtMost(v, all[k].version) { v := all[k].version; }
    }
  }

  /** Major selects exactly when something at or above the requested major is installed and, if the requested
      major itself is, one of its minors is high enough. */
  lemma MajorSelectsExactlyWhen(all: seq<Entry>, requested: Version, r: Option<Entry>)
    requires Selects(all, requested, Major, r)
    ensures r.Some? <==>
            && (exists e :: e in all && requested.major <= e.version.major)
            && ((exists e :: e in all && e.version.major == requested.major) ==>
                  exists e :: e in all && e.version.major == requested.major && requested.minor <= e.version.minor)
  {
    if exists e :: e in all && requested.major <= e.version.major {
      var major := LowestMajorExists(all, requested.major);
      if exists e :: e in all && e.version.major == major && MinimumMinor(requested, major) <= e.version.minor {
        var v := LowestMinorExists(all, major, MinimumMinor(requested, major));
        assert IsTarget(all, requested, Major, v);
      } else {
        MajorWithoutMinor(all, requested, false, major);
      }
    }
  }

  lemma LowestMajorExists(all: seq<Entry>, minimum: nat) returns (major: nat)
    requires exists e :: e in all && minimum <= e.version.major
    ensures ChosenMajor(all, minimum, false, major)
  {
    var e :| e in all && minimum <= e.version.major;
    major := e.version.major;
    for k := 0 to |all|
      invariant minimum <= major && exists x :: x in all && x.version.major == major
      invariant forall j :: 0 <= j < k && minimum <= all[j].version.major ==> major <= all[j].version.major
    {
      if minimum <= all[k].version.major < major { major := all[k].version.major; }
    }
  }

  lemma LowestMinorExists(all: seq<Entry>, major: nat, minimum: nat) returns (v: Version)
    requires exists e :: e in all && e.version.major == major && minimum <= e.version.minor
    ensures ChosenMinor(all, major, minimum, false, v)
  {
    var e :| e in all && e.version.major == major && minimum <= e.version.minor;
    v := e.version;
    for k := 0 to |all|
      invariant Installed(all, v) && v.major == major && minimum <= v.minor
      invariant forall j :: 0 <= j < k && all[j].version.major == major && minimum <= all[j].version.minor ==>
                  v.minor < all[j].version.minor || (v.minor == all[j].version.minor && all[j].version.patch <= v.patch)
    {
      var w := all[k].version;
      if w.major == major && minimum <= w.minor
         && (w.minor < v.minor || (w.minor == v.minor && v.patch <= w.patch)) { v := w; }
    }
  }

  /** Version 8.0 and 9.0 are installed and 8.1 is requested: Major stops at 8 and selects nothing. */
  lemma UsableMajorIsMissed()
    ensures var low, high := Entry(Version(8, 0, 0), "8.0.0"), Entry(Version(9, 0, 0), "9.0.0");
            forall r :: Selects([low, high], Version(8, 1, 0), Major, r) ==> r == None
  {
    var all := [Entry(Version(8, 0, 0), "8.0.0"), Entry(Version(9, 0, 0), "9.0.0")];
    assert all[0] in all;
    forall r | Selects(all, Version(8, 1, 0), Major, r) ensures r == None {
      MajorSelectsExactlyWhen(all, Version(8, 1, 0), r);
    }
  }
}
