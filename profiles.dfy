/** `hasProfiles` (app.js:335-378) and `getSeedLabel` (app.js:284-302): the
    Heritrix crawl profiles a seed was harvested with, and the seed labels
    built from them. */
module Profiles {
  import opened Wrappers
  import opened Records
  import opened Text

  /** The profile flags in the order the source tests them, and their names. */
  const ProfileNames: seq<string> := ["p1", "p2", "p3", "p4", "p5", "p6", "p7", "p8", "p9", "p10", "p99"]

  function Flags(seed: Seed): (flags: seq<Flag>)
    ensures |flags| == |ProfileNames|
  {
    [seed.p1, seed.p2, seed.p3, seed.p4, seed.p5, seed.p6, seed.p7, seed.p8, seed.p9, seed.p10, seed.p99]
  }

  /** `flag === 1`: only the number one is set; `true`, `"1"` and other
      numbers are not. */
  predicate IsSet(flag: Flag) {
    flag == Number(1)
  }

  /** The name, when its flag is set. */
  function Pick(flag: Flag, name: string): seq<string> {
    if IsSet(flag) then [name] else []
  }

  /** The names whose flag is set, keeping the order of the table. */
  function Selected(flags: seq<Flag>, names: seq<string>): (selected: seq<string>)
    requires |flags| == |names|
    ensures |selected| <= |names|
  {
    if flags == [] then []
    else
      var n := |flags| - 1;
      Selected(flags[..n], names[..n]) + Pick(flags[n], names[n])
  }

  /** The profiles of a seed, in table order. */
  function ActiveProfiles(seed: Seed): seq<string> {
    Selected(Flags(seed), ProfileNames)
  }

  /** What `hasProfiles` returns: `null` when no profile is set, otherwise
      the comma-separated names of the set profiles. */
  function ProfileString(seed: Seed): Option<string> {
    var active := ActiveProfiles(seed);
    if active == [] then None else Some(Join(active, ","))
  }

  /** Appending one more flag appends its name when it is set. */
  lemma SelectedSnoc(flags: seq<Flag>, names: seq<string>, flag: Flag, name: string)
    requires |flags| == |names|
    ensures Selected(flags + [flag], names + [name]) ==
      Selected(flags, names) + Pick(flag, name)
  {
    assert (flags + [flag])[..|flags|] == flags;
    assert (names + [name])[..|names|] == names;
  }

  /** Testing the flag at index `k` appends its name when it is set. */
  lemma SelectedStep(seed: Seed, k: nat)
    requires k < |ProfileNames|
    ensures var flags, names := Flags(seed), ProfileNames;
      Selected(flags[..k + 1], names[..k + 1]) ==
      Selected(flags[..k], names[..k]) + Pick(flags[k], names[k])
  {
    var flags, names := Flags(seed), ProfileNames;
    assert flags[..k + 1] == flags[..k] + [flags[k]];
    assert names[..k + 1] == names[..k] + [names[k]];
    SelectedSnoc(flags[..k], names[..k], flags[k], names[k]);
  }

  /** The profiles of a seed, flag by flag. */
  lemma ActiveProfilesUnrolled(seed: Seed)
    ensures ActiveProfiles(seed) == [] +
      Pick(seed.p1, "p1") +
      Pick(seed.p2, "p2") +
      Pick(seed.p3, "p3") +
      Pick(seed.p4, "p4") +
      Pick(seed.p5, "p5") +
      Pick(seed.p6, "p6") +
      Pick(seed.p7, "p7") +
      Pick(seed.p8, "p8") +
      Pick(seed.p9, "p9") +
      Pick(seed.p10, "p10") +
      Pick(seed.p99, "p99")
  {
    var flags, names := Flags(seed), ProfileNames;
    assert flags[..11] == flags && names[..11] == names;
    assert flags[..0] == [] && names[..0] == [];
    forall k | 0 <= k < 11
      ensures Selected(flags[..k + 1], names[..k + 1]) ==
        Selected(flags[..k], names[..k]) + Pick(flags[k], names[k])
    {
      SelectedStep(seed, k);
    }
    PushChain(
      Selected(flags[..0], names[..0]),
      Selected(flags[..1], names[..1]),
      Selected(flags[..2], names[..2]),
      Selected(flags[..3], names[..3]),
      Selected(flags[..4], names[..4]),
      Selected(flags[..5], names[..5]),
      Selected(flags[..6], names[..6]),
      Selected(flags[..7], names[..7]),
      Selected(flags[..8], names[..8]),
      Selected(flags[..9], names[..9]),
      Selected(flags[..10], names[..10]),
      Selected(flags[..11], names[..11]),
      Pick(flags[0], names[0]),
      Pick(flags[1], names[1]),
      Pick(flags[2], names[2]),
      Pick(flags[3], names[3]),
      Pick(flags[4], names[4]),
      Pick(flags[5], names[5]),
      Pick(flags[6], names[6]),
      Pick(flags[7], names[7]),
      Pick(flags[8], names[8]),
      Pick(flags[9], names[9]),
      Pick(flags[10], names[10]));
  }

  /** Eleven pushes one after the other append the eleven pieces. */
  lemma PushChain(
    l0: seq<string>, l1: seq<string>, l2: seq<string>, l3: seq<string>, l4: seq<string>, l5: seq<string>, l6: seq<string>, l7: seq<string>, l8: seq<string>, l9: seq<string>, l10: seq<string>, l11: seq<string>,
    p1: seq<string>, p2: seq<string>, p3: seq<string>, p4: seq<string>, p5: seq<string>, p6: seq<string>, p7: seq<string>, p8: seq<string>, p9: seq<string>, p10: seq<string>, p11: seq<string>)
    requires l1 == l0 + p1 &&
      l2 == l1 + p2 &&
      l3 == l2 + p3 &&
      l4 == l3 + p4 &&
      l5 == l4 + p5 &&
      l6 == l5 + p6 &&
      l7 == l6 + p7 &&
      l8 == l7 + p8 &&
      l9 == l8 + p9 &&
      l10 == l9 + p10 &&
      l11 == l10 + p11
    ensures l11 == l0 + p1 + p2 + p3 + p4 + p5 + p6 + p7 + p8 + p9 + p10 + p11
  {
  }

  /** One test of `hasProfiles`: push `name` when `flag === 1`. */
  method PushWhenSet(profiles: seq<string>, flag: Flag, name: string) returns (pushed: seq<string>)
    ensures pushed == profiles + Pick(flag, name)
  {
    pushed := profiles;
    if flag == Number(1) {
      pushed := pushed + [name];
    }
  }

  /** `hasProfiles`, test by test: eleven strict tests pushing names, then the
      `toString() !== ""` test on the comma-joined list. */
  method HasProfiles(seed: Seed) returns (r: Option<string>)
    ensures r == ProfileString(seed)
  {
    var profiles: seq<string> := [];
    profiles := PushWhenSet(profiles, seed.p1, "p1");
    ghost var after1 := profiles;
    profiles := PushWhenSet(profiles, seed.p2, "p2");
    ghost var after2 := profiles;
    profiles := PushWhenSet(profiles, seed.p3, "p3");
    ghost var after3 := profiles;
    profiles := PushWhenSet(profiles, seed.p4, "p4");
    ghost var after4 := profiles;
    profiles := PushWhenSet(profiles, seed.p5, "p5");
    ghost var after5 := profiles;
    profiles := PushWhenSet(profiles, seed.p6, "p6");
    ghost var after6 := profiles;
    profiles := PushWhenSet(profiles, seed.p7, "p7");
    ghost var after7 := profiles;
    profiles := PushWhenSet(profiles, seed.p8, "p8");
    ghost var after8 := profiles;
    profiles := PushWhenSet(profiles, seed.p9, "p9");
    ghost var after9 := profiles;
    profiles := PushWhenSet(profiles, seed.p10, "p10");
    ghost var after10 := profiles;
    profiles := PushWhenSet(profiles, seed.p99, "p99");
    ghost var after11 := profiles;
    PushChain([], after1, after2, after3, after4, after5, after6, after7, after8, after9, after10, after11,
      Pick(seed.p1, "p1"),
      Pick(seed.p2, "p2"),
      Pick(seed.p3, "p3"),
      Pick(seed.p4, "p4"),
      Pick(seed.p5, "p5"),
      Pick(seed.p6, "p6"),
      Pick(seed.p7, "p7"),
      Pick(seed.p8, "p8"),
      Pick(seed.p9, "p9"),
      Pick(seed.p10, "p10"),
      Pick(seed.p99, "p99"));
    ActiveProfilesUnrolled(seed);
    assert profiles == ActiveProfiles(seed);

    var joined := Join(profiles, ",");
    JoinedProfilesEmpty(seed);
    if joined != "" {
      return Some(joined);
    } else {
      return None;
    }
  }

  /** Every selected profile is a profile name. */
  lemma {:induction false} SelectedMembers(flags: seq<Flag>, names: seq<string>, name: string)
    requires |flags| == |names|
    ensures name in Selected(flags, names) <==>
      exists k | 0 <= k < |names| :: names[k] == name && IsSet(flags[k])
    decreases |flags|
  {
    if flags != [] {
      var n := |flags| - 1;
      SelectedMembers(flags[..n], names[..n], name);
      var selected := Selected(flags, names);
      assert selected == Selected(flags[..n], names[..n]) + Pick(flags[n], names[n]);
      forall k | 0 <= k < n
        ensures names[..n][k] == names[k] && flags[..n][k] == flags[k]
      {
      }
    }
  }

  /** A profile name is listed exactly when its flag is set; `deact` and
      values other than the number one play no part. */
  lemma ProfileListed(seed: Seed, name: string)
    ensures name in ActiveProfiles(seed) <==>
      exists k | 0 <= k < |ProfileNames| :: ProfileNames[k] == name && IsSet(Flags(seed)[k])
  {
    SelectedMembers(Flags(seed), ProfileNames, name);
  }

  /** Joining the profile names gives the empty string only for no names:
      no name is empty. */
  lemma JoinedProfilesEmpty(seed: Seed)
    ensures Join(ActiveProfiles(seed), ",") == "" <==> ActiveProfiles(seed) == []
  {
    var active := ActiveProfiles(seed);
    if active != [] {
      ProfileListed(seed, active[0]);
      assert active[0] != "";
      assert |Join(active, ",")| >= |active[0]|;
    }
  }

  /** `hasProfiles` returns `null` exactly when none of the eleven flags is
      the number one. */
  lemma NoProfileWithoutSetFlag(seed: Seed)
    ensures ProfileString(seed).None? <==> forall k | 0 <= k < |ProfileNames| :: !IsSet(Flags(seed)[k])
  {
    var active := ActiveProfiles(seed);
    if active != [] {
      ProfileListed(seed, active[0]);
    }
    if k :| 0 <= k < |ProfileNames| && IsSet(Flags(seed)[k]) {
      ProfileListed(seed, ProfileNames[k]);
    }
  }

  /** Two set flags are listed in the order of the table. */
  lemma {:induction false} SelectedInOrder(flags: seq<Flag>, names: seq<string>, i: nat, j: nat)
    requires |flags| == |names| && i < j < |flags|
    requires IsSet(flags[i]) && IsSet(flags[j])
    ensures InOrder(Selected(flags, names), names[i], names[j])
    decreases |flags|
  {
    var n := |flags| - 1;
    var selected := Selected(flags, names);
    var prefix := Selected(flags[..n], names[..n]);
    assert selected == prefix + Pick(flags[n], names[n]);
    if j == n {
      SelectedMembers(flags[..n], names[..n], names[i]);
      assert names[..n][i] == names[i] && flags[..n][i] == flags[i];
      var p :| 0 <= p < |prefix| && prefix[p] == names[i];
      var q := |prefix|;
      assert 0 <= p < q < |selected| && selected[p] == names[i] && selected[q] == names[j];
    } else {
      assert names[..n][i] == names[i] && flags[..n][i] == flags[i];
      assert names[..n][j] == names[j] && flags[..n][j] == flags[j];
      SelectedInOrder(flags[..n], names[..n], i, j);
      var p, q :| 0 <= p < q < |prefix| && prefix[p] == names[i] && prefix[q] == names[j];
      assert selected[p] == prefix[p] && selected[q] == prefix[q];
      assert 0 <= p < q < |selected| && selected[p] == names[i] && selected[q] == names[j];
    }
  }

  /** Profiles are listed in the order of the table. */
  lemma ProfilesInOrder(seed: Seed, i: nat, j: nat)
    requires i < j < |ProfileNames|
    requires IsSet(Flags(seed)[i]) && IsSet(Flags(seed)[j])
    ensures InOrder(ActiveProfiles(seed), ProfileNames[i], ProfileNames[j])
  {
    SelectedInOrder(Flags(seed), ProfileNames, i, j);
  }

  /** The comma-separated string splits back into the listed profiles. */
  lemma ProfileStringSplits(seed: Seed)
    requires ProfileString(seed).Some?
    ensures Split(ProfileString(seed).value, ',') == ActiveProfiles(seed)
  {
    var active := ActiveProfiles(seed);
    forall i | 0 <= i < |active|
      ensures ',' !in active[i]
    {
      ProfileListed(seed, active[i]);
    }
    SplitJoin(active, ',');
  }

  /** Flags one, three and ninety-nine set, the others not: the result is
      `"p1,p3,p99"`. */
  lemma ProfileExample(seed: Seed)
    requires seed.p1 == Number(1) && seed.p3 == Number(1) && seed.p99 == Number(1)
    requires seed.p2 == NotNumber && seed.p4 == Number(0) && seed.p5 == Number(2)
    requires seed.p6 == seed.p7 == seed.p8 == seed.p9 == seed.p10 == NotNumber
    ensures ProfileString(seed) == Some("p1,p3,p99")
  {
    ActiveProfilesUnrolled(seed);
    assert ActiveProfiles(seed) == ["p1", "p3", "p99"];
    var joined := Join(["p1", "p3", "p99"], ",");
    assert joined == "p1" + "," + Join(["p3", "p99"], ",");
    assert Join(["p3", "p99"], ",") == "p3,p99";
    assert joined == "p1,p3,p99";
  }

  /** `getSeedLabel`: the provenance label, then the profile label when
      `hasProfiles` is not `null`. */
  function SeedLabelsOf(seed: Seed): seq<Label> {
    [Provenance] +
    match ProfileString(seed)
    case None => []
    case Some(profiles) => [Label("heritrix_profile", profiles)]
  }

  /** `getSeedLabel`, statement by statement; like the source it calls
      `hasProfiles` twice. */
  method SeedLabels(seed: Seed) returns (labels: seq<Label>)
    ensures labels == SeedLabelsOf(seed)
  {
    labels := [Provenance];
    var profiles := HasProfiles(seed);
    if profiles != None {
      var value := HasProfiles(seed);
      labels := labels + [Label("heritrix_profile", value.value)];
    }
  }

  /** The seed labels start with the provenance label and have a second,
      profile label exactly when some profile flag is set. */
  lemma SeedLabelsShape(seed: Seed)
    ensures var labels := SeedLabelsOf(seed);
      1 <= |labels| <= 2 && labels[0] == Provenance &&
      (|labels| == 2 <==> exists k | 0 <= k < |ProfileNames| :: IsSet(Flags(seed)[k])) &&
      (|labels| == 2 ==> labels[1] == Label("heritrix_profile", Join(ActiveProfiles(seed), ",")))
  {
    NoProfileWithoutSetFlag(seed);
  }
}
