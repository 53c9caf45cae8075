/** The effective scan-profile list (NAPS2.Sdk/Config/ProfileManager.cs).

    A user keeps profiles in a per-user file; an administrator may ship system
    profiles in a read-only file and set three flags: lock the system profiles,
    lock the device of system profiles that name none, and allow no user
    profiles at all. The manager builds the effective list once, from both lists
    and the flags, and caches it; it also reads and sets the default profile.

    Profiles are objects the manager changes in place, so ScanProfile is a class.
    The rules themselves are stated on ProfileData, a snapshot of a profile's
    fields, and the methods are proved to follow them. */
module Profiles {
  import opened Wrappers
  import opened Seqs

  datatype ScanDevice = ScanDevice(id: string, name: string)

  /** The fields of a profile that the manager reads or writes. */
  datatype ProfileData = ProfileData(
    displayName: string, device: Option<ScanDevice>, isDefault: bool, isLocked: bool, isDeviceLocked: bool)

  /** The three administrator flags and whether the user's file existed when the manager was created. */
  datatype Flags = Flags(userPathExisted: bool, lockSystemProfiles: bool, lockUnspecifiedDevices: bool, noUserProfiles: bool)

  // ---------------------------------------------------------------------------
  // The rules, on snapshots

  function Names(ps: seq<ProfileData>): set<string>
  {
    set p | p in ps :: p.displayName
  }

  /** Index of the first profile called name, or |ps| when there is none. */
  function FirstNamed(ps: seq<ProfileData>, name: string): (k: nat)
    ensures k <= |ps|
    ensures forall m :: 0 <= m < k ==> ps[m].displayName != name
    ensures k < |ps| ==> ps[k].displayName == name
    ensures k < |ps| <==> name in Names(ps)
  {
    if ps == [] then 0
    else if ps[0].displayName == name then 0
    else
      var k := 1 + FirstNamed(ps[1..], name);
      assert name in Names(ps) ==> name in Names(ps[1..]) by {
        if name in Names(ps) {
          var p :| p in ps && p.displayName == name;
          assert p != ps[0];
          assert p in ps[1..];
        }
      }
      k
  }

  /** A system profile as the merge first marks it: locked, and device-locked
      when it names a device or the administrator locks unspecified devices. */
  function LockSystemProfile(p: ProfileData, lockUnspecifiedDevices: bool): ProfileData
  {
    p.(isLocked := true, isDeviceLocked := p.device.Some? || lockUnspecifiedDevices)
  }

  function LockAll(sys: seq<ProfileData>, lockUnspecifiedDevices: bool): (r: seq<ProfileData>)
    ensures |r| == |sys|
    ensures forall k :: 0 <= k < |sys| ==> r[k] == LockSystemProfile(sys[k], lockUnspecifiedDevices)
  {
    if sys == [] then [] else [LockSystemProfile(sys[0], lockUnspecifiedDevices)] + LockAll(sys[1..], lockUnspecifiedDevices)
  }

  /** What a system profile takes from the user's copy of it: the device, only
      when it has none of its own, and the default flag. */
  function Absorb(sp: ProfileData, user: ProfileData): ProfileData
  {
    sp.(device := if sp.device.None? then user.device else sp.device, isDefault := user.isDefault)
  }

  lemma NamesOfUpdate(ps: seq<ProfileData>, k: nat, q: ProfileData)
    requires k < |ps| && q.displayName == ps[k].displayName
    ensures Names(ps[k := q]) == Names(ps)
  {
    forall n | n in Names(ps) ensures n in Names(ps[k := q]) {
      var p :| p in ps && p.displayName == n;
      var m :| 0 <= m < |ps| && ps[m] == p;
      assert ps[k := q][m].displayName == n;
    }
  }

  lemma NamesOfLockAll(sys: seq<ProfileData>, lockUnspecifiedDevices: bool)
    ensures Names(LockAll(sys, lockUnspecifiedDevices)) == Names(sys)
  {
    var r := LockAll(sys, lockUnspecifiedDevices);
    forall n | n in Names(sys) ensures n in Names(r) {
      var p :| p in sys && p.displayName == n;
      var m :| 0 <= m < |sys| && sys[m] == p;
      assert r[m].displayName == n;
    }
  }

  /** The loop over the user profiles: a user profile whose name is still among
      the unmerged system names is folded into the first system profile of that
      name and dropped; every other user profile is kept. Returns the kept user
      profiles and the new system profiles. */
  function FoldUsers(users: seq<ProfileData>, sys: seq<ProfileData>, names: set<string>): (r: (seq<ProfileData>, seq<ProfileData>))
    requires names <= Names(sys)
    ensures |r.1| == |sys|
  {
    if users == [] then ([], sys)
    else
      var u := users[0];
      if u.displayName in names then
        var k := FirstNamed(sys, u.displayName);
        NamesOfUpdate(sys, k, Absorb(sys[k], u));
        FoldUsers(users[1..], sys[k := Absorb(sys[k], u)], names - {u.displayName})
      else
        var rest := FoldUsers(users[1..], sys, names);
        ([u] + rest.0, rest.1)
  }

  /** MergeUserProfilesIntoSystemProfiles: lock every system profile, then fold
      the user profiles in. Returns the remaining user profiles and the system profiles. */
  function Merge(users: seq<ProfileData>, sys: seq<ProfileData>, lockUnspecifiedDevices: bool): (seq<ProfileData>, seq<ProfileData>)
  {
    NamesOfLockAll(sys, lockUnspecifiedDevices);
    FoldUsers(users, LockAll(sys, lockUnspecifiedDevices), Names(sys))
  }

  function ClearDefaults(ps: seq<ProfileData>): (r: seq<ProfileData>)
    ensures |r| == |ps|
    ensures forall k :: 0 <= k < |ps| ==> r[k] == ps[k].(isDefault := false)
  {
    if ps == [] then [] else [ps[0].(isDefault := false)] + ClearDefaults(ps[1..])
  }

  predicate AnyDefault(ps: seq<ProfileData>)
  {
    exists k :: 0 <= k < |ps| && ps[k].isDefault
  }

  /** GetProfiles: the effective list from the user list, the system list and the flags. */
  function EffectiveProfiles(users: seq<ProfileData>, sys: seq<ProfileData>, flags: Flags): seq<ProfileData>
  {
    if flags.noUserProfiles && |sys| > 0 then Merge(users, sys, flags.lockUnspecifiedDevices).1
    else if !flags.userPathExisted then sys
    else if !flags.lockSystemProfiles then users
    else
      var m := Merge(users, sys, flags.lockUnspecifiedDevices);
      (if AnyDefault(m.0) then ClearDefaults(m.1) else m.1) + m.0
  }

  // ---------------------------------------------------------------------------
  // What the merge does, stated without the loop

  /** User profile i is folded into a system profile: it is the first user
      profile with its name, and that name is among the system names. */
  predicate FoldedAway(users: seq<ProfileData>, names: set<string>, i: int)
    requires 0 <= i < |users|
  {
    users[i].displayName in names && forall m :: 0 <= m < i ==> users[m].displayName != users[i].displayName
  }

  function KeepMask(users: seq<ProfileData>, names: set<string>): (mask: seq<bool>)
    ensures |mask| == |users|
  {
    seq(|users|, i requires 0 <= i < |users| => !FoldedAway(users, names, i))
  }

  lemma KeepMaskTail(users: seq<ProfileData>, names: set<string>)
    requires users != []
    ensures var n := users[0].displayName;
            KeepMask(users, names)[1..] == KeepMask(users[1..], if n in names then names - {n} else names)
  {
    var n := users[0].displayName;
    var names' := if n in names then names - {n} else names;
    var a := KeepMask(users, names)[1..];
    var b := KeepMask(users[1..], names');
    forall i | 0 <= i < |b| ensures a[i] == b[i] {
      if users[i + 1].displayName == n {
        assert !FoldedAway(users, names, i + 1) by {
          if users[i + 1].displayName in names {
            assert users[0].displayName == users[i + 1].displayName;
          }
        }
      } else {
        assert FoldedAway(users, names, i + 1) <==> FoldedAway(users[1..], names', i) by {
          assert (forall m :: 0 <= m < i + 1 ==> users[m].displayName != users[i + 1].displayName)
             <==> (forall m :: 0 <= m < i ==> users[1..][m].displayName != users[1..][i].displayName) by {
            if forall m :: 0 <= m < i ==> users[1..][m].displayName != users[1..][i].displayName {
              forall m | 0 <= m < i + 1 ensures users[m].displayName != users[i + 1].displayName {
                if m > 0 { assert users[m] == users[1..][m - 1]; }
              }
            }
          }
        }
      }
    }
  }

  /** The user profiles the fold keeps are exactly, in order, those that are not
      the first of their name among the system names. So a second user profile
      with the name of a system profile is kept. */
  lemma {:induction false} FoldKeepsUnfolded(users: seq<ProfileData>, sys: seq<ProfileData>, names: set<string>)
    requires names <= Names(sys)
    ensures FoldUsers(users, sys, names).0 == Select(users, KeepMask(users, names))
    decreases |users|
  {
    if users != [] {
      var u := users[0];
      KeepMaskTail(users, names);
      if u.displayName in names {
        var k := FirstNamed(sys, u.displayName);
        NamesOfUpdate(sys, k, Absorb(sys[k], u));
        FoldKeepsUnfolded(users[1..], sys[k := Absorb(sys[k], u)], names - {u.displayName});
      } else {
        FoldKeepsUnfolded(users[1..], sys, names);
      }
    }
  }

  /** System profile k ends up absorbing the first user profile with its name,
      when its name was still unmerged, it is the first system profile of that
      name, and some user profile has that name; otherwise it is left as it was. */
  lemma {:induction false} FoldSystemProfile(users: seq<ProfileData>, sys: seq<ProfileData>, names: set<string>, k: nat)
    requires names <= Names(sys) && k < |sys|
    ensures var n := sys[k].displayName;
            var u := FirstNamed(users, n);
            FoldUsers(users, sys, names).1[k]
              == if n in names && k == FirstNamed(sys, n) && u < |users| then Absorb(sys[k], users[u]) else sys[k]
    decreases |users|
  {
    if users != [] {
      var u := users[0];
      var n := sys[k].displayName;
      if u.displayName in names {
        var k0 := FirstNamed(sys, u.displayName);
        var sys' := sys[k0 := Absorb(sys[k0], u)];
        NamesOfUpdate(sys, k0, Absorb(sys[k0], u));
        FoldSystemProfile(users[1..], sys', names - {u.displayName}, k);
        FirstNamedUpdate(sys, k0, Absorb(sys[k0], u), n);
        if n != u.displayName {
          FirstNamedSkip(users, n);
        }
      } else {
        FoldSystemProfile(users[1..], sys, names, k);
        if n != u.displayName {
          FirstNamedSkip(users, n);
        }
      }
    }
  }

  lemma FirstNamedUpdate(ps: seq<ProfileData>, k: nat, q: ProfileData, name: string)
    requires k < |ps| && q.displayName == ps[k].displayName
    ensures FirstNamed(ps[k := q], name) == FirstNamed(ps, name)
  {
    FirstNamedSameNames(ps[k := q], ps, name);
  }

  /** FirstNamed looks at names only. */
  lemma {:induction false} FirstNamedSameNames(ps: seq<ProfileData>, qs: seq<ProfileData>, name: string)
    requires |ps| == |qs| && forall k :: 0 <= k < |ps| ==> ps[k].displayName == qs[k].displayName
    ensures FirstNamed(ps, name) == FirstNamed(qs, name)
  {
    if ps != [] {
      FirstNamedSameNames(ps[1..], qs[1..], name);
    }
  }

  lemma FirstNamedSkip(ps: seq<ProfileData>, name: string)
    requires ps != [] && ps[0].displayName != name
    ensures FirstNamed(ps, name) == 1 + FirstNamed(ps[1..], name)
  {
  }

  /** The merge marks every system profile locked, and device-locked exactly when
      it named a device before any device was copied from a user profile, or
      unspecified devices are locked. */
  lemma MergeLocksSystemProfiles(users: seq<ProfileData>, sys: seq<ProfileData>, lockUnspecifiedDevices: bool, k: nat)
    requires k < |sys|
    ensures var r := Merge(users, sys, lockUnspecifiedDevices).1;
            |r| == |sys| && r[k].displayName == sys[k].displayName
            && r[k].isLocked && r[k].isDeviceLocked == (sys[k].device.Some? || lockUnspecifiedDevices)
  {
    var locked := LockAll(sys, lockUnspecifiedDevices);
    NamesOfLockAll(sys, lockUnspecifiedDevices);
    FoldSystemProfile(users, locked, Names(sys), k);
  }

  /** What the first system profile of a name takes from the first user profile
      of that name: the device only if it has none, and the default flag. */
  lemma MergeFoldsFirstMatch(users: seq<ProfileData>, sys: seq<ProfileData>, lockUnspecifiedDevices: bool, k: nat)
    requires k < |sys|
    ensures var r := Merge(users, sys, lockUnspecifiedDevices).1;
            var n := sys[k].displayName;
            var u := FirstNamed(users, n);
            |r| == |sys|
            && (k == FirstNamed(sys, n) && u < |users| ==>
                  r[k].device == (if sys[k].device.None? then users[u].device else sys[k].device)
                  && r[k].isDefault == users[u].isDefault)
            && (k != FirstNamed(sys, n) || u == |users| ==>
                  r[k].device == sys[k].device && r[k].isDefault == sys[k].isDefault)
  {
    var locked := LockAll(sys, lockUnspecifiedDevices);
    NamesOfLockAll(sys, lockUnspecifiedDevices);
    FoldSystemProfile(users, locked, Names(sys), k);
    var n := sys[k].displayName;
    assert n in Names(sys);
    FirstNamedSameNames(locked, sys, n);
  }

  /** The four outcomes of GetProfiles. */
  lemma EffectiveProfilesCases(users: seq<ProfileData>, sys: seq<ProfileData>, flags: Flags)
    ensures var r := EffectiveProfiles(users, sys, flags);
            var m := Merge(users, sys, flags.lockUnspecifiedDevices);
            (flags.noUserProfiles && |sys| > 0 ==> r == m.1)
            && (!(flags.noUserProfiles && |sys| > 0) && !flags.userPathExisted ==> r == sys)
            && (!(flags.noUserProfiles && |sys| > 0) && flags.userPathExisted && !flags.lockSystemProfiles ==> r == users)
            && (!(flags.noUserProfiles && |sys| > 0) && flags.userPathExisted && flags.lockSystemProfiles ==>
                  |r| == |sys| + |m.0| && r[|sys|..] == m.0
                  && (forall k :: 0 <= k < |sys| ==> r[k].displayName == sys[k].displayName && r[k].isLocked)
                  && (AnyDefault(m.0) ==> forall k :: 0 <= k < |sys| ==> !r[k].isDefault))
  {
    if !(flags.noUserProfiles && |sys| > 0) && flags.userPathExisted && flags.lockSystemProfiles {
      var r := EffectiveProfiles(users, sys, flags);
      var m := Merge(users, sys, flags.lockUnspecifiedDevices);
      var front := if AnyDefault(m.0) then ClearDefaults(m.1) else m.1;
      assert r == front + m.0;
      forall k | 0 <= k < |sys| ensures r[k].displayName == sys[k].displayName && r[k].isLocked {
        MergeLocksSystemProfiles(users, sys, flags.lockUnspecifiedDevices, k);
        assert r[k] == front[k];
      }
    }
  }

  // ---------------------------------------------------------------------------
  // The merge loop as written

  /** The message of the exception .NET's list enumerator throws when the list
      changed since the enumeration began. */
  const CollectionModified := "Collection was modified; enumeration operation may not execute."

  /** The loop over the user profiles as written: it enumerates the user list
      itself while removing from it, so the step after the first removal throws. */
  function FoldAsWritten(users: seq<ProfileData>, sys: seq<ProfileData>, names: set<string>): Result<(seq<ProfileData>, seq<ProfileData>)>
    requires names <= Names(sys)
  {
    if users == [] then Ok(([], sys))
    else if users[0].displayName in names then Err(CollectionModified)
    else
      match FoldAsWritten(users[1..], sys, names)
      case Ok(rest) => Ok(([users[0]] + rest.0, rest.1))
      case Err(message) => Err(message)
  }

  function MergeAsWritten(users: seq<ProfileData>, sys: seq<ProfileData>, lockUnspecifiedDevices: bool): Result<(seq<ProfileData>, seq<ProfileData>)>
  {
    NamesOfLockAll(sys, lockUnspecifiedDevices);
    FoldAsWritten(users, LockAll(sys, lockUnspecifiedDevices), Names(sys))
  }

  /** The loop as written throws exactly when some user profile has an
      unmerged system name, and otherwise agrees with the fold. */
  lemma {:induction false} FoldAsWrittenSpec(users: seq<ProfileData>, sys: seq<ProfileData>, names: set<string>)
    requires names <= Names(sys)
    ensures var r := FoldAsWritten(users, sys, names);
            && (r.Err? <==> exists i :: 0 <= i < |users| && users[i].displayName in names)
            && (r.Err? ==> r.message == CollectionModified)
            && (r.Ok? ==> r.value == FoldUsers(users, sys, names))
    decreases |users|
  {
    if users != [] && users[0].displayName !in names {
      FoldAsWrittenSpec(users[1..], sys, names);
      if exists i :: 0 <= i < |users| && users[i].displayName in names {
        var i :| 0 <= i < |users| && users[i].displayName in names;
        assert users[1..][i - 1] == users[i];
      }
      if exists i :: 0 <= i < |users[1..]| && users[1..][i].displayName in names {
        var i :| 0 <= i < |users[1..]| && users[1..][i].displayName in names;
        assert users[i + 1] == users[1..][i];
      }
    }
  }

  /** So the merge as written fails whenever a user has a copy of a system
      profile, the very case it exists for. */
  lemma MergeAsWrittenSpec(users: seq<ProfileData>, sys: seq<ProfileData>, lockUnspecifiedDevices: bool)
    ensures var r := MergeAsWritten(users, sys, lockUnspecifiedDevices);
            && (r.Err? <==> exists i :: 0 <= i < |users| && users[i].displayName in Names(sys))
            && (r.Err? ==> r.message == CollectionModified)
            && (r.Ok? ==> r.value == Merge(users, sys, lockUnspecifiedDevices))
  {
    NamesOfLockAll(sys, lockUnspecifiedDevices);
    FoldAsWrittenSpec(users, LockAll(sys, lockUnspecifiedDevices), Names(sys));
  }

  /** One user copy of the one system profile: as written the merge throws,
      while the merge over a snapshot of the user list folds the copy in. */
  lemma MergeAsWrittenThrows()
    ensures var p := ProfileData("Scanner", None, true, false, false);
            && MergeAsWritten([p], [p], false) == Err(CollectionModified)
            && Merge([p], [p], false).0 == []
            && Merge([p], [p], false).1 == [ProfileData("Scanner", None, true, true, false)]
  {
    var p := ProfileData("Scanner", None, true, false, false);
    assert p.displayName in Names([p]);
    NamesOfLockAll([p], false);
    assert LockAll([p], false) == [ProfileData("Scanner", None, true, true, false)];
  }

  /** The index DefaultProfile's getter picks: the only profile when there is
      exactly one, whatever its flag; otherwise the first default one, if any. */
  function DefaultIndex(ps: seq<ProfileData>): (r: Option<nat>)
    ensures |ps| == 1 ==> r == Some(0)
    ensures |ps| != 1 ==> (r.Some? <==> AnyDefault(ps))
    ensures |ps| != 1 && r.Some? ==>
              r.value < |ps| && ps[r.value].isDefault && forall m :: 0 <= m < r.value ==> !ps[m].isDefault
  {
    if |ps| == 1 then Some(0)
    else
      var k := FirstDefault(ps);
      if k < |ps| then Some(k) else None
  }

  function FirstDefault(ps: seq<ProfileData>): (k: nat)
    ensures k <= |ps|
    ensures forall m :: 0 <= m < k ==> !ps[m].isDefault
    ensures k < |ps| ==> ps[k].isDefault
  {
    if ps == [] || ps[0].isDefault then 0 else 1 + FirstDefault(ps[1..])
  }

  // ---------------------------------------------------------------------------
  // Profiles as objects

  class ScanProfile {
    var displayName: string
    var device: Option<ScanDevice>
    var isDefault: bool
    var isLocked: bool
    var isDeviceLocked: bool

    constructor (data: ProfileData)
      ensures Data(this) == data
    {
      displayName, device, isDefault := data.displayName, data.device, data.isDefault;
      isLocked, isDeviceLocked := data.isLocked, data.isDeviceLocked;
    }
  }

  function Data(p: ScanProfile): ProfileData
    reads p
  {
    ProfileData(p.displayName, p.device, p.isDefault, p.isLocked, p.isDeviceLocked)
  }

  function Snapshot(ps: seq<ScanProfile>): (r: seq<ProfileData>)
    reads ps
    ensures |r| == |ps| && forall k :: 0 <= k < |ps| ==> r[k] == Data(ps[k])
  {
    if ps == [] then [] else [Data(ps[0])] + Snapshot(ps[1..])
  }

  /** No object appears twice. */
  predicate Distinct(ps: seq<ScanProfile>)
  {
    forall a, b :: 0 <= a < b < |ps| ==> ps[a] != ps[b]
  }

  /** ps holds, object by object, the field values in data. */
  ghost predicate Mirrors(ps: seq<ScanProfile>, data: seq<ProfileData>)
    reads ps
  {
    |ps| == |data| && forall k :: 0 <= k < |ps| ==> Data(ps[k]) == data[k]
  }

  /** No object is in both lists. */
  predicate Disjoint(ps: seq<ScanProfile>, qs: seq<ScanProfile>)
  {
    forall a, b :: 0 <= a < |ps| && 0 <= b < |qs| ==> ps[a] != qs[b]
  }

  lemma MirrorsSnapshot(ps: seq<ScanProfile>, data: seq<ProfileData>)
    requires Mirrors(ps, data)
    ensures Snapshot(ps) == data
  {
  }

  /** List.Remove: drop the first occurrence of x. */
  function RemoveFirst(ps: seq<ScanProfile>, x: ScanProfile): seq<ScanProfile>
  {
    if ps == [] then [] else if ps[0] == x then ps[1..] else [ps[0]] + RemoveFirst(ps[1..], x)
  }

  lemma {:induction false} RemoveFirstAt(front: seq<ScanProfile>, x: ScanProfile, back: seq<ScanProfile>)
    requires x !in front
    ensures RemoveFirst(front + [x] + back, x) == front + back
  {
    if front != [] {
      assert (front + [x] + back)[1..] == front[1..] + [x] + back;
      RemoveFirstAt(front[1..], x, back);
    } else {
      assert front + [x] + back == [x] + back;
    }
  }

  function FirstNamedProfile(ps: seq<ScanProfile>, name: string): (k: nat)
    reads ps
    ensures k == FirstNamed(Snapshot(ps), name)
  {
    if ps == [] then 0
    else if ps[0].displayName == name then 0
    else
      assert Snapshot(ps)[1..] == Snapshot(ps[1..]);
      1 + FirstNamedProfile(ps[1..], name)
  }

  function FirstDefaultProfile(ps: seq<ScanProfile>): (k: nat)
    reads ps
    ensures k == FirstDefault(Snapshot(ps))
  {
    if ps == [] || ps[0].isDefault then 0
    else
      assert Snapshot(ps)[1..] == Snapshot(ps[1..]);
      1 + FirstDefaultProfile(ps[1..])
  }

  /** MergeUserProfilesIntoSystemProfiles on objects. The system profiles are
      changed in place; the user list is returned without the profiles folded in.

      The source removes from the user list inside the foreach that walks it,
      which .NET's list enumerator rejects on its next step (MergeAsWritten).
      This method walks a snapshot of the original user list and removes from
      the live one, which is what the code evidently intends. */
  method MergeUserProfilesIntoSystemProfiles(users: seq<ScanProfile>, sys: seq<ScanProfile>, lockUnspecifiedDevices: bool,
                                             ghost userData: seq<ProfileData>, ghost sysData: seq<ProfileData>)
    returns (remaining: seq<ScanProfile>)
    requires Distinct(users) && Distinct(sys) && Disjoint(users, sys)
    requires Mirrors(users, userData) && Mirrors(sys, sysData)
    modifies set p | p in sys
    ensures Mirrors(users, userData)
    ensures Mirrors(remaining, Merge(userData, sysData, lockUnspecifiedDevices).0)
    ensures Mirrors(sys, Merge(userData, sysData, lockUnspecifiedDevices).1)
    ensures Distinct(remaining) && Disjoint(remaining, sys) && forall p :: p in remaining ==> p in users
  {
    LockSystemProfiles(sys, lockUnspecifiedDevices, sysData);
    ghost var locked := LockAll(sysData, lockUnspecifiedDevices);
    NamesOfLockAll(sysData, lockUnspecifiedDevices);
    var systemProfileNames := set k | 0 <= k < |sys| :: sys[k].displayName;
    NamesOfMirror(sys, locked);
    remaining := FoldUserProfiles(users, sys, systemProfileNames, userData, locked);
  }

  lemma NamesOfMirror(ps: seq<ScanProfile>, data: seq<ProfileData>)
    requires Mirrors(ps, data)
    ensures (set k | 0 <= k < |ps| :: ps[k].displayName) == Names(data)
  {
    forall n | n in Names(data) ensures n in (set k | 0 <= k < |ps| :: ps[k].displayName) {
      var p :| p in data && p.displayName == n;
      var m :| 0 <= m < |data| && data[m] == p;
      assert ps[m].displayName == n;
    }
  }

  /** The first loop of the merge: lock every system profile. */
  method LockSystemProfiles(sys: seq<ScanProfile>, lockUnspecifiedDevices: bool, ghost sysData: seq<ProfileData>)
    requires Distinct(sys) && Mirrors(sys, sysData)
    modifies set p | p in sys
    ensures Mirrors(sys, LockAll(sysData, lockUnspecifiedDevices))
  {
    var i := 0;
    while i < |sys|
      invariant 0 <= i <= |sys|
      invariant forall k :: 0 <= k < i ==> Data(sys[k]) == LockSystemProfile(sysData[k], lockUnspecifiedDevices)
      invariant forall k :: i <= k < |sys| ==> Data(sys[k]) == sysData[k]
    {
      sys[i].isLocked := true;
      sys[i].isDeviceLocked := (sys[i].device.Some? || lockUnspecifiedDevices);
      i := i + 1;
    }
  }

  /** The second loop of the merge: fold each user profile whose name is
      still unmerged into the first system profile of that name. */
  method FoldUserProfiles(users: seq<ScanProfile>, sys: seq<ScanProfile>, names: set<string>,
                          ghost userData: seq<ProfileData>, ghost sysData: seq<ProfileData>)
    returns (remaining: seq<ScanProfile>)
    requires Distinct(users) && Distinct(sys) && Disjoint(users, sys)
    requires Mirrors(users, userData) && Mirrors(sys, sysData) && names <= Names(sysData)
    modifies set p | p in sys
    ensures Mirrors(users, userData)
    ensures Mirrors(remaining, FoldUsers(userData, sysData, names).0)
    ensures Mirrors(sys, FoldUsers(userData, sysData, names).1)
    ensures Distinct(remaining) && Disjoint(remaining, sys) && forall p :: p in remaining ==> p in users
  {
    ghost var target := FoldUsers(userData, sysData, names);
    ghost var st := FoldState([], [], [], sysData);
    var systemProfileNames := names;
    remaining := users;
    FoldInvStart(users, userData, sysData, names);
    var j: nat := 0;
    while j < |users|
      invariant FoldInv(users, userData, target, j, st, systemProfileNames, remaining)
      invariant Mirrors(users, userData)
      invariant Mirrors(sys, st.current)
    {
      var profile := users[j];
      if profile.displayName in systemProfileNames {
        systemProfileNames, remaining, st := FoldOne(users, sys, j, systemProfileNames, remaining, userData, target, st);
      } else {
        st := FoldKeep(users, userData, target, j, st, systemProfileNames, remaining);
      }
      j := j + 1;
    }
    FoldInvDone(users, userData, target, j, st, systemProfileNames, remaining);
    DisjointWithin(remaining, users, sys);
  }

  /** One folding step: user profile j's name is still unmerged, so it goes
      into the first system profile of that name and leaves the user list. */
  method FoldOne(users: seq<ScanProfile>, sys: seq<ScanProfile>, j: nat, names: set<string>, remaining: seq<ScanProfile>,
                 ghost userData: seq<ProfileData>, ghost target: (seq<ProfileData>, seq<ProfileData>), ghost st: FoldState)
    returns (names2: set<string>, remaining2: seq<ScanProfile>, ghost st2: FoldState)
    requires Distinct(sys) && Disjoint(users, sys)
    requires FoldInv(users, userData, target, j, st, names, remaining) && j < |users|
    requires Mirrors(users, userData) && Mirrors(sys, st.current) && users[j].displayName in names
    modifies set p | p in sys
    ensures FoldInv(users, userData, target, j + 1, st2, names2, remaining2)
    ensures Mirrors(users, userData) && Mirrors(sys, st2.current)
  {
    var profile := users[j];
    MirrorsSnapshot(sys, st.current);
    var k := FirstNamedProfile(sys, profile.displayName);
    FoldInvFolded(users, userData, target, j, st, names, remaining);
    assert sys[k] in sys;
    AbsorbInto(users, sys, j, k, userData, st.current);
    st2 := st.(current := st.current[k := Absorb(st.current[k], userData[j])]);
    remaining2 := RemoveFirst(remaining, profile);
    names2 := names - {profile.displayName};
  }

  lemma DisjointWithin(ps: seq<ScanProfile>, users: seq<ScanProfile>, sys: seq<ScanProfile>)
    requires Disjoint(users, sys) && forall p :: p in ps ==> p in users
    ensures Disjoint(ps, sys)
  {
    forall a, b | 0 <= a < |ps| && 0 <= b < |sys| ensures ps[a] != sys[b] {
      assert ps[a] in ps;
      var u :| 0 <= u < |users| && users[u] == ps[a];
    }
  }

  /** The ghost state of FoldUserProfiles: the user profiles kept so far, their
      data and positions, and the system profiles' data so far. */
  datatype FoldState = FoldState(kept: seq<ScanProfile>, keptData: seq<ProfileData>, keptAt: seq<nat>, current: seq<ProfileData>)

  ghost predicate FoldInv(users: seq<ScanProfile>, userData: seq<ProfileData>, target: (seq<ProfileData>, seq<ProfileData>),
                          j: int, st: FoldState, names: set<string>, remaining: seq<ScanProfile>)
  {
    0 <= j <= |users| == |userData| && Distinct(users)
    && names <= Names(st.current)
    && remaining == st.kept + users[j..]
    && |st.keptAt| == |st.kept| == |st.keptData|
    && (forall m :: 0 <= m < |st.kept| ==>
          st.keptAt[m] < j && st.kept[m] == users[st.keptAt[m]] && st.keptData[m] == userData[st.keptAt[m]])
    && Distinct(st.kept)
    && st.keptData + FoldUsers(userData[j..], st.current, names).0 == target.0
    && FoldUsers(userData[j..], st.current, names).1 == target.1
  }

  lemma FoldInvFolded(users: seq<ScanProfile>, userData: seq<ProfileData>, target: (seq<ProfileData>, seq<ProfileData>),
                      j: int, st: FoldState, names: set<string>, remaining: seq<ScanProfile>)
    requires FoldInv(users, userData, target, j, st, names, remaining) && j < |users|
    requires userData[j].displayName == users[j].displayName && users[j].displayName in names
    ensures var n := userData[j].displayName;
            var k := FirstNamed(st.current, n);
            k < |st.current|
            && FoldInv(users, userData, target, j + 1, st.(current := st.current[k := Absorb(st.current[k], userData[j])]),
                       names - {n}, RemoveFirst(remaining, users[j]))
  {
    var rest := userData[j..];
    assert rest[0] == userData[j] && rest[1..] == userData[j + 1..];
    assert users[j..] == [users[j]] + users[j + 1..];
    FoldUsersStep(rest, st.current, names);
    KeptFromUsers(st.kept, st.keptAt, users, j);
    RemoveFirstAt(st.kept, users[j], users[j + 1..]);
    assert remaining == st.kept + [users[j]] + users[j + 1..];
  }

  lemma FoldInvKept(users: seq<ScanProfile>, userData: seq<ProfileData>, target: (seq<ProfileData>, seq<ProfileData>),
                    j: int, st: FoldState, names: set<string>, remaining: seq<ScanProfile>)
    requires FoldInv(users, userData, target, j, st, names, remaining) && j < |users|
    requires userData[j].displayName == users[j].displayName && users[j].displayName !in names
    ensures FoldInv(users, userData, target, j + 1,
                    st.(kept := st.kept + [users[j]], keptData := st.keptData + [userData[j]], keptAt := st.keptAt + [j]),
                    names, remaining)
  {
    var rest := userData[j..];
    assert rest[0] == userData[j] && rest[1..] == userData[j + 1..];
    assert users[j..] == [users[j]] + users[j + 1..];
    FoldUsersStep(rest, st.current, names);
    KeptFromUsers(st.kept, st.keptAt, users, j);
  }

  lemma FoldInvStart(users: seq<ScanProfile>, userData: seq<ProfileData>, sysData: seq<ProfileData>, names: set<string>)
    requires Distinct(users) && |users| == |userData| && names <= Names(sysData)
    ensures FoldInv(users, userData, FoldUsers(userData, sysData, names), 0, FoldState([], [], [], sysData), names, users)
  {
    assert userData[0..] == userData && users[0..] == users;
  }

  /** The bookkeeping of a user profile that stays in the user list. */
  ghost method FoldKeep(users: seq<ScanProfile>, userData: seq<ProfileData>, target: (seq<ProfileData>, seq<ProfileData>),
                        j: int, st: FoldState, names: set<string>, remaining: seq<ScanProfile>) returns (st2: FoldState)
    requires FoldInv(users, userData, target, j, st, names, remaining) && j < |users|
    requires userData[j].displayName == users[j].displayName && users[j].displayName !in names
    ensures FoldInv(users, userData, target, j + 1, st2, names, remaining) && st2.current == st.current
  {
    FoldInvKept(users, userData, target, j, st, names, remaining);
    st2 := st.(kept := st.kept + [users[j]], keptData := st.keptData + [userData[j]], keptAt := st.keptAt + [j]);
  }

  lemma FoldInvDone(users: seq<ScanProfile>, userData: seq<ProfileData>, target: (seq<ProfileData>, seq<ProfileData>),
                    j: int, st: FoldState, names: set<string>, remaining: seq<ScanProfile>)
    requires FoldInv(users, userData, target, j, st, names, remaining) && j == |users|
    requires Mirrors(users, userData)
    ensures Mirrors(remaining, target.0) && st.current == target.1
    ensures Distinct(remaining) && forall p :: p in remaining ==> p in users
  {
    assert userData[j..] == [];
    KeptFromUsers(st.kept, st.keptAt, users, j);
    KeptMirrors(st.kept, st.keptAt, st.keptData, users, userData);
  }

  /** The kept list of FoldUserProfiles holds earlier user profiles only. */
  lemma KeptFromUsers(kept: seq<ScanProfile>, keptAt: seq<nat>, users: seq<ScanProfile>, j: nat)
    requires Distinct(users) && j <= |users| && |keptAt| == |kept|
    requires forall m :: 0 <= m < |kept| ==> keptAt[m] < j && kept[m] == users[keptAt[m]]
    ensures forall p :: p in kept ==> p in users
    ensures j < |users| ==> users[j] !in kept
  {
  }

  /** One step of FoldUsers. */
  lemma FoldUsersStep(rest: seq<ProfileData>, current: seq<ProfileData>, names: set<string>)
    requires rest != [] && names <= Names(current)
    ensures var u := rest[0];
            var k := FirstNamed(current, u.displayName);
            if u.displayName in names then
              k < |current|
              && names - {u.displayName} <= Names(current[k := Absorb(current[k], u)])
              && FoldUsers(rest, current, names) == FoldUsers(rest[1..], current[k := Absorb(current[k], u)], names - {u.displayName})
            else
              FoldUsers(rest, current, names).0 == [u] + FoldUsers(rest[1..], current, names).0
              && FoldUsers(rest, current, names).1 == FoldUsers(rest[1..], current, names).1
  {
    var u := rest[0];
    if u.displayName in names {
      var k := FirstNamed(current, u.displayName);
      NamesOfUpdate(current, k, Absorb(current[k], u));
    }
  }

  /** The body of the merge for one matching pair: system profile k takes
      what Absorb says from user profile j; nothing else changes. */
  method AbsorbInto(users: seq<ScanProfile>, sys: seq<ScanProfile>, j: nat, k: nat,
                    ghost userData: seq<ProfileData>, ghost current: seq<ProfileData>)
    requires j < |users| && k < |sys| && Distinct(sys) && Disjoint(users, sys)
    requires Mirrors(users, userData) && Mirrors(sys, current)
    modifies sys[k]
    ensures Mirrors(users, userData)
    ensures Mirrors(sys, current[k := Absorb(current[k], userData[j])])
  {
    var systemProfile, profile := sys[k], users[j];
    if systemProfile.device.None? {
      systemProfile.device := profile.device;
    }
    systemProfile.isDefault := profile.isDefault;
  }

  lemma KeptMirrors(kept: seq<ScanProfile>, keptAt: seq<nat>, keptData: seq<ProfileData>,
                    users: seq<ScanProfile>, userData: seq<ProfileData>)
    requires Mirrors(users, userData) && |keptAt| == |kept| == |keptData|
    requires forall m :: 0 <= m < |kept| ==>
               keptAt[m] < |users| && kept[m] == users[keptAt[m]] && keptData[m] == userData[keptAt[m]]
    ensures Mirrors(kept, keptData)
  {
  }

  /** The loops that clear IsDefault on every profile of a list (in GetProfiles and in the DefaultProfile setter). */
  method ClearDefaultFlags(ps: seq<ScanProfile>, ghost data: seq<ProfileData>)
    requires Distinct(ps) && Mirrors(ps, data)
    modifies set p | p in ps
    ensures Mirrors(ps, ClearDefaults(data))
  {
    var i := 0;
    while i < |ps|
      invariant 0 <= i <= |ps|
      invariant forall k :: 0 <= k < i ==> Data(ps[k]) == data[k].(isDefault := false)
      invariant forall k :: i <= k < |ps| ==> Data(ps[k]) == data[k]
    {
      ps[i].isDefault := false;
      i := i + 1;
    }
  }

  /** userProfiles.Any(x => x.IsDefault). */
  predicate AnyDefaultProfile(ps: seq<ScanProfile>)
    reads ps
  {
    exists k :: 0 <= k < |ps| && ps[k].isDefault
  }

  lemma MirrorsConcat(ps: seq<ScanProfile>, qs: seq<ScanProfile>, a: seq<ProfileData>, b: seq<ProfileData>)
    requires Mirrors(ps, a) && Mirrors(qs, b)
    ensures Mirrors(ps + qs, a + b)
  {
  }

  lemma DistinctConcat(ps: seq<ScanProfile>, qs: seq<ScanProfile>)
    requires Distinct(ps) && Distinct(qs) && Disjoint(qs, ps)
    ensures Distinct(ps + qs)
  {
    forall a, b | 0 <= a < b < |ps + qs| ensures (ps + qs)[a] != (ps + qs)[b] {
      if a < |ps| <= b {
        assert (ps + qs)[b] == qs[b - |ps|];
      }
    }
  }

  /** The locked branch of GetProfiles: the merged system profiles, with their
      default flags cleared when a remaining user profile is the default,
      followed by the remaining user profiles. */
  method MergeLocked(users: seq<ScanProfile>, sys: seq<ScanProfile>, lockUnspecifiedDevices: bool,
                     ghost userData: seq<ProfileData>, ghost sysData: seq<ProfileData>)
    returns (r: seq<ScanProfile>)
    requires Distinct(users) && Distinct(sys) && Disjoint(users, sys)
    requires Mirrors(users, userData) && Mirrors(sys, sysData)
    modifies set p | p in sys
    ensures var m := Merge(userData, sysData, lockUnspecifiedDevices);
            Mirrors(r, (if AnyDefault(m.0) then ClearDefaults(m.1) else m.1) + m.0)
    ensures Distinct(r) && forall p :: p in r ==> p in users || p in sys
    ensures forall p :: p in sys ==> p in r
  {
    var kept := MergeUserProfilesIntoSystemProfiles(users, sys, lockUnspecifiedDevices, userData, sysData);
    ghost var m := Merge(userData, sysData, lockUnspecifiedDevices);
    if AnyDefaultProfile(kept) {
      assert AnyDefault(m.0);
      ClearDefaultFlags(sys, m.1);
    } else {
      assert !AnyDefault(m.0);
    }
    MirrorsConcat(sys, kept, if AnyDefault(m.0) then ClearDefaults(m.1) else m.1, m.0);
    DistinctConcat(sys, kept);
    r := sys + kept;
  }

  /** The manager: the two profile files' contents, the flags, and the cached list. */
  class ProfileManager {
    const flags: Flags
    /** The profile lists the user's and the system's files hold; None when a file holds none. */
    const userStored: Option<seq<ScanProfile>>
    const systemStored: Option<seq<ScanProfile>>
    /** The profiles of both files. */
    ghost const Repr: set<ScanProfile>
    /** The cached effective list; None until Load builds it. */
    var profiles: Option<seq<ScanProfile>>

    /** _userScope.Get(c => c.Profiles) ?? the empty list. */
    function UserList(): seq<ScanProfile>
    {
      if userStored.Some? then userStored.value else []
    }

    function SystemList(): seq<ScanProfile>
    {
      if systemStored.Some? then systemStored.value else []
    }

    ghost predicate Valid()
      reads this
    {
      Distinct(UserList()) && Distinct(SystemList()) && Disjoint(UserList(), SystemList())
      && Repr == (set p | p in UserList()) + (set p | p in SystemList())
      && (profiles.Some? ==> Distinct(profiles.value) && forall p :: p in profiles.value ==> p in Repr)
    }

    constructor (flags: Flags, userStored: Option<seq<ScanProfile>>, systemStored: Option<seq<ScanProfile>>)
      requires var u, s := (if userStored.Some? then userStored.value else []), (if systemStored.Some? then systemStored.value else []);
               Distinct(u) && Distinct(s) && Disjoint(u, s)
      ensures this.flags == flags && this.userStored == userStored && this.systemStored == systemStored
      ensures profiles.None? && Valid()
    {
      this.flags, this.userStored, this.systemStored := flags, userStored, systemStored;
      var u, s := (if userStored.Some? then userStored.value else []), (if systemStored.Some? then systemStored.value else []);
      Repr := (set p | p in u) + (set p | p in s);
      profiles := None;
    }

    /** The data of the list Load leaves in profiles: the cached list's as it is,
        or the effective list built from the two files. */
    ghost function LoadedData(): seq<ProfileData>
      requires Valid()
      reads this, Repr
    {
      if profiles.Some? then Snapshot(profiles.value)
      else EffectiveProfiles(Snapshot(UserList()), Snapshot(SystemList()), flags)
    }

    /** Build the list once; later calls change nothing. */
    method Load()
      requires Valid()
      modifies this`profiles, Repr
      ensures Valid() && profiles.Some?
      ensures Mirrors(profiles.value, old(LoadedData()))
      ensures old(profiles).Some? ==> profiles == old(profiles) && unchanged(Repr)
      ensures forall p :: p in Repr && p !in profiles.value ==> unchanged(p)
    {
      if profiles.Some? {
        return;
      }
      var r := GetProfiles();
      profiles := Some(r);
    }

    method GetProfiles() returns (r: seq<ScanProfile>)
      requires Valid()
      modifies Repr
      ensures Mirrors(r, EffectiveProfiles(old(Snapshot(UserList())), old(Snapshot(SystemList())), flags))
      ensures Distinct(r) && forall p :: p in r ==> p in Repr
      ensures forall p :: p in Repr && p !in r ==> unchanged(p)
    {
      var userProfiles := UserList();
      var systemProfiles := SystemList();
      ghost var userData, sysData := Snapshot(userProfiles), Snapshot(systemProfiles);
      if flags.noUserProfiles && |systemProfiles| > 0 {
        var _ := MergeUserProfilesIntoSystemProfiles(userProfiles, systemProfiles, flags.lockUnspecifiedDevices, userData, sysData);
        return systemProfiles;
      }
      if !flags.userPathExisted {
        return systemProfiles;
      }
      if !flags.lockSystemProfiles {
        return userProfiles;
      }
      r := MergeLocked(userProfiles, systemProfiles, flags.lockUnspecifiedDevices, userData, sysData);
    }

    /** The Profiles getter. */
    method Profiles() returns (r: seq<ScanProfile>)
      requires Valid()
      modifies this`profiles, Repr
      ensures Valid() && profiles == Some(r)
      ensures Mirrors(r, old(LoadedData()))
      ensures old(profiles).Some? ==> profiles == old(profiles) && unchanged(Repr)
      ensures forall p :: p in Repr && p !in profiles.value ==> unchanged(p)
    {
      Load();
      r := profiles.value;
    }

    /** The DefaultProfile getter: the only profile when there is exactly one,
        otherwise the first marked default, or null. */
    method GetDefaultProfile() returns (r: ScanProfile?)
      requires Valid()
      modifies this`profiles, Repr
      ensures Valid() && profiles.Some?
      ensures Mirrors(profiles.value, old(LoadedData()))
      ensures old(profiles).Some? ==> profiles == old(profiles) && unchanged(Repr)
      ensures forall p :: p in Repr && p !in profiles.value ==> unchanged(p)
      ensures var d := DefaultIndex(old(LoadedData()));
              r == if d.Some? then profiles.value[d.value] else null
    {
      Load();
      var ps := profiles.value;
      MirrorsSnapshot(ps, old(LoadedData()));
      if |ps| == 1 {
        return ps[0];
      }
      var k := FirstDefaultProfile(ps);
      r := if k < |ps| then ps[k] else null;
    }

    /** The DefaultProfile setter: clear every flag, then mark value. A null
        value makes the source throw after the flags are cleared; that is Fail
        here. Saving the list to the user's file is not modelled. */
    method SetDefaultProfile(value: ScanProfile?) returns (r: Outcome)
      requires Valid()
      modifies this`profiles, Repr, value
      ensures Valid() && profiles.Some?
      ensures old(profiles).Some? ==> profiles == old(profiles)
      ensures |profiles.value| == |old(LoadedData())|
      ensures forall k :: 0 <= k < |profiles.value| ==>
                Data(profiles.value[k]) == old(LoadedData())[k].(isDefault := profiles.value[k] == value)
      ensures value == null <==> r.Fail?
      ensures value != null ==> value.isDefault
      ensures value != null && value !in profiles.value ==> Data(value) == old(Data(value)).(isDefault := true)
      ensures forall p :: p in Repr && p !in profiles.value && p != value ==> unchanged(p)
    {
      Load();
      ghost var loaded := old(LoadedData());
      ClearDefaultFlags(profiles.value, loaded);
      if value == null {
        return Fail("Object reference not set to an instance of an object.");
      }
      value.isDefault := true;
      r := Pass;
    }
  }
}
