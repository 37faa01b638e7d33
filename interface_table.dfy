/** The interface table that a configuration builds from its descriptor:
    interface number -> (alternate-setting number -> interface), and the
    default active interface per interface number. The functions here fold
    the constructor's loop body over the descriptors in the order the
    constructor visits them; the lemmas characterise the outcome without
    reference to that fold. */
module InterfaceTable {

  /** One interface descriptor as the native layer reports it: its
      bInterfaceNumber and bAlternateSetting. */
  datatype Descriptor = Descriptor(interfaceNumber: int, alternateSetting: int)

  /** One interface object. The constructor creates a fresh object per
      descriptor; `id` is the position of that descriptor in the walk, so two
      interfaces are equal exactly when they are the same object. */
  datatype Interface = Interface(id: nat, interfaceNumber: int, alternateSetting: int)

  type SettingsMap = map<int, Interface>
  type InterfacesMap = map<int, SettingsMap>

  /** The interface object the constructor creates for descriptor `i`. */
  function InterfaceAt(d: seq<Descriptor>, i: nat): (r: Interface)
    requires i < |d|
    ensures r.id == i
    ensures Descriptor(r.interfaceNumber, r.alternateSetting) == d[i]
  {
    Interface(i, d[i].interfaceNumber, d[i].alternateSetting)
  }

  /** One step of the loop on `interfaces`: create the settings map of the
      interface number if it is missing, then put the interface under its
      alternate-setting number, replacing an earlier one. */
  function AddSetting(interfaces: InterfacesMap, iface: Interface): InterfacesMap
  {
    var n := iface.interfaceNumber;
    var settings := if n in interfaces then interfaces[n] else map[];
    interfaces[n := settings[iface.alternateSetting := iface]]
  }

  /** One step of the loop on `activeSettings`: the interface becomes active
      when its number has no active interface yet or its alternate setting is 0. */
  function AddActive(active: SettingsMap, iface: Interface): SettingsMap
  {
    if iface.interfaceNumber !in active || iface.alternateSetting == 0
    then active[iface.interfaceNumber := iface]
    else active
  }

  /** `interfaces` after the constructor has walked all of `d`. */
  function BuildInterfaces(d: seq<Descriptor>): InterfacesMap
    decreases |d|
  {
    if d == [] then map[]
    else AddSetting(BuildInterfaces(d[..|d| - 1]), InterfaceAt(d, |d| - 1))
  }

  /** `activeSettings` after the constructor has walked all of `d`. */
  function BuildActive(d: seq<Descriptor>): SettingsMap
    decreases |d|
  {
    if d == [] then map[]
    else AddActive(BuildActive(d[..|d| - 1]), InterfaceAt(d, |d| - 1))
  }

  // ---------------------------------------------------------------------
  // Reference characterisations, stated directly on the descriptor walk.

  /** The interface numbers that occur in the walk. */
  ghost function Numbers(d: seq<Descriptor>): set<int>
  {
    set i | 0 <= i < |d| :: d[i].interfaceNumber
  }

  /** The distinct alternate-setting numbers seen for interface number `n`. */
  ghost function SettingsSeen(d: seq<Descriptor>, n: int): set<int>
  {
    set i | 0 <= i < |d| && d[i].interfaceNumber == n :: d[i].alternateSetting
  }

  /** Some descriptor for `n` has alternate setting 0. */
  ghost predicate HasSettingZero(d: seq<Descriptor>, n: int)
  {
    exists i :: 0 <= i < |d| && d[i] == Descriptor(n, 0)
  }

  /** Descriptor `i` is the first one for interface number `n`. */
  ghost predicate IsFirstFor(d: seq<Descriptor>, n: int, i: int)
  {
    0 <= i < |d| && d[i].interfaceNumber == n &&
    forall j :: 0 <= j < i ==> d[j].interfaceNumber != n
  }

  /** Descriptor `i` is the last occurrence of `x`. */
  ghost predicate IsLastOf(d: seq<Descriptor>, x: Descriptor, i: int)
  {
    0 <= i < |d| && d[i] == x &&
    forall j :: i < j < |d| ==> d[j] != x
  }

  /** The default-selection rule: the last descriptor for `n` with alternate
      setting 0 if there is one, otherwise the first descriptor for `n`. */
  ghost predicate IsDefaultFor(d: seq<Descriptor>, n: int, i: int)
  {
    if HasSettingZero(d, n) then IsLastOf(d, Descriptor(n, 0), i) else IsFirstFor(d, n, i)
  }

  /** The invariant of a configuration's two maps: the same interface
      numbers, no empty settings map, every interface filed under its own
      interface and alternate-setting numbers. */
  ghost predicate Consistent(interfaces: InterfacesMap, active: SettingsMap)
  {
    && interfaces.Keys == active.Keys
    && (forall n :: n in interfaces ==> interfaces[n] != map[])
    && (forall n :: n in active ==> active[n].interfaceNumber == n)
    && (forall n, s :: n in interfaces && s in interfaces[n] ==>
          interfaces[n][s].interfaceNumber == n && interfaces[n][s].alternateSetting == s)
  }

  /** No (interface number, alternate setting) pair occurs twice. */
  ghost predicate NoDuplicateSettings(d: seq<Descriptor>)
  {
    forall i, j :: 0 <= i < j < |d| ==> d[i] != d[j]
  }

  // ---------------------------------------------------------------------
  // Lemmas

  /** One step on `interfaces` adds the number if it is new, files the
      interface under its alternate setting (replacing an earlier entry there)
      and leaves every other entry as it was. */
  lemma AddSettingStep(interfaces: InterfacesMap, iface: Interface, n: int, s: int)
    ensures var r := AddSetting(interfaces, iface);
      && r.Keys == interfaces.Keys + {iface.interfaceNumber}
      && iface.alternateSetting in r[iface.interfaceNumber]
      && r[iface.interfaceNumber][iface.alternateSetting] == iface
      && (n in interfaces && s in interfaces[n] &&
          (n, s) != (iface.interfaceNumber, iface.alternateSetting) ==>
            s in r[n] && r[n][s] == interfaces[n][s])
      && (n in r && s in r[n] ==>
            (n, s) == (iface.interfaceNumber, iface.alternateSetting) ||
            (n in interfaces && s in interfaces[n]))
  {
  }

  /** One step on `activeSettings` adds the number if it is new; the
      interface becomes the number's active entry exactly when the number had
      none or the alternate setting is 0; other numbers keep their entries. */
  lemma AddActiveStep(active: SettingsMap, iface: Interface, n: int)
    ensures var r := AddActive(active, iface);
      && r.Keys == active.Keys + {iface.interfaceNumber}
      && (iface.interfaceNumber !in active || iface.alternateSetting == 0 ==>
            r[iface.interfaceNumber] == iface)
      && (iface.interfaceNumber in active && iface.alternateSetting != 0 ==>
            r[iface.interfaceNumber] == active[iface.interfaceNumber])
      && (n in active && n != iface.interfaceNumber ==> r[n] == active[n])
  {
  }

  /** Every entry of either map, after any walk, is the interface the
      constructor created for some descriptor of that walk. */
  lemma {:induction false} BuildEntriesFromWalk(d: seq<Descriptor>, n: int, s: int)
    ensures n in BuildActive(d) ==>
              BuildActive(d)[n].id < |d| && BuildActive(d)[n] == InterfaceAt(d, BuildActive(d)[n].id)
    ensures n in BuildInterfaces(d) && s in BuildInterfaces(d)[n] ==>
              BuildInterfaces(d)[n][s].id < |d| &&
              BuildInterfaces(d)[n][s] == InterfaceAt(d, BuildInterfaces(d)[n][s].id)
  {
    if d != [] {
      var p := d[..|d| - 1];
      BuildEntriesFromWalk(p, n, s);
      assert forall j :: 0 <= j < |p| ==> p[j] == d[j];
    }
  }

  /** Appending a descriptor adds its interface number to the numbers seen. */
  lemma NumbersSnoc(d: seq<Descriptor>)
    requires d != []
    ensures Numbers(d) == Numbers(d[..|d| - 1]) + {d[|d| - 1].interfaceNumber}
  {
  }

  /** Every interface number seen gets both a settings map and an active
      interface, and no other number gets either. */
  lemma {:induction false} BuildKeys(d: seq<Descriptor>)
    ensures BuildInterfaces(d).Keys == Numbers(d)
    ensures BuildActive(d).Keys == Numbers(d)
  {
    if d != [] {
      BuildKeys(d[..|d| - 1]);
      NumbersSnoc(d);
    }
  }

  /** The constructor establishes the invariant of the two maps. */
  lemma {:induction false} BuildConsistent(d: seq<Descriptor>)
    ensures Consistent(BuildInterfaces(d), BuildActive(d))
  {
    if d != [] {
      BuildConsistent(d[..|d| - 1]);
      var x := d[|d| - 1];
      assert x.alternateSetting in BuildInterfaces(d)[x.interfaceNumber];
    }
  }

  /** A settings entry exists for (n, s) exactly when a descriptor (n, s)
      was seen, and it holds the interface of the last such descriptor:
      a later duplicate replaces an earlier one. */
  lemma {:induction false} SettingEntry(d: seq<Descriptor>, n: int, s: int)
    ensures (n in BuildInterfaces(d) && s in BuildInterfaces(d)[n]) <==>
            (exists i :: 0 <= i < |d| && d[i] == Descriptor(n, s))
    ensures n in BuildInterfaces(d) && s in BuildInterfaces(d)[n] ==>
            IsLastOf(d, Descriptor(n, s), BuildInterfaces(d)[n][s].id) &&
            BuildInterfaces(d)[n][s] == InterfaceAt(d, BuildInterfaces(d)[n][s].id)
  {
    if d != [] {
      var p := d[..|d| - 1];
      var last := |d| - 1;
      SettingEntry(p, n, s);
      if d[last] != Descriptor(n, s) {
        if exists i :: 0 <= i < |d| && d[i] == Descriptor(n, s) {
          var i :| 0 <= i < |d| && d[i] == Descriptor(n, s);
          assert i < last && p[i] == d[i];
        }
        if n in BuildInterfaces(d) && s in BuildInterfaces(d)[n] {
          assert BuildInterfaces(d)[n][s] == BuildInterfaces(p)[n][s];
          assert forall j :: 0 <= j < |p| ==> p[j] == d[j];
        }
      }
    }
  }

  /** The settings map of a number seen has one key per distinct alternate
      setting seen for it. */
  lemma SettingsKeys(d: seq<Descriptor>, n: int)
    requires n in Numbers(d)
    ensures n in BuildInterfaces(d)
    ensures BuildInterfaces(d)[n].Keys == SettingsSeen(d, n)
  {
    BuildKeys(d);
    forall s ensures s in BuildInterfaces(d)[n] <==> s in SettingsSeen(d, n) {
      SettingEntry(d, n, s);
      if s in SettingsSeen(d, n) {
        var i :| 0 <= i < |d| && d[i].interfaceNumber == n && d[i].alternateSetting == s;
        assert d[i] == Descriptor(n, s);
      }
    }
  }

  /** The default-selection rule: for every number seen, the active
      interface is the one of the last descriptor with alternate setting 0 if
      there is one, otherwise the one of the first descriptor for that number. */
  lemma {:induction false} DefaultRule(d: seq<Descriptor>, n: int)
    requires n in Numbers(d)
    ensures n in BuildActive(d)
    ensures IsDefaultFor(d, n, BuildActive(d)[n].id)
    ensures BuildActive(d)[n] == InterfaceAt(d, BuildActive(d)[n].id)
  {
    var p := d[..|d| - 1];
    var last := |d| - 1;
    var x := d[last];
    BuildKeys(p);
    NumbersSnoc(d);
    assert forall j :: 0 <= j < |p| ==> p[j] == d[j];
    if x.interfaceNumber == n && x.alternateSetting == 0 {
      assert HasSettingZero(d, n);
    } else if x.interfaceNumber == n && n !in Numbers(p) {
      assert forall j :: 0 <= j < last ==> d[j].interfaceNumber != n;
      assert !HasSettingZero(d, n);
    } else {
      DefaultRule(p, n);
      assert BuildActive(d)[n] == BuildActive(p)[n];
      assert HasSettingZero(d, n) == HasSettingZero(p, n) by {
        if HasSettingZero(d, n) {
          var i :| 0 <= i < |d| && d[i] == Descriptor(n, 0);
          assert i < last;
        }
      }
    }
  }

  /** The default rule picks a single descriptor. */
  lemma DefaultIsUnique(d: seq<Descriptor>, n: int, i: int, j: int)
    requires IsDefaultFor(d, n, i) && IsDefaultFor(d, n, j)
    ensures i == j
  {
  }

  /** Without duplicate descriptors, the active interface of every number is
      one of its alternate settings: the one filed under its own setting. */
  lemma ActiveIsASetting(d: seq<Descriptor>, n: int)
    requires NoDuplicateSettings(d)
    requires n in Numbers(d)
    ensures n in BuildActive(d) && n in BuildInterfaces(d)
    ensures BuildActive(d)[n].alternateSetting in BuildInterfaces(d)[n]
    ensures BuildInterfaces(d)[n][BuildActive(d)[n].alternateSetting] == BuildActive(d)[n]
  {
    DefaultRule(d, n);
    var a := BuildActive(d)[n];
    var s := a.alternateSetting;
    assert d[a.id] == Descriptor(n, s);
    SettingEntry(d, n, s);
    var b := BuildInterfaces(d)[n][s];
    assert d[b.id] == Descriptor(n, s);
    assert a.id == b.id;
  }

  /** With a repeated descriptor (1, 5), the first one stays active while the
      settings map keeps only the second, so the active interface is not among
      the interface's alternate settings. */
  lemma DuplicateShadowsActive()
    ensures var d := [Descriptor(1, 5), Descriptor(1, 5)];
            1 in BuildActive(d) && 1 in BuildInterfaces(d) &&
            BuildActive(d)[1] !in BuildInterfaces(d)[1].Values
  {
  }
}
