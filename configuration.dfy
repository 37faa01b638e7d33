/** One USB configuration of a device: its interface table, the active
    alternate setting per interface number, the guarded switch of an
    interface's alternate setting, and the read-only lookups. */
module Topology {
  import opened JavaBytes
  import opened InterfaceTable

  datatype Option<T> = None | Some(value: T)

  /** The exceptions the configuration raises: the device is gone, or the
      native layer returned a negative status code. */
  datatype UsbError = Disconnected | LibUsbError(code: int)

  datatype Outcome = Pass | Fail(error: UsbError)

  datatype Result<T> = Ok(value: T) | Err(error: UsbError)

  /** What happens under the process-wide USB lock: acquiring it, the native
      "set alternate interface" call with the alternate-setting number it is
      given (the descriptor's alternate-setting byte, sign-extended into the
      native call's int parameter), and releasing it. */
  datatype GuardEvent = Acquire | SetAltInterface(alternateSetting: int) | Release

  class Configuration {
    /** interface number -> alternate-setting number -> interface */
    var interfaces: InterfacesMap
    /** interface number -> the active interface */
    var activeSettings: SettingsMap
    /** The descriptor's iConfiguration string index. */
    const iConfiguration: JByte
    /** The guarded native calls this configuration has made, in order. */
    ghost var guardLog: seq<GuardEvent>

    ghost predicate Valid()
      reads this
    {
      Consistent(interfaces, activeSettings)
    }

    /** Walks the interface descriptors in order (every alternate setting of
        every interface, flattened), grouping them by interface number and
        choosing the default active setting of each. */
    constructor (descriptors: seq<Descriptor>, iConfiguration: JByte)
      ensures interfaces == BuildInterfaces(descriptors)
      ensures activeSettings == BuildActive(descriptors)
      ensures this.iConfiguration == iConfiguration
      ensures Valid()
      ensures guardLog == []
    {
      this.iConfiguration := iConfiguration;
      guardLog := [];
      interfaces := map[];
      activeSettings := map[];
      new;
      var i := 0;
      while i < |descriptors|
        invariant 0 <= i <= |descriptors|
        invariant interfaces == BuildInterfaces(descriptors[..i])
        invariant activeSettings == BuildActive(descriptors[..i])
        invariant guardLog == []
      {
        var desc := descriptors[i];
        var ifaceNumber := desc.interfaceNumber;
        var settingNumber := desc.alternateSetting;
        var settings: SettingsMap;
        if ifaceNumber in interfaces {
          settings := interfaces[ifaceNumber];
        } else {
          settings := map[];
          interfaces := interfaces[ifaceNumber := settings];
        }
        var usbInterface := Interface(i, ifaceNumber, settingNumber);
        if ifaceNumber !in activeSettings || settingNumber == 0 {
          activeSettings := activeSettings[ifaceNumber := usbInterface];
        }
        settings := settings[settingNumber := usbInterface];
        interfaces := interfaces[ifaceNumber := settings];
        assert descriptors[..i + 1][..i] == descriptors[..i];
        i := i + 1;
      }
      assert descriptors[..i] == descriptors;
      BuildConsistent(descriptors);
    }

    /** The active interfaces, one per interface number: the values of
        `activeSettings`. */
    function GetUsbInterfaces(): (r: set<Interface>)
      reads this
      ensures forall n :: n in activeSettings ==> activeSettings[n] in r
      ensures forall iface :: iface in r ==>
                exists n :: n in activeSettings && activeSettings[n] == iface
    {
      set n | n in activeSettings :: activeSettings[n]
    }

    /** The alternate settings of an interface number, looked up by the
        masked byte; None stands for Java's null. */
    function GetSettings(number: JByte): (r: Option<SettingsMap>)
      reads this
      ensures r.Some? <==> AndFF(number) in interfaces
      ensures r.Some? ==> r.value == interfaces[AndFF(number)]
    {
      var k := AndFF(number);
      if k in interfaces then Some(interfaces[k]) else None
    }

    /** The number of alternate settings of an interface number; None
        stands for the NullPointerException of an unknown number. */
    function GetNumSettings(number: JByte): (r: Option<nat>)
      reads this
      ensures r.Some? <==> GetSettings(number).Some?
      ensures Valid() && r.Some? ==> r.value >= 1
    {
      var k := AndFF(number);
      if k in interfaces then Some(|interfaces[k]|) else None
    }

    /** The active interface for a number, looked up by the sign-extended
        byte as the source does; None stands for Java's null. */
    function GetUsbInterface(number: JByte): (r: Option<Interface>)
      reads this
      ensures r.Some? <==> SignExtend(number) in activeSettings
      ensures r.Some? ==> r.value in GetUsbInterfaces()
      ensures Valid() && r.Some? ==> r.value.interfaceNumber == SignExtend(number)
    {
      var k := SignExtend(number);
      if k in activeSettings then Some(activeSettings[k]) else None
    }

    /** The active interface for a number, looked up by the masked byte like
        every other lookup of the configuration. */
    function GetActiveInterface(number: JByte): (r: Option<Interface>)
      reads this
      ensures r.Some? <==> ContainsUsbInterface(number)
      ensures r.Some? ==> r.value in GetUsbInterfaces()
      ensures Valid() && r.Some? ==> r.value.interfaceNumber == AndFF(number)
    {
      var k := AndFF(number);
      if k in activeSettings then Some(activeSettings[k]) else None
    }

    /** Whether the configuration has an interface with that number. */
    function ContainsUsbInterface(number: JByte): (r: bool)
      reads this
      ensures r <==> AndFF(number) in activeSettings
    {
      AndFF(number) in activeSettings
    }

    /** The configuration's string: the device must be connected, and index 0
        means "no string" without asking the device. `getString` stands for
        the device's string fetch and decoding. */
    function GetConfigurationString(connected: bool, getString: JByte -> Result<string>)
      : (r: Result<Option<string>>)
      ensures !connected ==> r == Err(Disconnected)
      ensures connected && iConfiguration == 0 ==> r == Ok(None)
      ensures connected && iConfiguration != 0 ==>
                match getString(iConfiguration)
                case Ok(s) => r == Ok(Some(s))
                case Err(e) => r == Err(e)
    {
      if !connected then Err(Disconnected)
      else if iConfiguration == 0 then Ok(None)
      else match getString(iConfiguration)
        case Ok(s) => Ok(Some(s))
        case Err(e) => Err(e)
    }

    /** Makes `iface` the active interface of `number`. Nothing happens when
        it already is (compared by identity). Otherwise, under the USB lock,
        the native layer is asked to select the interface's alternate
        setting; `nativeResult` is what it returns. A negative result raises
        an error and changes nothing; otherwise only the entry for the masked
        number changes. */
    method SetUsbInterface(number: JByte, iface: Interface, nativeResult: int) returns (r: Outcome)
      modifies this`activeSettings, this`guardLog
      ensures interfaces == old(interfaces)
      ensures var k := AndFF(number);
        if k in old(activeSettings) && old(activeSettings)[k] == iface then
          r == Pass && activeSettings == old(activeSettings) && guardLog == old(guardLog)
        else
          && guardLog == old(guardLog) + [Acquire, SetAltInterface(SignExtend(ToByte(iface.alternateSetting))), Release]
          && (nativeResult < 0 ==> r == Fail(LibUsbError(nativeResult)) && activeSettings == old(activeSettings))
          && (nativeResult >= 0 ==> r == Pass && activeSettings == old(activeSettings)[k := iface])
      ensures old(Valid()) && AndFF(number) in interfaces && iface.interfaceNumber == AndFF(number) ==> Valid()
    {
      var k := AndFF(number);
      if k in activeSettings && activeSettings[k] == iface {
        return Pass;
      }
      guardLog := guardLog + [Acquire];
      guardLog := guardLog + [SetAltInterface(SignExtend(ToByte(iface.alternateSetting)))];
      if nativeResult < 0 {
        r := Fail(LibUsbError(nativeResult));
      } else {
        activeSettings := activeSettings[k := iface];
        r := Pass;
      }
      guardLog := guardLog + [Release];
    }
  }

  // -----------------------------------------------------------------------
  // Lemmas about the lookups

  /** A map that files each interface under its own number has as many
      distinct values as keys. */
  lemma {:induction false} ValuesOneToOne(m: SettingsMap)
    requires forall n :: n in m ==> m[n].interfaceNumber == n
    ensures |(set n | n in m :: m[n])| == |m.Keys|
    decreases |m.Keys|
  {
    if |m.Keys| > 0 {
      if forall n :: n !in m.Keys { assert false; }
      var k :| k in m.Keys;
      var rest := m - {k};
      ValuesOneToOne(rest);
      var values := set n | n in m :: m[n];
      var restValues := set n | n in rest :: rest[n];
      assert m.Keys == rest.Keys + {k};
      assert m[k] !in restValues;
      assert values == restValues + {m[k]};
    }
  }

  /** getUsbInterfaces returns exactly one interface per interface number,
      and each is the active one of its number. */
  lemma OneActivePerNumber(c: Configuration)
    requires c.Valid()
    ensures |c.GetUsbInterfaces()| == |c.activeSettings.Keys|
    ensures forall iface :: iface in c.GetUsbInterfaces() ==>
              iface.interfaceNumber in c.activeSettings &&
              c.activeSettings[iface.interfaceNumber] == iface
  {
    ValuesOneToOne(c.activeSettings);
  }

  /** After construction, and after any switch, since a switch leaves
      `interfaces` alone: getNumSettings counts the distinct alternate
      settings seen for the number, and is null for a number never seen. */
  lemma NumSettingsOfWalk(c: Configuration, d: seq<Descriptor>, b: JByte)
    requires c.interfaces == BuildInterfaces(d)
    ensures c.GetNumSettings(b) ==
              if AndFF(b) in Numbers(d) then Some(|SettingsSeen(d, AndFF(b))|) else None
  {
    BuildKeys(d);
    if AndFF(b) in Numbers(d) {
      SettingsKeys(d, AndFF(b));
    }
  }

  /** After construction, containsUsbInterface holds exactly for the
      interface numbers seen. */
  lemma ContainsAfterConstruction(c: Configuration, d: seq<Descriptor>, b: JByte)
    requires c.activeSettings == BuildActive(d)
    ensures c.ContainsUsbInterface(b) <==> AndFF(b) in Numbers(d)
  {
    BuildKeys(d);
  }

  /** After construction, the active interface of every number seen obeys
      the default-selection rule. */
  lemma ActiveAfterConstruction(c: Configuration, d: seq<Descriptor>, b: JByte)
    requires c.activeSettings == BuildActive(d)
    requires AndFF(b) in Numbers(d)
    ensures c.GetActiveInterface(b).Some?
    ensures IsDefaultFor(d, AndFF(b), c.GetActiveInterface(b).value.id)
  {
    DefaultRule(d, AndFF(b));
  }

  /** On non-negative bytes getUsbInterface and containsUsbInterface agree. */
  lemma LookupsAgreeBelow128(c: Configuration, b: JByte)
    requires b >= 0
    ensures c.GetUsbInterface(b).Some? <==> c.ContainsUsbInterface(b)
    ensures c.GetUsbInterface(b) == c.GetActiveInterface(b)
  {
  }

  /** A configuration whose only interface has number 128: the byte -128
      (0x80) is reported as contained, yet getUsbInterface finds nothing. */
  lemma LookupsDisagreeAt128(c: Configuration)
    requires c.activeSettings == BuildActive([Descriptor(128, 0)])
    ensures c.ContainsUsbInterface(-128)
    ensures c.GetUsbInterface(-128) == None
    ensures c.GetActiveInterface(-128) == Some(Interface(0, 128, 0))
  {
  }

  /** With interface numbers in 0..255, as a descriptor byte read unsigned
      gives them, getUsbInterface returns null for every byte 0x80..0xFF,
      while containsUsbInterface holds for every such byte whose masked
      number was seen. */
  lemma GetUsbInterfaceMissesHighBytes(c: Configuration, d: seq<Descriptor>, b: JByte)
    requires c.activeSettings == BuildActive(d)
    requires forall i :: 0 <= i < |d| ==> 0 <= d[i].interfaceNumber < 256
    requires b < 0
    ensures c.GetUsbInterface(b) == None
    ensures c.ContainsUsbInterface(b) <==> AndFF(b) in Numbers(d)
  {
    BuildKeys(d);
  }

  /** The configuration string does not depend on the device's strings when
      the string index is 0. */
  lemma NoStringFetchForIndexZero(c: Configuration, f: JByte -> Result<string>, g: JByte -> Result<string>)
    requires c.iConfiguration == 0
    ensures c.GetConfigurationString(true, f) == c.GetConfigurationString(true, g) == Ok(None)
  {
  }

  /** The scenario of one interface with alternate settings 0 and 1: the
      default is setting 0; a successful switch to setting 1 is seen by the
      lookup; repeating it is a no-op; a failed switch back leaves setting 1. */
  method SwitchScenario()
  {
    var c := new Configuration([Descriptor(0, 0), Descriptor(0, 1)], 0);
    var d := [Descriptor(0, 0), Descriptor(0, 1)];
    assert d[..1] == [Descriptor(0, 0)] && [Descriptor(0, 0)][..0] == [];
    var alt0 := Interface(0, 0, 0);
    var alt1 := Interface(1, 0, 1);
    assert c.GetActiveInterface(0) == Some(alt0);
    assert c.interfaces[0] == map[0 := alt0, 1 := alt1];

    var r := c.SetUsbInterface(0, alt1, 0);
    assert r == Pass && c.GetActiveInterface(0) == Some(alt1);
    assert c.guardLog == [Acquire, SetAltInterface(1), Release];

    r := c.SetUsbInterface(0, alt1, -1);
    assert r == Pass && c.guardLog == [Acquire, SetAltInterface(1), Release];

    r := c.SetUsbInterface(0, alt0, -99);
    assert r == Fail(LibUsbError(-99));
    assert c.GetActiveInterface(0) == Some(alt1);
    assert c.Valid();
  }
}
