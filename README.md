# usb4java configuration interface table, in Dafny

This project models `LibUsbConfiguration`, the usb4java object that stands for one
USB configuration of a device. A configuration keeps two tables:

- `interfaces`: interface number → (alternate-setting number → interface object);
- `activeSettings`: interface number → the interface object currently selected.

The constructor fills both tables from the configuration descriptor. It walks every
alternate setting of every interface and groups the settings by interface number. It
selects a default active setting per number: the first setting seen, replaced by any
later setting whose alternate-setting number is 0. `setUsbInterface` switches the
active setting of one interface number. If the requested interface is already active
(compared by identity), it does nothing. Otherwise it takes the process-wide USB lock
and asks the native layer to select the alternate setting. It records the new entry
only when the native call succeeds. The read-only lookups take a Java `byte`.
`containsUsbInterface`, `getSettings`, `getNumSettings` and `setUsbInterface` mask the
byte (`number & 0xff`). `getUsbInterface` casts it (`(int) number`), which
sign-extends it.

Files:

- `java_bytes.dfy` (module `JavaBytes`): the Java `byte` as the range -128..127, the
  mask `& 0xff` (`AndFF`) and the widening cast (`SignExtend`).
- `interface_table.dfy` (module `InterfaceTable`): descriptors and interface objects as
  values. `BuildInterfaces` and `BuildActive` fold the constructor's loop body over the
  descriptor walk. The lemmas characterise the result directly on the walk: which
  numbers get entries, which settings are kept, and which setting is the default.
- `configuration.dfy` (module `Topology`): the class `Configuration` with the two maps
  as fields. The constructor runs the loop in place and is proved equal to the fold.
  The lookups are functions that read the object. `SetUsbInterface` is a method that
  changes `activeSettings` and records the guarded native call in a ghost log. The
  lemmas relate the lookups to each other and to the descriptor walk.

Modelling choices:

- An interface object is a value `Interface(id, interfaceNumber, alternateSetting)`.
  `id` is the position of its descriptor in the walk. The constructor creates one
  object per descriptor, so equal values are the same Java object, and the identity
  test at `LibUsbConfiguration.java:198` becomes value equality.
- The constructor takes the flattened walk: a sequence of
  `Descriptor(interfaceNumber, alternateSetting)`, in the order the two nested loops
  visit them. It runs one loop over that sequence.
- In Java the settings map is shared and mutated in place. Here it is a value
  that the loop reads, updates and stores back.
- The result of the native `usb_set_altinterface` call is a parameter of
  `SetUsbInterface`. The ghost field `guardLog` records the lock acquisition, the
  native call with its alternate-setting argument, and the lock release.
- Java's `null` results are `None`. The NullPointerException that `getNumSettings`
  throws for an unknown number is also `None`. The `UsbException` of a failed switch
  is `Fail(LibUsbError(code))`.
- The device's string fetch is a function parameter of `GetConfigurationString`. The
  connection check is a boolean parameter.

Behaviour of the code worth knowing:

- When several descriptors of one interface number have alternate setting 0, the
  code makes the LAST of them active. Without a setting 0 it makes the first
  descriptor seen for the number active (`DefaultRule`).
- With duplicate descriptors the active interface can be missing from the number's
  settings map (`DuplicateShadowsActive`). Without duplicates it is always the
  settings entry under its own alternate setting (`ActiveIsASetting`).
- `getUsbInterface` and `getSettings` return `null` for an unknown number, and
  `getNumSettings` throws a NullPointerException.

## Model

| member | source | states |
|---|---|---|
| `JavaBytes.AndFF` | src/main/java/de/ailis/usb4java/topology/LibUsbConfiguration.java:225 | `number & 0xff` maps every byte into 0..255: non-negative bytes stay, negative bytes gain 256 |
| `JavaBytes.SignExtend` | src/main/java/de/ailis/usb4java/topology/LibUsbConfiguration.java:180 | `(int) number` keeps the signed value of the byte, and its low eight bits are the masked key |
| `JavaBytes.ToByte` | src/main/java/de/ailis/usb4java/topology/LibUsbConfiguration.java:204 | a descriptor value held in a Java `byte` keeps its low eight bits: 0..127 stay, 128..255 become negative |
| `JavaBytes.AndFFInjective` | src/main/java/de/ailis/usb4java/topology/LibUsbConfiguration.java:155 | two bytes with the same masked key are the same byte |
| `JavaBytes.AndFFAgreesWithCast` | src/main/java/de/ailis/usb4java/topology/LibUsbConfiguration.java:180 | the mask and the cast give the same key exactly when the byte is non-negative |
| `JavaBytes.AndFFOnto` | src/main/java/de/ailis/usb4java/topology/LibUsbConfiguration.java:225 | every key 0..255 is the masked value of some byte |
| `Topology.Configuration.constructor` | src/main/java/de/ailis/usb4java/topology/LibUsbConfiguration.java:66-105 | the loop leaves both maps equal to the fold of the loop body over the whole walk, establishes the two-map invariant `Valid`, and makes no guarded native call |
| `InterfaceTable.AddSettingStep` | src/main/java/de/ailis/usb4java/topology/LibUsbConfiguration.java:81-102 | one step on `interfaces` (the fold step `AddSetting`) adds the number if new, files the interface under its alternate setting, replacing only that entry, and adds no other entry |
| `InterfaceTable.AddActiveStep` | src/main/java/de/ailis/usb4java/topology/LibUsbConfiguration.java:95-99 | one step on `activeSettings` (the fold step `AddActive`) adds the number if new; the interface becomes active exactly when the number had none or its setting is 0; other numbers keep their entries |
| `InterfaceTable.BuildEntriesFromWalk` | src/main/java/de/ailis/usb4java/topology/LibUsbConfiguration.java:74-104 | every entry of both folds `BuildInterfaces` and `BuildActive` is the interface object created for one descriptor of the walk |
| `InterfaceTable.BuildKeys` | src/main/java/de/ailis/usb4java/topology/LibUsbConfiguration.java:81-98 | after construction the keys of `interfaces` and of `activeSettings` are both exactly the interface numbers seen |
| `InterfaceTable.BuildConsistent` | src/main/java/de/ailis/usb4java/topology/LibUsbConfiguration.java:74-104 | after construction: same keys in both maps, no empty settings map, each interface filed under its own interface and alternate-setting numbers |
| `InterfaceTable.SettingEntry` | src/main/java/de/ailis/usb4java/topology/LibUsbConfiguration.java:81-102 | a settings entry (n, s) exists exactly when a descriptor (n, s) was seen, and it holds the interface of the last such descriptor |
| `InterfaceTable.SettingsKeys` | src/main/java/de/ailis/usb4java/topology/LibUsbConfiguration.java:81-102 | the settings map of a number seen has exactly the distinct alternate settings seen for that number as keys |
| `InterfaceTable.DefaultRule` | src/main/java/de/ailis/usb4java/topology/LibUsbConfiguration.java:91-99 | the active interface of each number seen is the last descriptor with setting 0 if one exists, otherwise the first descriptor for that number |
| `InterfaceTable.DefaultIsUnique` | src/main/java/de/ailis/usb4java/topology/LibUsbConfiguration.java:95-99 | the default-selection rule determines a single descriptor |
| `InterfaceTable.ActiveIsASetting` | src/main/java/de/ailis/usb4java/topology/LibUsbConfiguration.java:95-102 | without duplicate descriptors, each active interface is the settings entry under its own alternate-setting number |
| `InterfaceTable.DuplicateShadowsActive` | src/main/java/de/ailis/usb4java/topology/LibUsbConfiguration.java:95-102 | with descriptor (1, 5) given twice, the first stays active while the settings map keeps only the second |
| `InterfaceTable.InterfaceAt` | src/main/java/de/ailis/usb4java/topology/LibUsbConfiguration.java:88-89 | the interface created for descriptor i carries identity i and that descriptor's interface and alternate-setting numbers |
| `Topology.Configuration.GetUsbInterfaces` | src/main/java/de/ailis/usb4java/topology/LibUsbConfiguration.java:138-142 | the result holds every active interface and nothing else |
| `Topology.OneActivePerNumber` | src/main/java/de/ailis/usb4java/topology/LibUsbConfiguration.java:138-142 | in a valid configuration the result of getUsbInterfaces has one element per interface number, each the active one of its own number |
| `Topology.Configuration.GetSettings` | src/main/java/de/ailis/usb4java/topology/LibUsbConfiguration.java:153-156 | returns the settings map under the masked number, or null when the number is unknown |
| `Topology.Configuration.GetNumSettings` | src/main/java/de/ailis/usb4java/topology/LibUsbConfiguration.java:167-170 | defined exactly when getSettings is non-null, and at least 1 in a valid configuration |
| `Topology.NumSettingsOfWalk` | src/main/java/de/ailis/usb4java/topology/LibUsbConfiguration.java:167-170 | whenever `interfaces` is the one built from the walk (after construction and after any switch), getNumSettings is the count of distinct alternate settings seen for the number, and null for a number never seen |
| `Topology.ContainsAfterConstruction` | src/main/java/de/ailis/usb4java/topology/LibUsbConfiguration.java:223-226 | after construction, containsUsbInterface holds exactly for the interface numbers seen |
| `Topology.ActiveAfterConstruction` | src/main/java/de/ailis/usb4java/topology/LibUsbConfiguration.java:95-99 | after construction, every number seen has an active interface, chosen by the default-selection rule |
| `Topology.Configuration.GetUsbInterface` | src/main/java/de/ailis/usb4java/topology/LibUsbConfiguration.java:178-181 | as written: finds an interface exactly when the sign-extended byte is a key; the result is one of the active interfaces (getUsbInterfaces) and belongs to that number |
| `Topology.Configuration.GetActiveInterface` | src/main/java/de/ailis/usb4java/topology/LibUsbConfiguration.java:178-181 | corrected lookup: finds an interface exactly when containsUsbInterface holds, the result is one of getUsbInterfaces, and it belongs to the masked number |
| `Topology.Configuration.ContainsUsbInterface` | src/main/java/de/ailis/usb4java/topology/LibUsbConfiguration.java:223-226 | holds exactly when the masked byte is a key of `activeSettings` |
| `Topology.LookupsAgreeBelow128` | src/main/java/de/ailis/usb4java/topology/LibUsbConfiguration.java:180 | for bytes 0..127, getUsbInterface is non-null exactly when containsUsbInterface holds, and it equals the masked lookup |
| `Topology.LookupsDisagreeAt128` | src/main/java/de/ailis/usb4java/topology/LibUsbConfiguration.java:180 | with interface number 128, the byte 0x80 is contained, yet getUsbInterface returns null |
| `Topology.GetUsbInterfaceMissesHighBytes` | src/main/java/de/ailis/usb4java/topology/LibUsbConfiguration.java:180 | with interface numbers in 0..255, getUsbInterface returns null for every byte 0x80..0xFF, while containsUsbInterface holds for each such byte whose masked number was seen |
| `Topology.Configuration.GetConfigurationString` | src/main/java/de/ailis/usb4java/topology/LibUsbConfiguration.java:256-263 | disconnected fails; string index 0 gives null; any other index gives the device's string or its error |
| `Topology.NoStringFetchForIndexZero` | src/main/java/de/ailis/usb4java/topology/LibUsbConfiguration.java:261 | with string index 0 the result does not depend on the device's strings, so none is fetched |
| `Topology.Configuration.SetUsbInterface` | src/main/java/de/ailis/usb4java/topology/LibUsbConfiguration.java:195-215 | if the interface is already active: no lock, no native call, no change. Otherwise: the lock is taken and released once around one native call whose argument is the interface's alternate-setting byte, sign-extended. A negative result fails with that code and leaves `activeSettings` unchanged. A non-negative result changes only the masked number's entry, to `iface`. `interfaces` never changes, and a switch to one of the number's own interfaces keeps `Valid` |

## Findings

| source | as written | input that shows it | evidently intended | confidence | as-written member | corrected member |
|---|---|---|---|---|---|---|
| src/main/java/de/ailis/usb4java/topology/LibUsbConfiguration.java:180 | `getUsbInterface` looks up `(int) number`, which sign-extends the byte. `containsUsbInterface`, `getSettings` and `setUsbInterface` all look up `number & 0xff` | a configuration whose only interface has number 128, queried with the byte 0x80 (-128): `containsUsbInterface` is true, `getUsbInterface` returns null | look up `number & 0xff`, like the other lookups | medium: assumes the descriptor reports interface numbers as 0..255 (the second requires of `GetUsbInterfaceMissesHighBytes`); not executed | `Topology.Configuration.GetUsbInterface`, `Topology.LookupsDisagreeAt128`, `Topology.GetUsbInterfaceMissesHighBytes` | `Topology.Configuration.GetActiveInterface` |

## Left out

- `isActive` (line 128): it compares with the device's active configuration number, which comes from a native query in `LibUsbDevice`. That class is not part of this model.
- `getUsbDevice` and `getUsbConfigurationDescriptor`: they return the fields they were given.
- `checkConnected` and `device.getString`: they live in `LibUsbDevice`. They appear only as the `connected` flag and the `getString` parameter of `GetConfigurationString`.
- The descriptor wrappers (`LibUsbConfigurationDescriptor`, `LibUsbInterface`, the JNI descriptor records): only the interface number and alternate-setting number of each descriptor are kept, and the descriptor's string index `iConfiguration`.
- `UsbLock` mutual exclusion and every form of concurrency: the lock appears only as the Acquire/Release events in the ghost log.
- Topology.Configuration.SetUsbInterface: a failure of `device.open()` is not modelled. In that case no `usb_set_altinterface` call is made and the exception is `open()`'s own, not a `LibUsbException` with a result code. Only two things match the negative-result path: the lock is released and the state is unchanged.
- Descriptor field width: the interface and alternate-setting numbers stored in the two maps are unbounded integers, as the descriptor reports them. Their byte width is not modelled, except at the native call: there the alternate-setting byte is sign-extended into the call's `int` parameter (`ToByte`, then `SignExtend`), so settings 128..255 reach the native layer as negative numbers.
- Topology.Configuration.SetUsbInterface: identity is compared by value. An interface object from another configuration with the same id and numbers would compare equal, although it is a different Java object.
- Topology.Configuration.GetUsbInterfaces: it returns a set, not a list. The Java list's order follows HashMap iteration order and is unspecified. A valid configuration has no duplicate values (`OneActivePerNumber`).
- The constructor loops over one flattened sequence of descriptors. The source has two nested loops, over interfaces and then over their alternate settings. The visiting order is the same.
- `UsbServicesImpl` (the service facade): it calls native initialisation, starts the scanner thread, and delegates to a listener list and to version constants. It has no logic of its own here.
