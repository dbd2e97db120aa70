# Bluno BLE GATT demo: connection manager and protocol layer

This project models the core of an Android app that talks to DFRobot Bluno
boards over Bluetooth Low Energy.

- `BluetoothLeService` manages one connection to a peripheral:
  - the connection state (0 disconnected, 1 connecting, 2 connected);
  - the remembered device address and the GATT handle;
  - whether the Bluetooth manager and adapter were found;
  - the intents it broadcasts for each GATT callback.
- `DeviceControlActivity` runs the Bluno protocol on top of that service:
  - it binds three role characteristics (model number, serial port,
    command) after service discovery;
  - it enables notification on all three and reads the model number and,
    twice, the serial port (the command characteristic is never read);
  - it runs the baud-rate and USB-debug handshake when the model number
    reads "DF BLUNO";
  - it switches the notify target when a characteristic in the list is
    clicked;
  - it sends serial and command text.

The platform GATT driver is an opaque handle (`Handle`). A ghost log,
`BluetoothLeService.calls`, records `connectGatt` and the reconnect,
disconnect, close, discover-services, read, write and set-notification
requests on the handle. `getRemoteDevice` and the handle's `getServices()`
are not logged: only their answers enter the model, as parameters. Each
driver answer becomes a method parameter:

- whether the handle's `connect()` accepted a reconnection;
- whether `getRemoteDevice` found the device;
- the handle `connectGatt` returned, or none when it returned null;
- the list `getServices()` returned;
- the results of the two system-service lookups.

Broadcast intents go into an append-only log, `broadcasts`. The activity's
effects on its views go into an append-only log, `ui`.

Files:

- `gatt_types.dfy`: entities (characteristic, service, intent, driver call).
- `bits.dfy`: Java's `|` and `&` on non-negative ints.
- `hex.dfy`: the `%02X ` dump of a value, with its inverse.
- `decimal.dfy`: `Integer.toString`, with its inverse.
- `text.dfy`: `toUpperCase` and `startsWith`.
- `ble_service.dfy`: the connection manager, plus its payload and
  state-machine functions.
- `roles.dfy`: role binding as a fold, with a reference definition
  ("last match wins, else keep the old binding").
- `device_control.dfy`: the activity.

Where the code and its evident design disagree, the model follows the code:

- `permissionsToString` returns `""` for every mask. Each `String.concat`
  result is discarded (BluetoothLeService.java:170-210). The ten-character
  string the method evidently means to build is modelled separately as
  `IntendedPermissionsString`. The payload uses the empty string, as the
  code does.
- Role bindings persist across discoveries. A role with no match keeps its
  old binding, so compatibility, once reached, never goes away.
- A disconnect callback does not close the handle. Only `close()` does.
- `connect` with a new address replaces the handle without closing the old
  one.
- `commandSend` appends CRLF to commands that already end in CRLF, so both
  handshake writes end in a doubled CRLF.
- `onChildClick` tests `(props | FLAG) > 0`, which always holds. Both
  branches therefore run for every characteristic.
- After discovery of a compatible device the serial-port characteristic is
  read twice and the command characteristic is never read
  (DeviceControlActivity.java:464-471).
- A `newState` other than connected or disconnected leaves the connection
  state unchanged and broadcasts nothing; it is not treated as a
  disconnection.
- A callback arriving after `close()` still changes the connection state
  and broadcasts, because the callbacks do not check for a handle.
- The handshake runs on every matching model-number broadcast, not once per
  discovery cycle.

## Model

| member | source | states |
|---|---|---|
| BleService.BluetoothLeService.constructor | src/net/craigiebabe/android/bluetoothlegatt/BluetoothLeService.java:45-49 | A fresh service has no manager, adapter, address or handle, is disconnected and has made no call or broadcast |
| BleService.BluetoothLeService.GetConnectionState | src/net/craigiebabe/android/bluetoothlegatt/BluetoothLeService.java:63-65 | The reported state is one of DISCONNECTED, CONNECTING and CONNECTED |
| BleService.BluetoothLeService.Initialize | src/net/craigiebabe/android/bluetoothlegatt/BluetoothLeService.java:239-257 | The manager is looked up only when absent. A failed manager lookup returns false and leaves the adapter as it was. Otherwise the adapter is looked up and the result says whether it was found. Nothing else changes |
| BleService.BluetoothLeService.Connect | src/net/craigiebabe/android/bluetoothlegatt/BluetoothLeService.java:269-300 | No adapter or no address: false, and nothing changes. Same address with a live handle: one reconnect call on that handle and no connectGatt; the state becomes CONNECTING exactly when the handle accepts, which is also the result. Otherwise: a missing device gives false with nothing changed; a found device gives a connectGatt call, whatever it returned replacing the old handle (not closed; null leaves no handle), the new address, CONNECTING and true |
| BleService.BluetoothLeService.Disconnect | src/net/craigiebabe/android/bluetoothlegatt/BluetoothLeService.java:308-314 | One disconnect call on the handle when the adapter and handle are present, none otherwise. Only the call log changes |
| BleService.BluetoothLeService.Close | src/net/craigiebabe/android/bluetoothlegatt/BluetoothLeService.java:320-326 | Afterwards there is no handle. A close call is logged only if a handle was there, so a second close logs nothing. State, address and broadcasts are kept |
| BleService.BluetoothLeService.ReadCharacteristic | src/net/craigiebabe/android/bluetoothlegatt/BluetoothLeService.java:335-341 | One read call on the current handle exactly when the adapter and handle are present. Only the call log changes |
| BleService.BluetoothLeService.WriteCharacteristic | src/net/craigiebabe/android/bluetoothlegatt/BluetoothLeService.java:350-359 | One write call, carrying the value, on the current handle exactly when the adapter and handle are present. Only the call log changes |
| BleService.BluetoothLeService.SetCharacteristicNotification | src/net/craigiebabe/android/bluetoothlegatt/BluetoothLeService.java:367-372 | One set-notification call on the current handle exactly when the adapter and handle are present. Only the call log changes |
| BleService.BluetoothLeService.GetSupportedGattServices | src/net/craigiebabe/android/bluetoothlegatt/BluetoothLeService.java:389-396 | Null exactly when there is no handle; otherwise the handle's service list |
| BleService.BluetoothLeService.Broadcast | src/net/craigiebabe/android/bluetoothlegatt/BluetoothLeService.java:150-153 | Exactly one intent without extras is appended |
| BleService.BluetoothLeService.BroadcastCharacteristic | src/net/craigiebabe/android/bluetoothlegatt/BluetoothLeService.java:155-168 | Exactly one intent is appended. It carries the payload and UUID extras for a non-empty value, and neither for an empty one |
| BleService.BluetoothLeService.OnConnectionStateChange | src/net/craigiebabe/android/bluetoothlegatt/BluetoothLeService.java:71-87 | Only newState matters. CONNECTED sets the state, broadcasts one connected intent and asks the handle to discover services. DISCONNECTED sets the state and broadcasts one disconnected intent. Any other value changes nothing |
| BleService.BluetoothLeService.OnServicesDiscovered | src/net/craigiebabe/android/bluetoothlegatt/BluetoothLeService.java:90-97 | One services-discovered intent on success and none on failure. No other field changes |
| BleService.BluetoothLeService.OnCharacteristicRead | src/net/craigiebabe/android/bluetoothlegatt/BluetoothLeService.java:106-113 | One data-available intent for the value on success and none on failure |
| BleService.BluetoothLeService.OnCharacteristicChanged | src/net/craigiebabe/android/bluetoothlegatt/BluetoothLeService.java:121-124 | Every notification broadcasts exactly one data-available intent |
| BleService.BluetoothLeService.OnCharacteristicWrite | src/net/craigiebabe/android/bluetoothlegatt/BluetoothLeService.java:137-147 | Exactly one write-complete intent, whatever the status |
| BleService.PermissionsToString | src/net/craigiebabe/android/bluetoothlegatt/BluetoothLeService.java:170-210 | The empty string for every mask: each concat result is discarded |
| BleService.IntendedPermissionsShowsOwnFlag | src/net/craigiebabe/android/bluetoothlegatt/BluetoothLeService.java:175-207 | In the intended string, a mask equal to one positive flag shows that flag's letter in its slot |
| BleService.PermissionsAlwaysEmpty | src/net/craigiebabe/android/bluetoothlegatt/BluetoothLeService.java:170-210 | The permission string is empty for every mask, so it never equals the ten-character string the method evidently means to build |
| BleService.IntendedPermissionsLayout | src/net/craigiebabe/android/bluetoothlegatt/BluetoothLeService.java:172-208 | The intended string is `<`, eight slots and `>`. Slot i holds a letter exactly when the mask has flag i |
| BleService.PayloadLayout | src/net/craigiebabe/android/bluetoothlegatt/BluetoothLeService.java:158-164 | A payload for n bytes has length equal to the text length plus 3n + 3. It splits back into the text, a newline, a dump that parses back to the value, and "::" |
| BleService.PayloadPrefixIsTextPrefix | src/net/craigiebabe/android/bluetoothlegatt/BluetoothLeService.java:164 | An upper-cased payload starts with a newline-free prefix exactly when the upper-cased text does |
| BleService.LatestCallbackWins | src/net/craigiebabe/android/bluetoothlegatt/BluetoothLeService.java:71-87 | After a run of state callbacks, the state is the one the latest connected or disconnected callback reported |
| BleService.IndecisiveCallbacksKeepState | src/net/craigiebabe/android/bluetoothlegatt/BluetoothLeService.java:71-87 | Callbacks reporting neither connected nor disconnected leave the state unchanged |
| Hex.FormatHex | src/net/craigiebabe/android/bluetoothlegatt/BluetoothLeService.java:160-162 | The per-byte loop builds the dump: three characters per byte, parsing back to the value |
| Hex.ParseHexDump | src/net/craigiebabe/android/bluetoothlegatt/BluetoothLeService.java:162 | Parsing the `%02X ` dump of a value yields the value |
| Hex.HexDumpLength | src/net/craigiebabe/android/bluetoothlegatt/BluetoothLeService.java:162 | The dump has three characters per byte |
| Decimal.IntToDecimalRoundTrip | src/net/craigiebabe/android/bluetoothlegatt/DeviceControlActivity.java:97 | The decimal rendering of the baud rate reads back to the rate, negative rates included |
| Bits.OrTestAlwaysHolds | src/net/craigiebabe/android/bluetoothlegatt/DeviceControlActivity.java:258-270 | The test "props OR FLAG > 0" holds for every mask when FLAG is positive |
| Roles.IsModelNumber | src/net/craigiebabe/android/bluetoothlegatt/DeviceControlActivity.java:492-496 | A null UUID never matches; otherwise it matches exactly when it equals the model-number constant |
| Roles.IsSerialPort | src/net/craigiebabe/android/bluetoothlegatt/DeviceControlActivity.java:498-502 | A null UUID never matches; otherwise it matches exactly when it equals the serial-port constant |
| Roles.IsCommand | src/net/craigiebabe/android/bluetoothlegatt/DeviceControlActivity.java:504-508 | A null UUID never matches; otherwise it matches exactly when it equals the command constant |
| Roles.RolesAreExclusive | src/net/craigiebabe/android/bluetoothlegatt/DeviceControlActivity.java:492-508 | With distinct role UUIDs, a UUID matches at most one role, and a null UUID matches none |
| Roles.BindAllKeepsLastMatch | src/net/craigiebabe/android/bluetoothlegatt/DeviceControlActivity.java:441-458 | Each role ends bound to the last characteristic carrying its UUID, or keeps its previous binding when none does |
| Roles.LastWithUuidSpec | src/net/craigiebabe/android/bluetoothlegatt/DeviceControlActivity.java:449-457 | The last match exists exactly when some characteristic carries the UUID. It carries it, and no later one does |
| Roles.CompatibleAfterBinding | src/net/craigiebabe/android/bluetoothlegatt/DeviceControlActivity.java:441-463 | After binding, the device is compatible exactly when each role was already bound or has a characteristic in the catalog |
| Roles.CompatibilityIsSticky | src/net/craigiebabe/android/bluetoothlegatt/DeviceControlActivity.java:441-458 | Once compatible, a device stays compatible after any later discovery, even an empty one |
| Roles.FreshCompatibility | src/net/craigiebabe/android/bluetoothlegatt/DeviceControlActivity.java:441-463 | From no bindings, the device is compatible exactly when the catalog holds all three role UUIDs |
| Roles.BindAllAppend | src/net/craigiebabe/android/bluetoothlegatt/DeviceControlActivity.java:430-461 | Binding over services one after another equals binding over their concatenated characteristics |
| Roles.Groups | src/net/craigiebabe/android/bluetoothlegatt/DeviceControlActivity.java:427-459 | The rebuilt catalog has one list per service, holding that service's characteristics in order |
| DeviceControl.BaudrateCommandCarriesRate | src/net/craigiebabe/android/bluetoothlegatt/DeviceControlActivity.java:95-98 | The baud command is "AT+CURRUART=", then a decimal that reads back to the rate, then CRLF |
| DeviceControl.HandshakeValuesEndWithDoubleCrlf | src/net/craigiebabe/android/bluetoothlegatt/DeviceControlActivity.java:117-132 | The two handshake writes are the baud command, then the USB-debug command, each ending in a doubled CRLF |
| DeviceControl.ModelNumberDataTriggersHandshake | src/net/craigiebabe/android/bluetoothlegatt/DeviceControlActivity.java:193-194 | A model-number broadcast starts the handshake exactly when its value is non-empty and its decoded text, upper-cased, starts with "DF BLUNO" |
| DeviceControl.EmptyValueMatchesNoRole | src/net/craigiebabe/android/bluetoothlegatt/DeviceControlActivity.java:191-214 | A broadcast of an empty value carries no UUID, so it matches no role and changes no view |
| DeviceControl.DeviceControlActivity.constructor | src/net/craigiebabe/android/bluetoothlegatt/DeviceControlActivity.java:74-91 | Starts disconnected with sending disabled, no bindings, no notify target, an empty catalog, baud rate 115200 and the command "AT+CURRUART=115200\r\n" |
| DeviceControl.DeviceControlActivity.IsCompatibleDfrobotBleDevice | src/net/craigiebabe/android/bluetoothlegatt/DeviceControlActivity.java:510-512 | True exactly when all three role bindings are present |
| DeviceControl.DeviceControlActivity.IsConnected | src/net/craigiebabe/android/bluetoothlegatt/DeviceControlActivity.java:134-136 | Reports the connected flag |
| DeviceControl.DeviceControlActivity.SerialBegin | src/net/craigiebabe/android/bluetoothlegatt/DeviceControlActivity.java:95-98 | Sets the baud rate and the matching baud command |
| DeviceControl.DeviceControlActivity.SerialSend | src/net/craigiebabe/android/bluetoothlegatt/DeviceControlActivity.java:100-115 | Writes text + CRLF to the serial-port characteristic only when connected and compatible. Otherwise it makes no call |
| DeviceControl.DeviceControlActivity.CommandSend | src/net/craigiebabe/android/bluetoothlegatt/DeviceControlActivity.java:117-132 | Writes text + CRLF to the command characteristic only when connected and compatible. Otherwise it makes no call |
| DeviceControl.DeviceControlActivity.OnSendClick | src/net/craigiebabe/android/bluetoothlegatt/DeviceControlActivity.java:310-324 | With a serial-port binding and non-empty text, the text is written unchanged (no CRLF, no connection check) and sending is disabled. Otherwise nothing happens |
| DeviceControl.DeviceControlActivity.OnChildClick | src/net/craigiebabe/android/bluetoothlegatt/DeviceControlActivity.java:243-278 | For every property mask: any previous notify target is disabled, then the clicked characteristic is read and then notification-enabled. The clicked characteristic becomes the target, and the click is handled |
| DeviceControl.DeviceControlActivity.BindCharacteristics | src/net/craigiebabe/android/bluetoothlegatt/DeviceControlActivity.java:441-458 | The inner loop collects the characteristics in order and binds roles as the fold does |
| DeviceControl.DeviceControlActivity.RebuildCatalog | src/net/craigiebabe/android/bluetoothlegatt/DeviceControlActivity.java:427-461 | The outer loop rebuilds the catalog service by service and binds roles over all characteristics in order |
| DeviceControl.DeviceControlActivity.SubscribeRoles | src/net/craigiebabe/android/bluetoothlegatt/DeviceControlActivity.java:463-471 | The exact driver-call order: notify(model), read(model), notify(command), read(serial), notify(serial), read(serial) |
| DeviceControl.DeviceControlActivity.DisplayGattServices | src/net/craigiebabe/android/bluetoothlegatt/DeviceControlActivity.java:418-474 | A null catalog changes nothing. Otherwise the catalog and bindings are rebuilt. A compatible device then gets the six calls in order, and an incompatible one a toast |
| DeviceControl.DeviceControlActivity.OnDataAvailable | src/net/craigiebabe/android/bluetoothlegatt/DeviceControlActivity.java:186-214 | Shows the data and enables sending. A matching model-number value issues exactly the two handshake writes, when connected and compatible. A non-matching one gets a toast. Command and serial data are shown with their prefixes |
| DeviceControl.DeviceControlActivity.OnReceive | src/net/craigiebabe/android/bluetoothlegatt/DeviceControlActivity.java:164-226 | Connected: sets the flag and disables sending. Disconnected: clears the flag and the UI and disables sending. Discovered, data and write-complete enable sending. Only discovery touches the bindings, and no action touches the notify target or the baud command |
| DeviceControl.HandshakeRepeats | src/net/craigiebabe/android/bluetoothlegatt/DeviceControlActivity.java:186-201 | Two identical matching broadcasts each issue the two handshake writes (baud command, then USB debug), so the log gains those two calls twice: the handshake is not once per cycle |

## Left out

- The relative order of broadcasts, driver calls and view effects is not
  recorded. `broadcasts`, `calls` and `ui` are three separate logs, so the
  model does not say, for example, that onConnectionStateChange broadcasts
  the connected intent before it requests discovery
  (BluetoothLeService.java:76-79), or that the data is shown before the
  handshake writes are issued.
- Android lifecycle and service binding are not modelled: `onCreate` view
  lookups, `onResume`, `onPause`, `onDestroy`, `ServiceConnection`,
  `onBind`, `onUnbind` and `LocalBinder`. The activity holds a service that
  is already bound, so the null `mBluetoothLeService` before binding is not
  modelled. `onUnbind` only calls `close`.
- UI rendering is not modelled: text views, toasts as widgets, the
  expandable-list adapters, the options menu, `updateConnectionState`,
  `invalidateOptionsMenu` and `runOnUiThread`. The model keeps the
  send-enabled flag and an effect log (cleared, data shown, text received,
  toast).
- Threading between the GATT callback thread and the UI thread is not
  modelled. Callbacks are ordinary sequential method calls.
- `new String(bytes)` charset decoding is a function parameter (`decode`).
  `Log` output is dropped.
- `toUpperCase` is modelled for ASCII letters only. Locale-dependent and
  non-ASCII case mappings are not modelled.
- `BlunoGattAttributes` is not part of this model. The three role UUIDs are
  distinct parameters (`RoleUuids`). The display-name `lookup` only feeds
  the list adapters, so it is dropped.
- The Android values of the `PERMISSION_*` masks are parameters of
  `IntendedPermissionsString`. The code's permission string does not
  depend on them.
- `BluetoothGattCharacteristic.setValue` is not modelled as state on the
  characteristic. The written value is recorded in the logged write call.
  `setValue(String)` always succeeds on Android, so the "error setting
  value" branches of `serialSend` and `commandSend` are not modelled.
- `setWriteType` in the send-button handler is not modelled. The write
  type does not affect the calls the model logs.
- BleService.BluetoothLeService.WriteCharacteristic: the driver's boolean
  answer is only logged by the source, so the model does not carry it.
- BleService.BluetoothLeService.OnConnectionStateChange: on CONNECTED with
  no handle, the Java code dereferences null after updating the state and
  broadcasting. The model makes no discovery call there and does not model
  the exception.
- DeviceControl.DeviceControlActivity.OnChildClick: group and child must
  index an existing entry. The list view only offers existing entries, and
  the source would throw otherwise.
- DeviceControl.DeviceControlActivity.OnReceive: the unknown-action branch
  is not modelled. `Action` holds exactly the five actions the receiver's
  intent filter admits.
- The commented-out password and Bluno-debug commands, and the unused
  fields that hold them, are not modelled. They are never sent.
- `onOptionsItemSelected` and `onResume` are not modelled. They only call
  `connect` and `disconnect`, which are modelled on the service.
