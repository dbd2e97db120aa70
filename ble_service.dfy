/** The GATT connection manager (`BluetoothLeService`): one peripheral
    connection, the driver calls it issues on that connection's handle, and
    the intents it broadcasts for each driver callback. */
module BleService {
  import opened GattTypes
  import opened Bits
  import opened Hex
  import opened Text

  // Connection states reported by getConnectionState().
  const STATE_DISCONNECTED := 0
  const STATE_CONNECTING := 1
  const STATE_CONNECTED := 2

  // android.bluetooth.BluetoothProfile.STATE_DISCONNECTED and STATE_CONNECTED,
  // the values the driver passes as `newState`.
  const PROFILE_STATE_DISCONNECTED := 0
  const PROFILE_STATE_CONNECTED := 2

  // android.bluetooth.BluetoothGatt.GATT_SUCCESS.
  const GATT_SUCCESS := 0

  /** permissionsToString as the code behaves. Each step of the method calls
      `permString.concat(...)`, but Java strings are immutable and concat
      returns a new string that the method never assigns, so the method
      returns the empty string it started from, whatever the mask. */
  function PermissionsToString(perm: nat): (s: string)
    ensures |s| == 0
  {
    ""
  }

  /** The characters of the eight permission slots, in slot order: plain,
      encrypted and encrypted-MITM read; plain, encrypted and encrypted-MITM
      write; signed and signed-MITM write. */
  const PERMISSION_LETTERS := "remWEMSX"

  /** The string permissionsToString evidently means to build: `<`, one
      character per permission flag (its letter when the mask has the flag,
      a space otherwise), `>`. `flags` are the eight PERMISSION_* masks in
      slot order. */
  function IntendedPermissionsString(perm: nat, flags: seq<nat>): string
    requires |flags| == 8
  {
    "<" + seq(8, i requires 0 <= i < 8 => if BitAnd(perm, flags[i]) > 0 then PERMISSION_LETTERS[i] else ' ') + ">"
  }

  /** The intended string has ten characters and slot i shows a letter
      exactly when the mask has flag i. */
  lemma IntendedPermissionsLayout(perm: nat, flags: seq<nat>)
    requires |flags| == 8
    ensures |IntendedPermissionsString(perm, flags)| == 10
    ensures IntendedPermissionsString(perm, flags)[0] == '<'
    ensures IntendedPermissionsString(perm, flags)[9] == '>'
    ensures forall i :: 0 <= i < 8 ==>
      (IntendedPermissionsString(perm, flags)[i + 1] != ' ' <==> BitAnd(perm, flags[i]) > 0)
  {
  }

  /** A mask holding exactly one slot's flag shows that slot's letter: the
      AND test does see a flag that is set. */
  lemma IntendedPermissionsShowsOwnFlag(flags: seq<nat>, i: nat)
    requires |flags| == 8 && i < 8 && flags[i] > 0
    ensures IntendedPermissionsString(flags[i], flags)[i + 1] == PERMISSION_LETTERS[i]
  {
    BitAndIdempotent(flags[i]);
  }

  /** The string the code returns never carries the permission information:
      it differs from the intended one for every mask. */
  lemma PermissionsAlwaysEmpty(perm: nat, flags: seq<nat>)
    requires |flags| == 8
    ensures PermissionsToString(perm) == []
    ensures PermissionsToString(perm) != IntendedPermissionsString(perm, flags)
  {
    IntendedPermissionsLayout(perm, flags);
  }

  /** EXTRA_DATA of a characteristic broadcast: the decoded text, a newline,
      the `%02X ` dump of the value, "::" and the permission string. */
  function Payload(text: string, value: seq<Byte>, perm: nat): string
  {
    text + "\n" + HexDump(value) + "::" + PermissionsToString(perm)
  }

  /** The payload can be taken apart again: the text, the newline, the dump
      (which reads back to the value) and the trailing "::". */
  lemma PayloadLayout(text: string, value: seq<Byte>, perm: nat)
    ensures var p := Payload(text, value, perm);
      var n := |text|;
      && |p| == n + 3 * |value| + 3
      && p[..n] == text
      && p[n] == '\n'
      && ParseHex(p[n + 1..n + 1 + 3 * |value|]) == Some(value)
      && p[n + 1 + 3 * |value|..] == "::"
  {
    var p := Payload(text, value, perm);
    var n := |text|;
    HexDumpLength(value);
    ParseHexDump(value);
    assert p == text + ['\n'] + HexDump(value) + "::";
    assert p[n + 1..n + 1 + 3 * |value|] == HexDump(value);
  }

  /** The payload starts with a newline-free prefix (ignoring case) exactly
      when the decoded text does: nothing after the text can complete it. */
  lemma PayloadPrefixIsTextPrefix(text: string, value: seq<Byte>, perm: nat, prefix: string)
    requires forall i :: 0 <= i < |prefix| ==> prefix[i] != '\n'
    ensures StartsWith(ToUpper(Payload(text, value, perm)), prefix)
        <==> StartsWith(ToUpper(text), prefix)
  {
    var rest := HexDump(value) + "::" + PermissionsToString(perm);
    assert Payload(text, value, perm) == text + (['\n'] + rest);
    ToUpperAppend(text, ['\n'] + rest);
    ToUpperAppend(['\n'], rest);
    assert ToUpper(['\n']) == ['\n'];
    var u := ToUpper(text) + ['\n'] + ToUpper(rest);
    assert ToUpper(Payload(text, value, perm)) == u;
    if |prefix| <= |text| {
      StartsWithHead(ToUpper(text), ['\n'] + ToUpper(rest), prefix);
    } else {
      SeparatorBlocksPrefix(ToUpper(text), '\n', ToUpper(rest), prefix);
    }
  }

  /** The intent of the two-argument broadcastUpdate: both extras for a
      non-empty value, neither for an empty one. `text` is the value decoded
      as a string. */
  function CharacteristicIntent(action: Action, c: Characteristic, value: seq<Byte>, text: string): Intent
  {
    if |value| > 0 then Intent(action, Some(Extras(Payload(text, value, c.permissions), c.uuid)))
    else Intent(action, None)
  }

  /** The connection state after one onConnectionStateChange callback: only
      `newState` matters, and a value other than connected or disconnected
      leaves the state as it was. */
  function NextState(state: int, newState: int): int
  {
    if newState == PROFILE_STATE_CONNECTED then STATE_CONNECTED
    else if newState == PROFILE_STATE_DISCONNECTED then STATE_DISCONNECTED
    else state
  }

  /** The intents one onConnectionStateChange callback broadcasts. */
  function StateEvents(newState: int): seq<Intent>
  {
    if newState == PROFILE_STATE_CONNECTED then [Intent(GattConnected, None)]
    else if newState == PROFILE_STATE_DISCONNECTED then [Intent(GattDisconnected, None)]
    else []
  }

  /** The connection state after a run of onConnectionStateChange callbacks. */
  function StateAfter(state: int, newStates: seq<int>): int
  {
    if newStates == [] then state
    else NextState(StateAfter(state, newStates[..|newStates| - 1]), newStates[|newStates| - 1])
  }

  predicate Decisive(newState: int)
  {
    newState == PROFILE_STATE_CONNECTED || newState == PROFILE_STATE_DISCONNECTED
  }

  /** Last write wins: after a run of callbacks the state is the one the
      latest connected/disconnected callback reported. */
  lemma {:induction false} LatestCallbackWins(state: int, newStates: seq<int>, k: nat)
    requires k < |newStates| && Decisive(newStates[k])
    requires forall j :: k < j < |newStates| ==> !Decisive(newStates[j])
    ensures StateAfter(state, newStates) ==
      if newStates[k] == PROFILE_STATE_CONNECTED then STATE_CONNECTED else STATE_DISCONNECTED
  {
    if k < |newStates| - 1 {
      var front := newStates[..|newStates| - 1];
      LatestCallbackWins(state, front, k);
    }
  }

  /** A run of callbacks none of which reports connected or disconnected
      leaves the state unchanged. */
  lemma {:induction false} IndecisiveCallbacksKeepState(state: int, newStates: seq<int>)
    requires forall j :: 0 <= j < |newStates| ==> !Decisive(newStates[j])
    ensures StateAfter(state, newStates) == state
  {
    if newStates != [] {
      IndecisiveCallbacksKeepState(state, newStates[..|newStates| - 1]);
    }
  }

  /** The calls that issuing `ops` on handle `h` makes, in order. */
  function OnHandleAll(h: Handle, ops: seq<HandleOp>): (r: seq<DriverCall>)
    ensures |r| == |ops|
    ensures forall i :: 0 <= i < |ops| ==> r[i] == OnHandle(h, ops[i])
  {
    seq(|ops|, i requires 0 <= i < |ops| => OnHandle(h, ops[i]))
  }

  lemma OnHandleAllAppend(h: Handle, a: seq<HandleOp>, b: seq<HandleOp>)
    ensures OnHandleAll(h, a + b) == OnHandleAll(h, a) + OnHandleAll(h, b)
  {
  }

  class BluetoothLeService {
    var managerPresent: bool         // mBluetoothManager != null
    var adapterPresent: bool         // mBluetoothAdapter != null
    var deviceAddress: Option<string>
    var gatt: Option<Handle>         // mBluetoothGatt
    var connectionState: int
    /** Every intent sent with sendBroadcast, oldest first. */
    var broadcasts: seq<Intent>
    /** Every call made into the platform driver, oldest first. */
    ghost var calls: seq<DriverCall>
    /** `new String(bytes)`: the platform's charset decoding. */
    const decode: seq<Byte> -> string

    ghost predicate Valid()
      reads this
    {
      && connectionState in {STATE_DISCONNECTED, STATE_CONNECTING, STATE_CONNECTED}
      && (gatt.Some? ==> deviceAddress.Some?)
    }

    /** The guard of disconnect, read, write and setNotification. */
    predicate Ready()
      reads this
    {
      adapterPresent && gatt.Some?
    }

    /** The driver calls that forwarding `ops` to the handle makes: all of
        them on the current handle, or none when a guard fails. */
    ghost function Issued(ops: seq<HandleOp>): seq<DriverCall>
      reads this
    {
      if Ready() then OnHandleAll(gatt.value, ops) else []
    }

    /** Everything but the driver-call log is as it was. */
    twostate predicate OnlyCallsChanged()
      reads this
    {
      && managerPresent == old(managerPresent) && adapterPresent == old(adapterPresent)
      && deviceAddress == old(deviceAddress) && gatt == old(gatt)
      && connectionState == old(connectionState) && broadcasts == old(broadcasts)
    }

    constructor (decode: seq<Byte> -> string)
      ensures Valid() && this.decode == decode
      ensures !managerPresent && !adapterPresent
      ensures deviceAddress == None && gatt == None
      ensures connectionState == STATE_DISCONNECTED
      ensures broadcasts == [] && calls == []
    {
      this.decode := decode;
      managerPresent, adapterPresent := false, false;
      deviceAddress, gatt := None, None;
      connectionState := STATE_DISCONNECTED;
      broadcasts, calls := [], [];
    }

    /** getConnectionState(). */
    function GetConnectionState(): (s: int)
      reads this
      requires Valid()
      ensures s == STATE_DISCONNECTED || s == STATE_CONNECTING || s == STATE_CONNECTED
    {
      connectionState
    }

    /** initialize(): looks up the manager once (`managerFound` is the
        result of getSystemService) and then the adapter (`adapterFound`). */
    method Initialize(managerFound: bool, adapterFound: bool) returns (ok: bool)
      requires Valid()
      modifies this
      ensures Valid()
      ensures managerPresent == (old(managerPresent) || managerFound)
      ensures adapterPresent == if managerPresent then adapterFound else old(adapterPresent)
      ensures ok == (managerPresent && adapterFound)
      ensures deviceAddress == old(deviceAddress) && gatt == old(gatt)
      ensures connectionState == old(connectionState)
      ensures broadcasts == old(broadcasts) && calls == old(calls)
    {
      if !managerPresent {
        managerPresent := managerFound;
        if !managerFound {
          return false;
        }
      }
      adapterPresent := adapterFound;
      ok := adapterFound;
    }

    /** Whether connect(address) takes the reconnect path. */
    predicate Reuses(address: string)
      reads this
    {
      deviceAddress == Some(address) && gatt.Some?
    }

    /** connect(address). `reconnectAccepted` is what the existing handle's
        connect() answers, `deviceFound` whether getRemoteDevice returned a
        device and `newHandle` what connectGatt returns (None for null: the
        address and state are still recorded, but with no handle the next
        connect to the same address opens a fresh connection again). */
    method Connect(address: Option<string>, reconnectAccepted: bool, deviceFound: bool, newHandle: Option<Handle>)
      returns (ok: bool)
      requires Valid()
      modifies this
      ensures Valid()
      ensures managerPresent == old(managerPresent) && adapterPresent == old(adapterPresent)
      ensures broadcasts == old(broadcasts)
      // No adapter or no address: refused, nothing changes.
      ensures !old(adapterPresent) || address.None? ==>
        && !ok && calls == old(calls)
        && gatt == old(gatt) && deviceAddress == old(deviceAddress)
        && connectionState == old(connectionState)
      // Same address with a live handle: the handle is reused, no connectGatt.
      ensures old(adapterPresent) && address.Some? && old(Reuses(address.value)) ==>
        && calls == old(calls) + [OnHandle(old(gatt).value, Reconnect)]
        && gatt == old(gatt) && deviceAddress == old(deviceAddress)
        && ok == reconnectAccepted
        && connectionState == (if reconnectAccepted then STATE_CONNECTING else old(connectionState))
      // Otherwise a fresh connection replaces the handle (the old one is not closed).
      ensures old(adapterPresent) && address.Some? && !old(Reuses(address.value)) ==>
        && ok == deviceFound
        && (deviceFound ==>
              && calls == old(calls) + [ConnectGatt(address.value, newHandle)]
              && gatt == newHandle && deviceAddress == address
              && connectionState == STATE_CONNECTING)
        && (!deviceFound ==>
              && calls == old(calls)
              && gatt == old(gatt) && deviceAddress == old(deviceAddress)
              && connectionState == old(connectionState))
    {
      if !adapterPresent || address.None? {
        return false;
      }
      if deviceAddress.Some? && address.value == deviceAddress.value && gatt.Some? {
        calls := calls + [OnHandle(gatt.value, Reconnect)];
        if reconnectAccepted {
          connectionState := STATE_CONNECTING;
          return true;
        } else {
          return false;
        }
      }
      if !deviceFound {
        return false;
      }
      gatt := newHandle;
      calls := calls + [ConnectGatt(address.value, newHandle)];
      deviceAddress := address;
      connectionState := STATE_CONNECTING;
      return true;
    }

    /** disconnect(): asks the handle to disconnect; the state changes only
        when the driver reports it. */
    method Disconnect()
      requires Valid()
      modifies this
      ensures Valid()
      ensures calls == old(calls) + old(Issued([HandleOp.Disconnect]))
      ensures OnlyCallsChanged()
    {
      if !adapterPresent || gatt.None? {
        return;
      }
      calls := calls + [OnHandle(gatt.value, HandleOp.Disconnect)];
    }

    /** close(): releases the handle if there is one. A second call finds no
        handle and makes no driver call. State and address are kept. */
    method Close()
      requires Valid()
      modifies this
      ensures Valid()
      ensures gatt == None
      ensures calls == old(calls) + (if old(gatt).Some? then [OnHandle(old(gatt).value, HandleOp.Close)] else [])
      ensures managerPresent == old(managerPresent) && adapterPresent == old(adapterPresent)
      ensures deviceAddress == old(deviceAddress)
      ensures connectionState == old(connectionState) && broadcasts == old(broadcasts)
    {
      if gatt.None? {
        return;
      }
      calls := calls + [OnHandle(gatt.value, HandleOp.Close)];
      gatt := None;
    }

    /** readCharacteristic(c). */
    method ReadCharacteristic(c: Characteristic)
      requires Valid()
      modifies this
      ensures Valid()
      ensures calls == old(calls) + old(Issued([Read(c)]))
      ensures OnlyCallsChanged()
    {
      if !adapterPresent || gatt.None? {
        return;
      }
      calls := calls + [OnHandle(gatt.value, Read(c))];
    }

    /** writeCharacteristic(c) after the caller stored `value` in c. Whether
        the driver accepts the request is only logged. */
    method WriteCharacteristic(c: Characteristic, value: string)
      requires Valid()
      modifies this
      ensures Valid()
      ensures calls == old(calls) + old(Issued([Write(c, value)]))
      ensures OnlyCallsChanged()
    {
      if !adapterPresent || gatt.None? {
        return;
      }
      calls := calls + [OnHandle(gatt.value, Write(c, value))];
    }

    /** setCharacteristicNotification(c, enabled). */
    method SetCharacteristicNotification(c: Characteristic, enabled: bool)
      requires Valid()
      modifies this
      ensures Valid()
      ensures calls == old(calls) + old(Issued([SetNotification(c, enabled)]))
      ensures OnlyCallsChanged()
    {
      if !adapterPresent || gatt.None? {
        return;
      }
      calls := calls + [OnHandle(gatt.value, SetNotification(c, enabled))];
    }

    /** getSupportedGattServices(): null without a handle, otherwise what the
        handle's getServices() returns (`driverServices`). */
    method GetSupportedGattServices(driverServices: seq<GattService>) returns (r: Option<seq<GattService>>)
      ensures gatt.None? <==> r.None?
      ensures gatt.Some? ==> r == Some(driverServices)
    {
      if gatt.None? {
        return None;
      }
      return Some(driverServices);
    }

    /** The one-argument broadcastUpdate: an intent without extras. */
    method Broadcast(action: Action)
      modifies this`broadcasts
      ensures broadcasts == old(broadcasts) + [Intent(action, None)]
    {
      broadcasts := broadcasts + [Intent(action, None)];
    }

    /** The two-argument broadcastUpdate for characteristic c carrying
        `value`. */
    method BroadcastCharacteristic(action: Action, c: Characteristic, value: seq<Byte>)
      modifies this`broadcasts
      ensures broadcasts == old(broadcasts) + [CharacteristicIntent(action, c, value, decode(value))]
    {
      var intent := Intent(action, None);
      if |value| > 0 {
        var dump := FormatHex(value);
        var data := decode(value) + "\n" + dump + "::" + PermissionsToString(c.permissions);
        intent := Intent(action, Some(Extras(data, c.uuid)));
      }
      broadcasts := broadcasts + [intent];
    }

    /** onConnectionStateChange(status, newState). `status` is ignored. On
        connected the handle is asked to discover services; with no handle
        the Java code dereferences null at that point, after the state and
        the broadcast have changed, so no discovery is requested. */
    method OnConnectionStateChange(status: int, newState: int)
      requires Valid()
      modifies this
      ensures Valid()
      ensures connectionState == NextState(old(connectionState), newState)
      ensures broadcasts == old(broadcasts) + StateEvents(newState)
      ensures calls == old(calls) +
        if newState == PROFILE_STATE_CONNECTED && old(gatt).Some?
        then [OnHandle(old(gatt).value, DiscoverServices)] else []
      ensures managerPresent == old(managerPresent) && adapterPresent == old(adapterPresent)
      ensures deviceAddress == old(deviceAddress) && gatt == old(gatt)
    {
      if newState == PROFILE_STATE_CONNECTED {
        connectionState := STATE_CONNECTED;
        Broadcast(GattConnected);
        if gatt.Some? {
          calls := calls + [OnHandle(gatt.value, DiscoverServices)];
        }
      } else if newState == PROFILE_STATE_DISCONNECTED {
        connectionState := STATE_DISCONNECTED;
        Broadcast(GattDisconnected);
      }
    }

    /** onServicesDiscovered(status): one intent on success, none on failure. */
    method OnServicesDiscovered(status: int)
      requires Valid()
      modifies this
      ensures Valid()
      ensures broadcasts == old(broadcasts) +
        if status == GATT_SUCCESS then [Intent(GattServicesDiscovered, None)] else []
      ensures managerPresent == old(managerPresent) && adapterPresent == old(adapterPresent)
      ensures deviceAddress == old(deviceAddress) && gatt == old(gatt)
      ensures connectionState == old(connectionState) && calls == old(calls)
    {
      if status == GATT_SUCCESS {
        Broadcast(GattServicesDiscovered);
      }
    }

    /** onCharacteristicRead(c, status) with c holding `value`. */
    method OnCharacteristicRead(c: Characteristic, value: seq<Byte>, status: int)
      requires Valid()
      modifies this
      ensures Valid()
      ensures broadcasts == old(broadcasts) +
        if status == GATT_SUCCESS then [CharacteristicIntent(DataAvailable, c, value, decode(value))] else []
      ensures managerPresent == old(managerPresent) && adapterPresent == old(adapterPresent)
      ensures deviceAddress == old(deviceAddress) && gatt == old(gatt)
      ensures connectionState == old(connectionState) && calls == old(calls)
    {
      if status == GATT_SUCCESS {
        BroadcastCharacteristic(DataAvailable, c, value);
      }
    }

    /** onCharacteristicChanged(c): a notification carrying `value`. */
    method OnCharacteristicChanged(c: Characteristic, value: seq<Byte>)
      requires Valid()
      modifies this
      ensures Valid()
      ensures broadcasts == old(broadcasts) + [CharacteristicIntent(DataAvailable, c, value, decode(value))]
      ensures managerPresent == old(managerPresent) && adapterPresent == old(adapterPresent)
      ensures deviceAddress == old(deviceAddress) && gatt == old(gatt)
      ensures connectionState == old(connectionState) && calls == old(calls)
    {
      BroadcastCharacteristic(DataAvailable, c, value);
    }

    /** onCharacteristicWrite(c, status): one write-complete intent whatever
        the status (both branches of the source broadcast the same). */
    method OnCharacteristicWrite(c: Characteristic, value: seq<Byte>, status: int)
      requires Valid()
      modifies this
      ensures Valid()
      ensures broadcasts == old(broadcasts) + [CharacteristicIntent(CharacteristicWriteComplete, c, value, decode(value))]
      ensures managerPresent == old(managerPresent) && adapterPresent == old(adapterPresent)
      ensures deviceAddress == old(deviceAddress) && gatt == old(gatt)
      ensures connectionState == old(connectionState) && calls == old(calls)
    {
      if status == GATT_SUCCESS {
        BroadcastCharacteristic(CharacteristicWriteComplete, c, value);
      } else {
        BroadcastCharacteristic(CharacteristicWriteComplete, c, value);
      }
    }
  }
}
