/** The Bluno protocol layer (`DeviceControlActivity`): the reaction to the
    service's broadcasts, role binding after discovery, the baud-rate and
    USB-debug handshake, the notify-target switch on a list click, and the
    serial and command send paths. */
module DeviceControl {
  import opened GattTypes
  import opened Bits
  import opened Decimal
  import opened Text
  import opened Roles
  import opened BleService

  /** Model-number text that identifies a Bluno (compared after upper-casing). */
  const BLUNO_SIGNATURE := "DF BLUNO"
  const CRLF := "\r\n"
  const USB_DEBUG_COMMAND := "AT+USBDEBUG=ON\r\n"
  const DEFAULT_BAUDRATE := 115200

  // android.bluetooth.BluetoothGattCharacteristic.PROPERTY_READ and PROPERTY_NOTIFY.
  const PROPERTY_READ := 2
  const PROPERTY_NOTIFY := 16

  /** mSetBaudrateCommand for a baud rate. */
  function BaudrateCommand(baudrate: int): string
  {
    "AT+CURRUART=" + IntToDecimal(baudrate) + CRLF
  }

  /** The command carries its baud rate: the fixed head, the decimal number
      (which reads back to the rate) and a final CRLF. */
  lemma BaudrateCommandCarriesRate(baudrate: int)
    ensures var cmd := BaudrateCommand(baudrate);
      && |cmd| >= 14
      && cmd[..12] == "AT+CURRUART="
      && ParseInt(cmd[12..|cmd| - 2]) == Some(baudrate)
      && cmd[|cmd| - 2..] == CRLF
  {
    var cmd := BaudrateCommand(baudrate);
    IntToDecimalRoundTrip(baudrate);
    assert cmd[12..|cmd| - 2] == IntToDecimal(baudrate);
  }

  lemma DefaultBaudrateDigits()
    ensures IntToDecimal(DEFAULT_BAUDRATE) == "115200"
  {
    assert NatToDecimal(1) == "1";
    assert NatToDecimal(11) == "11";
    assert NatToDecimal(115) == "115";
    assert NatToDecimal(1152) == "1152";
    assert NatToDecimal(11520) == "11520";
    assert NatToDecimal(115200) == "115200";
  }

  /** Toasts the activity shows. */
  datatype Notice = SelectCompatibleDevice | NotCompatibleDevice | CommandSentOk

  /** What the activity does to its views, in order. */
  datatype UiEffect =
    | ClearUI
    | ShowData(text: string)
    | ShowReceived(text: string)
    | Toast(notice: Notice)

  /** intent.getStringExtra(EXTRA_DATA). */
  function ExtraData(intent: Intent): Option<string>
  {
    if intent.extras.Some? then Some(intent.extras.value.data) else None
  }

  /** intent.getStringExtra(EXTRA_CHARACTERISTIC_UUID). */
  function ExtraUuid(intent: Intent): Option<string>
  {
    if intent.extras.Some? then Some(intent.extras.value.uuid) else None
  }

  /** The data-available intents that start the handshake: from the model
      number characteristic, data starting with the signature in any case. */
  predicate HandshakeTriggered(u: RoleUuids, intent: Intent)
  {
    && intent.action == DataAvailable
    && IsModelNumber(u, ExtraUuid(intent))
    && intent.extras.Some?
    && StartsWith(ToUpper(intent.extras.value.data), BLUNO_SIGNATURE)
  }

  /** The two handshake writes on the command characteristic. commandSend
      appends CRLF to commands that already end with one. */
  function HandshakeOps(command: Characteristic, baudrateCommand: string): seq<HandleOp>
  {
    [Write(command, baudrateCommand + CRLF), Write(command, USB_DEBUG_COMMAND + CRLF)]
  }

  /** The driver operations displayGattServices issues for a compatible
      device: the serial port is read twice and the command characteristic
      is never read. */
  function DiscoveryOps(b: Bindings): seq<HandleOp>
    requires b.Compatible()
  {
    [ SetNotification(b.modelNumber.value, true), Read(b.modelNumber.value),
      SetNotification(b.command.value, true), Read(b.serialPort.value),
      SetNotification(b.serialPort.value, true), Read(b.serialPort.value) ]
  }

  /** The operations of a click on characteristic c: disable the current
      notify target if there is one, read c, enable notification on c. */
  function SwitchOps(target: Option<Characteristic>, c: Characteristic): seq<HandleOp>
  {
    (if target.Some? then [SetNotification(target.value, false)] else []) + [Read(c), SetNotification(c, true)]
  }

  /** The views' reaction to a data-available intent. */
  function DataUi(u: RoleUuids, intent: Intent): seq<UiEffect>
  {
    var data := ExtraData(intent);
    var uuid := ExtraUuid(intent);
    (if data.Some? then [ShowData(data.value)] else []) +
    (if IsModelNumber(u, uuid) then
       (if StartsWith(ToUpper(data.value), BLUNO_SIGNATURE) then [] else [Toast(SelectCompatibleDevice)])
     else if IsCommand(u, uuid) then [ShowReceived("cmd:" + data.value)]
     else if IsSerialPort(u, uuid) then [ShowReceived("ser:" + data.value)]
     else [])
  }

  /** A broadcast for the model-number characteristic starts the handshake
      exactly when its value is non-empty and its decoded text starts with
      the signature in any case: the hex dump and permission string that
      follow the text cannot complete a shorter match. */
  lemma ModelNumberDataTriggersHandshake(u: RoleUuids, c: Characteristic, value: seq<Byte>, text: string)
    requires c.uuid == u.modelNumber
    ensures HandshakeTriggered(u, CharacteristicIntent(DataAvailable, c, value, text))
        <==> |value| > 0 && StartsWith(ToUpper(text), BLUNO_SIGNATURE)
  {
    if |value| > 0 {
      PayloadPrefixIsTextPrefix(text, value, c.permissions, BLUNO_SIGNATURE);
    }
  }

  /** A broadcast of an empty value carries no UUID and so matches no role. */
  lemma EmptyValueMatchesNoRole(u: RoleUuids, action: Action, c: Characteristic, text: string)
    ensures var intent := CharacteristicIntent(action, c, [], text);
      && !IsModelNumber(u, ExtraUuid(intent))
      && !IsSerialPort(u, ExtraUuid(intent))
      && !IsCommand(u, ExtraUuid(intent))
      && DataUi(u, intent) == []
  {
  }

  /** Both handshake writes end in a doubled CRLF. */
  lemma HandshakeValuesEndWithDoubleCrlf(command: Characteristic, baudrate: int)
    ensures HandshakeOps(command, BaudrateCommand(baudrate)) ==
      [ Write(command, "AT+CURRUART=" + IntToDecimal(baudrate) + "\r\n\r\n"),
        Write(command, "AT+USBDEBUG=ON\r\n\r\n") ]
  {
    var head := "AT+CURRUART=" + IntToDecimal(baudrate);
    assert CRLF + CRLF == "\r\n\r\n";
    assert head + CRLF + CRLF == head + (CRLF + CRLF);
    assert USB_DEBUG_COMMAND + CRLF == "AT+USBDEBUG=ON\r\n\r\n";
  }

  class DeviceControlActivity {
    /** mBluetoothLeService, once bound. */
    const service: BluetoothLeService
    const uuids: RoleUuids
    var connected: bool                          // mConnected
    var sendEnabled: bool                        // send button and text field enabled
    var modelNumber: Option<Characteristic>      // mModelNumberCharacteristic
    var serialPort: Option<Characteristic>       // mSerialPortCharacteristic
    var command: Option<Characteristic>          // mCommandCharacteristic
    var notifyTarget: Option<Characteristic>     // mNotifyCharacteristic
    var gattCharacteristics: seq<seq<Characteristic>>
    var baudrate: int
    var setBaudrateCommand: string
    var ui: seq<UiEffect>

    ghost predicate Valid()
      reads this, service
    {
      && service.Valid()
      && uuids.Distinct()
      && setBaudrateCommand == BaudrateCommand(baudrate)
    }

    function CurrentBindings(): Bindings
      reads this
    {
      Bindings(modelNumber, serialPort, command)
    }

    /** isCompatibleDfrobotBleDevice(). */
    predicate IsCompatibleDfrobotBleDevice()
      reads this
      ensures IsCompatibleDfrobotBleDevice() <==> modelNumber.Some? && serialPort.Some? && command.Some?
    {
      CurrentBindings().Compatible()
    }

    /** isConnected(). */
    predicate IsConnected()
      reads this
      ensures IsConnected() <==> connected
    {
      connected
    }

    /** The field initialisers, then the part of onCreate that concerns the
        model: the send button starts disabled and serialBegin(115200). */
    constructor (service: BluetoothLeService, uuids: RoleUuids)
      requires service.Valid() && uuids.Distinct()
      ensures Valid()
      ensures this.service == service && this.uuids == uuids
      ensures !connected && !sendEnabled
      ensures CurrentBindings() == Bindings(None, None, None) && notifyTarget == None
      ensures gattCharacteristics == [] && ui == []
      ensures baudrate == DEFAULT_BAUDRATE
      ensures setBaudrateCommand == "AT+CURRUART=115200\r\n"
    {
      this.service := service;
      this.uuids := uuids;
      connected, sendEnabled := false, false;
      modelNumber, serialPort, command, notifyTarget := None, None, None, None;
      gattCharacteristics, ui := [], [];
      baudrate := DEFAULT_BAUDRATE;
      setBaudrateCommand := BaudrateCommand(DEFAULT_BAUDRATE);
      DefaultBaudrateDigits();
    }

    /** serialBegin(baudrate). */
    method SerialBegin(rate: int)
      requires Valid()
      modifies this`baudrate, this`setBaudrateCommand
      ensures Valid()
      ensures baudrate == rate && setBaudrateCommand == BaudrateCommand(rate)
    {
      baudrate := rate;
      setBaudrateCommand := "AT+CURRUART=" + IntToDecimal(baudrate) + CRLF;
    }

    /** serialSend(text): writes text + CRLF to the serial-port
        characteristic, only when connected and compatible. */
    method SerialSend(text: string)
      requires Valid()
      modifies service
      ensures Valid() && service.OnlyCallsChanged()
      ensures service.calls == old(service.calls) +
        if connected && IsCompatibleDfrobotBleDevice()
        then old(service.Issued([Write(serialPort.value, text + CRLF)])) else []
    {
      if !IsConnected() {
        return;
      }
      if !IsCompatibleDfrobotBleDevice() {
        return;
      }
      service.WriteCharacteristic(serialPort.value, text + CRLF);
    }

    /** commandSend(text): writes text + CRLF to the command characteristic,
        only when connected and compatible. */
    method CommandSend(text: string)
      requires Valid()
      modifies service
      ensures Valid() && service.OnlyCallsChanged()
      ensures service.calls == old(service.calls) +
        if connected && IsCompatibleDfrobotBleDevice()
        then old(service.Issued([Write(command.value, text + CRLF)])) else []
    {
      if !IsConnected() {
        return;
      }
      if !IsCompatibleDfrobotBleDevice() {
        return;
      }
      service.WriteCharacteristic(command.value, text + CRLF);
    }

    /** The send button's onClick with `fieldText` in the text field: no
        connection check, no CRLF appended. */
    method OnSendClick(fieldText: string)
      requires Valid()
      modifies this`sendEnabled, service
      ensures Valid() && service.OnlyCallsChanged()
      ensures serialPort.Some? && |fieldText| > 0 ==>
        service.calls == old(service.calls) + old(service.Issued([Write(serialPort.value, fieldText)]))
        && !sendEnabled
      ensures serialPort.None? || |fieldText| == 0 ==>
        service.calls == old(service.calls) && sendEnabled == old(sendEnabled)
    {
      if serialPort.None? {
        return;
      }
      if |fieldText| > 0 {
        service.WriteCharacteristic(serialPort.value, fieldText);
        sendEnabled := false;
      }
    }

    /** onChildClick on the characteristic at (group, child). Both property
        tests use `|`, so both branches run for every property mask: the old
        notify target is disabled and cleared, the clicked characteristic is
        read and then becomes the notify target. */
    method OnChildClick(group: nat, child: nat) returns (handled: bool)
      requires Valid()
      requires group < |gattCharacteristics| && child < |gattCharacteristics[group]|
      modifies this`notifyTarget, service
      ensures Valid() && service.OnlyCallsChanged()
      ensures handled
      ensures notifyTarget == Some(gattCharacteristics[group][child])
      ensures service.calls == old(service.calls) +
        old(service.Issued(SwitchOps(notifyTarget, gattCharacteristics[group][child])))
    {
      var c := gattCharacteristics[group][child];
      ghost var before := service.calls;
      ghost var target := notifyTarget;
      var charaProp := c.properties;
      OrTestAlwaysHolds(charaProp, PROPERTY_READ);
      OrTestAlwaysHolds(charaProp, PROPERTY_NOTIFY);
      if BitOr(charaProp, PROPERTY_READ) > 0 {
        if notifyTarget.Some? {
          service.SetCharacteristicNotification(notifyTarget.value, false);
          notifyTarget := None;
        }
        service.ReadCharacteristic(c);
      }
      if BitOr(charaProp, PROPERTY_NOTIFY) > 0 {
        notifyTarget := Some(c);
        service.SetCharacteristicNotification(c, true);
      }
      if service.Ready() {
        var h := service.gatt.value;
        OnHandleAllAppend(h, if target.Some? then [SetNotification(target.value, false)] else [], [Read(c)]);
        OnHandleAllAppend(h, (if target.Some? then [SetNotification(target.value, false)] else []) + [Read(c)], [SetNotification(c, true)]);
      }
      return true;
    }

    /** The inner loop of displayGattServices over one service's
        characteristics: collects them in order and binds roles. */
    method BindCharacteristics(characteristics: seq<Characteristic>) returns (list: seq<Characteristic>)
      modifies this`modelNumber, this`serialPort, this`command
      ensures list == characteristics
      ensures CurrentBindings() == BindAll(uuids, old(CurrentBindings()), characteristics)
    {
      list := [];
      var j := 0;
      while j < |characteristics|
        invariant 0 <= j <= |characteristics|
        invariant list == characteristics[..j]
        invariant CurrentBindings() == BindAll(uuids, old(CurrentBindings()), characteristics[..j])
      {
        var c := characteristics[j];
        list := list + [c];
        var id := Some(c.uuid);
        if IsModelNumber(uuids, id) {
          modelNumber := Some(c);
        } else if IsSerialPort(uuids, id) {
          serialPort := Some(c);
        } else if IsCommand(uuids, id) {
          command := Some(c);
        }
        assert characteristics[..j + 1] == characteristics[..j] + [c];
        BindAllSnoc(uuids, old(CurrentBindings()), characteristics[..j], c);
        j := j + 1;
      }
      assert characteristics[..j] == characteristics;
    }

    /** The outer loop of displayGattServices: mGattCharacteristics is
        rebuilt with one list per service and roles are bound across all
        services in order. */
    method RebuildCatalog(gattServices: seq<GattService>)
      modifies this`gattCharacteristics, this`modelNumber, this`serialPort, this`command
      ensures gattCharacteristics == Groups(gattServices)
      ensures CurrentBindings() == BindAll(uuids, old(CurrentBindings()), Flatten(gattServices))
    {
      gattCharacteristics := [];
      var i := 0;
      assert gattServices[..0] == [];
      while i < |gattServices|
        invariant 0 <= i <= |gattServices|
        invariant gattCharacteristics == Groups(gattServices[..i])
        invariant CurrentBindings() == BindAll(uuids, old(CurrentBindings()), Flatten(gattServices[..i]))
      {
        var cs := gattServices[i].characteristics;
        var list := BindCharacteristics(cs);
        BindAllAppend(uuids, old(CurrentBindings()), Flatten(gattServices[..i]), cs);
        FlattenSnoc(gattServices, i);
        GroupsSnoc(gattServices, i);
        gattCharacteristics := gattCharacteristics + [list];
        i := i + 1;
      }
      assert gattServices[..i] == gattServices;
    }

    /** The compatible branch of displayGattServices: the six driver
        requests, in the source's order. */
    method SubscribeRoles()
      requires Valid() && IsCompatibleDfrobotBleDevice()
      modifies service
      ensures Valid() && service.OnlyCallsChanged()
      ensures service.calls == old(service.calls) + service.Issued(DiscoveryOps(CurrentBindings()))
    {
      service.SetCharacteristicNotification(modelNumber.value, true);
      service.ReadCharacteristic(modelNumber.value);
      service.SetCharacteristicNotification(command.value, true);
      service.ReadCharacteristic(serialPort.value);
      service.SetCharacteristicNotification(serialPort.value, true);
      service.ReadCharacteristic(serialPort.value);
    }

    /** displayGattServices(services): rebuilds mGattCharacteristics, binds
        roles (sticky: a role with no match keeps its binding) and, for a
        compatible device, subscribes and reads as the source orders it. */
    method DisplayGattServices(services: Option<seq<GattService>>)
      requires Valid()
      modifies this`gattCharacteristics, this`modelNumber, this`serialPort, this`command, this`ui, service
      ensures Valid() && service.OnlyCallsChanged()
      ensures services.None? ==>
        && gattCharacteristics == old(gattCharacteristics)
        && CurrentBindings() == old(CurrentBindings())
        && ui == old(ui) && service.calls == old(service.calls)
      ensures services.Some? ==>
        && gattCharacteristics == Groups(services.value)
        && CurrentBindings() == BindAll(uuids, old(CurrentBindings()), Flatten(services.value))
        && service.calls == old(service.calls) +
             (if IsCompatibleDfrobotBleDevice() then service.Issued(DiscoveryOps(CurrentBindings())) else [])
        && ui == old(ui) + (if IsCompatibleDfrobotBleDevice() then [] else [Toast(NotCompatibleDevice)])
    {
      if services.None? {
        return;
      }
      RebuildCatalog(services.value);
      if IsCompatibleDfrobotBleDevice() {
        SubscribeRoles();
      } else {
        ui := ui + [Toast(NotCompatibleDevice)];
      }
    }

    /** The ACTION_DATA_AVAILABLE branch of onReceive: shows the data, then
        acts on the characteristic it came from. A model-number value that
        starts with the signature runs the handshake; any other one asks the
        user to select a compatible device. */
    method OnDataAvailable(intent: Intent)
      requires Valid() && intent.action == DataAvailable
      modifies this`ui, this`sendEnabled, service
      ensures Valid() && service.OnlyCallsChanged() && sendEnabled
      ensures ui == old(ui) + DataUi(uuids, intent)
      ensures service.calls == old(service.calls) +
        if HandshakeTriggered(uuids, intent) && connected && IsCompatibleDfrobotBleDevice()
        then old(service.Issued(HandshakeOps(command.value, setBaudrateCommand))) else []
    {
      var data := ExtraData(intent);
      if data.Some? {
        ui := ui + [ShowData(data.value)];
      }
      sendEnabled := true;
      var intentUuid := ExtraUuid(intent);
      if IsModelNumber(uuids, intentUuid) {
        if StartsWith(ToUpper(data.value), BLUNO_SIGNATURE) {
          CommandSend(setBaudrateCommand);
          CommandSend(USB_DEBUG_COMMAND);
          if service.Ready() && connected && IsCompatibleDfrobotBleDevice() {
            OnHandleAllAppend(service.gatt.value, [Write(command.value, setBaudrateCommand + CRLF)],
                              [Write(command.value, USB_DEBUG_COMMAND + CRLF)]);
          }
        } else {
          ui := ui + [Toast(SelectCompatibleDevice)];
        }
      } else if IsCommand(uuids, intentUuid) {
        ui := ui + [ShowReceived("cmd:" + data.value)];
      } else if IsSerialPort(uuids, intentUuid) {
        ui := ui + [ShowReceived("ser:" + data.value)];
      }
    }

    /** mGattUpdateReceiver.onReceive(intent). `driverServices` is what the
        handle's getServices() would return if asked. */
    method OnReceive(intent: Intent, driverServices: seq<GattService>)
      requires Valid()
      modifies this, service
      ensures Valid() && service.OnlyCallsChanged()
      ensures baudrate == old(baudrate) && setBaudrateCommand == old(setBaudrateCommand)
      ensures notifyTarget == old(notifyTarget)
      ensures intent.action != GattServicesDiscovered ==>
        gattCharacteristics == old(gattCharacteristics) && CurrentBindings() == old(CurrentBindings())
      ensures intent.action == GattConnected ==>
        connected && !sendEnabled && ui == old(ui) && service.calls == old(service.calls)
      ensures intent.action == GattDisconnected ==>
        !connected && !sendEnabled && ui == old(ui) + [ClearUI] && service.calls == old(service.calls)
      ensures intent.action == GattServicesDiscovered ==>
        && connected == old(connected) && sendEnabled
        && (old(service.gatt).None? ==>
              && gattCharacteristics == old(gattCharacteristics)
              && CurrentBindings() == old(CurrentBindings())
              && ui == old(ui) && service.calls == old(service.calls))
        && (old(service.gatt).Some? ==>
              && gattCharacteristics == Groups(driverServices)
              && CurrentBindings() == BindAll(uuids, old(CurrentBindings()), Flatten(driverServices))
              && service.calls == old(service.calls) +
                   (if IsCompatibleDfrobotBleDevice() then service.Issued(DiscoveryOps(CurrentBindings())) else [])
              && ui == old(ui) + (if IsCompatibleDfrobotBleDevice() then [] else [Toast(NotCompatibleDevice)]))
      ensures intent.action == DataAvailable ==>
        && connected == old(connected) && sendEnabled
        && ui == old(ui) + DataUi(uuids, intent)
        && service.calls == old(service.calls) +
             if HandshakeTriggered(uuids, intent) && connected && IsCompatibleDfrobotBleDevice()
             then old(service.Issued(HandshakeOps(command.value, setBaudrateCommand))) else []
      ensures intent.action == CharacteristicWriteComplete ==>
        && connected == old(connected) && sendEnabled
        && ui == old(ui) + [Toast(CommandSentOk)] && service.calls == old(service.calls)
    {
      match intent.action
      case GattConnected =>
        connected := true;
        sendEnabled := false;
      case GattDisconnected =>
        connected := false;
        ui := ui + [ClearUI];
        sendEnabled := false;
      case GattServicesDiscovered =>
        sendEnabled := true;
        var services := service.GetSupportedGattServices(driverServices);
        DisplayGattServices(services);
      case DataAvailable =>
        OnDataAvailable(intent);
      case CharacteristicWriteComplete =>
        ui := ui + [Toast(CommandSentOk)];
        sendEnabled := true;
    }
  }

  /** Two identical matching broadcasts in a row both run the handshake: it
      changes none of the state its guard reads, so it is not once per
      discovery cycle. */
  method HandshakeRepeats(a: DeviceControlActivity, intent: Intent, driverServices: seq<GattService>)
    requires a.Valid() && HandshakeTriggered(a.uuids, intent)
    requires a.connected && a.IsCompatibleDfrobotBleDevice() && a.service.Ready()
    modifies a, a.service
    ensures |a.service.calls| == |old(a.service.calls)| + 4
    ensures a.service.calls == old(a.service.calls)
      + old(a.service.Issued(HandshakeOps(a.command.value, a.setBaudrateCommand)))
      + old(a.service.Issued(HandshakeOps(a.command.value, a.setBaudrateCommand)))
  {
    a.OnReceive(intent, driverServices);
    a.OnReceive(intent, driverServices);
  }
}
