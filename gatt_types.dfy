/** Value types shared by the connection manager (BluetoothLeService) and the
    Bluno protocol layer (DeviceControlActivity): the GATT topology handed out
    by the platform driver, the driver calls the app issues, and the broadcast
    intents the service publishes. */
module GattTypes {

  /** A Java reference that may be null. */
  datatype Option<+T> = None | Some(value: T)

  /** One byte of a characteristic value. Java bytes are signed, but the only
      use made of them here is `String.format("%02X ", b)`, and Java's
      Formatter adds 256 to a negative byte before printing it in hex, so the
      unsigned reading 0..255 is exact. */
  type Byte = x: int | 0 <= x < 256

  /** Opaque identity of one live `BluetoothGatt` connection object. */
  type Handle = nat

  /** A `BluetoothGattCharacteristic`. `instanceId` distinguishes two
      characteristics that carry the same UUID; `properties` and
      `permissions` are the platform's bit masks (non-negative). */
  datatype Characteristic = Characteristic(
    instanceId: nat,
    uuid: string,
    properties: nat,
    permissions: nat)

  /** A `BluetoothGattService`: its UUID and its characteristics in the
      order the driver reports them. */
  datatype GattService = GattService(uuid: string, characteristics: seq<Characteristic>)

  /** An operation issued on an existing `BluetoothGatt` handle. `Write`
      records the value the caller stored in the characteristic just before
      the write (characteristic.setValue followed by writeCharacteristic). */
  datatype HandleOp =
    | Reconnect
    | Disconnect
    | Close
    | DiscoverServices
    | Read(c: Characteristic)
    | Write(c: Characteristic, value: string)
    | SetNotification(c: Characteristic, enabled: bool)

  /** A call into the platform BLE driver. */
  datatype DriverCall =
    | ConnectGatt(address: string, result: Option<Handle>)
    | OnHandle(handle: Handle, op: HandleOp)

  /** The five broadcast actions of the service. */
  datatype Action =
    | GattConnected
    | GattDisconnected
    | GattServicesDiscovered
    | DataAvailable
    | CharacteristicWriteComplete

  /** EXTRA_DATA and EXTRA_CHARACTERISTIC_UUID; the service attaches both or
      neither. */
  datatype Extras = Extras(data: string, uuid: string)

  /** A broadcast intent. */
  datatype Intent = Intent(action: Action, extras: Option<Extras>)
}
