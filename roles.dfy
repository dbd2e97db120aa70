/** Role binding of the Bluno protocol: which discovered characteristics
    serve as the model-number, serial-port and command characteristics, as
    the nested loop of displayGattServices assigns them. */
module Roles {
  import opened GattTypes

  /** The three role UUIDs (BLUNO_MODEL_NUMBER_CHARACTERISTIC,
      BLUNO_SERIAL_PORT_CHARACTERISTIC, BLUNO_COMMAND_CHARACTERISTIC). */
  datatype RoleUuids = RoleUuids(modelNumber: string, serialPort: string, command: string)
  {
    predicate Distinct()
    {
      modelNumber != serialPort && serialPort != command && modelNumber != command
    }
  }

  /** isBlunoModelNumberCharacteristic: false for a null UUID. */
  predicate IsModelNumber(u: RoleUuids, uuid: Option<string>)
    ensures uuid.None? ==> !IsModelNumber(u, uuid)
    ensures IsModelNumber(u, uuid) <==> uuid == Some(u.modelNumber)
  {
    uuid.Some? && uuid.value == u.modelNumber
  }

  /** isBlunoSerialPortCharacteristic: false for a null UUID. */
  predicate IsSerialPort(u: RoleUuids, uuid: Option<string>)
    ensures uuid.None? ==> !IsSerialPort(u, uuid)
    ensures IsSerialPort(u, uuid) <==> uuid == Some(u.serialPort)
  {
    uuid.Some? && uuid.value == u.serialPort
  }

  /** isBlunoCommandCharacteristic: false for a null UUID. */
  predicate IsCommand(u: RoleUuids, uuid: Option<string>)
    ensures uuid.None? ==> !IsCommand(u, uuid)
    ensures IsCommand(u, uuid) <==> uuid == Some(u.command)
  {
    uuid.Some? && uuid.value == u.command
  }

  /** A UUID plays at most one role, and a null UUID plays none. */
  lemma RolesAreExclusive(u: RoleUuids, uuid: Option<string>)
    requires u.Distinct()
    ensures !(IsModelNumber(u, uuid) && IsSerialPort(u, uuid))
    ensures !(IsSerialPort(u, uuid) && IsCommand(u, uuid))
    ensures !(IsModelNumber(u, uuid) && IsCommand(u, uuid))
    ensures uuid.None? ==> !IsModelNumber(u, uuid) && !IsSerialPort(u, uuid) && !IsCommand(u, uuid)
  {
  }

  /** The three role fields of the activity. */
  datatype Bindings = Bindings(
    modelNumber: Option<Characteristic>,
    serialPort: Option<Characteristic>,
    command: Option<Characteristic>)
  {
    /** isCompatibleDfrobotBleDevice. */
    predicate Compatible()
    {
      modelNumber.Some? && serialPort.Some? && command.Some?
    }
  }

  /** One iteration of the inner loop: the if/else chain binds at most one
      role to the characteristic. */
  function BindOne(u: RoleUuids, b: Bindings, c: Characteristic): Bindings
  {
    var id := Some(c.uuid);
    if IsModelNumber(u, id) then b.(modelNumber := Some(c))
    else if IsSerialPort(u, id) then b.(serialPort := Some(c))
    else if IsCommand(u, id) then b.(command := Some(c))
    else b
  }

  /** The bindings after visiting `cs` in order, starting from `b`. */
  function BindAll(u: RoleUuids, b: Bindings, cs: seq<Characteristic>): Bindings
  {
    if cs == [] then b else BindOne(u, BindAll(u, b, cs[..|cs| - 1]), cs[|cs| - 1])
  }

  /** The characteristics of all services, service by service, in order. */
  function Flatten(services: seq<GattService>): seq<Characteristic>
  {
    if services == [] then []
    else Flatten(services[..|services| - 1]) + services[|services| - 1].characteristics
  }

  /** mGattCharacteristics after a rebuild: one list per service. */
  function Groups(services: seq<GattService>): (g: seq<seq<Characteristic>>)
    ensures |g| == |services|
    ensures forall k :: 0 <= k < |services| ==> g[k] == services[k].characteristics
  {
    seq(|services|, k requires 0 <= k < |services| => services[k].characteristics)
  }

  /** The last characteristic of `cs` that carries `uuid`, if any. */
  function LastWithUuid(cs: seq<Characteristic>, uuid: string): Option<Characteristic>
  {
    if cs == [] then None
    else if cs[|cs| - 1].uuid == uuid then Some(cs[|cs| - 1])
    else LastWithUuid(cs[..|cs| - 1], uuid)
  }

  /** A later match replaces the earlier binding; no match keeps it. */
  function Override(previous: Option<Characteristic>, found: Option<Characteristic>): Option<Characteristic>
  {
    if found.Some? then found else previous
  }

  lemma BindAllSnoc(u: RoleUuids, b: Bindings, cs: seq<Characteristic>, c: Characteristic)
    ensures BindAll(u, b, cs + [c]) == BindOne(u, BindAll(u, b, cs), c)
  {
    assert (cs + [c])[..|cs|] == cs;
  }

  /** Binding over two runs is binding over the first, then the second. */
  lemma {:induction false} BindAllAppend(u: RoleUuids, b: Bindings, xs: seq<Characteristic>, ys: seq<Characteristic>)
    ensures BindAll(u, b, xs + ys) == BindAll(u, BindAll(u, b, xs), ys)
  {
    if ys == [] {
      assert xs + ys == xs;
    } else {
      var front, last := ys[..|ys| - 1], ys[|ys| - 1];
      BindAllAppend(u, b, xs, front);
      assert xs + ys == (xs + front) + [last];
      BindAllSnoc(u, b, xs + front, last);
      BindAllSnoc(u, BindAll(u, b, xs), front, last);
      assert front + [last] == ys;
    }
  }

  lemma GroupsSnoc(services: seq<GattService>, i: nat)
    requires i < |services|
    ensures Groups(services[..i + 1]) == Groups(services[..i]) + [services[i].characteristics]
  {
  }

  lemma FlattenSnoc(services: seq<GattService>, i: nat)
    requires i < |services|
    ensures Flatten(services[..i + 1]) == Flatten(services[..i]) + services[i].characteristics
  {
    assert services[..i + 1][..i] == services[..i];
  }

  /** LastWithUuid finds a characteristic exactly when one carries the UUID,
      and what it finds is such a characteristic with no match after it. */
  lemma {:induction false} LastWithUuidSpec(cs: seq<Characteristic>, uuid: string)
    ensures LastWithUuid(cs, uuid).Some? <==> exists i :: 0 <= i < |cs| && cs[i].uuid == uuid
    ensures LastWithUuid(cs, uuid).Some? ==>
      exists k :: 0 <= k < |cs| && cs[k] == LastWithUuid(cs, uuid).value && cs[k].uuid == uuid
        && forall j :: k < j < |cs| ==> cs[j].uuid != uuid
  {
    if cs != [] {
      var front := cs[..|cs| - 1];
      LastWithUuidSpec(front, uuid);
      if cs[|cs| - 1].uuid != uuid {
        if LastWithUuid(front, uuid).Some? {
          var k :| 0 <= k < |front| && front[k] == LastWithUuid(front, uuid).value && front[k].uuid == uuid
            && forall j :: k < j < |front| ==> front[j].uuid != uuid;
          assert cs[k] == front[k];
        }
        assert forall i :: 0 <= i < |front| ==> front[i] == cs[i];
      }
    }
  }

  /** Each role ends up bound to the last characteristic carrying its UUID,
      or keeps its previous binding when no characteristic carries it. */
  lemma {:induction false} BindAllKeepsLastMatch(u: RoleUuids, b: Bindings, cs: seq<Characteristic>)
    requires u.Distinct()
    ensures BindAll(u, b, cs) == Bindings(
      Override(b.modelNumber, LastWithUuid(cs, u.modelNumber)),
      Override(b.serialPort, LastWithUuid(cs, u.serialPort)),
      Override(b.command, LastWithUuid(cs, u.command)))
  {
    if cs != [] {
      BindAllKeepsLastMatch(u, b, cs[..|cs| - 1]);
    }
  }

  /** After a discovery the device is compatible exactly when every role
      either was bound already or has a characteristic in the catalog. */
  lemma CompatibleAfterBinding(u: RoleUuids, b: Bindings, cs: seq<Characteristic>)
    requires u.Distinct()
    ensures BindAll(u, b, cs).Compatible() <==>
      && (b.modelNumber.Some? || exists i :: 0 <= i < |cs| && cs[i].uuid == u.modelNumber)
      && (b.serialPort.Some? || exists i :: 0 <= i < |cs| && cs[i].uuid == u.serialPort)
      && (b.command.Some? || exists i :: 0 <= i < |cs| && cs[i].uuid == u.command)
  {
    BindAllKeepsLastMatch(u, b, cs);
    LastWithUuidSpec(cs, u.modelNumber);
    LastWithUuidSpec(cs, u.serialPort);
    LastWithUuidSpec(cs, u.command);
  }

  /** Bindings are never reset: once compatible, always compatible, whatever
      a later catalog holds (even an empty one). */
  lemma CompatibilityIsSticky(u: RoleUuids, b: Bindings, cs: seq<Characteristic>)
    requires u.Distinct() && b.Compatible()
    ensures BindAll(u, b, cs).Compatible()
  {
    CompatibleAfterBinding(u, b, cs);
  }

  /** From no bindings, a catalog is compatible exactly when it holds all
      three role UUIDs; leaving any one out makes it incompatible. */
  lemma FreshCompatibility(u: RoleUuids, cs: seq<Characteristic>)
    requires u.Distinct()
    ensures BindAll(u, Bindings(None, None, None), cs).Compatible() <==>
      && (exists i :: 0 <= i < |cs| && cs[i].uuid == u.modelNumber)
      && (exists i :: 0 <= i < |cs| && cs[i].uuid == u.serialPort)
      && (exists i :: 0 <= i < |cs| && cs[i].uuid == u.command)
  {
    CompatibleAfterBinding(u, Bindings(None, None, None), cs);
  }
}
