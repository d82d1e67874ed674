/** Connections and settings of one device (stack/gap.py) and the callbacks that change them. */
module Gaps {
  import opened Bytes
  import opened Text
  import opened Workers
  import opened Listeners
  import Settings

  const CONNECTED: Key := (BTP_SERVICE_ID_GAP, 0x82)
  const DISCONNECTED: Key := (BTP_SERVICE_ID_GAP, 0x83)

  /** Text and type decide equality; events always give the text in lower case. */
  datatype BleAddress = BleAddress(addr: string, addrType: byte)
  datatype ConnParams = ConnParams(itvl: u16, latency: u16, timeout: u16)

  /** What a callback returns, and so what a listener's predicate sees. */
  datatype Args =
    | Connected(addr: BleAddress, params: ConnParams)
    | Disconnected(addr: BleAddress)
    | Else(data: seq<byte>)

  /** `<B6sHHH`, read with unpack_from: more bytes may follow. */
  function DecConnected(data: seq<byte>): Result<Args> {
    if |data| < 13 then Err(StructError)
    else Ok(Connected(BleAddress(AddrText(data[1..7]), data[0]),
                      ConnParams(UnpackU16(data[7..9]), UnpackU16(data[9..11]), UnpackU16(data[11..13]))))
  }

  /** `<B6s`. */
  function DecDisconnected(data: seq<byte>): Result<Args> {
    if |data| < 7 then Err(StructError) else Ok(Disconnected(BleAddress(AddrText(data[1..7]), data[0])))
  }

  /** A callback's effect on the connected addresses, and its result. */
  datatype Effect = Effect(conns: set<BleAddress>, ret: Result<Args>)

  function ConnectedEffect(conns: set<BleAddress>, data: seq<byte>): Effect {
    var r := DecConnected(data);
    Effect(if r.Ok? then conns + {r.value.addr} else conns, r)
  }

  /** `dict.pop` of an address that is not connected raises. */
  function DisconnectedEffect(conns: set<BleAddress>, data: seq<byte>): Effect {
    match DecDisconnected(data)
    case Err(e) => Effect(conns, Err(e))
    case Ok(args) => if args.addr in conns then Effect(conns - {args.addr}, Ok(args)) else Effect(conns, Err(KeyError))
  }

  /** The events of connections, and where their fields lie; both begin with the type and the address. */
  lemma ConnectionBytes(data: seq<byte>)
    ensures CONNECTED == (1, 130) && DISCONNECTED == (1, 131)
    ensures DecConnected(data).Ok? <==> |data| >= 13
    ensures DecDisconnected(data).Ok? <==> |data| >= 7
    ensures DecDisconnected(data).Ok? ==>
              && DecDisconnected(data).value.Disconnected?
              && DecDisconnected(data).value.addr.addrType == data[0]
              && Addr2BtpBa(DecDisconnected(data).value.addr.addr) == Ok(data[1..7])
    ensures DecConnected(data).Ok? ==>
              && DecConnected(data).value.Connected?
              && DecConnected(data).value.addr == DecDisconnected(data).value.addr
              && DecConnected(data).value.params.itvl as int == data[7] as int + 256 * (data[8] as int)
              && DecConnected(data).value.params.latency as int == data[9] as int + 256 * (data[10] as int)
              && DecConnected(data).value.params.timeout as int == data[11] as int + 256 * (data[12] as int)
  {
    if |data| >= 7 {
      AddrRoundTrip(data[1..7]);
    }
  }

  /** Two events name the same device exactly if their first seven bytes are the same. */
  lemma SameDevice(a: seq<byte>, b: seq<byte>)
    requires |a| >= 7 && |b| >= 7
    ensures DecDisconnected(a).value.addr == DecDisconnected(b).value.addr <==> a[..7] == b[..7]
  {
    ConnectionBytes(a);
    ConnectionBytes(b);
    assert a[..7] == [a[0]] + a[1..7] && b[..7] == [b[0]] + b[1..7];
    assert a[..7] == b[..7] ==> a[1..7] == a[..7][1..] && b[1..7] == b[..7][1..];
  }

  /** `is_connected`, on the keys of the connections: without an address, is there any? */
  predicate HasConnection(conns: set<BleAddress>, addr: Option<BleAddress>) {
    if addr.None? then |conns| > 0 else addr.value in conns
  }

  class Gap {
    var connections: map<BleAddress, BleAddress>    // a Connection holds its address
    var connParams: Option<ConnParams>

    var currentSettings: map<string, bool>

    /** The dictionary has the sixteen settings, in every reachable state. */
    predicate HasSettings()
      reads this
    {
      currentSettings.Keys == Settings.UNREAD.Keys
    }

    constructor ()
      ensures connections == map[] && connParams == None && currentSettings == Settings.UNREAD && HasSettings()
    {
      connections, connParams, currentSettings := map[], None, Settings.UNREAD;
    }

    /** `current_settings_set` and `current_settings_clear`: an unknown name is only logged. */
    method CurrentSettingsPut(key: string, value: bool)
      modifies this`currentSettings
      ensures key in old(currentSettings) ==> currentSettings == old(currentSettings)[key := value]
      ensures key !in old(currentSettings) ==> currentSettings == old(currentSettings)
    {
      if key in currentSettings {
        currentSettings := currentSettings[key := value];
      }
    }

    predicate CurrentSettingsGet(key: string)
      reads this
    {
      key in currentSettings && currentSettings[key]
    }

    /**
     `__gap_current_settings_update`: afterwards the dictionary mirrors the mask, and nothing of the old
     one is left.
     */
    method CurrentSettingsUpdate(settings: nat)
      requires HasSettings()
      modifies this`currentSettings
      ensures currentSettings == Settings.Flags(settings) && HasSettings()
    {
      ghost var before := currentSettings;
      for bit := 0 to |Settings.NAMES|
        invariant currentSettings.Keys == before.Keys
        invariant currentSettings == Settings.Updated(before, settings, bit)
      {
        UpdateBit(settings, bit, before);
      }
      Settings.UpdateIsFull(before, settings);
    }

    /** One round of the loop. */
    method UpdateBit(settings: nat, bit: nat, ghost before: map<string, bool>)
      requires bit < |Settings.NAMES| && HasSettings()
      requires currentSettings == Settings.Updated(before, settings, bit)
      modifies this`currentSettings
      ensures currentSettings.Keys == old(currentSettings.Keys)
      ensures currentSettings == Settings.Updated(before, settings, bit + 1)
    {
      Settings.KnownName(bit);
      CurrentSettingsPut(Settings.NAMES[bit], Settings.Bit(settings, bit));
    }

    /** The answer to a settings command: exactly four bytes. */
    method ApplyAnswer(data: seq<byte>) returns (r: Result<()>)
      requires HasSettings()
      modifies this`currentSettings
      ensures HasSettings()
      ensures r == if |data| == 4 then Ok(()) else Err(InvalidLength)
      ensures currentSettings == if |data| == 4 then Settings.Flags(Settings.UnpackU32(data)) else old(currentSettings)
    {
      if |data| != 4 {
        return Err(InvalidLength);
      }
      CurrentSettingsUpdate(Settings.UnpackU32(data));
      return Ok(());
    }

    /** `gap_new_settings_ev_`: at least four bytes. */
    method NewSettingsEv(data: seq<byte>) returns (r: Result<()>)
      requires HasSettings()
      modifies this`currentSettings
      ensures HasSettings()
      ensures r == if |data| >= 4 then Ok(()) else Err(StructError)
      ensures currentSettings ==
              if |data| >= 4 then Settings.Flags(Settings.UnpackU32(data[..4])) else old(currentSettings)
    {
      if |data| < 4 {
        return Err(StructError);
      }
      CurrentSettingsUpdate(Settings.UnpackU32(data[..4]));
      return Ok(());
    }

    /**
     A settings command such as `gap_set_conn`, given the device's answer if it is asked. If the cache
     mirrors the device's mask, a command that sends nothing had nothing to do.
     */
    method Command(cmd: Settings.Command, answer: seq<byte>) returns (sent: bool, r: Result<()>)
      requires HasSettings() && !cmd.ReadInfo?
      modifies this`currentSettings
      ensures HasSettings()
      ensures sent <==> !cmd.SkipsAt(old(CurrentSettingsGet(Settings.NAMES[cmd.Setting()])))
      ensures !sent ==> r == Ok(()) && currentSettings == old(currentSettings)
      ensures !sent ==> forall mask: nat | Settings.Flags(mask) == currentSettings :: cmd.Met(mask)
      ensures forall mask: nat | sent && cmd.Guarded() && Settings.Flags(mask) == old(currentSettings) :: !cmd.Met(mask)
      ensures sent ==> r == if |answer| == 4 then Ok(()) else Err(InvalidLength)
      ensures sent && r.Ok? ==> currentSettings == Settings.Flags(Settings.UnpackU32(answer))
    {
      forall mask: nat | Settings.Flags(mask) == currentSettings
        ensures CurrentSettingsGet(Settings.NAMES[cmd.Setting()]) == Settings.Bit(mask, cmd.Setting())
      {
        Settings.FlagsAt(mask);
      }
      if cmd.Guarded() && CurrentSettingsGet(Settings.NAMES[cmd.Setting()]) == cmd.Wanted() {
        return false, Ok(());
      }
      sent := true;
      r := ApplyAnswer(answer);
    }

    method SetConnected(addr: BleAddress)
      modifies this`connections
      ensures connections == old(connections)[addr := addr]
    {
      connections := connections[addr := addr];
    }

    method SetDisconnected(addr: BleAddress) returns (r: Result<()>)
      modifies this`connections
      ensures r == if addr in old(connections) then Ok(()) else Err(KeyError)
      ensures connections == old(connections) - {addr}
    {
      if addr !in connections {
        assert connections - {addr} == connections;
        return Err(KeyError);
      }
      connections := connections - {addr};
      return Ok(());
    }

    predicate IsConnected(addr: Option<BleAddress>)
      reads this
    {
      HasConnection(connections.Keys, addr)
    }

    /** `gap_connected_ev_`. */
    method ConnectedEv(data: seq<byte>) returns (r: Result<Args>)
      modifies this`connections, this`connParams
      ensures Effect(connections.Keys, r) == ConnectedEffect(old(connections.Keys), data)
      ensures connParams == if r.Ok? then Some(r.value.params) else old(connParams)
    {
      r := DecConnected(data);
      if r.Ok? {
        SetConnected(r.value.addr);
        connParams := Some(r.value.params);
      }
    }

    /** `gap_disconnected_ev_`. */
    method DisconnectedEv(data: seq<byte>) returns (r: Result<Args>)
      modifies this`connections
      ensures Effect(connections.Keys, r) == DisconnectedEffect(old(connections.Keys), data)
    {
      r := DecDisconnected(data);
      if r.Ok? {
        var popped := SetDisconnected(r.value.addr);
        if popped.Err? {
          r := Err(popped.error);
        }
      }
    }
  }
}
