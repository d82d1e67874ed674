/** The cached GAP settings (pybtp/btp.py, pybtp/types.py) against a device that reports its full mask. */
module Settings {
  import opened Bytes

  /** The flag names by bit number. */
  const NAMES: seq<string> := [
    "Powered", "Connectable", "Fast Connectable", "Discoverable", "Bondable", "Link Level Security", "SSP", "BREDR",
    "HS", "LE", "Advertising", "SC", "Debug Keys", "Privacy", "Controller Configuration", "Static Address"]

  const POWERED := 0
  const CONNECTABLE := 1
  const DISCOVERABLE := 3
  const ADVERTISING := 10

  function Pow2(n: nat): (r: nat)
    ensures r > 0
  {
    if n == 0 then 1 else 2 * Pow2(n - 1)
  }

  /** `mask & (1 << bit)`. */
  predicate Bit(mask: nat, bit: nat) {
    mask / Pow2(bit) % 2 == 1
  }

  /** The dictionary after the update loop went through the first n bits. */
  function Updated(flags: map<string, bool>, mask: nat, n: nat): map<string, bool>
    requires n <= |NAMES|
  {
    Overwritten(NAMES, flags, mask, n)
  }

  function Overwritten(names: seq<string>, flags: map<string, bool>, mask: nat, n: nat): map<string, bool>
    requires n <= |names|
  {
    if n == 0 then flags else Overwritten(names, flags, mask, n - 1)[names[n - 1] := Bit(mask, n - 1)]
  }

  /** What a dictionary of the sixteen flags holds that mirrors the mask. */
  function Flags(mask: nat): map<string, bool> {
    Updated(map[], mask, |NAMES|)
  }

  predicate Distinct(names: seq<string>) {
    forall i, j | 0 <= i < j < |names| :: names[i] != names[j]
  }

  lemma {:induction false} OverwrittenKeys(names: seq<string>, flags: map<string, bool>, mask: nat, n: nat)
    requires n <= |names|
    ensures Overwritten(names, flags, mask, n).Keys == flags.Keys + (set i | 0 <= i < n :: names[i])
  {
    if n > 0 {
      OverwrittenKeys(names, flags, mask, n - 1);
    }
  }

  lemma {:induction false} OverwrittenAt(names: seq<string>, flags: map<string, bool>, mask: nat, n: nat, i: nat)
    requires i < n <= |names| && Distinct(names)
    ensures names[i] in Overwritten(names, flags, mask, n) &&
            Overwritten(names, flags, mask, n)[names[i]] == Bit(mask, i)
  {
    if i < n - 1 {
      OverwrittenAt(names, flags, mask, n - 1, i);
    }
  }

  /** No two bits share a name. */
  lemma NamesDiffer()
    ensures Distinct(NAMES)
  {
  }

  lemma UpdatedAt(flags: map<string, bool>, mask: nat, n: nat)
    requires n <= |NAMES|
    ensures var r := Updated(flags, mask, n);
            && (forall i | 0 <= i < n :: NAMES[i] in r && r[NAMES[i]] == Bit(mask, i))
            && r.Keys == flags.Keys + (set i | 0 <= i < n :: NAMES[i])
  {
    NamesDiffer();
    OverwrittenKeys(NAMES, flags, mask, n);
    forall i | 0 <= i < n ensures NAMES[i] in Updated(flags, mask, n) &&
        Updated(flags, mask, n)[NAMES[i]] == Bit(mask, i) {
      OverwrittenAt(NAMES, flags, mask, n, i);
    }
  }

  /** The loop sets exactly the sixteen flags, each to its own bit: no two bits share a name. */
  lemma FlagsAt(mask: nat)
    ensures forall i | 0 <= i < |NAMES| :: NAMES[i] in Flags(mask) && Flags(mask)[NAMES[i]] == Bit(mask, i)
    ensures Flags(mask).Keys == set i | 0 <= i < |NAMES| :: NAMES[i]
  {
    UpdatedAt(map[], mask, |NAMES|);
  }

  /** What the dictionary held before does not matter if it had the same sixteen keys. */
  lemma UpdateIsFull(flags: map<string, bool>, mask: nat)
    requires flags.Keys == UNREAD.Keys
    ensures Updated(flags, mask, |NAMES|) == Flags(mask) && Flags(mask).Keys == UNREAD.Keys
  {
    assert flags.Keys == set i | 0 <= i < |NAMES| :: NAMES[i];
    UpdatedAt(flags, mask, |NAMES|);
    FlagsAt(mask);
  }

  lemma KnownName(bit: nat)
    requires bit < |NAMES|
    ensures NAMES[bit] in UNREAD
  {
    assert NAMES[bit] in NAMES;
  }

  lemma FlagsAgree(a: nat, b: nat)
    ensures Flags(a) == Flags(b) <==> forall i | 0 <= i < |NAMES| :: Bit(a, i) == Bit(b, i)
  {
    FlagsAt(a);
    FlagsAt(b);
  }

  lemma Powers()
    ensures Pow2(0) == 1 && Pow2(1) == 2 && Pow2(2) == 4 && Pow2(3) == 8 && Pow2(4) == 16 && Pow2(5) == 32
    ensures Pow2(6) == 64 && Pow2(7) == 128 && Pow2(8) == 256 && Pow2(9) == 512 && Pow2(10) == 1024
    ensures Pow2(11) == 2048 && Pow2(12) == 4096 && Pow2(13) == 8192 && Pow2(14) == 16384 && Pow2(15) == 32768
    ensures Pow2(16) == 65536
  {
    assert Pow2(4) == 16;
    assert Pow2(8) == 256;
    assert Pow2(12) == 4096;
  }

  lemma FlagOf(mask: nat, bit: nat, name: string, power: nat)
    requires bit < |NAMES| && NAMES[bit] == name && Pow2(bit) == power
    ensures name in Flags(mask) && (Flags(mask)[name] <==> mask / power % 2 == 1)
  {
    FlagsAt(mask);
  }

  predicate IsBit(flags: map<string, bool>, name: string, mask: nat, power: nat)
    requires power > 0
  {
    name in flags && (flags[name] <==> mask / power % 2 == 1)
  }

  /** The names of the low byte, and the bit of the mask that each stands for. */
  lemma FlagsByName(mask: nat)
    ensures var flags := Flags(mask);
            && IsBit(flags, "Powered", mask, 1)
            && IsBit(flags, "Connectable", mask, 2)
            && IsBit(flags, "Fast Connectable", mask, 4)
            && IsBit(flags, "Discoverable", mask, 8)
            && IsBit(flags, "Bondable", mask, 16)
            && IsBit(flags, "Link Level Security", mask, 32)
            && IsBit(flags, "SSP", mask, 64)
            && IsBit(flags, "BREDR", mask, 128)
  {
    Powers();
    FlagOf(mask, 0, "Powered", 1);
    FlagOf(mask, 1, "Connectable", 2);
    FlagOf(mask, 2, "Fast Connectable", 4);
    FlagOf(mask, 3, "Discoverable", 8);
    FlagOf(mask, 4, "Bondable", 16);
    FlagOf(mask, 5, "Link Level Security", 32);
    FlagOf(mask, 6, "SSP", 64);
    FlagOf(mask, 7, "BREDR", 128);
  }

  /** The names of the second byte. */
  lemma FlagsByNameHigh(mask: nat)
    ensures var flags := Flags(mask);
            && IsBit(flags, "HS", mask, 256)
            && IsBit(flags, "LE", mask, 512)
            && IsBit(flags, "Advertising", mask, 1024)
            && IsBit(flags, "SC", mask, 2048)
            && IsBit(flags, "Debug Keys", mask, 4096)
            && IsBit(flags, "Privacy", mask, 8192)
            && IsBit(flags, "Controller Configuration", mask, 16384)
            && IsBit(flags, "Static Address", mask, 32768)
  {
    Powers();
    FlagOf(mask, 8, "HS", 256);
    FlagOf(mask, 9, "LE", 512);
    FlagOf(mask, 10, "Advertising", 1024);
    FlagOf(mask, 11, "SC", 2048);
    FlagOf(mask, 12, "Debug Keys", 4096);
    FlagOf(mask, 13, "Privacy", 8192);
    FlagOf(mask, 14, "Controller Configuration", 16384);
    FlagOf(mask, 15, "Static Address", 32768);
  }

  lemma BitAbove(mask: nat, n: nat)
    ensures mask % Pow2(n + 1) == mask % Pow2(n) + (if Bit(mask, n) then Pow2(n) else 0)
  {
    Doubled(mask, Pow2(n));
  }

  lemma Doubled(x: nat, p: nat)
    requires p > 0
    ensures x % (2 * p) == x % p + (if x / p % 2 == 1 then p else 0)
  {
    var q, r := x / p, x % p;
    var h, b := q / 2, q % 2;
    assert x == (2 * h + b) * p + r;
    assert (2 * h + b) * p == h * (2 * p) + b * p;
    DivisionIsUnique(x, 2 * p, h, b * p + r);
  }

  lemma SmallMultiple(k: int, d: int)
    requires d > 0 && -d < k * d < d
    ensures k == 0
  {
  }

  lemma DivisionIsUnique(x: int, d: int, q: int, r: int)
    requires d > 0 && 0 <= r < d && x == q * d + r
    ensures x % d == r
  {
    var k := q - x / d;
    assert k * d == q * d - (x / d) * d;
    SmallMultiple(k, d);
  }

  lemma {:induction false} LowBitsDecide(a: nat, b: nat, n: nat)
    ensures a % Pow2(n) == b % Pow2(n) <==> forall i | 0 <= i < n :: Bit(a, i) == Bit(b, i)
  {
    if n > 0 {
      LowBitsDecide(a, b, n - 1);
      BitAbove(a, n - 1);
      BitAbove(b, n - 1);
    }
  }

  /** Two masks give the same flags exactly if their low sixteen bits are the same number. */
  lemma FlagsAreLowBits(a: nat, b: nat)
    ensures Flags(a) == Flags(b) <==> a % 0x1_0000 == b % 0x1_0000
  {
    Powers();
    FlagsAgree(a, b);
    LowBitsDecide(a, b, 16);
  }

  /** `struct.unpack('<I', b)`. */
  function UnpackU32(b: seq<byte>): nat
    requires |b| == 4
  {
    UnpackU16(b[..2]) + 0x1_0000 * UnpackU16(b[2..])
  }

  /** The flags of a new Gap object: all off. */
  const UNREAD: map<string, bool> := map name | name in NAMES :: false

  datatype Command =
    | SetConn | SetNonconn | SetNondiscov | SetGendiscov | SetLimdiscov | PoweredOn | PoweredOff | AdvOn | AdvOff
    | ReadInfo
  {
    /** The setting the command is about. */
    function Setting(): (r: nat)
      ensures r < |NAMES|
    {
      match this
      case SetConn | SetNonconn => CONNECTABLE
      case SetNondiscov | SetGendiscov | SetLimdiscov => DISCOVERABLE
      case AdvOn | AdvOff => ADVERTISING
      case _ => POWERED
    }

    predicate Wanted() {
      SetConn? || SetGendiscov? || SetLimdiscov? || PoweredOn? || AdvOn?
    }

    /** Nothing is sent if the cache already says so. */
    predicate Guarded() {
      SetConn? || SetNonconn? || SetNondiscov? || AdvOn? || AdvOff?
    }

    /** The mask is as the command wants it. */
    predicate Met(mask: nat) {
      ReadInfo? || Bit(mask, Setting()) == Wanted()
    }

    /** The command is skipped, given what the cache says about its setting. */
    predicate SkipsAt(flag: bool) {
      Guarded() && flag == Wanted()
    }
  }

  /** The mask of four bytes, low byte first. */
  lemma MaskBytes(b: seq<byte>)
    requires |b| == 4
    ensures UnpackU32(b) == b[0] as int + 256 * (b[1] as int) + 65536 * (b[2] as int) + 16777216 * (b[3] as int)
  {
  }

  lemma SettingNames()
    ensures NAMES[CONNECTABLE] == "Connectable" && NAMES[DISCOVERABLE] == "Discoverable"
    ensures NAMES[ADVERTISING] == "Advertising" && NAMES[POWERED] == "Powered"
  {
  }

  /** The guard of a command, over the flags it may read. */
  lemma GuardBySetting(cmd: Command, flag: bool)
    ensures cmd.SkipsAt(flag) <==>
            || (cmd.SetConn? && cmd.Setting() == CONNECTABLE && flag)
            || (cmd.SetNonconn? && cmd.Setting() == CONNECTABLE && !flag)
            || (cmd.SetNondiscov? && cmd.Setting() == DISCOVERABLE && !flag)
            || (cmd.AdvOn? && cmd.Setting() == ADVERTISING && flag)
            || (cmd.AdvOff? && cmd.Setting() == ADVERTISING && !flag)
  {
  }

  /** Which commands are guarded, by which flag, and which value makes them skip. */
  lemma GuardsByName(cmd: Command, flags: map<string, bool>)
    requires "Connectable" in flags && "Discoverable" in flags && "Advertising" in flags
    requires NAMES[cmd.Setting()] in flags
    ensures cmd.SkipsAt(flags[NAMES[cmd.Setting()]]) <==>
            || (cmd.SetConn? && flags["Connectable"]) || (cmd.SetNonconn? && !flags["Connectable"])
            || (cmd.SetNondiscov? && !flags["Discoverable"])
            || (cmd.AdvOn? && flags["Advertising"]) || (cmd.AdvOff? && !flags["Advertising"])
  {
    SettingNames();
    GuardBySetting(cmd, flags[NAMES[cmd.Setting()]]);
  }

  /** With the flags of a new Gap object a request to switch something off is skipped, whatever the device does. */
  lemma UnreadCacheMisleads(cmd: Command, device: nat)
    requires cmd.Guarded()
    ensures cmd.SkipsAt(UNREAD[NAMES[cmd.Setting()]]) <==> !cmd.Wanted()
    ensures (cmd.SkipsAt(UNREAD[NAMES[cmd.Setting()]]) ==> cmd.Met(device)) <==>
            cmd.Wanted() || !Bit(device, cmd.Setting())
  {
    assert UNREAD[NAMES[cmd.Setting()]] == false;
  }
}
