/** Choosing a central and a peripheral device (projects/android/iutctl.py, cron/common.py). */
module Devices {
  import opened Bytes

  datatype Pair = Pair(central: Option<string>, peripheral: Option<string>)

  /** Two devices that are not the same one. */
  predicate TwoAmong(available: seq<string>) {
    exists i, j | 0 <= i < j < |available| :: available[i] != available[j]
  }

  /** The index of the first serial other than the given one, or the length. */
  predicate FirstOther(available: seq<string>, serial: Option<string>, k: nat) {
    && k <= |available|
    && (forall i | 0 <= i < k :: Some(available[i]) == serial)
    && (k < |available| ==> Some(available[k]) != serial)
  }

  /** The two loops: the first device that does not have the other role. */
  method PickOther(available: seq<string>, serial: Option<string>) returns (picked: Option<string>)
    ensures picked.Some? ==> picked.value in available && picked != serial
    ensures picked.Some? ==> exists k | 0 <= k < |available| ::
              FirstOther(available, serial, k) && picked.value == available[k]
    ensures picked.None? <==> forall s <- available :: Some(s) == serial
  {
    picked := None;
    for i := 0 to |available|
      invariant picked.None? && forall j | 0 <= j < i :: Some(available[j]) == serial
    {
      if serial != Some(available[i]) {
        assert FirstOther(available, serial, i);
        picked := Some(available[i]);
        break;
      }
    }
  }

  /** `AndroidCtl.from_serials_or_auto`, given what adb lists. */
  method FromSerialsOrAuto(available: seq<string>, wantedCentral: Option<string>, wantedPeripheral: Option<string>)
      returns (r: Pair)
    // Only listed devices, and never one device for both roles.
    ensures r.central.Some? ==> r.central.value in available
    ensures r.peripheral.Some? ==> r.peripheral.value in available
    ensures r.central.Some? && r.peripheral.Some? ==> r.central != r.peripheral
    // A full pair exactly if there are two devices, and one role filled exactly if there is one.
    ensures r.central.Some? && r.peripheral.Some? <==> TwoAmong(available)
    ensures r.central.Some? || r.peripheral.Some? <==> available != []
    // Wishes are honoured, but for a peripheral that is wanted as the central too.
    ensures wantedCentral.Some? && wantedCentral.value in available ==> r.central == wantedCentral
    ensures wantedPeripheral.Some? && wantedPeripheral.value in available && wantedPeripheral != wantedCentral ==>
              r.peripheral == wantedPeripheral
    // Otherwise the first device listed that has no other role.
    ensures r.central.Some? && r.central != wantedCentral ==>
              exists k | 0 <= k < |available| :: FirstOther(available, wantedPeripheral, k) &&
                  r.central.value == available[k]
    ensures r.peripheral.Some? && r.peripheral != wantedPeripheral ==>
              exists k | 0 <= k < |available| :: FirstOther(available, r.central, k) &&
                  r.peripheral.value == available[k]
  {
    var central, peripheral: Option<string> := None, None;
    var centralSerial := wantedCentral;
    if |available| == 0 {
      return Pair(None, None);
    }
    if centralSerial.Some? && centralSerial.value in available {
      central := centralSerial;
    }
    if wantedPeripheral.Some? && wantedPeripheral.value in available && wantedPeripheral != centralSerial {
      peripheral := wantedPeripheral;
    }
    if central.None? {
      central := PickOther(available, wantedPeripheral);
      if central.Some? {
        centralSerial := central;
      }
    }
    if peripheral.None? {
      peripheral := PickOther(available, centralSerial);
    }
    assert available[0] in available;
    if i, j :| 0 <= i < j < |available| && available[i] != available[j] {
      assert available[i] in available && available[j] in available;
    }
    return Pair(central, peripheral);
  }

  datatype Iut = Iut(name: string, serial: string, supportedOs: seq<string>)
  datatype Config = Config(iuts: seq<Iut>, projectPaths: map<string, string>)
  datatype RunOptions = RunOptions(rerunReverse: bool, central: Iut, peripheral: Iut, flashPeripheral: bool,
                                   projectPath: string)

  /** The devices for an operating system, in the order of the configuration. */
  function Suitable(iuts: seq<Iut>, os: string): seq<Iut> {
    if iuts == [] then []
    else Suitable(iuts[..|iuts| - 1], os) + if os in iuts[|iuts| - 1].supportedOs then [iuts[|iuts| - 1]] else []
  }

  lemma {:induction false} SuitableExact(iuts: seq<Iut>, os: string, iut: Iut)
    ensures iut in Suitable(iuts, os) <==> iut in iuts && os in iut.supportedOs
    decreases |iuts|
  {
    if iuts != [] {
      SuitableExact(iuts[..|iuts| - 1], os, iut);
      assert iuts == iuts[..|iuts| - 1] + [iuts[|iuts| - 1]];
    }
  }

  predicate DistinctSerials(iuts: seq<Iut>) {
    forall i, j | 0 <= i < j < |iuts| :: iuts[i].serial != iuts[j].serial
  }

  lemma {:induction false} SuitableDistinct(iuts: seq<Iut>, os: string)
    requires DistinctSerials(iuts)
    ensures DistinctSerials(Suitable(iuts, os))
    decreases |iuts|
  {
    if iuts != [] {
      var some := iuts[..|iuts| - 1];
      SuitableDistinct(some, os);
      forall i | 0 <= i < |Suitable(some, os)| ensures Suitable(some, os)[i].serial != iuts[|iuts| - 1].serial {
        SuitableExact(some, os, Suitable(some, os)[i]);
      }
    }
  }

  /** `get_suitable_iuts`. */
  method GetSuitableIuts(iuts: seq<Iut>, os: string) returns (r: Result<seq<Iut>>)
    ensures r == if Suitable(iuts, os) == [] then Err(ValueError) else Ok(Suitable(iuts, os))
  {
    var suitable: seq<Iut> := [];
    for i := 0 to |iuts|
      invariant suitable == Suitable(iuts[..i], os)
    {
      assert iuts[..i + 1][..i] == iuts[..i];
      if os in iuts[i].supportedOs {
        suitable := suitable + [iuts[i]];
      }
    }
    assert iuts[..|iuts|] == iuts;
    return if |suitable| == 0 then Err(ValueError) else Ok(suitable);
  }

  /** There are two different devices for the two roles. */
  predicate CanPair(iuts: seq<Iut>, os: string, peripheralOs: string) {
    exists c, p | c in iuts && p in iuts :: os in c.supportedOs && peripheralOs in p.supportedOs && c.serial != p.serial
  }

  /** What the selector looks at: the first two devices of each list. */
  predicate Enough(s: seq<Iut>, p: seq<Iut>, sameOs: bool) {
    if sameOs then |s| > 1
    else s != [] && p != [] && (s[0].serial != p[0].serial || |s| > 1 || |p| > 1)
  }

  lemma TwoInLists(iuts: seq<Iut>, os: string, peripheralOs: string)
    ensures CanPair(iuts, os, peripheralOs) <==>
            exists c, d | c in Suitable(iuts, os) && d in Suitable(iuts, peripheralOs) :: c.serial != d.serial
  {
    var s, p := Suitable(iuts, os), Suitable(iuts, peripheralOs);
    forall x ensures (x in s <==> x in iuts && os in x.supportedOs) &&
        (x in p <==> x in iuts && peripheralOs in x.supportedOs) {
      SuitableExact(iuts, os, x);
      SuitableExact(iuts, peripheralOs, x);
    }
    if CanPair(iuts, os, peripheralOs) {
      var c, d :| c in iuts && d in iuts && os in c.supportedOs && peripheralOs in d.supportedOs &&
          c.serial != d.serial;
      assert c in s && d in p;
    }
  }

  /** Two different devices are never missed; with distinct serials that is all that the selector finds. */
  lemma PairsExist(iuts: seq<Iut>, os: string, peripheralOs: string)
    ensures var found := Enough(Suitable(iuts, os), Suitable(iuts, peripheralOs), os == peripheralOs);
            && (CanPair(iuts, os, peripheralOs) ==> found)
            && (DistinctSerials(iuts) && found ==> CanPair(iuts, os, peripheralOs))
  {
    var s, p := Suitable(iuts, os), Suitable(iuts, peripheralOs);
    TwoInLists(iuts, os, peripheralOs);
    if DistinctSerials(iuts) && Enough(s, p, os == peripheralOs) {
      SuitableDistinct(iuts, os);
      SuitableDistinct(iuts, peripheralOs);
      DifferByOne(s, p, os == peripheralOs);
    }
  }

  lemma DifferByOne(s: seq<Iut>, p: seq<Iut>, sameOs: bool)
    requires DistinctSerials(s) && DistinctSerials(p) && Enough(s, p, sameOs) && (sameOs ==> s == p)
    ensures exists c, d | c in s && d in p :: c.serial != d.serial
  {
    assert s[0] in s && p[0] in p;
    if |s| > 1 {
      assert s[1] in s && s[0].serial != s[1].serial;
    }
    if |p| > 1 {
      assert p[1] in p && p[0].serial != p[1].serial;
    }
  }

  /** Both roles go to the first devices of their lists, but where that would be one device. */
  predicate IsEarly(s: seq<Iut>, p: seq<Iut>, o: RunOptions) {
    && |s| > 0 && |p| > 0
    && if !o.rerunReverse then |s| > 1 && o.central == s[0] && o.peripheral == s[1]
       else if s[0].serial != p[0].serial then o.central == s[0] && o.peripheral == p[0]
       else if |s| > 1 then o.central == s[1] && o.peripheral == p[0]
       else |p| > 1 && o.central == s[0] && o.peripheral == p[1]
  }

  /** The devices at the front of the lists give two different ones. */
  predicate FrontDiffers(s: seq<Iut>, p: seq<Iut>, sameOs: bool) {
    if sameOs then |s| > 1 && s[0].serial != s[1].serial
    else
      && s != [] && p != []
      && (s[0].serial != p[0].serial
          || (|s| > 1 && s[1].serial != p[0].serial)
          || (|s| == 1 && |p| > 1 && p[1].serial != s[0].serial))
  }

  /** Exactly when the chosen devices differ, whatever serials are configured. */
  lemma EarlyDiffer(s: seq<Iut>, p: seq<Iut>, o: RunOptions)
    requires IsEarly(s, p, o) && (!o.rerunReverse ==> s == p)
    ensures o.central.serial != o.peripheral.serial <==> FrontDiffers(s, p, !o.rerunReverse)
    ensures DistinctSerials(s) && DistinctSerials(p) ==> FrontDiffers(s, p, !o.rerunReverse)
  {
  }

  /** Two entries with one serial take both roles, although another device is configured. */
  lemma SharedSerialTakesBothRoles()
    ensures exists iuts: seq<Iut>, os: string ::
              && CanPair(iuts, os, os) && |Suitable(iuts, os)| > 1
              && !FrontDiffers(Suitable(iuts, os), Suitable(iuts, os), true)
  {
    var a, b, c := Iut("a", "1", ["x"]), Iut("b", "1", ["x"]), Iut("c", "2", ["x"]);
    var iuts := [a, b, c];
    assert iuts[..2] == [a, b] && [a, b][..1] == [a] && [a][..0] == [];
    assert Suitable([a], "x") == [a];
    assert Suitable([a, b], "x") == [a, b];
    assert Suitable(iuts, "x") == iuts;
    assert a in iuts && c in iuts && CanPair(iuts, "x", "x");
  }

  /** `create_run_options`, without the text of the command line. */
  method CreateRunOptions(cfg: Config, os: string, against: Option<string>) returns (r: Result<RunOptions>)
    ensures var peripheralOs := if against.Some? then against.value else os;
            var found := Enough(Suitable(cfg.iuts, os), Suitable(cfg.iuts, peripheralOs), os == peripheralOs);
            && (CanPair(cfg.iuts, os, peripheralOs) ==> found)
            && (DistinctSerials(cfg.iuts) && found ==> CanPair(cfg.iuts, os, peripheralOs))
            && (r.Ok? <==> found && os in cfg.projectPaths)
            && (r.Err? ==> r.error == if found then KeyError else ValueError)
            && (r.Ok? ==>
                  var o := r.value;
                  && o.central in cfg.iuts && os in o.central.supportedOs
                  && o.peripheral in cfg.iuts && peripheralOs in o.peripheral.supportedOs
                  && (o.central.serial != o.peripheral.serial <==>
                      FrontDiffers(Suitable(cfg.iuts, os), Suitable(cfg.iuts, peripheralOs), os == peripheralOs))
                  && (DistinctSerials(cfg.iuts) ==> o.central.serial != o.peripheral.serial)
                  && o.rerunReverse == (peripheralOs != os) && o.flashPeripheral == (peripheralOs == os)
                  && o.projectPath == cfg.projectPaths[os]
                  && IsEarly(Suitable(cfg.iuts, os), Suitable(cfg.iuts, peripheralOs), o))
  {
    var peripheralOs := if against.Some? then against.value else os;
    PairsExist(cfg.iuts, os, peripheralOs);
    var suitableForPr :- GetSuitableIuts(cfg.iuts, os);
    var central, peripheral: Iut;
    if peripheralOs != os {
      var suitableForPeripheral :- GetSuitableIuts(cfg.iuts, peripheralOs);
      central, peripheral := suitableForPr[0], suitableForPeripheral[0];
      if central.serial == peripheral.serial {
        if |suitableForPr| > 1 {
          central := suitableForPr[1];
        } else if |suitableForPeripheral| > 1 {
          peripheral := suitableForPeripheral[1];
        } else {
          return Err(ValueError);
        }
      }
    } else {
      if |suitableForPr| < 2 {
        return Err(ValueError);
      }
      central, peripheral := suitableForPr[0], suitableForPr[1];
    }
    SuitableExact(cfg.iuts, os, central);
    SuitableExact(cfg.iuts, peripheralOs, peripheral);
    if os !in cfg.projectPaths {
      return Err(KeyError);
    }
    var options := RunOptions(peripheralOs != os, central, peripheral, peripheralOs == os, cfg.projectPaths[os]);
    EarlyDiffer(Suitable(cfg.iuts, os), Suitable(cfg.iuts, peripheralOs), options);
    if DistinctSerials(cfg.iuts) {
      SuitableDistinct(cfg.iuts, os);
      SuitableDistinct(cfg.iuts, peripheralOs);
    }
    return Ok(options);
  }

  /** The suitable devices come in the order of the configuration, with repetitions. */
  lemma {:induction false} SuitableInOrder(a: seq<Iut>, b: seq<Iut>, os: string)
    ensures Suitable(a + b, os) == Suitable(a, os) + Suitable(b, os)
    ensures |a| == 1 ==> Suitable(a, os) == if os in a[0].supportedOs then a else []
    decreases |b|
  {
    if |a| == 1 {
      assert a[..0] == [] && a == [a[0]];
    }
    if b == [] {
      assert a + b == a;
    } else {
      var m := |b| - 1;
      assert (a + b)[..|a| + m] == a + b[..m] && (a + b)[|a| + m] == b[m];
      SuitableInOrder(a, b[..m], os);
    }
  }
}
