/** The J-Link launch configurations (src/LaunchConfig.ts): their checks and
    the list the manager keeps. The device list is read from
    `JLinkDevices.xml` and the list itself is persisted as JSON; here the
    device list is given to the manager, and each `Update` (which dumps the
    list to its file) is recorded in the ghost `dumps`. */
module LaunchConfig {
  import opened JsText
  import opened Seqs

  /** A completion item; only its label (`text`) matters here. */
  datatype CompletionItem = CompletionItem(text: string)

  /** `JLinkConfig`. JavaScript numbers are modelled as reals: NaN and the
      infinities are not part of the model. */
  datatype JLinkConfig = JLinkConfig(
    name: string,
    device: string,
    endian: string,
    protocolType: string,
    transmissionSpeed: real,
    initRegister: bool)

  const ProtocolList: seq<CompletionItem> :=
    [CompletionItem("SWD"), CompletionItem("JTAG"), CompletionItem("cJTAG"), CompletionItem("FINE"), CompletionItem("ICSP")]

  const EndianList: seq<CompletionItem> := [CompletionItem("little"), CompletionItem("big")]

  /** Why `CheckConfig` failed; the message texts themselves are UI string
      constants, so each reason carries only the value it quotes. */
  datatype Reason =
    | NameEmpty
    | UnsupportedChip(device: string)
    | UnsupportedEndian(endian: string)
    | UnsupportedProtocol(protocolType: string)
    | SpeedNotInteger
    | SpeedOutOfRange

  /** `CheckResult`: a pass carries no tag. */
  datatype CheckResult = Passed | Failed(tag: string, reason: Reason)

  /** `findIndex(item => item.label === text) !== -1`. */
  predicate HasLabel(list: seq<CompletionItem>, text: string) {
    exists i :: 0 <= i < |list| && list[i].text == text
  }

  /** Every check passes, stated without the order of the checks. */
  predicate ValidConfig(deviceList: seq<CompletionItem>, config: JLinkConfig) {
    && config.name != ""
    && HasLabel(deviceList, config.device)
    && config.endian in {"little", "big"}
    && config.protocolType in {"SWD", "JTAG", "cJTAG", "FINE", "ICSP"}
    && IsInteger(config.transmissionSpeed)
    && 100.0 <= config.transmissionSpeed < 7000.0
  }

  /** `CheckConfig`: the checks run in the order name, device, endian,
      protocol, integer speed, speed range, and the first that fails gives
      the result. */
  function CheckConfig(deviceList: seq<CompletionItem>, config: JLinkConfig): (r: CheckResult)
    ensures r.Passed? <==> ValidConfig(deviceList, config)
    ensures config.name == "" ==> r == Failed("name", NameEmpty)
    ensures r.Failed? && r.tag == "device" ==> config.name != "" && !HasLabel(deviceList, config.device)
    ensures r.Failed? && r.tag == "endian" ==>
      config.name != "" && HasLabel(deviceList, config.device) && config.endian !in {"little", "big"}
    ensures r.Failed? && r.tag == "protocolType" ==>
      config.name != "" && HasLabel(deviceList, config.device) && config.endian in {"little", "big"}
      && config.protocolType !in {"SWD", "JTAG", "cJTAG", "FINE", "ICSP"}
    ensures r.Failed? && r.tag == "transmissionSpeed" ==>
      && config.name != "" && HasLabel(deviceList, config.device) && config.endian in {"little", "big"}
      && config.protocolType in {"SWD", "JTAG", "cJTAG", "FINE", "ICSP"}
      && (r.reason == SpeedNotInteger <==> !IsInteger(config.transmissionSpeed))
    ensures r.Failed? ==> r.tag in {"name", "device", "endian", "protocolType", "transmissionSpeed"}
  {
    FixedLists(config.endian, config.protocolType);
    if config.name == "" then Failed("name", NameEmpty)
    else if !HasLabel(deviceList, config.device) then Failed("device", UnsupportedChip(config.device))
    else if !HasLabel(EndianList, config.endian) then
      Failed("endian", UnsupportedEndian(config.endian))
    else if !HasLabel(ProtocolList, config.protocolType) then
      Failed("protocolType", UnsupportedProtocol(config.protocolType))
    else if !IsInteger(config.transmissionSpeed) then Failed("transmissionSpeed", SpeedNotInteger)
    else if config.transmissionSpeed < 100.0 || config.transmissionSpeed >= 7000.0 then
      Failed("transmissionSpeed", SpeedOutOfRange)
    else Passed
  }

  /** The two fixed lists hold exactly the labels they are written with. */
  lemma {:induction false} FixedLists(endian: string, protocolType: string)
    ensures HasLabel(EndianList, endian) <==> endian in {"little", "big"}
    ensures HasLabel(ProtocolList, protocolType) <==> protocolType in {"SWD", "JTAG", "cJTAG", "FINE", "ICSP"}
  {
    if endian in {"little", "big"} {
      assert EndianList[if endian == "little" then 0 else 1].text == endian;
    }
    if protocolType in {"SWD", "JTAG", "cJTAG", "FINE", "ICSP"} {
      var k := if protocolType == "SWD" then 0 else if protocolType == "JTAG" then 1
               else if protocolType == "cJTAG" then 2 else if protocolType == "FINE" then 3 else 4;
      assert ProtocolList[k].text == protocolType;
    }
  }

  /** `GetDefault`: a given non-empty name is kept; otherwise the name is
      `default_` and the integer part of a random number below 10000, which
      is passed in as `drawn`. */
  function GetDefault(configName: Option<string>, drawn: nat): (r: JLinkConfig)
    ensures configName.Some? && configName.value != "" ==> r.name == configName.value
    ensures configName.None? || configName.value == "" ==> StartsWith(r.name, "default_")
    ensures r.device == "STM32F103C8" && r.endian == "little" && r.protocolType == "SWD"
    ensures r.transmissionSpeed == 4000.0 && !r.initRegister
  {
    var name := if configName.Some? && configName.value != "" then configName.value else "default_" + NatToString(drawn);
    JLinkConfig(name, "STM32F103C8", "little", "SWD", 4000.0, false)
  }

  /** A default configuration passes `CheckConfig` exactly when its device
      is in the device list: its name is never empty and its other fields
      are always accepted. */
  lemma {:induction false} DefaultPasses(deviceList: seq<CompletionItem>, configName: Option<string>, drawn: nat)
    ensures CheckConfig(deviceList, GetDefault(configName, drawn)).Passed? <==> HasLabel(deviceList, "STM32F103C8")
  {
    var c := GetDefault(configName, drawn);
    assert c.name != "" by {
      if !(configName.Some? && configName.value != "") {
        assert c.name[..8] == "default_";
      }
    }
    assert IsInteger(4000.0);
  }

  /** The first position of a config named `name`, as `findIndex` gives it. */
  function IndexOfName(list: seq<JLinkConfig>, name: string): (r: Option<nat>)
    ensures r.Some? ==> r.value < |list| && list[r.value].name == name
    ensures r.Some? ==> forall j :: 0 <= j < r.value ==> list[j].name != name
    ensures r.None? ==> forall j :: 0 <= j < |list| ==> list[j].name != name
  {
    var r := FirstFrom(0, |list|, NamedAt(list, name));
    assert forall q: nat :: NamedAt(list, name)(q) == (q < |list| && list[q].name == name);
    r
  }

  function NamedAt(list: seq<JLinkConfig>, name: string): nat -> bool {
    (q: nat) => q < |list| && list[q].name == name
  }

  /** The first config of `list` with that name removed; the list as it
      was when there is none. */
  function WithoutName(list: seq<JLinkConfig>, name: string): seq<JLinkConfig> {
    match IndexOfName(list, name)
    case None => list
    case Some(i) => list[..i] + list[i + 1..]
  }

  class LaunchConfigManager {
    const deviceList: seq<CompletionItem>
    var launchList: seq<JLinkConfig>
    /** The lists written out by each `Update`, oldest first. */
    ghost var dumps: seq<seq<JLinkConfig>>

    /** The configuration file's list is `stored`, or none when the file
        does not exist: then one default configuration named `New` is added
        and written out. */
    constructor (deviceList: seq<CompletionItem>, stored: Option<seq<JLinkConfig>>)
      ensures this.deviceList == deviceList
      ensures stored.Some? ==> launchList == stored.value && dumps == []
      ensures stored.None? ==> launchList == [GetDefault(Some("New"), 0)] && launchList[0].name == "New"
      ensures stored.None? ==> dumps == [launchList]
    {
      this.deviceList := deviceList;
      launchList := [];
      dumps := [];
      new;
      if stored.None? {
        AddNewConfig(Some("New"), 0);
      } else {
        launchList := stored.value;
      }
    }

    /** `GetConfigByName`: the first config with exactly that name. */
    function GetConfigByName(name: string): (r: Option<JLinkConfig>)
      reads this
      ensures r.None? <==> forall j :: 0 <= j < |launchList| ==> launchList[j].name != name
      ensures r.Some? ==> r.value.name == name && r.value in launchList
      ensures r.Some? ==> exists i :: 0 <= i < |launchList| && launchList[i] == r.value
                                      && forall j :: 0 <= j < i ==> launchList[j].name != name
    {
      match IndexOfName(launchList, name)
      case None => None
      case Some(i) => Some(launchList[i])
    }

    /** `AddNewConfig`: one default config appended, then the list dumped. */
    method AddNewConfig(configName: Option<string>, drawn: nat)
      modifies this
      ensures launchList == old(launchList) + [GetDefault(configName, drawn)]
      ensures dumps == old(dumps) + [launchList]
    {
      launchList := launchList + [GetDefault(configName, drawn)];
      Update();
    }

    /** `DeleteConfig`: the first config with the same name is spliced out
        and the list dumped; with no such config nothing happens. */
    method DeleteConfig(config: JLinkConfig)
      modifies this
      ensures launchList == WithoutName(old(launchList), config.name)
      ensures IndexOfName(old(launchList), config.name).None? ==> dumps == old(dumps)
      ensures IndexOfName(old(launchList), config.name).Some? ==> dumps == old(dumps) + [launchList]
    {
      var index := IndexOfName(launchList, config.name);
      if index.Some? {
        launchList := launchList[..index.value] + launchList[index.value + 1..];
        Update();
      }
    }

    method Update()
      modifies this`dumps
      ensures dumps == old(dumps) + [launchList]
    {
      dumps := dumps + [launchList];
    }
  }

  /** Deleting removes exactly one config, the first with that name, and
      keeps the others in order. */
  lemma {:induction false} WithoutNameRemovesFirst(list: seq<JLinkConfig>, name: string)
    ensures IndexOfName(list, name).None? ==> WithoutName(list, name) == list
    ensures IndexOfName(list, name).Some? ==>
      |WithoutName(list, name)| == |list| - 1
      && multiset(WithoutName(list, name)) + multiset{list[IndexOfName(list, name).value]} == multiset(list)
  {
    match IndexOfName(list, name)
    case None =>
    case Some(i) =>
      assert list == list[..i] + [list[i]] + list[i + 1..];
  }

  /** A config added under a name no other config has is the one found
      under that name, and deleting it gives the old list back. */
  lemma {:induction false} AddThenDelete(list: seq<JLinkConfig>, name: string, drawn: nat)
    requires name != "" && forall j :: 0 <= j < |list| ==> list[j].name != name
    ensures IndexOfName(list + [GetDefault(Some(name), drawn)], name) == Some(|list|)
    ensures WithoutName(list + [GetDefault(Some(name), drawn)], name) == list
  {
    var l := list + [GetDefault(Some(name), drawn)];
    assert l[|list|].name == name;
    var i := IndexOfName(l, name).value;
    assert i == |list|;
    assert l[..i] == list;
  }
}
