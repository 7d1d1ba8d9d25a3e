/** The launch-configuration view (src/LaunchConfigView.ts): typed updates of
    one property of a configuration, and the checks on what the user types
    for a new name and a new transmission speed. The tree view and the
    quick picks are outside the model; the configuration being edited is
    named by its position in the manager's list. */
module LaunchConfigView {
  import opened JsText
  import opened LaunchConfig

  /** The JavaScript value handed to `ModifyConfig`, by its `typeof`. */
  datatype JsValue = JsString(s: string) | JsNumber(n: real) | JsBoolean(b: bool) | JsOther

  /** The property `name` of a configuration, `None` for a name that is
      not one of its six properties. */
  function FieldOf(c: JLinkConfig, name: string): Option<JsValue> {
    if name == "name" then Some(JsString(c.name))
    else if name == "device" then Some(JsString(c.device))
    else if name == "endian" then Some(JsString(c.endian))
    else if name == "protocolType" then Some(JsString(c.protocolType))
    else if name == "transmissionSpeed" then Some(JsNumber(c.transmissionSpeed))
    else if name == "initRegister" then Some(JsBoolean(c.initRegister))
    else None
  }

  predicate SameType(a: JsValue, b: JsValue) {
    (a.JsString? && b.JsString?) || (a.JsNumber? && b.JsNumber?) || (a.JsBoolean? && b.JsBoolean?)
  }

  /** The assignment the `switch` of `ModifyConfig` makes: `None` for an
      unknown property or a value of the wrong type. */
  function SetField(c: JLinkConfig, name: string, val: JsValue): (r: Option<JLinkConfig>)
    ensures r.Some? <==> FieldOf(c, name).Some? && SameType(FieldOf(c, name).value, val)
    ensures r.Some? ==> FieldOf(r.value, name) == Some(val)
    ensures r.Some? ==> forall f :: f != name ==> FieldOf(r.value, f) == FieldOf(c, f)
  {
    match val
    case JsString(s) =>
      if name == "name" then Some(c.(name := s))
      else if name == "device" then Some(c.(device := s))
      else if name == "endian" then Some(c.(endian := s))
      else if name == "protocolType" then Some(c.(protocolType := s))
      else None
    case JsNumber(n) => if name == "transmissionSpeed" then Some(c.(transmissionSpeed := n)) else None
    case JsBoolean(b) => if name == "initRegister" then Some(c.(initRegister := b)) else None
    case JsOther => None
  }

  /** `ModifyConfig`: assigns the property when the value has its type and
      dumps the list; otherwise nothing changes and the warning it emits is
      returned. `at` is the edited configuration's place in the list, `None`
      for an undefined configuration. */
  method ModifyConfig(m: LaunchConfigManager, at: Option<nat>, name: string, val: JsValue) returns (warning: Option<string>)
    requires at.Some? ==> at.value < |m.launchList|
    modifies m
    ensures warning.None? <==> at.Some? && SetField(old(m.launchList)[at.value], name, val).Some?
    ensures warning.None? ==>
      m.launchList == old(m.launchList)[at.value := SetField(old(m.launchList)[at.value], name, val).value]
      && m.dumps == old(m.dumps) + [m.launchList]
    ensures warning.Some? ==> m.launchList == old(m.launchList) && m.dumps == old(m.dumps)
    ensures at.None? ==> warning == Some("Unknown config name: 'undefined'")
    ensures at.Some? && FieldOf(old(m.launchList)[at.value], name).None? ==>
      warning == Some("Unknown property name: '" + name + "'")
    ensures at.Some? && FieldOf(old(m.launchList)[at.value], name).Some? && warning.Some? ==>
      warning == Some("Error property type on : '" + name + "'")
  {
    var errMsg: Option<string> := None;
    if at.Some? {
      var config := m.launchList[at.value];
      var typeError := Some("Error property type on : '" + name + "'");
      if name == "name" {
        if val.JsString? { config := config.(name := val.s); } else { errMsg := typeError; }
      } else if name == "device" {
        if val.JsString? { config := config.(device := val.s); } else { errMsg := typeError; }
      } else if name == "endian" {
        if val.JsString? { config := config.(endian := val.s); } else { errMsg := typeError; }
      } else if name == "protocolType" {
        if val.JsString? { config := config.(protocolType := val.s); } else { errMsg := typeError; }
      } else if name == "transmissionSpeed" {
        if val.JsNumber? { config := config.(transmissionSpeed := val.n); } else { errMsg := typeError; }
      } else if name == "initRegister" {
        if val.JsBoolean? { config := config.(initRegister := val.b); } else { errMsg := typeError; }
      } else {
        errMsg := Some("Unknown property name: '" + name + "'");
      }
      if errMsg.None? {
        m.launchList := m.launchList[at.value := config];
      }
    } else {
      errMsg := Some("Unknown config name: 'undefined'");
    }
    if errMsg.None? {
      m.Update();
    }
    warning := errMsg;
  }

  /** The validator of the speed input box: at least three decimal digits
      whose value is above 100 and at most 10000. */
  function SpeedInputAccepted(input: string): (ok: bool)
    ensures ok <==> |input| >= 3 && AllDigits(input) && 100 < RadixValue(input, 10) <= 10000
  {
    if |input| >= 3 && AllDigits(input) then
      ParseIntUnsignedDigits(input);
      match ParseInt(input, 0)
      case Finite(v) => 100 < v <= 10000
      case NaN => false
    else false
  }

  /** The validator of the name input box: a name some configuration
      already has is a clash. */
  function NameInputAccepted(list: seq<JLinkConfig>, input: string): (ok: bool)
    ensures ok <==> forall j :: 0 <= j < |list| ==> list[j].name != input
  {
    IndexOfName(list, input).None?
  }

  /** A rename the name validator accepted leaves the renamed configuration
      the one found under its new name. */
  lemma {:induction false} RenameFound(list: seq<JLinkConfig>, i: nat, newName: string)
    requires i < |list| && NameInputAccepted(list, newName)
    ensures IndexOfName(list[i := SetField(list[i], "name", JsString(newName)).value], newName) == Some(i)
  {
    var l := list[i := SetField(list[i], "name", JsString(newName)).value];
    assert l[i].name == newName;
    var k := IndexOfName(l, newName).value;
    assert k == i;
  }

  /** The speed input box and `CheckConfig` disagree at both ends: 8000 is
      accepted as input and then fails the check, and 100 passes the check
      but is refused as input. */
  lemma {:induction false} SpeedBoundsDisagree(deviceList: seq<CompletionItem>, c: JLinkConfig)
    requires ValidConfig(deviceList, c)
    ensures SpeedInputAccepted("8000") && CheckConfig(deviceList, c.(transmissionSpeed := 8000.0)).Failed?
    ensures !SpeedInputAccepted("100") && CheckConfig(deviceList, c.(transmissionSpeed := 100.0)).Passed?
  {
    assert RadixValue("8000", 10) == 8000 by {
      assert "8000"[..3] == "800" && "800"[..2] == "80" && "80"[..1] == "8" && "8"[..0] == "";
    }
    assert RadixValue("100", 10) == 100 by {
      assert "100"[..2] == "10" && "10"[..1] == "1" && "1"[..0] == "";
    }
    assert IsInteger(100.0);
  }
}
