/**
 * A stand-in for the SettingsHelper library, which wraps the Windows system
 * settings. The tool only ever talks to one `SettingItem` per setting; what
 * the item answers is the item's state, which the surrounding system may
 * change between calls. Every call answers a `Result`, so a failing call is a
 * value rather than an exception.
 */
module SettingsHelper {
  import opened DotNet

  /** The kind tag of a setting, as the library's enumeration names it. */
  datatype SettingType =
    | Custom | DisplayString | LabeledString | Boolean | Range | String | List | Action | SettingCollection

  /** The enumeration member's name, as `SettingType.ToString()` spells it. */
  function TypeName(t: SettingType): string
  {
    match t
    case Custom => "Custom"
    case DisplayString => "DisplayString"
    case LabeledString => "LabeledString"
    case Boolean => "Boolean"
    case Range => "Range"
    case String => "String"
    case List => "List"
    case Action => "Action"
    case SettingCollection => "SettingCollection"
  }

  /** What one setting answers at a given moment. */
  datatype ItemState = ItemState(
    settingType: SettingType,
    value: Result<Object>,
    description: Result<Object>,
    isEnabled: Result<bool>,
    isApplicable: Result<bool>,
    isSetByGroupPolicy: Result<bool>,
    possibleValues: Result<seq<Object>>,
    writeFault: Option<Exception>,   // a write fails with this exception
    keepsWrites: bool,               // a successful write is what the next read answers
    invokeFault: Option<Exception>)  // an action invocation fails with this exception

  class SettingItem {
    const settingId: string
    var state: ItemState
    var invocations: nat  // completed invocations of the setting's action

    constructor (settingId: string, state: ItemState)
      ensures this.settingId == settingId && this.state == state && invocations == 0
    {
      this.settingId := settingId;
      this.state := state;
      invocations := 0;
    }

    function GetValue(): Result<Object>
      reads this
    {
      state.value
    }

    function GetPossibleValues(): Result<seq<Object>>
      reads this
    {
      state.possibleValues
    }

    method SetValue(v: Object) returns (r: Result<()>)
      modifies this
      ensures r.Err? <==> old(state.writeFault).Some?
      ensures r.Err? ==> r.error == old(state.writeFault).value && state == old(state)
      ensures r.Ok? ==> state == old(if state.keepsWrites then state.(value := Ok(v)) else state)
      ensures invocations == old(invocations)
    {
      match state.writeFault
      case Some(e) =>
        r := Err(e);
      case None =>
        if state.keepsWrites {
          state := state.(value := Ok(v));
        }
        r := Ok(());
    }

    method Invoke() returns (r: Result<()>)
      modifies this
      ensures state == old(state)
      ensures r.Err? <==> state.invokeFault.Some?
      ensures r.Err? ==> r.error == state.invokeFault.value && invocations == old(invocations)
      ensures r.Ok? ==> invocations == old(invocations) + 1
    {
      match state.invokeFault
      case Some(e) =>
        r := Err(e);
      case None =>
        invocations := invocations + 1;
        r := Ok(());
    }
  }
}
