/**
 * The descriptor of one setting (`SettingInfo` and its variants), the
 * failure-safe stringifier, the drop-down converter of list settings and the
 * verb table that the property grid shows as commands.
 *
 * The variants are one class with a `variant` tag: `BooleanSettingInfo`,
 * `RangeSettingInfo` and `ListSettingInfo` carry a value of type `bool`,
 * `int` and `string`, `ActionSettingInfo` carries an action, and the base
 * class carries neither.
 */
module Descriptors {
  import opened DotNet
  import opened SettingsHelper

  datatype Variant =
    | BaseSettingInfo | BooleanSettingInfo | RangeSettingInfo | ListSettingInfo | ActionSettingInfo

  // ---------------------------------------------------------------------------
  // Choosing the variant

  /** The kind part of the name of each class that `Get` can instantiate by name. */
  function KindPart(v: Variant): string
    requires v != BaseSettingInfo
  {
    match v
    case BooleanSettingInfo => "Boolean"
    case RangeSettingInfo => "Range"
    case ListSettingInfo => "List"
    case ActionSettingInfo => "Action"
  }

  /** The type name `Get` builds for a kind, and the full name of each variant class. */
  function QualifiedName(kindPart: string): string
  {
    "WindowsSettingsTool." + kindPart + "SettingInfo"
  }

  /** `Type.GetType(name, false)` over the tool's classes that take a setting id. */
  function TypeByName(name: string): (r: Option<Variant>)
    ensures r.Some? ==> r.value != BaseSettingInfo && QualifiedName(KindPart(r.value)) == name
  {
    if name == QualifiedName("Boolean") then Some(BooleanSettingInfo)
    else if name == QualifiedName("Range") then Some(RangeSettingInfo)
    else if name == QualifiedName("List") then Some(ListSettingInfo)
    else if name == QualifiedName("Action") then Some(ActionSettingInfo)
    else None
  }

  /** The class `Get` picks by building the type name from the kind. */
  function VariantByTypeName(t: SettingType): Variant
  {
    match TypeByName(QualifiedName(TypeName(t)))
    case None => BaseSettingInfo
    case Some(v) => v
  }

  /** The closed dispatch over the kind that replaces the lookup by name. */
  function Dispatch(t: SettingType): (v: Variant)
    ensures v == BooleanSettingInfo <==> t == Boolean
    ensures v == RangeSettingInfo <==> t == Range
    ensures v == ListSettingInfo <==> t == List
    ensures v == ActionSettingInfo <==> t == Action
  {
    match t
    case Boolean => BooleanSettingInfo
    case Range => RangeSettingInfo
    case List => ListSettingInfo
    case Action => ActionSettingInfo
    case _ => BaseSettingInfo
  }

  /** Two type names built from different kind parts differ. */
  lemma QualifiedNameInjective(a: string, b: string)
    ensures QualifiedName(a) == QualifiedName(b) ==> a == b
  {
    var p := |"WindowsSettingsTool."|;
    var qa, qb := QualifiedName(a), QualifiedName(b);
    assert qa[p..|qa| - |"SettingInfo"|] == a;
    assert qb[p..|qb| - |"SettingInfo"|] == b;
  }

  /** The closed dispatch picks the same class as the lookup by type name, for every kind. */
  lemma DispatchAgreesWithTypeLookup(t: SettingType)
    ensures Dispatch(t) == VariantByTypeName(t)
    ensures t !in {Boolean, Range, List, Action} ==> Dispatch(t) == BaseSettingInfo
  {
    var kindPart := TypeName(t);
    QualifiedNameInjective(kindPart, "Boolean");
    QualifiedNameInjective(kindPart, "Range");
    QualifiedNameInjective(kindPart, "List");
    QualifiedNameInjective(kindPart, "Action");
  }

  // ---------------------------------------------------------------------------
  // Typed values

  datatype ValueType = BoolType | IntType | StringType

  /** The `TValue` of `ValueSettingInfo<TValue>`, for the variants that derive from it. */
  function ValueTypeOf(v: Variant): Option<ValueType>
  {
    match v
    case BooleanSettingInfo => Some(BoolType)
    case RangeSettingInfo => Some(IntType)
    case ListSettingInfo => Some(StringType)
    case _ => None
  }

  /** `value is TValue`; the null reference is of no type. */
  predicate HasType(t: ValueType, o: Object)
  {
    match t
    case BoolType => o.BoolObj?
    case IntType => o.Int32Obj?
    case StringType => o.StringObj?
  }

  /** `default(TValue)`. */
  function Default(t: ValueType): Object
  {
    match t
    case BoolType => BoolObj(false)
    case IntType => Int32Obj(0)
    case StringType => Null
  }

  /** A value a `TValue` variable can hold. */
  predicate Fits(t: ValueType, o: Object)
  {
    HasType(t, o) || o == Default(t)
  }

  /** `(value is TValue) ? (TValue)value : default(TValue)`. */
  function Coerce(t: ValueType, o: Object): (r: Object)
    ensures Fits(t, r)
    ensures HasType(t, o) ==> r == o
    ensures !HasType(t, o) ==> r == Default(t)
  {
    if HasType(t, o) then o else Default(t)
  }

  /** Coercion leaves exactly the values a `TValue` can hold as they are. */
  lemma CoerceKeepsFittingValues(t: ValueType, o: Object)
    ensures Coerce(t, o) == o <==> Fits(t, o)
    ensures Coerce(t, Coerce(t, o)) == Coerce(t, o)
  {
  }

  // ---------------------------------------------------------------------------
  // Failure-safe stringification

  /**
   * `GetString(call)`: the call's result as text, `"<null>"` for null, and for
   * a call that throws the message of its inner exception, or its own message
   * when it has none. It never fails.
   */
  function GetString(call: Result<Object>): (r: string)
    ensures call == Ok(Null) ==> r == "<null>"
    ensures call.Ok? && call.value != Null ==> r == ToString(call.value)
    ensures call.Err? && call.error.inner.Some? ==> r == call.error.inner.value.message
    ensures call.Err? && call.error.inner.None? ==> r == call.error.message
  {
    match call
    case Ok(o) => if o != Null then ToString(o) else "<null>"
    case Err(e) => InnerOrSelf(e).message
  }

  /** Only one level of inner exception is unwrapped: deeper causes are not reached. */
  lemma GetStringUnwrapsOneLevel(outer: string, middle: string, innermost: string)
    ensures GetString(Err(Exception(outer, Some(Exception(middle, Some(Exception(innermost, None))))))) == middle
  {
  }

  /** The possible values of a list setting: the fetched list, or the failure's message alone. */
  function PossibleValuesOrMessage(fetched: Result<seq<Object>>): (r: seq<Object>)
    ensures fetched.Ok? ==> r == fetched.value
    ensures fetched.Err? ==> r == [StringObj(InnerOrSelf(fetched.error).message)]
  {
    match fetched
    case Ok(vs) => vs
    case Err(e) => [StringObj(InnerOrSelf(e).message)]
  }

  // ---------------------------------------------------------------------------
  // Verbs

  /** A public instance method and the `Browsable` values of its `BrowsableAttribute`s. */
  datatype PublicMethod = PublicMethod(name: string, browsable: seq<bool>)

  /** A command of the property grid, named by its text. */
  datatype DesignerVerb = DesignerVerb(text: string)

  /** The public instance methods every descriptor has from `SettingInfo` and `object`. */
  function InheritedMethods(): (r: seq<PublicMethod>)
    ensures forall k :: 0 <= k < |r| ==> r[k].browsable == []
  {
    var names := [
      "get_SettingId", "get_SettingType", "get_SettingItem", "get_Description", "get_IsEnabled",
      "get_IsApplicable", "get_IsSetByGroupPolicy", "get_Id", "get_Site", "set_Site",
      "add_Disposed", "remove_Disposed", "Dispose", "ToString", "Equals", "GetHashCode", "GetType"];
    seq(|names|, k requires 0 <= k < |names| => PublicMethod(names[k], []))
  }

  /** The public instance methods each class declares itself. */
  function DeclaredMethods(v: Variant): seq<PublicMethod>
  {
    match v
    case BaseSettingInfo => []
    case BooleanSettingInfo => [PublicMethod("get_Value", []), PublicMethod("set_Value", [])]
    case RangeSettingInfo => [PublicMethod("get_Value", []), PublicMethod("set_Value", [])]
    case ListSettingInfo =>
      [PublicMethod("get_Value", []), PublicMethod("set_Value", []), PublicMethod("get_PossibleValues", [])]
    case ActionSettingInfo => [PublicMethod("Invoke", [true])]
  }

  /** What `GetMethods(Public | Instance)` finds on each class, in the order it is declared here. */
  function PublicMethods(v: Variant): seq<PublicMethod>
  {
    DeclaredMethods(v) + InheritedMethods()
  }

  /** A method becomes a verb when it has `Browsable` attributes and all of them say true. */
  predicate IsVerb(m: PublicMethod)
  {
    |m.browsable| > 0 && forall k :: 0 <= k < |m.browsable| ==> m.browsable[k]
  }

  /** The methods that become verbs, in order. */
  function VerbMethods(ms: seq<PublicMethod>): (r: seq<PublicMethod>)
    ensures forall m :: m in r <==> m in ms && IsVerb(m)
  {
    if ms == [] then []
    else VerbMethods(ms[..|ms| - 1]) + (if IsVerb(ms[|ms| - 1]) then [ms[|ms| - 1]] else [])
  }

  /** The name-to-method table the verbs are looked up in. */
  function VerbTable(ms: seq<PublicMethod>): (t: map<string, PublicMethod>)
    ensures forall name :: name in t <==> exists m :: m in ms && m.name == name
    ensures forall name :: name in t ==> t[name] in ms && t[name].name == name
  {
    if ms == [] then map[]
    else VerbTable(ms[..|ms| - 1])[ms[|ms| - 1].name := ms[|ms| - 1]]
  }

  lemma VerbStep(ms: seq<PublicMethod>, k: nat)
    requires k < |ms|
    ensures IsVerb(ms[k]) ==> VerbMethods(ms[..k + 1]) == VerbMethods(ms[..k]) + [ms[k]]
    ensures !IsVerb(ms[k]) ==> VerbMethods(ms[..k + 1]) == VerbMethods(ms[..k])
    ensures VerbNames(VerbMethods(ms[..k]) + [ms[k]]) == VerbNames(VerbMethods(ms[..k])) + [DesignerVerb(ms[k].name)]
    ensures VerbTable(VerbMethods(ms[..k]) + [ms[k]]) == VerbTable(VerbMethods(ms[..k]))[ms[k].name := ms[k]]
  {
    assert ms[..k + 1][..k] == ms[..k];
    assert VerbMethods(ms[..k]) + [] == VerbMethods(ms[..k]);
    var xs := VerbMethods(ms[..k]) + [ms[k]];
    assert xs[..|xs| - 1] == VerbMethods(ms[..k]);
  }

  /** The table's keys are the texts of the verbs. */
  lemma VerbKeys(ms: seq<PublicMethod>)
    ensures VerbTable(ms).Keys == set verb | verb in VerbNames(ms) :: verb.text
  {
    var names := VerbNames(ms);
    forall name | name in VerbTable(ms) ensures name in set verb | verb in names :: verb.text {
      var m :| m in ms && m.name == name;
      var k :| 0 <= k < |ms| && ms[k] == m;
      assert names[k] in names;
    }
  }

  function VerbNames(ms: seq<PublicMethod>): (r: seq<DesignerVerb>)
    ensures |r| == |ms| && forall k :: 0 <= k < |ms| ==> r[k] == DesignerVerb(ms[k].name)
  {
    seq(|ms|, k requires 0 <= k < |ms| => DesignerVerb(ms[k].name))
  }

  /** An action setting has exactly the verb "Invoke"; every other variant has none. */
  lemma VerbsOfEachVariant(v: Variant)
    ensures VerbMethods(PublicMethods(v)) == if v == ActionSettingInfo then [PublicMethod("Invoke", [true])] else []
  {
    var declared := DeclaredMethods(v);
    var ms := PublicMethods(v);
    assert ms[..|declared|] == declared;
    VerbMethodsOfPlainSuffix(ms, |declared|);
    if v == ActionSettingInfo {
      assert declared[..0] == [];
    } else if declared != [] {
      VerbMethodsOfPlainSuffix(declared, 0);
    }
  }

  lemma {:induction false} VerbMethodsOfPlainSuffix(ms: seq<PublicMethod>, n: nat)
    requires n <= |ms|
    requires forall k :: n <= k < |ms| ==> ms[k].browsable == []
    ensures VerbMethods(ms) == VerbMethods(ms[..n])
    decreases |ms|
  {
    if |ms| > n {
      assert ms[..|ms| - 1][..n] == ms[..n];
      VerbMethodsOfPlainSuffix(ms[..|ms| - 1], n);
    } else {
      assert ms[..n] == ms;
    }
  }

  // ---------------------------------------------------------------------------
  // The descriptor

  class SettingInfo {
    const settingId: string
    const variant: Variant
    const settingType: SettingType   // read from the store item, not from the kind `Get` was given
    const item: SettingItem
    const possibleValues: seq<Object>  // `ListSettingInfo.PossibleValues`, fetched once
    var storedValue: Object
    var loaded: bool

    /** The value cache: never marked loaded, and holding a value of the variant's type. */
    ghost predicate Valid()
      reads this
    {
      && !loaded
      && (ValueTypeOf(variant).Some? ==> Fits(ValueTypeOf(variant).value, storedValue))
      && (variant != ListSettingInfo ==> possibleValues == [])
    }

    constructor (settingId: string, variant: Variant, state: ItemState)
      ensures Valid() && fresh(item)
      ensures this.settingId == settingId && this.variant == variant
      ensures item.settingId == settingId && item.state == state && item.invocations == 0
      ensures settingType == state.settingType
      ensures ValueTypeOf(variant).Some? ==> storedValue == Default(ValueTypeOf(variant).value)
      ensures variant == ListSettingInfo ==> possibleValues == PossibleValuesOrMessage(state.possibleValues)
    {
      var it := new SettingItem(settingId, state);
      this.settingId := settingId;
      this.variant := variant;
      item := it;
      settingType := it.state.settingType;
      possibleValues := if variant == ListSettingInfo then PossibleValuesOrMessage(it.GetPossibleValues()) else [];
      storedValue := match ValueTypeOf(variant) case Some(t) => Default(t) case None => Null;
      loaded := false;
    }

    /** `SettingInfo.Get`: the descriptor of the class the kind selects, over a fresh store item. */
    static method Get(settingId: string, settingType: SettingType, state: ItemState) returns (info: SettingInfo)
      ensures fresh(info) && fresh(info.item) && info.Valid()
      ensures info.settingId == settingId && info.variant == Dispatch(settingType)
      ensures info.item.settingId == settingId && info.item.state == state && info.item.invocations == 0
      ensures info.settingType == state.settingType
      ensures ValueTypeOf(info.variant).Some? ==> info.storedValue == Default(ValueTypeOf(info.variant).value)
      ensures info.variant == ListSettingInfo ==> info.possibleValues == PossibleValuesOrMessage(state.possibleValues)
    {
      info := new SettingInfo(settingId, Dispatch(settingType), state);
    }

    /** `Description`: always a string, whatever the store does. */
    function Description(): (r: string)
      reads item
    {
      GetString(item.state.description)
    }

    function IsEnabled(): Result<bool>
      reads item
    {
      item.state.isEnabled
    }

    function IsApplicable(): Result<bool>
      reads item
    {
      item.state.isApplicable
    }

    function IsSetByGroupPolicy(): Result<bool>
      reads item
    {
      item.state.isSetByGroupPolicy
    }

    /** `Value` get: since `loaded` stays false, every read asks the store again. */
    method GetValue() returns (r: Result<Object>)
      requires Valid() && ValueTypeOf(variant).Some?
      modifies this
      ensures Valid()
      ensures r.Ok? <==> item.GetValue().Ok?
      ensures r.Ok? ==> r.value == Coerce(ValueTypeOf(variant).value, item.GetValue().value) && storedValue == r.value
      ensures r.Err? ==> r.error == item.GetValue().error && storedValue == old(storedValue)
    {
      if !loaded {
        var value := item.GetValue();
        match value
        case Err(e) =>
          return Err(e);
        case Ok(v) =>
          storedValue := Coerce(ValueTypeOf(variant).value, v);
      }
      r := Ok(storedValue);
    }

    /** `Value` set: clears `loaded`, then hands the value to the store. */
    method SetValue(v: Object) returns (r: Result<()>)
      requires Valid() && ValueTypeOf(variant).Some? && Fits(ValueTypeOf(variant).value, v)
      modifies this, item
      ensures Valid() && !loaded && storedValue == old(storedValue)
      ensures r.Err? <==> old(item.state.writeFault).Some?
      ensures r.Err? ==> r.error == old(item.state.writeFault).value && item.state == old(item.state)
      ensures r.Ok? ==> item.state == old(if item.state.keepsWrites then item.state.(value := Ok(v)) else item.state)
      ensures item.invocations == old(item.invocations)
    {
      loaded := false;
      r := item.SetValue(v);
    }

    /** `ActionSettingInfo.Invoke`: runs the setting's action; a failure reaches the caller. */
    method Invoke() returns (r: Result<()>)
      requires variant == ActionSettingInfo
      modifies item
      ensures item.state == old(item.state)
      ensures r.Err? <==> item.state.invokeFault.Some?
      ensures r.Err? ==> r.error == item.state.invokeFault.value && item.invocations == old(item.invocations)
      ensures r.Ok? ==> item.invocations == old(item.invocations) + 1
    {
      r := item.Invoke();
    }

    /** `Site` get: a new verb table each time it is read. */
    method Site() returns (s: SettingVerbs)
      ensures fresh(s) && s.Valid() && s.settingInfo == this && s.verbMethods == map[]
    {
      s := new SettingVerbs(this);
    }
  }

  /** The description is contained: it is the failure's message. The flags are not: they fail. */
  lemma ReadPathContainment(info: SettingInfo, e: Exception)
    ensures info.item.state.description == Err(e) ==> info.Description() == InnerOrSelf(e).message
    ensures info.item.state.isEnabled == Err(e) ==> info.IsEnabled() == Err(e)
    ensures info.item.state.isApplicable == Err(e) ==> info.IsApplicable() == Err(e)
    ensures info.item.state.isSetByGroupPolicy == Err(e) ==> info.IsSetByGroupPolicy() == Err(e)
  {
  }

  /** A value written to a store that keeps writes is the value read next. */
  method SetThenGet(info: SettingInfo, v: Object) returns (r: Result<Object>)
    requires info.Valid() && ValueTypeOf(info.variant).Some? && Fits(ValueTypeOf(info.variant).value, v)
    requires info.item.state.keepsWrites && info.item.state.writeFault.None?
    modifies info, info.item
    ensures r == Ok(v)
  {
    var w := info.SetValue(v);
    r := info.GetValue();
  }

  // ---------------------------------------------------------------------------
  // The drop-down values of a list setting

  /** `ValueConverter.GetStandardValuesSupported`: only a list setting offers standard values. */
  function GetStandardValuesSupported(instance: SettingInfo?): (r: bool)
    ensures r <==> instance != null && instance.variant == ListSettingInfo
  {
    if instance != null && instance.variant == ListSettingInfo then true else false
  }

  /** `ValueConverter.GetStandardValues`: the list setting's possible values, else null. */
  function GetStandardValues(instance: SettingInfo?): (r: Option<seq<Object>>)
    ensures r.Some? <==> GetStandardValuesSupported(instance)
    ensures r.Some? ==> r.value == instance.possibleValues
  {
    if instance != null && instance.variant == ListSettingInfo then Some(instance.possibleValues) else None
  }

  // ---------------------------------------------------------------------------
  // The verb table

  class SettingVerbs {
    const settingInfo: SettingInfo
    var verbMethods: map<string, PublicMethod>

    /** Every entry of the table is a verb of the descriptor's class, under its own name. */
    ghost predicate Valid()
      reads this
    {
      forall name :: name in verbMethods ==>
        verbMethods[name] in VerbMethods(PublicMethods(settingInfo.variant)) && verbMethods[name].name == name
    }

    constructor (settingInfo: SettingInfo)
      ensures Valid() && this.settingInfo == settingInfo && verbMethods == map[]
    {
      this.settingInfo := settingInfo;
      verbMethods := map[];
    }

    /** `Verbs` get: clears the table and refills it with the class's verbs. */
    method Verbs() returns (verbs: seq<DesignerVerb>)
      modifies this
      ensures Valid()
      ensures verbs == VerbNames(VerbMethods(PublicMethods(settingInfo.variant)))
      ensures verbMethods == VerbTable(VerbMethods(PublicMethods(settingInfo.variant)))
      ensures verbMethods.Keys == set verb | verb in verbs :: verb.text
    {
      verbMethods := map[];
      verbs, verbMethods := CollectVerbs(PublicMethods(settingInfo.variant));
    }

    /**
     * `VerbEvent`: runs the method registered under the verb's text, and does
     * nothing for a text that is not in the table. A failure of the method
     * reaches the caller wrapped as reflection wraps it.
     */
    method VerbEvent(verbText: string) returns (r: Result<()>)
      requires Valid()
      modifies settingInfo.item
      ensures verbText !in verbMethods ==> r == Ok(()) && unchanged(settingInfo.item)
      ensures verbText in verbMethods ==>
        && verbText == "Invoke" && settingInfo.variant == ActionSettingInfo
        && settingInfo.item.state == old(settingInfo.item.state)
        && (r.Ok? <==> settingInfo.item.state.invokeFault.None?)
        && (r.Ok? ==> settingInfo.item.invocations == old(settingInfo.item.invocations) + 1)
        && (r.Err? ==> r.error == TargetInvocation(settingInfo.item.state.invokeFault.value))
    {
      if verbText in verbMethods {
        VerbsOfEachVariant(settingInfo.variant);
        var inner := settingInfo.Invoke();
        match inner
        case Ok(_) => r := Ok(());
        case Err(e) => r := Err(TargetInvocation(e));
      } else {
        r := Ok(());
      }
    }
  }

  /** The loop of `Verbs`: every method whose `Browsable` attributes all say true becomes a verb. */
  method CollectVerbs(methods: seq<PublicMethod>) returns (verbs: seq<DesignerVerb>, table: map<string, PublicMethod>)
    ensures verbs == VerbNames(VerbMethods(methods))
    ensures table == VerbTable(VerbMethods(methods))
    ensures table.Keys == set verb | verb in verbs :: verb.text
  {
    verbs := [];
    table := map[];
    for k := 0 to |methods|
      invariant verbs == VerbNames(VerbMethods(methods[..k]))
      invariant table == VerbTable(VerbMethods(methods[..k]))
    {
      var m := methods[k];
      VerbStep(methods, k);
      if IsVerb(m) {
        table := table[m.name := m];
        verbs := verbs + [DesignerVerb(m.name)];
      }
    }
    assert methods[..|methods|] == methods;
    VerbKeys(VerbMethods(methods));
  }

  /** The exception `MethodInfo.Invoke` throws when the invoked method throws `e`. */
  function TargetInvocation(e: Exception): (r: Exception)
    ensures InnerOrSelf(r) == e
  {
    Exception("Exception has been thrown by the target of an invocation.", Some(e))
  }
}
