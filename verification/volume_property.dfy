/**
 * The volume property container: four per-component records of rendering
 * settings and transfer-function handles, plus a modification time. The
 * transfer functions are opaque handles whose own modification times are
 * given by a function `mtimeOf`. `modified()` draws the next value of a
 * counter shared by every object; each setter takes that counter's value
 * before the call as `clock`.
 */
module VolumeProperty {
  import opened Wrappers
  import opened Order

  /** Number of components a volume property holds. */
  const MaxComponents := 4

  /** A transfer function object, known only by its identity. */
  datatype Handle = Handle(id: nat)

  /** The settings with a generic setter and getter. */
  datatype Setting =
    | SpecularPower | Specular | Diffuse | Ambient | Shade
    | DisableGradientOpacity | ScalarOpacityUnitDistance

  datatype Component = Component(
    colorChannels: int,
    gray: Option<Handle>,
    rgb: Option<Handle>,
    scalarOpacity: Option<Handle>,
    gradientOpacity: Option<Handle>,
    componentWeight: real,
    specularPower: real,
    specular: real,
    diffuse: real,
    ambient: real,
    shade: real,
    disableGradientOpacity: real,
    scalarOpacityUnitDistance: real)

  datatype Property = Property(components: seq<Component>, mtime: nat)

  /** What every reachable property satisfies: four components, 1 or 3 colour channels, weights in [0, 1]. */
  predicate Valid(p: Property) {
    && |p.components| == MaxComponents
    && forall k :: 0 <= k < |p.components| ==>
         && p.components[k].colorChannels in {1, 3}
         && 0.0 <= p.components[k].componentWeight <= 1.0
  }

  /** The record each component starts as. */
  const Default := Component(
    colorChannels := 1, gray := None, rgb := None, scalarOpacity := None,
    gradientOpacity := None, componentWeight := 1.0, specularPower := 10.0,
    specular := 0.2, diffuse := 0.7, ambient := 0.1, shade := 0.0,
    disableGradientOpacity := 0.0, scalarOpacityUnitDistance := 1.0)

  /** A new property: four default components. */
  function New(mtime: nat): (p: Property)
    ensures Valid(p)
    ensures forall k :: 0 <= k < |p.components| ==> p.components[k] == Default
    ensures p.mtime == mtime
  {
    Property([Default, Default, Default, Default], mtime)
  }

  /**
   * One call of `modified()`: the shared counter, `clock` before the call,
   * is incremented and its new value becomes the property's time.
   */
  function Tick(p: Property, clock: nat): (next: Property)
    ensures next.components == p.components && next.mtime > clock
  {
    p.(mtime := clock + 1)
  }

  // ---------------------------------------------------------------------
  // Modification time
  // ---------------------------------------------------------------------

  /**
   * The handles whose modification time counts for a component: the gray
   * function with one colour channel, the RGB function with three, the
   * scalar opacity, and the gradient opacity unless it is disabled.
   */
  predicate TrackedBy(c: Component, h: Handle) {
    || (c.colorChannels == 1 && c.gray == Some(h))
    || (c.colorChannels == 3 && c.rgb == Some(h))
    || c.scalarOpacity == Some(h)
    || (c.gradientOpacity == Some(h) && c.disableGradientOpacity == 0.0)
  }

  /** The loop body of `getMTime` for one component: `mTime` raised to each tracked handle's time. */
  function ComponentMTime(c: Component, mtimeOf: Handle -> nat, mTime: nat): (r: nat)
    ensures r >= mTime
    ensures forall h :: TrackedBy(c, h) ==> r >= mtimeOf(h)
    ensures r == mTime || exists h :: TrackedBy(c, h) && r == mtimeOf(h)
  {
    var afterColor :=
      if c.colorChannels == 1 then
        (if c.gray.Some? then Max(mTime, mtimeOf(c.gray.value)) else mTime)
      else if c.colorChannels == 3 then
        (if c.rgb.Some? then Max(mTime, mtimeOf(c.rgb.value)) else mTime)
      else mTime;
    var afterScalar :=
      if c.scalarOpacity.Some? then Max(afterColor, mtimeOf(c.scalarOpacity.value)) else afterColor;
    if c.gradientOpacity.Some? && c.disableGradientOpacity == 0.0 then
      Max(afterScalar, mtimeOf(c.gradientOpacity.value))
    else afterScalar
  }

  /** `getMTime`'s loop over the components, starting from `mTime`. */
  function ComponentsMTime(cs: seq<Component>, mtimeOf: Handle -> nat, mTime: nat): (r: nat)
    ensures r >= mTime
    ensures forall k, h :: 0 <= k < |cs| && TrackedBy(cs[k], h) ==> r >= mtimeOf(h)
    ensures r == mTime || exists k, h :: 0 <= k < |cs| && TrackedBy(cs[k], h) && r == mtimeOf(h)
  {
    if |cs| == 0 then mTime
    else
      var before := ComponentsMTime(cs[..|cs| - 1], mtimeOf, mTime);
      ComponentMTime(cs[|cs| - 1], mtimeOf, before)
  }

  /**
   * The property's modification time: the latest of its own time and the
   * times of the tracked handles of all components.
   */
  function GetMTime(p: Property, mtimeOf: Handle -> nat): (r: nat)
    ensures r >= p.mtime
    ensures forall k, h :: 0 <= k < |p.components| && TrackedBy(p.components[k], h) ==> r >= mtimeOf(h)
    ensures r == p.mtime || exists k, h :: 0 <= k < |p.components| && TrackedBy(p.components[k], h) && r == mtimeOf(h)
  {
    ComponentsMTime(p.components, mtimeOf, p.mtime)
  }

  // ---------------------------------------------------------------------
  // Index-checked accessors
  // ---------------------------------------------------------------------

  /** The colour channels of component `index`, or 0 when `index` is outside 0..3. */
  function GetColorChannels(p: Property, index: int): (r: int)
    requires |p.components| == MaxComponents
    ensures Valid(p) ==> (r == 0 <==> index < 0 || index > 3)
    ensures Valid(p) && 0 <= index <= 3 ==> r in {1, 3}
  {
    if index < 0 || index > 3 then 0 else p.components[index].colorChannels
  }

  function Clamp(value: real): (r: real)
    ensures 0.0 <= r <= 1.0
    ensures 0.0 <= value <= 1.0 ==> r == value
  {
    if value < 0.0 then 0.0 else if value > 1.0 then 1.0 else value
  }

  /** Replaces component `index`, ticking the time when the record changes. */
  function Update(p: Property, index: int, c: Component, clock: nat): (next: Property)
    requires 0 <= index < |p.components|
    ensures next.components == p.components[index := c]
    ensures next.mtime == if c == p.components[index] then p.mtime else clock + 1
  {
    if c == p.components[index] then p
    else Tick(p.(components := p.components[index := c]), clock)
  }

  /**
   * Stores `value` clamped to [0, 1] as the weight of component `index`;
   * an index outside 0..3 leaves the property as it is.
   */
  function SetComponentWeight(p: Property, index: int, value: real, clock: nat): (next: Property)
    requires |p.components| == MaxComponents
    ensures index < 0 || index >= MaxComponents ==> next == p
    ensures 0 <= index < MaxComponents ==>
      next.components == p.components[index := p.components[index].(componentWeight := Clamp(value))]
    ensures next.mtime == if next == p then p.mtime else clock + 1
  {
    if index < 0 || index >= MaxComponents then p
    else Update(p, index, p.components[index].(componentWeight := Clamp(value)), clock)
  }

  /** The weight of component `index`, or 0.0 when `index` is outside 0..3. */
  function GetComponentWeight(p: Property, index: int): (r: real)
    requires |p.components| == MaxComponents
    ensures Valid(p) ==> 0.0 <= r <= 1.0
  {
    if index < 0 || index >= MaxComponents then 0.0 else p.components[index].componentWeight
  }

  // ---------------------------------------------------------------------
  // Transfer functions
  // ---------------------------------------------------------------------

  /**
   * Makes `func` the gray transfer function of component `index` and
   * switches it to one colour channel; each of the two changes, when it
   * is one, calls `modified()`, so the time ends one or two past `clock`.
   */
  function SetGrayTransferFunction(p: Property, index: int, func: Option<Handle>, clock: nat): (next: Property)
    requires 0 <= index < |p.components|
    ensures |next.components| == |p.components|
    ensures next.components[index] == p.components[index].(gray := func, colorChannels := 1)
    ensures forall k :: 0 <= k < |p.components| && k != index ==> next.components[k] == p.components[k]
    ensures var ticks := (if p.components[index].gray != func then 1 else 0)
                       + (if p.components[index].colorChannels != 1 then 1 else 0);
            next.mtime == if ticks == 0 then p.mtime else clock + ticks
    ensures next != p ==> next.mtime > clock
  {
    var c := p.components[index];
    var p1 := if c.gray != func then Tick(p.(components := p.components[index := c.(gray := func)]), clock) else p;
    var clock1 := if c.gray != func then clock + 1 else clock;
    var c1 := p1.components[index];
    if c1.colorChannels != 1 then Tick(p1.(components := p1.components[index := c1.(colorChannels := 1)]), clock1) else p1
  }

  /**
   * Makes `func` the RGB transfer function of component `index` and
   * switches it to three colour channels; each of the two changes, when it
   * is one, calls `modified()`, so the time ends one or two past `clock`.
   */
  function SetRGBTransferFunction(p: Property, index: int, func: Option<Handle>, clock: nat): (next: Property)
    requires 0 <= index < |p.components|
    ensures |next.components| == |p.components|
    ensures next.components[index] == p.components[index].(rgb := func, colorChannels := 3)
    ensures forall k :: 0 <= k < |p.components| && k != index ==> next.components[k] == p.components[k]
    ensures var ticks := (if p.components[index].rgb != func then 1 else 0)
                       + (if p.components[index].colorChannels != 3 then 1 else 0);
            next.mtime == if ticks == 0 then p.mtime else clock + ticks
    ensures next != p ==> next.mtime > clock
  {
    var c := p.components[index];
    var p1 := if c.rgb != func then Tick(p.(components := p.components[index := c.(rgb := func)]), clock) else p;
    var clock1 := if c.rgb != func then clock + 1 else clock;
    var c1 := p1.components[index];
    if c1.colorChannels != 3 then Tick(p1.(components := p1.components[index := c1.(colorChannels := 3)]), clock1) else p1
  }

  /** Makes `func` the scalar opacity of component `index`, ticking the time when it changes. */
  function SetScalarOpacity(p: Property, index: int, func: Option<Handle>, clock: nat): (next: Property)
    requires 0 <= index < |p.components|
    ensures next.components == p.components[index := p.components[index].(scalarOpacity := func)]
    ensures next.mtime == if p.components[index].scalarOpacity == func then p.mtime else clock + 1
  {
    Update(p, index, p.components[index].(scalarOpacity := func), clock)
  }

  /** Makes `func` the gradient opacity of component `index`, ticking the time when it changes. */
  function SetGradientOpacity(p: Property, index: int, func: Option<Handle>, clock: nat): (next: Property)
    requires 0 <= index < |p.components|
    ensures next.components == p.components[index := p.components[index].(gradientOpacity := func)]
    ensures next.mtime == if p.components[index].gradientOpacity == func then p.mtime else clock + 1
  {
    Update(p, index, p.components[index].(gradientOpacity := func), clock)
  }

  // ---------------------------------------------------------------------
  // Generic settings
  // ---------------------------------------------------------------------

  /** The value of setting `s` in a component record. */
  function Get(c: Component, s: Setting): real {
    match s
    case SpecularPower => c.specularPower
    case Specular => c.specular
    case Diffuse => c.diffuse
    case Ambient => c.ambient
    case Shade => c.shade
    case DisableGradientOpacity => c.disableGradientOpacity
    case ScalarOpacityUnitDistance => c.scalarOpacityUnitDistance
  }

  /** A component record with setting `s` replaced by `v`. */
  function Put(c: Component, s: Setting, v: real): (r: Component)
    ensures Get(r, s) == v
    ensures forall t :: t != s ==> Get(r, t) == Get(c, t)
    ensures r.(specularPower := 0.0, specular := 0.0, diffuse := 0.0, ambient := 0.0, shade := 0.0,
               disableGradientOpacity := 0.0, scalarOpacityUnitDistance := 0.0)
         == c.(specularPower := 0.0, specular := 0.0, diffuse := 0.0, ambient := 0.0, shade := 0.0,
               disableGradientOpacity := 0.0, scalarOpacityUnitDistance := 0.0)
  {
    match s
    case SpecularPower => c.(specularPower := v)
    case Specular => c.(specular := v)
    case Diffuse => c.(diffuse := v)
    case Ambient => c.(ambient := v)
    case Shade => c.(shade := v)
    case DisableGradientOpacity => c.(disableGradientOpacity := v)
    case ScalarOpacityUnitDistance => c.(scalarOpacityUnitDistance := v)
  }

  /**
   * The generic setter `set<Setting>(index, value)`: stores `value` as
   * given, with no range check, ticking the time only when it differs
   * from the stored value.
   */
  function SetSetting(p: Property, index: int, s: Setting, value: real, clock: nat): (next: Property)
    requires 0 <= index < |p.components|
    ensures next.components == p.components[index := Put(p.components[index], s, value)]
    ensures next.mtime == if Get(p.components[index], s) == value then p.mtime else clock + 1
  {
    if Get(p.components[index], s) != value then
      Tick(p.(components := p.components[index := Put(p.components[index], s, value)]), clock)
    else p
  }

  /** The generic getter `get<Setting>(index)`. */
  function GetSetting(p: Property, index: int, s: Setting): real
    requires 0 <= index < |p.components|
  {
    Get(p.components[index], s)
  }

  // ---------------------------------------------------------------------
  // Properties
  // ---------------------------------------------------------------------

  /** A new property tracks no handle, so its modification time is its own. */
  lemma NewMTime(mtime: nat, mtimeOf: Handle -> nat)
    ensures GetMTime(New(mtime), mtimeOf) == mtime
  {
    var p := New(mtime);
    forall k, h | 0 <= k < |p.components| ensures !TrackedBy(p.components[k], h) {
      assert p.components[k] == Default;
    }
  }

  /** The modification time depends on the handles' times only through the tracked handles. */
  lemma MTimeIgnoresUntracked(p: Property, m1: Handle -> nat, m2: Handle -> nat)
    requires forall k, h :: 0 <= k < |p.components| && TrackedBy(p.components[k], h) ==> m1(h) == m2(h)
    ensures GetMTime(p, m1) == GetMTime(p, m2)
  {
    var r1, r2 := GetMTime(p, m1), GetMTime(p, m2);
    assert r1 <= r2 by {
      if r1 != p.mtime {
        var k, h :| 0 <= k < |p.components| && TrackedBy(p.components[k], h) && r1 == m1(h);
        assert r2 >= m2(h);
      }
    }
    assert r2 <= r1 by {
      if r2 != p.mtime {
        var k, h :| 0 <= k < |p.components| && TrackedBy(p.components[k], h) && r2 == m2(h);
        assert r1 >= m1(h);
      }
    }
  }

  /** Every setter keeps a valid property valid. */
  lemma SettersPreserveValid(p: Property, index: int, w: real, func: Option<Handle>, s: Setting, v: real,
                             clock: nat)
    requires Valid(p) && 0 <= index < MaxComponents
    ensures Valid(SetComponentWeight(p, index, w, clock))
    ensures Valid(SetGrayTransferFunction(p, index, func, clock))
    ensures Valid(SetRGBTransferFunction(p, index, func, clock))
    ensures Valid(SetScalarOpacity(p, index, func, clock))
    ensures Valid(SetGradientOpacity(p, index, func, clock))
    ensures Valid(SetSetting(p, index, s, v, clock))
  {
    var c := p.components[index];
    assert Put(c, s, v).colorChannels == c.colorChannels;
    assert Put(c, s, v).componentWeight == c.componentWeight;
  }

  /**
   * The weight read back after a set is the clamped value for an index in
   * 0..3 and 0.0 for any other; setting the same weight twice is setting it once.
   */
  lemma WeightSetThenGet(p: Property, index: int, value: real, clock: nat, clock2: nat)
    requires |p.components| == MaxComponents
    ensures GetComponentWeight(SetComponentWeight(p, index, value, clock), index)
         == if 0 <= index < MaxComponents then Clamp(value) else 0.0
    ensures SetComponentWeight(SetComponentWeight(p, index, value, clock), index, value, clock2)
         == SetComponentWeight(p, index, value, clock)
  {}

  /**
   * Setting a gray function selects one colour channel and setting an RGB
   * function selects three; from then on the time of the function just set
   * counts and the time of the other colour function does not.
   */
  lemma ColorChannelSwitch(p: Property, index: int, h: Handle, mtimeOf: Handle -> nat, clock: nat)
    requires |p.components| == MaxComponents && 0 <= index < MaxComponents
    ensures var next := SetGrayTransferFunction(p, index, Some(h), clock);
            && GetColorChannels(next, index) == 1
            && TrackedBy(next.components[index], h)
            && GetMTime(next, mtimeOf) >= mtimeOf(h)
            && (next.components[index].rgb.Some? ==>
                  !TrackedBy(next.components[index], next.components[index].rgb.value)
                  || next.components[index].rgb == Some(h)
                  || next.components[index].scalarOpacity == next.components[index].rgb
                  || next.components[index].gradientOpacity == next.components[index].rgb)
    ensures var next := SetRGBTransferFunction(p, index, Some(h), clock);
            && GetColorChannels(next, index) == 3
            && TrackedBy(next.components[index], h)
            && GetMTime(next, mtimeOf) >= mtimeOf(h)
            && (next.components[index].gray.Some? ==>
                  !TrackedBy(next.components[index], next.components[index].gray.value)
                  || next.components[index].gray == Some(h)
                  || next.components[index].scalarOpacity == next.components[index].gray
                  || next.components[index].gradientOpacity == next.components[index].gray)
  {}

  /** A scalar opacity function always counts; a gradient opacity function counts exactly when it is not disabled. */
  lemma OpacityTracking(p: Property, index: int, h: Handle, mtimeOf: Handle -> nat, clock: nat)
    requires 0 <= index < |p.components|
    ensures var next := SetScalarOpacity(p, index, Some(h), clock);
            TrackedBy(next.components[index], h) && GetMTime(next, mtimeOf) >= mtimeOf(h)
    ensures var next := SetGradientOpacity(p, index, Some(h), clock);
            var c := next.components[index];
            c.disableGradientOpacity == 0.0 ==> TrackedBy(c, h) && GetMTime(next, mtimeOf) >= mtimeOf(h)
    ensures var next := SetGradientOpacity(p, index, Some(h), clock);
            var c := next.components[index];
            (c.disableGradientOpacity != 0.0 && c.gray != Some(h) && c.rgb != Some(h) && c.scalarOpacity != Some(h))
              ==> !TrackedBy(c, h)
  {}

  /**
   * A generic setter stores any value as given (no 0/1 check for `shade`
   * or `disableGradientOpacity`), leaves the other settings alone, is
   * idempotent, and re-storing the current value changes nothing, time included.
   */
  lemma SettingSetThenGet(p: Property, index: int, s: Setting, t: Setting, value: real,
                           clock: nat, clock2: nat)
    requires 0 <= index < |p.components|
    ensures GetSetting(SetSetting(p, index, s, value, clock), index, s) == value
    ensures t != s ==> GetSetting(SetSetting(p, index, s, value, clock), index, t) == GetSetting(p, index, t)
    ensures SetSetting(SetSetting(p, index, s, value, clock), index, s, value, clock2) == SetSetting(p, index, s, value, clock)
    ensures SetSetting(p, index, s, GetSetting(p, index, s), clock) == p
  {
    var c := p.components[index];
    var c' := Put(c, s, value);
    assert Put(c', s, value) == c' by {
      assert Get(c', s) == value;
    }
    assert Put(c, s, Get(c, s)) == c;
  }

  /**
   * When a setter changes the property, `getMTime` afterwards is the
   * property's fresh time, later than anything `getMTime` reported before:
   * `clock`, the shared counter, is at least every time handed out so far,
   * the transfer functions' included.
   */
  lemma ChangesAreVisible(p: Property, index: int, w: real, func: Option<Handle>, s: Setting, v: real,
                          mtimeOf: Handle -> nat, clock: nat)
    requires |p.components| == MaxComponents && 0 <= index < MaxComponents
    requires p.mtime <= clock && forall h :: mtimeOf(h) <= clock
    ensures var next := SetComponentWeight(p, index, w, clock);
            next != p ==> GetMTime(next, mtimeOf) == next.mtime > GetMTime(p, mtimeOf)
    ensures var next := SetGrayTransferFunction(p, index, func, clock);
            next != p ==> GetMTime(next, mtimeOf) == next.mtime > GetMTime(p, mtimeOf)
    ensures var next := SetRGBTransferFunction(p, index, func, clock);
            next != p ==> GetMTime(next, mtimeOf) == next.mtime > GetMTime(p, mtimeOf)
    ensures var next := SetScalarOpacity(p, index, func, clock);
            next != p ==> GetMTime(next, mtimeOf) == next.mtime > GetMTime(p, mtimeOf)
    ensures var next := SetGradientOpacity(p, index, func, clock);
            next != p ==> GetMTime(next, mtimeOf) == next.mtime > GetMTime(p, mtimeOf)
    ensures var next := SetSetting(p, index, s, v, clock);
            next != p ==> GetMTime(next, mtimeOf) == next.mtime > GetMTime(p, mtimeOf)
  {
    FreshChangeVisible(p, SetComponentWeight(p, index, w, clock), mtimeOf, clock);
    FreshChangeVisible(p, SetGrayTransferFunction(p, index, func, clock), mtimeOf, clock);
    FreshChangeVisible(p, SetRGBTransferFunction(p, index, func, clock), mtimeOf, clock);
    FreshChangeVisible(p, SetScalarOpacity(p, index, func, clock), mtimeOf, clock);
    FreshChangeVisible(p, SetGradientOpacity(p, index, func, clock), mtimeOf, clock);
    FreshChangeVisible(p, SetSetting(p, index, s, v, clock), mtimeOf, clock);
  }

  /**
   * A change stamped later than the counter `clock`, which bounds every
   * time handed out so far, is what `getMTime` reports afterwards, and it is
   * later than anything `getMTime` reported before.
   */
  lemma FreshChangeVisible(p: Property, next: Property, mtimeOf: Handle -> nat, clock: nat)
    requires p.mtime <= clock && forall h :: mtimeOf(h) <= clock
    requires next != p ==> next.mtime > clock
    ensures next != p ==> GetMTime(next, mtimeOf) == next.mtime > GetMTime(p, mtimeOf)
  {}
}
