/**
 * Check specifications: what a checklist declares about a check (its implementation or inline script, its
 * name, the template it inherits, whether it is skipped and its configuration), and how one specification is
 * composed over another to override or inherit it.
 */
module CheckSpecs {
  import opened Wrappers
  import opened JavaResult
  import JavaString
  import JavaxJson

  type Config = map<string, JavaxJson.Json>

  /** `Util.isEmpty`: null or the empty string. */
  predicate IsEmptyText(s: Option<string>) {
    s.None? || s.value == ""
  }

  /** Non-null and not blank after trimming. */
  predicate IsNonBlank(s: Option<string>) {
    s.Some? && JavaString.Trim(s.value) != ""
  }

  /** `CheckSpec.merge`: the base configuration with every overlay key written over it; never null. */
  function Merge(base: Option<Config>, overlay: Option<Config>): (r: Config)
    ensures r.Keys == base.GetOrElse(map[]).Keys + overlay.GetOrElse(map[]).Keys
    ensures forall k :: overlay.Some? && k in overlay.value ==> r[k] == overlay.value[k]
    ensures forall k :: base.Some? && k in base.value && !(overlay.Some? && k in overlay.value) ==> r[k] == base.value[k]
  {
    base.GetOrElse(map[]) + overlay.GetOrElse(map[])
  }

  /** The value of a check specification; `None` is Java's null. */
  datatype Spec = Spec(
    impl: Option<string>,
    inlineScript: Option<string>,
    inlineEngine: Option<string>,
    name: Option<string>,
    template: Option<string>,
    skip: bool,
    config: Option<Config>)
  {
    /** Abstract: no implementation class and no inline script, so it can only adjust another spec. */
    predicate IsAbstract() {
      IsEmptyText(impl) && inlineScript.None?
    }

    /** A spec with a non-blank template must inherit from another spec. */
    predicate MustInherit() {
      IsNonBlank(template)
    }

    predicate NotUnnamed() {
      IsNonBlank(name)
    }

    /**
     * This spec overrides `that` when both are named, neither must inherit, and the names are equal or this
     * spec is abstract and `that` is named by a longer path ending in "/" and this spec's name.
     */
    predicate Overrides(that: Spec) {
      NotUnnamed() && that.NotUnnamed() && !MustInherit() && !that.MustInherit() &&
      (that.name.value == name.value ||
       (IsAbstract() && JavaString.EndsWith(that.name.value, "/" + name.value)))
    }

    predicate IsOverriddenBy(that: Spec) {
      that.Overrides(this)
    }

    /**
     * `baseCompositeOver`: a copy of `that` that takes this spec's inline script and engine (clearing the
     * implementation) or else this spec's non-empty implementation (clearing the script), with this spec's
     * configuration merged over the configuration of `that`.
     */
    function BaseCompositeOver(that: Spec): (r: Spec)
      ensures r.name == that.name && r.template == that.template && r.skip == that.skip
      ensures inlineScript.Some? ==>
        r.inlineScript == inlineScript && r.inlineEngine == inlineEngine && r.impl.None?
      ensures inlineScript.None? && !IsEmptyText(impl) ==>
        r.impl == impl && r.inlineScript.None? && r.inlineEngine.None?
      ensures IsAbstract() ==>
        r.impl == that.impl && r.inlineScript == that.inlineScript && r.inlineEngine == that.inlineEngine
      ensures !IsAbstract() ==> r.impl.None? || r.inlineScript.None?
      ensures r.config == Some(Merge(that.config, config))
    {
      var composite :=
        if inlineScript.Some? then that.(inlineScript := inlineScript, inlineEngine := inlineEngine, impl := None)
        else if !IsEmptyText(impl) then that.(inlineScript := None, inlineEngine := None, impl := impl)
        else that;
      composite.(config := Some(Merge(that.config, config)))
    }

    /** `overlay`: the composite over `that`, skipped when either spec is. */
    function Overlay(that: Spec): (r: Spec)
      ensures r.skip <==> skip || that.skip
      ensures r.name == that.name && r.template == that.template
      ensures r.(skip := that.skip) == BaseCompositeOver(that)
    {
      BaseCompositeOver(that).(skip := skip || that.skip)
    }

    /**
     * This spec inherits from `that` when it must inherit, `that` must not, its template is not its own name,
     * and `that` is named by the template or by a path ending in "/" and the template.
     */
    predicate Inherits(that: Spec) {
      MustInherit() && !that.MustInherit() && name != template &&
      that.NotUnnamed() &&
      (that.name.value == template.value || JavaString.EndsWith(that.name.value, "/" + template.value))
    }

    predicate IsInheritedBy(that: Spec) {
      that.Inherits(this)
    }

    /** `inherit`: the composite over `that`, keeping this spec's name when it has one and this spec's skip. */
    function Inherit(that: Spec): (r: Spec)
      ensures r.name == (if name.Some? then name else that.name)
      ensures r.skip == skip
      ensures r.template == that.template
      ensures r.(name := that.name, skip := that.skip) == BaseCompositeOver(that)
    {
      BaseCompositeOver(that).(name := if name.Some? then name else that.name, skip := skip)
    }
  }

  const EmptySpec := Spec(None, None, None, None, None, false, None)

  /**
   * The mutable check spec bean; `immutable` marks an `ImmutableSpec`, whose setters throw
   * `UnsupportedOperationException` and change nothing.
   */
  class CheckSpec {
    var impl: Option<string>
    var inlineScript: Option<string>
    var inlineEngine: Option<string>
    var name: Option<string>
    var template: Option<string>
    var skip: bool
    var config: Option<Config>
    const immutable: bool

    function Value(): Spec
      reads this
    {
      Spec(impl, inlineScript, inlineEngine, name, template, skip, config)
    }

    /** `new CheckSpec()`: every field null, not skipped. */
    constructor ()
      ensures Value() == EmptySpec && !immutable
    {
      impl, inlineScript, inlineEngine, name, template, skip, config := None, None, None, None, None, false, None;
      immutable := false;
    }

    /** `new ImmutableSpec(...)`: the given value, frozen. */
    constructor Frozen(value: Spec)
      ensures Value() == value && immutable
    {
      impl, inlineScript, inlineEngine := value.impl, value.inlineScript, value.inlineEngine;
      name, template, skip, config := value.name, value.template, value.skip, value.config;
      immutable := true;
    }

    /** The outcome every setter of an `ImmutableSpec` has. */
    function Refused(): (r: Result<()>)
      ensures r.Failure? && r.error.className == "UnsupportedOperationException"
    {
      Failure(Exception("UnsupportedOperationException", "this CheckSpec is immutable."))
    }

    method SetImpl(value: Option<string>) returns (r: Result<()>)
      modifies this
      ensures r.Success? <==> !immutable
      ensures Value() == if immutable then old(Value()) else old(Value()).(impl := value)
    {
      if immutable { return Refused(); }
      impl := value;
      r := Success(());
    }

    method SetInlineScript(value: Option<string>) returns (r: Result<()>)
      modifies this
      ensures r.Success? <==> !immutable
      ensures Value() == if immutable then old(Value()) else old(Value()).(inlineScript := value)
    {
      if immutable { return Refused(); }
      inlineScript := value;
      r := Success(());
    }

    method SetInlineEngine(value: Option<string>) returns (r: Result<()>)
      modifies this
      ensures r.Success? <==> !immutable
      ensures Value() == if immutable then old(Value()) else old(Value()).(inlineEngine := value)
    {
      if immutable { return Refused(); }
      inlineEngine := value;
      r := Success(());
    }

    method SetName(value: Option<string>) returns (r: Result<()>)
      modifies this
      ensures r.Success? <==> !immutable
      ensures Value() == if immutable then old(Value()) else old(Value()).(name := value)
    {
      if immutable { return Refused(); }
      name := value;
      r := Success(());
    }

    method SetTemplate(value: Option<string>) returns (r: Result<()>)
      modifies this
      ensures r.Success? <==> !immutable
      ensures Value() == if immutable then old(Value()) else old(Value()).(template := value)
    {
      if immutable { return Refused(); }
      template := value;
      r := Success(());
    }

    method SetSkip(value: bool) returns (r: Result<()>)
      modifies this
      ensures r.Success? <==> !immutable
      ensures Value() == if immutable then old(Value()) else old(Value()).(skip := value)
    {
      if immutable { return Refused(); }
      skip := value;
      r := Success(());
    }

    method SetConfig(value: Option<Config>) returns (r: Result<()>)
      modifies this
      ensures r.Success? <==> !immutable
      ensures Value() == if immutable then old(Value()) else old(Value()).(config := value)
    {
      if immutable { return Refused(); }
      config := value;
      r := Success(());
    }

    /** `baseCompositeOver`, step by step on a fresh copy of `that`. */
    method BaseCompositeOver(that: CheckSpec) returns (composite: CheckSpec)
      ensures fresh(composite) && !composite.immutable
      ensures composite.Value() == Value().BaseCompositeOver(that.Value())
    {
      composite := CopyOf(that);
      var ignored: Result<()>;
      if inlineScript.Some? {
        ignored := composite.SetInlineScript(inlineScript);
        ignored := composite.SetInlineEngine(inlineEngine);
        ignored := composite.SetImpl(None);
      } else if !IsEmptyText(impl) {
        ignored := composite.SetInlineScript(None);
        ignored := composite.SetInlineEngine(None);
        ignored := composite.SetImpl(impl);
      }
      ignored := composite.SetConfig(Some(Merge(that.config, config)));
    }

    method Overlay(that: CheckSpec) returns (composite: CheckSpec)
      ensures fresh(composite) && !composite.immutable
      ensures composite.Value() == Value().Overlay(that.Value())
    {
      composite := BaseCompositeOver(that);
      var ignored := composite.SetSkip(skip || that.skip);
    }

    method Inherit(that: CheckSpec) returns (composite: CheckSpec)
      ensures fresh(composite) && !composite.immutable
      ensures composite.Value() == Value().Inherit(that.Value())
    {
      ghost var mine, theirs := Value(), that.Value();
      composite := BaseCompositeOver(that);
      ghost var base := composite.Value();
      assert base == mine.BaseCompositeOver(theirs);
      var ignored := composite.SetName(if name.Some? then name else that.name);
      ignored := composite.SetSkip(skip);
      assert composite.Value() == base.(name := if mine.name.Some? then mine.name else theirs.name, skip := mine.skip);
    }
  }

  /** `copyOf`: a fresh mutable spec equal to the original. */
  method CopyOf(original: CheckSpec) returns (copy: CheckSpec)
    ensures fresh(copy) && !copy.immutable
    ensures copy.Value() == original.Value()
  {
    copy := new CheckSpec();
    var ignored := copy.SetName(original.name);
    ignored := copy.SetImpl(original.impl);
    ignored := copy.SetTemplate(original.template);
    ignored := copy.SetSkip(original.skip);
    ignored := copy.SetInlineScript(original.inlineScript);
    ignored := copy.SetInlineEngine(original.inlineEngine);
    ignored := copy.SetConfig(original.config);
  }

  /** `immutableCopyOf`: a fresh frozen spec equal to the original. */
  method ImmutableCopyOf(original: CheckSpec) returns (copy: CheckSpec)
    ensures fresh(copy) && copy.immutable
    ensures copy.Value() == original.Value()
  {
    copy := new CheckSpec.Frozen(original.Value());
  }
}
