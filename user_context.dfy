/**
 * `CustomAttributeUserContext`: the context wrapper the host talks to. It
 * extends the host's user-attribute schema with one form per configured form
 * name, and decorates the users of the user directory.
 */
module UserContext {
  import opened Wrappers
  import opened AttributeDefinition
  import opened Configuration
  import opened Forms
  import opened AttributeUser
  import JavaString

  /**
   * `toField`: an exact, case-sensitive switch on the type string with the
   * text field as default. The field always carries the definition's name.
   */
  function ToField(d: Definition): (f: Field)
    ensures f.name == d.name
    ensures d.typeName in KnownTypes ==> TypeOf(f.kind) == d.typeName
    ensures d.typeName !in KnownTypes ==> f.kind == TextField(d.options)
    ensures f.kind.BooleanField? ==>
      f.kind.truthValue == if d.options.Some? && |d.options.value| > 0 then d.options.value[0] else "true"
    ensures f.kind.EnumField? ==> f.kind.enumOptions == d.options
    ensures f.kind.TextField? ==> f.kind.textOptions == d.options
  {
    var t := d.typeName;
    var kind :=
      if t == BOOLEAN then
        BooleanField(if d.options.Some? && |d.options.value| > 0 then d.options.value[0] else "true")
      else if t == DATE then DateField
      else if t == EMAIL then EmailField
      else if t == ENUM then EnumField(d.options)
      else if t == LANGUAGE then LanguageField
      else if t == MULTILINE then MultilineField
      else if t == PASSWORD then PasswordField
      else if t == TERMINAL_COLOR_SCHEME then TerminalColorSchemeField
      else if t == TIME then TimeField
      else if t == TIMEZONE then TimeZoneField
      else if t == USERNAME then UsernameField
      else TextField(d.options);
    Field(d.name, kind)
  }

  /** The distinct form names of the definitions, in first-seen order. */
  function FormNames(defs: seq<Definition>): (names: seq<string>)
    ensures forall i, j :: 0 <= i < j < |names| ==> names[i] != names[j]
    ensures forall k :: 0 <= k < |defs| ==> defs[k].form in names
    ensures forall n :: n in names ==> exists k :: 0 <= k < |defs| && defs[k].form == n
    decreases |defs|
  {
    if defs == [] then []
    else
      var prior := FormNames(defs[..|defs| - 1]);
      var d := defs[|defs| - 1];
      assert forall k :: 0 <= k < |defs| - 1 ==> defs[..|defs| - 1][k] == defs[k];
      if d.form in prior then prior else prior + [d.form]
  }

  /** The fields of the definitions of form `n`, in definition order. */
  function FieldsOf(defs: seq<Definition>, n: string): seq<Field>
    decreases |defs|
  {
    if defs == [] then []
    else
      var prior := FieldsOf(defs[..|defs| - 1], n);
      var d := defs[|defs| - 1];
      if d.form == n then prior + [ToField(d)] else prior
  }

  /** One form per name of `names`, holding that form's fields. */
  function GroupForms(defs: seq<Definition>, names: seq<string>): (forms: seq<Form>)
    ensures |forms| == |names|
    ensures forall k :: 0 <= k < |names| ==> forms[k] == Form(names[k], FieldsOf(defs, names[k]))
    decreases |names|
  {
    if names == [] then []
    else
      var n := names[|names| - 1];
      GroupForms(defs, names[..|names| - 1]) + [Form(n, FieldsOf(defs, n))]
  }

  /** The custom forms `getUserAttributes` appends after the host's forms. */
  function Grouped(defs: seq<Definition>): seq<Form>
  {
    GroupForms(defs, FormNames(defs))
  }

  /** A form has fields exactly when its name is one of the form names. */
  lemma {:induction false} FieldsOfNonEmpty(defs: seq<Definition>, n: string)
    ensures n !in FormNames(defs) ==> FieldsOf(defs, n) == []
    ensures n in FormNames(defs) ==> |FieldsOf(defs, n)| >= 1
    decreases |defs|
  {
    if defs != [] {
      FieldsOfNonEmpty(defs[..|defs| - 1], n);
    }
  }

  /** One more definition visited: its form name is appended if new, its field to its form. */
  lemma GroupingStep(defs: seq<Definition>, i: nat)
    requires i < |defs|
    ensures FormNames(defs[..i + 1])
         == if defs[i].form in FormNames(defs[..i]) then FormNames(defs[..i])
            else FormNames(defs[..i]) + [defs[i].form]
  {
    assert defs[..i + 1][..i] == defs[..i];
  }

  lemma FieldsOfStep(defs: seq<Definition>, i: nat, n: string)
    requires i < |defs|
    ensures FieldsOf(defs[..i + 1], n)
         == if defs[i].form == n then FieldsOf(defs[..i], n) + [ToField(defs[i])] else FieldsOf(defs[..i], n)
  {
    assert defs[..i + 1][..i] == defs[..i];
  }

  /** One more name: its form is appended. */
  lemma GroupFormsStep(defs: seq<Definition>, names: seq<string>, k: nat)
    requires k < |names|
    ensures GroupForms(defs, names[..k + 1])
         == GroupForms(defs, names[..k]) + [Form(names[k], FieldsOf(defs, names[k]))]
  {
    assert names[..k + 1][..k] == names[..k];
  }

  /** The form names seen in a prefix of the definitions come first, in the same order. */
  lemma {:induction false} FormNamesPrefix(defs: seq<Definition>, b: nat)
    requires b <= |defs|
    ensures FormNames(defs[..b]) <= FormNames(defs)
    decreases |defs|
  {
    if b < |defs| {
      var p := defs[..|defs| - 1];
      assert p[..b] == defs[..b];
      FormNamesPrefix(p, b);
    } else {
      assert defs[..b] == defs;
    }
  }

  /** One more definition adds one field to its own form's list and none to the others. */
  lemma {:induction false} FieldsStep(defs: seq<Definition>, d: Definition, names: seq<string>)
    requires forall i, j :: 0 <= i < j < |names| ==> names[i] != names[j]
    ensures TotalFields(GroupForms(defs + [d], names))
         == TotalFields(GroupForms(defs, names)) + (if d.form in names then 1 else 0)
    decreases |names|
  {
    var e := defs + [d];
    assert e[..|e| - 1] == defs;
    if names != [] {
      var q := names[..|names| - 1];
      assert forall i, j :: 0 <= i < j < |q| ==> q[i] != q[j];
      FieldsStep(defs, d, q);
      assert d.form in names <==> d.form in q || d.form == names[|names| - 1];
    }
  }

  /**
   * Each definition adds exactly one field: duplicate names are not merged,
   * so the custom forms hold as many fields as there are definitions.
   */
  lemma {:induction false} GroupedFieldCount(defs: seq<Definition>)
    ensures TotalFields(Grouped(defs)) == |defs|
    decreases |defs|
  {
    if defs != [] {
      var p := defs[..|defs| - 1];
      var d := defs[|defs| - 1];
      assert defs == p + [d];
      var names := FormNames(p);
      GroupedFieldCount(p);
      FieldsStep(p, d, names);
      FieldsOfNonEmpty(p, d.form);
      if d.form !in names {
        var all := names + [d.form];
        assert all[..|all| - 1] == names;
        FieldsStep(p, d, names);
      }
    }
  }

  /** The custom forms, one per distinct form name, none of them empty. */
  lemma GroupedForms(defs: seq<Definition>)
    ensures |Grouped(defs)| == |FormNames(defs)|
    ensures forall k :: 0 <= k < |Grouped(defs)| ==>
      Grouped(defs)[k].name == FormNames(defs)[k] && |Grouped(defs)[k].fields| >= 1
    ensures defs == [] ==> Grouped(defs) == []
  {
    forall k | 0 <= k < |FormNames(defs)| {
      FieldsOfNonEmpty(defs, FormNames(defs)[k]);
    }
  }

  /**
   * A boolean entry `m:form:n:BOOLEAN` has the truth value `"true"`, and
   * `m:form:n:BOOLEAN:opt` has the truth value `opt`.
   */
  lemma BooleanTruthValue(m: string, form: string, n: string, opt: string)
    requires Token(m) && Token(form) && Token(n) && Token(opt)
    ensures var ds := ConfigurationService(Present(JavaString.Join([m, form, n, BOOLEAN], ':'))).GetCustomAttributes();
      |ds| == 1 && ToField(ds[0]) == Field(n, BooleanField("true"))
    ensures var ds := ConfigurationService(Present(JavaString.Join([m, form, n, BOOLEAN, opt], ':'))).GetCustomAttributes();
      |ds| == 1 && ToField(ds[0]) == Field(n, BooleanField(opt))
  {
    assert Token(BOOLEAN);
    var plain := Definition(m, form, n, BOOLEAN, None);
    var configured := Definition(m, form, n, BOOLEAN, Some([opt]));
    assert SerializeAll([plain]) == JavaString.Join([m, form, n, BOOLEAN], ':') by {
      assert Fields(plain) == [m, form, n, BOOLEAN];
    }
    assert SerializeAll([configured]) == JavaString.Join([m, form, n, BOOLEAN, opt], ':') by {
      assert JavaString.Join([opt], ';') == opt;
      assert Fields(configured) == [m, form, n, BOOLEAN, opt];
    }
    RoundTrip([plain]);
    RoundTrip([configured]);
    assert ToField(plain) == Field(n, BooleanField("true"));
    assert ToField(configured) == Field(n, BooleanField(opt));
  }

  class CustomAttributeUserContext {
    /** What the wrapped context's `getUserAttributes` returns. */
    const hostForms: seq<Form>
    const confService: ConfigurationService

    constructor (hostForms: seq<Form>, confService: ConfigurationService)
      ensures this.hostForms == hostForms && this.confService == confService
    {
      this.hostForms := hostForms;
      this.confService := confService;
    }

    /**
     * `getUserAttributes`: the host's forms, unchanged and in order, then the
     * custom forms grouped by form name in first-seen order. The insertion
     * ordered map of the source is the list `order` of its keys together
     * with the map `byForm` from each key to its field list.
     */
    method GetUserAttributes() returns (forms: seq<Form>)
      ensures forms == hostForms + Grouped(confService.GetCustomAttributes())
      ensures forms[..|hostForms|] == hostForms
    {
      var defs := confService.GetCustomAttributes();
      var order: seq<string> := [];
      var byForm: map<string, seq<Field>> := map[];
      for i := 0 to |defs|
        invariant order == FormNames(defs[..i])
        invariant forall n :: n in byForm <==> n in order
        invariant forall n :: n in byForm ==> byForm[n] == FieldsOf(defs[..i], n)
      {
        var def := defs[i];
        var f := ToField(def);
        GroupingStep(defs, i);
        FieldsOfNonEmpty(defs[..i], def.form);
        ghost var before := byForm;
        if def.form !in byForm {
          order := order + [def.form];
          byForm := byForm[def.form := [f]];
        } else {
          byForm := byForm[def.form := byForm[def.form] + [f]];
        }
        forall n | n in byForm
          ensures byForm[n] == FieldsOf(defs[..i + 1], n)
        {
          FieldsOfStep(defs, i, n);
          if n != def.form {
            assert byForm[n] == before[n];
          }
        }
      }
      assert defs[..|defs|] == defs;
      var custom: seq<Form> := [];
      for k := 0 to |order|
        invariant custom == GroupForms(defs, order[..k])
      {
        GroupFormsStep(defs, order, k);
        custom := custom + [Form(order[k], byForm[order[k]])];
      }
      assert order[..|order|] == order;
      forms := hostForms + custom;
    }
  }

  // The user directory's decoration: which wrapper a user flowing through it gets.

  /** A user as the directory sees it: the host's own user, or a wrapper around a user. */
  datatype User = Plain(identifier: string) | Wrapped(requested: Method, inner: User)

  /** `decorate`: a user already wrapped is returned unchanged, any other is wrapped for reading. */
  function Decorate(u: User): (r: User)
    ensures u.Wrapped? ==> r == u
    ensures u.Plain? ==> r == Wrapped(READ, u)
  {
    if u.Wrapped? then u else Wrapped(READ, u)
  }

  /** `add`: the user is wrapped for writing, whether or not it is wrapped already. */
  function Add(u: User): (r: User)
    ensures r.Wrapped? && r.requested == WRITE && r.inner == u
  {
    Wrapped(WRITE, u)
  }

  /**
   * `undecorate`: the wrapped user. A user that is no wrapper fails the cast
   * (`ClassCastException`, or the assertion when assertions are enabled).
   */
  function Undecorate(u: User): (r: Option<User>)
    ensures u.Wrapped? <==> r.Some?
  {
    match u
    case Wrapped(_, inner) => Some(inner)
    case Plain(_) => None
  }

  /** Decorating twice is decorating once. */
  lemma DecorateIdempotent(u: User)
    ensures Decorate(Decorate(u)) == Decorate(u)
  {
  }

  /** `undecorate` inverts the wrapping `decorate` and `add` perform. */
  lemma UndecorateInverts(u: User)
    ensures Undecorate(Add(u)) == Some(u)
    ensures u.Plain? ==> Undecorate(Decorate(u)) == Some(u)
    ensures u.Wrapped? ==> Undecorate(Decorate(u)) == Some(u.inner)
  {
  }
}
