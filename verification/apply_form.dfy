/** The apply dialog of the campus feed: its field table, the check that
    keeps the submit button disabled, and the template auto-fill. A form
    and a template are objects from field names to JavaScript values. */
module ApplyForm {
  import opened Text
  import opened Js

  type Form = map<string, JsValue>

  /** `form[key]`: `undefined` for a field never typed into. */
  function Field(form: Form, key: string): JsValue {
    if key in form then form[key] else Undefined
  }

  datatype FieldSpec = FieldSpec(key: string, caption: string, required: bool)

  /** The dialog's fields, in display order; only the names are required. */
  const Fields: seq<FieldSpec> := [
    FieldSpec("firstName", "First Name", true),
    FieldSpec("lastName", "Last Name", true),
    FieldSpec("middleName", "Middle Name (O)", false),
    FieldSpec("preferredName", "Preferred Name (O)", false),
    FieldSpec("gender", "Gender (O)", false),
    FieldSpec("position", "Applied Position (O)", false),
    FieldSpec("grade", "Grade (O)", false),
    FieldSpec("why", "Why do you want to join? (O)", false)
  ]

  /** A field is blank when `String(form[key] || "").trim()` is empty. */
  predicate Blank(form: Form, key: string) {
    Trim(TextOr(Field(form, key))) == ""
  }

  /** `fields.some(f => f.required && blank(f.key))`, over any field table. */
  function AnyMissing(fields: seq<FieldSpec>, blank: string -> bool): (r: bool)
    ensures r <==> exists i :: 0 <= i < |fields| && fields[i].required && blank(fields[i].key)
  {
    if |fields| == 0 then false
    else
      var rest := AnyMissing(fields[1..], blank);
      assert forall i :: 0 < i < |fields| ==> fields[i] == fields[1..][i - 1];
      (fields[0].required && blank(fields[0].key)) || rest
  }

  function BlankIn(form: Form): string -> bool {
    k => Blank(form, k)
  }

  /** `missingRequired`: whether submitting is blocked. */
  function MissingRequired(form: Form): bool {
    AnyMissing(Fields, BlankIn(form))
  }

  /** Submitting is blocked exactly when the first or the last name is
      blank; the optional fields never block it. */
  lemma MissingRequiredNames(form: Form)
    ensures MissingRequired(form) <==> Blank(form, "firstName") || Blank(form, "lastName")
  {
    var blank := BlankIn(form);
    assert Fields[0].key == "firstName" && Fields[0].required;
    assert Fields[1].key == "lastName" && Fields[1].required;
    assert forall i :: 2 <= i < |Fields| ==> !Fields[i].required;
    assert blank("firstName") == Blank(form, "firstName");
    assert blank("lastName") == Blank(form, "lastName");
  }

  /** The fields the template fills. */
  const TemplateKeys: seq<string> := ["firstName", "lastName", "preferredName", "grade", "gender"]

  /** `applyTemplate`: each template field that is truthy overwrites the
      form's value; the form keeps its own value otherwise. */
  function ApplyTemplate(template: Form, form: Form): (r: Form)
    ensures forall k :: k in TemplateKeys ==> Field(r, k) == Or(Field(template, k), Field(form, k))
    ensures forall k :: k !in TemplateKeys ==> Field(r, k) == Field(form, k)
  {
    Fill(TemplateKeys, template, form)
  }

  /** Sets, for each key in turn, `key: template[key] || form[key]`. */
  function Fill(keys: seq<string>, template: Form, form: Form): (r: Form)
    ensures forall k :: k in keys ==> Field(r, k) == Or(Field(template, k), Field(form, k))
    ensures forall k :: k !in keys ==> Field(r, k) == Field(form, k)
    decreases |keys|
  {
    if |keys| == 0 then form
    else
      var k0 := keys[0];
      var f := form[k0 := Or(Field(template, k0), Field(form, k0))];
      var r := Fill(keys[1..], template, f);
      assert forall k :: k in keys ==> k == k0 || k in keys[1..];
      assert forall k :: k in keys[1..] ==> Field(f, k) == Field(form, k) || k == k0;
      r
  }

  /** Filling from the template twice gives the same form as once. */
  lemma ApplyTemplateIdempotent(template: Form, form: Form)
    ensures forall k :: Field(ApplyTemplate(template, ApplyTemplate(template, form)), k)
                        == Field(ApplyTemplate(template, form), k)
  {
  }

  /** A template with both names filled in unblocks submitting. */
  lemma TemplateCompletes(template: Form, form: Form)
    requires !Blank(template, "firstName") && !Blank(template, "lastName")
    ensures !MissingRequired(ApplyTemplate(template, form))
  {
    var r := ApplyTemplate(template, form);
    assert "firstName" in TemplateKeys && "lastName" in TemplateKeys;
    TruthyWhenNotBlank(Field(template, "firstName"));
    TruthyWhenNotBlank(Field(template, "lastName"));
    MissingRequiredNames(r);
  }

  /** A value with non-blank text is truthy. */
  lemma TruthyWhenNotBlank(v: JsValue)
    requires Trim(TextOr(v)) != ""
    ensures Truthy(v)
  {
  }
}
