/** The Issue model and the template renderer of `analyzers/__init__.py`.

    An Issue is one finding: an id that selects a template entry and the
    named values the entry's placeholders refer to. Formatting renders the
    entry's description, recommendations and references against those
    values and stores the text on the Issue. A template string is modelled
    as a sequence of literal pieces and named fields, the only parts of
    Python's `str.format` the templates use. */
module Issues {
  import opened Outcomes
  import Text

  /** A keyword argument of `Issue(id, **values)`: the scanners pass
      strings, small integers and, for an element without text, `None`. */
  datatype Value = Str(s: string) | Int(n: int) | NoneValue

  /** The text `str.format` inserts for a value: Python's `str(v)`. */
  function ValueText(v: Value): string {
    match v
    case Str(s) => s
    case Int(n) => Text.IntToString(n)
    case NoneValue => "None"
  }

  /** One piece of a format string: literal text or a named field `{name}`. */
  datatype Token = Lit(text: string) | Field(name: string)

  type TemplateString = seq<Token>

  /** One entry of the template mapping. Each key of the JSON object may be
      absent. */
  datatype TemplateEntry = TemplateEntry(
    description: Option<TemplateString>,
    recommendations: Option<seq<TemplateString>>,
    references: Option<seq<TemplateString>>)

  /** The template mapping, keyed by Issue id. */
  type Templates = map<string, TemplateEntry>

  /** The `KeyError`s formatting can raise: no entry for the id, no
      description in the entry, or a placeholder without a value. */
  datatype FormatError =
    | UnknownIssue(id: string)
    | MissingDescription(id: string)
    | UnknownField(name: string)

  function FieldNames(t: TemplateString): set<string> {
    set k | 0 <= k < |t| && t[k].Field? :: t[k].name
  }

  /** The text of one token, or the error for a field without a value. */
  function TokenText(tok: Token, values: map<string, Value>): Result<string, FormatError> {
    match tok
    case Lit(s) => Success(s)
    case Field(n) => if n in values then Success(ValueText(values[n])) else Failure(UnknownField(n))
  }

  /** Two rendered pieces side by side; the left one's error wins. */
  function Append(a: Result<string, FormatError>, b: Result<string, FormatError>): Result<string, FormatError> {
    if a.Failure? then a else if b.Failure? then b else Success(a.value + b.value)
  }

  /** `template.format(**values)`: the tokens' texts left to right; the
      first field without a value is the error. */
  function Render(t: TemplateString, values: map<string, Value>): Result<string, FormatError>
    decreases |t|
  {
    if t == [] then Success("") else Append(TokenText(t[0], values), Render(t[1..], values))
  }

  /** Rendering succeeds exactly when every placeholder has a value. */
  lemma {:induction false} RenderSucceeds(t: TemplateString, values: map<string, Value>)
    ensures Render(t, values).Success? <==> FieldNames(t) <= values.Keys
    decreases |t|
  {
    if t != [] {
      RenderSucceeds(t[1..], values);
      assert FieldNames(t) == FieldNames(t[..1]) + FieldNames(t[1..]) by {
        forall n | n in FieldNames(t) ensures n in FieldNames(t[..1]) + FieldNames(t[1..]) {
          var k :| 0 <= k < |t| && t[k].Field? && t[k].name == n;
          if k > 0 { assert t[1..][k - 1] == t[k]; }
        }
        forall n | n in FieldNames(t[1..]) ensures n in FieldNames(t) {
          var k :| 0 <= k < |t[1..]| && t[1..][k].Field? && t[1..][k].name == n;
          assert t[k + 1] == t[1..][k];
        }
      }
    }
  }

  /** A failure names the leftmost placeholder that has no value. */
  lemma {:induction false} RenderFailsAtFirstMissing(t: TemplateString, values: map<string, Value>)
    requires Render(t, values).Failure?
    ensures exists k :: (0 <= k < |t| && t[k].Field? && t[k].name !in values
      && Render(t, values) == Failure(UnknownField(t[k].name))
      && (forall j :: 0 <= j < k ==> TokenText(t[j], values).Success?))
    decreases |t|
  {
    if TokenText(t[0], values).Success? {
      RenderFailsAtFirstMissing(t[1..], values);
      var k :| 0 <= k < |t[1..]| && t[1..][k].Field? && t[1..][k].name !in values
        && Render(t[1..], values) == Failure(UnknownField(t[1..][k].name))
        && (forall j :: 0 <= j < k ==> TokenText(t[1..][j], values).Success?);
      assert t[k + 1] == t[1..][k];
      forall j | 0 <= j < k + 1 ensures TokenText(t[j], values).Success? {
        if j > 0 { assert t[j] == t[1..][j - 1]; }
      }
    } else {
      assert Render(t, values) == Failure(UnknownField(t[0].name));
    }
  }

  /** Rendering is compositional: a concatenated template renders to the
      concatenated texts, and fails with the first part's error first. */
  lemma {:induction false} RenderConcat(t1: TemplateString, t2: TemplateString, values: map<string, Value>)
    ensures Render(t1 + t2, values) == Append(Render(t1, values), Render(t2, values))
    decreases |t1|
  {
    if t1 == [] {
      assert t1 + t2 == t2;
      if Render(t2, values).Success? {
        assert "" + Render(t2, values).value == Render(t2, values).value;
      }
    } else {
      assert (t1 + t2)[0] == t1[0];
      assert (t1 + t2)[1..] == t1[1..] + t2;
      RenderConcat(t1[1..], t2, values);
      var h, a, b := TokenText(t1[0], values), Render(t1[1..], values), Render(t2, values);
      if h.Success? && a.Success? && b.Success? {
        assert h.value + (a.value + b.value) == (h.value + a.value) + b.value;
      }
    }
  }

  /** `"addr {a}"` with `a = "1.2.3.4"`. */
  lemma RenderExample()
    ensures Render([Lit("addr "), Field("a")], map["a" := Str("1.2.3.4")]) == Success("addr 1.2.3.4")
  {
    var t: TemplateString := [Lit("addr "), Field("a")];
    var values := map["a" := Str("1.2.3.4")];
    assert t[1..][1..] == [];
    assert Render(t[1..][1..], values) == Success("");
    assert "1.2.3.4" + "" == "1.2.3.4";
    assert Render(t[1..], values) == Success("1.2.3.4");
    assert "addr " + "1.2.3.4" == "addr 1.2.3.4";
  }

  /** The outcome of rendering a list of templates in order: the texts
      produced before the first failing item, and that item's error. */
  datatype Rendered = Rendered(done: seq<string>, failure: Option<FormatError>)

  function RenderEach(ts: seq<TemplateString>, values: map<string, Value>): Rendered
    decreases |ts|
  {
    if ts == [] then Rendered([], None)
    else
      match Render(ts[0], values)
      case Failure(e) => Rendered([], Some(e))
      case Success(s) =>
        var rest := RenderEach(ts[1..], values);
        Rendered([s] + rest.done, rest.failure)
  }

  /** Item i of the rendered list comes from template item i; the list is
      complete exactly when every item renders, and otherwise stops just
      before the first item that fails, with that item's error. */
  lemma {:induction false} RenderEachSpec(ts: seq<TemplateString>, values: map<string, Value>)
    ensures var r := RenderEach(ts, values);
      && |r.done| <= |ts|
      && (forall k :: 0 <= k < |r.done| ==> Render(ts[k], values) == Success(r.done[k]))
      && (r.failure.None? <==> forall k :: 0 <= k < |ts| ==> Render(ts[k], values).Success?)
      && (r.failure.None? ==> |r.done| == |ts|)
      && (r.failure.Some? ==> |r.done| < |ts| && Render(ts[|r.done|], values) == Failure(r.failure.value))
    decreases |ts|
  {
    if ts != [] && Render(ts[0], values).Success? {
      RenderEachSpec(ts[1..], values);
      var r := RenderEach(ts, values);
      var rest := RenderEach(ts[1..], values);
      forall k | 0 <= k < |r.done| ensures Render(ts[k], values) == Success(r.done[k]) {
        if k > 0 { assert ts[k] == ts[1..][k - 1]; }
      }
      if rest.failure.Some? {
        assert ts[|r.done|] == ts[1..][|rest.done|];
      } else {
        forall k | 0 <= k < |ts| ensures Render(ts[k], values).Success? {
          if k > 0 { assert ts[k] == ts[1..][k - 1]; }
        }
      }
      if r.failure.None? {
        assert forall k :: 0 <= k < |ts[1..]| ==> Render(ts[1..][k], values).Success?;
      }
    }
  }

  /** The loop of `_format_recommendations` / `_format_references`: each
      item is rendered and appended in order; an item that fails stops
      the loop, leaving the items rendered so far. */
  method RenderList(ts: seq<TemplateString>, values: map<string, Value>) returns (r: Rendered)
    ensures r == RenderEach(ts, values)
  {
    var done: seq<string> := [];
    var k := 0;
    while k < |ts|
      invariant 0 <= k <= |ts|
      invariant done + RenderEach(ts[k..], values).done == RenderEach(ts, values).done
      invariant RenderEach(ts[k..], values).failure == RenderEach(ts, values).failure
    {
      assert ts[k..][0] == ts[k] && ts[k..][1..] == ts[k + 1..];
      var s := Render(ts[k], values);
      if s.Failure? {
        return Rendered(done, Some(s.error));
      }
      done := done + [s.value];
      k := k + 1;
    }
    return Rendered(done, None);
  }

  /** The rendered fields of an Issue. */
  datatype IssueText = IssueText(
    description: Option<string>,
    recommendations: seq<string>,
    references: seq<string>)

  /** The fields after formatting, and whether formatting raised. */
  datatype Formatted = Formatted(text: IssueText, outcome: Outcome<FormatError>)

  /** An optional list key: when absent the current list stays as it is. */
  function RenderOptional(ts: Option<seq<TemplateString>>, current: seq<string>, values: map<string, Value>): Rendered {
    match ts
    case None => Rendered(current, None)
    case Some(items) => RenderEach(items, values)
  }

  /** `Issue.format(templates)` on the rendered fields `t`: look up the
      entry, render the description, then (when present) the
      recommendations and then the references. A raised error stops the
      rest; what was assigned before it remains. */
  function FormatSpec(t: IssueText, id: string, values: map<string, Value>, templates: Templates): Formatted {
    if id !in templates then Formatted(t, Fail(UnknownIssue(id)))
    else
      var entry := templates[id];
      match entry.description
      case None => Formatted(t, Fail(MissingDescription(id)))
      case Some(d) =>
        match Render(d, values)
        case Failure(e) => Formatted(t, Fail(e))
        case Success(desc) =>
          var recs := RenderOptional(entry.recommendations, t.recommendations, values);
          var t1 := t.(description := Some(desc), recommendations := recs.done);
          if recs.failure.Some? then Formatted(t1, Fail(recs.failure.value))
          else
            var refs := RenderOptional(entry.references, t.references, values);
            var t2 := t1.(references := refs.done);
            if refs.failure.Some? then Formatted(t2, Fail(refs.failure.value))
            else Formatted(t2, Pass)
  }

  /** Every placeholder of the entry (description and each list item) has
      a value. */
  ghost predicate EntryBound(entry: TemplateEntry, values: map<string, Value>) {
    && entry.description.Some?
    && FieldNames(entry.description.value) <= values.Keys
    && (entry.recommendations.Some? ==>
          forall k :: 0 <= k < |entry.recommendations.value| ==> FieldNames(entry.recommendations.value[k]) <= values.Keys)
    && (entry.references.Some? ==>
          forall k :: 0 <= k < |entry.references.value| ==> FieldNames(entry.references.value[k]) <= values.Keys)
  }

  lemma RenderListSucceeds(ts: seq<TemplateString>, values: map<string, Value>)
    ensures RenderEach(ts, values).failure.None? <==> forall k :: 0 <= k < |ts| ==> FieldNames(ts[k]) <= values.Keys
  {
    RenderEachSpec(ts, values);
    forall k | 0 <= k < |ts| ensures Render(ts[k], values).Success? <==> FieldNames(ts[k]) <= values.Keys {
      RenderSucceeds(ts[k], values);
    }
  }

  /** Formatting succeeds exactly when the id has an entry with a
      description and every placeholder of the entry has a value. */
  lemma FormatSucceeds(t: IssueText, id: string, values: map<string, Value>, templates: Templates)
    ensures FormatSpec(t, id, values, templates).outcome.Pass? <==>
      id in templates && EntryBound(templates[id], values)
  {
    if id in templates && templates[id].description.Some? {
      var entry := templates[id];
      RenderSucceeds(entry.description.value, values);
      if entry.recommendations.Some? { RenderListSucceeds(entry.recommendations.value, values); }
      if entry.references.Some? { RenderListSucceeds(entry.references.value, values); }
    }
  }

  /** A missing entry raises before anything is rendered. */
  lemma FormatWithoutTemplate(t: IssueText, id: string, values: map<string, Value>, templates: Templates)
    requires id !in templates
    ensures FormatSpec(t, id, values, templates) == Formatted(t, Fail(UnknownIssue(id)))
  {
  }

  /** After a successful format: the description is its template with every
      field replaced by its value; each list present in the entry has the
      template list's length and order, item k rendered from template item
      k; a list whose key is absent is left as it was. */
  lemma FormatRenders(t: IssueText, id: string, values: map<string, Value>, templates: Templates)
    requires FormatSpec(t, id, values, templates).outcome.Pass?
    ensures id in templates && templates[id].description.Some?
    ensures var entry := templates[id];
      var u := FormatSpec(t, id, values, templates).text;
      && u.description == Some(Render(entry.description.value, values).value)
      && (entry.recommendations.None? ==> u.recommendations == t.recommendations)
      && (entry.recommendations.Some? ==>
            |u.recommendations| == |entry.recommendations.value|
            && forall k :: 0 <= k < |u.recommendations| ==>
                 Render(entry.recommendations.value[k], values) == Success(u.recommendations[k]))
      && (entry.references.None? ==> u.references == t.references)
      && (entry.references.Some? ==>
            |u.references| == |entry.references.value|
            && forall k :: 0 <= k < |u.references| ==>
                 Render(entry.references.value[k], values) == Success(u.references[k]))
  {
    var entry := templates[id];
    if entry.recommendations.Some? { RenderEachSpec(entry.recommendations.value, values); }
    if entry.references.Some? { RenderEachSpec(entry.references.value, values); }
  }

  /** Formatting twice with the same templates leaves the same fields and
      the same outcome as formatting once, whatever the outcome. */
  lemma FormatIdempotent(t: IssueText, id: string, values: map<string, Value>, templates: Templates)
    ensures var once := FormatSpec(t, id, values, templates);
      FormatSpec(once.text, id, values, templates) == once
  {
  }

  /** One finding. `id` and `values` are fixed at construction (`format`
      never changes them); the rendered fields start empty and are filled
      by `Format`. The dictionary view of the Python class is not kept:
      its entries are `values` plus the three rendered fields. */
  class Issue {
    const id: string
    const values: map<string, Value>
    var description: Option<string>
    var recommendations: seq<string>
    var references: seq<string>

    /** `Issue(id, **values)`: no description yet, empty lists. */
    constructor (id: string, values: map<string, Value>)
      ensures this.id == id && this.values == values
      ensures description == None && recommendations == [] && references == []
    {
      this.id := id;
      this.values := values;
      description := None;
      recommendations := [];
      references := [];
    }

    function Text(): IssueText
      reads this
    {
      IssueText(description, recommendations, references)
    }

    /** `format(templates)` with `_format_description`,
        `_format_recommendations` and `_format_references`. */
    method Format(templates: Templates) returns (r: Outcome<FormatError>)
      modifies this
      ensures Text() == FormatSpec(old(Text()), id, values, templates).text
      ensures r == FormatSpec(old(Text()), id, values, templates).outcome
    {
      if id !in templates {
        return Fail(UnknownIssue(id));
      }
      var entry := templates[id];
      if entry.description.None? {
        return Fail(MissingDescription(id));
      }
      var d := Render(entry.description.value, values);
      if d.Failure? {
        return Fail(d.error);
      }
      description := Some(d.value);
      if entry.recommendations.Some? {
        var recs := RenderList(entry.recommendations.value, values);
        recommendations := recs.done;
        if recs.failure.Some? {
          return Fail(recs.failure.value);
        }
      }
      if entry.references.Some? {
        var refs := RenderList(entry.references.value, values);
        references := refs.done;
        if refs.failure.Some? {
          return Fail(refs.failure.value);
        }
      }
      return Pass;
    }
  }
}
