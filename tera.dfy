/** The templating engine reduced to placeholder substitution: a template is a
    sequence of literal text and `{{ name }}` holes, a context maps names to text,
    and rendering replaces every hole by its binding or fails on an unbound one. */
module Tera {
  import opened Wrappers
  import opened Collections

  datatype Segment = Lit(text: string) | Hole(name: string)

  type Template = seq<Segment>

  type Context = map<string, string>

  datatype RenderError = TemplateNotFound(template: string) | VariableNotFound(variable: string)

  /** The names of the holes of a template. */
  function Holes(t: Template): set<string> {
    set s | s in t && s.Hole? :: s.name
  }

  /** Substitutes every hole from left to right; the first unbound hole is the error. */
  function Render(t: Template, ctx: Context): Result<string, RenderError> {
    if |t| == 0 then Success("")
    else
      var head :- match t[0]
        case Lit(text) => Success(text)
        case Hole(name) => if name in ctx then Success(ctx[name]) else Failure(VariableNotFound(name));
      var tail :- Render(t[1..], ctx);
      Success(head + tail)
  }

  lemma HolesCons(t: Template)
    requires |t| > 0
    ensures Holes(t) == (if t[0].Hole? then {t[0].name} else {}) + Holes(t[1..])
  {
    assert forall s :: s in t <==> s == t[0] || s in t[1..];
  }

  lemma HolesConcat(a: Template, b: Template)
    ensures Holes(a + b) == Holes(a) + Holes(b)
  {
    assert forall s :: s in a + b <==> s in a || s in b;
  }

  /** Rendering succeeds exactly when the context binds every hole, and a failure
      names a hole the context leaves unbound. */
  lemma {:induction false} RenderSucceedsIff(t: Template, ctx: Context)
    ensures Render(t, ctx).Success? <==> Holes(t) <= ctx.Keys
    ensures Render(t, ctx).Failure? ==>
      Render(t, ctx).error.VariableNotFound? && Render(t, ctx).error.variable in Holes(t) - ctx.Keys
  {
    if |t| > 0 {
      HolesCons(t);
      RenderSucceedsIff(t[1..], ctx);
    }
  }

  /** Only the bindings of the template's own holes matter: contexts that agree on
      them render alike. */
  lemma {:induction false} RenderDependsOnHolesOnly(t: Template, ctx: Context, ctx': Context)
    requires forall n | n in Holes(t) :: (n in ctx <==> n in ctx') && (n in ctx ==> ctx[n] == ctx'[n])
    ensures Render(t, ctx) == Render(t, ctx')
  {
    if |t| > 0 {
      HolesCons(t);
      RenderDependsOnHolesOnly(t[1..], ctx, ctx');
    }
  }

  /** Every hole's binding occurs in the rendered text. */
  lemma {:induction false} RenderShowsBinding(t: Template, ctx: Context, name: string)
    requires Render(t, ctx).Success?
    requires Hole(name) in t
    ensures name in ctx && Contains(Render(t, ctx).value, ctx[name])
  {
    var head := match t[0] case Lit(text) => text case Hole(n) => ctx[n];
    var tail := Render(t[1..], ctx).value;
    assert Render(t, ctx).value == head + tail;
    if t[0] == Hole(name) {
      ContainsItself(head);
      ContainsInConcat("", head, tail, head);
      assert "" + head + tail == head + tail;
    } else {
      assert Hole(name) in t[1..];
      RenderShowsBinding(t[1..], ctx, name);
      ContainsInConcat(head, tail, "", ctx[name]);
      assert head + tail + "" == head + tail;
    }
  }

  /** Renders the template registered under `name`. */
  function RenderNamed(registry: map<string, Template>, name: string, ctx: Context): Result<string, RenderError> {
    if name in registry then Render(registry[name], ctx) else Failure(TemplateNotFound(name))
  }

  /** A named rendering succeeds exactly when the name is registered and the context
      binds every hole of its template; an unregistered name is reported as such. */
  lemma RenderNamedSucceedsIff(registry: map<string, Template>, name: string, ctx: Context)
    ensures RenderNamed(registry, name, ctx).Success? <==> name in registry && Holes(registry[name]) <= ctx.Keys
    ensures name !in registry ==> RenderNamed(registry, name, ctx) == Failure(TemplateNotFound(name))
  {
    if name in registry {
      RenderSucceedsIff(registry[name], ctx);
    }
  }

  /** A named-template registry. */
  class Engine {
    var templates: map<string, Template>

    /** An engine whose glob matched no template file. */
    constructor ()
      ensures templates == map[]
    {
      templates := map[];
    }

    /** Registers (or replaces) the template under `name`. */
    method AddRawTemplate(name: string, content: Template)
      modifies this
      ensures templates == old(templates)[name := content]
    {
      templates := templates[name := content];
    }
  }
}
