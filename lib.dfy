/** The generation pipeline: one rendered block per variant for each of the three
    capability families, and the whole expansion of the derive. */
module EnumConversions {
  import opened Wrappers
  import opened Collections
  import opened Syntax
  import opened Tera
  import opened Templates
  import opened ParseEnum

  /** Why an invocation aborts: a declaration of the wrong shape, or a template that
      failed to render (the message given to `expect` and the engine's error). */
  datatype Panic = Shape(shape: ShapeError) | RenderFailed(message: string, cause: RenderError)

  const GET_VARIANT_FAILURE: string := "Failed to render the GetVariant template"
  const TRY_FROM_FAILURE: string := "Failed to render the TryFrom template"
  const FROM_FAILURE: string := "Failed to render the From template"

  /** One entry of the variant map: the variant's name and its payload type. */
  type Entry = (string, string)

  // ---------------------------------------------------------------------------
  // The contexts of the three families.
  // ---------------------------------------------------------------------------

  function GetVariantContext(name: string, fullname: string, whereClause: string, implGenerics: string,
                             field: string, ty: string): Context {
    map["generics" := implGenerics, "Type" := ty, "Marker" := GetMarker(name, field),
        "fullname" := fullname, "name" := name, "field" := field, "Where" := whereClause]
  }

  /** The bound that selects the `GetVariant` implementation for one payload type. */
  function MarkerBound(fullname: string, ty: string, marker: string): string {
    fullname + ": GetVariant<" + ty + ", " + marker + ">"
  }

  /** The enum's where-clause extended by one more bound; the keyword is added only
      when there was no clause yet. */
  function WhereString(whereClause: string, bound: string): string {
    whereClause + (if whereClause == "" then "where\n " else "\n ") + bound
  }

  function TryFromContext(name: string, fullname: string, whereClause: string, implGenerics: string,
                          field: string, ty: string): Context {
    map["generics" := implGenerics, "Type" := ty, "fullname" := fullname, "name" := name,
        "Where" := WhereString(whereClause, MarkerBound(fullname, ty, GetMarker(name, field)))]
  }

  function FromContext(fullname: string, whereClause: string, implGenerics: string,
                       field: string, ty: string): Context {
    map["generics" := implGenerics, "Type" := ty, "fullname" := fullname, "field" := field,
        "Where" := whereClause]
  }

  /** The context builders of the three families, as functions of a map entry. */
  function GetVariantContextOf(name: string, fullname: string, whereClause: string, implGenerics: string): Entry -> Context {
    (e: Entry) => GetVariantContext(name, fullname, whereClause, implGenerics, e.0, e.1)
  }

  function TryFromContextOf(name: string, fullname: string, whereClause: string, implGenerics: string): Entry -> Context {
    (e: Entry) => TryFromContext(name, fullname, whereClause, implGenerics, e.0, e.1)
  }

  function FromContextOf(fullname: string, whereClause: string, implGenerics: string): Entry -> Context {
    (e: Entry) => FromContext(fullname, whereClause, implGenerics, e.0, e.1)
  }

  /** One family's contexts for the entries of a walk, in the walk's order. */
  function Contexts(ctxOf: Entry -> Context, walk: seq<Entry>): seq<Context> {
    seq(|walk|, i requires 0 <= i < |walk| => ctxOf(walk[i]))
  }

  /** Visiting one more entry appends its context. */
  lemma ContextsSnoc(ctxOf: Entry -> Context, walk: seq<Entry>, entry: Entry)
    ensures Contexts(ctxOf, walk + [entry]) == Contexts(ctxOf, walk) + [ctxOf(entry)]
  {
  }

  /** Each context binds exactly the holes of its template, so none of the three
      renderings can miss a variable; the try-from context in particular binds
      neither a marker nor a field. */
  lemma GetVariantContextBindsHoles(name: string, fullname: string, whereClause: string, implGenerics: string,
                                    field: string, ty: string)
    ensures GetVariantContext(name, fullname, whereClause, implGenerics, field, ty).Keys == Holes(GET_VARIANT_TEMPLATE)
    ensures GetVariantContext(name, fullname, whereClause, implGenerics, field, ty).Keys == GET_VARIANT_HOLES
  {
    GetVariantTemplateHoles();
  }

  lemma TryFromContextBindsHoles(name: string, fullname: string, whereClause: string, implGenerics: string,
                                 field: string, ty: string)
    ensures TryFromContext(name, fullname, whereClause, implGenerics, field, ty).Keys == Holes(TRY_FROM_TEMPLATE)
    ensures TryFromContext(name, fullname, whereClause, implGenerics, field, ty).Keys == TRY_FROM_HOLES
    ensures "Marker" !in TryFromContext(name, fullname, whereClause, implGenerics, field, ty)
    ensures "field" !in TryFromContext(name, fullname, whereClause, implGenerics, field, ty)
  {
    TryFromTemplateHoles();
  }

  lemma FromContextBindsHoles(fullname: string, whereClause: string, implGenerics: string, field: string, ty: string)
    ensures FromContext(fullname, whereClause, implGenerics, field, ty).Keys == Holes(FROM_TEMPLATE)
    ensures FromContext(fullname, whereClause, implGenerics, field, ty).Keys == FROM_HOLES
  {
    FromTemplateHoles();
  }

  // ---------------------------------------------------------------------------
  // Where-clause augmentation.
  // ---------------------------------------------------------------------------

  /** The original clause is an unchanged prefix, the bound closes the string, and
      the keyword `where` is added exactly when the original clause is empty. */
  lemma WhereStringExtends(whereClause: string, bound: string)
    ensures var w := WhereString(whereClause, bound);
      && w[..|whereClause|] == whereClause
      && w[|w| - |bound|..] == bound
      && (whereClause == "" ==> w == "where\n " + bound)
      && (whereClause != "" ==> w == whereClause + "\n " + bound)
  {
    var w := WhereString(whereClause, bound);
    var sep := if whereClause == "" then "where\n " else "\n ";
    assert w == whereClause + (sep + bound);
  }

  /** The bound added for an entry names the enum, the entry's payload type and the
      marker of the same entry: exactly the `GetVariant` implementation rendered
      for that entry. */
  lemma TryFromBoundSelectsGetVariant(name: string, fullname: string, whereClause: string, implGenerics: string,
                                      field: string, ty: string)
    ensures var gv := GetVariantContext(name, fullname, whereClause, implGenerics, field, ty);
      TryFromContext(name, fullname, whereClause, implGenerics, field, ty)["Where"]
        == WhereString(whereClause, MarkerBound(gv["fullname"], gv["Type"], gv["Marker"]))
  {
  }

  // ---------------------------------------------------------------------------
  // Rendering one block per entry.
  // ---------------------------------------------------------------------------

  /** The registry the pipeline sets up. */
  function Registry(): map<string, Template> {
    map["get_variant" := GET_VARIANT_TEMPLATE, "try_from" := TRY_FROM_TEMPLATE, "from" := FROM_TEMPLATE]
  }

  /** The blocks rendered from `template` with the contexts in order, concatenated;
      the first failed rendering aborts with `message`. */
  function Blocks(registry: map<string, Template>, template: string, message: string, ctxs: seq<Context>): Result<string, Panic> {
    if |ctxs| == 0 then Success("")
    else
      var init := Blocks(registry, template, message, ctxs[..|ctxs| - 1]);
      var block := RenderNamed(registry, template, ctxs[|ctxs| - 1]);
      if init.Failure? then init
      else if block.Failure? then Failure(RenderFailed(message, block.error))
      else Success(init.value + block.value)
  }

  lemma BlocksSnoc(registry: map<string, Template>, template: string, message: string, ctxs: seq<Context>,
                   ctx: Context, text: string)
    requires Blocks(registry, template, message, ctxs) == Success(text)
    ensures var block := RenderNamed(registry, template, ctx);
      Blocks(registry, template, message, ctxs + [ctx])
        == if block.Failure? then Failure(RenderFailed(message, block.error)) else Success(text + block.value)
  {
    assert (ctxs + [ctx])[..|ctxs|] == ctxs;
  }

  /** Rendering the blocks succeeds exactly when there is nothing to render or the
      template is registered and every context binds all of its holes; a failure
      carries the family's message. */
  lemma {:induction false} BlocksSucceedIff(registry: map<string, Template>, template: string, message: string, ctxs: seq<Context>)
    ensures Blocks(registry, template, message, ctxs).Success? <==>
      |ctxs| == 0 || (template in registry && forall i | 0 <= i < |ctxs| :: Holes(registry[template]) <= ctxs[i].Keys)
    ensures Blocks(registry, template, message, ctxs).Failure? ==>
      Blocks(registry, template, message, ctxs).error.RenderFailed?
      && Blocks(registry, template, message, ctxs).error.message == message
  {
    if |ctxs| > 0 {
      var init := ctxs[..|ctxs| - 1];
      BlocksSucceedIff(registry, template, message, init);
      RenderNamedSucceedsIff(registry, template, ctxs[|ctxs| - 1]);
      if |init| > 0 && template in registry {
        assert (forall i | 0 <= i < |ctxs| :: Holes(registry[template]) <= ctxs[i].Keys)
          <==> (forall i | 0 <= i < |init| :: Holes(registry[template]) <= init[i].Keys)
               && Holes(registry[template]) <= ctxs[|ctxs| - 1].Keys;
      }
    }
  }

  lemma BlocksUnfold(registry: map<string, Template>, template: string, message: string, ctxs: seq<Context>)
    requires Blocks(registry, template, message, ctxs).Success?
    requires |ctxs| > 0
    ensures var init := Blocks(registry, template, message, ctxs[..|ctxs| - 1]);
      var last := RenderNamed(registry, template, ctxs[|ctxs| - 1]);
      init.Success? && last.Success? && Blocks(registry, template, message, ctxs).value == init.value + last.value
  {
  }

  /** Each context's rendering is part of the concatenated output. */
  lemma {:induction false} BlocksContainEach(registry: map<string, Template>, template: string, message: string,
                                             ctxs: seq<Context>, i: int)
    requires Blocks(registry, template, message, ctxs).Success?
    requires 0 <= i < |ctxs|
    ensures RenderNamed(registry, template, ctxs[i]).Success?
    ensures Contains(Blocks(registry, template, message, ctxs).value, RenderNamed(registry, template, ctxs[i]).value)
  {
    var init := ctxs[..|ctxs| - 1];
    BlocksUnfold(registry, template, message, ctxs);
    var initText := Blocks(registry, template, message, init).value;
    var last := RenderNamed(registry, template, ctxs[|ctxs| - 1]).value;
    if i == |ctxs| - 1 {
      ContainsSuffix(initText, last);
    } else {
      assert init[i] == ctxs[i];
      BlocksContainEach(registry, template, message, init, i);
      ContainsBefore(initText, last, RenderNamed(registry, template, ctxs[i]).value);
    }
  }

  /** Blocks rendered along a walk of `items`, one context per visited entry: they
      render whenever every entry's context binds the template's holes; once the walk
      has covered all of `items`, success means exactly that, and then the text holds
      every entry's block. None of this depends on the order of the walk. */
  lemma BlocksOverWalk(registry: map<string, Template>, template: string, message: string,
                       walk: seq<Entry>, ctxs: seq<Context>, ctxOf: Entry -> Context, items: set<Entry>)
    requires |ctxs| == |walk| && forall i | 0 <= i < |walk| :: ctxs[i] == ctxOf(walk[i])
    requires Elems(walk) <= items
    ensures (items == {} || (template in registry && forall e | e in items :: Holes(registry[template]) <= ctxOf(e).Keys))
      ==> Blocks(registry, template, message, ctxs).Success?
    ensures Blocks(registry, template, message, ctxs).Success? && Elems(walk) == items ==>
      (items == {} || (template in registry && forall e | e in items :: Holes(registry[template]) <= ctxOf(e).Keys))
    ensures Blocks(registry, template, message, ctxs).Success? && Elems(walk) == items ==>
      forall e | e in items :: RenderNamed(registry, template, ctxOf(e)).Success?
        && Contains(Blocks(registry, template, message, ctxs).value, RenderNamed(registry, template, ctxOf(e)).value)
  {
    BlocksSucceedIff(registry, template, message, ctxs);
    assert |walk| > 0 ==> walk[0] in Elems(walk);
    if template in registry && forall e | e in items :: Holes(registry[template]) <= ctxOf(e).Keys {
      forall i | 0 <= i < |ctxs| ensures Holes(registry[template]) <= ctxs[i].Keys {
        assert walk[i] in Elems(walk);
      }
    }
    if Blocks(registry, template, message, ctxs).Success? && Elems(walk) == items {
      forall e | e in items
        ensures RenderNamed(registry, template, ctxOf(e)).Success?
        ensures Contains(Blocks(registry, template, message, ctxs).value, RenderNamed(registry, template, ctxOf(e)).value)
      {
        var i :| 0 <= i < |walk| && walk[i] == e;
        BlocksContainEach(registry, template, message, ctxs, i);
      }
      if items != {} {
        var e :| e in items;
        assert e in Elems(walk);
        forall e' | e' in items ensures Holes(registry[template]) <= ctxOf(e').Keys {
          var i :| 0 <= i < |walk| && walk[i] == e';
          assert ctxs[i] == ctxOf(e');
        }
      }
    }
  }

  /** A map has no entries exactly when it is empty. */
  lemma NoItemsIffEmpty(m: map<string, string>)
    ensures m.Items == {} <==> m == map[]
  {
    if m != map[] {
      var k :| k in m;
      assert (k, m[k]) in m.Items;
    }
  }

  /** What a finished or aborted generator loop has produced, independently of the
      order it visited the map in: it renders exactly when the map is empty or every
      entry's context binds the template's holes, a failure carries the family's
      message, and a success holds every entry's block. */
  lemma LoopOutcome(registry: map<string, Template>, template: string, message: string, ctxOf: Entry -> Context,
                    fieldMap: map<string, string>, walk: seq<Entry>)
    requires Distinct(walk) && Elems(walk) <= fieldMap.Items
    requires Blocks(registry, template, message, Contexts(ctxOf, walk)).Success? ==> IsWalk(walk, fieldMap.Items)
    ensures var r := Blocks(registry, template, message, Contexts(ctxOf, walk));
      && (r.Success? <==> (fieldMap == map[] || (template in registry &&
            forall e | e in fieldMap.Items :: Holes(registry[template]) <= ctxOf(e).Keys)))
      && (r.Failure? ==> r.error.RenderFailed? && r.error.message == message)
      && (r.Success? ==> forall e | e in fieldMap.Items ::
            RenderNamed(registry, template, ctxOf(e)).Success?
            && Contains(r.value, RenderNamed(registry, template, ctxOf(e)).value))
  {
    var ctxs := Contexts(ctxOf, walk);
    BlocksOverWalk(registry, template, message, walk, ctxs, ctxOf, fieldMap.Items);
    BlocksSucceedIff(registry, template, message, ctxs);
    NoItemsIffEmpty(fieldMap);
  }

  // ---------------------------------------------------------------------------
  // The three generator loops.
  // ---------------------------------------------------------------------------

  /** Renders `get_variant` once per entry of the variant map, in whatever order the
      map yields them. */
  method ImplGetVariant(name: string, fullname: string, whereClause: string, implGenerics: string,
                        fieldMap: map<string, string>, templater: Engine)
    returns (r: Result<string, Panic>, ghost walk: seq<Entry>)
    ensures Distinct(walk) && Elems(walk) <= fieldMap.Items
    ensures r.Success? ==> IsWalk(walk, fieldMap.Items)
    ensures r == Blocks(templater.templates, "get_variant", GET_VARIANT_FAILURE,
                        Contexts(GetVariantContextOf(name, fullname, whereClause, implGenerics), walk))
    ensures r.Success? <==> (fieldMap == map[] || ("get_variant" in templater.templates &&
      forall e | e in fieldMap.Items :: Holes(templater.templates["get_variant"]) <= GetVariantContext(name, fullname, whereClause, implGenerics, e.0, e.1).Keys))
    ensures r.Failure? ==> r.error.RenderFailed? && r.error.message == GET_VARIANT_FAILURE
    ensures r.Success? ==> forall e | e in fieldMap.Items ::
      RenderNamed(templater.templates, "get_variant", GetVariantContext(name, fullname, whereClause, implGenerics, e.0, e.1)).Success?
      && Contains(r.value, RenderNamed(templater.templates, "get_variant", GetVariantContext(name, fullname, whereClause, implGenerics, e.0, e.1)).value)
  {
    var implString := "";
    walk := [];
    var remaining := fieldMap.Items;
    WalkStart(remaining);
    while remaining != {}
      invariant WalkSplit(walk, remaining, fieldMap.Items)
      invariant Blocks(templater.templates, "get_variant", GET_VARIANT_FAILURE,
                       Contexts(GetVariantContextOf(name, fullname, whereClause, implGenerics), walk)) == Success(implString)
      decreases |remaining|
    {
      var entry :| entry in remaining;
      var (field, ty) := entry;
      var context: Context := map[];
      context := context["generics" := implGenerics];
      context := context["Type" := ty];
      context := context["Marker" := GetMarker(name, field)];
      context := context["fullname" := fullname];
      context := context["name" := name];
      context := context["field" := field];
      context := context["Where" := whereClause];
      assert context == GetVariantContext(name, fullname, whereClause, implGenerics, field, ty);
      ContextsSnoc(GetVariantContextOf(name, fullname, whereClause, implGenerics), walk, entry);
      BlocksSnoc(templater.templates, "get_variant", GET_VARIANT_FAILURE,
                 Contexts(GetVariantContextOf(name, fullname, whereClause, implGenerics), walk), context, implString);
      WalkStep(walk, remaining, fieldMap.Items, entry);
      var rendered := RenderNamed(templater.templates, "get_variant", context);
      walk := walk + [entry];
      remaining := remaining - {entry};
      if rendered.Failure? {
        LoopOutcome(templater.templates, "get_variant", GET_VARIANT_FAILURE, GetVariantContextOf(name, fullname, whereClause, implGenerics), fieldMap, walk);
        r := Failure(RenderFailed(GET_VARIANT_FAILURE, rendered.error));
        return;
      }
      implString := implString + rendered.value;
    }
    WalkDone(walk, fieldMap.Items);
    LoopOutcome(templater.templates, "get_variant", GET_VARIANT_FAILURE, GetVariantContextOf(name, fullname, whereClause, implGenerics), fieldMap, walk);
    r := Success(implString);
  }

  /** Renders `try_from` once per entry, each with the where-clause extended by the
      bound that selects the entry's `GetVariant` implementation. */
  method ImplTryFrom(name: string, fullname: string, whereClause: string, implGenerics: string,
                     fieldMap: map<string, string>, templater: Engine)
    returns (r: Result<string, Panic>, ghost walk: seq<Entry>)
    ensures Distinct(walk) && Elems(walk) <= fieldMap.Items
    ensures r.Success? ==> IsWalk(walk, fieldMap.Items)
    ensures r == Blocks(templater.templates, "try_from", TRY_FROM_FAILURE,
                        Contexts(TryFromContextOf(name, fullname, whereClause, implGenerics), walk))
    ensures r.Success? <==> (fieldMap == map[] || ("try_from" in templater.templates &&
      forall e | e in fieldMap.Items :: Holes(templater.templates["try_from"]) <= TryFromContext(name, fullname, whereClause, implGenerics, e.0, e.1).Keys))
    ensures r.Failure? ==> r.error.RenderFailed? && r.error.message == TRY_FROM_FAILURE
    ensures r.Success? ==> forall e | e in fieldMap.Items ::
      RenderNamed(templater.templates, "try_from", TryFromContext(name, fullname, whereClause, implGenerics, e.0, e.1)).Success?
      && Contains(r.value, RenderNamed(templater.templates, "try_from", TryFromContext(name, fullname, whereClause, implGenerics, e.0, e.1)).value)
  {
    var implString := "";
    walk := [];
    var remaining := fieldMap.Items;
    WalkStart(remaining);
    while remaining != {}
      invariant WalkSplit(walk, remaining, fieldMap.Items)
      invariant Blocks(templater.templates, "try_from", TRY_FROM_FAILURE,
                       Contexts(TryFromContextOf(name, fullname, whereClause, implGenerics), walk)) == Success(implString)
      decreases |remaining|
    {
      var entry :| entry in remaining;
      var (field, ty) := entry;
      var whereString := whereClause;
      var markerBound;
      if whereClause == "" {
        markerBound := "where\n " + fullname + ": GetVariant<" + ty + ", " + GetMarker(name, field) + ">";
      } else {
        markerBound := "\n " + fullname + ": GetVariant<" + ty + ", " + GetMarker(name, field) + ">";
      }
      WhereStringStep(whereClause, fullname, ty, GetMarker(name, field), markerBound);
      whereString := whereString + markerBound;
      var context: Context := map[];
      context := context["generics" := implGenerics];
      context := context["Type" := ty];
      context := context["fullname" := fullname];
      context := context["name" := name];
      context := context["Where" := whereString];
      assert context == TryFromContext(name, fullname, whereClause, implGenerics, field, ty);
      ContextsSnoc(TryFromContextOf(name, fullname, whereClause, implGenerics), walk, entry);
      BlocksSnoc(templater.templates, "try_from", TRY_FROM_FAILURE,
                 Contexts(TryFromContextOf(name, fullname, whereClause, implGenerics), walk), context, implString);
      WalkStep(walk, remaining, fieldMap.Items, entry);
      var rendered := RenderNamed(templater.templates, "try_from", context);
      walk := walk + [entry];
      remaining := remaining - {entry};
      if rendered.Failure? {
        LoopOutcome(templater.templates, "try_from", TRY_FROM_FAILURE, TryFromContextOf(name, fullname, whereClause, implGenerics), fieldMap, walk);
        r := Failure(RenderFailed(TRY_FROM_FAILURE, rendered.error));
        return;
      }
      implString := implString + rendered.value;
    }
    WalkDone(walk, fieldMap.Items);
    LoopOutcome(templater.templates, "try_from", TRY_FROM_FAILURE, TryFromContextOf(name, fullname, whereClause, implGenerics), fieldMap, walk);
    r := Success(implString);
  }

  /** The two literal forms of the added bound are the where-string's tail. */
  lemma WhereStringStep(whereClause: string, fullname: string, ty: string, marker: string, markerBound: string)
    requires markerBound == (if whereClause == "" then "where\n " else "\n ") + fullname + ": GetVariant<" + ty + ", " + marker + ">"
    ensures whereClause + markerBound == WhereString(whereClause, MarkerBound(fullname, ty, marker))
  {
  }

  /** Renders `from` once per entry. */
  method ImplFrom(fullname: string, whereClause: string, implGenerics: string,
                  fieldMap: map<string, string>, templater: Engine)
    returns (r: Result<string, Panic>, ghost walk: seq<Entry>)
    ensures Distinct(walk) && Elems(walk) <= fieldMap.Items
    ensures r.Success? ==> IsWalk(walk, fieldMap.Items)
    ensures r == Blocks(templater.templates, "from", FROM_FAILURE,
                        Contexts(FromContextOf(fullname, whereClause, implGenerics), walk))
    ensures r.Success? <==> (fieldMap == map[] || ("from" in templater.templates &&
      forall e | e in fieldMap.Items :: Holes(templater.templates["from"]) <= FromContext(fullname, whereClause, implGenerics, e.0, e.1).Keys))
    ensures r.Failure? ==> r.error.RenderFailed? && r.error.message == FROM_FAILURE
    ensures r.Success? ==> forall e | e in fieldMap.Items ::
      RenderNamed(templater.templates, "from", FromContext(fullname, whereClause, implGenerics, e.0, e.1)).Success?
      && Contains(r.value, RenderNamed(templater.templates, "from", FromContext(fullname, whereClause, implGenerics, e.0, e.1)).value)
  {
    var implString := "";
    walk := [];
    var remaining := fieldMap.Items;
    WalkStart(remaining);
    while remaining != {}
      invariant WalkSplit(walk, remaining, fieldMap.Items)
      invariant Blocks(templater.templates, "from", FROM_FAILURE,
                       Contexts(FromContextOf(fullname, whereClause, implGenerics), walk)) == Success(implString)
      decreases |remaining|
    {
      var entry :| entry in remaining;
      var (field, ty) := entry;
      var context: Context := map[];
      context := context["generics" := implGenerics];
      context := context["Type" := ty];
      context := context["fullname" := fullname];
      context := context["field" := field];
      context := context["Where" := whereClause];
      assert context == FromContext(fullname, whereClause, implGenerics, field, ty);
      ContextsSnoc(FromContextOf(fullname, whereClause, implGenerics), walk, entry);
      BlocksSnoc(templater.templates, "from", FROM_FAILURE,
                 Contexts(FromContextOf(fullname, whereClause, implGenerics), walk), context, implString);
      WalkStep(walk, remaining, fieldMap.Items, entry);
      var rendered := RenderNamed(templater.templates, "from", context);
      walk := walk + [entry];
      remaining := remaining - {entry};
      if rendered.Failure? {
        LoopOutcome(templater.templates, "from", FROM_FAILURE, FromContextOf(fullname, whereClause, implGenerics), fieldMap, walk);
        r := Failure(RenderFailed(FROM_FAILURE, rendered.error));
        return;
      }
      implString := implString + rendered.value;
    }
    WalkDone(walk, fieldMap.Items);
    LoopOutcome(templater.templates, "from", FROM_FAILURE, FromContextOf(fullname, whereClause, implGenerics), fieldMap, walk);
    r := Success(implString);
  }

  // ---------------------------------------------------------------------------
  // No rendering of the pipeline can fail, and every entry gets its blocks.
  // ---------------------------------------------------------------------------

  lemma GetVariantBlocksSucceed(name: string, fullname: string, whereClause: string, implGenerics: string, walk: seq<Entry>)
    ensures Blocks(Registry(), "get_variant", GET_VARIANT_FAILURE,
                   Contexts(GetVariantContextOf(name, fullname, whereClause, implGenerics), walk)).Success?
  {
    var ctxs := Contexts(GetVariantContextOf(name, fullname, whereClause, implGenerics), walk);
    forall i | 0 <= i < |ctxs| ensures Holes(Registry()["get_variant"]) <= ctxs[i].Keys {
      GetVariantContextBindsHoles(name, fullname, whereClause, implGenerics, walk[i].0, walk[i].1);
    }
    BlocksSucceedIff(Registry(), "get_variant", GET_VARIANT_FAILURE, ctxs);
  }

  lemma TryFromBlocksSucceed(name: string, fullname: string, whereClause: string, implGenerics: string, walk: seq<Entry>)
    ensures Blocks(Registry(), "try_from", TRY_FROM_FAILURE,
                   Contexts(TryFromContextOf(name, fullname, whereClause, implGenerics), walk)).Success?
  {
    var ctxs := Contexts(TryFromContextOf(name, fullname, whereClause, implGenerics), walk);
    forall i | 0 <= i < |ctxs| ensures Holes(Registry()["try_from"]) <= ctxs[i].Keys {
      TryFromContextBindsHoles(name, fullname, whereClause, implGenerics, walk[i].0, walk[i].1);
    }
    BlocksSucceedIff(Registry(), "try_from", TRY_FROM_FAILURE, ctxs);
  }

  lemma FromBlocksSucceed(fullname: string, whereClause: string, implGenerics: string, walk: seq<Entry>)
    ensures Blocks(Registry(), "from", FROM_FAILURE, Contexts(FromContextOf(fullname, whereClause, implGenerics), walk)).Success?
  {
    var ctxs := Contexts(FromContextOf(fullname, whereClause, implGenerics), walk);
    forall i | 0 <= i < |ctxs| ensures Holes(Registry()["from"]) <= ctxs[i].Keys {
      FromContextBindsHoles(fullname, whereClause, implGenerics, walk[i].0, walk[i].1);
    }
    BlocksSucceedIff(Registry(), "from", FROM_FAILURE, ctxs);
  }

  /** The get-variant text holds the block rendered for every visited entry. */
  lemma GetVariantBlocksCoverEntries(name: string, fullname: string, whereClause: string, implGenerics: string,
                                     walk: seq<Entry>, e: Entry)
    requires e in walk
    ensures var ctx := GetVariantContext(name, fullname, whereClause, implGenerics, e.0, e.1);
      var text := Blocks(Registry(), "get_variant", GET_VARIANT_FAILURE,
                         Contexts(GetVariantContextOf(name, fullname, whereClause, implGenerics), walk));
      text.Success? && Render(GET_VARIANT_TEMPLATE, ctx).Success?
      && Contains(text.value, Render(GET_VARIANT_TEMPLATE, ctx).value)
  {
    var i :| 0 <= i < |walk| && walk[i] == e;
    GetVariantBlocksSucceed(name, fullname, whereClause, implGenerics, walk);
    BlocksContainEach(Registry(), "get_variant", GET_VARIANT_FAILURE,
                      Contexts(GetVariantContextOf(name, fullname, whereClause, implGenerics), walk), i);
  }

  /** The try-from text holds the block rendered for every visited entry. */
  lemma TryFromBlocksCoverEntries(name: string, fullname: string, whereClause: string, implGenerics: string,
                                  walk: seq<Entry>, e: Entry)
    requires e in walk
    ensures var ctx := TryFromContext(name, fullname, whereClause, implGenerics, e.0, e.1);
      var text := Blocks(Registry(), "try_from", TRY_FROM_FAILURE,
                         Contexts(TryFromContextOf(name, fullname, whereClause, implGenerics), walk));
      text.Success? && Render(TRY_FROM_TEMPLATE, ctx).Success?
      && Contains(text.value, Render(TRY_FROM_TEMPLATE, ctx).value)
  {
    var i :| 0 <= i < |walk| && walk[i] == e;
    TryFromBlocksSucceed(name, fullname, whereClause, implGenerics, walk);
    BlocksContainEach(Registry(), "try_from", TRY_FROM_FAILURE,
                      Contexts(TryFromContextOf(name, fullname, whereClause, implGenerics), walk), i);
  }

  /** The from text holds the block rendered for every visited entry. */
  lemma FromBlocksCoverEntries(fullname: string, whereClause: string, implGenerics: string, walk: seq<Entry>, e: Entry)
    requires e in walk
    ensures var ctx := FromContext(fullname, whereClause, implGenerics, e.0, e.1);
      var text := Blocks(Registry(), "from", FROM_FAILURE, Contexts(FromContextOf(fullname, whereClause, implGenerics), walk));
      text.Success? && Render(FROM_TEMPLATE, ctx).Success?
      && Contains(text.value, Render(FROM_TEMPLATE, ctx).value)
  {
    var i :| 0 <= i < |walk| && walk[i] == e;
    FromBlocksSucceed(fullname, whereClause, implGenerics, walk);
    BlocksContainEach(Registry(), "from", FROM_FAILURE, Contexts(FromContextOf(fullname, whereClause, implGenerics), walk), i);
  }

  // ---------------------------------------------------------------------------
  // The whole expansion.
  // ---------------------------------------------------------------------------

  /** The orders in which the four loops visited the variant map. */
  datatype Walks = Walks(markers: seq<string>, getVariant: seq<Entry>, tryFrom: seq<Entry>, from: seq<Entry>)

  /** Each loop visited every entry of the map exactly once. */
  ghost predicate WalksOf(fieldMap: map<string, string>, walks: Walks) {
    IsWalk(walks.markers, fieldMap.Keys)
    && IsWalk(walks.getVariant, fieldMap.Items)
    && IsWalk(walks.tryFrom, fieldMap.Items)
    && IsWalk(walks.from, fieldMap.Items)
  }

  /** The expansion of the derive for the given visiting orders: the marker module,
      then the get-variant, try-from and from blocks; a shape error or a failed
      rendering aborts with no output. */
  function Expansion(ast: DeriveInput, printer: TokenPrinter, walks: Walks): Result<string, Panic> {
    var fields := FetchFieldsFromEnum(ast);
    if fields.Failure? then Failure(Shape(fields.error))
    else
      var name := ast.ident;
      var fullname := FullName(ast.ident, ast.generics.params);
      var generics := FetchImplGenerics(ast, printer);
      var gv := Blocks(Registry(), "get_variant", GET_VARIANT_FAILURE,
                       Contexts(GetVariantContextOf(name, fullname, generics.1, generics.0), walks.getVariant));
      var tf := Blocks(Registry(), "try_from", TRY_FROM_FAILURE,
                       Contexts(TryFromContextOf(name, fullname, generics.1, generics.0), walks.tryFrom));
      var fr := Blocks(Registry(), "from", FROM_FAILURE, Contexts(FromContextOf(fullname, generics.1, generics.0), walks.from));
      if gv.Failure? then gv
      else if tf.Failure? then tf
      else if fr.Failure? then fr
      else Success(MarkerModule(name, walks.markers) + gv.value + tf.value + fr.value)
  }

  /** The expansion fails exactly when the declaration has the wrong shape, and then
      with that shape error: no rendering of the registered templates can fail,
      whatever order the map is visited in. */
  lemma ExpansionSucceedsIff(ast: DeriveInput, printer: TokenPrinter, walks: Walks)
    ensures Expansion(ast, printer, walks).Success? <==> FetchFieldsFromEnum(ast).Success?
    ensures FetchFieldsFromEnum(ast).Failure? ==>
      Expansion(ast, printer, walks) == Failure(Shape(FetchFieldsFromEnum(ast).error))
  {
    var fullname := FullName(ast.ident, ast.generics.params);
    var generics := FetchImplGenerics(ast, printer);
    GetVariantBlocksSucceed(ast.ident, fullname, generics.1, generics.0, walks.getVariant);
    TryFromBlocksSucceed(ast.ident, fullname, generics.1, generics.0, walks.tryFrom);
    FromBlocksSucceed(fullname, generics.1, generics.0, walks.from);
  }

  /** For every variant of a well-shaped enum the expansion declares its marker in
      the leading marker module and holds its get-variant, try-from and from blocks,
      in the sections that follow in this order. */
  lemma ExpansionCoversEveryVariant(ast: DeriveInput, printer: TokenPrinter, walks: Walks, field: string)
    requires FetchFieldsFromEnum(ast).Success?
    requires WalksOf(FetchFieldsFromEnum(ast).value, walks)
    requires field in FetchFieldsFromEnum(ast).value
    ensures var ty := FetchFieldsFromEnum(ast).value[field];
      var name := ast.ident;
      var fullname := FullName(ast.ident, ast.generics.params);
      var generics := FetchImplGenerics(ast, printer);
      var gv := GetVariantContext(name, fullname, generics.1, generics.0, field, ty);
      var tf := TryFromContext(name, fullname, generics.1, generics.0, field, ty);
      var fr := FromContext(fullname, generics.1, generics.0, field, ty);
      Render(GET_VARIANT_TEMPLATE, gv).Success? && Render(TRY_FROM_TEMPLATE, tf).Success?
      && Render(FROM_TEMPLATE, fr).Success?
      && exists gvText, tfText, frText ::
           && Expansion(ast, printer, walks) == Success(MarkerModule(name, walks.markers) + gvText + tfText + frText)
           && Contains(MarkerModule(name, walks.markers), MarkerDecl(field))
           && Contains(gvText, Render(GET_VARIANT_TEMPLATE, gv).value)
           && Contains(tfText, Render(TRY_FROM_TEMPLATE, tf).value)
           && Contains(frText, Render(FROM_TEMPLATE, fr).value)
  {
    var fieldMap := FetchFieldsFromEnum(ast).value;
    var ty := fieldMap[field];
    var name := ast.ident;
    var fullname := FullName(ast.ident, ast.generics.params);
    var generics := FetchImplGenerics(ast, printer);
    assert (field, ty) in fieldMap.Items;
    assert field in Elems(walks.markers);
    MarkerPathIsDeclared(name, walks.markers, field);
    GetVariantBlocksCoverEntries(name, fullname, generics.1, generics.0, walks.getVariant, (field, ty));
    TryFromBlocksCoverEntries(name, fullname, generics.1, generics.0, walks.tryFrom, (field, ty));
    FromBlocksCoverEntries(fullname, generics.1, generics.0, walks.from, (field, ty));
    var gvText := Blocks(Registry(), "get_variant", GET_VARIANT_FAILURE,
                         Contexts(GetVariantContextOf(name, fullname, generics.1, generics.0), walks.getVariant)).value;
    var tfText := Blocks(Registry(), "try_from", TRY_FROM_FAILURE,
                         Contexts(TryFromContextOf(name, fullname, generics.1, generics.0), walks.tryFrom)).value;
    var frText := Blocks(Registry(), "from", FROM_FAILURE, Contexts(FromContextOf(fullname, generics.1, generics.0), walks.from)).value;
    assert Expansion(ast, printer, walks) == Success(MarkerModule(name, walks.markers) + gvText + tfText + frText);
  }

  /** The value of a successful expansion, section by section. */
  lemma ExpansionLayout(ast: DeriveInput, printer: TokenPrinter, walks: Walks, gv: string, tf: string, fr: string)
    requires FetchFieldsFromEnum(ast).Success?
    requires var fullname := FullName(ast.ident, ast.generics.params);
      var generics := FetchImplGenerics(ast, printer);
      && Blocks(Registry(), "get_variant", GET_VARIANT_FAILURE,
                Contexts(GetVariantContextOf(ast.ident, fullname, generics.1, generics.0), walks.getVariant)) == Success(gv)
      && Blocks(Registry(), "try_from", TRY_FROM_FAILURE,
                Contexts(TryFromContextOf(ast.ident, fullname, generics.1, generics.0), walks.tryFrom)) == Success(tf)
      && Blocks(Registry(), "from", FROM_FAILURE, Contexts(FromContextOf(fullname, generics.1, generics.0), walks.from)) == Success(fr)
    ensures Expansion(ast, printer, walks) == Success(MarkerModule(ast.ident, walks.markers) + gv + tf + fr)
  {
  }

  /** The generated text holds, for one variant, its marker declaration and the
      blocks its get-variant, try-from and from contexts render to. */
  ghost predicate VariantCovered(text: string, name: string, fullname: string, whereClause: string, implGenerics: string,
                                 field: string, ty: string) {
    var gv := GetVariantContext(name, fullname, whereClause, implGenerics, field, ty);
    var tf := TryFromContext(name, fullname, whereClause, implGenerics, field, ty);
    var fr := FromContext(fullname, whereClause, implGenerics, field, ty);
    && Contains(text, MarkerDecl(field))
    && Render(GET_VARIANT_TEMPLATE, gv).Success? && Contains(text, Render(GET_VARIANT_TEMPLATE, gv).value)
    && Render(TRY_FROM_TEMPLATE, tf).Success? && Contains(text, Render(TRY_FROM_TEMPLATE, tf).value)
    && Render(FROM_TEMPLATE, fr).Success? && Contains(text, Render(FROM_TEMPLATE, fr).value)
  }

  /** Text found in one of the four sections is found in the whole output. */
  lemma ContainsInSections(markers: string, gv: string, tf: string, fr: string, t: string)
    requires Contains(markers, t) || Contains(gv, t) || Contains(tf, t) || Contains(fr, t)
    ensures Contains(markers + gv + tf + fr, t)
  {
    if Contains(markers, t) {
      ContainsBefore(markers, gv + tf + fr, t);
      assert markers + (gv + tf + fr) == markers + gv + tf + fr;
    } else if Contains(gv, t) {
      ContainsInConcat(markers, gv, tf + fr, t);
      assert markers + gv + (tf + fr) == markers + gv + tf + fr;
    } else if Contains(tf, t) {
      ContainsInConcat(markers + gv, tf, fr, t);
    } else {
      ContainsInConcat(markers + gv + tf, fr, "", t);
      assert markers + gv + tf + fr + "" == markers + gv + tf + fr;
    }
  }

  /** The derive's expansion: registers the three templates, validates the
      declaration, then emits the marker module and the three families of blocks. */
  method ImplConversions(ast: DeriveInput, printer: TokenPrinter) returns (r: Result<string, Panic>, ghost walks: Walks)
    ensures r == Expansion(ast, printer, walks)
    ensures r.Success? <==> FetchFieldsFromEnum(ast).Success?
    ensures r.Success? ==> WalksOf(FetchFieldsFromEnum(ast).value, walks)
    ensures r.Success? ==>
      var fieldMap := FetchFieldsFromEnum(ast).value;
      var generics := FetchImplGenerics(ast, printer);
      forall field | field in fieldMap ::
        VariantCovered(r.value, ast.ident, FullName(ast.ident, ast.generics.params), generics.1, generics.0,
                       field, fieldMap[field])
  {
    var tera := new Engine();
    tera.AddRawTemplate("get_variant", GET_VARIANT_TEMPLATE);
    tera.AddRawTemplate("try_from", TRY_FROM_TEMPLATE);
    tera.AddRawTemplate("from", FROM_TEMPLATE);
    assert tera.templates == Registry();
    var tokens := "";
    var name := ast.ident;
    var fullname := FetchNameWithGenericParams(ast);
    var (implGenerics, whereClause) := FetchImplGenerics(ast, printer);
    walks := Walks([], [], [], []);
    var fields := FetchFieldsFromEnum(ast);
    if fields.Failure? {
      ExpansionSucceedsIff(ast, printer, walks);
      r := Failure(Shape(fields.error));
      return;
    }
    var fieldMap := fields.value;

    var markers, markerWalk := CreateMarkerEnums(name, fieldMap);
    tokens := tokens + markers;
    assert tokens == markers;
    var getVariant, getVariantWalk := ImplGetVariant(name, fullname, whereClause, implGenerics, fieldMap, tera);
    GetVariantBlocksSucceed(name, fullname, whereClause, implGenerics, getVariantWalk);
    tokens := tokens + getVariant.value;
    var tryFrom, tryFromWalk := ImplTryFrom(name, fullname, whereClause, implGenerics, fieldMap, tera);
    TryFromBlocksSucceed(name, fullname, whereClause, implGenerics, tryFromWalk);
    tokens := tokens + tryFrom.value;
    var from, fromWalk := ImplFrom(fullname, whereClause, implGenerics, fieldMap, tera);
    FromBlocksSucceed(fullname, whereClause, implGenerics, fromWalk);
    tokens := tokens + from.value;

    walks := Walks(markerWalk, getVariantWalk, tryFromWalk, fromWalk);
    assert tokens == MarkerModule(name, markerWalk) + getVariant.value + tryFrom.value + from.value;
    ExpansionLayout(ast, printer, walks, getVariant.value, tryFrom.value, from.value);
    forall field | field in fieldMap
      ensures VariantCovered(tokens, name, fullname, whereClause, implGenerics, field, fieldMap[field])
    {
      var ty := fieldMap[field];
      assert (field, ty) in fieldMap.Items;
      var gv := GetVariantContext(name, fullname, whereClause, implGenerics, field, ty);
      var tf := TryFromContext(name, fullname, whereClause, implGenerics, field, ty);
      var fr := FromContext(fullname, whereClause, implGenerics, field, ty);
      ContainsInSections(markers, getVariant.value, tryFrom.value, from.value, MarkerDecl(field));
      ContainsInSections(markers, getVariant.value, tryFrom.value, from.value, Render(GET_VARIANT_TEMPLATE, gv).value);
      ContainsInSections(markers, getVariant.value, tryFrom.value, from.value, Render(TRY_FROM_TEMPLATE, tf).value);
      ContainsInSections(markers, getVariant.value, tryFrom.value, from.value, Render(FROM_TEMPLATE, fr).value);
    }
    r := Success(tokens);
  }

  /** What the generated code does for one variant: `from` followed by the same
      variant's `get_variant` (or `try_from`, whose bound selects that
      implementation) gives the payload back, and the `get_variant` of any other
      variant refuses it, naming the enum and its own payload type. */
  lemma GeneratedConversionsRoundTrip<V>(name: string, fullname: string, whereClause: string, implGenerics: string,
                                         field: string, ty: string, other: string, otherTy: string, value: V,
                                         show: VariantAccessError -> string)
    ensures GET_VARIANT_HOLES <= GetVariantContext(name, fullname, whereClause, implGenerics, field, ty).Keys
    ensures GET_VARIANT_HOLES <= GetVariantContext(name, fullname, whereClause, implGenerics, other, otherTy).Keys
    ensures FROM_HOLES <= FromContext(fullname, whereClause, implGenerics, field, ty).Keys
    ensures var gv := GetVariantContext(name, fullname, whereClause, implGenerics, field, ty);
      var made := From(FromContext(fullname, whereClause, implGenerics, field, ty), value);
      GetVariant(gv, made) == Success(value) && TryFrom(gv, made, show) == Success(value)
    ensures var gv := GetVariantContext(name, fullname, whereClause, implGenerics, other, otherTy);
      var made := From(FromContext(fullname, whereClause, implGenerics, field, ty), value);
      other != field ==> GetVariant(gv, made) == Failure(WrongActiveField(fullname, otherTy))
  {
    GetVariantContextBindsHoles(name, fullname, whereClause, implGenerics, field, ty);
    GetVariantContextBindsHoles(name, fullname, whereClause, implGenerics, other, otherTy);
    FromContextBindsHoles(fullname, whereClause, implGenerics, field, ty);
  }

  /** The declaration `enum Enum { A(i64), B(bool) }`. */
  const TWO_VARIANT_ENUM: DeriveInput :=
    DeriveInput("Enum", Generics([], None), Enum([Variant("A", Unnamed(["i64"])), Variant("B", Unnamed(["bool"]))]))

  /** Its variant map has the two entries, its expansion succeeds, and the marker
      module declares both markers. */
  lemma TwoVariantExpansion(printer: TokenPrinter, walks: Walks)
    requires WalksOf(map["A" := "i64", "B" := "bool"], walks)
    ensures FetchFieldsFromEnum(TWO_VARIANT_ENUM) == Success(map["A" := "i64", "B" := "bool"])
    ensures FullName("Enum", []) == "Enum"
    ensures Expansion(TWO_VARIANT_ENUM, printer, walks).Success?
    ensures Contains(MarkerModule("Enum", walks.markers), MarkerDecl("A"))
    ensures Contains(MarkerModule("Enum", walks.markers), MarkerDecl("B"))
  {
    var vs := TWO_VARIANT_ENUM.data.variants;
    assert vs[..1] == [vs[0]];
    assert CollectFields(vs[..1]) == Success(map["A" := "i64"]);
    assert map["A" := "i64"]["B" := "bool"] == map["A" := "i64", "B" := "bool"];
    FullNameWithoutParams("Enum");
    ExpansionSucceedsIff(TWO_VARIANT_ENUM, printer, walks);
    assert "A" in Elems(walks.markers) && "B" in Elems(walks.markers);
    MarkerPathIsDeclared("Enum", walks.markers, "A");
    MarkerPathIsDeclared("Enum", walks.markers, "B");
  }

  /** The generated code gives 5 back from `Enum::A(5)` as an `i64` and refuses it
      as a `bool`, naming the enum and the requested type. */
  lemma TwoVariantAccess(generics: string, whereClause: string)
    ensures var a := GetVariantContext("Enum", "Enum", whereClause, generics, "A", "i64");
      var b := GetVariantContext("Enum", "Enum", whereClause, generics, "B", "bool");
      && GET_VARIANT_HOLES <= a.Keys && GET_VARIANT_HOLES <= b.Keys
      && GetVariant(a, EnumValue("A", 5)) == Success(5)
      && GetVariant(b, EnumValue("A", 5)) == Failure(WrongActiveField("Enum", "bool"))
  {
    GetVariantContextBindsHoles("Enum", "Enum", whereClause, generics, "A", "i64");
    GetVariantContextBindsHoles("Enum", "Enum", whereClause, generics, "B", "bool");
  }
}
