/** Schema extraction and validation for the deriving enum: its fully-applied
    name, its impl generics and where-clause, the variant-to-payload-type map,
    and the marker module that disambiguates the generated trait instances. */
module ParseEnum {
  import opened Wrappers
  import opened Syntax
  import opened Collections

  // ---------------------------------------------------------------------------
  // The fully-applied name: `Enum<'a,T,X>` for `enum Enum<'a, T: 'a + Debug, const X: usize>`
  // (the identifiers are joined by a bare comma, without spaces).
  // ---------------------------------------------------------------------------

  /** The text a generic parameter contributes to the fully-applied name: its bare
      identifier, bounds and const types left out, a lifetime with its apostrophe. */
  function ParamIdent(p: GenericParam): string {
    match p
    case TypeParam(ident, _) => ident
    case LifetimeParam(name, _) => "'" + name
    case ConstParam(ident, _) => ident
  }

  function ParamIdents(ps: seq<GenericParam>): (r: seq<string>)
    ensures |r| == |ps|
    ensures forall i | 0 <= i < |ps| :: r[i] == ParamIdent(ps[i])
  {
    if |ps| == 0 then [] else ParamIdents(ps[..|ps| - 1]) + [ParamIdent(ps[|ps| - 1])]
  }

  /** The items separated by single commas. */
  function JoinComma(xs: seq<string>): string {
    if |xs| == 0 then ""
    else if |xs| == 1 then xs[0]
    else JoinComma(xs[..|xs| - 1]) + "," + xs[|xs| - 1]
  }

  /** The pieces of `s` between commas (one piece when there is no comma). */
  function SplitComma(s: string): (r: seq<string>)
    ensures |r| >= 1
  {
    if |s| == 0 then [""]
    else
      var init := SplitComma(s[..|s| - 1]);
      if s[|s| - 1] == ',' then init + [""]
      else init[..|init| - 1] + [init[|init| - 1] + [s[|s| - 1]]]
  }

  /** The name of the enum with its generic parameters applied, as the generated
      impl headers refer to it. */
  function FullName(ident: string, params: seq<GenericParam>): string {
    var joined := JoinComma(ParamIdents(params));
    if joined != "" then ident + "<" + joined + ">" else ident
  }

  /** Every item followed by a comma: what the loop of `FetchNameWithGenericParams`
      has built before the trailing comma is popped. */
  ghost function Terminated(xs: seq<string>): string {
    if |xs| == 0 then "" else Terminated(xs[..|xs| - 1]) + xs[|xs| - 1] + ","
  }

  lemma {:induction false} TerminatedIsJoinedPlusComma(xs: seq<string>)
    ensures |xs| == 0 ==> Terminated(xs) == ""
    ensures |xs| > 0 ==> Terminated(xs) == JoinComma(xs) + ","
  {
    if |xs| > 1 {
      TerminatedIsJoinedPlusComma(xs[..|xs| - 1]);
    } else if |xs| == 1 {
      assert xs[..0] == [];
    }
  }

  lemma ParamIdentsSnoc(params: seq<GenericParam>, i: int)
    requires 0 <= i < |params|
    ensures ParamIdents(params[..i + 1]) == ParamIdents(params[..i]) + [ParamIdent(params[i])]
  {
    assert params[..i + 1][..i] == params[..i];
  }

  lemma TerminatedStep(params: seq<GenericParam>, i: int, built: string, next: string)
    requires 0 <= i < |params|
    requires built == Terminated(ParamIdents(params[..i]))
    requires next == ParamIdent(params[i])
    ensures built + next + "," == Terminated(ParamIdents(params[..i + 1]))
  {
    ParamIdentsSnoc(params, i);
    var xs := ParamIdents(params[..i + 1]);
    assert xs[..|xs| - 1] == ParamIdents(params[..i]);
  }

  /** Popping the last character of the terminated list leaves the joined list. */
  lemma PopTrailingComma(xs: seq<string>, built: string)
    requires built == Terminated(xs)
    ensures (if |built| > 0 then built[..|built| - 1] else built) == JoinComma(xs)
  {
    TerminatedIsJoinedPlusComma(xs);
    if |xs| > 0 {
      assert built[..|built| - 1] == JoinComma(xs);
    }
  }

  /** Builds the fully-applied name by appending `ident,` per parameter and popping
      the last character. */
  method FetchNameWithGenericParams(ast: DeriveInput) returns (r: string)
    ensures r == FullName(ast.ident, ast.generics.params)
  {
    var params := ast.generics.params;
    var paramString := "";
    for i := 0 to |params|
      invariant paramString == Terminated(ParamIdents(params[..i]))
    {
      var next := match params[i]
        case TypeParam(ident, _) => ident
        case LifetimeParam(name, _) => "'" + name
        case ConstParam(ident, _) => ident;
      TerminatedStep(params, i, paramString, next);
      paramString := paramString + next + ",";
    }
    assert params[..|params|] == params;
    PopTrailingComma(ParamIdents(params), paramString);
    if |paramString| > 0 {
      paramString := paramString[..|paramString| - 1];
    }
    if paramString != "" {
      r := ast.ident + "<" + paramString + ">";
    } else {
      r := ast.ident;
    }
  }

  /** Without generic parameters the fully-applied name is the bare enum name. */
  lemma FullNameWithoutParams(ident: string)
    ensures FullName(ident, []) == ident
  {
  }

  /** Identifiers of the parser's grammar are never empty, and then every declared
      parameter list shows up between angle brackets. */
  lemma {:induction false} FullNameWithParams(ident: string, params: seq<GenericParam>)
    requires |params| >= 1
    requires forall i | 0 <= i < |params| :: ParamIdent(params[i]) != ""
    ensures FullName(ident, params) == ident + "<" + JoinComma(ParamIdents(params)) + ">"
  {
    var xs := ParamIdents(params);
    if |xs| == 1 {
      assert JoinComma(xs) == xs[0];
    } else {
      assert JoinComma(xs) == JoinComma(xs[..|xs| - 1]) + "," + xs[|xs| - 1];
    }
  }

  lemma SplitSnoc(s: string, c: char)
    ensures var init := SplitComma(s);
      SplitComma(s + [c]) == if c == ',' then init + [""] else init[..|init| - 1] + [init[|init| - 1] + [c]]
  {
    assert (s + [c])[..|s|] == s;
  }

  /** Appending comma-free text extends the last piece. */
  lemma {:induction false} SplitAppendNoComma(a: string, b: string)
    requires ',' !in b
    ensures var sa := SplitComma(a);
      SplitComma(a + b) == sa[..|sa| - 1] + [sa[|sa| - 1] + b]
    decreases |b|
  {
    var sa := SplitComma(a);
    if |b| == 0 {
      assert a + b == a;
      assert sa[|sa| - 1] + b == sa[|sa| - 1];
      assert sa[..|sa| - 1] + [sa[|sa| - 1]] == sa;
    } else {
      var b' := b[..|b| - 1];
      var c := b[|b| - 1];
      assert c != ',' && ',' !in b' by {
        assert c in b;
        assert forall x | x in b' :: x in b;
      }
      assert SplitComma(a + b) == sa[..|sa| - 1] + [sa[|sa| - 1] + b] by {
        SplitAppendNoComma(a, b');
        SplitAppendStep(a, b', c, sa[..|sa| - 1], sa[|sa| - 1]);
        assert b' + [c] == b;
      }
    }
  }

  lemma SplitAppendStep(a: string, b: string, c: char, front: seq<string>, last: string)
    requires c != ','
    requires SplitComma(a + b) == front + [last + b]
    ensures SplitComma(a + (b + [c])) == front + [last + (b + [c])]
  {
    SplitExtendLast(a + b, c, front, last + b);
    assert (a + b) + [c] == a + (b + [c]);
    assert last + b + [c] == last + (b + [c]);
  }

  lemma SplitExtendLast(s: string, c: char, front: seq<string>, last: string)
    requires c != ','
    requires SplitComma(s) == front + [last]
    ensures SplitComma(s + [c]) == front + [last + [c]]
  {
    SplitSnoc(s, c);
    assert (front + [last])[..|front|] == front;
  }

  /** Round trip: splitting the joined list at its commas gives back the items,
      provided none of them contains a comma (identifiers never do). */
  lemma {:induction false} SplitJoinComma(xs: seq<string>)
    requires |xs| >= 1
    requires forall i | 0 <= i < |xs| :: ',' !in xs[i]
    ensures SplitComma(JoinComma(xs)) == xs
  {
    if |xs| == 1 {
      SplitAppendNoComma("", xs[0]);
      assert "" + xs[0] == xs[0];
      assert SplitComma("") == [""];
    } else {
      var init := xs[..|xs| - 1];
      var x := xs[|xs| - 1];
      assert SplitComma(JoinComma(init)) == init by {
        SplitJoinComma(init);
      }
      assert init + [x] == xs;
      SplitJoinStep(init, x);
    }
  }

  lemma SplitJoinStep(init: seq<string>, x: string)
    requires |init| >= 1
    requires SplitComma(JoinComma(init)) == init
    requires ',' !in x
    ensures SplitComma(JoinComma(init + [x])) == init + [x]
  {
    var j := JoinComma(init) + ",";
    assert SplitComma(j) == init + [""] by {
      SplitSnoc(JoinComma(init), ',');
    }
    assert SplitComma(j + x) == init + [x] by {
      SplitAppendNoComma(j, x);
      assert (init + [""])[..|init|] == init;
      assert "" + x == x;
    }
    assert JoinComma(init + [x]) == j + x by {
      assert (init + [x])[..|init|] == init;
    }
  }

  /** The text between the angle brackets lists the bare identifiers of the
      parameters in declaration order: splitting it at its commas recovers them. */
  lemma ParamListRecoversIdents(ident: string, params: seq<GenericParam>)
    requires |params| >= 1
    requires forall i | 0 <= i < |params| :: ParamIdent(params[i]) != "" && ',' !in ParamIdent(params[i])
    ensures var inner := JoinComma(ParamIdents(params));
      FullName(ident, params) == ident + "<" + inner + ">" && SplitComma(inner) == ParamIdents(params)
  {
    FullNameWithParams(ident, params);
    SplitJoinComma(ParamIdents(params));
  }

  /** Bounds, lifetime bounds and const types never reach the fully-applied name:
      parameters that differ only in them give the same name. */
  lemma {:induction false} FullNameIgnoresBounds(ident: string, ps: seq<GenericParam>, qs: seq<GenericParam>)
    requires |ps| == |qs|
    requires forall i | 0 <= i < |ps| ::
      match ps[i]
      case TypeParam(id, _) => qs[i].TypeParam? && qs[i].ident == id
      case LifetimeParam(n, _) => qs[i].LifetimeParam? && qs[i].name == n
      case ConstParam(id, _) => qs[i].ConstParam? && qs[i].ident == id
    ensures FullName(ident, ps) == FullName(ident, qs)
  {
    assert ParamIdents(ps) == ParamIdents(qs) by {
      forall i | 0 <= i < |ps| ensures ParamIdents(ps)[i] == ParamIdents(qs)[i] {
        match ps[i]
        case TypeParam(_, _) =>
        case LifetimeParam(_, _) =>
        case ConstParam(_, _) =>
      }
    }
  }

  // ---------------------------------------------------------------------------
  // Impl generics and the where-clause.
  // ---------------------------------------------------------------------------

  /** The generic parameter list for impl headers, rendered from the generics with
      the where-clause taken out, and the where-clause rendered on its own
      (empty text when none is declared). */
  function FetchImplGenerics(ast: DeriveInput, printer: TokenPrinter): (string, string) {
    var generics := ast.generics;
    var whereClause := generics.whereClause;
    var generics := generics.(whereClause := None);
    (printer.generics(generics),
     match whereClause
     case Some(w) => printer.whereClause(w)
     case None => "")
  }

  /** The impl generics depend on the declared parameters only, never on the
      where-clause, which is split off before rendering. */
  lemma ImplGenericsIgnoreWhereClause(ast: DeriveInput, other: DeriveInput, printer: TokenPrinter)
    requires ast.generics.params == other.generics.params
    ensures FetchImplGenerics(ast, printer).0 == FetchImplGenerics(other, printer).0
    ensures FetchImplGenerics(ast, printer).0 == printer.generics(Generics(ast.generics.params, None))
  {
  }

  /** If the printer renders every where-clause to some text, the where component
      is empty exactly when no where-clause is declared; without a where-clause it
      is empty whatever the printer does. */
  lemma WhereComponentEmpty(ast: DeriveInput, printer: TokenPrinter)
    ensures ast.generics.whereClause.None? ==> FetchImplGenerics(ast, printer).1 == ""
    ensures (forall w :: printer.whereClause(w) != "") ==>
      (FetchImplGenerics(ast, printer).1 == "" <==> ast.generics.whereClause.None?)
    ensures ast.generics.whereClause.Some? ==>
      FetchImplGenerics(ast, printer).1 == printer.whereClause(ast.generics.whereClause.value)
  {
  }

  // ---------------------------------------------------------------------------
  // Variant map and shape validation.
  // ---------------------------------------------------------------------------

  /** The reasons the derive refuses a declaration. */
  datatype ShapeError = NotAnEnum | MultipleFields | NamedFields | UnitVariant

  /** The panic message for each refusal. A payload-less tuple variant `V()` is
      reported with the multiple-fields message. */
  function ShapeMessage(e: ShapeError): string {
    match e
    case NotAnEnum => "Can only derive for enums."
    case MultipleFields => "Can only derive for enums whose types do not contain multiple fields."
    case NamedFields => "Can only derive for enums whose types do not have named fields."
    case UnitVariant => "Can only derive for enums who don't contain unit types as variants."
  }

  /** Each refusal is reported with its own message. */
  lemma ShapeMessagesDistinct(e: ShapeError, f: ShapeError)
    requires e != f
    ensures ShapeMessage(e) != ShapeMessage(f)
  {
    assert |ShapeMessage(NotAnEnum)| == 26 && |ShapeMessage(MultipleFields)| == 69;
    assert |ShapeMessage(NamedFields)| == 63 && |ShapeMessage(UnitVariant)| == 67;
  }

  /** The payload type text of one variant, or why the variant is refused. */
  function VariantPayload(v: Variant): Result<string, ShapeError> {
    match v.fields
    case Unnamed(types) => if |types| != 1 then Failure(MultipleFields) else Success(types[0])
    case Named(_) => Failure(NamedFields)
    case Unit => Failure(UnitVariant)
  }

  /** Variant `i` is the first one refused. */
  predicate FirstRefused(vs: seq<Variant>, i: int) {
    0 <= i < |vs| && VariantPayload(vs[i]).Failure?
    && forall j | 0 <= j < i :: VariantPayload(vs[j]).Success?
  }

  /** No later variant carries the same identifier as variant `i`. */
  predicate LastWithIdent(vs: seq<Variant>, i: int) {
    0 <= i < |vs| && forall j | i < j < |vs| :: vs[j].ident != vs[i].ident
  }

  function VariantIdents(vs: seq<Variant>): set<string> {
    set i | 0 <= i < |vs| :: vs[i].ident
  }

  /** Maps every variant to its payload type, in declaration order, failing on the
      first refused variant (collecting into a hash map: a later key overwrites). */
  function CollectFields(vs: seq<Variant>): Result<map<string, string>, ShapeError> {
    if |vs| == 0 then Success(map[])
    else
      var m :- CollectFields(vs[..|vs| - 1]);
      var ty :- VariantPayload(vs[|vs| - 1]);
      Success(m[vs[|vs| - 1].ident := ty])
  }

  /** Collecting succeeds exactly when every variant has one unnamed field, and
      otherwise fails with the error of the first variant refused. */
  lemma {:induction false} CollectFieldsOutcome(vs: seq<Variant>)
    ensures CollectFields(vs).Success? <==> forall i | 0 <= i < |vs| :: VariantPayload(vs[i]).Success?
    ensures CollectFields(vs).Failure? ==>
      exists i :: FirstRefused(vs, i) && CollectFields(vs).error == VariantPayload(vs[i]).error
  {
    if |vs| > 0 {
      var init := vs[..|vs| - 1];
      CollectFieldsOutcome(init);
      assert forall i | 0 <= i < |init| :: init[i] == vs[i];
      if CollectFields(init).Failure? {
        var i :| FirstRefused(init, i) && CollectFields(init).error == VariantPayload(init[i]).error;
        assert FirstRefused(vs, i);
      } else if VariantPayload(vs[|vs| - 1]).Failure? {
        assert FirstRefused(vs, |vs| - 1);
      }
    }
  }

  /** A successful collection has exactly the variant identifiers as keys. */
  lemma {:induction false} CollectFieldsKeys(vs: seq<Variant>)
    requires CollectFields(vs).Success?
    ensures CollectFields(vs).value.Keys == VariantIdents(vs)
  {
    if |vs| > 0 {
      var init := vs[..|vs| - 1];
      var last := vs[|vs| - 1];
      CollectFieldsKeys(init);
      assert CollectFields(vs).value.Keys == CollectFields(init).value.Keys + {last.ident};
      assert VariantIdents(vs) == VariantIdents(init) + {last.ident} by {
        forall k | k in VariantIdents(vs) ensures k in VariantIdents(init) + {last.ident} {
          var i :| 0 <= i < |vs| && vs[i].ident == k;
          if i < |init| { assert init[i].ident == k; }
        }
        forall k | k in VariantIdents(init) ensures k in VariantIdents(vs) {
          var i :| 0 <= i < |init| && init[i].ident == k;
          assert vs[i].ident == k;
        }
      }
    }
  }

  /** A successful collection maps each identifier to the payload type of the last
      variant that carries it. */
  lemma {:induction false} CollectFieldsValues(vs: seq<Variant>, i: int)
    requires CollectFields(vs).Success?
    requires LastWithIdent(vs, i)
    ensures VariantPayload(vs[i]).Success?
    ensures vs[i].ident in CollectFields(vs).value
    ensures CollectFields(vs).value[vs[i].ident] == VariantPayload(vs[i]).value
  {
    var init := vs[..|vs| - 1];
    var last := vs[|vs| - 1];
    var m := CollectFields(init).value;
    assert CollectFields(vs).value == m[last.ident := VariantPayload(last).value];
    if i < |init| {
      assert init[i] == vs[i];
      assert LastWithIdent(init, i) by {
        forall j | i < j < |init| ensures init[j].ident != init[i].ident {
          assert init[j] == vs[j];
        }
      }
      assert vs[i].ident != last.ident;
      CollectFieldsValues(init, i);
    }
  }

  /** The variant map of the declaration, or the reason it is refused. */
  function FetchFieldsFromEnum(ast: DeriveInput): Result<map<string, string>, ShapeError> {
    if ast.data.Enum? then CollectFields(ast.data.variants) else Failure(NotAnEnum)
  }

  /** Anything but an enum is refused with the not-an-enum error. */
  lemma FetchFieldsRejectsNonEnum(ast: DeriveInput)
    ensures FetchFieldsFromEnum(ast).Failure? <==>
      !ast.data.Enum? || exists i | 0 <= i < |ast.data.variants| :: VariantPayload(ast.data.variants[i]).Failure?
    ensures !ast.data.Enum? ==> FetchFieldsFromEnum(ast) == Failure(NotAnEnum)
  {
    if ast.data.Enum? {
      CollectFieldsOutcome(ast.data.variants);
    }
  }

  /** K accepted variants with distinct names give a map with exactly K entries. */
  lemma {:induction false} FieldMapHasOneEntryPerVariant(vs: seq<Variant>)
    requires forall i | 0 <= i < |vs| :: VariantPayload(vs[i]).Success?
    requires forall i, j | 0 <= i < j < |vs| :: vs[i].ident != vs[j].ident
    ensures CollectFields(vs).Success?
    ensures |CollectFields(vs).value| == |vs|
    ensures forall i | 0 <= i < |vs| ::
      vs[i].ident in CollectFields(vs).value && CollectFields(vs).value[vs[i].ident] == VariantPayload(vs[i]).value
  {
    CollectFieldsOutcome(vs);
    CollectFieldsKeys(vs);
    forall i | 0 <= i < |vs|
      ensures vs[i].ident in CollectFields(vs).value && CollectFields(vs).value[vs[i].ident] == VariantPayload(vs[i]).value
    {
      CollectFieldsValues(vs, i);
    }
    var names := seq(|vs|, i requires 0 <= i < |vs| => vs[i].ident);
    assert Distinct(names);
    DistinctCardinality(names);
    assert Elems(names) == VariantIdents(vs) by {
      forall k | k in VariantIdents(vs) ensures k in Elems(names) {
        var i :| 0 <= i < |vs| && vs[i].ident == k;
        assert names[i] == k;
      }
    }
    assert |CollectFields(vs).value| == |CollectFields(vs).value.Keys|;
  }

  /** The two declarations of the repository's tests and the maps they expect. */
  lemma CollectFieldsExamples()
    ensures FetchFieldsFromEnum(DeriveInput("TupleTest", Generics([], None),
              Enum([Variant("F1", Unnamed(["(i64 , bool)"]))])))
            == Success(map["F1" := "(i64 , bool)"])
    ensures FetchFieldsFromEnum(DeriveInput("TupleTest", Generics([LifetimeParam("a", [])], None),
              Enum([Variant("F1", Unnamed(["(& 'a i64 , bool)"]))])))
            == Success(map["F1" := "(& 'a i64 , bool)"])
  {
  }

  // ---------------------------------------------------------------------------
  // Marker enums.
  // ---------------------------------------------------------------------------

  /** The path of the marker type of variant `field` of enum `name`. */
  function GetMarker(name: string, field: string): string {
    "enum___conversion___" + name + "::" + field
  }

  /** The declaration of one marker type. */
  function MarkerDecl(field: string): string {
    "pub(crate) enum " + field + "{}"
  }

  function MarkerDecls(walk: seq<string>): string {
    if |walk| == 0 then "" else MarkerDecls(walk[..|walk| - 1]) + MarkerDecl(walk[|walk| - 1])
  }

  /** The marker module text emitted for `name` when the variant map's keys are
      visited in the order `walk`. */
  function MarkerModule(name: string, walk: seq<string>): string {
    "#[allow(non_snake_case]\n mod enum___conversion___" + name + "{ " + MarkerDecls(walk) + "}"
  }

  /** Emits one private module named after the enum with one empty marker enum per
      variant, visiting the map's keys in whatever order the map yields them. */
  method CreateMarkerEnums(name: string, types: map<string, string>) returns (piece: string, ghost walk: seq<string>)
    ensures IsWalk(walk, types.Keys)
    ensures piece == MarkerModule(name, walk)
    ensures var opening := "#[allow(non_snake_case]\n mod enum___conversion___" + name + "{ ";
      |piece| > |opening| && piece[..|opening|] == opening && piece[|piece| - 1] == '}'
    ensures forall k | k in types :: Contains(piece, MarkerDecl(k))
  {
    piece := "#[allow(non_snake_case]\n mod enum___conversion___" + name;
    piece := piece + "{ ";
    ghost var head := piece;
    walk := [];
    var remaining := types.Keys;
    WalkStart(remaining);
    while remaining != {}
      invariant WalkSplit(walk, remaining, types.Keys)
      invariant piece == head + MarkerDecls(walk)
      decreases |remaining|
    {
      var field :| field in remaining;
      WalkStep(walk, remaining, types.Keys, field);
      MarkerDeclsStep(head, piece, walk, field);
      piece := piece + "pub(crate) enum " + field + "{}";
      walk := walk + [field];
      remaining := remaining - {field};
    }
    WalkDone(walk, types.Keys);
    MarkerModuleClose(name, head, piece, walk);
    piece := piece + "}";
    forall k | k in types ensures Contains(piece, MarkerDecl(k)) {
      assert k in Elems(walk);
      MarkerPathIsDeclared(name, walk, k);
    }
  }

  lemma MarkerDeclsStep(head: string, piece: string, walk: seq<string>, field: string)
    requires piece == head + MarkerDecls(walk)
    ensures piece + "pub(crate) enum " + field + "{}" == head + MarkerDecls(walk + [field])
  {
    assert (walk + [field])[..|walk|] == walk;
  }

  lemma MarkerModuleClose(name: string, head: string, piece: string, walk: seq<string>)
    requires head == "#[allow(non_snake_case]\n mod enum___conversion___" + name + "{ "
    requires piece == head + MarkerDecls(walk)
    ensures piece + "}" == MarkerModule(name, walk)
  {
  }

  lemma {:induction false} MarkerDeclsDeclareEach(walk: seq<string>, k: string)
    requires k in walk
    ensures Contains(MarkerDecls(walk), MarkerDecl(k))
  {
    var init := walk[..|walk| - 1];
    if k == walk[|walk| - 1] {
      ContainsItself(MarkerDecl(k));
      ContainsInConcat(MarkerDecls(init), MarkerDecl(k), "", MarkerDecl(k));
      assert MarkerDecls(init) + MarkerDecl(k) + "" == MarkerDecls(walk);
    } else {
      assert k in init;
      MarkerDeclsDeclareEach(init, k);
      ContainsInConcat("", MarkerDecls(init), MarkerDecl(walk[|walk| - 1]), MarkerDecl(k));
      assert "" + MarkerDecls(init) + MarkerDecl(walk[|walk| - 1]) == MarkerDecls(walk);
    }
  }

  /** The path `GetMarker(name, k)` names something the marker module declares: its
      module part is the module the text opens, and a marker `k` is declared
      inside it for every key of the walked map. */
  lemma MarkerPathIsDeclared(name: string, walk: seq<string>, k: string)
    requires k in walk
    ensures var modName := "enum___conversion___" + name;
      GetMarker(name, k) == modName + "::" + k
      && MarkerModule(name, walk) == "#[allow(non_snake_case]\n mod " + modName + "{ " + MarkerDecls(walk) + "}"
      && Contains(MarkerModule(name, walk), MarkerDecl(k))
  {
    var modName := "enum___conversion___" + name;
    var head := "#[allow(non_snake_case]\n mod enum___conversion___" + name + "{ ";
    assert MarkerModule(name, walk) == "#[allow(non_snake_case]\n mod " + modName + "{ " + MarkerDecls(walk) + "}" by {
      MarkerModuleOpening();
    }
    assert Contains(MarkerModule(name, walk), MarkerDecl(k)) by {
      MarkerDeclsDeclareEach(walk, k);
      ContainsInConcat(head, MarkerDecls(walk), "}", MarkerDecl(k));
    }
  }

  /** The attribute line and the `mod` keyword precede the module name. */
  lemma MarkerModuleOpening()
    ensures "#[allow(non_snake_case]\n mod enum___conversion___" == "#[allow(non_snake_case]\n mod " + "enum___conversion___"
  {
  }

  lemma MarkerCharacters(name: string, field: string)
    ensures var p := GetMarker(name, field);
      |p| == 22 + |name| + |field| && p[20 + |name|] == ':'
      && forall k | 0 <= k < |name| :: p[20 + k] == name[k]
  {
  }

  /** Marker paths never collide: as long as enum names carry no `:` (identifiers
      cannot), distinct (enum, variant) pairs get distinct marker paths. */
  lemma GetMarkerInjective(name: string, field: string, name': string, field': string)
    requires ':' !in name && ':' !in name'
    requires GetMarker(name, field) == GetMarker(name', field')
    ensures name == name' && field == field'
  {
    var p := GetMarker(name, field);
    var q := GetMarker(name', field');
    var n := |"enum___conversion___"|;
    MarkerCharacters(name, field);
    MarkerCharacters(name', field');
    if |name| < |name'| {
      assert false;
    } else if |name'| < |name| {
      assert false;
    } else {
      assert name == p[n..n + |name|];
      assert name' == q[n..n + |name'|];
      assert field == p[n + |name| + 2..];
      assert field' == q[n + |name'| + 2..];
    }
  }
}
