/** The parsed enum declaration the derive macro receives, reduced to what the
    generator looks at. Identifiers and types are the text the parser library
    renders for them. */
module Syntax {
  import opened Wrappers

  /** One declared generic parameter. `bounds` holds the rendered text of each bound;
      a lifetime's `name` is written without its leading apostrophe. */
  datatype GenericParam =
    | TypeParam(ident: string, bounds: seq<string>)
    | LifetimeParam(name: string, bounds: seq<string>)
    | ConstParam(ident: string, ty: string)

  /** A `where` clause, as the rendered text of each predicate. */
  datatype WhereClause = WhereClause(predicates: seq<string>)

  datatype Generics = Generics(params: seq<GenericParam>, whereClause: Option<WhereClause>)

  /** The fields of one variant: positional types, named (ident, type) pairs, or none. */
  datatype Fields =
    | Unnamed(types: seq<string>)
    | Named(fields: seq<(string, string)>)
    | Unit

  datatype Variant = Variant(ident: string, fields: Fields)

  /** The body of the deriving item: only an enum carries variants. */
  datatype Data = Enum(variants: seq<Variant>) | Struct | Union

  datatype DeriveInput = DeriveInput(ident: string, generics: Generics, data: Data)

  /** The parser library's rendering of generics and where-clauses to text
      (`to_token_stream().to_string()`), which the model leaves uninterpreted. */
  datatype TokenPrinter = TokenPrinter(generics: Generics -> string, whereClause: WhereClause -> string)
}
