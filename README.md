# enum-conversion-derive, modelled in Dafny

`EnumConversions` is a Rust derive macro. It is placed on an enum whose variants each carry exactly one
unnamed payload, for example `enum Enum<'a, T> { A(i64), B(&'a T) }`. It then generates four pieces of code:

- a private module `enum___conversion___Enum` that declares one empty marker enum per variant;
- one `GetVariant<Type, Marker>` implementation per variant. It offers by-value, by-reference and
  by-mutable-reference access to the payload, or an error that names the enum and the requested type;
- one `TryFrom<Enum>` implementation for each payload type. Its where-clause gets one extra bound that
  selects the `GetVariant` implementation of that variant's marker;
- one `From<payload type>` implementation for the enum.

The macro works on text. It reads the parsed declaration, checks its shape, builds a variant-to-payload-type
map, and fills three templates with the template engine Tera. It then concatenates the results.

This project models that pipeline on values and proves the properties listed below. The modules are:

- `Syntax` (`syntax.dfy`): the parsed declaration as the parser library would give it: generic parameters,
  where-clause, data kind, variants and fields. Names and type texts are opaque strings.
  `TokenPrinter` stands for the parser library's rendering of a token tree to text.
- `ParseEnum` (`parse_enum.dfy`): `src/parse_enum.rs`. This covers the fully-applied name, which is built by
  an append-then-pop loop. It also covers the split of the impl generics from the where-clause, the variant
  map with its shape errors, the marker module (built by a loop over the map's keys) and the marker path.
- `Tera` (`tera.dfy`): the template engine, reduced to hole substitution. A template is a sequence of literal
  text and `{{ name }}` holes. Rendering fails on the first hole that the context leaves unbound, or when
  the template name is not registered. `Engine` is the named-template registry, with its mutable map.
- `Templates` (`templates.dfy`): `src/templates.rs`. It holds the three templates as segment sequences and
  a value semantics for the code they generate. In that semantics an enum value is its active variant plus
  its payload, and the code gives `get_variant`, `get_variant_ref`, `get_variant_mut`, `from` and `try_from`.
- `EnumConversions` (`lib.dfy`): `src/lib.rs`. It holds the three generator loops, which render one block
  per map entry, and `ImplConversions`. That method registers the templates, validates the declaration and
  concatenates the marker module, the get-variant blocks, the try-from blocks and the from blocks, in this
  order.
- `Collections` and `Wrappers`: general helpers. `Collections` has walks over a map and substring
  containment. `Wrappers` has `Option` and `Result`.

A Rust `HashMap` gives no order for `iter()` or `keys()`. Each loop therefore picks any key or entry not
yet visited, and returns as a ghost value the order it took (a *walk*). Every property here holds for every
walk, and none depends on the order. Each `panic!` or `expect` of the source is a `Failure` value, and a
failure carries no partial output.

## Model

| member | source | states |
|---|---|---|
| ParseEnum.FullName | src/parse_enum.rs:17-33 | defines: the fully-applied name, the enum identifier followed by `<`, the parameters' bare identifiers joined by bare commas and `>`, or the identifier alone when there are no parameters. It is the reference the loop is proved against |
| ParseEnum.ParamIdents | src/parse_enum.rs:19-24 | One text per generic parameter, in declaration order: the bare identifier of a type or const parameter, or the lifetime with its apostrophe |
| ParseEnum.FetchNameWithGenericParams | src/parse_enum.rs:17-33 | The append-`ident,`-then-pop loop returns exactly `FullName` of the enum name and its parameters |
| ParseEnum.PopTrailingComma | src/parse_enum.rs:25-27 | After the loop, popping the last character leaves exactly the identifiers joined by commas |
| ParseEnum.FullNameWithoutParams | src/parse_enum.rs:27-31 | With no generic parameters the fully-applied name is the bare enum name |
| ParseEnum.FullNameWithParams | src/parse_enum.rs:18-29 | With one or more parameters (identifiers are never empty) the name is `ident<p1,...,pn>` |
| ParseEnum.SplitJoinComma | src/parse_enum.rs:25-27 | Splitting comma-joined comma-free items at their commas gives back the items |
| ParseEnum.ParamListRecoversIdents | src/parse_enum.rs:17-33 | The text between the angle brackets splits back into exactly the parameters' identifiers, in order |
| ParseEnum.FullNameIgnoresBounds | src/parse_enum.rs:20-24 | Parameter lists that differ only in bounds, lifetime bounds or const types give the same fully-applied name |
| ParseEnum.FetchImplGenerics | src/parse_enum.rs:49-58 | defines: the pair of the rendered generics with the where-clause taken out of a copy, and the rendered where-clause or `""` when none is declared |
| ParseEnum.ImplGenericsIgnoreWhereClause | src/parse_enum.rs:49-58 | The impl generics are the printer's rendering of the parameters with the where-clause removed, so they do not depend on the where-clause |
| ParseEnum.WhereComponentEmpty | src/parse_enum.rs:51-57 | Without a where-clause the second component is `""`. With one, it is the clause's rendering. Under a printer that never renders a clause as empty text, it is `""` exactly when no clause is declared |
| ParseEnum.ShapeMessage | src/parse_enum.rs:78-103 | defines: the panic message of each of the four refusals, word for word |
| ParseEnum.ShapeMessagesDistinct | src/parse_enum.rs:78-103 | The four refusals carry four different panic messages |
| ParseEnum.VariantPayload | src/parse_enum.rs:75-99 | defines: the payload type text of a variant with exactly one unnamed field, or the refusal for more or fewer unnamed fields, named fields or a unit variant |
| ParseEnum.CollectFields | src/parse_enum.rs:73-101 | defines: the variant map collected in declaration order, where a later insert of the same key overwrites, stopping at the first refused variant |
| ParseEnum.FetchFieldsFromEnum | src/parse_enum.rs:71-104 | defines: the collected variant map of an enum, and the not-an-enum refusal for anything else |
| ParseEnum.CollectFieldsOutcome | src/parse_enum.rs:73-101 | Collection succeeds exactly when every variant has one unnamed field. Otherwise it fails with the error of the first refused variant: multiple fields (zero counts too), named fields, or unit |
| ParseEnum.CollectFieldsKeys | src/parse_enum.rs:73-101 | The keys of a collected map are exactly the variant identifiers |
| ParseEnum.CollectFieldsValues | src/parse_enum.rs:83-101 | Each identifier maps to the payload type text of the last variant that carries it (a later hash-map insert overwrites) |
| ParseEnum.FetchFieldsRejectsNonEnum | src/parse_enum.rs:71-104 | Failure happens exactly when the input is not an enum or some variant is refused; a non-enum fails with the not-an-enum error |
| ParseEnum.FieldMapHasOneEntryPerVariant | src/parse_enum.rs:73-101 | K accepted variants with distinct names give a map of exactly K entries, each mapped to its payload type |
| ParseEnum.CollectFieldsExamples | src/parse_enum.rs:133-161 | The two repository tests: `F1((i64, bool))` maps to `(i64 , bool)`, and `F1((&'a i64, bool))` maps to `(& 'a i64 , bool)` |
| ParseEnum.MarkerDecl | src/parse_enum.rs:116 | defines: the declaration `pub(crate) enum K{}` of one marker |
| ParseEnum.MarkerDecls | src/parse_enum.rs:115-117 | defines: the marker declarations of the keys in the order visited |
| ParseEnum.MarkerModule | src/parse_enum.rs:113-118 | defines: the marker module text, the attribute line, `mod enum___conversion___<name>{ `, the declarations and `}` |
| ParseEnum.CreateMarkerEnums | src/parse_enum.rs:112-120 | The loop visits every key once and emits the module opening, one `pub(crate) enum K{}` per key, and the closing brace, and nothing else. Whatever the order, the text starts with the attribute and `mod enum___conversion___name{ `, ends with `}`, and declares the marker of every key |
| ParseEnum.MarkerDeclsDeclareEach | src/parse_enum.rs:115-117 | Every visited key's marker declaration occurs in the emitted declarations |
| ParseEnum.GetMarker | src/parse_enum.rs:124-126 | defines: the marker path `enum___conversion___<name>::<field>` for the enum `name` and the variant `field` |
| ParseEnum.MarkerPathIsDeclared | src/parse_enum.rs:113-126 | `get_marker(name, k)` is the module that the marker text opens for `name`, followed by `::k`, and `k`'s marker is declared inside that module text |
| ParseEnum.GetMarkerInjective | src/parse_enum.rs:124-126 | For enum names without `:`, different (enum, variant) pairs get different marker paths |
| Tera.Render | src/lib.rs:42-46 | defines: template rendering as substitution of every hole by its binding, left to right, failing on the first unbound hole |
| Tera.RenderNamed | src/lib.rs:43-45 | defines: rendering of the template registered under a name, failing with template-not-found for an unregistered name |
| Tera.RenderSucceedsIff | src/lib.rs:42-46 | Rendering succeeds exactly when the context binds every hole. A failure names a hole that is unbound |
| Tera.RenderDependsOnHolesOnly | src/lib.rs:34-46 | Two contexts that agree on a template's holes render it alike |
| Tera.RenderShowsBinding | src/lib.rs:42-46 | The binding of every hole occurs in the rendered text |
| Tera.RenderNamedSucceedsIff | src/lib.rs:43-45 | Rendering by name succeeds exactly when the name is registered and its holes are bound. An unregistered name fails with template-not-found |
| Tera.Engine.constructor | src/lib.rs:123 | The engine starts with no templates (the glob matches no file) |
| Tera.Engine.AddRawTemplate | src/lib.rs:124-128 | Registering puts the template under its name and leaves the other names unchanged |
| Templates.GetVariantTemplateHoles | src/templates.rs:1-24 | The constant `GET_VARIANT_TEMPLATE` (its header and three method bodies) holds the template's text, segment by segment. The get-variant template's holes are exactly generics, Type, Marker, fullname, Where, name and field |
| Templates.TryFromTemplateHoles | src/templates.rs:26-35 | The constant `TRY_FROM_TEMPLATE` holds the template's text, segment by segment. The try-from template's holes are exactly generics, fullname, Type, Where and name |
| Templates.FromTemplateHoles | src/templates.rs:37-46 | The constant `FROM_TEMPLATE` holds the template's text, segment by segment. The from template's holes are exactly generics, Type, fullname, Where and field |
| Templates.GetVariant | src/templates.rs:4-9 | defines: the generated `get_variant`, which gives the payload when the block's `field` is the active variant and otherwise the error `(fullname, Type)` |
| Templates.GetVariantRef | src/templates.rs:11-16 | defines: the generated `get_variant_ref`, with the same rule as `get_variant` |
| Templates.GetVariantMut | src/templates.rs:18-23 | defines: the generated `get_variant_mut` followed by a write through the returned reference, with the same rule as `get_variant` |
| Templates.From | src/templates.rs:42-44 | defines: the generated `from`, the enum value whose active variant is the block's `field`, carrying the given payload |
| Templates.TryFrom | src/templates.rs:32-34 | defines: the generated `try_from`, the `get_variant` of the selected block with only its error mapped to a string |
| Templates.AccessorsAgree | src/templates.rs:4-23 | `get_variant`, `get_variant_ref` and `get_variant_mut` succeed exactly when the block's variant is active. They then yield the payload, and a write through the mutable one reaches only the payload. Otherwise all three fail with the same error, built from the block's `fullname` and `Type`, and never with a default value |
| Templates.GetVariantOfFrom | src/templates.rs:4-44 | `get_variant(from(v))` for the same variant is `Ok(v)` |
| Templates.TryFromDelegates | src/templates.rs:4-34 | `try_from` on an enum value returns the payload when the selected block's variant is active. Otherwise it returns the string form of the error `(fullname, Type)`, never a default value. It succeeds exactly when `get_variant` does |
| EnumConversions.GetVariantContext | src/lib.rs:34-41 | defines: the get-variant context of one entry, binding generics, Type, Marker, fullname, name, field and Where |
| EnumConversions.MarkerBound | src/lib.rs:66-80 | defines: the bound `fullname: GetVariant<Type, marker>` that the where-string is extended with |
| EnumConversions.WhereString | src/lib.rs:65-81 | defines: the where-clause followed by `where\n ` when the clause is empty, or by `\n ` otherwise, and then by the bound |
| EnumConversions.TryFromContext | src/lib.rs:65-87 | defines: the try-from context of one entry, binding generics, Type, fullname, name and the extended where-string as Where |
| EnumConversions.FromContext | src/lib.rs:106-111 | defines: the from context of one entry, binding generics, Type, fullname, field and the unchanged where-clause as Where |
| EnumConversions.GetVariantContextBindsHoles | src/lib.rs:34-41 | The get-variant context binds exactly the get-variant template's holes, so rendering it cannot miss a variable |
| EnumConversions.TryFromContextBindsHoles | src/lib.rs:82-87 | The try-from context binds exactly the try-from template's holes, and binds neither `Marker` nor `field` |
| EnumConversions.FromContextBindsHoles | src/lib.rs:106-111 | The from context binds exactly the from template's holes |
| EnumConversions.WhereStringExtends | src/lib.rs:65-81 | The extended where-string begins with the original clause unchanged and ends with the bound. It is `"where\n " + bound` when the clause is empty and `clause + "\n " + bound` otherwise |
| EnumConversions.TryFromBoundSelectsGetVariant | src/lib.rs:66-80 | The extra bound names the enum's full name, the entry's payload type and the entry's marker: exactly the (Type, Marker) of the get-variant block rendered for the same entry |
| EnumConversions.Registry | src/lib.rs:123-128 | defines: the registry after the three registrations, `get_variant`, `try_from` and `from` mapped to their templates |
| EnumConversions.Blocks | src/lib.rs:42-47 | defines: one family's rendered blocks, concatenated in visiting order, aborting with the family's `expect` message at the first failed rendering |
| EnumConversions.BlocksSucceedIff | src/lib.rs:42-47 | A family's blocks render exactly when there is no entry, or the template is registered and every context binds its holes. A failure carries that family's `expect` message |
| EnumConversions.BlocksContainEach | src/lib.rs:42-47 | The rendering of every context occurs in the concatenated text |
| EnumConversions.ImplGetVariant | src/lib.rs:24-49 | The loop visits distinct entries, and on success every entry of the map. The result is the get-variant blocks of the visited entries, or the first rendering failure. Whatever the order, it succeeds exactly when the map is empty, or `get_variant` is registered and every entry's context binds its holes. A failure carries the family's `expect` message, and a success holds every entry's rendered block |
| EnumConversions.ImplTryFrom | src/lib.rs:55-95 | Same as the get-variant loop, for `try_from`, with each context's `Where` being the where-clause extended by the entry's marker bound |
| EnumConversions.ImplFrom | src/lib.rs:97-119 | Same as the get-variant loop, for `from`, with the unchanged where-clause |
| EnumConversions.GetVariantBlocksSucceed | src/lib.rs:32-47 | With the registry the pipeline sets up, the get-variant blocks never fail to render, for any walk |
| EnumConversions.TryFromBlocksSucceed | src/lib.rs:63-93 | With that registry, the try-from blocks never fail to render |
| EnumConversions.FromBlocksSucceed | src/lib.rs:104-117 | With that registry, the from blocks never fail to render |
| EnumConversions.GetVariantBlocksCoverEntries | src/lib.rs:33-47 | The get-variant text holds the rendered block of every visited entry |
| EnumConversions.TryFromBlocksCoverEntries | src/lib.rs:64-93 | The try-from text holds the rendered block of every visited entry |
| EnumConversions.FromBlocksCoverEntries | src/lib.rs:105-117 | The from text holds the rendered block of every visited entry |
| EnumConversions.Expansion | src/lib.rs:122-160 | defines: the expansion for given visiting orders, the shape error of the declaration, or the marker module followed by the get-variant, try-from and from blocks |
| EnumConversions.ExpansionSucceedsIff | src/lib.rs:122-160 | The string synthesis of the expansion fails exactly when the declaration has the wrong shape, and then with that shape error, whatever the map order. This is success of the text, not of the macro: see the first line under Left out |
| EnumConversions.ExpansionCoversEveryVariant | src/lib.rs:129-160 | For every variant of a well-shaped enum, the output is the marker module followed by the get-variant, try-from and from sections, in this order. The marker module declares the variant's marker, and each section holds that variant's rendered block |
| EnumConversions.ImplConversions | src/lib.rs:122-161 | The method registers the three templates and returns `Expansion` for the walks it took. Its string synthesis succeeds exactly when the shape check does, and then every loop visited every map entry once. The output declares every variant's marker and holds its get-variant, try-from and from blocks. The token parses that follow are not modelled (see Left out) |
| EnumConversions.GeneratedConversionsRoundTrip | src/lib.rs:33-111 | For the contexts built for one entry, `from` then `get_variant`, or `from` then `try_from`, returns the payload. The `get_variant` of another variant refuses it with `(fullname, that variant's type)` |
| EnumConversions.TwoVariantExpansion | src/lib.rs:122-160 | For `enum Enum { A(i64), B(bool) }` the map is `{A: i64, B: bool}`, the expansion succeeds, and both markers are declared |
| EnumConversions.TwoVariantAccess | src/templates.rs:4-9 | For that enum, `get_variant` of the `A` block returns 5 from `Enum::A(5)`, and the `B` block refuses it with `("Enum", "bool")` |

## Left out

- The proc-macro entry `enum_conversions_derive` and every `.parse().unwrap()` into a `TokenStream` belong to the compiler toolchain, so the model yields strings. "Success" in this model means success of the string synthesis, not of the macro. As written, the macro panics on every declaration. A well-shaped declaration reaches the `.parse().unwrap()` of the marker text (src/parse_enum.rs:119), which fails because `#[allow(non_snake_case]` closes `(` with `]`. With any variant, the `.parse().unwrap()` of the get-variant text (src/lib.rs:48) would fail too, because that impl block is never closed. The model records these texts as written and claims nothing about their parsing.
- Token rendering: `to_token_stream().to_string()` of types, identifiers, generics and where-clauses is the parser library's. Type and identifier texts are input strings. Generics and where-clause rendering is the `TokenPrinter` parameter.
- ParseEnum.WhereComponentEmpty: this states "empty exactly when no where-clause is declared" only for a printer that never renders a where-clause as empty text. The printer is opaque.
- Tera itself: its parser, filters, whitespace handling and escaping are left out (the templates have no extension, so no escaping applies). The filesystem glob of `Tera::new("/dev/null/*")` is modelled as an empty registry. The `unwrap` of `add_raw_template` cannot fail for these templates and is not modelled.
- Map order: the loops in `CreateMarkerEnums`, `ImplGetVariant`, `ImplTryFrom` and `ImplFrom` take any order, returned as a ghost walk. No property depends on it.
- Well-formedness of the generated Rust is not modelled. The source does not deliver it:
  - the marker attribute's mismatched delimiters;
  - the get-variant impl block is never closed;
  - `type Error = ...` lacks `;`;
  - `try_from` takes `{{ name }}` rather than the full name.
  The templates are kept as written.
- Duplicate payload types: the doc comment of `fetch_fields_from_enum` (src/parse_enum.rs:66) promises to refuse them, but no code does. The model follows the code, and two variants with the same payload type are accepted.
- Templates.GetVariantRef and Templates.GetVariantMut work on values. The shared and exclusive references are not modelled. The mutable accessor is modelled as the enum value after a write through the reference.
- The `variant_access_traits` crate is external. Its error is the pair (container name, type name). Its `Display`, used by `try_from`'s `e.to_string()`, is the `show` parameter. The `Box<dyn Error>` conversion is left out.
- `fetch_impl_generics` clones the parsed generics before taking the where-clause out. With value semantics the input cannot change, so nothing more is stated about it.
