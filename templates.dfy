/** The three templates the generator renders, and what the code they generate
    does: an enum value is its active variant together with that variant's payload. */
module Templates {
  import opened Wrappers
  import opened Tera

  /** `GetVariant<Type, Marker>` for the enum: by value, by reference and by mutable
      reference. The source writes it as one template; it is kept here as its impl
      header and its three method bodies. */
  const GET_VARIANT_TEMPLATE: Template :=
    GET_VARIANT_HEADER + GET_VARIANT_BY_VALUE + GET_VARIANT_BY_REF + GET_VARIANT_BY_MUT

  const GET_VARIANT_HEADER: Template := [
    Lit("\nimpl"), Hole("generics"),
    Lit(" variant_access_traits::GetVariant<"), Hole("Type"), Lit(", "), Hole("Marker"),
    Lit(" > for "), Hole("fullname"), Lit("\n"), Hole("Where"), Lit(" {\n")
  ]

  const GET_VARIANT_BY_VALUE: Template := [
    Lit("    fn get_variant(self) -> std::result::Result<"), Hole("Type"),
    Lit(", variant_access_traits::VariantAccessError> {\n        match self {\n            "),
    Hole("name"), Lit("::"), Hole("field"),
    Lit("(inner) => Ok(inner),\n            _ => Err(variant_access_traits::VariantAccessError::wrong_active_field(\""),
    Hole("fullname"), Lit("\", \""), Hole("Type"), Lit("\"))\n        }\n    }\n\n")
  ]

  const GET_VARIANT_BY_REF: Template := [
    Lit("    fn get_variant_ref(&self) -> std::result::Result<&"), Hole("Type"),
    Lit(", variant_access_traits::VariantAccessError> {\n        match &self {\n            "),
    Hole("name"), Lit("::"), Hole("field"),
    Lit("(inner) => Ok(inner),\n            _ => Err(variant_access_traits::VariantAccessError::wrong_active_field(\""),
    Hole("fullname"), Lit("\", \""), Hole("Type"), Lit("\"))\n        }\n    }\n\n")
  ]

  const GET_VARIANT_BY_MUT: Template := [
    Lit("    fn get_variant_mut(&mut self) -> std::result::Result<&mut "), Hole("Type"),
    Lit(", variant_access_traits::VariantAccessError> {\n        match self {\n            "),
    Hole("name"), Lit("::"), Hole("field"),
    Lit("(inner) => Ok(inner),\n            _  => Err(variant_access_traits::VariantAccessError::wrong_active_field(\""),
    Hole("fullname"), Lit("\", \""), Hole("Type"), Lit("\"))\n        }\n    }\n")
  ]

  /** `TryFrom<enum>` for the payload type, delegating to `get_variant`. */
  const TRY_FROM_TEMPLATE: Template := [
    Lit("\nimpl"), Hole("generics"), Lit(" TryFrom<"), Hole("fullname"), Lit("> for "), Hole("Type"),
    Lit("\n"), Hole("Where"),
    Lit("\n{\n    type Error = Box<dyn Error + 'static>\n\n    fn try_from(value: "), Hole("name"),
    Lit(") -> std::result::Result<Self, Self::Error> {\n        value.get_variant().map_err(|e| e.to_string().into())\n    }\n}")
  ]

  /** `From<payload type>` for the enum, wrapping the payload into its variant. */
  const FROM_TEMPLATE: Template := [
    Lit("\nimpl"), Hole("generics"), Lit(" From<"), Hole("Type"), Lit("> for "), Hole("fullname"),
    Lit("\n"), Hole("Where"),
    Lit("\n{\n\n    fn from(value: "), Hole("Type"), Lit(") -> Self {\n        Self::"), Hole("field"),
    Lit("(value)\n    }\n}\n")
  ]

  /** The variables each template reads. */
  const GET_VARIANT_HOLES: set<string> := {"generics", "Type", "Marker", "fullname", "Where", "name", "field"}
  const TRY_FROM_HOLES: set<string> := {"generics", "fullname", "Type", "Where", "name"}
  const FROM_HOLES: set<string> := {"generics", "Type", "fullname", "Where", "field"}

  lemma GetVariantHeaderHoles()
    ensures Holes(GET_VARIANT_HEADER) == {"generics", "Type", "Marker", "fullname", "Where"}
  {
  }

  lemma GetVariantByValueHoles()
    ensures Holes(GET_VARIANT_BY_VALUE) == {"Type", "name", "field", "fullname"}
  {
  }

  lemma GetVariantByRefHoles()
    ensures Holes(GET_VARIANT_BY_REF) == {"Type", "name", "field", "fullname"}
  {
  }

  lemma GetVariantByMutHoles()
    ensures Holes(GET_VARIANT_BY_MUT) == {"Type", "name", "field", "fullname"}
  {
  }

  lemma GetVariantTemplateHoles()
    ensures Holes(GET_VARIANT_TEMPLATE) == GET_VARIANT_HOLES
  {
    GetVariantHeaderHoles();
    GetVariantByValueHoles();
    GetVariantByRefHoles();
    GetVariantByMutHoles();
    HolesConcat(GET_VARIANT_HEADER, GET_VARIANT_BY_VALUE);
    HolesConcat(GET_VARIANT_HEADER + GET_VARIANT_BY_VALUE, GET_VARIANT_BY_REF);
    HolesConcat(GET_VARIANT_HEADER + GET_VARIANT_BY_VALUE + GET_VARIANT_BY_REF, GET_VARIANT_BY_MUT);
  }

  lemma TryFromTemplateHoles()
    ensures Holes(TRY_FROM_TEMPLATE) == TRY_FROM_HOLES
  {
  }

  lemma FromTemplateHoles()
    ensures Holes(FROM_TEMPLATE) == FROM_HOLES
  {
  }

  // ---------------------------------------------------------------------------
  // What the generated code does, for the context a block was rendered with.
  // ---------------------------------------------------------------------------

  /** A value of the enum: the name of its active variant and that variant's payload. */
  datatype EnumValue<V> = EnumValue(active: string, payload: V)

  /** The access error of the external helper crate: the container's name and the
      requested payload type. */
  datatype VariantAccessError = WrongActiveField(container: string, typeName: string)

  /** The generated `get_variant`: the payload when the variant the block was
      rendered for is active. */
  function GetVariant<V>(ctx: Context, self: EnumValue<V>): Result<V, VariantAccessError>
    requires GET_VARIANT_HOLES <= ctx.Keys
  {
    if self.active == ctx["field"] then Success(self.payload)
    else Failure(WrongActiveField(ctx["fullname"], ctx["Type"]))
  }

  /** The generated `get_variant_ref`: a shared view of the payload. */
  function GetVariantRef<V>(ctx: Context, self: EnumValue<V>): Result<V, VariantAccessError>
    requires GET_VARIANT_HOLES <= ctx.Keys
  {
    match self
    case EnumValue(active, inner) =>
      if active == ctx["field"] then Success(inner)
      else Failure(WrongActiveField(ctx["fullname"], ctx["Type"]))
  }

  /** The generated `get_variant_mut`, followed by a write `update` through the
      exclusive reference it returns: the enum value after the write. */
  function GetVariantMut<V>(ctx: Context, self: EnumValue<V>, update: V -> V): Result<EnumValue<V>, VariantAccessError>
    requires GET_VARIANT_HOLES <= ctx.Keys
  {
    if self.active == ctx["field"] then Success(self.(payload := update(self.payload)))
    else Failure(WrongActiveField(ctx["fullname"], ctx["Type"]))
  }

  /** The generated `from`: the value whose active variant is the block's variant. */
  function From<V>(ctx: Context, value: V): EnumValue<V>
    requires FROM_HOLES <= ctx.Keys
  {
    EnumValue(ctx["field"], value)
  }

  /** The generated `try_from`, with `getVariant` the context of the `GetVariant`
      implementation its where-bound selects and `show` the error's string form. */
  function TryFrom<V>(getVariant: Context, value: EnumValue<V>, show: VariantAccessError -> string): Result<V, string>
    requires GET_VARIANT_HOLES <= getVariant.Keys
  {
    match GetVariant(getVariant, value)
    case Success(v) => Success(v)
    case Failure(e) => Failure(show(e))
  }

  /** All three accessors succeed exactly when the block's variant is active; then
      they yield the payload (the mutable one lets a write reach it and nothing
      else), and otherwise all carry the same error naming the container and the
      requested type, never a default payload. */
  lemma AccessorsAgree<V>(ctx: Context, self: EnumValue<V>, update: V -> V)
    requires GET_VARIANT_HOLES <= ctx.Keys
    ensures GetVariant(ctx, self).Success? <==> self.active == ctx["field"]
    ensures GetVariantRef(ctx, self) == GetVariant(ctx, self)
    ensures GetVariantMut(ctx, self, update).Success? <==> GetVariant(ctx, self).Success?
    ensures GetVariant(ctx, self).Success? ==>
      GetVariant(ctx, self).value == self.payload
      && GetVariantMut(ctx, self, update).value == EnumValue(self.active, update(self.payload))
    ensures GetVariant(ctx, self).Failure? ==>
      GetVariant(ctx, self).error == WrongActiveField(ctx["fullname"], ctx["Type"])
      && GetVariantMut(ctx, self, update).error == GetVariant(ctx, self).error
  {
  }

  /** Round trip: building a value with `from` and reading it back with the
      `get_variant` of the same variant yields the payload. */
  lemma GetVariantOfFrom<V>(getVariant: Context, from: Context, value: V)
    requires GET_VARIANT_HOLES <= getVariant.Keys && FROM_HOLES <= from.Keys
    requires getVariant["field"] == from["field"]
    ensures GetVariant(getVariant, From(from, value)) == Success(value)
  {
  }

  /** The generated `try_from` on an enum value: the payload when the variant of the
      selected `GetVariant` block is active, and otherwise the string form of the
      error naming the container and the requested type. A success of
      `get_variant` passes through unchanged; only the error is mapped. */
  lemma TryFromDelegates<V>(getVariant: Context, value: EnumValue<V>, show: VariantAccessError -> string)
    requires GET_VARIANT_HOLES <= getVariant.Keys
    ensures TryFrom(getVariant, value, show) ==
      if value.active == getVariant["field"] then Success(value.payload)
      else Failure(show(WrongActiveField(getVariant["fullname"], getVariant["Type"])))
    ensures TryFrom(getVariant, value, show).Success? <==> GetVariant(getVariant, value).Success?
  {
    AccessorsAgree(getVariant, value, x => x);
  }
}
