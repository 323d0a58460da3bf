/**
  The raw pass-through adapter `RawType<T>` (src/types/external/raw.rs).

  At the type level the adapter is invisible: its names and its schema
  registration are those of the wrapped type `T`. At the value level it is
  opaque: a `Raw` wire value is accepted verbatim and output is always the
  `Raw` value holding the stored text.

  The wrapped type's trait methods (`qualified_type_name`,
  `create_type_info`) are supplied as a `SchemaType` descriptor; the type
  registry is an opaque state `Reg` threaded through registration.
 */
module RawValue {
  import opened Common

  /** The engine's value tree. `Raw` holds an already-serialized fragment
      that is emitted verbatim; the other variants are the ordinary values. */
  datatype Value =
    | Null
    | Number(n: int)
    | Str(s: string)
    | Boolean(b: bool)
    | Binary(bytes: seq<byte>)
    | Enum(name: string)
    | List(items: seq<Value>)
    | Object(fields: seq<(string, Value)>)
    | Raw(text: string)

  /** `Value::default()`. */
  function DefaultValue(): (v: Value)
    ensures !v.Raw?
  {
    Null
  }

  /** `Option::unwrap_or_default` on an optional input value. */
  function UnwrapOrDefault(value: Option<Value>): (v: Value)
    ensures value.Some? ==> v == value.value
    ensures value.None? ==> !v.Raw?
  {
    match value
    case Some(x) => x
    case None => DefaultValue()
  }

  /** The adapter's value: the raw string. The source's phantom marker for
      `T` carries no data; `T` enters only through its `SchemaType`. */
  datatype RawType = RawType(data: string)

  /** The error carried by a failed input parse. */
  datatype InputValueError = InputValueError(message: string)

  /** A server-side resolution error. */
  datatype ServerError = ServerError(message: string)

  /** The outcome of `parse`: `Parsed` and `Failed` are the two arms of
      `InputValueResult`; `Diverges` stands for a call that never returns
      (unbounded self-recursion, which exhausts the stack). */
  datatype ParseOutcome<+A> = Parsed(value: A) | Failed(error: InputValueError) | Diverges

  /** What the wrapped type `T` contributes at the type level: its qualified
      name and its registration routine, which updates the registry and
      returns a name of its own choosing. */
  datatype SchemaType<!Reg> = SchemaType(qualifiedName: string, createTypeInfo: Reg -> (Reg, string))

  /** `RawType::new`: the text is stored as given, with no escaping or check. */
  function New(data: string): (x: RawType)
    ensures x.data == data
  {
    RawType(data)
  }

  // ---------------------------------------------------------------------
  // InputType for RawType
  // ---------------------------------------------------------------------

  /** `<RawType as InputType>::type_name`. */
  function InputTypeName(t: SchemaType): (name: string)
    ensures name == t.qualifiedName
  {
    t.qualifiedName
  }

  /** `<RawType as InputType>::qualified_type_name`. */
  function InputQualifiedTypeName(t: SchemaType): (name: string)
    ensures name == t.qualifiedName
  {
    t.qualifiedName
  }

  /** `<RawType as InputType>::create_type_info`: runs `T`'s registration
      and answers with its own qualified name, discarding the name `T`'s
      registration returned. */
  function InputCreateTypeInfo<Reg>(t: SchemaType<Reg>, registry: Reg): (r: (Reg, string))
    ensures r.0 == t.createTypeInfo(registry).0
    ensures r.1 == t.qualifiedName
  {
    var (registry', _) := t.createTypeInfo(registry);
    (registry', InputQualifiedTypeName(t))
  }

  /** `<RawType as InputType>::parse`. A present `Raw` value becomes the
      adapter holding its text. Any other value (including the default that
      replaces an absent input) re-enters this same `parse` with that value,
      so the call never returns. */
  function Parse(value: Option<Value>): (r: ParseOutcome<RawType>)
    ensures r.Parsed? <==> value.Some? && value.value.Raw?
    ensures r.Parsed? ==> r.value.data == value.value.text
    ensures !r.Failed?
  {
    match UnwrapOrDefault(value)
    case Raw(v) => Parsed(New(v))
    case _ => Diverges
  }

  /** The source's `parse` unfolded literally, with `depth` stack frames
      available: each call uses one frame, and a call with none left
      diverges. */
  function ParseUnfolded(value: Option<Value>, depth: nat): ParseOutcome<RawType>
    decreases depth
  {
    if depth == 0 then Diverges
    else
      match UnwrapOrDefault(value)
      case Raw(v) => Parsed(New(v))
      case other =>
        match ParseUnfolded(Some(other), depth - 1)
        case Parsed(x) => Parsed(x)
        case Failed(e) => Failed(e)
        case Diverges => Diverges
  }

  /** For every stack budget, the literal unfolding agrees with `Parse`: no
      budget lets the non-raw branch return. */
  lemma {:induction false} ParseUnfoldingAgrees(value: Option<Value>, depth: nat)
    ensures ParseUnfolded(value, depth) == if depth == 0 then Diverges else Parse(value)
    decreases depth
  {
    if depth > 0 {
      match UnwrapOrDefault(value)
      case Raw(v) =>
      case other =>
        if depth - 1 > 0 {
          ParseUnfoldingAgrees(Some(other), depth - 1);
          assert UnwrapOrDefault(Some(other)) == other;
        }
    }
  }

  /** An absent input is replaced by the default value, which is not raw,
      so it never yields an adapter. */
  lemma AbsentInputNeverParses()
    ensures Parse(None) == Diverges
    ensures forall depth: nat :: !ParseUnfolded(None, depth).Parsed?
  {
    forall depth: nat
      ensures !ParseUnfolded(None, depth).Parsed?
    {
      ParseUnfoldingAgrees(None, depth);
    }
  }

  /** `<RawType as InputType>::to_value`: always the raw variant. */
  function ToValue(x: RawType): (v: Value)
    ensures v.Raw? && v.text == x.data
  {
    Value.Raw(x.data)
  }

  /** Raw text survives construction, serialization and parsing unchanged:
      `new` then `to_value` is the identity on text, and `parse` inverts
      `to_value`. */
  lemma RawRoundTrip(s: string)
    ensures ToValue(New(s)) == Value.Raw(s)
    ensures Parse(Some(ToValue(New(s)))) == Parsed(New(s))
  {
  }

  /** `parse(Some(to_value(x))) == Ok(x)` for every adapter value. */
  lemma ParseInvertsToValue(x: RawType)
    ensures Parse(Some(ToValue(x))) == Parsed(x)
  {
  }

  /** `parse` accepts every raw text, with no check against `T`. */
  lemma ParseAcceptsEveryRaw(s: string)
    ensures Parse(Some(Value.Raw(s))) == Parsed(New(s))
  {
  }

  /** `<RawType as InputType>::as_raw_value`: the adapter is its own raw
      value. */
  function AsRawValue(x: RawType): (r: Option<RawType>)
    ensures r.Some? && r.value == x
  {
    Some(x)
  }

  // ---------------------------------------------------------------------
  // OutputType for RawType
  // ---------------------------------------------------------------------

  /** `<RawType as OutputType>::type_name`. */
  function OutputTypeName(t: SchemaType): (name: string)
    ensures name == t.qualifiedName
  {
    t.qualifiedName
  }

  /** `<RawType as OutputType>::qualified_type_name`. */
  function OutputQualifiedTypeName(t: SchemaType): (name: string)
    ensures name == t.qualifiedName
  {
    t.qualifiedName
  }

  /** `<RawType as OutputType>::create_type_info`. */
  function OutputCreateTypeInfo<Reg>(t: SchemaType<Reg>, registry: Reg): (r: (Reg, string))
    ensures r.0 == t.createTypeInfo(registry).0
    ensures r.1 == t.qualifiedName
  {
    var (registry', _) := t.createTypeInfo(registry);
    (registry', OutputQualifiedTypeName(t))
  }

  /** `<RawType as OutputType>::resolve`: succeeds for every context and
      field with the same value `to_value` gives. */
  function Resolve<Ctx, Fld>(x: RawType, ctx: Ctx, field: Fld): (r: Result<Value, ServerError>)
    ensures r.Ok? && r.value == ToValue(x)
  {
    Ok(Value.Raw(x.data))
  }

  /** What `resolve` emits is parsed back to the same adapter. */
  lemma ResolveThenParse<Ctx, Fld>(x: RawType, ctx: Ctx, field: Fld)
    ensures Parse(Some(Resolve(x, ctx, field).value)) == Parsed(x)
  {
  }

  /** The adapter is invisible in the schema: in both the input and output
      roles every name it reports, including the one registration returns,
      is `T`'s qualified name, and registration has exactly `T`'s effect on
      the registry. */
  lemma TypeTransparency<Reg>(input: SchemaType<Reg>, output: SchemaType<Reg>, registry: Reg)
    ensures InputTypeName(input) == InputQualifiedTypeName(input) == input.qualifiedName
    ensures InputCreateTypeInfo(input, registry) == (input.createTypeInfo(registry).0, input.qualifiedName)
    ensures OutputTypeName(output) == OutputQualifiedTypeName(output) == output.qualifiedName
    ensures OutputCreateTypeInfo(output, registry) == (output.createTypeInfo(registry).0, output.qualifiedName)
  {
  }
}
