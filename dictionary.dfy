/** Read-only views of a FIX dictionary, as the code generator sees them, and
    the collaborators it calls but does not define.

    The dictionary and data-type modules of fefix are not part of this model:
    only the parts that codegen.rs reads are represented here, as plain values. */
module FixDictionary {

  import opened Wrappers

  /** A FIX tag number, `TagU16`: a non-zero 16-bit unsigned integer. */
  type Tag = t: int | 1 <= t <= 0xFFFF witness 1

  /** fefix's `DataType`. The variants codegen.rs names are listed; every other
      variant, which codegen.rs only reaches through a wildcard arm, is
      `Other(name)`. */
  datatype DataType =
    | String | Char | Boolean | Country | Currency | Exchange | Data
    | Length | DayOfMonth | Int | Language | SeqNum | NumInGroup
    | UtcDateOnly | UtcTimeOnly | UtcTimestamp | Float
    | Other(name: string)

  /** One allowed value of a field with a closed value set. */
  datatype EnumValue = EnumValue(value: string, description: string)

  /** A field definition. `dataType` is the field's `data_type().basetype()`;
      `enums` is `None` when the field has no value set. */
  datatype Field = Field(tag: Tag, name: string, dataType: DataType, enums: Option<seq<EnumValue>>)

  datatype LayoutItemKind =
    | FieldRef(field: Field)
    | Component(name: string)
    | Group(leader: Field, items: seq<LayoutItem>)

  /** One position in a message layout, with its local `required` flag. */
  datatype LayoutItem = LayoutItem(kind: LayoutItemKind, required: bool)

  datatype Message = Message(name: string, msgType: string, layout: seq<LayoutItem>)

  datatype Dictionary = Dictionary(version: string, fields: seq<Field>)

  /** Functions defined outside codegen.rs that it calls: heck's three case
      conversions, `DataType::base_type`, and the `&'static str` name of a
      data type. They are inputs, so every property below holds for any of
      them. */
  datatype Externals = Externals(
    toCamelCase: string -> string,
    toSnakeCase: string -> string,
    toShoutySnakeCase: string -> string,
    baseType: DataType -> DataType,
    dataTypeName: DataType -> string)

  /** Every enum description is non-empty: the generator takes the first
      character of each with `unwrap`, which panics on an empty one. */
  predicate DescriptionsNonEmpty(f: Field)
  {
    f.enums.Some? ==> forall i :: 0 <= i < |f.enums.value| ==> f.enums.value[i].description != ""
  }
}
