# FerrumFIX code generation, modelled in Dafny

FerrumFIX (`fefix`) generates Rust source code from a FIX dictionary. For each
field of the dictionary it writes a `FieldDef` constant and, when the field
has a closed set of values, an enum type with one variant per value. For each
message it writes a struct with one member per non-group layout item. This
project models that generator, `fefix/src/codegen.rs`, as pure Dafny
functions over read-only views of the dictionary, and proves what the
generated text contains.

Modules:

- `FixDictionary` (`dictionary.dfy`): the views the generator reads. These are
  `Field`, `EnumValue`, `Message`, `LayoutItem` with its three kinds
  (`FieldRef`, `Component`, `Group`), `Dictionary`, `DataType` and the
  non-zero 16-bit `Tag`. It also holds `Externals`, the functions the
  generator calls but does not define: heck's `to_camel_case`,
  `to_snake_case` and `to_shouty_snake_case`, `DataType::base_type`, and the
  `&'static str` name of a data type. These are inputs, so every property
  holds whatever they compute.
- `TypeResolution` (`type_resolution.dfy`): the two type resolvers, as
  written, and `make_type_optional`. Beside them is a reference definition:
  one priority ladder (`Choose`) over one category table (`TableChoice`), with
  a spelling per mode (`Spell`). Two lemmas equate each resolver with the
  reference, so the two tables in the source are proved to describe the same
  choice.
- `MessageCodegen` (`message_codegen.dfy`): layout-item translation and the
  message struct.
- `FieldCodegen` (`field_codegen.dfy`): enum variants, one field definition,
  and the generated file with its `DataField` import.
- `Text` (`text.dfy`) and `Wrappers` (`wrappers.dfy`): `join`, `ends_with`,
  the decimal spelling of a tag, and `Option`.

Generated text is modelled as a sequence of template pieces (`Concat`). Each
template passed through `indoc!` is written as it reads after indoc has
removed its common indentation. The struct-member template is a plain
`format!` and is written exactly as it stands. The `{{`/`}}` escapes are
written as single braces, and the values are put in their places.

Notes on the source's behaviour that the model keeps:

- The enum type name is checked before tag 10 (codegen.rs:181-186), so an
  enum-valued CheckSum field is typed by its enum.
- Component layout items are not skipped. Each yields a member of type `()`
  named after the component (codegen.rs:302, 307). Only groups yield nothing.
- The leading-digit guard reads the first character of the variant
  description, not of the case-converted identifier (codegen.rs:74).
- The struct-member template (codegen.rs:323-329) is not dedented. Each
  member is emitted with its 12-space indentation, on a line of its own
  between two whitespace-only lines.
- The callers hand the resolvers `data_type().basetype()` (codegen.rs:127,
  310), and so does the `data_type` entry of the constant (codegen.rs:135).
  `Field.dataType` holds that value.

## Model

| member | source | states |
|---|---|---|
| `TypeResolution.SuggestedType` | fefix/src/codegen.rs:175-209 | An enum type name, when given, is returned verbatim. Otherwise tag 10 gives `{fefix_path}::dtf::CheckSum`, whatever the data type. Otherwise a data type whose base type is Float gives `rust_decimal::Decimal`. |
| `TypeResolution.SuggestedTypeFollowsLadder` | fefix/src/codegen.rs:175-209 | For every tag, data type, enum name and crate path, `suggested_type` returns the owned spelling of the reference ladder's choice. |
| `TypeResolution.SuggestedTypeWithLifetime` | fefix/src/codegen.rs:211-237 | Tag 10 gives `crate::dtf::CheckSum`, whatever the data type. Otherwise a Float base type gives `rust_decimal::Decimal`. |
| `TypeResolution.SuggestedTypeWithLifetimeFollowsLadder` | fefix/src/codegen.rs:211-237 | For every tag and data type, `suggested_type_with_lifetime` returns the borrowed spelling of the same ladder's choice, climbed with no enum name. |
| `TypeResolution.UnlistedFallsBackToBytes` | fefix/src/codegen.rs:190-236 | Both resolvers are total. A data type the table does not list falls back to `&[u8]`, or to `&'a [u8]` in lifetime mode. |
| `TypeResolution.SameSpellingInBothModes` | fefix/src/codegen.rs:184-236 | A choice is spelled alike in both modes exactly when it is an enum name, the decimal type, or an integer, byte or bool type. CheckSum and the date/time types are also alike exactly when the owned crate path is `crate`. |
| `TypeResolution.ResolversAgreeExactly` | fefix/src/codegen.rs:184-236 | With no enum name, the two resolvers return the same text exactly in the cases named in the row above. |
| `TypeResolution.SharedSpellings` | fefix/src/codegen.rs:190-231 | Char, Boolean, Length, DayOfMonth, Int, SeqNum and NumInGroup resolve to the same text in both modes (when the tag is not 10 and the base type is not Float). |
| `TypeResolution.MakeTypeOptional` | fefix/src/codegen.rs:239-245 | A required type is returned unchanged. Any other type is wrapped exactly once: unwrapping `::std::option::Option<…>` gives back the input. |
| `TypeResolution.WrapUnwrapRoundTrip` | fefix/src/codegen.rs:239-245 | Wrapping the inside of any `::std::option::Option<…>` spelling gives back that spelling, so wrapping and unwrapping are inverse. |
| `TypeResolution.OptionalIffNotRequired` | fefix/src/codegen.rs:239-245 | For a type that is not already optional, the result is an optional type exactly when the item is not required. |
| `MessageCodegen.RenderMember` | fefix/src/codegen.rs:323-329 | The member template with its identifier and type in place. It has no contract of its own; `TranslateLayoutItemToStructField` states where its identifier and type come from. |
| `MessageCodegen.TranslateLayoutItemToStructField` | fefix/src/codegen.rs:296-330 | No member exactly for a Group item. A Component gives a member named `snake(component name)` of type `()`. A Field gives a member named `snake(field name)`, typed by the lifetime-mode resolver. In both cases the type goes through `make_type_optional` with the `required` flag. |
| `MessageCodegen.MessageMembers` | fefix/src/codegen.rs:30-38 | The map, filter and collect over the layout. It has no contract of its own; `MessageMembersMatchNonGroupItems` and `GroupsContributeNothing` state its properties. |
| `MessageCodegen.MessageMembersMatchNonGroupItems` | fefix/src/codegen.rs:30-38 | The struct's members are exactly the translations of the non-group layout items, one each, in layout order, and each is translated with that item's own `required` flag. |
| `MessageCodegen.GroupsContributeNothing` | fefix/src/codegen.rs:30-38 | A layout made only of groups yields no members. |
| `MessageCodegen.MessageStruct` | fefix/src/codegen.rs:28-59 | `message`. It has no contract of its own; `StructBodyListsMembers`, `LifetimeMarkerAlwaysPresent` and `MsgTypeConstant` state what its text contains. |
| `MessageCodegen.StructBodyListsMembers` | fefix/src/codegen.rs:39-58 | The struct text contains `pub struct camel(message name)<'a> {`, then the lifetime marker, then the joined members, in order. |
| `MessageCodegen.LifetimeMarkerAlwaysPresent` | fefix/src/codegen.rs:44-47 | The `lifetime: PhantomData<&'a ()>` member is present for every message, including one whose layout yields no members. |
| `MessageCodegen.MsgTypeConstant` | fefix/src/codegen.rs:49-56 | Whatever the custom derive line holds, the struct text ends with the `impl` block of `camel(message name)`, which declares `MSG_TYPE` as the byte string of the message's msg_type. |
| `FieldCodegen.VariantIdentifier` | fefix/src/codegen.rs:74-79 | The variant identifier. It has no contract of its own; `VariantIdentifierPrefix` states both directions of the `N` prefix. |
| `FieldCodegen.VariantIdentifierPrefix` | fefix/src/codegen.rs:74-79 | A variant identifier is `"N" + camel(description)` exactly when the description starts with an ASCII digit, and `camel(description)` exactly when it does not. An empty description is excluded, because the source panics on it. |
| `FieldCodegen.EnumVariants` | fefix/src/codegen.rs:65-85 | The map over the enum values. It has no contract of its own; `EnumVariantsInOrder` states one variant per value, in order. |
| `FieldCodegen.EnumVariantsInOrder` | fefix/src/codegen.rs:64-85 | There is one variant per enum value, in the order of the values. |
| `FieldCodegen.VariantDecl` | fefix/src/codegen.rs:66-83 | The per-value variant template. It has no contract of its own; `VariantDeclRecordsValue` states what it carries. |
| `FieldCodegen.VariantDeclRecordsValue` | fefix/src/codegen.rs:66-83 | A variant carries its wire value twice: in its doc comment `/// Field variant '…'.` and in its `#[fefix(variant = "…")]` attribute. It ends with its identifier and a comma. |
| `FieldCodegen.IsGroupLeader` | fefix/src/codegen.rs:134 | `field.name().ends_with("Len")`. It has no contract of its own; `GroupLeaderIffLenSuffix` states its meaning. |
| `FieldCodegen.GroupLeaderIffLenSuffix` | fefix/src/codegen.rs:134 | A field is a group leader exactly when its name is some string followed by `Len`. |
| `FieldCodegen.EnumTypeName` | fefix/src/codegen.rs:64-104 | An enum type name exists exactly when the field has values, and it is `camel(field name)`. That it names the enum the definition declares is `FieldDefTypeParamNamesEnum`. |
| `FieldCodegen.FieldTypeParam` | fefix/src/codegen.rs:125-130 | A field with values is typed by its enum, whatever its tag or data type. A field without values is typed by the owned-mode resolver with no enum name. |
| `FieldCodegen.FieldDef` | fefix/src/codegen.rs:61-137 | `field_def`. It has no contract of its own; the `FieldDef…` lemmas below state what its text contains and how it ends. |
| `FieldCodegen.FieldDefDeclaresConstant` | fefix/src/codegen.rs:106-136 | The definition declares `pub const shouty(name): &FieldDef<'static, T>`, where T is the field's type parameter. |
| `FieldCodegen.FieldDefRecordsTag` | fefix/src/codegen.rs:63-113 | The constant declaration, and so the definition, contains `TagU16::new_unchecked(<tag>)` with the decimal spelling of the field's tag, and that spelling reads back as the tag. |
| `FieldCodegen.FieldDefGroupLeaderFlag` | fefix/src/codegen.rs:106-136 | The constant declaration, and so the definition, contains `is_group_leader: true` when the name ends in `Len`, and `is_group_leader: false` otherwise. |
| `FieldCodegen.EnumSection` | fefix/src/codegen.rs:64-105 | The `enum_variants` text: the enum type for a field with values, the empty string otherwise. It has no contract of its own; `FieldDefEmitsEnum` and `FieldDefWithoutEnumEndsAfterConstant` state where it lands. |
| `FieldCodegen.FieldDefWithoutEnumEndsAfterConstant` | fefix/src/codegen.rs:103-120 | A field without values emits no enum: its definition ends with the constant declaration (closing with `};`) followed by one newline. |
| `FieldCodegen.EnumTypeDecl` | fefix/src/codegen.rs:88-101 | The enum type template. It has no contract of its own; `EnumTypeDeclListsEveryVariant` states that it holds every variant. |
| `FieldCodegen.EnumTypeDeclListsEveryVariant` | fefix/src/codegen.rs:86-101 | The enum type's body holds the declaration of every variant. |
| `FieldCodegen.FieldDefEmitsEnum` | fefix/src/codegen.rs:106-136 | For a field with values, the definition ends with the constant declaration, directly followed by its enum type and one newline. So every variant appears in the field's definition. |
| `FieldCodegen.FieldDefTypeParamNamesEnum` | fefix/src/codegen.rs:86-130 | For a field with values, the definition declares `pub enum T {`, where T is the type parameter of its `FieldDef` constant. So the constant is typed by the enum it declares. |
| `FieldCodegen.ImportDataField` | fefix/src/codegen.rs:164-168 | The import choice. It has no contract of its own; `ImportSelectsCrate` states both directions of the choice. |
| `FieldCodegen.ImportSelectsCrate` | fefix/src/codegen.rs:164-168 | The import is `use fefix::DataField;` exactly when `fefix_path` is `"fefix"`, and `use crate::DataField;` exactly when it is not. |
| `FieldCodegen.Fields` | fefix/src/codegen.rs:139-173 | `fields`. It has no contract of its own; `FieldsImportsDataField` and `FieldsDefinesEveryField` state what its text contains. |
| `FieldCodegen.FieldDefs` | fefix/src/codegen.rs:140-143 | The map of `field_def` over the fields, collected in order. It has no contract of its own; `FieldsDefinesEveryField` states that each one reaches the file. |
| `FieldCodegen.FieldsImportsDataField` | fefix/src/codegen.rs:145-171 | The generated file contains the `DataField` import that `fefix_path` selects. |
| `FieldCodegen.FieldsDefinesEveryField` | fefix/src/codegen.rs:139-172 | The generated file contains the definition of every field of the dictionary, each made by `field_def` from that field. |
| `Text.NatToString` | fefix/src/codegen.rs:63 | The tag text is made of decimal digits only and has no leading zero. |
| `Text.DecimalRoundTrip` | fefix/src/codegen.rs:63 | Reading the tag text back as a decimal number gives the tag. |

## Left out

- `generated_code_notice` and `FEFIX_VERSION` are left out: they read the clock and build metadata. `Fields` takes the banner text as its `notice` parameter.
- heck's case conversions, `DataType::base_type`, and the conversion of a `DataType` to its name belong to other crates or modules. They are left as the function inputs in `Externals`.
- indoc's indentation removal is not modelled as an algorithm. It is applied to each template literal as written.
- `docs::gen_field` and the `_field_doc` it computes are left out, because the result is discarded. For the same reason, the dictionary that `message` and `translate_layout_item_to_struct_field` take (used only for that documentation) is not a parameter of the model.
- The commented-out `build_message_struct`, `build_component_struct` and `field_tag` code is left out: it is not live code.
- Whether the generated text parses as Rust is left out. The source checks it with a Rust parser in its tests.
- The sub-layout of a group is carried in `Group` but never inspected, as in the source.
- The data-type variants that codegen.rs reaches only through a wildcard arm are the single constructor `Other(name)`. The dictionary and data-type modules are not part of this model.
- `fields` walks `dict.iter_fields()`. Here the field order is taken to be the order of `Dictionary.fields`.
- `VariantIdentifier`, `FieldDef` and `Fields`: the source panics (`unwrap`) on an enum value with an empty description. The model states this as the precondition `DescriptionsNonEmpty` (one field) or `AllDescriptionsNonEmpty` (every field), and does not model the panic.
