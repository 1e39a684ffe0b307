/** The field emitter: one `FieldDef` constant per dictionary field, followed
    by an enum type when the field has a closed value set; and the file
    assembler that puts the imports in front of all field definitions. */
module FieldCodegen {

  import opened Wrappers
  import opened Text
  import opened FixDictionary
  import opened TypeResolution

  // ---------------------------------------------------------------------
  // Enum variants
  // ---------------------------------------------------------------------

  /** The identifier of an enum variant: the camel-case description, with an
      `N` in front when the description starts with an ASCII digit. The
      description must not be empty: its first character is taken with
      `unwrap`. */
  function VariantIdentifier(description: string, ext: Externals): string
    requires description != ""
  {
    (if IsAsciiDigit(description[0]) then "N" else "") + ext.toCamelCase(description)
  }

  /** The identifier is `"N" + camel(description)` exactly when the
      description starts with a digit, and plain `camel(description)` exactly
      when it does not. */
  lemma VariantIdentifierPrefix(description: string, ext: Externals)
    requires description != ""
    ensures VariantIdentifier(description, ext) == "N" + ext.toCamelCase(description)
      <==> IsAsciiDigit(description[0])
    ensures VariantIdentifier(description, ext) == ext.toCamelCase(description)
      <==> !IsAsciiDigit(description[0])
  {
    var camel := ext.toCamelCase(description);
    assert |"N" + camel| != |camel|;
  }

  /** The pieces of one variant (the variant template with indoc's
      indentation removal applied and an indentation of four spaces). */
  function VariantPieces(e: EnumValue, ext: Externals): seq<string>
    requires e.description != ""
  {
    [ "    ", Concat(["/// Field variant '", e.value, "'."]), "\n    ",
      Concat(["#[fefix(variant = \"", e.value, "\")]"]),
      "\n    ", VariantIdentifier(e.description, ext), "," ]
  }

  function VariantDecl(e: EnumValue, ext: Externals): string
    requires e.description != ""
  {
    Concat(VariantPieces(e, ext))
  }

  /** A variant records its wire value in its doc comment and in its `fefix`
      attribute, and ends with its identifier. */
  lemma VariantDeclRecordsValue(e: EnumValue, ext: Externals)
    requires e.description != ""
    ensures IsInfix(Concat(["/// Field variant '", e.value, "'."]), VariantDecl(e, ext))
    ensures IsInfix(Concat(["#[fefix(variant = \"", e.value, "\")]"]), VariantDecl(e, ext))
    ensures EndsWith(VariantDecl(e, ext), Concat([VariantIdentifier(e.description, ext), ","]))
  {
    var pieces := VariantPieces(e, ext);
    PieceIsInfix(pieces, 1);
    PieceIsInfix(pieces, 3);
    PieceTailIsSuffix(pieces, 5);
    assert pieces[5..] == [VariantIdentifier(e.description, ext), ","];
  }

  /** The variant declarations of an enum type. */
  function EnumVariants(values: seq<EnumValue>, ext: Externals): seq<string>
    requires forall i :: 0 <= i < |values| ==> values[i].description != ""
    decreases |values|
  {
    if values == [] then []
    else [VariantDecl(values[0], ext)] + EnumVariants(values[1..], ext)
  }

  /** One variant per enum value, in the order of the values. */
  lemma {:induction false} EnumVariantsInOrder(values: seq<EnumValue>, ext: Externals)
    requires forall i :: 0 <= i < |values| ==> values[i].description != ""
    ensures |EnumVariants(values, ext)| == |values|
    ensures forall i :: 0 <= i < |values| ==> EnumVariants(values, ext)[i] == VariantDecl(values[i], ext)
    decreases |values|
  {
    if values != [] {
      EnumVariantsInOrder(values[1..], ext);
    }
  }

  // ---------------------------------------------------------------------
  // One field definition
  // ---------------------------------------------------------------------

  /** `name.ends_with("Len")`. */
  function IsGroupLeader(name: string): bool
  {
    EndsWith(name, "Len")
  }

  /** A field leads a repeating group exactly when its name is some string
      followed by `Len`. */
  lemma GroupLeaderIffLenSuffix(name: string)
    ensures IsGroupLeader(name) <==> exists p: string :: name == p + "Len"
  {
    EndsWithIff(name, "Len");
  }

  /** The name of the generated enum type, present exactly when the field has
      a value set. */
  function EnumTypeName(f: Field, ext: Externals): (r: Option<string>)
    ensures r.Some? <==> f.enums.Some?
    ensures r.Some? ==> r.value == ext.toCamelCase(f.name)
  {
    if f.enums.Some? then Some(ext.toCamelCase(f.name)) else None
  }

  /** The type parameter of the field's `FieldDef`: the enum type when there
      is one, whatever the tag and data type; otherwise the owned-mode
      resolution of the tag and data type. */
  function FieldTypeParam(f: Field, fefixPath: string, ext: Externals): (r: string)
    ensures f.enums.Some? ==> r == ext.toCamelCase(f.name)
    ensures f.enums.None? ==> r == SuggestedType(f.tag, f.dataType, None, fefixPath, ext.baseType)
  {
    SuggestedType(f.tag, f.dataType, EnumTypeName(f, ext), fefixPath, ext.baseType)
  }

  /** The enum type declared after a field with a value set. */
  function EnumTypeDecl(f: Field, ext: Externals): string
    requires f.enums.Some? && DescriptionsNonEmpty(f)
  {
    Concat([ "/// Field type variants for [`", ext.toShoutySnakeCase(f.name), "`].\n",
             "#[derive(Debug, Copy, Clone, PartialEq, Eq, Hash, DataField)]\n",
             Concat(["pub enum ", ext.toCamelCase(f.name), " {\n"]),
             Join(EnumVariants(f.enums.value, ext), "\n"), "\n}\n" ])
  }

  function EnumSection(f: Field, ext: Externals): string
    requires DescriptionsNonEmpty(f)
  {
    if f.enums.Some? then EnumTypeDecl(f, ext) else ""
  }

  /** `pub const NAME: &FieldDef<'static, T>`. */
  function ConstantHead(f: Field, fefixPath: string, ext: Externals): string
  {
    Concat(["pub const ", ext.toShoutySnakeCase(f.name), ": &FieldDef<'static, ",
            FieldTypeParam(f, fefixPath, ext), ">"])
  }

  function TagLiteral(f: Field): string
  {
    Concat(["TagU16::new_unchecked(", NatToString(f.tag), ")"])
  }

  function GroupLeaderEntry(f: Field): string
  {
    Concat(["is_group_leader: ", if IsGroupLeader(f.name) then "true" else "false"])
  }

  const ConstantClose: string := "    phantom: PhantomData,\n    location: FieldLocation::Body,\n};\n"

  /** The two documentation lines above the constant; the dictionary link
      always says version 4.4. */
  function FieldDocLines(f: Field): string
  {
    var tag := NatToString(f.tag);
    Concat([ "/// Field attributes for [`", f.name, " <", tag, ">`]\n",
             "/// (https://www.onixs.biz/fix-dictionary/", "4", ".", "4", "/tagnum_", tag, ".html).\n" ])
  }

  /** The pieces of the `FieldDef` constant. */
  function ConstantPieces(f: Field, fefixPath: string, ext: Externals): seq<string>
  {
    [ ConstantHead(f, fefixPath, ext),
      " = &FieldDef{\n    name: \"", f.name, "\",\n    tag: unsafe { ",
      TagLiteral(f), " },\n    ",
      GroupLeaderEntry(f), ",\n",
      "    data_type: DataType::", ext.dataTypeName(f.dataType), ",\n",
      ConstantClose ]
  }

  function ConstantDecl(f: Field, fefixPath: string, ext: Externals): string
  {
    Concat(ConstantPieces(f, fefixPath, ext))
  }

  /** The pieces of the field template (indoc's indentation removal applied). */
  function FieldDefPieces(f: Field, fefixPath: string, ext: Externals): seq<string>
    requires DescriptionsNonEmpty(f)
  {
    [ FieldDocLines(f), ConstantDecl(f, fefixPath, ext), EnumSection(f, ext), "\n" ]
  }

  /** `field_def`: the definition of one field. */
  function FieldDef(f: Field, fefixPath: string, ext: Externals): string
    requires DescriptionsNonEmpty(f)
  {
    Concat(FieldDefPieces(f, fefixPath, ext))
  }

  /** The constant is named in shouty snake case and typed by the field's
      type parameter. */
  lemma FieldDefDeclaresConstant(f: Field, fefixPath: string, ext: Externals)
    requires DescriptionsNonEmpty(f)
    ensures IsInfix(Concat(["pub const ", ext.toShoutySnakeCase(f.name), ": &FieldDef<'static, ",
                            FieldTypeParam(f, fefixPath, ext), ">"]), FieldDef(f, fefixPath, ext))
  {
    ConstantPieceInFieldDef(f, fefixPath, ext, 0);
  }

  /** Every piece of the constant appears in the field's definition. */
  lemma ConstantPieceInFieldDef(f: Field, fefixPath: string, ext: Externals, k: nat)
    requires DescriptionsNonEmpty(f) && k < |ConstantPieces(f, fefixPath, ext)|
    ensures IsInfix(ConstantPieces(f, fefixPath, ext)[k], FieldDef(f, fefixPath, ext))
  {
    var pieces := ConstantPieces(f, fefixPath, ext);
    PieceIsInfix(pieces, k);
    PieceIsInfix(FieldDefPieces(f, fefixPath, ext), 1);
    InfixTransitive(pieces[k], ConstantDecl(f, fefixPath, ext), FieldDef(f, fefixPath, ext));
  }

  /** The tag literal in the constant is the decimal spelling of the field's
      tag, and it reads back as that tag. */
  lemma FieldDefRecordsTag(f: Field, fefixPath: string, ext: Externals)
    requires DescriptionsNonEmpty(f)
    ensures IsInfix(Concat(["TagU16::new_unchecked(", NatToString(f.tag), ")"]), ConstantDecl(f, fefixPath, ext))
    ensures IsInfix(Concat(["TagU16::new_unchecked(", NatToString(f.tag), ")"]), FieldDef(f, fefixPath, ext))
    ensures DecimalValue(NatToString(f.tag)) == f.tag
  {
    PieceIsInfix(ConstantPieces(f, fefixPath, ext), 4);
    ConstantPieceInFieldDef(f, fefixPath, ext, 4);
    DecimalRoundTrip(f.tag);
  }

  /** The group-leader flag is `true` exactly for names ending in `Len`. */
  lemma FieldDefGroupLeaderFlag(f: Field, fefixPath: string, ext: Externals)
    requires DescriptionsNonEmpty(f)
    ensures var flag := if exists p: string :: f.name == p + "Len" then "true" else "false";
      IsInfix(Concat(["is_group_leader: ", flag]), ConstantDecl(f, fefixPath, ext))
    ensures var flag := if exists p: string :: f.name == p + "Len" then "true" else "false";
      IsInfix(Concat(["is_group_leader: ", flag]), FieldDef(f, fefixPath, ext))
  {
    GroupLeaderIffLenSuffix(f.name);
    PieceIsInfix(ConstantPieces(f, fefixPath, ext), 6);
    ConstantPieceInFieldDef(f, fefixPath, ext, 6);
  }

  /** The constant declaration ends with its closing lines. */
  lemma ConstantDeclEndsWithClose(f: Field, fefixPath: string, ext: Externals)
    ensures EndsWith(ConstantDecl(f, fefixPath, ext), ConstantClose)
  {
    ConcatEndsWithLast(ConstantPieces(f, fefixPath, ext));
  }

  /** With an empty enum section, the field template ends with the end of
      the constant and one newline. */
  lemma TemplateEndsAfterConstant(doc: string, decl: string, enumSection: string)
    requires EndsWith(decl, ConstantClose) && enumSection == ""
    ensures EndsWith(Concat([doc, decl, enumSection, "\n"]), "};\n\n")
  {
    var text := Concat([doc, decl, enumSection, "\n"]);
    ConcatEndsWithLastThree([doc, decl, enumSection, "\n"]);
    assert decl + enumSection + "\n" == decl + "\n";
    EndsWithAppend(decl, ConstantClose, "\n");
    EndsWithTransitive(text, decl + "\n", ConstantClose + "\n");
    CloseEndsStatement();
    EndsWithTransitive(text, ConstantClose + "\n", "};\n\n");
  }

  lemma CloseEndsStatement()
    ensures EndsWith(ConstantClose + "\n", "};\n\n")
  {
    var t := ConstantClose + "\n";
    assert t[|t| - 4..] == "};\n\n";
  }

  /** A field without a value set ends right after its constant: the
      constant declaration and one newline close the text. */
  lemma FieldDefWithoutEnumEndsAfterConstant(f: Field, fefixPath: string, ext: Externals)
    requires DescriptionsNonEmpty(f) && f.enums.None?
    ensures EndsWith(FieldDef(f, fefixPath, ext), ConstantDecl(f, fefixPath, ext) + "\n")
    ensures EndsWith(FieldDef(f, fefixPath, ext), "};\n\n")
  {
    var decl := ConstantDecl(f, fefixPath, ext);
    ConcatEndsWithLastThree(FieldDefPieces(f, fefixPath, ext));
    assert decl + EnumSection(f, ext) + "\n" == decl + "\n";
    ConstantDeclEndsWithClose(f, fefixPath, ext);
    TemplateEndsAfterConstant(FieldDocLines(f), decl, EnumSection(f, ext));
  }

  /** The enum type holds one variant declaration per value of the set. */
  lemma EnumTypeDeclListsEveryVariant(f: Field, ext: Externals)
    requires f.enums.Some? && DescriptionsNonEmpty(f)
    ensures forall k :: 0 <= k < |f.enums.value| ==>
      IsInfix(VariantDecl(f.enums.value[k], ext), EnumTypeDecl(f, ext))
  {
    var values := f.enums.value;
    var variants := EnumVariants(values, ext);
    var joined := Join(variants, "\n");
    var declPieces := [ "/// Field type variants for [`", ext.toShoutySnakeCase(f.name), "`].\n",
                        "#[derive(Debug, Copy, Clone, PartialEq, Eq, Hash, DataField)]\n",
                        Concat(["pub enum ", ext.toCamelCase(f.name), " {\n"]), joined, "\n}\n" ];
    assert EnumTypeDecl(f, ext) == Concat(declPieces);
    PieceIsInfix(declPieces, 5);
    EnumVariantsInOrder(values, ext);
    forall k | 0 <= k < |values|
      ensures IsInfix(VariantDecl(values[k], ext), EnumTypeDecl(f, ext))
    {
      JoinContainsEachPart(variants, "\n", k);
      InfixTransitive(variants[k], joined, EnumTypeDecl(f, ext));
    }
  }

  /** In a field with a value set, its enum type follows the constant
      directly and closes the text before the final newline; so every variant,
      one per value, appears in the field's definition. */
  lemma FieldDefEmitsEnum(f: Field, fefixPath: string, ext: Externals)
    requires DescriptionsNonEmpty(f) && f.enums.Some?
    ensures EndsWith(FieldDef(f, fefixPath, ext), ConstantDecl(f, fefixPath, ext) + EnumTypeDecl(f, ext) + "\n")
    ensures IsInfix(EnumTypeDecl(f, ext), FieldDef(f, fefixPath, ext))
    ensures forall k :: 0 <= k < |f.enums.value| ==>
      IsInfix(VariantDecl(f.enums.value[k], ext), FieldDef(f, fefixPath, ext))
  {
    ConcatEndsWithLastThree(FieldDefPieces(f, fefixPath, ext));
    PieceIsInfix(FieldDefPieces(f, fefixPath, ext), 2);
    EnumTypeDeclListsEveryVariant(f, ext);
    forall k | 0 <= k < |f.enums.value|
      ensures IsInfix(VariantDecl(f.enums.value[k], ext), FieldDef(f, fefixPath, ext))
    {
      InfixTransitive(VariantDecl(f.enums.value[k], ext), EnumTypeDecl(f, ext), FieldDef(f, fefixPath, ext));
    }
  }

  /** For a field with a value set, the type parameter of its `FieldDef`
      constant is the identifier of the enum type the same definition
      declares. */
  lemma FieldDefTypeParamNamesEnum(f: Field, fefixPath: string, ext: Externals)
    requires DescriptionsNonEmpty(f) && f.enums.Some?
    ensures IsInfix(Concat(["pub enum ", FieldTypeParam(f, fefixPath, ext), " {\n"]), FieldDef(f, fefixPath, ext))
  {
    var header := Concat(["pub enum ", ext.toCamelCase(f.name), " {\n"]);
    var declPieces := [ "/// Field type variants for [`", ext.toShoutySnakeCase(f.name), "`].\n",
                        "#[derive(Debug, Copy, Clone, PartialEq, Eq, Hash, DataField)]\n",
                        header, Join(EnumVariants(f.enums.value, ext), "\n"), "\n}\n" ];
    assert EnumTypeDecl(f, ext) == Concat(declPieces);
    PieceIsInfix(declPieces, 4);
    PieceIsInfix(FieldDefPieces(f, fefixPath, ext), 2);
    InfixTransitive(header, EnumTypeDecl(f, ext), FieldDef(f, fefixPath, ext));
  }

  // ---------------------------------------------------------------------
  // The whole file
  // ---------------------------------------------------------------------

  /** The import of the `DataField` derive: from `fefix` for an outside crate,
      from `crate` otherwise. */
  function ImportDataField(fefixPath: string): string
  {
    if fefixPath == "fefix" then "use fefix::DataField;" else "use crate::DataField;"
  }

  /** The import names `fefix` exactly when `fefix_path` is `"fefix"`, and
      `crate` exactly when it is not. */
  lemma ImportSelectsCrate(fefixPath: string)
    ensures ImportDataField(fefixPath) == "use fefix::DataField;" <==> fefixPath == "fefix"
    ensures ImportDataField(fefixPath) == "use crate::DataField;" <==> fefixPath != "fefix"
  {
    assert "use fefix::DataField;"[4] != "use crate::DataField;"[4];
  }

  predicate AllDescriptionsNonEmpty(fields: seq<Field>)
  {
    forall i :: 0 <= i < |fields| ==> DescriptionsNonEmpty(fields[i])
  }

  /** The field definitions of a dictionary, one per field, in order. */
  function FieldDefs(fields: seq<Field>, fefixPath: string, ext: Externals): seq<string>
    requires AllDescriptionsNonEmpty(fields)
  {
    seq(|fields|, i requires 0 <= i < |fields| => FieldDef(fields[i], fefixPath, ext))
  }

  /** The pieces of the file template (indoc's indentation removal applied),
      with the joined field definitions in place. `notice` is the
      generated-code banner, which reads the clock. */
  function FieldsPieces(version: string, fefixPath: string, notice: string, fieldDefs: string): seq<string>
  {
    [ "//! Field and message definitions for ", version, ".\n\n#![allow(dead_code)]\n\n",
      notice, "\n\nuse ", fefixPath, "::{FieldDef, FieldLocation, TagU16};\nuse ",
      fefixPath, "::{DataType, Buffer};\n", ImportDataField(fefixPath),
      "\nuse std::marker::PhantomData;\n\n",
      fieldDefs, "\n" ]
  }

  /** `fields`: the generated source file for a dictionary. */
  function Fields(dict: Dictionary, fefixPath: string, notice: string, ext: Externals): string
    requires AllDescriptionsNonEmpty(dict.fields)
  {
    Concat(FieldsPieces(dict.version, fefixPath, notice, Join(FieldDefs(dict.fields, fefixPath, ext), "\n")))
  }

  /** The file imports `DataField` from the path its `fefix_path` selects. */
  lemma FieldsImportsDataField(dict: Dictionary, fefixPath: string, notice: string, ext: Externals)
    requires AllDescriptionsNonEmpty(dict.fields)
    ensures IsInfix(ImportDataField(fefixPath), Fields(dict, fefixPath, notice, ext))
  {
    PieceIsInfix(FieldsPieces(dict.version, fefixPath, notice, Join(FieldDefs(dict.fields, fefixPath, ext), "\n")), 9);
  }

  /** The file holds the definition of every field of the dictionary. */
  lemma FieldsDefinesEveryField(dict: Dictionary, fefixPath: string, notice: string, ext: Externals)
    requires AllDescriptionsNonEmpty(dict.fields)
    ensures forall k :: 0 <= k < |dict.fields| ==>
      IsInfix(FieldDef(dict.fields[k], fefixPath, ext), Fields(dict, fefixPath, notice, ext))
  {
    var defs := FieldDefs(dict.fields, fefixPath, ext);
    var joined := Join(defs, "\n");
    var text := Fields(dict, fefixPath, notice, ext);
    PieceIsInfix(FieldsPieces(dict.version, fefixPath, notice, joined), 11);
    forall k | 0 <= k < |dict.fields|
      ensures IsInfix(FieldDef(dict.fields[k], fefixPath, ext), text)
    {
      JoinContainsEachPart(defs, "\n", k);
      InfixTransitive(defs[k], joined, text);
    }
  }
}
