/** The message struct emitter: one Rust struct per FIX message, with one
    member per non-group layout item, a lifetime marker and the message's
    `MSG_TYPE` constant. */
module MessageCodegen {

  import opened Wrappers
  import opened Text
  import opened FixDictionary
  import opened TypeResolution

  const MemberIndent: string := "            "

  /** The text of one struct member, as the member template lays it out. */
  function RenderMember(identifier: string, fieldType: string): string
  {
    "\n" + MemberIndent + "pub " + identifier + ": " + fieldType + ",\n" + MemberIndent
  }

  /** `Dictionary::translate_layout_item_to_struct_field`: a group gives no
      member; a component gives a member of type `()` named after it; a field
      gives a member named after it, typed by the lifetime-mode resolver. The
      type is optional unless `required`. */
  function TranslateLayoutItemToStructField(item: LayoutItem, required: bool, ext: Externals): (r: Option<string>)
    ensures r.None? <==> item.kind.Group?
    ensures item.kind.Component? ==>
      r == Some(RenderMember(ext.toSnakeCase(item.kind.name), MakeTypeOptional(required, "()")))
    ensures item.kind.FieldRef? ==>
      var f := item.kind.field;
      r == Some(RenderMember(ext.toSnakeCase(f.name),
                             MakeTypeOptional(required, SuggestedTypeWithLifetime(f.tag, f.dataType, ext.baseType))))
  {
    match item.kind
    case Group(_, _) => None
    case Component(c) => Some(RenderMember(ext.toSnakeCase(c), MakeTypeOptional(required, "()")))
    case FieldRef(f) =>
      Some(RenderMember(ext.toSnakeCase(f.name),
                        MakeTypeOptional(required, SuggestedTypeWithLifetime(f.tag, f.dataType, ext.baseType))))
  }

  /** The member texts of a layout: each item translated with its own
      `required` flag, the absent ones dropped, the rest kept in order. */
  function MessageMembers(layout: seq<LayoutItem>, ext: Externals): seq<string>
    decreases |layout|
  {
    if layout == [] then []
    else
      var rest := MessageMembers(layout[1..], ext);
      match TranslateLayoutItemToStructField(layout[0], layout[0].required, ext)
      case Some(m) => [m] + rest
      case None => rest
  }

  /** The layout items that are not groups, in layout order. */
  function NonGroupItems(layout: seq<LayoutItem>): seq<LayoutItem>
    decreases |layout|
  {
    if layout == [] then []
    else if layout[0].kind.Group? then NonGroupItems(layout[1..])
    else [layout[0]] + NonGroupItems(layout[1..])
  }

  /** The struct's members are exactly the translations of the non-group
      layout items, one each, in layout order. */
  lemma {:induction false} MessageMembersMatchNonGroupItems(layout: seq<LayoutItem>, ext: Externals)
    ensures |MessageMembers(layout, ext)| == |NonGroupItems(layout)|
    ensures forall i :: 0 <= i < |NonGroupItems(layout)| ==>
      var item := NonGroupItems(layout)[i];
      !item.kind.Group? &&
      TranslateLayoutItemToStructField(item, item.required, ext) == Some(MessageMembers(layout, ext)[i])
    decreases |layout|
  {
    if layout != [] {
      MessageMembersMatchNonGroupItems(layout[1..], ext);
    }
  }

  /** Group items never contribute members. */
  lemma {:induction false} GroupsContributeNothing(layout: seq<LayoutItem>, ext: Externals)
    requires forall i :: 0 <= i < |layout| ==> layout[i].kind.Group?
    ensures MessageMembers(layout, ext) == []
    decreases |layout|
  {
    if layout != [] {
      GroupsContributeNothing(layout[1..], ext);
    }
  }

  const LifetimeMember: string := "    lifetime: PhantomData<&'a ()>,\n"

  const MsgTypeOpen: string := "pub const MSG_TYPE: &'static [u8] = b\""

  /** The struct declaration's pieces: name, lifetime marker, members. */
  function StructBodyPieces(msg: Message, ext: Externals): seq<string>
  {
    [ "pub struct ", ext.toCamelCase(msg.name), "<'a> {\n", LifetimeMember,
      "    ", Join(MessageMembers(msg.layout, ext), "\n"), "\n}" ]
  }

  function MsgTypeDecl(msg: Message): string
  {
    Concat([MsgTypeOpen, msg.msgType, "\";"])
  }

  /** The `impl` block that closes the message text. */
  function ImplBlockPieces(msg: Message, ext: Externals): seq<string>
  {
    [ "\n\nimpl<'a> ", ext.toCamelCase(msg.name), "<'a> {\n    ", MsgTypeDecl(msg), "\n}\n" ]
  }

  /** The pieces of the message template (indoc's indentation removal
      applied), with the values put in place. */
  function MessagePieces(msg: Message, customDeriveLine: string, ext: Externals): seq<string>
  {
    [ "#[derive(Debug)]\n", customDeriveLine, "\n",
      Concat(StructBodyPieces(msg, ext)),
      Concat(ImplBlockPieces(msg, ext)) ]
  }

  /** `message`: the struct for one message. */
  function MessageStruct(msg: Message, customDeriveLine: string, ext: Externals): string
  {
    Concat(MessagePieces(msg, customDeriveLine, ext))
  }

  /** The struct is declared under the message's camel-case name, opens with
      the lifetime marker and then lists the joined members in order. */
  lemma StructBodyListsMembers(msg: Message, customDeriveLine: string, ext: Externals)
    ensures IsInfix(Concat(["pub struct ", ext.toCamelCase(msg.name), "<'a> {\n", LifetimeMember,
                            "    ", Join(MessageMembers(msg.layout, ext), "\n"), "\n}"]),
                    MessageStruct(msg, customDeriveLine, ext))
  {
    PieceIsInfix(MessagePieces(msg, customDeriveLine, ext), 3);
  }

  /** The lifetime marker member is present for every message, even one
      whose layout gives no member. */
  lemma LifetimeMarkerAlwaysPresent(msg: Message, customDeriveLine: string, ext: Externals)
    ensures IsInfix(LifetimeMember, MessageStruct(msg, customDeriveLine, ext))
  {
    var body := StructBodyPieces(msg, ext);
    PieceIsInfix(body, 3);
    PieceIsInfix(MessagePieces(msg, customDeriveLine, ext), 3);
    InfixTransitive(LifetimeMember, Concat(body), MessageStruct(msg, customDeriveLine, ext));
  }

  /** The text closes with the `impl` block of the camel-case name, which
      declares `MSG_TYPE` as the message's msg_type, whatever the custom
      derive line holds. */
  lemma MsgTypeConstant(msg: Message, customDeriveLine: string, ext: Externals)
    ensures EndsWith(MessageStruct(msg, customDeriveLine, ext),
                     Concat(["\n\nimpl<'a> ", ext.toCamelCase(msg.name), "<'a> {\n    ",
                             Concat([MsgTypeOpen, msg.msgType, "\";"]), "\n}\n"]))
    ensures IsInfix(Concat([MsgTypeOpen, msg.msgType, "\";"]), MessageStruct(msg, customDeriveLine, ext))
  {
    var impl := ImplBlockPieces(msg, ext);
    var pieces := MessagePieces(msg, customDeriveLine, ext);
    ConcatEndsWithLast(pieces);
    PieceIsInfix(impl, 3);
    PieceIsInfix(pieces, 4);
    InfixTransitive(impl[3], Concat(impl), MessageStruct(msg, customDeriveLine, ext));
  }
}
