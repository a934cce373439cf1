/** Move type layouts, and the packages a layout mentions. */
module MoveLayout {
  import opened Packages

  datatype TypeTag = PrimitiveTag(name: string) | VectorTag(element: TypeTag) | StructTypeTag(tag: StructTag)

  datatype StructTag = StructTag(address: Address, moduleName: string, name: string, typeParams: seq<TypeTag>)

  datatype Field = Field(name: string, layout: Layout)

  datatype Variant = Variant(name: string, tag: nat, fields: seq<Field>)

  datatype Layout =
    | Primitive(name: string)
    | Vector(element: Layout)
    | Struct(tag: StructTag, fields: seq<Field>)
    | Enum(tag: StructTag, variants: seq<Variant>)

  // ---------- what a layout mentions, by position ----------

  /** The step into a layout: a vector's element, or a field of a struct or of a variant. */
  function ChildrenOf(layout: Layout): seq<Layout> {
    match layout
    case Primitive(_) => []
    case Vector(element) => [element]
    case Struct(_, fields) => LayoutsOf(fields)
    case Enum(_, variants) => VariantLayouts(variants)
  }

  function LayoutsOf(fields: seq<Field>): (r: seq<Layout>)
    ensures |r| == |fields| && forall i | 0 <= i < |fields| :: r[i] == fields[i].layout
  {
    seq(|fields|, i requires 0 <= i < |fields| => fields[i].layout)
  }

  function VariantLayouts(variants: seq<Variant>): (r: seq<Layout>)
    ensures forall l :: l in r <==> exists v, f :: v in variants && f in v.fields && f.layout == l
  {
    if variants == [] then [] else LayoutsOf(variants[0].fields) + VariantLayouts(variants[1..])
  }

  /** The layout at a path of child positions, if the path stays inside. */
  ghost predicate NodeAt(layout: Layout, path: seq<nat>, node: Layout)
    decreases |path|
  {
    if path == [] then node == layout
    else path[0] < |ChildrenOf(layout)| && NodeAt(ChildrenOf(layout)[path[0]], path[1..], node)
  }

  /** The type tags one step inside a type tag. */
  function TagChildren(tag: TypeTag): seq<TypeTag> {
    match tag
    case PrimitiveTag(_) => []
    case VectorTag(element) => [element]
    case StructTypeTag(inner) => inner.typeParams
  }

  ghost predicate TagAt(tag: TypeTag, path: seq<nat>, inner: TypeTag)
    decreases |path|
  {
    if path == [] then inner == tag
    else path[0] < |TagChildren(tag)| && TagAt(TagChildren(tag)[path[0]], path[1..], inner)
  }

  /** Somewhere in the tag stands a struct of that package. */
  ghost predicate Names(tag: TypeTag, a: Address) {
    exists path, inner :: TagAt(tag, path, inner) && inner.StructTypeTag? && inner.tag.address == a
  }

  ghost predicate NodeNames(node: Layout, a: Address) {
    (node.Struct? || node.Enum?) && Names(StructTypeTag(node.tag), a)
  }

  /** Somewhere in the layout stands a struct or enum whose tag names that package. */
  ghost predicate Mentions(layout: Layout, a: Address) {
    exists path, node :: NodeAt(layout, path, node) && NodeNames(node, a)
  }

  // ---------- collecting them ----------

  /** Every package a type tag names. */
  ghost function TagAddresses(tag: TypeTag): set<Address> {
    match tag
    case PrimitiveTag(_) => {}
    case VectorTag(element) => TagAddresses(element)
    case StructTypeTag(inner) =>
      {inner.address} + ParamsAddresses(inner.typeParams)
  }

  ghost function ParamsAddresses(params: seq<TypeTag>): set<Address> {
    set p, a | p in params && a in TagAddresses(p) :: a
  }

  /** Every package a layout mentions. */
  ghost function Mentioned(layout: Layout): set<Address> {
    match layout
    case Primitive(_) => {}
    case Vector(element) => Mentioned(element)
    case Struct(tag, fields) =>
      TagAddresses(StructTypeTag(tag)) + FieldsMentioned(fields)
    case Enum(tag, variants) =>
      TagAddresses(StructTypeTag(tag)) + VariantsMentioned(variants)
  }

  ghost function FieldsMentioned(fields: seq<Field>): set<Address> {
    set f, a | f in fields && a in Mentioned(f.layout) :: a
  }

  ghost function VariantsMentioned(variants: seq<Variant>): set<Address> {
    set v, a | v in variants && a in FieldsMentioned(v.fields) :: a
  }

  lemma NamesByStep(tag: TypeTag, a: Address)
    ensures Names(tag, a) <==>
      (tag.StructTypeTag? && tag.tag.address == a) || exists t :: t in TagChildren(tag) && Names(t, a)
  {
    if tag.StructTypeTag? && tag.tag.address == a {
      assert TagAt(tag, [], tag);
    }
    forall i | 0 <= i < |TagChildren(tag)| && Names(TagChildren(tag)[i], a)
      ensures Names(tag, a)
    {
      var path, inner :| TagAt(TagChildren(tag)[i], path, inner) && inner.StructTypeTag? && inner.tag.address == a;
      assert ([i] + path)[1..] == path;
      assert TagAt(tag, [i] + path, inner);
    }
    if Names(tag, a) {
      var path, inner :| TagAt(tag, path, inner) && inner.StructTypeTag? && inner.tag.address == a;
      if path != [] {
        var t := TagChildren(tag)[path[0]];
        assert t in TagChildren(tag) && TagAt(t, path[1..], inner);
      }
    }
  }

  /** The collected packages of a tag are exactly those it names. */
  lemma {:induction false} TagAddressesExact(tag: TypeTag, a: Address)
    ensures a in TagAddresses(tag) <==> Names(tag, a)
    decreases tag
  {
    NamesByStep(tag, a);
    match tag
    case PrimitiveTag(_) =>
    case VectorTag(element) => TagAddressesExact(element, a);
    case StructTypeTag(inner) =>
      forall p | p in inner.typeParams
        ensures a in TagAddresses(p) <==> Names(p, a)
      {
        TagAddressesExact(p, a);
      }
  }

  lemma MentionsByStep(layout: Layout, a: Address)
    ensures Mentions(layout, a) <==> NodeNames(layout, a) || exists l :: l in ChildrenOf(layout) && Mentions(l, a)
  {
    if NodeNames(layout, a) {
      assert NodeAt(layout, [], layout);
    }
    forall i | 0 <= i < |ChildrenOf(layout)| && Mentions(ChildrenOf(layout)[i], a)
      ensures Mentions(layout, a)
    {
      var path, node :| NodeAt(ChildrenOf(layout)[i], path, node) && NodeNames(node, a);
      assert ([i] + path)[1..] == path;
      assert NodeAt(layout, [i] + path, node);
    }
    if Mentions(layout, a) {
      var path, node :| NodeAt(layout, path, node) && NodeNames(node, a);
      if path != [] {
        var l := ChildrenOf(layout)[path[0]];
        assert l in ChildrenOf(layout) && NodeAt(l, path[1..], node);
      }
    }
  }

  /** The collected packages of a layout are exactly those it mentions anywhere. */
  lemma {:induction false} MentionedExact(layout: Layout, a: Address)
    ensures a in Mentioned(layout) <==> Mentions(layout, a)
    decreases layout
  {
    MentionsByStep(layout, a);
    match layout
    case Primitive(_) =>
    case Vector(element) => MentionedExact(element, a);
    case Struct(tag, fields) =>
      TagAddressesExact(StructTypeTag(tag), a);
      forall f | f in fields
        ensures a in Mentioned(f.layout) <==> Mentions(f.layout, a)
      {
        MentionedExact(f.layout, a);
      }
    case Enum(tag, variants) =>
      TagAddressesExact(StructTypeTag(tag), a);
      forall v, f | v in variants && f in v.fields
        ensures a in Mentioned(f.layout) <==> Mentions(f.layout, a)
      {
        MentionedExact(f.layout, a);
      }
      VariantsByField(variants, a);
  }

  lemma VariantsByField(variants: seq<Variant>, a: Address)
    requires forall v, f | v in variants && f in v.fields :: a in Mentioned(f.layout) <==> Mentions(f.layout, a)
    ensures a in VariantsMentioned(variants) <==> exists l :: l in VariantLayouts(variants) && Mentions(l, a)
  {
    if a in VariantsMentioned(variants) {
      var v :| v in variants && a in FieldsMentioned(v.fields);
      var f :| f in v.fields && a in Mentioned(f.layout);
      assert f.layout in VariantLayouts(variants) && Mentions(f.layout, a);
    }
    if l :| l in VariantLayouts(variants) && Mentions(l, a) {
      var v, f :| v in variants && f in v.fields && f.layout == l;
      assert a in FieldsMentioned(v.fields);
    }
  }

  method CollectTypeTag(tag: TypeTag, into: set<Address>) returns (out: set<Address>)
    ensures out == into + TagAddresses(tag)
    decreases tag
  {
    match tag
    case PrimitiveTag(_) => out := into;
    case VectorTag(element) => out := CollectTypeTag(element, into);
    case StructTypeTag(inner) =>
      out := into + {inner.address};
      for i := 0 to |inner.typeParams|
        invariant out == into + {inner.address} + ParamsAddresses(inner.typeParams[..i])
      {
        assert inner.typeParams[..i + 1] == inner.typeParams[..i] + [inner.typeParams[i]];
        out := CollectTypeTag(inner.typeParams[i], out);
      }
      assert inner.typeParams[..|inner.typeParams|] == inner.typeParams;
  }

  /** Visits every node of a layout, collecting the packages its tags name. */
  method Collect(layout: Layout, into: set<Address>) returns (out: set<Address>)
    ensures out == into + Mentioned(layout)
    decreases layout, 1
  {
    match layout
    case Primitive(_) => out := into;
    case Vector(element) => out := Collect(element, into);
    case Struct(tag, fields) =>
      out := CollectTypeTag(StructTypeTag(tag), into);
      out := CollectFields(layout, fields, out);
    case Enum(tag, variants) =>
      out := CollectTypeTag(StructTypeTag(tag), into);
      ghost var start := out;
      for i := 0 to |variants|
        invariant out == start + VariantsMentioned(variants[..i])
      {
        assert variants[..i + 1] == variants[..i] + [variants[i]];
        out := CollectFields(layout, variants[i].fields, out);
      }
      assert variants[..|variants|] == variants;
  }

  method CollectFields(ghost layout: Layout, fields: seq<Field>, into: set<Address>) returns (out: set<Address>)
    requires forall f | f in fields :: f.layout < layout
    ensures out == into + FieldsMentioned(fields)
    decreases layout, 0
  {
    out := into;
    for i := 0 to |fields|
      invariant out == into + FieldsMentioned(fields[..i])
    {
      assert fields[..i + 1] == fields[..i] + [fields[i]];
      out := Collect(fields[i].layout, out);
    }
    assert fields[..|fields|] == fields;
  }
}
