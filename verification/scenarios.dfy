/** Example documents, stated for every prefix, local name and URI rather
    than for one spelling: a control element, a `TargetType` style and an
    attached-property attribute, each with its prefix declared or not. */
module Scenarios {
  import opened Lists
  import opened Text
  import opened QName
  import opened Accumulator
  import opened Document
  import opened Usage
  import opened Scope
  import opened Detector

  /** The candidates of a file whose tree is a single leaf. */
  lemma {:induction false} CandidatesOfSingleLeaf(f: ParsedFile)
    requires |f.nodes| == 1 && f.nodes[0].children == []
    ensures UsedCandidates(f) ==
      NameCandidates(f.nodes[0]) + TargetTypeValueCandidates(f.styleMatches) + AttributeCandidates(f.nodes[0])
  {
    var n := f.nodes[0];
    assert f.nodes == [n];
    PostOrderOfNode(n);
    FlatMapSingle(n, NameCandidates);
    FlatMapSingle(n, AttributeCandidates);
  }

  /** The candidates of a file whose tree is a parent holding one leaf. */
  lemma {:induction false} CandidatesOfParentAndLeaf(f: ParsedFile)
    requires |f.nodes| == 1 && |f.nodes[0].children| == 1 && f.nodes[0].children[0].children == []
    ensures var parent := f.nodes[0]; var leaf := parent.children[0];
      UsedCandidates(f) ==
        NameCandidates(leaf) + NameCandidates(parent) + TargetTypeValueCandidates(f.styleMatches) +
        AttributeCandidates(leaf) + AttributeCandidates(parent)
  {
    var parent := f.nodes[0];
    var leaf := parent.children[0];
    assert f.nodes == [parent] && parent.children == [leaf];
    PostOrderOfNode(parent);
    PostOrderOfNode(leaf);
    assert PostOrder(f.nodes) == [leaf] + [parent];
    FlatMapAppend([leaf], [parent], NameCandidates);
    FlatMapAppend([leaf], [parent], AttributeCandidates);
    FlatMapSingle(leaf, NameCandidates);
    FlatMapSingle(parent, NameCandidates);
    FlatMapSingle(leaf, AttributeCandidates);
    FlatMapSingle(parent, AttributeCandidates);
  }

  lemma {:induction false} AttributeListCandidatesCons(a: Attribute, rest: seq<Attribute>)
    ensures AttributeListCandidates([a] + rest) ==
      (if IsUsageAttribute(a.name) then [PrefixOf(a.name)] else []) + AttributeListCandidates(rest)
  {
    assert ([a] + rest)[0] == a && ([a] + rest)[1..] == rest;
  }

  lemma {:induction false} AttributeListCandidatesSingle(a: Attribute)
    ensures AttributeListCandidates([a]) == (if IsUsageAttribute(a.name) then [PrefixOf(a.name)] else [])
  {
    assert [a][1..] == [];
  }

  /** A used prefix that is neither `xml` nor `def` and that no accepted
      declaration offers is the one finding when every other used prefix
      is declared. */
  lemma {:induction false} SoleUndeclaredPrefix(f: ParsedFile, p: string)
    requires p in UsedCandidates(f) && !IsBlank(p)
    requires p != XmlPrefix && p != PresentationPrefix
    requires forall k :: 0 <= k < |f.declarations| ==> !(f.declarations[k].accepted && f.declarations[k].prefix == p)
    requires forall x :: x in UsedCandidates(f) && x != p && !IsBlank(x) ==> x in DeclaredPrefixes(f.declarations)
    ensures MissingPrefixes(f) == [p]
  {
    assert p != "";
    DeclaredPrefixesMembers(f.declarations, p);
    var m := MissingPrefixes(f);
    assert p in m;
    SoleMember(m, p);
  }

  /** A prefix declared by an accepted registration is not missing when it
      is the only thing used. */
  lemma {:induction false} SoleDeclaredPrefix(f: ParsedFile, p: string)
    requires forall x :: x in UsedCandidates(f) ==> x == p
    requires exists k :: 0 <= k < |f.declarations| && f.declarations[k].accepted && f.declarations[k].prefix == p
    ensures MissingPrefixes(f) == []
  {
    if p != "" {
      DeclaredPrefixesMembers(f.declarations, p);
    }
  }

  /** `<Grid xmlns:a="u"><p:Page xmlns:p="u"/></Grid>`: the declaration
      query keeps a namespace node only when no namespace node of its
      element's parent has the same URI, so it yields `a` and the built-in
      `xml` node of the outer element, but not `p`. The page's prefix is
      used and not declared, so it is the one finding. */
  lemma {:induction false} InheritedUriElementPrefix(parent: string, a: string, p: string, local: string, uri: string)
    requires !IsQualified(parent)
    requires ':' !in p && !IsBlank(p) && p != XmlPrefix && p != PresentationPrefix && p != a
    ensures var page := Node(Qualify(p, local), Some([Attribute(Qualify(DeclarationMarker, p), uri)]), []);
      var grid := Node(parent, Some([Attribute(Qualify(DeclarationMarker, a), uri)]), [page]);
      MissingPrefixes(ParsedFile([grid], [Registration(a, uri, true), Registration(XmlPrefix, XmlNamespace, true)], [])) == [p]
  {
    var page := Node(Qualify(p, local), Some([Attribute(Qualify(DeclarationMarker, p), uri)]), []);
    var grid := Node(parent, Some([Attribute(Qualify(DeclarationMarker, a), uri)]), [page]);
    var f := ParsedFile([grid], [Registration(a, uri, true), Registration(XmlPrefix, XmlNamespace, true)], []);
    ElementUnderGridCandidates(f, p, local, a, uri);
    SoleUndeclaredPrefix(f, p);
  }

  lemma {:induction false} ElementUnderGridCandidates(f: ParsedFile, p: string, local: string, a: string, uri: string)
    requires ':' !in p && f.styleMatches == []
    requires |f.nodes| == 1 && !IsQualified(f.nodes[0].name)
    requires f.nodes[0].attributes == Some([Attribute(Qualify(DeclarationMarker, a), uri)])
    requires |f.nodes[0].children| == 1 && f.nodes[0].children[0].children == []
    requires f.nodes[0].children[0].name == Qualify(p, local)
    requires f.nodes[0].children[0].attributes == Some([Attribute(Qualify(DeclarationMarker, p), uri)])
    ensures UsedCandidates(f) == [p]
  {
    var grid := f.nodes[0];
    var page := grid.children[0];
    CandidatesOfParentAndLeaf(f);
    QualifiedPrefixRoundTrip(p, local);
    assert NameCandidates(page) + NameCandidates(grid) == [p];
    DeclarationIsNotUsage(p);
    DeclarationIsNotUsage(a);
    AttributeListCandidatesSingle(page.attributes.value[0]);
    AttributeListCandidatesSingle(grid.attributes.value[0]);
    assert AttributeCandidates(page) + AttributeCandidates(grid) == [];
    assert TargetTypeValueCandidates(f.styleMatches) == [];
  }

  /** `<Grid xmlns:a="u"><TextBox p:Member="Hello" xmlns:p="u"/></Grid>`:
      as above, the query yields `a` and the built-in `xml` node, but not
      `p`, and the attribute's prefix is the one finding. */
  lemma {:induction false} InheritedUriAttributePrefix(parent: string, a: string, element: string, p: string, member: string, value: string, uri: string)
    requires !IsQualified(parent) && !IsQualified(element)
    requires ':' !in p && !IsBlank(p) && p != XmlPrefix && p != PresentationPrefix && p != a
    requires !Contains(Qualify(p, member), DeclarationMarker)
    ensures var box := Node(element, Some([Attribute(Qualify(p, member), value), Attribute(Qualify(DeclarationMarker, p), uri)]), []);
      var grid := Node(parent, Some([Attribute(Qualify(DeclarationMarker, a), uri)]), [box]);
      MissingPrefixes(ParsedFile([grid], [Registration(a, uri, true), Registration(XmlPrefix, XmlNamespace, true)], [])) == [p]
  {
    var box := Node(element, Some([Attribute(Qualify(p, member), value), Attribute(Qualify(DeclarationMarker, p), uri)]), []);
    var grid := Node(parent, Some([Attribute(Qualify(DeclarationMarker, a), uri)]), [box]);
    var f := ParsedFile([grid], [Registration(a, uri, true), Registration(XmlPrefix, XmlNamespace, true)], []);
    AttributeUnderGridCandidates(f, p, member, value, a, uri);
    SoleUndeclaredPrefix(f, p);
  }

  lemma {:induction false} AttributeUnderGridCandidates(f: ParsedFile, p: string, member: string, value: string, a: string, uri: string)
    requires ':' !in p && !Contains(Qualify(p, member), DeclarationMarker) && f.styleMatches == []
    requires |f.nodes| == 1 && !IsQualified(f.nodes[0].name)
    requires f.nodes[0].attributes == Some([Attribute(Qualify(DeclarationMarker, a), uri)])
    requires |f.nodes[0].children| == 1 && f.nodes[0].children[0].children == []
    requires !IsQualified(f.nodes[0].children[0].name)
    requires f.nodes[0].children[0].attributes ==
      Some([Attribute(Qualify(p, member), value), Attribute(Qualify(DeclarationMarker, p), uri)])
    ensures UsedCandidates(f) == [p]
  {
    var grid := f.nodes[0];
    var box := grid.children[0];
    var use := box.attributes.value[0];
    var decl := box.attributes.value[1];
    CandidatesOfParentAndLeaf(f);
    assert NameCandidates(box) == [] && NameCandidates(grid) == [];
    QualifiedPrefixRoundTrip(p, member);
    DeclarationIsNotUsage(p);
    DeclarationIsNotUsage(a);
    AttributeListCandidatesCons(use, [decl]);
    AttributeListCandidatesSingle(decl);
    assert [use, decl] == [use] + [decl];
    assert AttributeCandidates(box) == [p];
    AttributeListCandidatesSingle(grid.attributes.value[0]);
    assert AttributeCandidates(grid) == [];
    assert TargetTypeValueCandidates(f.styleMatches) == [];
  }

  /** `<Grid xmlns:p="u"><TextBox p:Member="Hello"/></Grid>`: the query
      yields `p` and the built-in `xml` node, so nothing is missing. */
  lemma {:induction false} DeclaredAttributePrefix(parent: string, element: string, p: string, member: string, value: string, uri: string)
    requires !IsQualified(parent) && !IsQualified(element)
    requires ':' !in p && p != ""
    ensures var box := Node(element, Some([Attribute(Qualify(p, member), value)]), []);
      var grid := Node(parent, Some([Attribute(Qualify(DeclarationMarker, p), uri)]), [box]);
      MissingPrefixes(ParsedFile([grid], [Registration(p, uri, true), Registration(XmlPrefix, XmlNamespace, true)], [])) == []
  {
    var box := Node(element, Some([Attribute(Qualify(p, member), value)]), []);
    var grid := Node(parent, Some([Attribute(Qualify(DeclarationMarker, p), uri)]), [box]);
    var f := ParsedFile([grid], [Registration(p, uri, true), Registration(XmlPrefix, XmlNamespace, true)], []);
    PostOrderOfNode(grid);
    PostOrderOfNode(box);
    assert PostOrder([grid]) == [box, grid];
    QualifiedPrefixRoundTrip(p, member);
    DeclarationIsNotUsage(p);
    forall x | x in UsedCandidates(f) ensures x == p {
      if x in AttributeNameCandidates(f.nodes) {
        var n :| n in PostOrder(f.nodes) && x in AttributeCandidates(n);
      }
    }
    assert f.declarations[0].accepted && f.declarations[0].prefix == p;
    SoleDeclaredPrefix(f, p);
  }

  /** The `TargetType` attribute's own name carries no prefix. */
  lemma {:induction false} TargetTypeAttributeIsUnqualified()
    ensures !IsUsageAttribute(TargetTypeAttribute)
  {
    assert !IsQualified(TargetTypeAttribute);
  }

  /** A `Style`'s `TargetType`, its default declaration (the presentation
      namespace, in a XAML file) and a prefix declaration offer no
      attribute-name prefix. */
  lemma {:induction false} StyleAttributesOfferNothing(v: string, ns: string, p: string, uri: string)
    ensures AttributeListCandidates([Attribute(TargetTypeAttribute, v),
                                     Attribute(DeclarationMarker, ns),
                                     Attribute(Qualify(DeclarationMarker, p), uri)]) == []
  {
    var target := Attribute(TargetTypeAttribute, v);
    var default := Attribute(DeclarationMarker, ns);
    var decl := Attribute(Qualify(DeclarationMarker, p), uri);
    TargetTypeAttributeIsUnqualified();
    DeclarationIsNotUsage(p);
    AttributeListCandidatesCons(target, [default, decl]);
    AttributeListCandidatesCons(default, [decl]);
    AttributeListCandidatesSingle(decl);
    assert [target, default, decl] == [target] + [default, decl];
    assert [default, decl] == [default] + [decl];
  }

  /** A `Style` with only its `TargetType` and its default declaration
      offers no attribute-name prefix. */
  lemma {:induction false} DefaultStyleAttributesOfferNothing(v: string, ns: string)
    ensures AttributeListCandidates([Attribute(TargetTypeAttribute, v),
                                     Attribute(DeclarationMarker, ns)]) == []
  {
    var target := Attribute(TargetTypeAttribute, v);
    var default := Attribute(DeclarationMarker, ns);
    TargetTypeAttributeIsUnqualified();
    DeclarationIsNotUsage("");
    AttributeListCandidatesCons(target, [default]);
    AttributeListCandidatesSingle(default);
    assert [target, default] == [target] + [default];
  }

  /** The candidates of a file that is one matched `Style` leaf whose
      attributes offer nothing: only the `TargetType` prefix. */
  lemma {:induction false} StyleCandidates(f: ParsedFile, p: string, typeName: string)
    requires ':' !in p
    requires |f.nodes| == 1 && f.styleMatches == f.nodes
    requires f.nodes[0].children == [] && !IsQualified(f.nodes[0].name)
    requires f.nodes[0].attributes.Some? && AttributeListCandidates(f.nodes[0].attributes.value) == []
    requires TargetTypeOf(f.nodes[0]) == Some(Qualify(p, typeName))
    ensures UsedCandidates(f) == [p]
  {
    var style := f.nodes[0];
    CandidatesOfSingleLeaf(f);
    assert f.styleMatches == [style];
    FlatMapSingle(style, TargetTypeCandidates);
    QualifiedPrefixRoundTrip(p, typeName);
    assert TargetTypeCandidates(style) == [p];
    assert NameCandidates(style) == [] && AttributeCandidates(style) == [];
  }

  /** `<Style xmlns="ns" TargetType="p:Type"/>` with no `xmlns:p`, `ns`
      being the presentation namespace in a XAML file:
      the parser never reads attribute values, so it accepts the file, and
      the `TargetType` prefix is the one finding. */
  lemma {:induction false} UndeclaredTargetTypePrefix(element: string, ns: string, p: string, typeName: string)
    requires !IsQualified(element)
    requires ':' !in p && !IsBlank(p) && p != XmlPrefix && p != PresentationPrefix
    ensures var style := Node(element, Some([Attribute(TargetTypeAttribute, Qualify(p, typeName)),
                                              Attribute(DeclarationMarker, ns)]), []);
      var regs := [Registration(DeclarationMarker, ns, false), Registration(XmlPrefix, XmlNamespace, true)];
      MissingPrefixes(ParsedFile([style], regs, [style])) == [p]
  {
    var target := Attribute(TargetTypeAttribute, Qualify(p, typeName));
    var default := Attribute(DeclarationMarker, ns);
    var style := Node(element, Some([target, default]), []);
    var regs := [Registration(DeclarationMarker, ns, false), Registration(XmlPrefix, XmlNamespace, true)];
    var f := ParsedFile([style], regs, [style]);
    DefaultStyleCandidates(f, ns, p, typeName);
    SoleUndeclaredPrefix(f, p);
  }

  /** The candidates of a one-`Style` file whose attributes are its
      `TargetType` and its default declaration: only the `TargetType` prefix. */
  lemma {:induction false} DefaultStyleCandidates(f: ParsedFile, ns: string, p: string, typeName: string)
    requires ':' !in p
    requires |f.nodes| == 1 && f.styleMatches == f.nodes
    requires f.nodes[0].children == [] && !IsQualified(f.nodes[0].name)
    requires f.nodes[0].attributes == Some([Attribute(TargetTypeAttribute, Qualify(p, typeName)), Attribute(DeclarationMarker, ns)])
    ensures UsedCandidates(f) == [p]
  {
    DefaultStyleAttributesOfferNothing(Qualify(p, typeName), ns);
    assert TargetTypeOf(f.nodes[0]) == Some(Qualify(p, typeName));
    StyleCandidates(f, p, typeName);
  }

  /** `<Style xmlns="ns" xmlns:p="u" TargetType="p:Type"/>`: the
      query yields the default declaration, whose registration under the
      reserved name `xmlns` is rejected, `p` and the built-in `xml` node;
      the `TargetType` prefix is declared, so nothing is missing. */
  lemma {:induction false} DeclaredTargetTypePrefix(element: string, ns: string, p: string, typeName: string, uri: string)
    requires !IsQualified(element)
    requires ':' !in p && p != ""
    ensures var style := Node(element, Some([Attribute(TargetTypeAttribute, Qualify(p, typeName)),
                                              Attribute(DeclarationMarker, ns),
                                              Attribute(Qualify(DeclarationMarker, p), uri)]), []);
      var regs := [Registration(DeclarationMarker, ns, false),
                   Registration(p, uri, true), Registration(XmlPrefix, XmlNamespace, true)];
      MissingPrefixes(ParsedFile([style], regs, [style])) == []
  {
    var target := Attribute(TargetTypeAttribute, Qualify(p, typeName));
    var default := Attribute(DeclarationMarker, ns);
    var decl := Attribute(Qualify(DeclarationMarker, p), uri);
    var style := Node(element, Some([target, default, decl]), []);
    var regs := [Registration(DeclarationMarker, ns, false),
                 Registration(p, uri, true), Registration(XmlPrefix, XmlNamespace, true)];
    var f := ParsedFile([style], regs, [style]);
    StyleAttributesOfferNothing(target.value, ns, p, uri);
    assert TargetTypeOf(style) == Some(Qualify(p, typeName));
    StyleCandidates(f, p, typeName);
    assert f.declarations[1].accepted && f.declarations[1].prefix == p;
    SoleDeclaredPrefix(f, p);
  }
}
