/** The three passes that collect used prefixes: element names, `Style`
    `TargetType` values and attribute names. Each pass is written the way
    the detector walks the tree, and each is proved equal to a reference:
    offering, in order, a list of candidate prefixes read off the nodes. */
module Usage {
  import opened Lists
  import opened Text
  import opened QName
  import opened Accumulator
  import opened Document

  /** The attribute whose value names the styled type. */
  const TargetTypeAttribute := "TargetType"

  /** Attribute names containing this text anywhere are treated as
      namespace declarations and never as usages. */
  const DeclarationMarker := "xmlns"

  // ---------------------------------------------------------------------
  // Candidates: what each node offers to the accumulator.

  /** A node's own name offers its prefix when it is qualified. */
  function NameCandidates(n: Node): seq<string> {
    if IsQualified(n.name) then [PrefixOf(n.name)] else []
  }

  /** An attribute name that counts as a usage: qualified, and not a
      namespace declaration by the `xmlns`-substring test. */
  predicate IsUsageAttribute(name: string) {
    IsQualified(name) && !Contains(name, DeclarationMarker)
  }

  function AttributeListCandidates(attrs: seq<Attribute>): (r: seq<string>)
    ensures forall p :: p in r <==>
      exists a :: a in attrs && IsUsageAttribute(a.name) && PrefixOf(a.name) == p
    decreases |attrs|
  {
    if attrs == [] then []
    else
      assert forall a :: a in attrs <==> a == attrs[0] || a in attrs[1..];
      var rest := AttributeListCandidates(attrs[1..]);
      if IsUsageAttribute(attrs[0].name) then [PrefixOf(attrs[0].name)] + rest else rest
  }

  /** A node without an attribute collection offers nothing. */
  function AttributeCandidates(n: Node): seq<string> {
    match n.attributes
    case None => []
    case Some(attrs) => AttributeListCandidates(attrs)
  }

  /** The `TargetType` value of a matched node; `None` when the node has no
      attribute collection or no `TargetType` attribute. */
  function TargetTypeOf(m: Node): Option<string> {
    match m.attributes
    case None => None
    case Some(attrs) => Lookup(attrs, TargetTypeAttribute)
  }

  function TargetTypeCandidates(m: Node): seq<string> {
    match TargetTypeOf(m)
    case None => []
    case Some(v) => if IsQualified(v) then [PrefixOf(v)] else []
  }

  // ---------------------------------------------------------------------
  // The passes, shaped like the detector's walks.

  /** Element-name pass: for each node, its subtree first, then its own
      name if that name holds a `:`. */
  function ElementPass(nodes: seq<Node>, found: seq<string>): (r: seq<string>)
    ensures found <= r
    ensures NoDuplicates(found) ==> NoDuplicates(r)
    decreases nodes
  {
    if nodes == [] then found
    else
      var n := nodes[0];
      var afterSubtree := ElementPass(n.children, found);
      var afterNode := if IsQualified(n.name) then Offer(afterSubtree, PrefixOf(n.name)) else afterSubtree;
      ElementPass(nodes[1..], afterNode)
  }

  /** The inner loop over one attribute collection. */
  function OfferAttributes(found: seq<string>, attrs: seq<Attribute>): (r: seq<string>)
    ensures found <= r
    decreases |attrs|
  {
    if attrs == [] then found
    else
      var a := attrs[0];
      var next := if IsUsageAttribute(a.name) then Offer(found, PrefixOf(a.name)) else found;
      OfferAttributes(next, attrs[1..])
  }

  /** Attribute-name pass: for each node, its subtree first, then its
      attributes; a node without an attribute collection adds nothing. */
  function AttributePass(nodes: seq<Node>, found: seq<string>): (r: seq<string>)
    ensures found <= r
    decreases nodes
  {
    if nodes == [] then found
    else
      var n := nodes[0];
      var afterSubtree := AttributePass(n.children, found);
      var afterNode :=
        match n.attributes
        case None => afterSubtree
        case Some(attrs) => OfferAttributes(afterSubtree, attrs);
      AttributePass(nodes[1..], afterNode)
  }

  /** One matched `Style` node: skipped without attributes, without a
      `TargetType` attribute, or when the value holds no `:`. */
  function OfferTargetType(found: seq<string>, m: Node): (r: seq<string>)
    ensures found <= r
  {
    match TargetTypeOf(m)
    case None => found
    case Some(v) => if IsQualified(v) then Offer(found, PrefixOf(v)) else found
  }

  /** `TargetType` pass over the nodes the `Style[@TargetType]` query matched. */
  function TargetTypePass(matches: seq<Node>, found: seq<string>): (r: seq<string>)
    ensures found <= r
    decreases |matches|
  {
    if matches == [] then found
    else TargetTypePass(matches[1..], OfferTargetType(found, matches[0]))
  }

  // ---------------------------------------------------------------------
  // Each pass is the accumulator run over its candidates.

  ghost function ElementCandidates(nodes: seq<Node>): seq<string> {
    FlatMap(PostOrder(nodes), NameCandidates)
  }

  ghost function AttributeNameCandidates(nodes: seq<Node>): seq<string> {
    FlatMap(PostOrder(nodes), AttributeCandidates)
  }

  ghost function TargetTypeValueCandidates(matches: seq<Node>): seq<string> {
    FlatMap(matches, TargetTypeCandidates)
  }

  /** Splits a forest walk into the first subtree, its root, and the rest. */
  lemma {:induction false} CandidatesOfForest(nodes: seq<Node>, f: Node -> seq<string>)
    requires nodes != []
    ensures FlatMap(PostOrder(nodes), f)
         == FlatMap(PostOrder(nodes[0].children), f) + f(nodes[0]) + FlatMap(PostOrder(nodes[1..]), f)
  {
    var a := PostOrder(nodes[0].children);
    var b := PostOrder(nodes[1..]);
    FlatMapAppend(a + [nodes[0]], b, f);
    FlatMapAppend(a, [nodes[0]], f);
    FlatMapSingle(nodes[0], f);
  }

  lemma {:induction false} ElementPassIsFold(nodes: seq<Node>, found: seq<string>)
    ensures ElementPass(nodes, found) == OfferAll(found, ElementCandidates(nodes))
    decreases nodes
  {
    if nodes != [] {
      var n := nodes[0];
      var sub := ElementCandidates(n.children);
      var rest := ElementCandidates(nodes[1..]);
      ElementPassIsFold(n.children, found);
      var afterSubtree := ElementPass(n.children, found);
      var afterNode := OfferAll(afterSubtree, NameCandidates(n));
      if IsQualified(n.name) {
        OfferAllSingle(afterSubtree, PrefixOf(n.name));
      }
      ElementPassIsFold(nodes[1..], afterNode);
      CandidatesOfForest(nodes, NameCandidates);
      OfferAllAppend(found, sub + NameCandidates(n), rest);
      OfferAllAppend(found, sub, NameCandidates(n));
    }
  }

  lemma {:induction false} OfferAttributesIsFold(found: seq<string>, attrs: seq<Attribute>)
    ensures OfferAttributes(found, attrs) == OfferAll(found, AttributeListCandidates(attrs))
    decreases |attrs|
  {
    if attrs != [] {
      var a := attrs[0];
      var rest := AttributeListCandidates(attrs[1..]);
      if IsUsageAttribute(a.name) {
        var p := PrefixOf(a.name);
        OfferAttributesIsFold(Offer(found, p), attrs[1..]);
        assert ([p] + rest)[0] == p && ([p] + rest)[1..] == rest;
      } else {
        OfferAttributesIsFold(found, attrs[1..]);
      }
    }
  }

  lemma {:induction false} AttributePassIsFold(nodes: seq<Node>, found: seq<string>)
    ensures AttributePass(nodes, found) == OfferAll(found, AttributeNameCandidates(nodes))
    decreases nodes
  {
    if nodes != [] {
      var n := nodes[0];
      var sub := AttributeNameCandidates(n.children);
      var rest := AttributeNameCandidates(nodes[1..]);
      AttributePassIsFold(n.children, found);
      var afterSubtree := AttributePass(n.children, found);
      var afterNode := OfferAll(afterSubtree, AttributeCandidates(n));
      if n.attributes.Some? {
        OfferAttributesIsFold(afterSubtree, n.attributes.value);
      }
      AttributePassIsFold(nodes[1..], afterNode);
      CandidatesOfForest(nodes, AttributeCandidates);
      OfferAllAppend(found, sub + AttributeCandidates(n), rest);
      OfferAllAppend(found, sub, AttributeCandidates(n));
    }
  }

  lemma {:induction false} TargetTypePassIsFold(matches: seq<Node>, found: seq<string>)
    ensures TargetTypePass(matches, found) == OfferAll(found, TargetTypeValueCandidates(matches))
    decreases |matches|
  {
    if matches != [] {
      var m := matches[0];
      var next := OfferTargetType(found, m);
      TargetTypePassIsFold(matches[1..], next);
      if TargetTypeCandidates(m) != [] {
        OfferAllSingle(found, TargetTypeCandidates(m)[0]);
      }
      OfferAllAppend(found, TargetTypeCandidates(m), TargetTypeValueCandidates(matches[1..]));
      FlatMapAppend([m], matches[1..], TargetTypeCandidates);
      FlatMapSingle(m, TargetTypeCandidates);
      assert matches == [m] + matches[1..];
    }
  }

  // ---------------------------------------------------------------------
  // Properties of the passes.

  /** Element pass, post-order: what a node's subtree records comes first,
      and the node adds at most its own prefix after it. */
  lemma {:induction false} ElementPassPostOrder(n: Node, found: seq<string>)
    ensures var sub := ElementPass(n.children, found);
      sub <= ElementPass([n], found) && |ElementPass([n], found)| <= |sub| + 1
    ensures !IsQualified(n.name) ==> ElementPass([n], found) == ElementPass(n.children, found)
    ensures IsQualified(n.name) ==>
      ElementPass([n], found) == Offer(ElementPass(n.children, found), PrefixOf(n.name))
  {
    assert [n][1..] == [];
  }

  /** Element pass: exactly the non-blank prefixes of qualified node names. */
  lemma {:induction false} ElementPassRecords(nodes: seq<Node>, p: string)
    ensures p in ElementPass(nodes, []) <==>
      !IsBlank(p) && exists n :: n in PostOrder(nodes) && IsQualified(n.name) && PrefixOf(n.name) == p
  {
    ElementPassIsFold(nodes, []);
  }

  /** Attribute pass: a node without an attribute collection adds nothing,
      but its subtree is still walked. */
  lemma {:induction false} AttributePassWithoutAttributes(n: Node, found: seq<string>)
    requires n.attributes.None?
    ensures AttributePass([n], found) == AttributePass(n.children, found)
  {
    assert [n][1..] == [];
  }

  /** Attribute pass: exactly the non-blank prefixes of usage attribute names. */
  lemma {:induction false} AttributePassRecords(nodes: seq<Node>, p: string)
    ensures p in AttributePass(nodes, []) <==>
      !IsBlank(p) &&
      exists n, a :: n in PostOrder(nodes) && n.attributes.Some? && a in n.attributes.value &&
                     IsUsageAttribute(a.name) && PrefixOf(a.name) == p
  {
    AttributePassIsFold(nodes, []);
    var ps := AttributeNameCandidates(nodes);
    if p in ps {
      var n :| n in PostOrder(nodes) && p in AttributeCandidates(n);
      var a :| a in n.attributes.value && IsUsageAttribute(a.name) && PrefixOf(a.name) == p;
    }
    if exists n, a :: n in PostOrder(nodes) && n.attributes.Some? && a in n.attributes.value &&
                      IsUsageAttribute(a.name) && PrefixOf(a.name) == p {
      var n, a :| n in PostOrder(nodes) && n.attributes.Some? && a in n.attributes.value &&
                  IsUsageAttribute(a.name) && PrefixOf(a.name) == p;
      assert p in AttributeCandidates(n);
    }
  }

  /** A namespace declaration attribute, `xmlns` or `xmlns:local`
      (section 3 of Namespaces in XML 1.0), is never a usage. */
  lemma {:induction false} DeclarationIsNotUsage(local: string)
    ensures !IsUsageAttribute(DeclarationMarker)
    ensures !IsUsageAttribute(DeclarationMarker + [':'] + local)
  {
    PrefixContained(DeclarationMarker + [':'] + local, DeclarationMarker);
  }

  /** So the attribute pass never records `xmlns` itself as a used prefix. */
  lemma {:induction false} AttributePassNeverRecordsXmlns(nodes: seq<Node>)
    ensures DeclarationMarker !in AttributePass(nodes, [])
  {
    AttributePassRecords(nodes, DeclarationMarker);
    forall a: Attribute | IsQualified(a.name) && PrefixOf(a.name) == DeclarationMarker
      ensures Contains(a.name, DeclarationMarker)
    {
      PrefixContained(a.name, DeclarationMarker);
    }
  }

  /** `TargetType` pass: exactly the non-blank prefixes of qualified
      `TargetType` values of the matched nodes. */
  lemma {:induction false} TargetTypePassRecords(matches: seq<Node>, p: string)
    ensures p in TargetTypePass(matches, []) <==>
      !IsBlank(p) &&
      exists m :: m in matches && TargetTypeOf(m).Some? &&
                  IsQualified(TargetTypeOf(m).value) && PrefixOf(TargetTypeOf(m).value) == p
  {
    TargetTypePassIsFold(matches, []);
  }

  /** A match that is skipped (no attributes, no `TargetType`, or a value
      without `:`) does not affect the matches around it. */
  lemma {:induction false} SkippedMatchIsInert(before: seq<Node>, m: Node, after: seq<Node>, found: seq<string>)
    requires TargetTypeOf(m).None? || !IsQualified(TargetTypeOf(m).value)
    ensures TargetTypePass(before + [m] + after, found) == TargetTypePass(before + after, found)
  {
    TargetTypePassIsFold(before + [m] + after, found);
    TargetTypePassIsFold(before + after, found);
    FlatMapAppend(before + [m], after, TargetTypeCandidates);
    FlatMapAppend(before, [m], TargetTypeCandidates);
    FlatMapAppend(before, after, TargetTypeCandidates);
    FlatMapSingle(m, TargetTypeCandidates);
    assert FlatMap(before, TargetTypeCandidates) + [] == FlatMap(before, TargetTypeCandidates);
  }

  /** A markup-extension value is split at its first `:` like any other:
      `{x:Type local:Foo}` records `{x`, the brace included. */
  lemma {:induction false} MarkupExtensionTargetType(name: string, extension: string, argument: string, children: seq<Node>)
    requires ':' !in extension
    ensures var value := Qualify("{" + extension, argument);
      TargetTypeCandidates(Node(name, Some([Attribute(TargetTypeAttribute, value)]), children)) == ["{" + extension]
  {
    assert ':' !in "{" + extension;
    QualifiedPrefixRoundTrip("{" + extension, argument);
  }
}
