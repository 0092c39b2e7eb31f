/** Trees of DER elements, their encoding, and the search read off the tree. */
module DerTrees {
  import opened Prelude
  import opened Der
  import opened DerSearch

  /** How a length is written: in one octet, or as a count of octets and then that many, leading zeros allowed. */
  datatype Form = Short | Long(octets: nat)

  datatype Node = Leaf(tag: Byte, form: Form, bytes: seq<Byte>) | Nest(tag: Byte, form: Form, children: seq<Node>)

  function Octets(value: nat, count: nat): (s: seq<Byte>)
    ensures |s| == count
  {
    if count == 0 then [] else Octets(value / 256, count - 1) + [value % 256]
  }

  /** Meaningful when the length fits the form. */
  function EncodeLength(form: Form, length: nat): seq<Byte> {
    match form
    case Short => [length % 0x80]
    case Long(count) => [0x80 + count % 0x80] + Octets(length, count)
  }

  predicate Fits(form: Form, length: nat) {
    match form
    case Short => length < 0x80
    case Long(count) => 1 <= count < 0x80 && length < Pow256(count) && length < TWO_31
  }

  function Content(node: Node): seq<Byte>
    decreases node, 0
  {
    match node
    case Leaf(_, _, bytes) => bytes
    case Nest(_, _, children) => EncodeAll(children)
  }

  function Encode(node: Node): seq<Byte>
    decreases node, 1
  {
    [node.tag] + EncodeLength(node.form, |Content(node)|) + Content(node)
  }

  function EncodeAll(nodes: seq<Node>): seq<Byte>
    decreases nodes
  {
    if nodes == [] then [] else Encode(nodes[0]) + EncodeAll(nodes[1..])
  }

  /** Every content fits its length field, and what the search enters is made of elements. */
  predicate Encodable(node: Node)
    decreases node
  {
    && Fits(node.form, |Content(node)|)
    && (Descends(node.tag) ==> node.Nest?)
    && (node.Nest? ==> AllEncodable(node.children))
  }

  predicate AllEncodable(nodes: seq<Node>)
    decreases nodes
  {
    nodes == [] || (Encodable(nodes[0]) && AllEncodable(nodes[1..]))
  }

  // ---------------------------------------------------------------- reading an encoding

  lemma {:induction false} OctetsSpell(value: nat, count: nat)
    requires value < Pow256(count)
    ensures BigEndian(Octets(value, count)) == value
  {
    if count == 0 {
    } else {
      OctetsSpell(value / 256, count - 1);
      assert Octets(value, count)[..count - 1] == Octets(value / 256, count - 1);
    }
  }

  /** Octets below 2^31 decode to what they were made from. */
  lemma OctetsDecode(length: nat, count: nat)
    requires length < Pow256(count) && length < TWO_31
    ensures ToInt32(BigEndian(Octets(length, count))) == length
  {
    OctetsSpell(length, count);
    LengthIsExact(Octets(length, count));
  }

  lemma LongReadsBack(before: seq<Byte>, count: nat, octets: seq<Byte>, after: seq<Byte>)
    requires 0 < count < 0x80 && |octets| == count
    ensures LengthAt(before + ([0x80 + count] + octets) + after, |before|)
         == Ok(Length(ToInt32(BigEndian(octets)), |before| + 1 + count))
  {
    var bytes := before + ([0x80 + count] + octets) + after;
    assert bytes[|before|] == 0x80 + count;
    assert bytes[|before| + 1..|before| + 1 + count] == octets;
  }

  lemma LengthReadsBack(before: seq<Byte>, form: Form, length: nat, after: seq<Byte>)
    requires Fits(form, length)
    ensures var field := EncodeLength(form, length);
      LengthAt(before + field + after, |before|) == Ok(Length(length, |before| + |field|))
  {
    match form
    case Short => assert (before + [length] + after)[|before|] == length;
    case Long(count) =>
      OctetsDecode(length, count);
      LongReadsBack(before, count, Octets(length, count), after);
  }

  lemma MiddleSlice(before: seq<Byte>, middle: seq<Byte>, after: seq<Byte>)
    ensures (before + middle + after)[|before|..|before| + |middle|] == middle
  {
  }

  /** An element is read from its tag, its length field and its content. */
  lemma ElementFromParts(bytes: seq<Byte>, offset: nat, start: nat, content: seq<Byte>)
    requires offset < |bytes| && LengthAt(bytes, offset + 1) == Ok(Length(|content|, start))
    requires start + |content| <= |bytes| && bytes[start..start + |content|] == content
    ensures ElementAt(bytes, offset) == Ok(Element(bytes[offset], content, start + |content|))
  {
  }

  /** At any offset and with any suffix, reading an element's encoding gives its tag, its content and its end. */
  lemma ElementReadsBack(before: seq<Byte>, node: Node, after: seq<Byte>)
    requires Encodable(node)
    ensures ElementAt(before + Encode(node) + after, |before|)
         == Ok(Element(node.tag, Content(node), |before| + |Encode(node)|))
  {
    var content := Content(node);
    var header := [node.tag] + EncodeLength(node.form, |content|);
    PartsReadBack(before, node.tag, node.form, content, after);
    assert before + Encode(node) + after == before + header + content + after;
  }

  lemma PartsReadBack(before: seq<Byte>, tag: Byte, form: Form, content: seq<Byte>, after: seq<Byte>)
    requires Fits(form, |content|)
    ensures var header := [tag] + EncodeLength(form, |content|);
      ElementAt(before + header + content + after, |before|)
      == Ok(Element(tag, content, |before| + |header| + |content|))
  {
    var field := EncodeLength(form, |content|);
    var bytes := before + ([tag] + field) + content + after;
    LengthReadsBack(before + [tag], form, |content|, content + after);
    assert bytes == before + [tag] + field + (content + after);
    MiddleSlice(before + ([tag] + field), content, after);
    ElementFromParts(bytes, |before|, |before| + 1 + |field|, content);
  }

  /** The form in which the length at offset is written. */
  function FormAt(bytes: seq<Byte>, offset: nat): Form
    requires offset < |bytes|
  {
    if bytes[offset] < 0x80 then Short else Long(bytes[offset] - 0x80)
  }

  lemma {:induction false} SpellOctets(octets: seq<Byte>)
    ensures Octets(BigEndian(octets), |octets|) == octets
  {
    if octets == [] {
    } else {
      SpellOctets(octets[..|octets| - 1]);
      assert octets == octets[..|octets| - 1] + [octets[|octets| - 1]];
    }
  }

  lemma LongLengthSpells(octets: seq<Byte>, length: int)
    requires 0 < |octets| < 0x80 && length == BigEndian(octets)
    ensures EncodeLength(Long(|octets|), length) == [0x80 + |octets|] + octets
  {
    SpellOctets(octets);
  }

  /** The length field at offset is what the length it decodes to is written as. */
  lemma FieldIsEncoded(bytes: seq<Byte>, offset: nat, end: nat, length: int)
    requires LengthAt(bytes, offset) == Ok(Length(length, end))
    requires bytes[offset] >= 0x80 ==> BigEndian(bytes[offset + 1..end]) < TWO_31
    ensures length >= 0 && bytes[offset..end] == EncodeLength(FormAt(bytes, offset), length)
  {
    if bytes[offset] >= 0x80 {
      LengthIsExact(bytes[offset + 1..end]);
      LongLengthSpells(bytes[offset + 1..end], length);
      assert bytes[offset..end] == [bytes[offset]] + bytes[offset + 1..end];
    } else {
      assert bytes[offset..end] == [bytes[offset]];
    }
  }

  lemma SplitAt(bytes: seq<Byte>, offset: nat, start: nat, end: nat)
    requires offset < start <= end <= |bytes|
    ensures bytes[offset..end] == [bytes[offset]] + bytes[offset + 1..start] + bytes[start..end]
  {
  }

  /** Conversely, an element whose long length is encoded below 2^31 is the encoding of what was read. */
  lemma ReadIsEncoded(bytes: seq<Byte>, offset: nat)
    requires ElementAt(bytes, offset).Ok?
    requires var end := LengthAt(bytes, offset + 1).value.nextOffset;
      bytes[offset + 1] >= 0x80 ==> BigEndian(bytes[offset + 2..end]) < TWO_31
    ensures var element := ElementAt(bytes, offset).value;
      && offset < element.nextOffset <= |bytes|
      && bytes[offset..element.nextOffset] == Encode(Leaf(element.tag, FormAt(bytes, offset + 1), element.value))
  {
    var element, field := ElementAt(bytes, offset).value, LengthAt(bytes, offset + 1).value;
    FieldIsEncoded(bytes, offset + 1, field.nextOffset, field.length);
    SplitAt(bytes, offset, field.nextOffset, element.nextOffset);
  }

  // ---------------------------------------------------------------- searching an encoding

  /** All 32-byte octet strings in document order that are reached through SEQUENCE or constructed context
      tags and lie no deeper than the bound. */
  function Candidates(nodes: seq<Node>, depth: nat): seq<seq<Byte>>
    decreases nodes
  {
    if depth > MAX_DEPTH || nodes == [] then []
    else CandidatesIn(nodes[0], depth) + Candidates(nodes[1..], depth)
  }

  function CandidatesIn(node: Node, depth: nat): seq<seq<Byte>>
    decreases node
  {
    if IsCandidate(node.tag, Content(node)) then [Content(node)]
    else if Descends(node.tag) && node.Nest? then Candidates(node.children, depth + 1)
    else []
  }

  function FirstOf(candidates: seq<seq<Byte>>): Outcome {
    if candidates == [] then Absent else Found(candidates[0])
  }

  /** The search of what a node contains finds the first candidate among its children. */
  predicate EntersRight(node: Node, depth: nat, limit: nat) {
    Descends(node.tag) && node.Nest? ==>
      FindWithin(Content(node), depth + 1, limit) == FirstOf(Candidates(node.children, depth + 1))
  }

  /** One turn of the search over an element that reads as the given node. */
  lemma SearchStep(bytes: seq<Byte>, offset: nat, node: Node, end: nat, depth: nat, turns: nat, limit: nat)
    requires depth <= MAX_DEPTH && offset < |bytes| && Encodable(node) && turns > 0
    requires ElementAt(bytes, offset) == Ok(Element(node.tag, Content(node), end))
    requires EntersRight(node, depth, limit)
    ensures Walk(bytes, offset, depth, turns, limit)
         == if CandidatesIn(node, depth) != [] then FirstOf(CandidatesIn(node, depth))
            else Walk(bytes, end, depth, turns - 1, limit)
  {
  }

  lemma FirstOfForest(nodes: seq<Node>, depth: nat)
    requires depth <= MAX_DEPTH && nodes != []
    ensures FirstOf(Candidates(nodes, depth))
         == if CandidatesIn(nodes[0], depth) != [] then FirstOf(CandidatesIn(nodes[0], depth))
            else FirstOf(Candidates(nodes[1..], depth))
  {
  }

  lemma Regroup(before: seq<Byte>, nodes: seq<Node>)
    requires nodes != []
    ensures before + EncodeAll(nodes) == before + Encode(nodes[0]) + EncodeAll(nodes[1..])
    ensures |EncodeAll(nodes)| == |Encode(nodes[0])| + |EncodeAll(nodes[1..])|
    ensures |Encode(nodes[0])| > |Content(nodes[0])|
  {
  }

  lemma SearchHead(bytes: seq<Byte>, before: seq<Byte>, nodes: seq<Node>, depth: nat, turns: nat, limit: nat)
    requires bytes == before + EncodeAll(nodes) && nodes != [] && AllEncodable(nodes)
    requires depth <= MAX_DEPTH && turns > 0 && EntersRight(nodes[0], depth, limit)
    requires Walk(bytes, |before + Encode(nodes[0])|, depth, turns - 1, limit) == FirstOf(Candidates(nodes[1..], depth))
    ensures Walk(bytes, |before|, depth, turns, limit) == FirstOf(Candidates(nodes, depth))
  {
    Regroup(before, nodes);
    ElementReadsBack(before, nodes[0], EncodeAll(nodes[1..]));
    SearchStep(bytes, |before|, nodes[0], |before + Encode(nodes[0])|, depth, turns, limit);
    FirstOfForest(nodes, depth);
  }

  lemma NothingLeft(bytes: seq<Byte>, before: seq<Byte>, depth: nat, turns: nat, limit: nat)
    requires bytes == before + EncodeAll([])
    ensures Walk(bytes, |before|, depth, turns, limit) == FirstOf(Candidates([], depth))
  {
  }

  lemma RestIsShorter(bytes: seq<Byte>, before: seq<Byte>, nodes: seq<Node>)
    requires bytes == before + EncodeAll(nodes) && nodes != [] && AllEncodable(nodes)
    ensures bytes == (before + Encode(nodes[0])) + EncodeAll(nodes[1..])
    ensures |EncodeAll(nodes[1..])| < |EncodeAll(nodes)| && |Content(nodes[0])| < |EncodeAll(nodes)|
    ensures Encodable(nodes[0]) && AllEncodable(nodes[1..])
  {
    Regroup(before, nodes);
  }

  /** From the start of an encoded forest on, the search finds the first candidate of the forest, in no more turns
      than bytes. */
  lemma {:induction false} SearchFindsFirst(bytes: seq<Byte>, before: seq<Byte>, nodes: seq<Node>, depth: nat,
                                            turns: nat, limit: nat)
    requires bytes == before + EncodeAll(nodes) && AllEncodable(nodes) && depth <= MAX_DEPTH
    requires turns >= |EncodeAll(nodes)| && limit >= |EncodeAll(nodes)|
    ensures Walk(bytes, |before|, depth, turns, limit) == FirstOf(Candidates(nodes, depth))
    decreases nodes, 1
  {
    if nodes == [] {
      NothingLeft(bytes, before, depth, turns, limit);
    } else {
      RestIsShorter(bytes, before, nodes);
      var head, rest := before + Encode(nodes[0]), nodes[1..];
      assert Walk(bytes, |head|, depth, turns - 1, limit) == FirstOf(Candidates(rest, depth)) by {
        SearchFindsFirst(bytes, head, rest, depth, turns - 1, limit);
      }
      assert EntersRight(nodes[0], depth, limit) by {
        SearchEnters(nodes[0], depth, limit);
      }
      SearchHead(bytes, before, nodes, depth, turns, limit);
    }
  }

  lemma {:induction false} SearchEnters(node: Node, depth: nat, limit: nat)
    requires Encodable(node) && limit >= |Content(node)|
    ensures EntersRight(node, depth, limit)
    decreases node, 0
  {
    if Descends(node.tag) {
      ForestFindsFirst(node.children, depth + 1, limit);
    }
  }

  /** The search finds the first candidate of an encoded forest, whatever the limit from its length on. */
  lemma {:induction false} ForestFindsFirst(nodes: seq<Node>, depth: nat, limit: nat)
    requires AllEncodable(nodes) && limit >= |EncodeAll(nodes)|
    ensures FindWithin(EncodeAll(nodes), depth, limit) == FirstOf(Candidates(nodes, depth))
    decreases nodes, 2
  {
    if depth <= MAX_DEPTH {
      SearchFindsFirst(EncodeAll(nodes), [], nodes, depth, limit, limit);
    }
  }

  // ---------------------------------------------------------------- tags, length and depth

  /** The layers around a node, outermost first: constructed elements of these tags. */
  function Wrap(node: Node, layers: seq<(Byte, Form)>): Node {
    if layers == [] then node else Nest(layers[0].0, layers[0].1, [Wrap(node, layers[1..])])
  }

  /** SEQUENCE or a constructed context-specific tag. */
  predicate Entered(tag: Byte) {
    tag == 0x30 || 0xa0 <= tag <= 0xbf
  }

  lemma OneTree(node: Node, depth: nat)
    requires depth <= 8
    ensures EncodeAll([node]) == Encode(node) && Candidates([node], depth) == CandidatesIn(node, depth)
    ensures Encodable(node) ==> AllEncodable([node])
  {
    assert [node][1..] == [];
    assert Encode(node) + [] == Encode(node);
    assert CandidatesIn(node, depth) + [] == CandidatesIn(node, depth);
  }

  lemma {:induction false} WrappedCandidates(node: Node, layers: seq<(Byte, Form)>, depth: nat)
    requires node.tag == 0x04 && |Content(node)| == 32 && depth <= 8
    requires forall k :: 0 <= k < |layers| ==> Entered(layers[k].0)
    ensures CandidatesIn(Wrap(node, layers), depth) == if depth + |layers| <= 8 then [Content(node)] else []
  {
    if layers != [] {
      if depth < 8 {
        WrappedCandidates(node, layers[1..], depth + 1);
        OneTree(Wrap(node, layers[1..]), depth + 1);
      }
    }
  }

  /** A 32-byte octet string inside n nested elements that are entered is found exactly if n is at most eight. */
  lemma DepthBoundIsExact(node: Node, layers: seq<(Byte, Form)>, limit: nat)
    requires node.tag == 0x04 && |Content(node)| == 32 && Encodable(Wrap(node, layers))
    requires forall k :: 0 <= k < |layers| ==> Entered(layers[k].0)
    requires limit >= |Encode(Wrap(node, layers))|
    ensures FindWithin(Encode(Wrap(node, layers)), 0, limit)
         == if |layers| <= 8 then Found(Content(node)) else Absent
  {
    var forest := [Wrap(node, layers)];
    OneTree(forest[0], 0);
    WrappedCandidates(node, layers, 0);
    ForestFindsFirst(forest, 0, limit);
  }

  lemma TreeFinds(node: Node, limit: nat)
    requires Encodable(node) && limit >= |Encode(node)|
    ensures FindWithin(Encode(node), 0, limit) == FirstOf(CandidatesIn(node, 0))
  {
    OneTree(node, 0);
    ForestFindsFirst([node], 0, limit);
  }

  /** A primitive element is taken exactly if it is an octet string (tag 4) of 32 bytes. */
  lemma LeafTakenIff(tag: Byte, form: Form, bytes: seq<Byte>, limit: nat)
    requires !Entered(tag) && Fits(form, |bytes|) && limit >= |Encode(Leaf(tag, form, bytes))|
    ensures FindWithin(Encode(Leaf(tag, form, bytes)), 0, limit)
         == if tag == 0x04 && |bytes| == 32 then Found(bytes) else Absent
  {
    TreeFinds(Leaf(tag, form, bytes), limit);
  }

  /** Which elements are entered: a 32-byte octet string inside one element is found exactly if that is a SEQUENCE or
      has a constructed context-specific tag. */
  lemma EnteredIff(tag: Byte, form: Form, inner: Form, nonce: seq<Byte>, limit: nat)
    requires |nonce| == 32 && Fits(inner, 32)
    requires var outer := Nest(tag, form, [Leaf(0x04, inner, nonce)]);
      Fits(form, |Content(outer)|) && limit >= |Encode(outer)|
    ensures var outer := Nest(tag, form, [Leaf(0x04, inner, nonce)]);
      FindWithin(Encode(outer), 0, limit)
      == if tag == 0x30 || 0xa0 <= tag < 0xc0 then Found(nonce) else Absent
  {
    var leaf := Leaf(0x04, inner, nonce);
    OneTree(leaf, 1);
    assert |Content(Nest(tag, form, [leaf]))| > 32;
    TreeFinds(Nest(tag, form, [leaf]), limit);
  }

  lemma ExtensionBytes(nonce: seq<Byte>)
    requires |nonce| == 32
    ensures var node := Nest(0x30, Short, [Nest(0xa1, Short, [Leaf(0x04, Short, nonce)])]);
      Encodable(node) && Encode(node) == [0x30, 0x24, 0xa1, 0x22, 0x04, 0x20] + nonce
  {
    var leaf := Leaf(0x04, Short, nonce);
    var middle := Nest(0xa1, Short, [leaf]);
    OneTree(leaf, 0);
    OneTree(middle, 0);
    assert Encode(leaf) == [0x04, 0x20] + nonce;
    assert Encode(middle) == [0xa1, 0x22] + ([0x04, 0x20] + nonce);
    var node := Nest(0x30, Short, [middle]);
    assert Encode(node) == [0x30, 0x24] + ([0xa1, 0x22] + ([0x04, 0x20] + nonce));
  }

  /** The extension that Apple's certificates carry: a nonce in a SEQUENCE in context tag 1, for every nonce. */
  lemma AppleExtensionIsFound(nonce: seq<Byte>, limit: nat)
    requires |nonce| == 32 && limit >= 38
    ensures FindWithin([0x30, 0x24, 0xa1, 0x22, 0x04, 0x20] + nonce, 0, limit) == Found(nonce)
  {
    var leaf := Leaf(0x04, Short, nonce);
    ExtensionBytes(nonce);
    var layers: seq<(Byte, Form)> := [(0x30, Short), (0xa1, Short)];
    assert layers[1..] == [(0xa1, Short)] && layers[1..][1..] == [];
    assert Wrap(leaf, layers[1..][1..]) == leaf;
    assert Wrap(leaf, layers[1..]) == Nest(0xa1, Short, [leaf]);
    assert Wrap(leaf, layers) == Nest(0x30, Short, [Nest(0xa1, Short, [leaf])]);
    DepthBoundIsExact(leaf, layers, limit);
  }
}
