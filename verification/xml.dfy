/** The in-memory XML node list of the operator front end: a flat list of
    tag and attribute nodes, each with its level, position, name, value
    and parent name; node insertion with position numbering, the queries,
    the character-level parser, and the rendering of the list as text. It
    is an ad-hoc subset of XML, not a conforming XML 1.0 processor.

    Reading and writing the files is not modelled: the parser takes the
    input line, and rendering returns the text that would be written. */
module Xml {
  import opened Results

  const UnsignedModulus: int := 0x1_0000_0000

  /** An int stored into an unsigned field. */
  function Unsigned(x: int): (r: nat)
    ensures r < UnsignedModulus
    ensures 0 <= x < UnsignedModulus ==> r == x
  {
    x % UnsignedModulus
  }

  /** An unsigned value read back as an int. */
  function Signed(x: nat): (r: int)
    ensures x < UnsignedModulus / 2 ==> r == x
  {
    var w := x % UnsignedModulus;
    if w >= UnsignedModulus / 2 then w - UnsignedModulus else w
  }

  datatype NodeType = Tag | Attribute | Text

  datatype Node = Node(kind: NodeType, level: nat, position: nat, name: string, value: string, parent: string)

  // ---------------------------------------------------------------------
  // Insertion and queries
  // ---------------------------------------------------------------------

  /** The index of the most recent TAG node, if any. */
  function LastTag(tree: seq<Node>): (r: Option<nat>)
    ensures r.Some? ==> r.value < |tree| && tree[r.value].kind == Tag
    ensures r.Some? ==> forall j :: r.value < j < |tree| ==> tree[j].kind != Tag
    ensures r.None? ==> forall j :: 0 <= j < |tree| ==> tree[j].kind != Tag
  {
    if |tree| == 0 then None
    else if tree[|tree| - 1].kind == Tag then Some(|tree| - 1)
    else LastTag(tree[..|tree| - 1])
  }

  /** The position InsertNode gives a new node: only the most recent tag
      is consulted. */
  function NewPosition(tree: seq<Node>, p: nat, name: string, parent: string): nat
  {
    match LastTag(tree)
    case None => p
    case Some(k) =>
      if tree[k].name == name && tree[k].parent == parent then Unsigned(tree[k].position + 1)
      else if tree[k].name == parent then tree[k].position
      else p
  }

  /** TerraAidaXML::InsertNode: appends exactly one node and always
      reports success. */
  function InsertNode(tree: seq<Node>, t: NodeType, l: int, p: nat, n: string, v: string, pt: string): (r: (bool, seq<Node>))
    requires p < UnsignedModulus
    ensures r.0
    ensures |r.1| == |tree| + 1 && r.1[..|tree|] == tree
    ensures var node := r.1[|tree|];
      node.kind == t && node.level == Unsigned(l) && node.name == n && node.value == v && node.parent == pt
  {
    (true, tree + [Node(t, Unsigned(l), NewPosition(tree, p, n, pt), n, v, pt)])
  }

  /** The position rule: a sibling of the last tag numbers one past it, a
      child of the last tag shares its position, anything else (or a list
      without tags) keeps the given position. */
  lemma InsertNodePosition(tree: seq<Node>, t: NodeType, l: int, p: nat, n: string, v: string, pt: string)
    requires p < UnsignedModulus
    requires forall j :: 0 <= j < |tree| ==> tree[j].position < UnsignedModulus - 1
    ensures var pos := InsertNode(tree, t, l, p, n, v, pt).1[|tree|].position;
      (forall j :: 0 <= j < |tree| ==> tree[j].kind != Tag) ==> pos == p
    ensures forall k :: 0 <= k < |tree| && tree[k].kind == Tag && (forall j :: k < j < |tree| ==> tree[j].kind != Tag) ==>
      var pos := InsertNode(tree, t, l, p, n, v, pt).1[|tree|].position;
      (tree[k].name == n && tree[k].parent == pt ==> pos == tree[k].position + 1) &&
      (!(tree[k].name == n && tree[k].parent == pt) && tree[k].name == pt ==> pos == tree[k].position) &&
      (!(tree[k].name == n && tree[k].parent == pt) && tree[k].name != pt ==> pos == p)
  {
    var last := LastTag(tree);
    forall k | 0 <= k < |tree| && tree[k].kind == Tag && (forall j :: k < j < |tree| ==> tree[j].kind != Tag)
      ensures last == Some(k)
    {
    }
  }

  /** The index of the last ATTRIBUTE node, if any. */
  function LastAttribute(tree: seq<Node>): (r: Option<nat>)
    ensures r.Some? ==> r.value < |tree| && tree[r.value].kind == Attribute
    ensures r.Some? ==> forall j :: r.value < j < |tree| ==> tree[j].kind != Attribute
    ensures r.None? ==> forall j :: 0 <= j < |tree| ==> tree[j].kind != Attribute
  {
    if |tree| == 0 then None
    else if tree[|tree| - 1].kind == Attribute then Some(|tree| - 1)
    else LastAttribute(tree[..|tree| - 1])
  }

  /** TerraAidaXML::ModifyLastNode: sets the value of the last attribute
      node; nothing changes when there is none. */
  function ModifyLastNode(tree: seq<Node>, v: string): (r: seq<Node>)
    ensures |r| == |tree|
    ensures forall j :: 0 <= j < |tree| ==> r[j] == tree[j] || (r[j] == tree[j].(value := v) && LastAttribute(tree) == Some(j))
    ensures (forall j :: 0 <= j < |tree| ==> tree[j].kind != Attribute) ==> r == tree
    ensures LastAttribute(tree).Some? ==> r[LastAttribute(tree).value].value == v
  {
    match LastAttribute(tree)
    case None => tree
    case Some(k) => tree[k := tree[k].(value := v)]
  }

  predicate Matches(node: Node, parent: string, name: string)
  {
    node.parent == parent && node.name == name
  }

  /** TerraAidaXML::FindNode: the values of the nodes with this parent
      and name, in list order. */
  function FindNode(tree: seq<Node>, parent: string, name: string): (values: seq<string>)
  {
    if |tree| == 0 then []
    else
      var last := tree[|tree| - 1];
      FindNode(tree[..|tree| - 1], parent, name) + (if Matches(last, parent, name) then [last.value] else [])
  }

  /** A value is found exactly when some matching node carries it, and
      there is one value per matching node. */
  lemma FindNodeMeaning(tree: seq<Node>, parent: string, name: string)
    ensures forall v :: v in FindNode(tree, parent, name) <==>
      exists j :: 0 <= j < |tree| && Matches(tree[j], parent, name) && tree[j].value == v
    ensures |FindNode(tree, parent, name)| == |MatchingIndices(tree, parent, name)|
  {
    FindNodeValues(tree, parent, name);
    FindNodeCount(tree, parent, name);
  }

  lemma {:induction false} FindNodeValues(tree: seq<Node>, parent: string, name: string)
    ensures forall v :: v in FindNode(tree, parent, name) <==>
      exists j :: 0 <= j < |tree| && Matches(tree[j], parent, name) && tree[j].value == v
  {
    if |tree| > 0 {
      var front := tree[..|tree| - 1];
      FindNodeValues(front, parent, name);
      assert forall j :: 0 <= j < |front| ==> tree[j] == front[j];
    }
  }

  lemma {:induction false} FindNodeCount(tree: seq<Node>, parent: string, name: string)
    ensures |FindNode(tree, parent, name)| == |MatchingIndices(tree, parent, name)|
  {
    if |tree| > 0 {
      var front := tree[..|tree| - 1];
      FindNodeCount(front, parent, name);
      MatchingIndicesSnoc(tree, parent, name);
    }
  }

  /** The indices of the nodes that a FindNode query matches. */
  function MatchingIndices(tree: seq<Node>, parent: string, name: string): set<nat>
  {
    set j: nat | j < |tree| && Matches(tree[j], parent, name)
  }

  lemma MatchingIndicesSnoc(tree: seq<Node>, parent: string, name: string)
    requires |tree| > 0
    ensures var last := |tree| - 1;
      MatchingIndices(tree, parent, name) ==
        MatchingIndices(tree[..last], parent, name) + (if Matches(tree[last], parent, name) then {last} else {})
  {
    var front := tree[..|tree| - 1];
    assert forall j :: 0 <= j < |front| ==> tree[j] == front[j];
  }

  /** Inserting a node adds its value to the query it matches and to no
      other. */
  lemma FindNodeAfterInsert(tree: seq<Node>, t: NodeType, l: int, p: nat, n: string, v: string, pt: string, parent: string, name: string)
    requires p < UnsignedModulus
    ensures FindNode(InsertNode(tree, t, l, p, n, v, pt).1, parent, name) ==
      FindNode(tree, parent, name) + (if pt == parent && n == name then [v] else [])
  {
    var tree' := InsertNode(tree, t, l, p, n, v, pt).1;
    assert tree'[..|tree'| - 1] == tree;
  }

  /** TerraAidaXML::FindChildren: the names of the nodes with this
      parent. */
  function FindChildren(tree: seq<Node>, parent: string): (children: set<string>)
    ensures forall c :: c in children <==> exists j :: 0 <= j < |tree| && tree[j].parent == parent && tree[j].name == c
  {
    set j | 0 <= j < |tree| && tree[j].parent == parent :: tree[j].name
  }

  /** TerraAidaXML::GetNode: the index of the first node with this name,
      or |tree| (the end iterator) when there is none. */
  function GetNode(tree: seq<Node>, name: string): (i: nat)
    ensures i <= |tree|
    ensures i < |tree| ==> tree[i].name == name
    ensures forall j :: 0 <= j < i ==> tree[j].name != name
  {
    if |tree| == 0 then 0
    else if tree[0].name == name then 0
    else 1 + GetNode(tree[1..], name)
  }

  // ---------------------------------------------------------------------
  // The parser
  // ---------------------------------------------------------------------

  datatype XmlFault =
    | PopEmpty      // a '/' outside a value with no open tag: pop on an empty stack
    | TopEmpty      // a closing tag to render with no open tag: top of an empty stack

  /** The state of TerraAidaXML::ExtractValues between two characters. */
  datatype Parser = Parser(
    tree: seq<Node>, parents: seq<string>, name: string, parent: string,
    isAttribute: bool, isTag: bool, isValue: bool, level: int)

  function Top(parents: seq<string>): string
  {
    if |parents| == 0 then "" else parents[|parents| - 1]
  }

  /** A tag name is complete: it becomes a TAG node one level deeper. */
  function OpenTag(s: Parser): Parser
  {
    var level := s.level + 1;
    var parent := Top(s.parents);
    s.(tree := InsertNode(s.tree, Tag, level, 0, s.name, "", parent).1,
       parents := s.parents + [s.name], name := "", parent := parent, isTag := false, level := level)
  }

  /** One character of the parser loop. */
  function Step(s: Parser, ch: char): (r: Result<Parser, XmlFault>)
    ensures r.Fault? <==> ch == '/' && !s.isValue && |s.parents| == 0
  {
    match ch
    case '<' => Ok(s.(isTag := true, name := ""))
    case ' ' => if s.isTag then Ok(OpenTag(s).(isAttribute := true)) else Ok(s)
    case '=' =>
      if s.isAttribute then
        var parent := Top(s.parents);
        Ok(s.(tree := InsertNode(s.tree, Attribute, s.level, 0, s.name, "", parent).1,
              parent := parent, name := "", isAttribute := false))
      else Ok(s)
    case '"' =>
      if s.isValue then Ok(s.(tree := ModifyLastNode(s.tree, s.name), name := "", isValue := false, isAttribute := true))
      else Ok(s.(isValue := true))
    case '/' =>
      if !s.isValue then
        if |s.parents| == 0 then Fault(PopEmpty)
        else Ok(s.(level := s.level - 1, parents := s.parents[..|s.parents| - 1], isTag := false, isAttribute := false, name := ""))
      else Ok(s.(name := s.name + [ch]))
    case '>' => if s.isTag then Ok(OpenTag(s)) else Ok(s)
    case _ => Ok(s.(name := s.name + [ch]))
  }

  /** The parser loop over the rest of the input. */
  function Run(s: Parser, input: string): Result<Parser, XmlFault>
    decreases |input|
  {
    if input == [] then Ok(s)
    else
      var s' :- Step(s, input[0]);
      Run(s', input[1..])
  }

  function Initial(tree: seq<Node>): Parser
  {
    Parser(tree, [], "", "", false, false, false, -1)
  }

  /** TerraAidaXML::ExtractValues: the nodes of the input appended to the
      list, and whether the nesting level is back at -1 at the end. */
  function ExtractValues(tree: seq<Node>, input: string): Result<(bool, seq<Node>), XmlFault>
  {
    var s :- Run(Initial(tree), input);
    Ok((s.level == -1, s.tree))
  }

  /** The open-tag stack always holds level + 1 names. */
  predicate DepthTracked(s: Parser)
  {
    |s.parents| == s.level + 1
  }

  /** The earlier nodes keep everything but possibly their value. */
  predicate KeepsNodes(before: seq<Node>, after: seq<Node>)
  {
    |before| <= |after| &&
    forall j :: 0 <= j < |before| ==> after[j].(value := before[j].value) == before[j]
  }

  /** Appending nodes keeps the earlier ones. */
  lemma AppendKeeps(before: seq<Node>, after: seq<Node>)
    requires |before| <= |after| && after[..|before|] == before
    ensures KeepsNodes(before, after)
  {
    forall j | 0 <= j < |before|
      ensures after[j].(value := before[j].value) == before[j]
    {
      assert after[j] == after[..|before|][j];
    }
  }

  /** Setting the last attribute's value keeps everything else. */
  lemma ModifyKeeps(tree: seq<Node>, v: string)
    ensures KeepsNodes(tree, ModifyLastNode(tree, v))
  {
  }

  lemma StepInvariants(s: Parser, ch: char)
    requires DepthTracked(s)
    requires Step(s, ch).Ok?
    ensures DepthTracked(Step(s, ch).value)
    ensures KeepsNodes(s.tree, Step(s, ch).value.tree)
  {
    var t := Step(s, ch).value;
    if ch == '"' {
      ModifyKeeps(s.tree, s.name);
    } else if (ch == ' ' && s.isTag) || (ch == '>' && s.isTag) || (ch == '=' && s.isAttribute) {
      AppendKeeps(s.tree, t.tree);
    } else {
      assert t.tree == s.tree;
      AppendKeeps(s.tree, t.tree);
    }
  }

  lemma {:induction false} RunInvariants(s: Parser, input: string)
    requires DepthTracked(s)
    requires Run(s, input).Ok?
    ensures DepthTracked(Run(s, input).value)
    ensures KeepsNodes(s.tree, Run(s, input).value.tree)
    decreases |input|
  {
    if input != [] {
      var s' := Step(s, input[0]).value;
      StepInvariants(s, input[0]);
      RunInvariants(s', input[1..]);
    }
  }

  /** The parser fails exactly when a '/' outside a quoted value closes a
      tag that was never opened; otherwise it reports success exactly when
      every opened tag has been closed, and the nodes already in the list
      keep everything but possibly the value of the last attribute. */
  lemma ExtractValuesMeaning(tree: seq<Node>, input: string)
    requires ExtractValues(tree, input).Ok?
    ensures ExtractValues(tree, input).value.0 <==> |Run(Initial(tree), input).value.parents| == 0
    ensures KeepsNodes(tree, ExtractValues(tree, input).value.1)
  {
    RunInvariants(Initial(tree), input);
  }

  lemma RunStep(s: Parser, c: char, rest: string)
    requires Step(s, c).Ok?
    ensures Run(s, [c] + rest) == Run(Step(s, c).value, rest)
  {
    assert ([c] + rest)[0] == c && ([c] + rest)[1..] == rest;
  }

  /** A character with no markup meaning extends the pending name. */
  lemma NameStep(s: Parser, c: char)
    requires c !in "< =\"/>"
    ensures Step(s, c) == Ok(s.(name := s.name + [c]))
  {
    assert c != '<' && c != ' ' && c != '=' && c != '"' && c != '/' && c != '>';
  }

  /** Parsing a + b is parsing a, then b from where a left off. */
  lemma {:induction false} RunAppend(s: Parser, a: string, b: string)
    requires Run(s, a).Ok?
    ensures Run(s, a + b) == Run(Run(s, a).value, b)
    decreases |a|
  {
    if a != [] {
      assert (a + b)[0] == a[0] && (a + b)[1..] == a[1..] + b;
      assert Step(s, a[0]).Ok?;
      assert Run(s, a) == Run(Step(s, a[0]).value, a[1..]);
      assert Run(s, a + b) == Run(Step(s, a[0]).value, a[1..] + b);
      RunAppend(Step(s, a[0]).value, a[1..], b);
    } else {
      assert a + b == b;
    }
  }

  // ---------------------------------------------------------------------
  // Rendering
  // ---------------------------------------------------------------------

  function Spaces(n: nat): (s: string)
    ensures |s| == n && forall i :: 0 <= i < n ==> s[i] == ' '
  {
    if n == 0 then "" else Spaces(n - 1) + " "
  }

  /** The indentation of a tag: 3 x level spaces, in unsigned arithmetic. */
  function Indent(level: nat): string
  {
    Spaces(Unsigned(3 * level))
  }

  /** The state of TerraAidaXML::SaveToDisk between two nodes. */
  datatype Renderer = Renderer(out: string, parents: seq<string>, lastTag: string, dlevel: int, isAttribute: bool, isTag: bool)

  /** The text of one attribute. */
  function AttributeText(node: Node): string
  {
    " " + node.name + "=\"" + node.value + "\""
  }

  /** What a tag writes before its own opening: the previous tag's '>'
      if it had no attributes (it becomes a parent), the previous attribute
      list's "/>", and a closing tag when the level went down. */
  function TagLead(r: Renderer, node: Node): string
  {
    var parents1 := if r.isTag then r.parents + [r.lastTag] else r.parents;
    (if r.isTag then ">\n" else "") + (if r.isAttribute then "/>\n" else "") +
    (if Signed(node.level) - r.dlevel < 0 && |parents1| > 0 then Indent(node.level) + "</" + Top(parents1) + ">\n" else "")
  }

  function TagStep(r: Renderer, node: Node): Result<Renderer, XmlFault>
  {
    var parents1 := if r.isTag then r.parents + [r.lastTag] else r.parents;
    var closing := Signed(node.level) - r.dlevel < 0;
    if closing && |parents1| == 0 then Fault(TopEmpty)
    else
      var parents2 := if closing then parents1[..|parents1| - 1] else parents1;
      Ok(Renderer(r.out + TagLead(r, node) + Indent(node.level) + "<" + node.name, parents2, node.name,
                  Signed(node.level), false, true))
  }

  /** One node of the SaveToDisk loop: an attribute writes
      ` name="value"`, a tag ends the text with its indented opening
      "<name", indented by 3 x level spaces. */
  function RenderStep(r: Renderer, node: Node): (r': Result<Renderer, XmlFault>)
    ensures node.kind == Attribute ==> r' == Ok(r.(out := r.out + AttributeText(node), isAttribute := true, isTag := false, dlevel := Signed(node.level)))
    ensures node.kind == Tag && r'.Ok? ==>
      r'.value.out == r.out + TagLead(r, node) + Indent(node.level) + "<" + node.name && r'.value.isTag
    ensures node.kind == Tag ==> (r'.Fault? <==> Signed(node.level) < r.dlevel && |r.parents| == 0 && !r.isTag)
    ensures node.kind == Text ==> r' == Ok(r.(dlevel := Signed(node.level)))
  {
    match node.kind
    case Tag => TagStep(r, node)
    case Attribute => Ok(r.(out := r.out + AttributeText(node), isAttribute := true, isTag := false, dlevel := Signed(node.level)))
    case Text => Ok(r.(dlevel := Signed(node.level)))
  }

  function RenderNodes(r: Renderer, nodes: seq<Node>): Result<Renderer, XmlFault>
    decreases |nodes|
  {
    if nodes == [] then Ok(r)
    else
      var r' :- RenderStep(r, nodes[0]);
      RenderNodes(r', nodes[1..])
  }

  /** The tags still open at the end, innermost first. */
  function CloseAll(parents: seq<string>): string
  {
    if |parents| == 0 then ""
    else "\n</" + Top(parents) + ">\n" + CloseAll(parents[..|parents| - 1])
  }

  /** TerraAidaXML::SaveToDisk: the text written to the output file. */
  function Render(tree: seq<Node>): Result<string, XmlFault>
  {
    var r :- RenderNodes(Renderer("", [], "", 0, false, false), tree);
    Ok(r.out + (if r.isAttribute then "/>\n" else "") + CloseAll(r.parents))
  }

  /** Rendering only appends: the text so far is a prefix of the text
      after more nodes. */
  lemma {:induction false} RenderNodesAppends(r: Renderer, nodes: seq<Node>)
    requires RenderNodes(r, nodes).Ok?
    ensures r.out <= RenderNodes(r, nodes).value.out
    decreases |nodes|
  {
    if nodes != [] {
      var r' := RenderStep(r, nodes[0]).value;
      RenderNodesAppends(r', nodes[1..]);
      StepAppends(r, nodes[0]);
      PrefixTrans(r.out, r'.out, RenderNodes(r', nodes[1..]).value.out);
    }
  }

  /** One step only appends to the text. */
  lemma StepAppends(r: Renderer, node: Node)
    requires RenderStep(r, node).Ok?
    ensures r.out <= RenderStep(r, node).value.out
  {
    if node.kind == Tag {
      assert RenderStep(r, node).value.out == r.out + (TagLead(r, node) + Indent(node.level) + "<" + node.name);
    } else if node.kind == Attribute {
      assert RenderStep(r, node).value.out == r.out + AttributeText(node);
    }
  }

  lemma PrefixTrans(a: string, b: string, c: string)
    requires a <= b && b <= c
    ensures a <= c
  {
    assert c[..|a|] == b[..|a|];
  }

  /** Rendering a tag named "a" at level 0 into empty output writes "<a"
      with no indentation or lead, leaves the open-tag stack empty, and
      records "a" as the last tag, still open for attributes. */
  lemma FirstTagExample()
    ensures RenderStep(Renderer("", [], "", 0, false, false), Node(Tag, 0, 0, "a", "", "")) ==
      Ok(Renderer("<a", [], "a", 0, false, true))
  {
    var a := Node(Tag, 0, 0, "a", "", "");
    var r0 := Renderer("", [], "", 0, false, false);
    assert TagLead(r0, a) == "" && Indent(0) == "";
    assert "" + "" + "" + "<" + "a" == "<a";
  }

  /** Rendering one more node: the renderer after the others, advanced by
      that node; a fault earlier stays the fault. */
  lemma {:induction false} RenderNodesSnoc(r: Renderer, nodes: seq<Node>, n: Node)
    ensures RenderNodes(r, nodes + [n]) ==
      if RenderNodes(r, nodes).Ok? then RenderStep(RenderNodes(r, nodes).value, n) else RenderNodes(r, nodes)
    decreases |nodes|
  {
    if nodes == [] {
      assert nodes + [n] == [n] && [n][1..] == [];
    } else {
      assert (nodes + [n])[0] == nodes[0] && (nodes + [n])[1..] == nodes[1..] + [n];
      var step := RenderStep(r, nodes[0]);
      if step.Ok? {
        RenderNodesSnoc(step.value, nodes[1..], n);
      }
    }
  }

  /** The renderer after all nodes of a non-empty tree, from the one
      after all but the last. */
  lemma RenderLast(tree: seq<Node>)
    requires |tree| > 0
    ensures var r0 := Renderer("", [], "", 0, false, false);
      RenderNodes(r0, tree) ==
        if RenderNodes(r0, tree[..|tree| - 1]).Ok? then RenderStep(RenderNodes(r0, tree[..|tree| - 1]).value, tree[|tree| - 1])
        else RenderNodes(r0, tree[..|tree| - 1])
  {
    var front, last := tree[..|tree| - 1], tree[|tree| - 1];
    RenderNodesSnoc(Renderer("", [], "", 0, false, false), front, last);
    FrontLast(tree);
  }

  lemma FrontLast(s: seq<Node>)
    requires |s| > 0
    ensures s[..|s| - 1] + [s[|s| - 1]] == s
  {
  }

  /** A file whose last node is a tag ends with that tag's indented
      "<name", never given its '>', followed only by the closing tags of
      the tags still open. */
  lemma RenderEndsWithTag(tree: seq<Node>)
    requires |tree| > 0 && tree[|tree| - 1].kind == Tag && Render(tree).Ok?
    ensures var r := RenderNodes(Renderer("", [], "", 0, false, false), tree).value;
      Render(tree).value == r.out + CloseAll(r.parents) &&
      EndsWith(r.out, Indent(tree[|tree| - 1].level) + "<" + tree[|tree| - 1].name)
  {
    var last := tree[|tree| - 1];
    RenderLast(tree);
    var prev := RenderNodes(Renderer("", [], "", 0, false, false), tree[..|tree| - 1]).value;
    var r := RenderNodes(Renderer("", [], "", 0, false, false), tree).value;
    TagStepEnds(prev, last);
    assert r.out + "" == r.out;
    assert Render(tree) == Ok(r.out + "" + CloseAll(r.parents));
  }

  /** A tag's step leaves the text ending with its indented "<name" and
      no attribute pending. */
  lemma TagStepEnds(r: Renderer, node: Node)
    requires TagStep(r, node).Ok?
    ensures EndsWith(TagStep(r, node).value.out, Indent(node.level) + "<" + node.name)
    ensures !TagStep(r, node).value.isAttribute
  {
    EndsWithThree(r.out + TagLead(r, node), Indent(node.level), "<", node.name);
  }

  /** A file whose last node is an attribute ends with that attribute,
      "/>" and the closing tags of the tags still open. */
  lemma RenderEndsWithAttribute(tree: seq<Node>)
    requires |tree| > 0 && tree[|tree| - 1].kind == Attribute && Render(tree).Ok?
    ensures var r := RenderNodes(Renderer("", [], "", 0, false, false), tree).value;
      Render(tree).value == r.out + "/>\n" + CloseAll(r.parents) &&
      EndsWith(r.out, AttributeText(tree[|tree| - 1]))
  {
    var last := tree[|tree| - 1];
    RenderLast(tree);
    var prev := RenderNodes(Renderer("", [], "", 0, false, false), tree[..|tree| - 1]).value;
    var r := RenderNodes(Renderer("", [], "", 0, false, false), tree).value;
    assert r.out == prev.out + AttributeText(last);
    assert r.isAttribute;
  }

  /** s ends with t. */
  predicate EndsWith(s: string, t: string)
  {
    |t| <= |s| && s[|s| - |t|..] == t
  }

  lemma EndsWithThree(pre: string, a: string, b: string, c: string)
    ensures EndsWith(pre + a + b + c, a + b + c)
  {
    assert pre + a + b + c == pre + (a + b + c);
  }
}
