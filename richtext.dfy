/** The editable instruction field as an explicit tree, and the conversions
    between that tree and the plain instruction text in which every marker
    tag is written as the placeholder `标记点N`. */
module RichText {
  import opened Maybe
  import opened Text

  /** The placeholder word that precedes a marker number in the plain text. */
  const MARKER_WORD: string := "标记点"

  /** `DIV` and `P` start a new line; any other element is transparent. */
  datatype ElemKind = DivOrP | OtherElem

  /** A DOM node of the field.  A marker tag is a non-editable `span` that
      carries its marker number; its visible label is always
      `CircledNumber(markerIndex)`. */
  datatype RNode =
    | TextNode(text: string)
    | Tag(markerIndex: nat)
    | Br
    | Element(kind: ElemKind, children: seq<RNode>)

  /** The label of marker number `index`: its plain decimal numeral. */
  function CircledNumber(index: nat): (s: string)
    ensures |s| > 0 && IsDigit(s[0])
  {
    NatToString(index)
  }

  /** A marker's label is the canonical numeral of its number. */
  lemma CircledNumberValue(index: nat)
    ensures Canonical(CircledNumber(index)) && DigitsValue(CircledNumber(index)) == index
  {
    ValueOfNatToString(index);
  }

  /** The placeholder a tag becomes in the plain text. */
  function MarkerText(index: nat): string {
    MARKER_WORD + CircledNumber(index)
  }

  // ------------------------------------------------------------ queries

  /** Marker numbers of the tags, in document order (`querySelectorAll`). */
  function TagsOf(n: RNode): seq<nat>
    decreases n
  {
    match n
    case Tag(i) => [i]
    case Element(_, ch) => TagsIn(ch)
    case _ => []
  }

  function TagsIn(ns: seq<RNode>): seq<nat>
    decreases ns
  {
    if ns == [] then [] else TagsOf(ns[0]) + TagsIn(ns[1..])
  }

  /** The contents of the text nodes, in document order. */
  function TextsOf(n: RNode): seq<string>
    decreases n
  {
    match n
    case TextNode(s) => [s]
    case Element(_, ch) => TextsIn(ch)
    case _ => []
  }

  function TextsIn(ns: seq<RNode>): seq<string>
    decreases ns
  {
    if ns == [] then [] else TextsOf(ns[0]) + TextsIn(ns[1..])
  }

  /** The tree with every marker number forgotten: its shape and text. */
  function EraseOf(n: RNode): RNode
    decreases n
  {
    match n
    case Tag(_) => Tag(0)
    case Element(k, ch) => Element(k, EraseIn(ch))
    case _ => n
  }

  function EraseIn(ns: seq<RNode>): seq<RNode>
    decreases ns
  {
    if ns == [] then [] else [EraseOf(ns[0])] + EraseIn(ns[1..])
  }

  /** One step of a document-order walk over the field: a text, a tag, a
      `BR`, or the start or end of an element. */
  datatype Token = TextTok(text: string) | TagTok(index: nat) | BrTok | Open(kind: ElemKind) | Close

  /** The document-order walk of `n`, which records the whole tree. */
  function TokensOf(n: RNode): seq<Token>
    decreases n
  {
    match n
    case TextNode(s) => [TextTok(s)]
    case Tag(i) => [TagTok(i)]
    case Br => [BrTok]
    case Element(k, ch) => [Open(k)] + TokensIn(ch) + [Close]
  }

  function TokensIn(ns: seq<RNode>): seq<Token>
    decreases ns
  {
    if ns == [] then [] else TokensOf(ns[0]) + TokensIn(ns[1..])
  }

  lemma {:induction false} TagsInConcat(a: seq<RNode>, b: seq<RNode>)
    ensures TagsIn(a + b) == TagsIn(a) + TagsIn(b)
    decreases |a|
  {
    if a == [] {
      assert a + b == b;
    } else {
      assert (a + b)[0] == a[0] && (a + b)[1..] == a[1..] + b;
      TagsInConcat(a[1..], b);
    }
  }

  lemma {:induction false} TextsInConcat(a: seq<RNode>, b: seq<RNode>)
    ensures TextsIn(a + b) == TextsIn(a) + TextsIn(b)
    decreases |a|
  {
    if a == [] {
      assert a + b == b;
    } else {
      assert (a + b)[0] == a[0] && (a + b)[1..] == a[1..] + b;
      TextsInConcat(a[1..], b);
    }
  }

  lemma Cons(n: RNode, ns: seq<RNode>)
    ensures TagsIn([n] + ns) == TagsOf(n) + TagsIn(ns)
    ensures TextsIn([n] + ns) == TextsOf(n) + TextsIn(ns)
    ensures EraseIn([n] + ns) == [EraseOf(n)] + EraseIn(ns)
    ensures TokensIn([n] + ns) == TokensOf(n) + TokensIn(ns)
  {
    assert ([n] + ns)[1..] == ns;
  }

  lemma EraseHead(a: seq<RNode>)
    requires a != []
    ensures EraseIn(a)[0] == EraseOf(a[0]) && EraseIn(a)[1..] == EraseIn(a[1..])
  {
  }

  /** Trees of the same shape hold the same number of tags. */
  lemma {:induction false} SameShapeSameCount(a: seq<RNode>, b: seq<RNode>)
    requires EraseIn(a) == EraseIn(b)
    ensures |TagsIn(a)| == |TagsIn(b)|
    decreases a
  {
    if a != [] {
      assert EraseIn(b) != [];
      EraseHead(a);
      EraseHead(b);
      SameShapeSameCountOf(a[0], b[0]);
      SameShapeSameCount(a[1..], b[1..]);
    }
  }

  lemma {:induction false} SameShapeSameCountOf(a: RNode, b: RNode)
    requires EraseOf(a) == EraseOf(b)
    ensures |TagsOf(a)| == |TagsOf(b)|
    decreases a
  {
    if a.Element? {
      SameShapeSameCount(a.children, b.children);
    }
  }

  /** A tree is determined by its shape and its marker numbers: two trees
      that agree on both are equal. */
  lemma {:induction false} ShapeAndTagsDetermine(a: seq<RNode>, b: seq<RNode>)
    requires EraseIn(a) == EraseIn(b) && TagsIn(a) == TagsIn(b)
    ensures a == b
    decreases a
  {
    if a == [] {
      assert EraseIn(b) == [];
    } else {
      assert EraseIn(b) != [];
      EraseHead(a);
      EraseHead(b);
      SameShapeSameCountOf(a[0], b[0]);
      var k := |TagsOf(a[0])|;
      assert TagsOf(a[0]) == TagsIn(a)[..k] == TagsOf(b[0]);
      assert TagsIn(a[1..]) == TagsIn(a)[k..] == TagsIn(b[1..]);
      ShapeAndTagsDetermineOf(a[0], b[0]);
      ShapeAndTagsDetermine(a[1..], b[1..]);
      assert a == [a[0]] + a[1..] && b == [b[0]] + b[1..];
    }
  }

  lemma {:induction false} ShapeAndTagsDetermineOf(a: RNode, b: RNode)
    requires EraseOf(a) == EraseOf(b) && TagsOf(a) == TagsOf(b)
    ensures a == b
    decreases a
  {
    if a.Element? {
      ShapeAndTagsDetermine(a.children, b.children);
    }
  }

  // ------------------------------------------------------ renumbering

  /** The tree with the `k`-th tag (document order) renumbered to `v`. */
  function SetTagIn(ns: seq<RNode>, k: nat, v: nat): (r: seq<RNode>)
    requires k < |TagsIn(ns)|
    ensures TagsIn(r) == TagsIn(ns)[k := v]
    ensures EraseIn(r) == EraseIn(ns)
    decreases ns
  {
    var c := |TagsOf(ns[0])|;
    Cons(ns[0], ns[1..]);
    assert ns == [ns[0]] + ns[1..];
    if k < c then
      var r := [SetTagOf(ns[0], k, v)] + ns[1..];
      Cons(SetTagOf(ns[0], k, v), ns[1..]);
      r
    else
      var r := [ns[0]] + SetTagIn(ns[1..], k - c, v);
      Cons(ns[0], SetTagIn(ns[1..], k - c, v));
      r
  }

  function SetTagOf(n: RNode, k: nat, v: nat): (r: RNode)
    requires k < |TagsOf(n)|
    ensures TagsOf(r) == TagsOf(n)[k := v]
    ensures EraseOf(r) == EraseOf(n)
    decreases n
  {
    if n.Tag? then Tag(v) else Element(n.kind, SetTagIn(n.children, k, v))
  }

  /** Marker numbers 1, 2, ..., in order. */
  predicate CountsUp(ts: seq<nat>) {
    forall i :: 0 <= i < |ts| ==> ts[i] == i + 1
  }

  /** `_updateTagNumbers`: walks the tags in document order with a counter
      and gives each the next number, so the tags read 1..k afterwards and
      nothing but marker numbers changes. */
  method RenumberTags(ns: seq<RNode>) returns (r: seq<RNode>)
    ensures |TagsIn(r)| == |TagsIn(ns)| && CountsUp(TagsIn(r))
    ensures EraseIn(r) == EraseIn(ns)
    ensures CountsUp(TagsIn(ns)) ==> r == ns
  {
    r := ns;
    var tagCount := |TagsIn(ns)|;
    var currentIndex := 1;
    while currentIndex <= tagCount
      invariant 1 <= currentIndex <= tagCount + 1
      invariant |TagsIn(r)| == tagCount
      invariant forall i :: 0 <= i < currentIndex - 1 ==> TagsIn(r)[i] == i + 1
      invariant EraseIn(r) == EraseIn(ns)
    {
      r := SetTagIn(r, currentIndex - 1, currentIndex);
      currentIndex := currentIndex + 1;
    }
    if CountsUp(TagsIn(ns)) {
      assert TagsIn(r) == TagsIn(ns);
      ShapeAndTagsDetermine(r, ns);
    }
  }

  // ------------------------------------------------------------ removal

  /** Which tags a removal takes out: all of them (clear) or those carrying
      one marker number (delete). */
  datatype Doomed = AllTags | TagsNumbered(n: nat)

  predicate Hits(d: Doomed, i: nat) {
    d.AllTags? || d.n == i
  }

  function Filter(ts: seq<nat>, d: Doomed): (r: seq<nat>)
    ensures forall i :: i in r <==> i in ts && !Hits(d, i)
    ensures d.AllTags? ==> r == []
  {
    if ts == [] then [] else (if Hits(d, ts[0]) then [] else [ts[0]]) + Filter(ts[1..], d)
  }

  lemma {:induction false} FilterConcat(a: seq<nat>, b: seq<nat>, d: Doomed)
    ensures Filter(a + b, d) == Filter(a, d) + Filter(b, d)
    decreases |a|
  {
    if a == [] {
      assert a + b == b;
    } else {
      assert (a + b)[0] == a[0] && (a + b)[1..] == a[1..] + b;
      FilterConcat(a[1..], b, d);
    }
  }

  /** The walk with the doomed tags' steps left out. */
  function Drop(ts: seq<Token>, d: Doomed): seq<Token> {
    if ts == [] then [] else (if ts[0].TagTok? && Hits(d, ts[0].index) then [] else [ts[0]]) + Drop(ts[1..], d)
  }

  lemma {:induction false} DropConcat(a: seq<Token>, b: seq<Token>, d: Doomed)
    ensures Drop(a + b, d) == Drop(a, d) + Drop(b, d)
    decreases |a|
  {
    if a == [] {
      assert a + b == b;
    } else {
      assert (a + b)[0] == a[0] && (a + b)[1..] == a[1..] + b;
      DropConcat(a[1..], b, d);
    }
  }

  /** The tree with the doomed tags removed wherever they sit: its walk is
      the old walk without the doomed tags, so every text node, `BR` and
      element stays where it was, and the marker numbers of the remaining
      tags stay in order. */
  function RemoveTagsIn(ns: seq<RNode>, d: Doomed): (r: seq<RNode>)
    ensures TokensIn(r) == Drop(TokensIn(ns), d)
    ensures TagsIn(r) == Filter(TagsIn(ns), d)
    ensures TextsIn(r) == TextsIn(ns)
    decreases ns
  {
    if ns == [] then [] else
      var rest := RemoveTagsIn(ns[1..], d);
      Cons(ns[0], ns[1..]);
      assert ns == [ns[0]] + ns[1..];
      FilterConcat(TagsOf(ns[0]), TagsIn(ns[1..]), d);
      DropConcat(TokensOf(ns[0]), TokensIn(ns[1..]), d);
      if ns[0].Tag? && Hits(d, ns[0].markerIndex) then
        assert Drop(TokensOf(ns[0]), d) == [];
        rest
      else
        Cons(RemoveTagsOf(ns[0], d), rest);
        [RemoveTagsOf(ns[0], d)] + rest
  }

  function RemoveTagsOf(n: RNode, d: Doomed): (r: RNode)
    requires !(n.Tag? && Hits(d, n.markerIndex))
    ensures TokensOf(r) == Drop(TokensOf(n), d)
    ensures TagsOf(r) == Filter(TagsOf(n), d)
    ensures TextsOf(r) == TextsOf(n)
    decreases n
  {
    if n.Element? then
      var ch := RemoveTagsIn(n.children, d);
      DropConcat([Open(n.kind)] + TokensIn(n.children), [Close], d);
      DropConcat([Open(n.kind)], TokensIn(n.children), d);
      Element(n.kind, ch)
    else
      assert Drop(TokensOf(n), d) == TokensOf(n) by {
        assert TokensOf(n)[1..] == [];
      }
      n
  }

  /** A removal that hits no tag changes nothing. */
  lemma {:induction false} RemoveMissesNothing(ns: seq<RNode>, d: Doomed)
    requires forall i :: i in TagsIn(ns) ==> !Hits(d, i)
    ensures RemoveTagsIn(ns, d) == ns
    decreases ns
  {
    if ns != [] {
      var n := ns[0];
      Cons(n, ns[1..]);
      assert ns == [n] + ns[1..];
      RemoveMissesNothing(ns[1..], d);
      if n.Tag? {
        assert n.markerIndex in TagsIn(ns);
      }
      if n.Element? {
        RemoveMissesNothing(n.children, d);
      }
      RemoveHead(ns, d);
    }
  }

  /** Removing some tags and then the rest leaves what removing all of them
      leaves: a removal touches nothing but tags. */
  lemma {:induction false} RemoveOnlyTags(ns: seq<RNode>, d: Doomed)
    ensures RemoveTagsIn(RemoveTagsIn(ns, d), AllTags) == RemoveTagsIn(ns, AllTags)
    decreases ns
  {
    if ns != [] {
      var n := ns[0];
      RemoveOnlyTags(ns[1..], d);
      if n.Element? {
        RemoveOnlyTags(n.children, d);
      }
      if !(n.Tag? && Hits(d, n.markerIndex)) {
        RemoveConcat([RemoveTagsOf(n, d)], RemoveTagsIn(ns[1..], d), AllTags);
      }
    }
  }

  lemma {:induction false} RemoveConcat(a: seq<RNode>, b: seq<RNode>, d: Doomed)
    ensures RemoveTagsIn(a + b, d) == RemoveTagsIn(a, d) + RemoveTagsIn(b, d)
    decreases |a|
  {
    if a == [] {
      assert a + b == b;
    } else {
      assert (a + b)[0] == a[0] && (a + b)[1..] == a[1..] + b;
      RemoveHead(a + b, d);
      RemoveHead(a, d);
      RemoveConcat(a[1..], b, d);
      Regroup(Kept(a[0], d), RemoveTagsIn(a[1..], d), RemoveTagsIn(b, d));
    }
  }

  lemma Regroup<T>(a: seq<T>, b: seq<T>, c: seq<T>)
    ensures a + (b + c) == (a + b) + c
  {
  }

  /** What a removal keeps of one top-level node. */
  function Kept(n: RNode, d: Doomed): seq<RNode> {
    if n.Tag? && Hits(d, n.markerIndex) then [] else [RemoveTagsOf(n, d)]
  }

  lemma RemoveHead(a: seq<RNode>, d: Doomed)
    requires a != []
    ensures RemoveTagsIn(a, d) == Kept(a[0], d) + RemoveTagsIn(a[1..], d)
  {
  }

  // ----------------------------------------------------------- insertion

  /** Where a new tag goes: before the top-level child at `pos` when the caret
      is in the field, at the end otherwise. */
  datatype Caret = AtChild(pos: nat) | Outside

  predicate CaretFits(ns: seq<RNode>, c: Caret) {
    c.AtChild? ==> c.pos <= |ns|
  }

  /** The caret position as an index into the top-level children. */
  function CaretPos(ns: seq<RNode>, c: Caret): (p: nat)
    requires CaretFits(ns, c)
    ensures p <= |ns|
  {
    if c.AtChild? then c.pos else |ns|
  }

  /** `_insertMarkerTag`'s change to the field: one tag more, at the caret. */
  function InsertTag(ns: seq<RNode>, c: Caret, index: nat): seq<RNode>
    requires CaretFits(ns, c)
  {
    var p := CaretPos(ns, c);
    ns[..p] + [Tag(index)] + ns[p..]
  }

  /** The inserted tag's number lands among the others at the caret, the
      text is untouched, and removing every tag undoes the insertion. */
  lemma InsertTagEffect(ns: seq<RNode>, c: Caret, index: nat)
    requires CaretFits(ns, c)
    ensures var p := CaretPos(ns, c);
      var r := InsertTag(ns, c, index);
      && TagsIn(r) == TagsIn(ns[..p]) + [index] + TagsIn(ns[p..])
      && TextsIn(r) == TextsIn(ns)
      && RemoveTagsIn(r, AllTags) == RemoveTagsIn(ns, AllTags)
  {
    var p := CaretPos(ns, c);
    InsertSplit(ns[..p], ns[p..], index);
    assert ns == ns[..p] + ns[p..];
  }

  /** Deleting the tags of a number the field did not hold before undoes
      the insertion of a tag with that number. */
  lemma InsertThenDelete(ns: seq<RNode>, c: Caret, index: nat)
    requires CaretFits(ns, c) && index !in TagsIn(ns)
    ensures RemoveTagsIn(InsertTag(ns, c, index), TagsNumbered(index)) == ns
  {
    var p := CaretPos(ns, c);
    var a, b, d := ns[..p], ns[p..], TagsNumbered(index);
    assert ns == a + b;
    TagsInConcat(a, b);
    RemoveMissesNothing(a, d);
    RemoveMissesNothing(b, d);
    RemoveConcat(a + [Tag(index)], b, d);
    RemoveConcat(a, [Tag(index)], d);
    RemoveDoomedTag(index, d);
    assert a + [] == a;
  }

  lemma InsertSplit(a: seq<RNode>, b: seq<RNode>, index: nat)
    ensures TagsIn(a + [Tag(index)] + b) == TagsIn(a) + [index] + TagsIn(b)
    ensures TextsIn(a + [Tag(index)] + b) == TextsIn(a + b)
    ensures RemoveTagsIn(a + [Tag(index)] + b, AllTags) == RemoveTagsIn(a + b, AllTags)
  {
    InsertSplitTags(a, b, index);
    InsertSplitTexts(a, b, index);
    InsertSplitRest(a, b, index);
  }

  lemma InsertSplitTags(a: seq<RNode>, b: seq<RNode>, index: nat)
    ensures TagsIn(a + [Tag(index)] + b) == TagsIn(a) + [index] + TagsIn(b)
  {
    var t := [Tag(index)];
    Cons(Tag(index), []);
    TagsInConcat(a + t, b);
    TagsInConcat(a, t);
  }

  lemma InsertSplitTexts(a: seq<RNode>, b: seq<RNode>, index: nat)
    ensures TextsIn(a + [Tag(index)] + b) == TextsIn(a + b)
  {
    var t := [Tag(index)];
    Cons(Tag(index), []);
    TextsInConcat(a + t, b);
    TextsInConcat(a, t);
    TextsInConcat(a, b);
  }

  lemma InsertSplitRest(a: seq<RNode>, b: seq<RNode>, index: nat)
    ensures RemoveTagsIn(a + [Tag(index)] + b, AllTags) == RemoveTagsIn(a + b, AllTags)
  {
    var t := [Tag(index)];
    var ra, rb := RemoveTagsIn(a, AllTags), RemoveTagsIn(b, AllTags);
    calc {
      RemoveTagsIn(a + t + b, AllTags);
      { RemoveConcat(a + t, b, AllTags); }
      RemoveTagsIn(a + t, AllTags) + rb;
      { RemoveConcat(a, t, AllTags); RemoveDoomedTag(index, AllTags); }
      ra + [] + rb;
      { assert ra + [] == ra; }
      ra + rb;
      { RemoveConcat(a, b, AllTags); }
      RemoveTagsIn(a + b, AllTags);
    }
  }

  lemma RemoveDoomedTag(index: nat, d: Doomed)
    requires Hits(d, index)
    ensures RemoveTagsIn([Tag(index)], d) == []
  {
    assert [Tag(index)][1..] == [];
  }

  // ------------------------------------------------------- serialisation

  /** A `DIV` or `P` first ends the current line unless the text is empty or
      already ends with a newline. */
  function BlockBreak(acc: string): string {
    if |acc| > 0 && acc[|acc| - 1] != '\n' then acc + "\n" else acc
  }

  /** The plain text accumulated after visiting node `n` (`processNode`). */
  function EmitOf(acc: string, n: RNode): string
    decreases n
  {
    match n
    case TextNode(s) => acc + s
    case Tag(i) => acc + MarkerText(i)
    case Br => acc + "\n"
    case Element(DivOrP, ch) => EmitIn(BlockBreak(acc), ch)
    case Element(OtherElem, ch) => EmitIn(acc, ch)
  }

  function EmitIn(acc: string, ns: seq<RNode>): string
    decreases ns
  {
    if ns == [] then acc else EmitIn(EmitOf(acc, ns[0]), ns[1..])
  }

  /** The serialiser of `_updatePromptData` before trimming: appends to the
      text built so far, recursing into elements. */
  method Serialize(ns: seq<RNode>, acc: string) returns (out: string)
    ensures out == EmitIn(acc, ns)
    decreases ns
  {
    out := acc;
    var i := 0;
    while i < |ns|
      invariant 0 <= i <= |ns|
      invariant EmitIn(acc, ns) == EmitIn(out, ns[i..])
    {
      assert ns[i..][1..] == ns[i + 1..];
      match ns[i] {
        case TextNode(s) => out := out + s;
        case Tag(index) => out := out + MarkerText(index);
        case Br => out := out + "\n";
        case Element(kind, ch) =>
          if kind == DivOrP && |out| > 0 && out[|out| - 1] != '\n' {
            out := out + "\n";
          }
          out := Serialize(ch, out);
      }
      i := i + 1;
    }
  }

  /** Serialising only ever appends to what was already written. */
  lemma {:induction false} EmitExtends(acc: string, ns: seq<RNode>)
    ensures |acc| <= |EmitIn(acc, ns)| && EmitIn(acc, ns)[..|acc|] == acc
    decreases ns
  {
    if ns != [] {
      var next := EmitOf(acc, ns[0]);
      EmitOfExtends(acc, ns[0]);
      EmitExtends(next, ns[1..]);
      assert EmitIn(acc, ns)[..|next|][..|acc|] == EmitIn(acc, ns)[..|acc|];
    }
  }

  lemma {:induction false} EmitOfExtends(acc: string, n: RNode)
    ensures |acc| <= |EmitOf(acc, n)| && EmitOf(acc, n)[..|acc|] == acc
    decreases n
  {
    match n
    case Element(kind, ch) =>
      var start := if kind == DivOrP then BlockBreak(acc) else acc;
      EmitExtends(start, ch);
      assert EmitOf(acc, n)[..|start|][..|acc|] == EmitOf(acc, n)[..|acc|];
    case _ =>
  }

  /** No two consecutive newlines. */
  predicate NoBlankLine(s: string) {
    forall i :: 0 <= i < |s| - 1 ==> !(s[i] == '\n' && s[i + 1] == '\n')
  }

  /** Nodes that contain no line breaks of their own: no `BR` and no newline
      inside a text node. */
  predicate LineFreeOf(n: RNode)
    decreases n
  {
    match n
    case TextNode(s) => '\n' !in s
    case Br => false
    case Tag(_) => true
    case Element(_, ch) => LineFreeIn(ch)
  }

  predicate LineFreeIn(ns: seq<RNode>)
    decreases ns
  {
    ns == [] || (LineFreeOf(ns[0]) && LineFreeIn(ns[1..]))
  }

  lemma AppendLineFree(a: string, b: string)
    requires NoBlankLine(a) && '\n' !in b
    ensures NoBlankLine(a + b)
  {
    var s := a + b;
    forall i | 0 <= i < |s| - 1 ensures !(s[i] == '\n' && s[i + 1] == '\n') {
      if i + 1 < |a| {
        assert s[i] == a[i] && s[i + 1] == a[i + 1];
      } else {
        assert s[i + 1] == b[i + 1 - |a|];
      }
    }
  }

  lemma BlockBreakKeeps(acc: string)
    requires NoBlankLine(acc)
    ensures NoBlankLine(BlockBreak(acc))
  {
    var s := BlockBreak(acc);
    if s != acc {
      forall i | 0 <= i < |s| - 1 ensures !(s[i] == '\n' && s[i + 1] == '\n') {
        if i + 1 < |acc| {
          assert s[i] == acc[i] && s[i + 1] == acc[i + 1];
        } else {
          assert s[i] == acc[|acc| - 1];
        }
      }
    }
  }

  lemma MarkerTextLineFree(index: nat)
    ensures '\n' !in MarkerText(index)
  {
    var s := MarkerText(index);
    var d := CircledNumber(index);
    forall k | 0 <= k < |s| ensures s[k] != '\n' {
      if k >= 3 {
        assert s[k] == d[k - 3];
      }
    }
  }

  /** Paragraph boundaries never produce a blank line: a `DIV` or `P` adds a
      newline only when the text does not already end with one, so content
      without `BR`s or typed newlines serialises without an empty line. */
  lemma {:induction false} EmitNoBlankLine(acc: string, ns: seq<RNode>)
    requires NoBlankLine(acc) && LineFreeIn(ns)
    ensures NoBlankLine(EmitIn(acc, ns))
    decreases ns
  {
    if ns != [] {
      EmitOfNoBlankLine(acc, ns[0]);
      EmitNoBlankLine(EmitOf(acc, ns[0]), ns[1..]);
    }
  }

  lemma {:induction false} EmitOfNoBlankLine(acc: string, n: RNode)
    requires NoBlankLine(acc) && LineFreeOf(n)
    ensures NoBlankLine(EmitOf(acc, n))
    decreases n
  {
    match n
    case TextNode(s) => AppendLineFree(acc, s);
    case Tag(i) => MarkerTextLineFree(i); AppendLineFree(acc, MarkerText(i));
    case Element(kind, ch) =>
      BlockBreakKeeps(acc);
      EmitNoBlankLine(if kind == DivOrP then BlockBreak(acc) else acc, ch);
  }

  // ---------------------------------------------------------- restoring

  /** `标记点` followed by an ASCII digit starts at position `p` of `s`. */
  predicate MarkerAt(s: string, p: int) {
    && 0 <= p && p + 4 <= |s|
    && s[p] == '标' && s[p + 1] == '记' && s[p + 2] == '点' && IsDigit(s[p + 3])
  }

  /** End of the run of digits starting at `j` (the greedy `\d+`). */
  function DigitEnd(s: string, j: nat): (e: nat)
    requires j <= |s|
    ensures j <= e <= |s| && AllDigits(s[j..e])
    ensures e < |s| ==> !IsDigit(s[e])
    ensures j < |s| && IsDigit(s[j]) ==> e > j
    decreases |s| - j
  {
    if j < |s| && IsDigit(s[j]) then
      var e := DigitEnd(s, j + 1);
      assert forall k :: 0 < k < e - j ==> s[j..e][k] == s[j + 1..e][k - 1];
      e
    else j
  }

  /** `markerRegex.exec(s)` with `lastIndex == from`: the first placeholder
      starting at or after `from`. */
  function FindMarker(s: string, from: nat): (m: Option<nat>)
    requires from <= |s|
    ensures m.Some? ==> from <= m.value && MarkerAt(s, m.value)
    decreases |s| - from
  {
    if from == |s| then None
    else if MarkerAt(s, from) then Some(from)
    else FindMarker(s, from + 1)
  }

  /** The match found is the first placeholder at or after `from`; no match
      means there is none. */
  lemma {:induction false} FindMarkerFirst(s: string, from: nat)
    requires from <= |s|
    ensures FindMarker(s, from).Some? ==> forall q :: from <= q < FindMarker(s, from).value ==> !MarkerAt(s, q)
    ensures FindMarker(s, from).None? ==> forall q :: from <= q ==> !MarkerAt(s, q)
    decreases |s| - from
  {
    if from < |s| && !MarkerAt(s, from) {
      FindMarkerFirst(s, from + 1);
    }
  }

  /** The pieces `_restorePromptContent` appends for `s[last..]`: the text
      before each placeholder (when there is any), a tag carrying the
      placeholder's number, and the text after the last placeholder. */
  function RestoreFrom(s: string, last: nat): seq<RNode>
    requires last <= |s|
    decreases |s| - last
  {
    match FindMarker(s, last)
    case None => if last < |s| then [TextNode(s[last..])] else []
    case Some(p) =>
      var e := DigitEnd(s, p + 3);
      (if p > last then [TextNode(s[last..p])] else []) + [Tag(DigitsValue(s[p + 3..e]))] + RestoreFrom(s, e)
  }

  function Restore(s: string): seq<RNode> {
    RestoreFrom(s, 0)
  }

  /** One round of the parse loop keeps `pieces` a prefix of the result. */
  lemma RestoreAdvance(s: string, last: nat, p: nat, pieces: seq<RNode>)
    requires last <= |s| && FindMarker(s, last) == Some(p)
    ensures var e := DigitEnd(s, p + 3);
      var before := if p > last then [TextNode(s[last..p])] else [];
      pieces + RestoreFrom(s, last) == (pieces + before + [Tag(DigitsValue(s[p + 3..e]))]) + RestoreFrom(s, e)
  {
    RestoreStepAt(s, last, p);
  }

  /** After the last placeholder, the rest of the text is one piece. */
  lemma RestoreTail(s: string, last: nat)
    requires last <= |s| && FindMarker(s, last).None?
    ensures RestoreFrom(s, last) == if last < |s| then [TextNode(s[last..])] else []
  {
  }

  /** The parse loop of `_restorePromptContent`, advancing `lastIndex`
      from match to match. */
  method RestorePieces(promptText: string) returns (pieces: seq<RNode>)
    ensures pieces == Restore(promptText)
  {
    pieces := [];
    var lastIndex := 0;
    var m := FindMarker(promptText, 0);
    while m.Some?
      invariant lastIndex <= |promptText|
      invariant m == FindMarker(promptText, lastIndex)
      invariant pieces + RestoreFrom(promptText, lastIndex) == Restore(promptText)
      decreases |promptText| - lastIndex
    {
      var matchIndex := m.value;
      var before := if matchIndex > lastIndex then [TextNode(promptText[lastIndex..matchIndex])] else [];
      var end := DigitEnd(promptText, matchIndex + 3);
      var tag := Tag(DigitsValue(promptText[matchIndex + 3..end]));
      RestoreAdvance(promptText, lastIndex, matchIndex, pieces);
      pieces := pieces + before + [tag];
      lastIndex := end;
      m := FindMarker(promptText, lastIndex);
    }
    RestoreTail(promptText, lastIndex);
    if lastIndex < |promptText| {
      pieces := pieces + [TextNode(promptText[lastIndex..])];
    }
  }

  /** Content made only of text nodes and tags, as a restore produces. */
  predicate Flat(ps: seq<RNode>) {
    forall i :: 0 <= i < |ps| ==> ps[i].TextNode? || ps[i].Tag?
  }

  /** The plain text of one piece of flat content. */
  function PieceText(n: RNode): string
    requires n.TextNode? || n.Tag?
  {
    if n.TextNode? then n.text else MarkerText(n.markerIndex)
  }

  /** The plain text of flat content: texts verbatim, tags as placeholders. */
  function Render(ps: seq<RNode>): string
    requires Flat(ps)
  {
    if ps == [] then []
    else
      assert forall i :: 0 <= i < |ps| - 1 ==> ps[1..][i] == ps[i + 1];
      PieceText(ps[0]) + Render(ps[1..])
  }

  lemma {:induction false} RenderConcat(a: seq<RNode>, b: seq<RNode>)
    requires Flat(a) && Flat(b)
    ensures Flat(a + b) && Render(a + b) == Render(a) + Render(b)
    decreases |a|
  {
    if a == [] {
      assert a + b == b;
    } else {
      assert (a + b)[0] == a[0] && (a + b)[1..] == a[1..] + b;
      assert Flat(a[1..]) by {
        assert forall i :: 0 <= i < |a| - 1 ==> a[1..][i] == a[i + 1];
      }
      RenderConcat(a[1..], b);
    }
  }

  /** On flat content the serialiser writes exactly the rendered text. */
  lemma {:induction false} EmitFlat(acc: string, ps: seq<RNode>)
    requires Flat(ps)
    ensures EmitIn(acc, ps) == acc + Render(ps)
    decreases |ps|
  {
    if ps != [] {
      var rest := ps[1..];
      assert Flat(rest) by {
        assert forall i :: 0 <= i < |ps| - 1 ==> rest[i] == ps[i + 1];
      }
      var head := PieceText(ps[0]);
      var acc' := EmitOf(acc, ps[0]);
      EmitPiece(acc, ps[0]);
      assert EmitIn(acc, ps) == EmitIn(acc', rest);
      EmitFlat(acc', rest);
      var tail := Render(rest);
      assert Render(ps) == head + tail;
      assert acc + head + tail == acc + (head + tail);
    }
  }

  lemma EmitPiece(acc: string, n: RNode)
    requires n.TextNode? || n.Tag?
    ensures EmitOf(acc, n) == acc + PieceText(n)
  {
  }

  /** No placeholder number in `s` is written with a leading zero. */
  predicate NoPaddedMarker(s: string) {
    forall p :: 0 <= p < |s| && MarkerAt(s, p) && s[p + 3] == '0' ==> p + 4 == |s| || !IsDigit(s[p + 4])
  }

  /** The placeholder found at `p` is rewritten verbatim by its tag. */
  lemma MarkerRoundTrip(s: string, p: nat)
    requires MarkerAt(s, p) && NoPaddedMarker(s)
    ensures var e := DigitEnd(s, p + 3);
      MarkerText(DigitsValue(s[p + 3..e])) == s[p..e]
  {
    var e := DigitEnd(s, p + 3);
    var d := s[p + 3..e];
    assert d[0] == s[p + 3];
    if |d| > 1 {
      assert d[1] == s[p + 4];
    }
    NatToStringOfValue(d);
    assert s[p..e] == s[p..p + 3] + d;
    assert s[p..p + 3] == MARKER_WORD;
  }

  lemma RestoreStepAt(s: string, last: nat, p: nat)
    requires last <= |s| && FindMarker(s, last) == Some(p)
    ensures p + 3 <= |s|
    ensures RestoreFrom(s, last)
      == (if p > last then [TextNode(s[last..p])] else [])
         + [Tag(DigitsValue(s[p + 3..DigitEnd(s, p + 3)]))] + RestoreFrom(s, DigitEnd(s, p + 3))
  {
  }

  lemma RenderOne(n: RNode)
    requires n.TextNode? || n.Tag?
    ensures Flat([n])
    ensures Render([n]) == if n.TextNode? then n.text else MarkerText(n.markerIndex)
  {
    assert [n][1..] == [];
  }

  /** Writing the restored pieces back gives the restored text. */
  lemma {:induction false} RenderRestoreFrom(s: string, last: nat)
    requires last <= |s| && NoPaddedMarker(s)
    ensures Flat(RestoreFrom(s, last)) && Render(RestoreFrom(s, last)) == s[last..]
    decreases |s| - last
  {
    var m := FindMarker(s, last);
    if m.None? {
      if last < |s| {
        RenderOne(TextNode(s[last..]));
      }
    } else {
      var p := m.value;
      var e := DigitEnd(s, p + 3);
      RestoreStepAt(s, last, p);
      RenderRestoreFrom(s, e);
      RenderJoin(s, last, p, RestoreFrom(s, e));
    }
  }

  /** The text before a placeholder, the placeholder's tag and pieces that
      render the rest render everything from `last` on. */
  lemma RenderJoin(s: string, last: nat, p: nat, rest: seq<RNode>)
    requires last <= p && MarkerAt(s, p) && NoPaddedMarker(s)
    requires Flat(rest) && Render(rest) == s[DigitEnd(s, p + 3)..]
    ensures var e := DigitEnd(s, p + 3);
      var pieces := (if p > last then [TextNode(s[last..p])] else []) + [Tag(DigitsValue(s[p + 3..e]))] + rest;
      Flat(pieces) && Render(pieces) == s[last..]
  {
    var e := DigitEnd(s, p + 3);
    var before: seq<RNode> := if p > last then [TextNode(s[last..p])] else [];
    var tag := Tag(DigitsValue(s[p + 3..e]));
    MarkerRoundTrip(s, p);
    RenderOne(tag);
    assert Flat(before) && Render(before) == s[last..p] by {
      if p > last {
        RenderOne(TextNode(s[last..p]));
      }
    }
    RenderConcat(before, [tag]);
    RenderConcat(before + [tag], rest);
    var rb, rt, rr := Render(before), Render([tag]), Render(rest);
    assert Render(before + [tag] + rest) == rb + rt + rr;
    assert rb == s[last..p] && rt == s[p..e] && rr == s[e..];
    SliceSplit(s, last, p, e);
  }

  lemma SliceSplit(s: string, i: nat, j: nat, k: nat)
    requires i <= j <= k <= |s|
    ensures s[i..j] + s[j..k] + s[k..] == s[i..]
  {
  }

  /** `_updatePromptData`'s result: the field serialised from an empty
      text, then trimmed. */
  function PromptOf(ns: seq<RNode>): string {
    Trim(JsSpace, EmitIn("", ns))
  }

  /** Serialising restored content gives the trimmed input back. */
  lemma SerializeRestored(s: string)
    requires NoPaddedMarker(s)
    ensures PromptOf(Restore(s)) == Trim(JsSpace, s)
  {
    RenderRestoreFrom(s, 0);
    EmitFlat("", Restore(s));
    assert s[0..] == s;
    assert "" + Render(Restore(s)) == s;
  }

  // ------------------------------------ the normal form of restored content

  /** No placeholder anywhere in `t`. */
  predicate NoMarkerIn(t: string) {
    forall q :: 0 <= q < |t| ==> !MarkerAt(t, q)
  }

  /** Flat content in the form a restore produces: every text piece is
      non-empty and holds no placeholder, no two text pieces are adjacent,
      and a text piece after a tag does not start with a digit. */
  predicate Normal(ps: seq<RNode>) {
    && Flat(ps)
    && (forall i :: 0 <= i < |ps| && ps[i].TextNode? ==> ps[i].text != [] && NoMarkerIn(ps[i].text))
    && (forall i :: 0 < i < |ps| && ps[i].TextNode? ==> ps[i - 1].Tag? && !IsDigit(ps[i].text[0]))
  }

  lemma MarkerAtSlice(s: string, a: nat, b: nat, q: nat)
    requires a <= b <= |s|
    ensures MarkerAt(s[a..b], q) <==> (q + 4 <= b - a && MarkerAt(s, a + q))
  {
    if q + 4 <= b - a {
      assert s[a..b][q] == s[a + q] && s[a..b][q + 1] == s[a + q + 1];
      assert s[a..b][q + 2] == s[a + q + 2] && s[a..b][q + 3] == s[a + q + 3];
    }
  }

  lemma FindMarkerIs(s: string, from: nat, k: nat)
    requires from <= k <= |s| && MarkerAt(s, k)
    requires forall q :: from <= q < k ==> !MarkerAt(s, q)
    ensures FindMarker(s, from) == Some(k)
  {
    FindMarkerFirst(s, from);
  }

  lemma FindMarkerNone(s: string, from: nat)
    requires from <= |s|
    requires forall q :: from <= q < |s| ==> !MarkerAt(s, q)
    ensures FindMarker(s, from) == None
  {
    FindMarkerFirst(s, from);
  }

  lemma {:induction false} DigitEndIs(s: string, j: nat, k: nat)
    requires j <= k <= |s| && AllDigits(s[j..k]) && (k < |s| ==> !IsDigit(s[k]))
    ensures DigitEnd(s, j) == k
    decreases k - j
  {
    if j < k {
      assert s[j] == s[j..k][0];
      assert s[j + 1..k] == s[j..k][1..];
      DigitEndIs(s, j + 1, k);
    }
  }

  /** A tag's placeholder written at `k` is a placeholder. */
  lemma MarkerTextStarts(s: string, k: nat, n: nat)
    requires k + |MarkerText(n)| <= |s| && s[k..k + |MarkerText(n)|] == MarkerText(n)
    ensures MarkerAt(s, k)
  {
    var d := CircledNumber(n);
    var t := MarkerText(n);
    var m := k + |t|;
    assert t == MARKER_WORD + d && |t| == 3 + |d|;
    assert s[k] == t[0] == '标' by { assert s[k] == s[k..m][0]; }
    assert s[k + 1] == t[1] == '记' by { assert s[k + 1] == s[k..m][1]; }
    assert s[k + 2] == t[2] == '点' by { assert s[k + 2] == s[k..m][2]; }
    assert s[k + 3] == t[3] == d[0] by { assert s[k + 3] == s[k..m][3]; }
  }

  /** A tag's placeholder written at `k` and followed by a non-digit (or the
      end) is read back as that tag. */
  lemma MarkerTextAt(s: string, k: nat, n: nat)
    requires k + |MarkerText(n)| <= |s| && s[k..k + |MarkerText(n)|] == MarkerText(n)
    requires k + |MarkerText(n)| < |s| ==> !IsDigit(s[k + |MarkerText(n)|])
    ensures MarkerAt(s, k)
    ensures DigitEnd(s, k + 3) == k + |MarkerText(n)|
    ensures DigitsValue(s[k + 3..k + |MarkerText(n)|]) == n
  {
    var d := CircledNumber(n);
    var t := MarkerText(n);
    var m := k + |t|;
    MarkerTextStarts(s, k, n);
    CircledNumberValue(n);
    assert t == MARKER_WORD + d && |t| == 3 + |d|;
    assert s[k + 3..m] == d by { assert s[k + 3..m] == s[k..m][3..] == t[3..]; }
    DigitEndIs(s, k + 3, m);
  }

  lemma NormalTail(ps: seq<RNode>)
    requires Normal(ps) && ps != []
    ensures Normal(ps[1..])
  {
    assert forall i :: 0 <= i < |ps| - 1 ==> ps[1..][i] == ps[i + 1];
  }

  /** A placeholder at `k` that is not followed by a digit is read back as
      one tag, after which reading resumes right behind it. */
  lemma TagStep(s: string, k: nat, n: nat)
    requires k + |MarkerText(n)| <= |s| && s[k..k + |MarkerText(n)|] == MarkerText(n)
    requires k + |MarkerText(n)| < |s| ==> !IsDigit(s[k + |MarkerText(n)|])
    ensures MarkerAt(s, k)
    ensures RestoreFrom(s, k) == [Tag(n)] + RestoreFrom(s, k + |MarkerText(n)|)
  {
    var m := k + |MarkerText(n)|;
    MarkerTextAt(s, k, n);
    FindMarkerIs(s, k, k);
    RestoreStepAt(s, k, k);
    var e := DigitEnd(s, k + 3);
    assert e == m;
    assert Tag(DigitsValue(s[k + 3..e])) == Tag(n);
  }

  /** A non-empty text without placeholders, ending at the end of `s` or
      at a placeholder, is read back as one text piece. */
  lemma TextStep(s: string, last: nat, k: nat)
    requires last < k <= |s| && NoMarkerIn(s[last..k])
    requires k < |s| ==> MarkerAt(s, k)
    ensures RestoreFrom(s, last) == [TextNode(s[last..k])] + RestoreFrom(s, k)
  {
    NoMarkerInSlice(s, last, k);
    if k == |s| {
      TextStepEnd(s, last);
    } else {
      TextStepMarker(s, last, k);
    }
  }

  /** The placeholders of a slice are those of `s` lying inside it. */
  lemma NoMarkerInSlice(s: string, a: nat, b: nat)
    requires a <= b <= |s| && NoMarkerIn(s[a..b])
    ensures forall q :: a <= q && q + 4 <= b ==> !MarkerAt(s, q)
  {
    forall q | a <= q && q + 4 <= b ensures !MarkerAt(s, q) {
      MarkerAtSlice(s, a, b, q - a);
    }
  }

  lemma TextStepEnd(s: string, last: nat)
    requires last < |s| && forall q :: last <= q && q + 4 <= |s| ==> !MarkerAt(s, q)
    ensures RestoreFrom(s, last) == [TextNode(s[last..|s|])] + RestoreFrom(s, |s|)
  {
    FindMarkerNone(s, last);
    FindMarkerNone(s, |s|);
    assert s[last..] == s[last..|s|];
  }

  lemma TextStepMarker(s: string, last: nat, k: nat)
    requires last < k < |s| && MarkerAt(s, k)
    requires forall q :: last <= q && q + 4 <= k ==> !MarkerAt(s, q)
    ensures RestoreFrom(s, last) == [TextNode(s[last..k])] + RestoreFrom(s, k)
  {
    FindMarkerIs(s, last, k);
    FindMarkerIs(s, k, k);
    RestoreStepAt(s, last, k);
    RestoreStepAt(s, k, k);
    var e := DigitEnd(s, k + 3);
    var tag, rest := [Tag(DigitsValue(s[k + 3..e]))], RestoreFrom(s, e);
    assert RestoreFrom(s, k) == tag + rest;
    Regroup([TextNode(s[last..k])], tag, rest);
  }

  /** What follows the first piece of a rendering, when anything does. */
  lemma NextPiece(s: string, k: nat, rest: seq<RNode>)
    requires k < |s| && Normal(rest) && s[k..] == Render(rest)
    ensures rest != []
    ensures rest[0].Tag? ==> MarkerAt(s, k)
    ensures rest[0].TextNode? ==> s[k] == rest[0].text[0]
  {
    assert rest != [] by {
      assert s[k..] != [];
    }
    RenderCons(rest);
    var h := PieceText(rest[0]);
    SuffixSplit(s, k, h, Render(rest[1..]));
    if rest[0].Tag? {
      MarkerTextStarts(s, k, rest[0].markerIndex);
    } else {
      assert h != [];
      assert s[k] == s[k..k + |h|][0];
    }
  }

  /** Splits the rendering of `ps` after its first piece. */
  lemma RenderSplit(s: string, last: nat, ps: seq<RNode>) returns (k: nat)
    requires last <= |s| && Flat(ps) && ps != [] && s[last..] == Render(ps)
    ensures Flat(ps[1..])
    ensures last <= k <= |s| && s[last..k] == PieceText(ps[0]) && s[k..] == Render(ps[1..])
  {
    RenderCons(ps);
    var head := PieceText(ps[0]);
    k := last + |head|;
    SuffixSplit(s, last, head, Render(ps[1..]));
  }

  lemma RenderCons(ps: seq<RNode>)
    requires Flat(ps) && ps != []
    ensures Flat(ps[1..]) && Render(ps) == PieceText(ps[0]) + Render(ps[1..])
  {
    assert forall i :: 0 <= i < |ps| - 1 ==> ps[1..][i] == ps[i + 1];
  }

  /** A suffix of `s` that is `h + t` splits `s` after `h`. */
  lemma SuffixSplit(s: string, last: nat, h: string, t: string)
    requires last <= |s| && s[last..] == h + t
    ensures last + |h| <= |s| && s[last..last + |h|] == h && s[last + |h|..] == t
  {
    assert s[last..last + |h|] == s[last..][..|h|];
    assert s[last + |h|..] == s[last..][|h|..];
  }

  /** One step of reading back a rendering: the first piece, a tag. */
  lemma RestoreRenderTag(s: string, last: nat, k: nat, ps: seq<RNode>)
    requires Normal(ps) && ps != [] && ps[0].Tag?
    requires last <= k <= |s| && s[k..] == Render(ps[1..])
    requires s[last..k] == PieceText(ps[0])
    requires RestoreFrom(s, k) == ps[1..]
    ensures RestoreFrom(s, last) == ps
  {
    var n, tail := ps[0].markerIndex, ps[1..];
    assert s[last..k] == MarkerText(n);
    if k < |s| {
      AfterTag(s, k, ps);
    }
    TagRead(s, last, k, n, tail);
    assert ps == [Tag(n)] + tail;
  }

  /** In normal content, what is rendered right after a tag does not start
      with a digit. */
  lemma AfterTag(s: string, k: nat, ps: seq<RNode>)
    requires Normal(ps) && ps != [] && ps[0].Tag?
    requires k < |s| && s[k..] == Render(ps[1..])
    ensures !IsDigit(s[k])
  {
    NormalTail(ps);
    NextPiece(s, k, ps[1..]);
    assert ps[1..][0] == ps[1];
    if ps[1].Tag? {
      assert s[k] == '标';
    } else {
      assert s[k] == ps[1].text[0] && !IsDigit(ps[1].text[0]);
    }
  }

  lemma TagRead(s: string, last: nat, k: nat, n: nat, tail: seq<RNode>)
    requires k == last + |MarkerText(n)| && k <= |s| && s[last..k] == MarkerText(n)
    requires k < |s| ==> !IsDigit(s[k])
    requires RestoreFrom(s, k) == tail
    ensures RestoreFrom(s, last) == [Tag(n)] + tail
  {
    TagStep(s, last, n);
  }

  /** One step of reading back a rendering: the first piece, a text. */
  lemma RestoreRenderText(s: string, last: nat, k: nat, ps: seq<RNode>)
    requires Normal(ps) && ps != [] && ps[0].TextNode?
    requires last <= k <= |s| && s[k..] == Render(ps[1..])
    requires s[last..k] == PieceText(ps[0])
    requires RestoreFrom(s, k) == ps[1..]
    ensures RestoreFrom(s, last) == ps
  {
    var t, tail := ps[0].text, ps[1..];
    assert t != [] && NoMarkerIn(t);
    if k < |s| {
      AfterText(s, k, ps);
    }
    TextRead(s, last, k, t, tail);
    assert ps == [TextNode(t)] + tail;
  }

  /** In normal content, a text is followed by a tag or by nothing. */
  lemma AfterText(s: string, k: nat, ps: seq<RNode>)
    requires Normal(ps) && ps != [] && ps[0].TextNode?
    requires k < |s| && s[k..] == Render(ps[1..])
    ensures MarkerAt(s, k)
  {
    NormalTail(ps);
    NextPiece(s, k, ps[1..]);
    assert ps[1..][0] == ps[1];
  }

  lemma TextRead(s: string, last: nat, k: nat, t: string, tail: seq<RNode>)
    requires last <= k <= |s| && s[last..k] == t && t != [] && NoMarkerIn(t)
    requires k < |s| ==> MarkerAt(s, k)
    requires RestoreFrom(s, k) == tail
    ensures RestoreFrom(s, last) == [TextNode(t)] + tail
  {
    TextStep(s, last, k);
  }

  /** Restoring the rendering of normal content gives the content back. */
  lemma {:induction false} RestoreRenderFrom(s: string, last: nat, ps: seq<RNode>)
    requires last <= |s| && Normal(ps) && s[last..] == Render(ps)
    ensures RestoreFrom(s, last) == ps
    decreases |ps|
  {
    if ps == [] {
      FindMarkerNone(s, last);
    } else {
      var k := RenderSplit(s, last, ps);
      NormalTail(ps);
      RestoreRenderFrom(s, k, ps[1..]);
      if ps[0].Tag? {
        RestoreRenderTag(s, last, k, ps);
      } else {
        RestoreRenderText(s, last, k, ps);
      }
    }
  }

  lemma RestoreOfRender(ps: seq<RNode>)
    requires Normal(ps)
    ensures Restore(Render(ps)) == ps
  {
    var s := Render(ps);
    assert s[0..] == s;
    RestoreRenderFrom(s, 0, ps);
  }

  /** Two normal pieces of content join into normal content when the seam
      is a tag followed by a piece that does not start with a digit. */
  lemma NormalCons(head: RNode, rest: seq<RNode>)
    requires Normal(rest) && (head.Tag? || (head.TextNode? && head.text != [] && NoMarkerIn(head.text)))
    requires rest != [] && rest[0].TextNode? ==> head.Tag? && !IsDigit(rest[0].text[0])
    ensures Normal([head] + rest)
  {
    var ps := [head] + rest;
    assert forall i :: 0 < i < |ps| ==> ps[i] == rest[i - 1];
  }

  /** One step of a restore keeps the normal form. */
  lemma NormalStep(pre: seq<RNode>, v: nat, rest: seq<RNode>)
    requires pre == [] || (|pre| == 1 && pre[0].TextNode? && pre[0].text != [] && NoMarkerIn(pre[0].text))
    requires Normal(rest) && (rest != [] && rest[0].TextNode? ==> !IsDigit(rest[0].text[0]))
    ensures Normal(pre + [Tag(v)] + rest)
  {
    NormalCons(Tag(v), rest);
    if pre != [] {
      NormalCons(pre[0], [Tag(v)] + rest);
      assert pre + [Tag(v)] + rest == [pre[0]] + ([Tag(v)] + rest);
    }
  }

  lemma NoMarkerBetween(s: string, a: nat, b: nat)
    requires a <= b <= |s| && forall q :: a <= q < b ==> !MarkerAt(s, q)
    ensures NoMarkerIn(s[a..b])
  {
    forall q | 0 <= q < b - a ensures !MarkerAt(s[a..b], q) {
      MarkerAtSlice(s, a, b, q);
    }
  }

  /** Restore's output is always in normal form, and when it starts with a
      text piece that piece starts with the first character read. */
  lemma {:induction false} RestoreNormalFrom(s: string, last: nat)
    requires last <= |s|
    ensures Normal(RestoreFrom(s, last))
    ensures RestoreFrom(s, last) != [] && RestoreFrom(s, last)[0].TextNode? ==>
      last < |s| && RestoreFrom(s, last)[0].text[0] == s[last]
    decreases |s| - last
  {
    FindMarkerFirst(s, last);
    match FindMarker(s, last)
    case None =>
      if last < |s| {
        NoMarkerBetween(s, last, |s|);
        assert s[last..|s|] == s[last..];
        NormalCons(TextNode(s[last..]), []);
        assert [TextNode(s[last..])] + [] == RestoreFrom(s, last);
      }
    case Some(p) =>
      var e := DigitEnd(s, p + 3);
      RestoreNormalFrom(s, e);
      var pre: seq<RNode> := if p > last then [TextNode(s[last..p])] else [];
      if p > last {
        NoMarkerBetween(s, last, p);
      }
      NormalStep(pre, DigitsValue(s[p + 3..e]), RestoreFrom(s, e));
      RestoreStepAt(s, last, p);
  }

  lemma RestoreNormal(s: string)
    ensures Normal(Restore(s))
  {
    RestoreNormalFrom(s, 0);
  }
}
