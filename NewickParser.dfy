/**
 * A reader for the Newick text `write2newick` emits, used to state what the
 * text encodes: the tree shape with names and branch lengths, in text order.
 */
module NewickParser {
  import opened Wrappers
  import opened Sequences
  import opened LinkageTree
  import opened Decimal
  import opened Newick

  /** A tree as a Newick reader sees it; the root may go without a length. */
  datatype Parsed =
    | Tip(name: string, length: int)
    | Inner(first: Parsed, second: Parsed, branch: Option<int>)

  /** The longest prefix free of structural characters, and what follows it. */
  function Token(s: string): (r: (string, string))
    ensures r.0 + r.1 == s && PlainLabel(r.0)
    ensures r.1 == [] || IsReserved(r.1[0])
  {
    if |s| == 0 || IsReserved(s[0]) then ("", s)
    else
      var (a, b) := Token(s[1..]);
      ([s[0]] + a, b)
  }

  lemma {:induction false} TokenSplits(a: string, b: string)
    requires PlainLabel(a) && (b == [] || IsReserved(b[0]))
    ensures Token(a + b) == (a, b)
  {
    if a == [] {
      assert a + b == b;
    } else {
      assert (a + b)[1..] == a[1..] + b;
      TokenSplits(a[1..], b);
      assert [a[0]] + a[1..] == a;
    }
  }

  /** Reads one subtree with its branch length from the front of `s`. */
  function ParseClade(s: string): (r: Option<(Parsed, string)>)
    ensures r.Some? ==> |r.value.1| < |s|
    decreases |s|, 1
  {
    if |s| == 0 then None
    else if s[0] == '(' then ParseInner(s)
    else ParseTip(s)
  }

  /** "(" first "," second ")" and an optional ":length". */
  function ParseInner(s: string): (r: Option<(Parsed, string)>)
    requires |s| > 0 && s[0] == '('
    ensures r.Some? ==> |r.value.1| < |s|
    decreases |s|, 0
  {
    match ParseClade(s[1..])
    case None => None
    case Some((first, r1)) =>
      if |r1| == 0 || r1[0] != ',' then None
      else
        match ParseClade(r1[1..])
        case None => None
        case Some((second, r2)) => CloseInner(first, second, r2)
  }

  function CloseInner(first: Parsed, second: Parsed, s: string): (r: Option<(Parsed, string)>)
    ensures r.Some? ==> |r.value.1| < |s|
  {
    if |s| == 0 || s[0] != ')' then None
    else if |s| > 1 && s[1] == ':' then
      match ReadLength(s[2..])
      case None => None
      case Some((len, rest)) => Some((Inner(first, second, Some(len)), rest))
    else Some((Inner(first, second, None), s[1..]))
  }

  /** "name:length". */
  function ParseTip(s: string): (r: Option<(Parsed, string)>)
    ensures r.Some? ==> |r.value.1| < |s|
  {
    var (name, r1) := Token(s);
    if |r1| == 0 || r1[0] != ':' then None
    else
      match ReadLength(r1[1..])
      case None => None
      case Some((len, rest)) => Some((Tip(name, len), rest))
  }

  function ReadLength(s: string): (r: Option<(int, string)>)
    ensures r.Some? ==> |r.value.1| <= |s|
  {
    var (num, rest) := Token(s);
    match ParseHundredths(num)
    case None => None
    case Some(len) => Some((len, rest))
  }

  /** A whole tree: one subtree followed by the terminating ";". */
  function Parse(s: string): Option<Parsed>
  {
    match ParseClade(s)
    case None => None
    case Some((p, rest)) => if rest == ";" then Some(p) else None
  }

  /** What the text of a non-root subtree should read back as. */
  function Shape(t: Tree, parentDist: int, names: seq<string>): Parsed
    requires LeafIdsBelow(t, |names|)
  {
    match t
    case Leaf(i) => Tip(names[i], parentDist)
    case Node(l, r, d) => Inner(Shape(r, d, names), Shape(l, d, names), Some(parentDist - d))
  }

  /** What the whole text should read back as: the root has no length. */
  function RootShape(t: Tree, names: seq<string>): Parsed
    requires LeafIdsBelow(t, |names|)
  {
    match t
    case Leaf(i) => Tip(names[i], 0)
    case Node(l, r, d) => Inner(Shape(r, d, names), Shape(l, d, names), None)
  }

  /** The leaf names in the order the text lists them. */
  function LeafNames(p: Parsed): seq<string>
  {
    match p
    case Tip(name, _) => [name]
    case Inner(a, b, _) => LeafNames(a) + LeafNames(b)
  }

  /** Every branch length in `p` is at least 0. */
  predicate NonNegativeLengths(p: Parsed)
  {
    match p
    case Tip(_, len) => len >= 0
    case Inner(a, b, len) =>
      (len.Some? ==> len.value >= 0) && NonNegativeLengths(a) && NonNegativeLengths(b)
  }

  /**
   * Summing the branch lengths on the way from the top of `p` down to any
   * leaf gives `h`: the lengths telescope back to the merge distances.
   */
  predicate LeavesAtDistance(p: Parsed, h: int)
  {
    match p
    case Tip(_, len) => len == h
    case Inner(a, b, len) =>
      var below := if len.Some? then h - len.value else h;
      LeavesAtDistance(a, below) && LeavesAtDistance(b, below)
  }

  lemma NumeralIsPlain(num: string)
    requires forall k :: 0 <= k < |num| ==> IsNumeralChar(num[k])
    ensures PlainLabel(num)
  {
  }

  lemma ReadsLength(num: string, len: int, rest: string)
    requires PlainLabel(num) && ParseHundredths(num) == Some(len)
    requires rest == [] || IsReserved(rest[0])
    ensures ReadLength(num + rest) == Some((len, rest))
  {
    TokenSplits(num, rest);
  }

  /** A leaf's "name:length" followed by a structural character reads back as that leaf. */
  lemma TipParses(name: string, num: string, len: int, rest: string)
    requires PlainLabel(name) && ReadLength(num + rest) == Some((len, rest))
    ensures ParseTip(name + ":" + num + rest) == Some((Tip(name, len), rest))
  {
    var s := name + ":" + num + rest;
    var r1 := ":" + num + rest;
    assert s == name + r1;
    TokenSplits(name, r1);
    assert r1[1..] == num + rest;
  }

  lemma TipStartsPlain(name: string, num: string, rest: string)
    requires PlainLabel(name)
    ensures (name + ":" + num + rest)[0] != '('
  {
    if |name| > 0 {
      assert (name + ":" + num + rest)[0] == name[0];
    } else {
      assert (name + ":" + num + rest)[0] == ':';
    }
  }

  /** An opening parenthesis, a subtree, a comma and a subtree read as an inner node up to its close. */
  lemma InnerParsesAt(s: string, r1: string, first: Parsed, second: Parsed, tail: string)
    requires |s| > 0 && s[0] == '(' && ParseClade(s[1..]) == Some((first, r1))
    requires |r1| > 0 && r1[0] == ',' && ParseClade(r1[1..]) == Some((second, tail))
    ensures ParseClade(s) == CloseInner(first, second, tail)
  {
  }

  /** "(" + right + "," + left + tail reads as an inner node once both subtrees read back. */
  lemma InnerParses(cr: string, cl: string, first: Parsed, second: Parsed, tail: string)
    requires ParseClade(cr + ("," + cl + tail)) == Some((first, "," + cl + tail))
    requires ParseClade(cl + tail) == Some((second, tail))
    ensures ParseClade("(" + cr + "," + cl + tail) == CloseInner(first, second, tail)
  {
    var r1 := "," + cl + tail;
    var s := "(" + cr + "," + cl + tail;
    InnerSplits(cr, cl, tail);
    InnerParsesAt(s, r1, first, second, tail);
  }

  lemma InnerSplits(cr: string, cl: string, tail: string)
    ensures var s := "(" + cr + "," + cl + tail;
      |s| > 0 && s[0] == '(' && s[1..] == cr + ("," + cl + tail)
    ensures var r1 := "," + cl + tail;
      |r1| > 0 && r1[0] == ',' && r1[1..] == cl + tail
  {
    var s := "(" + cr + "," + cl + tail;
    assert s == "(" + (cr + ("," + cl + tail));
    var r1 := "," + cl + tail;
    assert r1 == "," + (cl + tail);
  }

  /** A leaf's "name:length" followed by a structural character reads back as that leaf. */
  lemma TipRoundTrip(name: string, num: string, len: int, rest: string)
    requires PlainLabel(name) && PlainLabel(num) && ParseHundredths(num) == Some(len)
    requires rest == [] || IsReserved(rest[0])
    ensures ParseClade(name + ":" + num + rest) == Some((Tip(name, len), rest))
  {
    ReadsLength(num, len, rest);
    TipParses(name, num, len, rest);
    TipStartsPlain(name, num, rest);
  }

  /** A printed length is free of structural characters and reads back as the number printed. */
  lemma PrintedLength(h: int)
    ensures PlainLabel(FormatHundredths(h)) && ParseHundredths(FormatHundredths(h)) == Some(h)
  {
    NumeralIsPlain(FormatHundredths(h));
    FormatRoundTrip(h);
  }

  lemma ClosesWithLength(sr: Parsed, sl: Parsed, num: string, len: int, rest: string)
    requires ReadLength(num + rest) == Some((len, rest))
    ensures CloseInner(sr, sl, "):" + num + rest) == Some((Inner(sr, sl, Some(len)), rest))
  {
    var tail := "):" + num + rest;
    assert tail[2..] == num + rest;
  }

  /** An inner node's text with its length reads back once both subtrees do. */
  lemma InnerRoundTrip(cr: string, cl: string, sr: Parsed, sl: Parsed, num: string, len: int, rest: string)
    requires ParseClade(cr + ("," + cl + ("):" + num + rest))) == Some((sr, "," + cl + ("):" + num + rest)))
    requires ParseClade(cl + ("):" + num + rest)) == Some((sl, "):" + num + rest))
    requires ReadLength(num + rest) == Some((len, rest))
    ensures ParseClade("(" + cr + "," + cl + "):" + num + rest) == Some((Inner(sr, sl, Some(len)), rest))
  {
    var tail := "):" + num + rest;
    InnerParses(cr, cl, sr, sl, tail);
    ClosesWithLength(sr, sl, num, len, rest);
    Regroup("(" + cr + "," + cl, "):", num, rest);
  }

  lemma Regroup(x: string, y: string, z: string, w: string)
    ensures x + (y + z + w) == x + y + z + w
  {
  }

  /** Reading a subtree's text back yields its shape and leaves what follows untouched. */
  lemma {:induction false} CladeRoundTrip(t: Tree, parentDist: int, names: seq<string>, rest: string)
    requires LeafIdsBelow(t, |names|) && PlainNames(names)
    requires rest == [] || IsReserved(rest[0])
    ensures ParseClade(Clade(t, parentDist, names) + rest) == Some((Shape(t, parentDist, names), rest))
  {
    match t
    case Leaf(i) =>
      PrintedLength(parentDist);
      TipRoundTrip(names[i], FormatHundredths(parentDist), parentDist, rest);
    case Node(l, r, d) =>
      var num := FormatHundredths(parentDist - d);
      PrintedLength(parentDist - d);
      ReadsLength(num, parentDist - d, rest);
      var cr, cl := Clade(r, d, names), Clade(l, d, names);
      CladeRoundTrip(r, d, names, "," + cl + ("):" + num + rest));
      CladeRoundTrip(l, d, names, "):" + num + rest);
      InnerRoundTrip(cr, cl, Shape(r, d, names), Shape(l, d, names), num, parentDist - d, rest);
  }

  /** Reading the text of a tree with an internal root gives back the tree's shape. */
  lemma ReadBackTree(t: Tree, names: seq<string>)
    requires LeafIdsBelow(t, |names|) && PlainNames(names)
    requires t.Node?
    ensures Parse(Write2Newick(t, names)) == Some(RootShape(t, names))
  {
    var l, r, d := t.left, t.right, t.dist;
    var cr, cl := Clade(r, d, names), Clade(l, d, names);
    var sr, sl := Shape(r, d, names), Shape(l, d, names);
    var tail := ");";
    WriteIsNewickText(t, names);
    assert Write2Newick(t, names) == "(" + cr + "," + cl + tail;
    CladeRoundTrip(r, d, names, "," + cl + tail);
    CladeRoundTrip(l, d, names, tail);
    Regroup(cr, ",", cl, tail);
    InnerParses(cr, cl, sr, sl, tail);
    RootCloses("(" + cr + "," + cl + tail, sr, sl);
  }

  /** A text whose outermost subtree is closed by ");" reads as a root without length. */
  lemma RootCloses(s: string, first: Parsed, second: Parsed)
    requires ParseClade(s) == CloseInner(first, second, ");")
    ensures Parse(s) == Some(Inner(first, second, None))
  {
    assert ");"[1..] == ";";
  }

  /**
   * A single-leaf tree (which linkage never produces, as it needs two genes)
   * is written without the terminating ";", so it does not read as a tree.
   */
  lemma LeafRootIsUnterminated(t: Tree, names: seq<string>)
    requires LeafIdsBelow(t, |names|) && PlainNames(names)
    requires t.Leaf?
    ensures Parse(Write2Newick(t, names)) == None
  {
    var num := FormatHundredths(0);
    NumeralIsPlain(num);
    FormatRoundTrip(0);
    ReadsLength(num, 0, "");
    TipRoundTrip(names[t.id], num, 0, "");
    assert Write2Newick(t, names) == names[t.id] + ":" + num + "";
  }

  lemma {:induction false} ShapeListsRightFirst(t: Tree, parentDist: int, names: seq<string>)
    requires LeafIdsBelow(t, |names|)
    ensures LeafNames(Shape(t, parentDist, names)) == Reverse(DendrogramLabels(t, names))
  {
    match t
    case Leaf(i) =>
      assert Reverse([names[i]]) == [names[i]] by {
        assert [names[i]][1..] == [];
      }
    case Node(l, r, d) =>
      ShapeListsRightFirst(l, d, names);
      ShapeListsRightFirst(r, d, names);
      ReverseAppend(DendrogramLabels(l, names), DendrogramLabels(r, names));
  }

  /**
   * The text lists the leaf names in the reverse of the dendrogram's leaf
   * order, because each internal node writes its right child first.
   */
  lemma NewickListsLeavesReversed(t: Tree, names: seq<string>)
    requires LeafIdsBelow(t, |names|) && PlainNames(names)
    requires t.Node?
    ensures Parse(Write2Newick(t, names)).Some?
    ensures LeafNames(Parse(Write2Newick(t, names)).value) == Reverse(DendrogramLabels(t, names))
  {
    ReadBackTree(t, names);
    ShapeListsRightFirst(t.left, t.dist, names);
    ShapeListsRightFirst(t.right, t.dist, names);
    ReverseAppend(DendrogramLabels(t.left, names), DendrogramLabels(t.right, names));
  }

  /**
   * Each gene of the tree is named exactly once in the text, and the text
   * names as many genes as the tree has leaves.
   */
  lemma NewickNamesEachLeafOnce(t: Tree, names: seq<string>)
    requires LeafIdsBelow(t, |names|) && PlainNames(names)
    requires t.Node? && DistinctLeaves(t) && NoDuplicates(names)
    ensures Parse(Write2Newick(t, names)).Some?
    ensures var listed := LeafNames(Parse(Write2Newick(t, names)).value);
      |listed| == LeafCount(t) && NoDuplicates(listed)
      && forall i :: i in LeafSet(t) ==> i < |names| && names[i] in listed
  {
    NewickListsLeavesReversed(t, names);
    var labels := DendrogramLabels(t, names);
    DendrogramLabelsDistinct(t, names);
    ReverseKeepsDistinct(labels);
    ReverseIndex(labels);
    LabelsFollowLeafOrder(t, names);
    LeafOrderIsPermutation(t);
    var listed := Reverse(labels);
    forall i | i in LeafSet(t) ensures i < |names| && names[i] in listed {
      var k :| 0 <= k < |LeafOrder(t)| && LeafOrder(t)[k] == i;
      assert listed[|labels| - 1 - k] == labels[k];
    }
  }

  lemma {:induction false} ShapeLengthsNonNegative(t: Tree, parentDist: int, names: seq<string>)
    requires LeafIdsBelow(t, |names|) && Monotone(t) && Dist(t) <= parentDist
    ensures NonNegativeLengths(Shape(t, parentDist, names))
  {
    match t
    case Leaf(_) =>
    case Node(l, r, d) =>
      ShapeLengthsNonNegative(l, d, names);
      ShapeLengthsNonNegative(r, d, names);
  }

  /** When merge distances never decrease towards the root, no written branch length is negative. */
  lemma BranchLengthsNonNegative(t: Tree, names: seq<string>)
    requires LeafIdsBelow(t, |names|) && PlainNames(names) && Monotone(t)
    requires t.Node?
    ensures Parse(Write2Newick(t, names)).Some?
    ensures NonNegativeLengths(Parse(Write2Newick(t, names)).value)
  {
    ReadBackTree(t, names);
    ShapeLengthsNonNegative(t.left, t.dist, names);
    ShapeLengthsNonNegative(t.right, t.dist, names);
  }

  lemma {:induction false} ShapeLeavesAtParentDistance(t: Tree, parentDist: int, names: seq<string>)
    requires LeafIdsBelow(t, |names|)
    ensures LeavesAtDistance(Shape(t, parentDist, names), parentDist)
  {
    match t
    case Leaf(_) =>
    case Node(l, r, d) =>
      ShapeLeavesAtParentDistance(l, d, names);
      ShapeLeavesAtParentDistance(r, d, names);
  }

  /**
   * The written lengths determine the merge distances: from the root down to
   * any leaf they add up to the root's merge distance, and likewise below
   * every internal node.
   */
  lemma BranchLengthsAddUpToMergeDistance(t: Tree, names: seq<string>)
    requires LeafIdsBelow(t, |names|) && PlainNames(names)
    requires t.Node?
    ensures Parse(Write2Newick(t, names)).Some?
    ensures LeavesAtDistance(Parse(Write2Newick(t, names)).value, t.dist)
  {
    ReadBackTree(t, names);
    ShapeLeavesAtParentDistance(t.left, t.dist, names);
    ShapeLeavesAtParentDistance(t.right, t.dist, names);
  }
}
