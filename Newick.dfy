/**
 * `getNewick` and `write2newick` of pages/2_Experiment_Selection.py: the
 * clustering tree written as Newick text, with branch lengths printed to two
 * decimals.
 */
module Newick {
  import opened LinkageTree
  import opened Decimal

  /** The characters that structure Newick text. */
  predicate IsReserved(c: char)
  {
    c == '(' || c == ')' || c == ',' || c == ':' || c == ';'
  }

  /** A gene name that contains none of Newick's structural characters. */
  predicate PlainLabel(s: string)
  {
    forall k :: 0 <= k < |s| ==> !IsReserved(s[k])
  }

  predicate PlainNames(names: seq<string>)
  {
    forall i :: 0 <= i < |names| ==> PlainLabel(names[i])
  }

  /**
   * `getNewick(node, newick, parentdist, leaf_names)`: the text of `t` is put
   * in front of the suffix `newick` built so far.  A leaf writes its name and
   * the distance from its parent; an internal node first closes itself (with
   * its own branch length, or with ");" when the suffix is empty, which only
   * the root sees), then prepends its left subtree, a comma and its right
   * subtree, and finally the opening parenthesis.
   */
  function GetNewick(t: Tree, newick: string, parentDist: int, names: seq<string>): string
    requires LeafIdsBelow(t, |names|)
  {
    match t
    case Leaf(i) => names[i] + ":" + FormatHundredths(parentDist - 0) + newick
    case Node(l, r, d) =>
      var closed := if |newick| > 0 then "):" + FormatHundredths(parentDist - d) + newick else ");";
      var withLeft := GetNewick(l, closed, d, names);
      var withRight := GetNewick(r, "," + withLeft, d, names);
      "(" + withRight
  }

  /** `write2newick`: the whole tree, started with an empty suffix and the root's own distance. */
  function Write2Newick(t: Tree, names: seq<string>): string
    requires LeafIdsBelow(t, |names|)
  {
    GetNewick(t, "", Dist(t), names)
  }

  /**
   * The text of a non-root subtree hanging below a merge at `parentDist`,
   * defined directly: the right child is written before the left one, and
   * the branch length is the parent's distance minus the node's own.
   */
  function Clade(t: Tree, parentDist: int, names: seq<string>): string
    requires LeafIdsBelow(t, |names|)
  {
    match t
    case Leaf(i) => names[i] + ":" + FormatHundredths(parentDist)
    case Node(l, r, d) =>
      "(" + Clade(r, d, names) + "," + Clade(l, d, names) + "):" + FormatHundredths(parentDist - d)
  }

  /** The text of the whole tree: an internal root carries no length and is closed by ";". */
  function NewickText(t: Tree, names: seq<string>): string
    requires LeafIdsBelow(t, |names|)
  {
    match t
    case Leaf(_) => Clade(t, 0, names)
    case Node(l, r, d) => "(" + Clade(r, d, names) + "," + Clade(l, d, names) + ");"
  }

  /** Threading a non-empty suffix through `getNewick` only prepends the subtree's own text. */
  lemma {:induction false} AccumulatorPrependsClade(t: Tree, newick: string, parentDist: int, names: seq<string>)
    requires LeafIdsBelow(t, |names|)
    requires |newick| > 0
    ensures GetNewick(t, newick, parentDist, names) == Clade(t, parentDist, names) + newick
  {
    match t
    case Leaf(i) =>
    case Node(l, r, d) =>
      var len := FormatHundredths(parentDist - d);
      var closed := "):" + len + newick;
      AccumulatorPrependsClade(l, closed, d, names);
      var withLeft := GetNewick(l, closed, d, names);
      AccumulatorPrependsClade(r, "," + withLeft, d, names);
      var cr, cl := Clade(r, d, names), Clade(l, d, names);
      assert GetNewick(t, newick, parentDist, names) == "(" + (cr + ("," + (cl + closed)));
      assert Clade(t, parentDist, names) == "(" + cr + "," + cl + "):" + len;
      SeqAssoc5("(", cr, ",", cl, "):", len, newick);
  }

  lemma SeqAssoc5(a: string, b: string, c: string, d: string, e: string, f: string, g: string)
    ensures a + (b + (c + (d + (e + f + g)))) == a + b + c + d + e + f + g
  {
  }

  /** `write2newick` produces exactly the directly defined tree text. */
  lemma WriteIsNewickText(t: Tree, names: seq<string>)
    requires LeafIdsBelow(t, |names|)
    ensures Write2Newick(t, names) == NewickText(t, names)
  {
    match t
    case Leaf(i) =>
    case Node(l, r, d) =>
      var withLeft := GetNewick(l, ");", d, names);
      AccumulatorPrependsClade(l, ");", d, names);
      var withRight := GetNewick(r, "," + withLeft, d, names);
      AccumulatorPrependsClade(r, "," + withLeft, d, names);
      assert Write2Newick(t, names) == "(" + withRight;
      RootAssoc(Clade(r, d, names), Clade(l, d, names));
  }

  lemma RootAssoc(cr: string, cl: string)
    ensures "(" + (cr + ("," + (cl + ");"))) == "(" + cr + "," + cl + ");"
  {
  }

  /** An internal root ends the text with ");" and so carries no branch length of its own. */
  lemma RootIsClosedBySemicolon(t: Tree, names: seq<string>)
    requires LeafIdsBelow(t, |names|)
    requires t.Node?
    ensures var s := Write2Newick(t, names);
      |s| >= 2 && s[|s| - 2..] == ");"
      && s == "(" + Clade(t.right, t.dist, names) + "," + Clade(t.left, t.dist, names) + ");"
  {
    WriteIsNewickText(t, names);
  }

  /** Occurrences of `c` in `s`. */
  function Count(c: char, s: string): nat
  {
    if |s| == 0 then 0 else Count(c, s[..|s| - 1]) + (if s[|s| - 1] == c then 1 else 0)
  }

  lemma {:induction false} CountAppend(c: char, a: string, b: string)
    ensures Count(c, a + b) == Count(c, a) + Count(c, b)
    decreases |b|
  {
    if |b| > 0 {
      assert (a + b)[..|a + b| - 1] == a + b[..|b| - 1];
      CountAppend(c, a, b[..|b| - 1]);
    } else {
      assert a + b == a;
    }
  }

  lemma {:induction false} CountAbsent(c: char, s: string)
    requires forall k :: 0 <= k < |s| ==> s[k] != c
    ensures Count(c, s) == 0
    decreases |s|
  {
    if |s| > 0 {
      CountAbsent(c, s[..|s| - 1]);
    }
  }

  /** A name or a printed length contributes no structural character. */
  lemma NoStructure(c: char, s: string)
    requires IsReserved(c)
    requires PlainLabel(s) || forall k :: 0 <= k < |s| ==> IsNumeralChar(s[k])
    ensures Count(c, s) == 0
  {
    CountAbsent(c, s);
  }

  lemma LeafTextCount(c: char, name: string, len: string)
    requires c == '(' || c == ')' || c == ','
    requires PlainLabel(name) && forall k :: 0 <= k < |len| ==> IsNumeralChar(len[k])
    ensures Count(c, name + ":" + len) == 0
  {
    NoStructure(c, name);
    NoStructure(c, len);
    CountAppend(c, name, ":");
    CountAppend(c, name + ":", len);
    assert Count(c, ":") == 0;
  }

  lemma NodeTextCount(c: char, cr: string, cl: string, len: string)
    requires c == '(' || c == ')' || c == ','
    requires forall k :: 0 <= k < |len| ==> IsNumeralChar(len[k])
    ensures Count(c, "(" + cr + "," + cl + "):" + len) == Count(c, cr) + Count(c, cl) + 1
  {
    NoStructure(c, len);
    CountAppend(c, "(", cr);
    CountAppend(c, "(" + cr, ",");
    CountAppend(c, "(" + cr + ",", cl);
    CountAppend(c, "(" + cr + "," + cl, "):");
    CountAppend(c, "(" + cr + "," + cl + "):", len);
    assert Count(c, "(") + Count(c, ",") + Count(c, "):") == 1;
  }

  /** One structural character `c` occurs once per internal node of a subtree's text. */
  lemma {:induction false} CladeCount(c: char, t: Tree, parentDist: int, names: seq<string>)
    requires c == '(' || c == ')' || c == ','
    requires LeafIdsBelow(t, |names|) && PlainNames(names)
    ensures Count(c, Clade(t, parentDist, names)) == InternalCount(t)
  {
    var s := Clade(t, parentDist, names);
    match t
    case Leaf(i) =>
      var len := FormatHundredths(parentDist);
      assert s == names[i] + ":" + len;
      LeafTextCount(c, names[i], len);
    case Node(l, r, d) =>
      var len := FormatHundredths(parentDist - d);
      var cr, cl := Clade(r, d, names), Clade(l, d, names);
      assert s == "(" + cr + "," + cl + "):" + len;
      CladeCount(c, l, d, names);
      CladeCount(c, r, d, names);
      NodeTextCount(c, cr, cl, len);
  }

  /**
   * The text has as many opening parentheses, closing parentheses and commas
   * as the tree has internal nodes, when no gene name contains one of them.
   */
  lemma BracketsMatchMerges(c: char, t: Tree, names: seq<string>)
    requires c == '(' || c == ')' || c == ','
    requires LeafIdsBelow(t, |names|) && PlainNames(names)
    ensures Count(c, Write2Newick(t, names)) == InternalCount(t)
  {
    WriteIsNewickText(t, names);
    match t
    case Leaf(_) =>
      CladeCount(c, t, 0, names);
    case Node(l, r, d) =>
      CladeCount(c, l, d, names);
      CladeCount(c, r, d, names);
      RootTextCount(c, Clade(r, d, names), Clade(l, d, names));
  }

  lemma RootTextCount(c: char, cr: string, cl: string)
    requires c == '(' || c == ')' || c == ','
    ensures Count(c, "(" + cr + "," + cl + ");") == Count(c, cr) + Count(c, cl) + 1
  {
    CountAppend(c, "(", cr);
    CountAppend(c, "(" + cr, ",");
    CountAppend(c, "(" + cr + ",", cl);
    CountAppend(c, "(" + cr + "," + cl, ");");
    assert Count(c, "(") + Count(c, ",") + Count(c, ");") == 1;
  }
}
