/** The text trees the kit commands print: a node shows its title and then
    its children indented under `+-` (and `| ` on their further lines), the
    last child under `` `- `` (and two spaces); the CSV form prints one line
    per leaf, the titles of its ancestors each followed by a comma. */
module KitTree {
  import opened Text
  import KitTables

  datatype Tree = Node(title: string, children: seq<Tree>) | Leaf(value: string)

  /** The first line a tree shows. */
  function Head(t: Tree): string {
    match t
    case Node(title, _) => title
    case Leaf(value) => value
  }

  /** `__len__`: the number of nodes and leaves, so at least one and at least
      the number of leaves, and more than that for a node. */
  function Size(t: Tree): (n: nat)
    ensures n >= 1 && n >= LeafCount(t)
    ensures t.Node? ==> n > LeafCount(t)
    decreases t
  {
    match t
    case Leaf(_) => 1
    case Node(_, cs) => 1 + SizeAll(cs)
  }

  function SizeAll(cs: seq<Tree>): (n: nat)
    ensures n >= |cs| && n >= LeafCountAll(cs)
    decreases cs
  {
    if cs == [] then 0 else Size(cs[0]) + SizeAll(cs[1..])
  }

  /** The prefixes of the last child, and of the others: before its first
      line, and before each further one. */
  function First(last: bool): string {
    if last then "`-" else "+-"
  }

  function Rest(last: bool): string {
    if last then "  " else "| "
  }

  /** `prefix + line` for every line. */
  function Indent(lines: seq<string>, prefix: string): (r: seq<string>)
    ensures |r| == |lines|
  {
    if lines == [] then [] else [prefix + lines[0]] + Indent(lines[1..], prefix)
  }

  lemma {:induction false} IndentAt(lines: seq<string>, prefix: string, k: nat)
    requires k < |lines|
    ensures Indent(lines, prefix)[k] == prefix + lines[k]
  {
    if k > 0 {
      IndentAt(lines[1..], prefix, k - 1);
    }
  }

  /** The lines of one child, each with its prefix. */
  function Prefixed(lines: seq<string>, last: bool): (r: seq<string>)
    ensures |r| == |lines|
  {
    if lines == [] then [] else [First(last) + lines[0]] + Indent(lines[1..], Rest(last))
  }

  lemma PrefixedAt(lines: seq<string>, last: bool, k: nat)
    requires k < |lines|
    ensures Prefixed(lines, last)[k] == (if k == 0 then First(last) else Rest(last)) + lines[k]
  {
    if k > 0 {
      IndentAt(lines[1..], Rest(last), k - 1);
    }
  }

  /** `tree_lines`: the title, then the lines of each child with its prefix. */
  function TreeLines(t: Tree): (lines: seq<string>)
    ensures |lines| >= 1 && lines[0] == Head(t)
    decreases t
  {
    match t
    case Leaf(value) => [value]
    case Node(title, cs) => [title] + Blocks(cs, 0)
  }

  /** The lines of children i, i + 1, ... of a node whose children are `cs`;
      the child at the last position is the one marked last. */
  function Blocks(cs: seq<Tree>, i: nat): seq<string>
    requires i <= |cs|
    decreases cs, |cs| - i
  {
    if i == |cs| then [] else Prefixed(TreeLines(cs[i]), i == |cs| - 1) + Blocks(cs, i + 1)
  }

  /** A node without children shows only its title. */
  lemma ChildlessNodeShowsTitle(title: string)
    ensures TreeLines(Node(title, [])) == [title]
  {
  }

  function SizeFrom(cs: seq<Tree>, i: nat): nat
    requires i <= |cs|
    decreases |cs| - i
  {
    if i == |cs| then 0 else Size(cs[i]) + SizeFrom(cs, i + 1)
  }

  lemma {:induction false} SizeAllFrom(cs: seq<Tree>, i: nat)
    requires i <= |cs|
    ensures SizeAll(cs[i..]) == SizeFrom(cs, i)
    decreases |cs| - i
  {
    if i < |cs| {
      SizeAllFrom(cs, i + 1);
      assert cs[i..][1..] == cs[i + 1..];
    }
  }

  /** `tree_lines` yields exactly `len` lines. */
  lemma {:induction false} LinesMatchSize(t: Tree)
    ensures |TreeLines(t)| == Size(t)
    decreases t, 0, 0
  {
    match t
    case Leaf(_) =>
    case Node(_, cs) =>
      BlocksMatchSize(cs, 0);
      SizeAllFrom(cs, 0);
      assert cs[0..] == cs;
  }

  lemma {:induction false} BlocksMatchSize(cs: seq<Tree>, i: nat)
    requires i <= |cs|
    ensures |Blocks(cs, i)| == SizeFrom(cs, i)
    decreases cs, |cs| - i
  {
    if i < |cs| {
      LinesMatchSize(cs[i]);
      BlocksMatchSize(cs, i + 1);
    }
  }

  /** The lines of children i, i + 1, ... one after another, without
      prefixes. */
  function Flatten(cs: seq<Tree>, i: nat): seq<string>
    requires i <= |cs|
    decreases |cs| - i
  {
    if i == |cs| then [] else TreeLines(cs[i]) + Flatten(cs, i + 1)
  }

  /** Every prefix is two characters wide. */
  function Unprefix(lines: seq<string>): (r: seq<string>)
    ensures |r| == |lines|
  {
    if lines == [] then [] else [if |lines[0]| >= 2 then lines[0][2..] else lines[0]] + Unprefix(lines[1..])
  }

  lemma {:induction false} UnprefixAppend(a: seq<string>, b: seq<string>)
    ensures Unprefix(a + b) == Unprefix(a) + Unprefix(b)
    decreases |a|
  {
    if a == [] {
      assert a + b == b;
    } else {
      assert (a + b)[0] == a[0] && (a + b)[1..] == a[1..] + b;
      UnprefixAppend(a[1..], b);
    }
  }

  lemma {:induction false} UnprefixIndent(lines: seq<string>, prefix: string)
    requires |prefix| == 2
    ensures Unprefix(Indent(lines, prefix)) == lines
    decreases |lines|
  {
    if lines != [] {
      assert (prefix + lines[0])[2..] == lines[0];
      UnprefixIndent(lines[1..], prefix);
    }
  }

  /** Stripping the two-character prefix from the children's lines gives back
      the children's own lines, in order: the rendering loses nothing. */
  lemma {:induction false} UnprefixBlocks(cs: seq<Tree>, i: nat)
    requires i <= |cs|
    ensures Unprefix(Blocks(cs, i)) == Flatten(cs, i)
    decreases |cs| - i
  {
    if i < |cs| {
      var last, lines := i == |cs| - 1, TreeLines(cs[i]);
      var own := Prefixed(lines, last);
      assert Unprefix(own) == lines by {
        assert (First(last) + lines[0])[2..] == lines[0];
        UnprefixIndent(lines[1..], Rest(last));
        assert own == [First(last) + lines[0]] + Indent(lines[1..], Rest(last));
      }
      UnprefixBlocks(cs, i + 1);
      UnprefixAppend(own, Blocks(cs, i + 1));
    }
  }

  /** A line that starts a child: `+-` or `` `- ``. */
  predicate StartsChild(line: string) {
    |line| >= 2 && (line[0] == '+' || line[0] == '`') && line[1] == '-'
  }

  function CountStarts(lines: seq<string>): nat {
    if lines == [] then 0 else (if StartsChild(lines[0]) then 1 else 0) + CountStarts(lines[1..])
  }

  lemma {:induction false} CountStartsAppend(a: seq<string>, b: seq<string>)
    ensures CountStarts(a + b) == CountStarts(a) + CountStarts(b)
    decreases |a|
  {
    if a != [] {
      assert (a + b)[0] == a[0] && (a + b)[1..] == a[1..] + b;
      CountStartsAppend(a[1..], b);
    } else {
      assert a + b == b;
    }
  }

  /** Of a child's lines only the first starts a child at this level: the
      others carry `| ` or two spaces. */
  lemma OneStartPerChild(lines: seq<string>, last: bool)
    requires |lines| >= 1
    ensures CountStarts(Prefixed(lines, last)) == 1
  {
    var p := Prefixed(lines, last);
    assert p == [First(last) + lines[0]] + Indent(lines[1..], Rest(last));
    assert StartsChild(p[0]);
    NoStartsIndent(lines[1..], Rest(last));
  }

  lemma {:induction false} NoStartsIndent(lines: seq<string>, rest: string)
    requires rest == "| " || rest == "  "
    ensures CountStarts(Indent(lines, rest)) == 0
    decreases |lines|
  {
    if lines != [] {
      assert (rest + lines[0])[0] == rest[0];
      NoStartsIndent(lines[1..], rest);
    }
  }

  /** Exactly one line per child starts with `+-` or `` `- ``. */
  lemma {:induction false} ChildStartsCount(cs: seq<Tree>, i: nat)
    requires i <= |cs|
    ensures CountStarts(Blocks(cs, i)) == |cs| - i
    decreases |cs| - i
  {
    if i < |cs| {
      var last := i == |cs| - 1;
      OneStartPerChild(TreeLines(cs[i]), last);
      ChildStartsCount(cs, i + 1);
      CountStartsAppend(Prefixed(TreeLines(cs[i]), last), Blocks(cs, i + 1));
    }
  }

  /** Prefix `+-` or `| `: a line of a child other than the last. */
  predicate InnerLine(line: string) {
    |line| >= 2 && ((line[0] == '+' && line[1] == '-') || (line[0] == '|' && line[1] == ' '))
  }

  /** The last child's first line carries `` `- `` and its further lines two
      spaces. */
  lemma {:induction false} LastChildMarked(cs: seq<Tree>, i: nat)
    requires i < |cs|
    ensures var lines, own := Blocks(cs, i), TreeLines(cs[|cs| - 1]);
      |lines| >= |own| && lines[|lines| - |own|..] == Prefixed(own, true)
    decreases |cs| - i
  {
    var lines := Blocks(cs, i);
    if i == |cs| - 1 {
      assert Blocks(cs, i + 1) == [];
      assert lines == Prefixed(TreeLines(cs[i]), true) + [];
      assert lines[0..] == lines;
    } else {
      LastChildMarked(cs, i + 1);
      var last, tail := TreeLines(cs[|cs| - 1]), Blocks(cs, i + 1);
      var own := Prefixed(TreeLines(cs[i]), false);
      assert lines == own + tail;
      SuffixOfConcat(own, tail, |last|);
    }
  }

  lemma SuffixOfConcat<T>(a: seq<T>, b: seq<T>, n: nat)
    requires n <= |b|
    ensures (a + b)[|a + b| - n..] == b[|b| - n..]
  {
  }

  /** Before the last child's lines, every line carries `+-` or `| `. */
  lemma {:induction false} InnerChildrenMarked(cs: seq<Tree>, i: nat)
    requires i < |cs|
    ensures var lines, own := Blocks(cs, i), TreeLines(cs[|cs| - 1]);
      forall k :: 0 <= k < |lines| - |own| ==> InnerLine(lines[k])
    decreases |cs| - i
  {
    if i < |cs| - 1 {
      InnerChildrenMarked(cs, i + 1);
      LastChildMarked(cs, i + 1);
      var lines, last, tail := Blocks(cs, i), TreeLines(cs[|cs| - 1]), Blocks(cs, i + 1);
      var own := Prefixed(TreeLines(cs[i]), false);
      assert lines == own + tail;
      forall k | 0 <= k < |own| ensures InnerLine(own[k]) {
        PrefixedAt(TreeLines(cs[i]), false, k);
      }
      MarkedConcat(own, tail, |last|);
    }
  }

  lemma MarkedConcat(own: seq<string>, tail: seq<string>, n: nat)
    requires n <= |tail|
    requires forall k :: 0 <= k < |own| ==> InnerLine(own[k])
    requires forall k :: 0 <= k < |tail| - n ==> InnerLine(tail[k])
    ensures forall k :: 0 <= k < |own + tail| - n ==> InnerLine((own + tail)[k])
  {
    forall k | 0 <= k < |own + tail| - n ensures InnerLine((own + tail)[k]) {
      if k >= |own| {
        assert (own + tail)[k] == tail[k - |own|];
      }
    }
  }

  /** The number of leaves. */
  function LeafCount(t: Tree): nat
    decreases t
  {
    match t
    case Leaf(_) => 1
    case Node(_, cs) => LeafCountAll(cs)
  }

  function LeafCountAll(cs: seq<Tree>): nat
    decreases cs
  {
    if cs == [] then 0 else LeafCount(cs[0]) + LeafCountAll(cs[1..])
  }

  /** `csv`: one line per leaf, `line` and the ancestors' titles each with a
      comma, then the leaf's value. */
  function CsvLines(t: Tree, line: string): (lines: seq<string>)
    ensures |lines| == LeafCount(t)
    decreases t
  {
    match t
    case Leaf(value) => [line + value]
    case Node(title, cs) => CsvAll(cs, line + title + ",")
  }

  function CsvAll(cs: seq<Tree>, line: string): (lines: seq<string>)
    ensures |lines| == LeafCountAll(cs)
    decreases cs
  {
    if cs == [] then [] else CsvLines(cs[0], line) + CsvAll(cs[1..], line)
  }

  /** One CSV line per leaf, each starting with the line it was given: a node
      without leaves prints nothing, not even its title. */
  lemma {:induction false} CsvPerLeaf(t: Tree, line: string)
    ensures |CsvLines(t, line)| == LeafCount(t)
    ensures forall k :: 0 <= k < |CsvLines(t, line)| ==> CsvLines(t, line)[k] == line + CsvLines(t, "")[k]
    decreases t, 1
  {
    match t
    case Leaf(value) =>
    case Node(title, cs) =>
      CsvAllPerLeaf(cs, line + title + ",");
      CsvAllPerLeaf(cs, "" + title + ",");
      assert "" + title + "," == title + ",";
      forall k | 0 <= k < |CsvLines(t, line)| ensures CsvLines(t, line)[k] == line + CsvLines(t, "")[k] {
        assert line + title + "," + CsvAll(cs, "")[k] == line + (title + "," + CsvAll(cs, "")[k]);
      }
  }

  lemma {:induction false} CsvAllPerLeaf(cs: seq<Tree>, line: string)
    ensures |CsvAll(cs, line)| == LeafCountAll(cs)
    ensures forall k :: 0 <= k < |CsvAll(cs, line)| ==> CsvAll(cs, line)[k] == line + CsvAll(cs, "")[k]
    decreases cs, 0
  {
    if cs != [] {
      CsvPerLeaf(cs[0], line);
      CsvPerLeaf(cs[0], "");
      CsvAllPerLeaf(cs[1..], line);
      CsvAllPerLeaf(cs[1..], "");
      var a, b := CsvLines(cs[0], line), CsvAll(cs[1..], line);
      forall k | 0 <= k < |a + b| ensures (a + b)[k] == line + CsvAll(cs, "")[k] {
        if k < |a| {
          assert CsvAll(cs, "")[k] == CsvLines(cs[0], "")[k];
        } else {
          assert CsvAll(cs, "")[k] == CsvAll(cs[1..], "")[k - |a|];
        }
      }
    }
  }

  /** `stats`: nothing to show for no values, the one value for one, and
      otherwise a node with the count, sum, average and median. `fmt` formats
      a value; `median` stands for the library median. */
  function Stats(title: string, values: seq<real>, fmt: real -> string, median: seq<real> -> real): (t: Tree)
    ensures |values| == 0 ==> t == Leaf(title + " [no data]")
    ensures |values| == 1 ==> t == Leaf(title + " " + fmt(values[0]))
    ensures |values| >= 2 ==> (t.Node? && t.title == title && |t.children| == 4
                               && forall k :: 0 <= k < 4 ==> t.children[k].Leaf?)
  {
    var n := |values|;
    if n == 0 then Leaf(title + " [no data]")
    else if n == 1 then Leaf(title + " " + fmt(values[0]))
    else
      var total := KitTables.Sum(values);
      Node(title, [Leaf("Count " + NatToString(n)), Leaf("Sum " + fmt(total)),
                   Leaf("Average " + fmt(total / n as real)), Leaf("Median " + fmt(median(values)))])
  }

  lemma OneLine(cs: seq<Tree>, i: nat)
    requires i < |cs| && cs[i].Leaf?
    ensures Blocks(cs, i) == [First(i == |cs| - 1) + cs[i].value] + Blocks(cs, i + 1)
  {
    assert TreeLines(cs[i]) == [cs[i].value];
    assert Prefixed([cs[i].value], i == |cs| - 1) == [First(i == |cs| - 1) + cs[i].value];
  }

  /** How `stats` prints with two or more values: five lines, the median
      last under `` `- ``. */
  lemma StatsLines(title: string, values: seq<real>, fmt: real -> string, median: seq<real> -> real)
    requires |values| >= 2
    ensures var total, lines := KitTables.Sum(values), TreeLines(Stats(title, values, fmt, median));
      && |lines| == 5 && lines[0] == title
      && lines[1] == "+-" + ("Count " + NatToString(|values|)) && lines[2] == "+-" + ("Sum " + fmt(total))
      && lines[3] == "+-" + ("Average " + fmt(total / |values| as real)) && lines[4] == "`-" + ("Median " + fmt(median(values)))
    ensures Size(Stats(title, values, fmt, median)) == 5
  {
    var t := Stats(title, values, fmt, median);
    var cs := t.children;
    assert Blocks(cs, 4) == [];
    OneLine(cs, 3);
    OneLine(cs, 2);
    OneLine(cs, 1);
    OneLine(cs, 0);
    var l0, l1, l2, l3 := First(false) + cs[0].value, First(false) + cs[1].value, First(false) + cs[2].value, First(true) + cs[3].value;
    assert Blocks(cs, 0) == [l0] + ([l1] + ([l2] + ([l3] + [])));
    assert t == Node(title, cs);
    assert TreeLines(t) == [title] + Blocks(cs, 0);
    var total := KitTables.Sum(values);
    assert cs == [Leaf("Count " + NatToString(|values|)), Leaf("Sum " + fmt(total)),
                  Leaf("Average " + fmt(total / |values| as real)), Leaf("Median " + fmt(median(values)))];
    assert First(false) == "+-" && First(true) == "`-";
    LinesMatchSize(t);
  }
}
