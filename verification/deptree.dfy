/** The bracketed dependency-tree linearisation of
    tools/parse_data_to_dependencytrees.py.

    The parser library's tokens become an explicit tree: each node carries
    its surface text, its lemma (`lemmaText`), the label of the relation to its head, and
    its children to the left and to the right of it in sentence order.

    Every node, a leaf included, goes through the general branch of
    `get_parse_tree`, so a leaf yields the one-element list `[text]`: the
    library's `children` attribute is a generator object, which is always
    truthy, so the early `return` for a childless token is not taken. */
module DependencyTree {
  import opened Wrappers

  datatype Node = Node(text: string, lemmaText: string, dep: string, lefts: seq<Node>, rights: seq<Node>)

  /** An output item before it is rendered as a string: an opening marker
      `'[' + dep`, a closing marker `']' + dep`, or a word. Keeping the kinds
      apart lets the properties below speak of markers even when a word
      itself starts with a bracket. */
  datatype Tok = OpenMark(dep: string) | CloseMark(dep: string) | Word(w: string)

  function Render(t: Tok): string
  {
    match t
    case OpenMark(d) => "[" + d
    case CloseMark(d) => "]" + d
    case Word(w) => w
  }

  /** The word emitted for a node: its lemma when lemmatizing, else its
      surface text. */
  function WordOf(n: Node, lemmatize: bool): string
  {
    if lemmatize then n.lemmaText else n.text
  }

  /** Number of nodes in a tree and in a list of trees. */
  function Size(n: Node): nat
    decreases n
  {
    1 + SizeAll(n.lefts) + SizeAll(n.rights)
  }

  function SizeAll(cs: seq<Node>): nat
    decreases cs
  {
    if cs == [] then 0 else Size(cs[0]) + SizeAll(cs[1..])
  }

  /** `get_parse_tree(root, lemmatize)`, before rendering: each left child
      wrapped in its markers, the node's own word, each right child wrapped
      in its markers. A tree of `n` nodes gives `n` words and `2(n-1)`
      markers. */
  function Tree(n: Node, lemmatize: bool): (r: seq<Tok>)
    ensures |r| == 3 * Size(n) - 2
    decreases n
  {
    Children(n.lefts, lemmatize) + [Word(WordOf(n, lemmatize))] + Children(n.rights, lemmatize)
  }

  /** The loop over `root.lefts` or `root.rights`. */
  function Children(cs: seq<Node>, lemmatize: bool): (r: seq<Tok>)
    ensures |r| == 3 * SizeAll(cs)
    decreases cs
  {
    if cs == [] then []
    else [OpenMark(cs[0].dep)] + Tree(cs[0], lemmatize) + [CloseMark(cs[0].dep)] + Children(cs[1..], lemmatize)
  }

  /** `get_parse_tree(root, lemmatize)` as the list of strings it returns. */
  function Linearize(n: Node, lemmatize: bool): (r: seq<string>)
    ensures |r| == 3 * Size(n) - 2
  {
    var t := Tree(n, lemmatize);
    seq(|t|, i requires 0 <= i < |t| => Render(t[i]))
  }

  // ---------------------------------------------------------------------
  // In-order words

  /** The words of the tree in sentence order: left subtrees, the node,
      right subtrees. */
  function InOrder(n: Node, lemmatize: bool): (r: seq<string>)
    ensures |r| == Size(n)
    decreases n
  {
    InOrderAll(n.lefts, lemmatize) + [WordOf(n, lemmatize)] + InOrderAll(n.rights, lemmatize)
  }

  function InOrderAll(cs: seq<Node>, lemmatize: bool): (r: seq<string>)
    ensures |r| == SizeAll(cs)
    decreases cs
  {
    if cs == [] then [] else InOrder(cs[0], lemmatize) + InOrderAll(cs[1..], lemmatize)
  }

  /** The output with every marker removed. */
  function Words(t: seq<Tok>): seq<string>
  {
    if t == [] then []
    else (if t[0].Word? then [t[0].w] else []) + Words(t[1..])
  }

  lemma {:induction false} WordsAppend(a: seq<Tok>, b: seq<Tok>)
    ensures Words(a + b) == Words(a) + Words(b)
  {
    if a == [] {
      assert a + b == b;
    } else {
      WordsAppend(a[1..], b);
      assert (a + b)[0] == a[0];
      assert (a + b)[1..] == a[1..] + b;
    }
  }

  /** Removing all markers leaves the in-order traversal of the tree. */
  lemma {:induction false} WordsInOrder(n: Node, lemmatize: bool)
    ensures Words(Tree(n, lemmatize)) == InOrder(n, lemmatize)
    decreases n
  {
    var l, r := Children(n.lefts, lemmatize), Children(n.rights, lemmatize);
    var w := [Word(WordOf(n, lemmatize))];
    WordsAppend(l + w, r);
    WordsAppend(l, w);
    assert Words(w) == [WordOf(n, lemmatize)] by {
      assert w[1..] == [];
    }
    ChildrenWordsInOrder(n.lefts, lemmatize);
    ChildrenWordsInOrder(n.rights, lemmatize);
  }

  lemma {:induction false} ChildrenWordsInOrder(cs: seq<Node>, lemmatize: bool)
    ensures Words(Children(cs, lemmatize)) == InOrderAll(cs, lemmatize)
    decreases cs
  {
    if cs != [] {
      var o, t, c := [OpenMark(cs[0].dep)], Tree(cs[0], lemmatize), [CloseMark(cs[0].dep)];
      var rest := Children(cs[1..], lemmatize);
      WordsAppend(o + t + c, rest);
      WordsAppend(o + t, c);
      WordsAppend(o, t);
      assert Words(o) == [] by {
        assert o[1..] == [];
      }
      assert Words(c) == [] by {
        assert c[1..] == [];
      }
      WordsInOrder(cs[0], lemmatize);
      ChildrenWordsInOrder(cs[1..], lemmatize);
    }
  }

  // ---------------------------------------------------------------------
  // Nesting of markers

  /** Reads markers left to right against a stack of open labels: an opening
      marker pushes its label, a closing marker must match the label on top
      and pops it. `None` on a mismatch. */
  function Scan(t: seq<Tok>, stack: seq<string>): Option<seq<string>>
  {
    if t == [] then Some(stack)
    else match t[0]
      case OpenMark(d) => Scan(t[1..], stack + [d])
      case CloseMark(d) =>
        if |stack| > 0 && stack[|stack| - 1] == d then Scan(t[1..], stack[..|stack| - 1])
        else None
      case Word(_) => Scan(t[1..], stack)
  }

  /** Every marker pair is properly nested and closes with its own label. */
  predicate WellNested(t: seq<Tok>)
  {
    Scan(t, []) == Some([])
  }

  lemma {:induction false} ScanAppend(a: seq<Tok>, b: seq<Tok>, stack: seq<string>)
    ensures Scan(a + b, stack) == (match Scan(a, stack) case None => None case Some(s) => Scan(b, s))
  {
    if a == [] {
      assert a + b == b;
    } else {
      assert (a + b)[0] == a[0];
      assert (a + b)[1..] == a[1..] + b;
      match a[0]
      case OpenMark(d) => ScanAppend(a[1..], b, stack + [d]);
      case CloseMark(d) =>
        if |stack| > 0 && stack[|stack| - 1] == d {
          ScanAppend(a[1..], b, stack[..|stack| - 1]);
        }
      case Word(_) => ScanAppend(a[1..], b, stack);
    }
  }

  /** A linearised subtree opens nothing it does not close, whatever is
      open around it. */
  lemma {:induction false} TreeBalanced(n: Node, lemmatize: bool, stack: seq<string>)
    ensures Scan(Tree(n, lemmatize), stack) == Some(stack)
    decreases n
  {
    var l, r := Children(n.lefts, lemmatize), Children(n.rights, lemmatize);
    var w := [Word(WordOf(n, lemmatize))];
    ChildrenBalanced(n.lefts, lemmatize, stack);
    ChildrenBalanced(n.rights, lemmatize, stack);
    ScanAppend(l + w, r, stack);
    ScanAppend(l, w, stack);
    assert Scan(w, stack) == Some(stack) by {
      assert w[1..] == [];
    }
  }

  lemma {:induction false} ChildrenBalanced(cs: seq<Node>, lemmatize: bool, stack: seq<string>)
    ensures Scan(Children(cs, lemmatize), stack) == Some(stack)
    decreases cs
  {
    if cs != [] {
      var d := cs[0].dep;
      var o, t, c := [OpenMark(d)], Tree(cs[0], lemmatize), [CloseMark(d)];
      var rest := Children(cs[1..], lemmatize);
      var inner := stack + [d];
      TreeBalanced(cs[0], lemmatize, inner);
      ChildrenBalanced(cs[1..], lemmatize, stack);
      ScanAppend(o + t + c, rest, stack);
      ScanAppend(o + t, c, stack);
      ScanAppend(o, t, stack);
      assert Scan(o, stack) == Some(inner) by {
        assert o[1..] == [];
      }
      assert Scan(c, inner) == Some(stack) by {
        assert c[1..] == [];
        assert inner[..|inner| - 1] == stack;
      }
    }
  }

  /** The output of every tree is well nested. */
  lemma TreeWellNested(n: Node, lemmatize: bool)
    ensures WellNested(Tree(n, lemmatize))
  {
    TreeBalanced(n, lemmatize, []);
  }

  // ---------------------------------------------------------------------
  // Text versus lemma

  /** The output with every word blanked out. */
  function Erase(t: seq<Tok>): seq<Tok>
  {
    if t == [] then []
    else [if t[0].Word? then Word("") else t[0]] + Erase(t[1..])
  }

  lemma {:induction false} EraseAppend(a: seq<Tok>, b: seq<Tok>)
    ensures Erase(a + b) == Erase(a) + Erase(b)
  {
    if a == [] {
      assert a + b == b;
    } else {
      EraseAppend(a[1..], b);
      assert (a + b)[0] == a[0];
      assert (a + b)[1..] == a[1..] + b;
    }
  }

  /** `lemmatize` changes the words and nothing else: both outputs have the
      same markers in the same places, and the words are the lemmas, or the
      surface texts, in sentence order. */
  lemma {:induction false} LemmatizeOnlyWords(n: Node)
    ensures Erase(Tree(n, true)) == Erase(Tree(n, false))
    ensures Words(Tree(n, true)) == InOrder(n, true)
    ensures Words(Tree(n, false)) == InOrder(n, false)
    decreases n
  {
    WordsInOrder(n, true);
    WordsInOrder(n, false);
    ChildrenSameShape(n.lefts);
    ChildrenSameShape(n.rights);
    var wt, wf := [Word(n.lemmaText)], [Word(n.text)];
    EraseAppend(Children(n.lefts, true) + wt, Children(n.rights, true));
    EraseAppend(Children(n.lefts, true), wt);
    EraseAppend(Children(n.lefts, false) + wf, Children(n.rights, false));
    EraseAppend(Children(n.lefts, false), wf);
    assert Erase(wt) == [Word("")] by {
      assert wt[1..] == [];
    }
    assert Erase(wf) == [Word("")] by {
      assert wf[1..] == [];
    }
  }

  lemma {:induction false} ChildrenSameShape(cs: seq<Node>)
    ensures Erase(Children(cs, true)) == Erase(Children(cs, false))
    decreases cs
  {
    if cs != [] {
      var o, c := [OpenMark(cs[0].dep)], [CloseMark(cs[0].dep)];
      LemmatizeOnlyWords(cs[0]);
      ChildrenSameShape(cs[1..]);
      forall b | b in {true, false}
        ensures Erase(Children(cs, b)) == Erase(o) + Erase(Tree(cs[0], b)) + Erase(c) + Erase(Children(cs[1..], b))
      {
        EraseAppend(o + Tree(cs[0], b) + c, Children(cs[1..], b));
        EraseAppend(o + Tree(cs[0], b), c);
        EraseAppend(o, Tree(cs[0], b));
      }
    }
  }

  // ---------------------------------------------------------------------
  // Document root and parse

  /** A token of the parsed document: the index of its head, and the
      subtree the library exposes below it. */
  datatype DocToken = DocToken(head: nat, node: Node)

  datatype Error = NoRoot

  /** First index at or after `i` whose token is its own head. */
  function RootFrom(doc: seq<DocToken>, i: nat): (r: Option<nat>)
    requires i <= |doc|
    ensures r.Some? ==> i <= r.value < |doc| && doc[r.value].head == r.value
    ensures r.Some? ==> forall j :: i <= j < r.value ==> doc[j].head != j
    ensures r.None? <==> forall j :: i <= j < |doc| ==> doc[j].head != j
    decreases |doc| - i
  {
    if i == |doc| then None
    else if doc[i].head == i then Some(i)
    else RootFrom(doc, i + 1)
  }

  /** `get_document_root(document)`: the first token that is its own head;
      indexing the empty list of candidates raises when there is none. */
  function DocumentRoot(doc: seq<DocToken>): (r: Result<nat, Error>)
    ensures r.Success? ==> r.value < |doc| && doc[r.value].head == r.value
    ensures r.Success? ==> forall j :: 0 <= j < r.value ==> doc[j].head != j
    ensures r.Failure? <==> forall j :: 0 <= j < |doc| ==> doc[j].head != j
  {
    match RootFrom(doc, 0)
    case Some(i) => Success(i)
    case None => Failure(NoRoot)
  }

  /** `parse(doc, lemmatize)`: the linearisation of the document root's
      subtree. */
  function Parse(doc: seq<DocToken>, lemmatize: bool): (r: Result<seq<string>, Error>)
    ensures r.Failure? <==> forall j :: 0 <= j < |doc| ==> doc[j].head != j
    ensures r.Success? ==>
              var root := DocumentRoot(doc).value;
              && r.value == Linearize(doc[root].node, lemmatize)
              && |r.value| == 3 * Size(doc[root].node) - 2
  {
    var root :- DocumentRoot(doc);
    Success(Linearize(doc[root].node, lemmatize))
  }
}
