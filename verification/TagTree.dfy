/** The tree of tags, the flat list made of it, and the routing of commands by dotted paths. */
module TagTree {
  import opened Sequences
  import opened Text

  /** Tags with their children; `id` stands for the tag's type, `payload` for what a leaf holds. */
  datatype Tree<T> =
    | Leaf(name: string, id: nat, payload: T)
    | Parent(name: string, id: nat, children: Forest<T>)

  datatype Forest<T> = Nil | Cons(head: Tree<T>, tail: Forest<T>)

  /** A tag node as the hierarchy generator makes it; `path` are the names from the top tag down. */
  datatype Node<T> = Node(path: seq<string>, id: nat, depth: nat, payload: Option<T>) {
    predicate IsParent() {
      payload.None?
    }
  }

  /** The node a tree has at its top, below the tags `above`. */
  function Top<T>(tree: Tree<T>, above: seq<string>, depth: nat): Node<T> {
    Node(above + [tree.name], tree.id, depth, if tree.Leaf? then Some(tree.payload) else None)
  }

  // ----- the list of all nodes -----

  /** A node, then the nodes below it, child by child. */
  function Preorder<T>(tree: Tree<T>, above: seq<string>, depth: nat): seq<Node<T>> {
    [Top(tree, above, depth)]
    + if tree.Leaf? then [] else PreorderAll(tree.children, above + [tree.name], depth + 1)
  }

  function PreorderAll<T>(trees: Forest<T>, above: seq<string>, depth: nat): seq<Node<T>> {
    if trees.Nil? then [] else Preorder(trees.head, above, depth) + PreorderAll(trees.tail, above, depth)
  }

  /** The global list, to which each node is added at the front. */
  function Flatten<T, H>(tree: Tree<T>, above: seq<string>, depth: nat, make: Node<T> -> H, list: seq<H>): seq<H> {
    var updated := [make(Top(tree, above, depth))] + list;
    if tree.Leaf? then updated else FlattenAll(tree.children, above + [tree.name], depth + 1, make, updated)
  }

  function FlattenAll<T, H>(trees: Forest<T>, above: seq<string>, depth: nat, make: Node<T> -> H,
                            list: seq<H>): seq<H> {
    if trees.Nil? then list
    else FlattenAll(trees.tail, above, depth, make, Flatten(trees.head, above, depth, make, list))
  }

  function Reversed<H>(s: seq<H>): (r: seq<H>)
    ensures |r| == |s| && forall i :: 0 <= i < |s| ==> r[i] == s[|s| - 1 - i]
  {
    seq(|s|, i requires 0 <= i < |s| => s[|s| - 1 - i])
  }

  function Mapped<T, H>(make: T -> H, s: seq<T>): (r: seq<H>)
    ensures |r| == |s| && forall i :: 0 <= i < |s| ==> r[i] == make(s[i])
  {
    seq(|s|, i requires 0 <= i < |s| => make(s[i]))
  }

  lemma ReversedConcat<T, H>(make: T -> H, a: seq<T>, b: seq<T>, list: seq<H>)
    ensures Reversed(Mapped(make, a + b)) + list == Reversed(Mapped(make, b)) + (Reversed(Mapped(make, a)) + list)
  {
  }

  lemma ReversedOne<T, H>(make: T -> H, a: T, list: seq<H>)
    ensures [make(a)] + list == Reversed(Mapped(make, [a])) + list
  {
    assert Reversed(Mapped(make, [a])) == [make(a)];
  }

  /** The list holds every node of the tree exactly once, the last in preorder first. */
  lemma {:induction false} FlattenReversesPreorder<T, H>(tree: Tree<T>, above: seq<string>, depth: nat,
                                                         make: Node<T> -> H, list: seq<H>)
    ensures Flatten(tree, above, depth, make, list) == Reversed(Mapped(make, Preorder(tree, above, depth))) + list
    decreases tree
  {
    var top := Top(tree, above, depth);
    ReversedOne(make, top, list);
    if tree.Leaf? {
      assert Preorder(tree, above, depth) == [top];
    } else {
      var inner := above + [tree.name];
      FlattenAllReversesPreorder(tree.children, inner, depth + 1, make, [make(top)] + list);
      ReversedConcat(make, [top], PreorderAll(tree.children, inner, depth + 1), list);
    }
  }

  lemma {:induction false} FlattenAllReversesPreorder<T, H>(trees: Forest<T>, above: seq<string>, depth: nat,
                                                            make: Node<T> -> H, list: seq<H>)
    ensures FlattenAll(trees, above, depth, make, list) ==
            Reversed(Mapped(make, PreorderAll(trees, above, depth))) + list
    decreases trees
  {
    if trees.Nil? {
      assert Reversed(Mapped(make, PreorderAll(trees, above, depth))) == [];
    } else {
      var next := Flatten(trees.head, above, depth, make, list);
      FlattenReversesPreorder(trees.head, above, depth, make, list);
      FlattenAllReversesPreorder(trees.tail, above, depth, make, next);
      ReversedConcat(make, Preorder(trees.head, above, depth), PreorderAll(trees.tail, above, depth), list);
    }
  }

  /** What a tag's path and depth say: it lies below `above`, as deep as its path is long. */
  ghost predicate LiesBelow<T>(n: Node<T>, above: seq<string>, depth: nat) {
    above < n.path && n.depth == depth + (|n.path| - |above| - 1)
  }

  lemma {:induction false} PreorderLiesBelow<T>(tree: Tree<T>, above: seq<string>, depth: nat)
    ensures forall n <- Preorder(tree, above, depth) ::
              LiesBelow(n, above, depth) && n.path[|above|] == tree.name
    decreases tree
  {
    var top := Top(tree, above, depth);
    assert LiesBelow(top, above, depth);
    if tree.Parent? {
      var inner := above + [tree.name];
      PreorderAllLiesBelow(tree.children, inner, depth + 1);
      forall n | n in PreorderAll(tree.children, inner, depth + 1)
        ensures LiesBelow(n, above, depth) && n.path[|above|] == tree.name
      {
        assert LiesBelow(n, inner, depth + 1);
        assert inner[|above|] == tree.name && inner[..|above|] == above;
      }
    }
  }

  lemma {:induction false} PreorderAllLiesBelow<T>(trees: Forest<T>, above: seq<string>, depth: nat)
    ensures forall n <- PreorderAll(trees, above, depth) :: LiesBelow(n, above, depth)
    decreases trees
  {
    if trees.Cons? {
      PreorderLiesBelow(trees.head, above, depth);
      PreorderAllLiesBelow(trees.tail, above, depth);
    }
  }

  function Append<T>(a: Forest<T>, b: Forest<T>): Forest<T> {
    if a.Nil? then b else Cons(a.head, Append(a.tail, b))
  }

  /** What lies below an earlier sibling comes before what lies below a later one. */
  lemma {:induction false} PreorderOfAppend<T>(a: Forest<T>, b: Forest<T>, above: seq<string>, depth: nat)
    ensures PreorderAll(Append(a, b), above, depth) == PreorderAll(a, above, depth) + PreorderAll(b, above, depth)
    decreases a
  {
    if a.Nil? {
      assert [] + PreorderAll(b, above, depth) == PreorderAll(b, above, depth);
    } else {
      PreorderOfAppend(a.tail, b, above, depth);
      ConcatIsAssociative(Preorder(a.head, above, depth), PreorderAll(a.tail, above, depth),
                          PreorderAll(b, above, depth));
    }
  }

  /** A tag comes before what lies below it. */
  lemma ParentComesFirst<T>(tree: Tree<T>, above: seq<string>, depth: nat)
    ensures Preorder(tree, above, depth) != []
    ensures var top := Preorder(tree, above, depth)[0];
            && top.path == above + [tree.name] && top.id == tree.id && top.depth == depth
            && top.payload == if tree.Leaf? then Some(tree.payload) else None
    ensures tree.Parent? ==>
              Preorder(tree, above, depth)[1..] == PreorderAll(tree.children, above + [tree.name], depth + 1)
    ensures tree.Leaf? ==> |Preorder(tree, above, depth)| == 1
  {
  }

  // ----- routing -----

  predicate HasDot(s: string) {
    '.' in s
  }

  /** The position of the first dot. */
  function Find(s: string): (p: nat)
    requires HasDot(s)
    ensures p < |s| && s[p] == '.' && '.' !in s[..p]
  {
    if s[0] == '.' then 0
    else
      var p := Find(s[1..]);
      assert s[..p + 1] == [s[0]] + s[1..][..p];
      p + 1
  }

  /** The text before the first dot and the text behind it. */
  function GetHeadTail(s: string): (string, string) {
    if HasDot(s) then (s[..Find(s)], s[Find(s) + 1..]) else (s, "")
  }

  lemma HeadTailSplits(s: string)
    ensures var (head, tail) := GetHeadTail(s);
            Split(s, '.') == [head] + if HasDot(s) then Split(tail, '.') else []
  {
    if HasDot(s) {
      var p := Find(s);
      assert s == s[..p] + ['.'] + s[p + 1..];
      SplitAtSeparator(s[..p], s[p + 1..], '.');
    } else {
      SplitWord(s, '.');
    }
  }

  /** The nodes a command for `path` is sent to, in order. */
  function Routed<T>(tree: Tree<T>, above: seq<string>, depth: nat, path: string): seq<Node<T>> {
    if tree.Leaf? then
      if path == tree.name || path == "" then [Top(tree, above, depth)] else []
    else if path == "" then Preorder(tree, above, depth)
    else
      var (head, tail) := GetHeadTail(path);
      if head != tree.name then []
      else if tail == "" then Preorder(tree, above, depth)
      else RoutedAll(tree.children, above + [tree.name], depth + 1, tail)
  }

  function RoutedAll<T>(trees: Forest<T>, above: seq<string>, depth: nat, path: string): seq<Node<T>> {
    if trees.Nil? then []
    else Routed(trees.head, above, depth, path) + RoutedAll(trees.tail, above, depth, path)
  }

  function Filter<A>(s: seq<A>, keep: A -> bool): seq<A> {
    if s == [] then [] else (if keep(s[0]) then [s[0]] else []) + Filter(s[1..], keep)
  }

  lemma {:induction false} FilterConcat<A>(a: seq<A>, b: seq<A>, keep: A -> bool)
    ensures Filter(a + b, keep) == Filter(a, keep) + Filter(b, keep)
  {
    if a == [] {
      assert a + b == b;
    } else {
      TailOfConcat(a, b);
      FilterConcat(a[1..], b, keep);
      ConcatIsAssociative(if keep(a[0]) then [a[0]] else [], Filter(a[1..], keep), Filter(b, keep));
    }
  }

  lemma {:induction false} FilterNone<A>(s: seq<A>, keep: A -> bool)
    requires forall x <- s :: !keep(x)
    ensures Filter(s, keep) == []
  {
    if s != [] {
      FilterNone(s[1..], keep);
    }
  }

  lemma {:induction false} FilterAll<A>(s: seq<A>, keep: A -> bool)
    requires forall x <- s :: keep(x)
    ensures Filter(s, keep) == s
  {
    if s != [] {
      FilterAll(s[1..], keep);
      HeadAndTail(s);
    }
  }

  lemma {:induction false} FilterAgrees<A>(s: seq<A>, f: A -> bool, g: A -> bool)
    requires forall x <- s :: f(x) == g(x)
    ensures Filter(s, f) == Filter(s, g)
  {
    if s != [] {
      FilterAgrees(s[1..], f, g);
    }
  }

  /** The names a dotted path gives; a dot at its end adds an empty one. */
  predicate TrailingDot(parts: seq<string>) {
    |parts| > 1 && parts[|parts| - 1] == ""
  }

  /** A dotted path addresses the tag with these names and all tags below it. A path that ends in a
      dot addresses parents and what is below them, but no leaf. The empty path addresses all. */
  predicate Designates(parts: seq<string>, names: seq<string>, isParent: bool) {
    || parts == [""]
    || parts <= names
    || (TrailingDot(parts) && parts[..|parts| - 1] <= names && (|names| >= |parts| || isParent))
  }

  function Addressed<T>(path: string, above: nat): Node<T> -> bool {
    (n: Node<T>) => |n.path| >= above && Designates(Split(path, '.'), n.path[above..], n.IsParent())
  }

  predicate NameOk(name: string) {
    '.' !in name
  }

  predicate NamesOk<T>(tree: Tree<T>) {
    NameOk(tree.name) && (tree.Parent? ==> AllNamesOk(tree.children))
  }

  predicate AllNamesOk<T>(trees: Forest<T>) {
    trees.Cons? ==> NamesOk(trees.head) && AllNamesOk(trees.tail)
  }

  lemma {:induction false} EmptySplit(path: string)
    ensures Split(path, '.') == [""] <==> path == ""
  {
    JoinSplit(path, '.');
  }

  lemma NamesBelow<T>(n: Node<T>, above: seq<string>, depth: nat, name: string)
    requires LiesBelow(n, above, depth) && n.path[|above|] == name
    ensures n.path[|above|..] == [name] + n.path[|above| + 1..]
  {
  }

  lemma PrefixBelow<A>(x: A, a: seq<A>, b: seq<A>)
    ensures [x] + a <= [x] + b <==> a <= b
  {
    assert ([x] + a)[1..] == a && ([x] + b)[1..] == b;
  }

  /** A tag is addressed by `name.tail` exactly if what follows the name is addressed by `tail`. */
  lemma DesignatesBelow(name: string, parts: seq<string>, names: seq<string>, isParent: bool)
    requires parts != [] && parts != [""]
    ensures Designates([name] + parts, [name] + names, isParent) <==> Designates(parts, names, isParent)
  {
    PrefixBelow(name, parts, names);
    FrontOfConcat([name], parts);
    PrefixBelow(name, parts[..|parts| - 1], names);
  }

  lemma LeafRoute<T>(tree: Tree<T>, above: seq<string>, depth: nat, path: string)
    requires tree.Leaf? && NamesOk(tree)
    ensures Routed(tree, above, depth, path) == Filter(Preorder(tree, above, depth), Addressed(path, |above|))
  {
    var top := Top(tree, above, depth);
    assert Preorder(tree, above, depth) == [top] && [top][1..] == [];
    assert top.path[|above|..] == [tree.name];
    EmptySplit(path);
    SplitWord(tree.name, '.');
    JoinSplit(path, '.');
    var parts := Split(path, '.');
    assert parts <= [tree.name] ==> parts == [tree.name];
  }

  /** A parent whose name differs from the first part of the path is not on the way. */
  lemma OtherParent<T>(tree: Tree<T>, above: seq<string>, depth: nat, path: string)
    requires tree.Parent? && path != "" && GetHeadTail(path).0 != tree.name
    ensures forall n <- Preorder(tree, above, depth) :: !Addressed(path, |above|)(n)
  {
    PreorderLiesBelow(tree, above, depth);
    HeadTailSplits(path);
    EmptySplit(path);
    var parts := Split(path, '.');
    forall n | n in Preorder(tree, above, depth) ensures !Addressed(path, |above|)(n) {
      assert n.path[|above|..][0] == tree.name != parts[0];
      assert TrailingDot(parts) ==> parts[..|parts| - 1][0] == parts[0];
    }
  }

  /** A path that ends at a parent addresses everything in its tree. */
  lemma WholeTree<T>(tree: Tree<T>, above: seq<string>, depth: nat, path: string)
    requires tree.Parent? && GetHeadTail(path) == (tree.name, "")
    ensures forall n <- Preorder(tree, above, depth) :: Addressed(path, |above|)(n)
  {
    PreorderLiesBelow(tree, above, depth);
    HeadTailSplits(path);
    var parts := Split(path, '.');
    assert parts == [tree.name] || parts == [tree.name, ""];
    forall n | n in Preorder(tree, above, depth) ensures Addressed(path, |above|)(n) {
      NamesBelow(n, above, depth, tree.name);
      assert [tree.name] <= n.path[|above|..];
      if parts == [tree.name, ""] {
        assert parts[..1] == [tree.name];
        TopIsParent(tree, above, depth, n);
      }
    }
  }

  lemma TopIsParent<T>(tree: Tree<T>, above: seq<string>, depth: nat, n: Node<T>)
    requires tree.Parent? && n in Preorder(tree, above, depth)
    ensures |n.path| >= |above| + 2 || n.IsParent()
  {
    var inner := above + [tree.name];
    PreorderAllLiesBelow(tree.children, inner, depth + 1);
    if n in PreorderAll(tree.children, inner, depth + 1) {
      assert LiesBelow(n, inner, depth + 1);
    }
  }

  /** A longer path leaves out the parent itself and goes on below it. */
  lemma BelowParent<T>(tree: Tree<T>, above: seq<string>, depth: nat, path: string)
    requires tree.Parent? && GetHeadTail(path).0 == tree.name && GetHeadTail(path).1 != ""
    ensures !Addressed(path, |above|)(Top(tree, above, depth))
    ensures forall n <- PreorderAll(tree.children, above + [tree.name], depth + 1) ::
              Addressed(path, |above|)(n) == Addressed(GetHeadTail(path).1, |above| + 1)(n)
  {
    var tail, inner := GetHeadTail(path).1, above + [tree.name];
    HeadTailSplits(path);
    assert Split(path, '.') == [tree.name] + Split(tail, '.');
    EmptySplit(tail);
    var top := Top(tree, above, depth);
    assert top.path[|above|..] == [tree.name] + [];
    DesignatesBelow(tree.name, Split(tail, '.'), [], true);
    PreorderAllLiesBelow(tree.children, inner, depth + 1);
    forall n | n in PreorderAll(tree.children, inner, depth + 1)
      ensures Addressed(path, |above|)(n) == Addressed(tail, |above| + 1)(n)
    {
      assert LiesBelow(n, inner, depth + 1);
      assert n.path[|above|] == inner[|above|] == tree.name;
      assert n.path[|above|..] == [tree.name] + n.path[|above| + 1..];
      DesignatesBelow(tree.name, Split(tail, '.'), n.path[|above| + 1..], n.IsParent());
    }
  }

  /** A command for a dotted path goes to exactly the nodes the path addresses, once each, in
      preorder. */
  lemma {:induction false} RouteIsAddressed<T>(tree: Tree<T>, above: seq<string>, depth: nat, path: string)
    requires NamesOk(tree)
    ensures Routed(tree, above, depth, path) == Filter(Preorder(tree, above, depth), Addressed(path, |above|))
    decreases tree
  {
    var all, keep := Preorder(tree, above, depth), Addressed(path, |above|);
    if tree.Leaf? {
      LeafRoute(tree, above, depth, path);
    } else if path == "" {
      PreorderLiesBelow(tree, above, depth);
      FilterAll(all, keep);
    } else if GetHeadTail(path).0 != tree.name {
      OtherParent(tree, above, depth, path);
      FilterNone(all, keep);
    } else if GetHeadTail(path).1 == "" {
      WholeTree(tree, above, depth, path);
      FilterAll(all, keep);
    } else {
      var tail, inner := GetHeadTail(path).1, above + [tree.name];
      var rest := PreorderAll(tree.children, inner, depth + 1);
      BelowParent(tree, above, depth, path);
      RouteAllIsAddressed(tree.children, inner, depth + 1, tail);
      FilterAgrees(rest, keep, Addressed(tail, |inner|));
      var top := [Top(tree, above, depth)];
      FilterConcat(top, rest, keep);
      FilterNone(top, keep);
    }
  }

  lemma {:induction false} RouteAllIsAddressed<T>(trees: Forest<T>, above: seq<string>, depth: nat, path: string)
    requires AllNamesOk(trees)
    ensures RoutedAll(trees, above, depth, path) ==
            Filter(PreorderAll(trees, above, depth), Addressed(path, |above|))
    decreases trees
  {
    if trees.Cons? {
      RouteIsAddressed(trees.head, above, depth, path);
      RouteAllIsAddressed(trees.tail, above, depth, path);
      FilterConcat(Preorder(trees.head, above, depth), PreorderAll(trees.tail, above, depth),
                   Addressed(path, |above|));
    }
  }

  // ----- the tag at a path -----

  /** A tag's tree and where it hangs. */
  datatype Place<T> = Place(tree: Tree<T>, above: seq<string>, depth: nat)

  /** The tag that `names` lead to, one name a level. */
  function Lookup<T>(tree: Tree<T>, above: seq<string>, depth: nat, names: seq<string>): Option<Place<T>>
    requires names != []
  {
    if names[0] != tree.name then None
    else if |names| == 1 then Some(Place(tree, above, depth))
    else if tree.Leaf? then None
    else LookupAll(tree.children, above + [tree.name], depth + 1, names[1..])
  }

  function LookupAll<T>(trees: Forest<T>, above: seq<string>, depth: nat, names: seq<string>): Option<Place<T>>
    requires names != []
  {
    if trees.Nil? then None
    else
      var p := Lookup(trees.head, above, depth, names);
      if p.Some? then p else LookupAll(trees.tail, above, depth, names)
  }

  predicate Names<T>(trees: Forest<T>, name: string) {
    trees.Cons? && (trees.head.name == name || Names(trees.tail, name))
  }

  /** No two children of a tag share a name. */
  predicate SiblingsDiffer<T>(tree: Tree<T>) {
    tree.Parent? ==> AllDiffer(tree.children)
  }

  predicate AllDiffer<T>(trees: Forest<T>) {
    trees.Cons? ==> SiblingsDiffer(trees.head) && !Names(trees.tail, trees.head.name) && AllDiffer(trees.tail)
  }

  function Below<T>(p: Option<Place<T>>): seq<Node<T>> {
    if p.None? then [] else Preorder(p.value.tree, p.value.above, p.value.depth)
  }

  lemma OtherName(name: string, path: string)
    requires NameOk(name) && path != "" && Split(path, '.')[0] != name
    ensures path != name && GetHeadTail(path).0 != name
  {
    SplitWord(name, '.');
    HeadTailSplits(path);
  }

  lemma {:induction false} NotNamedNotRouted<T>(trees: Forest<T>, above: seq<string>, depth: nat, path: string)
    requires AllNamesOk(trees) && path != "" && !Names(trees, Split(path, '.')[0])
    ensures RoutedAll(trees, above, depth, path) == []
    decreases trees
  {
    if trees.Cons? {
      OtherName(trees.head.name, path);
      NotNamedNotRouted(trees.tail, above, depth, path);
    }
  }

  /** The path does not end in a dot and is not empty. */
  predicate EndsInName(path: string) {
    var parts := Split(path, '.');
    parts[|parts| - 1] != ""
  }

  lemma OneName(path: string)
    requires |Split(path, '.')| == 1
    ensures Split(path, '.') == [path]
  {
    JoinSplit(path, '.');
    assert Split(path, '.') == [Split(path, '.')[0]];
  }

  /** When siblings have different names, a path that ends in a name sends a command to the one tag
      it leads to and all tags below it, or to none. */
  lemma {:induction false} RouteIsSubtree<T>(tree: Tree<T>, above: seq<string>, depth: nat, path: string)
    requires NamesOk(tree) && SiblingsDiffer(tree) && EndsInName(path)
    ensures Routed(tree, above, depth, path) == Below(Lookup(tree, above, depth, Split(path, '.')))
    decreases tree
  {
    var parts := Split(path, '.');
    HeadTailSplits(path);
    SplitWord(tree.name, '.');
    if parts[0] != tree.name {
      OtherName(tree.name, path);
    } else if |parts| == 1 {
      OneName(path);
    } else if tree.Parent? {
      var tail := GetHeadTail(path).1;
      assert parts[1..] == Split(tail, '.');
      RouteAllIsSubtree(tree.children, above + [tree.name], depth + 1, tail);
    }
  }

  lemma {:induction false} RouteAllIsSubtree<T>(trees: Forest<T>, above: seq<string>, depth: nat, path: string)
    requires AllNamesOk(trees) && AllDiffer(trees) && EndsInName(path)
    ensures RoutedAll(trees, above, depth, path) == Below(LookupAll(trees, above, depth, Split(path, '.')))
    decreases trees
  {
    if trees.Cons? {
      RouteIsSubtree(trees.head, above, depth, path);
      if Lookup(trees.head, above, depth, Split(path, '.')).Some? {
        NotNamedNotRouted(trees.tail, above, depth, path);
      } else {
        RouteAllIsSubtree(trees.tail, above, depth, path);
      }
    }
  }
}
