/**
 Lexical path normalisation: `.` is dropped and `..` removes the name before it.

 Components are those of a Unix path.  What a path means is where walking it leads in a tree of
 directories.
 */
module NormalizePath {
  import opened Wrappers

  datatype Component = RootDir | CurDir | ParentDir | Normal(name: string)

  // ----- the loop over its buffer -----

  /** Pushing the root replaces what the buffer holds; anything else is appended. */
  function Push(buffer: seq<Component>, c: Component): seq<Component> {
    if c.RootDir? then [RootDir] else buffer + [c]
  }

  /** Popping removes the last component, unless the buffer is empty or the root alone. */
  function Pop(buffer: seq<Component>): seq<Component> {
    if buffer == [] || buffer[|buffer| - 1].RootDir? then buffer else buffer[..|buffer| - 1]
  }

  function Buffer(cs: seq<Component>): seq<Component> {
    if cs == [] then []
    else
      var front, c := Buffer(cs[..|cs| - 1]), cs[|cs| - 1];
      match c
      case CurDir => front
      case ParentDir => Pop(front)
      case RootDir => Push(front, c)
      case Normal(_) => Push(front, c)
  }

  /** The loop of `normalize_path` over its mutable result. */
  method NormalizePathLoop(cs: seq<Component>) returns (result: seq<Component>)
    ensures result == Buffer(cs)
  {
    result := [];
    for i := 0 to |cs|
      invariant result == Buffer(cs[..i])
    {
      assert cs[..i + 1][..i] == cs[..i];
      match cs[i] {
        case CurDir =>
        case ParentDir => result := Pop(result);
        case RootDir => result := Push(result, RootDir);
        case Normal(name) => result := Push(result, Normal(name));
      }
    }
    assert cs[..|cs|] == cs;
  }

  /** After an optional root there are only names. */
  predicate Dotless(buffer: seq<Component>) {
    forall i :: 0 <= i < |buffer| ==> buffer[i].Normal? || (buffer[i].RootDir? && i == 0)
  }

  /** No dots are left in the buffer. */
  lemma {:induction false} NoDotsLeft(cs: seq<Component>)
    ensures Dotless(Buffer(cs))
  {
    if cs != [] {
      NoDotsLeft(cs[..|cs| - 1]);
    }
  }

  // ----- normal forms -----

  /** A normal form: absolute or not, and its names. */
  datatype Path = Path(absolute: bool, names: seq<string>)

  const Empty := Path(false, [])

  function PushComponent(p: Path, c: Component): Path {
    match c
    case CurDir => p
    case ParentDir => if p.names == [] then p else Path(p.absolute, p.names[..|p.names| - 1])
    case RootDir => Path(true, [])
    case Normal(name) => Path(p.absolute, p.names + [name])
  }

  function Normalize(cs: seq<Component>): Path {
    if cs == [] then Empty else PushComponent(Normalize(cs[..|cs| - 1]), cs[|cs| - 1])
  }

  // ----- algebra -----

  function NormalComponents(names: seq<string>): seq<Component> {
    if names == [] then []
    else NormalComponents(names[..|names| - 1]) + [Normal(names[|names| - 1])]
  }

  /** The components of a normalised path. */
  function Components(p: Path): seq<Component> {
    (if p.absolute then [RootDir] else []) + NormalComponents(p.names)
  }

  lemma ComponentsOfPush(p: Path, c: Component)
    ensures Components(PushComponent(p, c)) ==
              match c
              case CurDir => Components(p)
              case ParentDir => Pop(Components(p))
              case RootDir => Push(Components(p), c)
              case Normal(_) => Push(Components(p), c)
  {
    match c
    case CurDir =>
    case RootDir =>
    case ParentDir =>
      if p.names != [] {
        var n := |p.names| - 1;
        assert Components(p) == Components(Path(p.absolute, p.names[..n])) + [Normal(p.names[n])];
      }
    case Normal(name) =>
      assert (p.names + [name])[..|p.names|] == p.names;
      assert Components(PushComponent(p, c)) == Components(p) + [c];
  }

  /** What the loop leaves in its buffer are the components of the normal form. */
  lemma {:induction false} BufferIsNormalForm(cs: seq<Component>)
    ensures Buffer(cs) == Components(Normalize(cs))
  {
    if cs != [] {
      hide Components, Push, Pop, PushComponent;
      BufferIsNormalForm(cs[..|cs| - 1]);
      ComponentsOfPush(Normalize(cs[..|cs| - 1]), cs[|cs| - 1]);
    } else {
      assert Components(Empty) == [];
    }
  }

  /** Pushing further components onto a path. */
  function PushAll(p: Path, cs: seq<Component>): Path {
    if cs == [] then p else PushComponent(PushAll(p, cs[..|cs| - 1]), cs[|cs| - 1])
  }

  lemma {:induction false} NormalizeAppend(cs: seq<Component>, ds: seq<Component>)
    ensures Normalize(cs + ds) == PushAll(Normalize(cs), ds)
  {
    if ds == [] {
      assert cs + ds == cs;
    } else {
      var n := |ds| - 1;
      NormalizeAppend(cs, ds[..n]);
      var all := cs + ds;
      assert all[..|all| - 1] == cs + ds[..n];
    }
  }

  lemma NormalizeSnoc(cs: seq<Component>, c: Component)
    ensures Normalize(cs + [c]) == PushComponent(Normalize(cs), c)
  {
    assert (cs + [c])[..|cs|] == cs;
  }

  lemma {:induction false} NormalizeNames(cs: seq<Component>, names: seq<string>)
    ensures Normalize(cs + NormalComponents(names))
         == Path(Normalize(cs).absolute, Normalize(cs).names + names)
  {
    hide Normalize;
    if names == [] {
      assert cs + NormalComponents(names) == cs;
      assert Normalize(cs).names + names == Normalize(cs).names;
    } else {
      var n := |names| - 1;
      NormalizeNames(cs, names[..n]);
      NormalizeSnoc(cs + NormalComponents(names[..n]), Normal(names[n]));
      assert cs + NormalComponents(names) == cs + NormalComponents(names[..n]) + [Normal(names[n])];
      assert Normalize(cs).names + names == Normalize(cs).names + names[..n] + [names[n]];
    }
  }

  /** Normalising is idempotent: a normalised path is its own normal form. */
  lemma NormalizeIdempotent(p: Path)
    ensures Normalize(Components(p)) == p
  {
    var root := if p.absolute then [RootDir] else [];
    if p.absolute {
      assert Normalize([]) == Empty;
      assert Normalize(root) == Path(true, []);
    }
    NormalizeNames(root, p.names);
  }

  /** Normalising a first part early changes nothing. */
  lemma NormalizePrefix(cs: seq<Component>, ds: seq<Component>)
    ensures Normalize(cs + ds) == Normalize(Components(Normalize(cs)) + ds)
  {
    NormalizeAppend(cs, ds);
    NormalizeAppend(Components(Normalize(cs)), ds);
    NormalizeIdempotent(Normalize(cs));
  }

  // ----- meaning -----

  /** A tree of directories, without links. */
  datatype Tree<!Node> = Tree(root: Node, parent: Node -> Node, child: (Node, string) -> Option<Node>)

  /** The root is its own parent, and a child's parent is the directory it was found in. */
  ghost predicate Rooted<Node(!new)>(t: Tree<Node>) {
    && t.parent(t.root) == t.root
    && forall n: Node, name: string :: t.child(n, name).Some? ==> t.parent(t.child(n, name).value) == n
  }

  function WalkOne<Node>(t: Tree<Node>, at: Node, c: Component): Option<Node> {
    match c
    case RootDir => Some(t.root)
    case CurDir => Some(at)
    case ParentDir => Some(t.parent(at))
    case Normal(name) => t.child(at, name)
  }

  /** Where a path leads from a directory, if everywhere on the way there is a child of that name. */
  function Walk<Node>(t: Tree<Node>, start: Node, cs: seq<Component>): Option<Node> {
    if cs == [] then Some(start)
    else
      match Walk(t, start, cs[..|cs| - 1])
      case None => None
      case Some(at) => WalkOne(t, at, cs[|cs| - 1])
  }

  lemma WalkNames<Node>(t: Tree<Node>, start: Node, p: Path, name: string)
    ensures Walk(t, start, Components(Path(p.absolute, p.names + [name])))
         == match Walk(t, start, Components(p))
            case None => None
            case Some(at) => t.child(at, name)
  {
    var all := Components(Path(p.absolute, p.names + [name]));
    assert (p.names + [name])[..|p.names|] == p.names;
    assert all[..|all| - 1] == Components(p);
    assert all[|all| - 1] == Normal(name);
  }

  lemma WalkRoot<Node>(t: Tree<Node>, start: Node)
    ensures Walk(t, start, Components(Path(true, []))) == Some(t.root)
    ensures Walk(t, start, Components(Path(false, []))) == Some(start)
  {
    assert Components(Path(true, []))[..0] == [];
    assert Walk(t, start, []) == Some(start);
  }

  // ----- climbing -----

  /** The `..` of a path less its names. */
  function Rise(cs: seq<Component>): int {
    if cs == [] then 0
    else
      var c := cs[|cs| - 1];
      Rise(cs[..|cs| - 1]) + (if c.ParentDir? then 1 else if c.Normal? then -1 else 0)
  }

  /** The highest rise over all prefixes. */
  function Highest(cs: seq<Component>): nat {
    if cs == [] then 0
    else
      var before := Highest(cs[..|cs| - 1]);
      if Rise(cs) > before then Rise(cs) else before
  }

  /** How far a path climbs above its start: not at all if it has a root, else its highest rise. */
  function Climbs(cs: seq<Component>): nat {
    if RootDir in cs then 0 else Highest(cs)
  }

  /** The names left are as many as the path lies below its highest point. */
  lemma {:induction false} NamesLeft(cs: seq<Component>)
    requires RootDir !in cs
    ensures !Normalize(cs).absolute && |Normalize(cs).names| == Highest(cs) - Rise(cs)
  {
    if cs != [] {
      assert cs[|cs| - 1] in cs;
      NamesLeft(cs[..|cs| - 1]);
    }
  }

  lemma {:induction false} RootStays(cs: seq<Component>)
    ensures Normalize(cs).absolute <==> RootDir in cs
  {
    if cs != [] {
      var n := |cs| - 1;
      RootStays(cs[..n]);
      assert cs == cs[..n] + [cs[n]];
    }
  }

  /** Wherever such a path leads, in any tree and from any start, its normal form leads too. */
  lemma {:induction false} MeaningKept<Node(!new)>(t: Tree<Node>, start: Node, cs: seq<Component>)
    requires Rooted(t) && Climbs(cs) == 0 && Walk(t, start, cs).Some?
    ensures Walk(t, start, Components(Normalize(cs))) == Walk(t, start, cs)
  {
    hide Components;
    WalkRoot(t, start);
    if cs != [] && !cs[|cs| - 1].RootDir? {
      var front, c := cs[..|cs| - 1], cs[|cs| - 1];
      assert cs == front + [c];
      MeaningKept(t, start, front);
      var p := Normalize(front);
      match c
      case CurDir =>
      case Normal(name) => WalkNames(t, start, p, name);
      case ParentDir =>
        if p.names != [] {
          var n := |p.names| - 1;
          assert p.names == p.names[..n] + [p.names[n]];
          WalkNames(t, start, Path(p.absolute, p.names[..n]), p.names[n]);
        } else {
          RootStays(front);
          if RootDir !in cs {
            NamesLeft(front);
          }
        }
    }
  }

  /** An absolute path leads where its normal form leads, in any tree. */
  lemma AbsoluteMeaningKept<Node(!new)>(t: Tree<Node>, start: Node, cs: seq<Component>)
    requires Rooted(t) && cs != [] && cs[0].RootDir? && Walk(t, start, cs).Some?
    ensures Walk(t, start, Components(Normalize(cs))) == Walk(t, start, cs)
  {
    assert RootDir in cs;
    MeaningKept(t, start, cs);
  }

  // ----- a path that climbs loses its meaning -----

  function Up(at: seq<string>): seq<string> {
    if at == [] then [] else at[..|at| - 1]
  }

  function Down(at: seq<string>, name: string): Option<seq<string>> {
    Some(at + [name])
  }

  /** The tree in which every directory has a child of every name. */
  function FullTree(): Tree<seq<string>> {
    Tree([], Up, Down)
  }

  lemma FullTreeIsRooted()
    ensures Rooted(FullTree())
  {
  }

  lemma {:induction false} WalkFullTree(start: seq<string>, cs: seq<Component>)
    requires RootDir !in cs && Highest(cs) <= |start|
    ensures Walk(FullTree(), start, cs) == Some(start[..|start| - Highest(cs)] + Normalize(cs).names)
  {
    if cs == [] {
      assert start[..|start|] + [] == start;
    } else {
      var front, c := cs[..|cs| - 1], cs[|cs| - 1];
      assert cs == front + [c];
      WalkFullTree(start, front);
      NamesLeft(front);
      var kept, names := start[..|start| - Highest(front)], Normalize(front).names;
      StepFullTree(kept, names, c);
      if c.ParentDir? && names == [] {
        assert Up(kept) == start[..|start| - Highest(cs)];
      }
    }
  }

  lemma StepFullTree(kept: seq<string>, names: seq<string>, c: Component)
    requires !c.RootDir?
    ensures WalkOne(FullTree(), kept + names, c) ==
              Some((if c.ParentDir? && names == [] then Up(kept) else kept) + PushComponent(Path(false, names), c).names)
  {
    match c
    case CurDir =>
    case Normal(name) => assert kept + names + [name] == kept + (names + [name]);
    case ParentDir =>
      if names != [] {
        assert Up(kept + names) == kept + names[..|names| - 1];
      } else {
        assert kept + [] == kept;
        assert Up(kept) + [] == Up(kept);
      }
  }

  lemma {:induction false} WalkDownFullTree(start: seq<string>, names: seq<string>)
    ensures Walk(FullTree(), start, Components(Path(false, names))) == Some(start + names)
  {
    hide Components;
    WalkRoot(FullTree(), start);
    if names == [] {
      assert start + names == start;
    } else {
      var n := |names| - 1;
      WalkDownFullTree(start, names[..n]);
      WalkNames(FullTree(), start, Path(false, names[..n]), names[n]);
      assert names == names[..n] + [names[n]];
      assert start + names == start + names[..n] + [names[n]];
    }
  }

  /** A path that climbs leads elsewhere than its normal form, in the full tree, from a directory deep enough. */
  lemma ClimbingLosesMeaning(cs: seq<Component>)
    requires Climbs(cs) > 0
    ensures exists start :: Walk(FullTree(), start, cs).Some?
              && Walk(FullTree(), start, Components(Normalize(cs))) != Walk(FullTree(), start, cs)
  {
    hide Walk, Components;
    RootStays(cs);
    var start := seq(Climbs(cs), _ => "d");
    WalkFullTree(start, cs);
    WalkDownFullTree(start, Normalize(cs).names);
    assert Path(false, Normalize(cs).names) == Normalize(cs);
    assert |start + Normalize(cs).names| != |start[..|start| - Climbs(cs)] + Normalize(cs).names|;
  }

  /** Where the path leads from everywhere in a tree, its normal form leads too. */
  ghost predicate KeepsMeaning(t: Tree<seq<string>>, cs: seq<Component>) {
    forall start :: Walk(t, start, cs).Some? ==> Walk(t, start, Components(Normalize(cs))) == Walk(t, start, cs)
  }

  /**
   Normalisation keeps what a path means, in every tree and from every start, exactly when the path
   does not climb above its start.
   */
  lemma MeaningKeptExactly(cs: seq<Component>)
    ensures (forall t: Tree<seq<string>> :: Rooted(t) ==> KeepsMeaning(t, cs)) <==> Climbs(cs) == 0
  {
    if Climbs(cs) == 0 {
      forall t: Tree<seq<string>>, start | Rooted(t) && Walk(t, start, cs).Some?
        ensures Walk(t, start, Components(Normalize(cs))) == Walk(t, start, cs)
      {
        MeaningKept(t, start, cs);
      }
    } else {
      hide Walk, Components, Climbs;
      FullTreeIsRooted();
      ClimbingLosesMeaning(cs);
      assert !KeepsMeaning(FullTree(), cs);
    }
  }

  /** The smallest failing path: the parent at the start of `../a` is lost. */
  lemma LeadingParentLost(name: string)
    ensures Climbs([ParentDir, Normal(name)]) == 1
    ensures Buffer([ParentDir, Normal(name)]) == [Normal(name)]
  {
    var cs := [ParentDir, Normal(name)];
    assert cs[..1] == [ParentDir] && [ParentDir][..0] == [];
    assert Rise([ParentDir]) == 1 && Highest([ParentDir]) == 1;
    assert Buffer([ParentDir]) == [];
    assert RootDir !in cs;
  }
}
