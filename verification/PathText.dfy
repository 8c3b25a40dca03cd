/** Paths as text: reading the components of a Unix path, and showing a normalised one. */
module PathText {
  import opened NormalizePath
  import opened Text

  /** A name a directory entry can have. */
  predicate Proper(name: string) {
    name != "" && name != "." && name != ".." && Free(name, '/')
  }

  predicate AllProper(names: seq<string>) {
    forall i :: 0 <= i < |names| ==> Proper(names[i])
  }

  /** Repeated separators and inner dots vanish; a dot counts only at the start of a relative path. */
  function ReadPieces(pieces: seq<string>): seq<Component> {
    if pieces == [] then []
    else
      var front, last := ReadPieces(pieces[..|pieces| - 1]), pieces[|pieces| - 1];
      if last == "" then front
      else if last == "." then if |pieces| == 1 then [CurDir] else front
      else if last == ".." then front + [ParentDir]
      else front + [Normal(last)]
  }

  function ReadPath(s: string): seq<Component> {
    if s != "" && s[0] == '/' then [RootDir] + ReadPieces([""] + Split(s[1..], '/'))
    else ReadPieces(Split(s, '/'))
  }

  function ShowPath(p: Path): string {
    (if p.absolute then "/" else "") + Join(p.names, '/')
  }

  /** Normalisation from text to text. */
  function NormalizeText(s: string): string {
    ShowPath(Normalize(ReadPath(s)))
  }

  // ----- what a text says -----

  /** Steps are names and `..`. */
  predicate Steps(cs: seq<Component>) {
    forall i :: 0 <= i < |cs| ==> cs[i].ParentDir? || cs[i].Normal?
  }

  /** The texts of steps. */
  function Texts(cs: seq<Component>): (texts: seq<string>)
    requires Steps(cs)
    ensures |texts| == |cs|
    ensures forall i :: 0 <= i < |cs| ==> texts[i] == if cs[i].ParentDir? then ".." else cs[i].name
  {
    seq(|cs|, i requires 0 <= i < |cs| => if cs[i].ParentDir? then ".." else cs[i].name)
  }

  /** The pieces that are neither empty nor a dot. */
  function Solid(pieces: seq<string>): seq<string> {
    if pieces == [] then []
    else if pieces[0] in {"", "."} then Solid(pieces[1..])
    else [pieces[0]] + Solid(pieces[1..])
  }

  /** Steps whose names could be read as nothing else. */
  predicate Plain(cs: seq<Component>) {
    Steps(cs) && forall i :: 0 <= i < |cs| && cs[i].Normal? ==> cs[i].name !in {"", ".", ".."}
  }

  lemma SolidStep(first: string, rest: seq<string>)
    ensures Solid([]) == []
    ensures Solid([first] + rest) == if first in {"", "."} then Solid(rest) else [first] + Solid(rest)
  {
    assert ([first] + rest)[1..] == rest;
  }

  lemma {:induction false} SolidSnoc(front: seq<string>, last: string)
    ensures Solid(front + [last]) == if last in {"", "."} then Solid(front) else Solid(front) + [last]
  {
    hide Solid;
    if front == [] {
      SolidStep(last, []);
      assert [last] + [] == [] + [last];
    } else {
      var rest := front[1..];
      SolidSnoc(rest, last);
      SolidStep(front[0], rest);
      SolidStep(front[0], rest + [last]);
      assert front == [front[0]] + rest;
      assert front + [last] == [front[0]] + (rest + [last]);
    }
  }

  lemma ReadPiecesSnoc(front: seq<string>, last: string)
    ensures ReadPieces([]) == []
    ensures ReadPieces(front + [last]) ==
              if last == "" then ReadPieces(front)
              else if last == "." then if front == [] then [CurDir] else ReadPieces(front)
              else ReadPieces(front) + [if last == ".." then ParentDir else Normal(last)]
  {
    assert (front + [last])[..|front|] == front;
  }

  /** The steps of some pieces: all but a leading dot. */
  lemma {:induction false} StepsRead(pieces: seq<string>) returns (cs: seq<Component>)
    ensures Plain(cs) && Texts(cs) == Solid(pieces)
    ensures ReadPieces(pieces) == (if pieces != [] && pieces[0] == "." then [CurDir] else []) + cs
  {
    hide ReadPieces, Solid;
    if pieces == [] {
      ReadPiecesSnoc([], "");
      SolidStep("", []);
      cs := [];
    } else {
      var front, last := pieces[..|pieces| - 1], pieces[|pieces| - 1];
      assert pieces == front + [last];
      cs := StepsRead(front);
      SolidSnoc(front, last);
      ReadPiecesSnoc(front, last);
      if front == [] {
        ReadPiecesSnoc([], "");
        SolidStep("", []);
      }
      if last !in {"", "."} {
        cs := cs + [if last == ".." then ParentDir else Normal(last)];
      }
    }
  }

  lemma TextsDecide(cs: seq<Component>, ds: seq<Component>)
    requires Plain(cs) && Plain(ds) && Texts(cs) == Texts(ds)
    ensures cs == ds
  {
    forall i | 0 <= i < |cs|
      ensures cs[i] == ds[i]
    {
      assert Texts(cs)[i] == Texts(ds)[i];
    }
  }

  /** What a path begins with: the root, or a dot that counts, or nothing. */
  function Start(s: string): seq<Component> {
    if "/" <= s then [RootDir] else if s == "." || "./" <= s then [CurDir] else []
  }

  lemma SplitRooted(s: string)
    requires "/" <= s
    ensures Split(s, '/') == [""] + Split(s[1..], '/')
  {
    assert s[0] == "/"[0];
  }

  lemma DotFirst(s: string)
    ensures Split(s, '/')[0] == "." <==> s == "." || "./" <= s
  {
    FirstPieceOf(s, '/');
    hide Split;
    if "./" <= s {
      assert s[0] == "./"[0] && s[1] == "./"[1];
      assert s == "." + "/" + s[2..];
      IndexOfHead(".", s[2..], '/');
    } else if s == "." {
      assert IndexOf(s, '/') == 1;
    }
  }

  /**
   Every text is read as some steps behind what it begins with: those of its pieces that are neither
   empty nor a dot.
   */
  lemma ReadSteps(s: string) returns (cs: seq<Component>)
    ensures Plain(cs) && ReadPath(s) == Start(s) + cs && Texts(cs) == Solid(Split(s, '/'))
  {
    hide ReadPieces, Solid, Split;
    DotFirst(s);
    if "/" <= s {
      SplitRooted(s);
    }
    cs := StepsRead(Split(s, '/'));
  }

  /**
   For every text and all steps: the text is read as these steps, behind what it begins with,
   exactly when its pieces, but for empty ones and dots, are the texts of the steps.
   */
  lemma ReadPathExactly(s: string, cs: seq<Component>)
    requires Plain(cs)
    ensures ReadPath(s) == Start(s) + cs <==> Solid(Split(s, '/')) == Texts(cs)
  {
    hide ReadPath, Start, Solid, Split;
    var read := ReadSteps(s);
    if ReadPath(s) == Start(s) + cs {
      assert cs == (Start(s) + cs)[|Start(s)|..] == (Start(s) + read)[|Start(s)|..] == read;
    }
    if Texts(cs) == Texts(read) {
      TextsDecide(cs, read);
    }
  }

  lemma {:induction false} SolidKeeps(pieces: seq<string>)
    requires "" !in pieces && "." !in pieces
    ensures Solid(pieces) == pieces
  {
    if pieces != [] {
      assert pieces[0] in pieces;
      SolidKeeps(pieces[1..]);
      assert pieces == [pieces[0]] + pieces[1..];
    }
  }

  /** The pieces of joined steps, and what the text does not begin with. */
  lemma PiecesOfSteps(cs: seq<Component>)
    requires Steps(cs) && ProperComponents(cs)
    ensures var s := Join(Texts(cs), '/');
            Solid(Split(s, '/')) == Texts(cs) && Start(s) == []
  {
    hide Solid, Split, Join;
    var texts := Texts(cs);
    var s := Join(texts, '/');
    if cs == [] {
      JoinNothing();
    } else {
      assert AllFree(texts, '/') && "" !in texts && "." !in texts;
      SplitJoin(texts, '/');
      SolidKeeps(texts);
      DotFirst(s);
      if "/" <= s {
        SplitRooted(s);
      }
      assert texts[0] in texts;
    }
  }

  lemma JoinNothing()
    ensures Join([], '/') == "" && Solid(Split("", '/')) == []
  {
    assert Split("", '/') == [""];
    assert Solid([""]) == Solid([]);
  }

  /** Steps with proper names are read back from their texts, behind a root or not. */
  lemma StepsRoundTrip(cs: seq<Component>)
    requires Steps(cs) && ProperComponents(cs)
    ensures ReadPath("/" + Join(Texts(cs), '/')) == [RootDir] + cs
    ensures ReadPath(Join(Texts(cs), '/')) == cs
  {
    hide ReadPath, Solid, Split, Join;
    var s := Join(Texts(cs), '/');
    PiecesOfSteps(cs);
    ReadPathExactly(s, cs);
    SplitRooted("/" + s);
    assert ("/" + s)[1..] == s;
    SolidCons(Split(s, '/'));
    ReadPathExactly("/" + s, cs);
  }

  lemma SolidCons(pieces: seq<string>)
    ensures Solid([""] + pieces) == Solid(pieces)
  {
    assert ([""] + pieces)[1..] == pieces;
  }

  ghost predicate ProperComponents(cs: seq<Component>) {
    forall i :: 0 <= i < |cs| && cs[i].Normal? ==> Proper(cs[i].name)
  }

  lemma {:induction false} ReadProper(pieces: seq<string>)
    requires AllFree(pieces, '/')
    ensures ProperComponents(ReadPieces(pieces))
  {
    if pieces != [] {
      ReadProper(pieces[..|pieces| - 1]);
    }
  }

  lemma ReadPathProper(s: string)
    ensures ProperComponents(ReadPath(s))
  {
    if s != "" && s[0] == '/' {
      ReadProper([""] + Split(s[1..], '/'));
    } else {
      ReadProper(Split(s, '/'));
    }
  }

  lemma {:induction false} NormalizeProper(cs: seq<Component>)
    requires ProperComponents(cs)
    ensures AllProper(Normalize(cs).names)
  {
    if cs != [] {
      NormalizeProper(cs[..|cs| - 1]);
    }
  }

  lemma {:induction false} ReadNames(names: seq<string>)
    requires AllProper(names)
    ensures ReadPieces(names) == NormalComponents(names)
    ensures ReadPieces([""] + names) == NormalComponents(names)
  {
    var rooted := [""] + names;
    if names == [] {
      assert rooted[..0] == [];
      assert ReadPieces(rooted) == ReadPieces([]);
    } else {
      var n := |names| - 1;
      ReadNames(names[..n]);
      assert rooted[..|rooted| - 1] == [""] + names[..n];
      assert rooted[|rooted| - 1] == names[n];
    }
  }

  lemma ReadNothing()
    ensures ReadPieces(Split("", '/')) == [] && ReadPieces([""] + Split("", '/')) == []
  {
    assert Split("", '/') == [""];
    assert [""][..0] == [];
    assert ReadPieces([""]) == ReadPieces([]);
    assert ([""] + [""])[..1] == [""];
    assert ReadPieces([""] + [""]) == ReadPieces([""]);
  }

  /** A normalised path is read back from its text. */
  lemma ReadShown(p: Path)
    requires AllProper(p.names)
    ensures ReadPath(ShowPath(p)) == Components(p)
  {
    var body := Join(p.names, '/');
    if p.names == [] {
      ReadNothing();
    } else {
      SplitJoin(p.names, '/');
      ReadNames(p.names);
      JoinStart(p.names);
    }
    if p.absolute {
      assert ShowPath(p)[1..] == body;
    } else {
      assert ShowPath(p) == body;
    }
  }

  lemma JoinStart(names: seq<string>)
    requires names != [] && AllProper(names)
    ensures Join(names, '/') != "" && Join(names, '/')[0] == names[0][0] != '/'
  {
    assert names[0][0] in names[0];
  }

  /**
   For every text: the normal form has proper names only, it is read back as itself, and normalising
   it again changes nothing.
   */
  lemma NormalizeTextStable(s: string)
    ensures var p := Normalize(ReadPath(s));
            && AllProper(p.names)
            && ReadPath(NormalizeText(s)) == Components(p)
            && NormalizeText(NormalizeText(s)) == NormalizeText(s)
  {
    ReadPathProper(s);
    NormalizeProper(ReadPath(s));
    ReadShown(Normalize(ReadPath(s)));
    NormalizeIdempotent(Normalize(ReadPath(s)));
  }

  /** An absolute path, as text, leads where its normalised text leads, in any tree. */
  lemma AbsoluteTextMeaning<Node(!new)>(t: Tree<Node>, start: Node, s: string)
    requires Rooted(t) && s != "" && s[0] == '/' && Walk(t, start, ReadPath(s)).Some?
    ensures Walk(t, start, ReadPath(NormalizeText(s))) == Walk(t, start, ReadPath(s))
  {
    NormalizeTextStable(s);
    AbsoluteMeaningKept(t, start, ReadPath(s));
  }

  /** In the text of an absolute path a proper name and the `..` behind it cancel. */
  lemma NameAndParentCancel(cs: seq<Component>, name: string, ds: seq<Component>)
    requires Steps(cs) && ProperComponents(cs) && Steps(ds) && ProperComponents(ds) && Proper(name)
    ensures NormalizeText("/" + Join(Texts(cs + [Normal(name), ParentDir] + ds), '/'))
         == NormalizeText("/" + Join(Texts(cs + ds), '/'))
  {
    hide ReadPath, Join, Normalize;
    var long, short := cs + [Normal(name), ParentDir] + ds, cs + ds;
    StepsRoundTrip(long);
    StepsRoundTrip(short);
    var front := [RootDir] + cs;
    assert [RootDir] + long == front + [Normal(name)] + [ParentDir] + ds;
    assert [RootDir] + short == front + ds;
    NormalizeAppend(front + [Normal(name)] + [ParentDir], ds);
    NormalizeAppend(front, ds);
    NormalizeSnoc(front, Normal(name));
    NormalizeSnoc(front + [Normal(name)], ParentDir);
    assert (Normalize(front).names + [name])[..|Normalize(front).names|] == Normalize(front).names;
  }

  /** ... and a `..` right behind the root does nothing. */
  lemma ParentOfRoot(ds: seq<Component>)
    requires Steps(ds) && ProperComponents(ds)
    ensures NormalizeText("/" + Join(Texts([ParentDir] + ds), '/')) == NormalizeText("/" + Join(Texts(ds), '/'))
  {
    hide ReadPath, Join;
    StepsRoundTrip([ParentDir] + ds);
    StepsRoundTrip(ds);
    assert [RootDir] + ([ParentDir] + ds) == [RootDir] + [ParentDir] + ds;
    NormalizeAppend([RootDir] + [ParentDir], ds);
    NormalizeAppend([RootDir], ds);
    NormalizeSnoc([RootDir], ParentDir);
    assert Normalize([RootDir]) == Path(true, []) by {
      assert [RootDir][..0] == [];
    }
  }
}
