/** What becomes of every tree, well-formed or not, when its compact string is read again. */
module CapabilityReread {
  import opened Capability
  import opened CapabilityRoundTrip
  import opened Text
  import opened Wrappers

  /** A list of texts comes back as the pieces between commas; an empty list as one empty text. */
  function RereadList(xs: seq<string>): seq<string> {
    if xs == [] then [""] else Pieces(xs, ',')
  }

  /** Methods the parser does not know are lost. */
  function KnownOnly(methods: seq<HttpMethod>): seq<HttpMethod> {
    if methods == [] then []
    else (if Known(methods[0]) then [methods[0]] else []) + KnownOnly(methods[1..])
  }

  /** The word for no limit is read as no limit. */
  function RereadLimit(max: string): Option<string> {
    if max == "unlimited" then None else Some(max)
  }

  /**
   A limit with a colon is cut there.  What follows is read as chain ids, but for its last piece,
   which is glued to the first chain id; both are lost.
   */
  function RereadWallet(chains: seq<U64>, max: Option<string>): AgentCapability {
    if max.None? then Wallet(chains, None)
    else if Free(max.value, ':') then Wallet(chains, RereadLimit(max.value))
    else
      var k := IndexOf(max.value, ':');
      var pieces := Split(max.value[k + 1..], ',');
      Wallet(
        FilterMap(ParseChainId, pieces[..|pieces| - 1]) + (if chains == [] then [] else chains[1..]),
        RereadLimit(max.value[..k]))
  }

  /** What every kind but spawn is read back as. */
  function RereadLeaf(c: AgentCapability): AgentCapability
    requires !c.Spawn?
  {
    match c
    case FileRead(paths) => FileRead(RereadList(paths))
    case FileWrite(paths) => FileWrite(RereadList(paths))
    case NetworkHttp(hosts, methods) => NetworkHttp(RereadList(hosts), KnownOnly(methods))
    case NetworkTcp(ports, hosts) => NetworkTcp(ports, if hosts == [] || hosts == ["*"] then [] else RereadList(hosts))
    case Database(tables, operations) => Database(RereadList(tables), operations)
    case ExternalApi(endpoints, limit) => ExternalApi(RereadList(endpoints), limit)
    case Llm(providers, max) => Llm(RereadList(providers), max)
    case Skill(ids, install) => Skill(RereadList(ids), install)
    case Wallet(chains, max) => RereadWallet(chains, max)
  }

  // ----- children -----

  /**
   What a child's print becomes between semicolons: a first capability, if any, and those that come
   loose behind it.
   */
  datatype Cut = Cut(first: Option<AgentCapability>, more: seq<AgentCapability>) {
    function All(): seq<AgentCapability> {
      Listed(first) + more
    }
  }

  function Listed(c: Option<AgentCapability>): seq<AgentCapability> {
    if c.Some? then [c.value] else []
  }

  /** A list of texts up to the first semicolon. */
  function CutTexts(xs: seq<string>): seq<string> {
    if xs == [] then []
    else if Free(xs[0], ';') then [xs[0]] + CutTexts(xs[1..])
    else [xs[0][..IndexOf(xs[0], ';')]]
  }

  /** A leaf with its texts up to the first semicolon. */
  function CutLeaf(c: AgentCapability): (cut: AgentCapability)
    requires !c.Spawn? && !c.Wallet?
    ensures !cut.Spawn? && !cut.Wallet?
  {
    match c
    case FileRead(paths) => FileRead(CutTexts(paths))
    case FileWrite(paths) => FileWrite(CutTexts(paths))
    case NetworkHttp(hosts, methods) => NetworkHttp(CutTexts(hosts), methods)
    case NetworkTcp(ports, hosts) => NetworkTcp(ports, CutTexts(hosts))
    case Database(tables, operations) => Database(CutTexts(tables), operations)
    case ExternalApi(endpoints, limit) => ExternalApi(CutTexts(endpoints), limit)
    case Llm(providers, max) => Llm(CutTexts(providers), max)
    case Skill(ids, install) => Skill(CutTexts(ids), install)
  }

  /** A wallet whose limit holds a semicolon is lost, unless a colon before it makes the rest look like chain ids. */
  function CutWallet(max: string): Option<AgentCapability> {
    var cut := max[..IndexOf(max, ';')];
    if Free(cut, ':') then None
    else
      var k := IndexOf(cut, ':');
      Some(Wallet(ParseList(ParseChainId, cut[k + 1..]), RereadLimit(cut[..k])))
  }

  /** The texts that follow a semicolon inside a leaf: each is read as a compact string of its own. */
  function Loose(c: AgentCapability): seq<string> {
    Split(Middle(c) + ":" + Tail(c), ';')[1..]
  }

  /** A spawn keeps the first capability that its children fall into; all others come loose. */
  function CutChild(c: AgentCapability): Cut
    decreases c, 1
  {
    if c.Spawn? then
      if c.allowed == [] then Cut(Some(c), [])
      else
        var kids := CutChildren(c.allowed);
        Cut(Some(Spawn(c.maxConcurrent, Listed(kids.first))), kids.more)
    else if c.Wallet? then
      if Flat(c) then Cut(Some(RereadLeaf(c)), [])
      else Cut(CutWallet(c.maxTransactionValue.value), ParseAll(Loose(c)))
    else Cut(Some(RereadLeaf(CutLeaf(c))), ParseAll(Loose(c)))
  }

  function CutChildren(cs: seq<AgentCapability>): Cut
    requires cs != []
    decreases cs, 0
  {
    var head := CutChild(cs[0]);
    if |cs| == 1 then head else Cut(head.first, head.more + CutChildren(cs[1..]).All())
  }

  /** What any tree is read back as. */
  function Reread(c: AgentCapability): AgentCapability {
    if !c.Spawn? then RereadLeaf(c)
    else if c.allowed == [] then c
    else Spawn(c.maxConcurrent, CutChildren(c.allowed).All())
  }

  // ----- lists -----

  lemma ListReread(xs: seq<string>)
    ensures Split(Join(xs, ','), ',') == RereadList(xs)
  {
    SplitJoined(xs, ',');
  }

  lemma HostsReread(hosts: seq<string>)
    requires hosts != []
    ensures Join(hosts, ',') == "*" <==> hosts == ["*"]
  {
    if |hosts| > 1 {
      JoinManyHasSeparator(hosts, ',');
      assert ',' !in "*";
    }
  }

  lemma {:induction false} MethodsFiltered(methods: seq<HttpMethod>)
    ensures FilterMap(ParseMethod, MapSeq(PrintMethod, methods)) == KnownOnly(methods)
  {
    if methods != [] {
      var all := MapSeq(PrintMethod, methods);
      assert all[1..] == MapSeq(PrintMethod, methods[1..]);
      MethodsFiltered(methods[1..]);
      ReadMethod(methods[0]);
    }
  }

  lemma ReadMethod(m: HttpMethod)
    ensures ParseMethod(PrintMethod(m)) == if Known(m) then Some(m) else None
  {
  }

  lemma MethodsReread(methods: seq<HttpMethod>)
    requires methods != []
    ensures ParseList(ParseMethod, PrintList(PrintMethod, methods)) == KnownOnly(methods)
  {
    hide Split, Join, MapSeq, FilterMap, PrintMethod, ParseMethod;
    var parts := MapSeq(PrintMethod, methods);
    MapSeqAt(PrintMethod, methods);
    forall i | 0 <= i < |parts|
      ensures Free(parts[i], ',')
    {
      MethodRoundTrip(methods[i]);
    }
    SplitJoin(parts, ',');
    MethodsFiltered(methods);
  }

  // ----- wallets -----

  lemma WalletReread(chains: seq<U64>, max: Option<string>)
    requires max.Some? && !Free(max.value, ':')
    ensures Parse(Print(Wallet(chains, max))) == Some(RereadWallet(chains, max))
  {
    hide Parse, Print, ParseFields, ParseList, PrintList, IndexOf, Split, FilterMap;
    var m, list := max.value, PrintList(PrintChainId, chains);
    var k := IndexOf(m, ':');
    CutAtSeparator(m, ':');
    var head, rest := m[..k], m[k + 1..];
    var c := Wallet(chains, max);
    PrintedWallet(c, head, rest, list);
    ParseThree("wallet", head, rest + ":" + list);
    WalletFields(head, rest + ":" + list);
    GluedChains(rest, chains);
  }

  /** The piece that holds the colon is no number, so it is dropped with the chain id glued to it. */
  lemma GluedChains(rest: string, chains: seq<U64>)
    ensures var pieces := Split(rest, ',');
            ParseList(ParseChainId, rest + ":" + PrintList(PrintChainId, chains))
              == FilterMap(ParseChainId, pieces[..|pieces| - 1]) + (if chains == [] then [] else chains[1..])
  {
    hide Split, Join, ParseChainId, FilterMap, MapSeq, PrintChainId, PrintList;
    var list := PrintList(PrintChainId, chains);
    var front, glued, back := SplitAtColon(rest, list);
    FilterMapAppend(ParseChainId, front + [glued], back);
    FilterMapAppend(ParseChainId, front, [glued]);
    GluedIsLost(glued);
    ChainsBehindFirst(chains);
  }

  lemma SplitAtColon(rest: string, list: string) returns (front: seq<string>, glued: string, back: seq<string>)
    ensures Split(rest + ":" + list, ',') == front + [glued] + back && !Free(glued, ':')
    ensures front == Split(rest, ',')[..|Split(rest, ',')| - 1] && back == Split(list, ',')[1..]
  {
    hide Split;
    var pieces, printed := Split(rest, ','), Split(list, ',');
    var last := pieces[|pieces| - 1];
    front, glued, back := pieces[..|pieces| - 1], last + (":" + printed[0]), printed[1..];
    assert rest + ":" + list == rest + (":" + list);
    SplitGlue(rest, ":" + list, ',');
    SplitPrefixed(":", list, ',');
    assert ([":" + printed[0]] + back)[1..] == back;
    assert glued[|last|] == ':';
  }

  lemma GluedIsLost(s: string)
    requires !Free(s, ':')
    ensures FilterMap(ParseChainId, [s]) == []
  {
    var digits := if s[0] == '+' then s[1..] else s;
    assert ':' in digits;
    var i :| 0 <= i < |digits| && digits[i] == ':';
    assert !IsDigit(digits[i]);
    assert ParseChainId(s) == None;
    assert [s][1..] == [];
    assert FilterMap(ParseChainId, [s]) == FilterMap(ParseChainId, [s][1..]);
  }

  lemma ChainsBehindFirst(chains: seq<U64>)
    ensures FilterMap(ParseChainId, Split(PrintList(PrintChainId, chains), ',')[1..])
         == if chains == [] then [] else chains[1..]
  {
    hide Split, ParseChainId, PrintChainId;
    var prints := MapSeq(PrintChainId, chains);
    if chains == [] {
      SplitHead("", ',');
      assert [""][1..] == [];
      assert FilterMap(ParseChainId, []) == [];
    } else {
      forall c: U64
        ensures ParseChainId(PrintChainId(c)) == Some(c) && Free(PrintChainId(c), ',')
      {
        ChainIdRoundTrip(c);
      }
      MapSeqAt(PrintChainId, chains);
      SplitJoin(prints, ',');
      assert prints[1..] == MapSeq(PrintChainId, chains[1..]);
      FilterMapInverts(PrintChainId, ParseChainId, chains[1..]);
    }
  }

  lemma WalletFields(middle: string, tail: string)
    ensures ParseFields("wallet", middle, Some(tail))
         == Some(Wallet(ParseList(ParseChainId, tail), RereadLimit(middle)))
  {
    hide ParseList;
  }

  lemma CutAtSeparator(s: string, c: char)
    requires !Free(s, c)
    ensures var k := IndexOf(s, c);
            k < |s| && Free(s[..k], c) && s == s[..k] + [c] + s[k + 1..]
  {
    hide IndexOf;
    assert s[..|s|] == s;
  }

  lemma PrintedWallet(c: AgentCapability, head: string, rest: string, list: string)
    requires c.Wallet? && c.maxTransactionValue == Some(head + [':'] + rest) && list == Tail(c)
    ensures Print(c) == "wallet" + ":" + head + ":" + (rest + ":" + list)
  {
    hide Tail;
    assert Print(c) == "wallet" + ":" + (head + [':'] + rest) + ":" + list;
  }

  // ----- pieces -----

  /** What one piece contributes. */
  function ParsePiece(s: string): seq<AgentCapability> {
    Listed(Parse(s))
  }

  lemma ParseAllCons(s: string, rest: seq<string>)
    ensures ParseAll([s] + rest) == ParsePiece(s) + ParseAll(rest)
  {
    hide Parse;
    assert ([s] + rest)[1..] == rest;
  }

  lemma ParseAllNothing()
    ensures ParseAll([]) == []
  {
  }

  lemma {:induction false} ParseAllAppend(a: seq<string>, b: seq<string>)
    ensures ParseAll(a + b) == ParseAll(a) + ParseAll(b)
  {
    hide ParseAll, ParsePiece;
    ParseAllNothing();
    if a == [] {
      assert a + b == b;
    } else {
      var tail := a[1..];
      ParseAllAppend(tail, b);
      ParseAllCons(a[0], tail);
      ParseAllCons(a[0], tail + b);
      assert a == [a[0]] + tail;
      assert a + b == [a[0]] + (tail + b);
    }
  }

  lemma ParseAllOne(s: string)
    ensures ParseAll([s]) == ParsePiece(s)
  {
    hide ParseAll, ParsePiece;
    ParseAllNothing();
    ParseAllCons(s, []);
    assert [s] + [] == [s];
  }

  // ----- leaves -----

  lemma LeafReread(c: AgentCapability)
    requires !c.Spawn?
    ensures Parse(Print(c)) == Some(RereadLeaf(c))
  {
    hide Parse, Print, Split, Join, FilterMap, MapSeq, PrintNat, ParseUnsigned, Pieces, KnownOnly, ParseAll;
    if c.Wallet? && c.maxTransactionValue.Some? && !Free(c.maxTransactionValue.value, ':') {
      WalletReread(c.chainIds, c.maxTransactionValue);
    } else {
      MiddleFree(c);
      ParsePrinted(c);
      match c
      case FileRead(paths) => ListReread(paths);
      case FileWrite(paths) => ListReread(paths);
      case NetworkHttp(hosts, methods) => HttpReread(hosts, methods);
      case NetworkTcp(ports, hosts) =>
        ListReread(hosts);
        PortsRoundTrip(ports);
        if hosts != [] {
          HostsReread(hosts);
        }
      case Database(tables, operations) =>
        ListReread(tables);
        OperationsRoundTrip(operations);
      case ExternalApi(endpoints, limit) =>
        ListReread(endpoints);
        NatRoundTrip(limit, MAX_U32);
      case Llm(providers, max) =>
        ListReread(providers);
        NatRoundTrip(max, MAX_U32);
      case Skill(ids, _) => ListReread(ids);
      case Wallet(chains, _) => ChainIdsRoundTrip(chains);
    }
  }

  lemma HttpReread(hosts: seq<string>, methods: seq<HttpMethod>)
    ensures var c := NetworkHttp(hosts, methods);
            ParseFields("http", Middle(c), Some(Tail(c))) == Some(RereadLeaf(c))
  {
    hide Split, Join, FilterMap, MapSeq, PrintMethod, ParseAll;
    ListReread(hosts);
    if methods == [] {
      assert KnownOnly(methods) == [];
    } else {
      MethodsReread(methods);
      PrintedMethodsAreNoWildcard(methods);
    }
  }

  // ----- semicolons in leaves -----

  /** Cutting the list is cutting its print. */
  lemma {:induction false} TextsCut(xs: seq<string>)
    ensures Split(Join(xs, ','), ';')[0] == Join(CutTexts(xs), ',')
    ensures xs != [] ==> CutTexts(xs) != []
  {
    hide Split;
    if xs == [] {
      SplitHead("", ';');
    } else if |xs| == 1 {
      FirstPieceOf(xs[0], ';');
      SplitHeadIfFree(xs[0]);
      assert CutTexts(xs[1..]) == [];
    } else {
      var rest := Join(xs[1..], ',');
      TextsCut(xs[1..]);
      if Free(xs[0], ';') {
        assert Free(xs[0] + ",", ';');
        assert Join(xs, ',') == xs[0] + "," + rest;
        SplitPrefixed(xs[0] + ",", rest, ';');
        JoinCons(xs[0], CutTexts(xs[1..]));
      } else {
        assert Join(xs, ',') == xs[0] + ("," + rest);
        SplitGlue(xs[0], "," + rest, ';');
        FirstPieceOf(xs[0], ';');
      }
    }
  }

  lemma SplitHeadIfFree(s: string)
    ensures Free(s, ';') ==> Split(s, ';') == [s]
  {
    if Free(s, ';') {
      SplitHead(s, ';');
    }
  }

  lemma JoinCons(x: string, rest: seq<string>)
    requires rest != []
    ensures Join([x] + rest, ',') == x + "," + Join(rest, ',')
  {
    assert ([x] + rest)[1..] == rest;
  }

  lemma MiddleWithoutSemicolon(c: AgentCapability)
    requires !c.Wallet?
    ensures Free(Middle(c), ';')
  {
    match c
    case FileRead(_) =>
    case FileWrite(_) =>
    case NetworkHttp(_, methods) => MethodsRoundTrip(methods);
    case NetworkTcp(ports, _) => PortsRoundTrip(ports);
    case Database(_, operations) => OperationsRoundTrip(operations);
    case ExternalApi(_, limit) => NumberFree(limit);
    case Llm(_, max) => NumberFree(max);
    case Skill(_, _) =>
    case Spawn(max, _) => NumberFree(max);
  }

  lemma TailCut(c: AgentCapability)
    requires !c.Spawn? && !c.Wallet?
    ensures Kind(CutLeaf(c)) == Kind(c) && Middle(CutLeaf(c)) == Middle(c)
    ensures Tail(CutLeaf(c)) == Split(Tail(c), ';')[0]
  {
    hide Split, Join, CutTexts, PrintList;
    match c
    case FileRead(paths) => TextsCut(paths);
    case FileWrite(paths) => TextsCut(paths);
    case NetworkHttp(hosts, _) => TextsCut(hosts);
    case NetworkTcp(_, hosts) =>
      TextsCut(hosts);
      NothingCut();
      SplitHead("*", ';');
    case Database(tables, _) => TextsCut(tables);
    case ExternalApi(endpoints, _) => TextsCut(endpoints);
    case Llm(providers, _) => TextsCut(providers);
    case Skill(ids, _) => TextsCut(ids);
  }

  lemma NothingCut()
    ensures CutTexts([]) == []
  {
  }

  /** The kind stays with the first piece; the others are the loose texts. */
  lemma PrintSplits(c: AgentCapability)
    ensures var parts, body := Split(Print(c), ';'), Split(Middle(c) + ":" + Tail(c), ';');
            parts[0] == Kind(c) + ":" + body[0] && parts[1..] == body[1..]
  {
    hide Split, Middle, Tail;
    var prefix, body := Kind(c) + ":", Middle(c) + ":" + Tail(c);
    assert Free(prefix, ';');
    assert Print(c) == prefix + body;
    SplitPrefixed(prefix, body, ';');
  }

  lemma LeafCut(c: AgentCapability)
    requires !c.Spawn? && !c.Wallet?
    ensures Split(Print(c), ';')[0] == Print(CutLeaf(c)) && Split(Print(c), ';')[1..] == Loose(c)
  {
    hide Split, Kind, Middle, Tail, CutLeaf;
    PrintSplits(c);
    MiddleWithoutSemicolon(c);
    TailCut(c);
    assert Free(Middle(c) + ":", ';');
    SplitPrefixed(Middle(c) + ":", Tail(c), ';');
  }

  lemma WalletCut(c: AgentCapability)
    requires c.Wallet? && !Flat(c)
    ensures var parts := Split(Print(c), ';');
            Parse(parts[0]) == CutWallet(c.maxTransactionValue.value) && parts[1..] == Loose(c)
  {
    hide Split, Parse, Print, Tail, ParseList, IndexOf;
    var m := c.maxTransactionValue.value;
    var cut := m[..IndexOf(m, ';')];
    CutAtSeparator(m, ';');
    PrintSplits(c);
    SplitGlue(m, ":" + Tail(c), ';');
    assert m + ":" + Tail(c) == m + (":" + Tail(c));
    FirstPieceOf(m, ';');
    if Free(cut, ':') {
      TwoFields(cut);
    } else {
      var k := IndexOf(cut, ':');
      CutAtSeparator(cut, ':');
      assert "wallet" + ":" + cut == "wallet" + ":" + cut[..k] + ":" + cut[k + 1..];
      ParseThree("wallet", cut[..k], cut[k + 1..]);
      WalletFields(cut[..k], cut[k + 1..]);
    }
  }

  /** A wallet needs three fields. */
  lemma TwoFields(middle: string)
    requires Free(middle, ':')
    ensures Parse("wallet" + ":" + middle) == None
  {
    hide SplitN;
    SplitNHead("wallet", middle, ':', 3);
    SplitNAlone(middle, 2);
    assert "wallet" + [':'] + middle == "wallet" + ":" + middle;
    assert ["wallet"] + [middle] == ["wallet", middle];
  }

  lemma SplitNAlone(s: string, n: nat)
    requires Free(s, ':') && n > 0
    ensures SplitN(s, ':', n) == [s]
  {
    hide SplitN;
    var parts := SplitN(s, ':', n);
    if |parts| > 1 {
      JoinManyHasSeparator(parts, ':');
    }
    assert parts == [parts[0]];
  }

  // ----- spawns -----

  /** A spawn in front of one piece reads what the piece reads as its child. */
  lemma SpawnOfPiece(max: U32, piece: string)
    requires Free(piece, ';')
    ensures Parse("spawn" + ":" + PrintNat(max) + ":" + piece) == Some(Spawn(max, ParsePiece(piece)))
  {
    hide Parse, ParseFields, Split, PrintNat, ParseAll, ParsePiece;
    NumberFree(max);
    ParseThree("spawn", PrintNat(max), piece);
    SplitHead(piece, ';');
    ParseAllOne(piece);
    SpawnFields(max, piece);
  }

  lemma SpawnFields(max: U32, tail: string)
    ensures ParseFields("spawn", PrintNat(max), Some(tail)) == Some(Spawn(max, ParseAll(Split(tail, ';'))))
  {
    hide PrintNat, ParseUnsigned, ParseAll, Split;
    NatRoundTrip(max, MAX_U32);
  }

  /** The cut of a child is what the pieces of its print are read as. */
  lemma {:induction false} CutIsParse(c: AgentCapability)
    ensures var parts := Split(Print(c), ';');
            CutChild(c) == Cut(Parse(parts[0]), ParseAll(parts[1..]))
    decreases c, 1
  {
    hide Split, Parse, Print, ParseAll, RereadLeaf, CutLeaf, Loose, CutWallet;
    ParseAllNothing();
    if c.Spawn? {
      if c.allowed == [] {
        EmptySpawn(c);
      } else {
        CutsAreParse(c.allowed);
        SpawnSplits(c);
        var pieces := Pieces(PrintAll(c.allowed), ';');
        SpawnOfPiece(c.maxConcurrent, pieces[0]);
      }
    } else if c.Wallet? {
      if Flat(c) {
        FlatPrint(c);
        SplitHead(Print(c), ';');
        LeafReread(c);
        assert [Print(c)][1..] == [];
      } else {
        WalletCut(c);
      }
    } else {
      LeafCut(c);
      LeafReread(CutLeaf(c));
    }
  }

  lemma EmptySpawn(c: AgentCapability)
    requires c.Spawn? && c.allowed == []
    ensures var parts := Split(Print(c), ';');
            Parse(parts[0]) == Some(c) && parts[1..] == []
  {
    hide Split, Parse;
    FlatPrint(c);
    SplitHead(Print(c), ';');
    RoundTrip(c);
    assert [Print(c)][1..] == [];
  }

  /** The number stays with the first piece of the first child. */
  lemma SpawnSplits(c: AgentCapability)
    requires c.Spawn? && c.allowed != []
    ensures var parts, pieces := Split(Print(c), ';'), Pieces(PrintAll(c.allowed), ';');
            && pieces != [] && Free(pieces[0], ';')
            && parts[0] == "spawn" + ":" + PrintNat(c.maxConcurrent) + ":" + pieces[0]
            && parts[1..] == pieces[1..]
  {
    hide Split, PrintNat, Join, Print;
    var number, prints := PrintNat(c.maxConcurrent), PrintAll(c.allowed);
    PrintSplits(c);
    NumberFree(c.maxConcurrent);
    SplitJoined(prints, ';');
    assert Free(number + ":", ';');
    SplitPrefixed(number + ":", Join(prints, ';'), ';');
    assert Split(prints[0], ';') != [];
  }

  lemma {:induction false} CutsAreParse(cs: seq<AgentCapability>)
    requires cs != []
    ensures var pieces := Pieces(PrintAll(cs), ';');
            pieces != [] && CutChildren(cs) == Cut(Parse(pieces[0]), ParseAll(pieces[1..]))
    decreases cs, 0
  {
    hide Split, Parse, Print, ParseAll, CutChild;
    var prints := PrintAll(cs);
    var head, rest := Split(prints[0], ';'), Pieces(prints[1..], ';');
    assert prints[0] == Print(cs[0]) && prints[1..] == PrintAll(cs[1..]);
    CutIsParse(cs[0]);
    assert (head + rest)[1..] == head[1..] + rest;
    if |cs| == 1 {
      assert rest == [] && head + rest == head;
    } else {
      CutsAreParse(cs[1..]);
      ParseAllAppend(head[1..], rest);
      ParseAllCons(rest[0], rest[1..]);
      assert rest == [rest[0]] + rest[1..];
    }
  }

  // ----- every tree -----

  /** Every tree's compact string parses, and this is what to. */
  lemma RereadExactly(c: AgentCapability)
    ensures Parse(Print(c)) == Some(Reread(c))
  {
    hide Parse, Print, ParseAll, RereadLeaf, CutChildren, Pieces, Split, Join;
    if !c.Spawn? {
      LeafReread(c);
    } else if c.allowed == [] {
      RoundTrip(c);
    } else {
      SpawnReread(c);
    }
  }

  lemma SpawnReread(c: AgentCapability)
    requires c.Spawn? && c.allowed != []
    ensures Parse(Print(c)) == Some(Spawn(c.maxConcurrent, CutChildren(c.allowed).All()))
  {
    hide Parse, ParseFields, Print, ParseAll, CutChildren, PrintNat, Pieces, Split, Join;
    var pieces := Pieces(PrintAll(c.allowed), ';');
    NumberFree(c.maxConcurrent);
    ParsePrinted(c);
    SpawnFields(c.maxConcurrent, Tail(c));
    SplitJoined(PrintAll(c.allowed), ';');
    CutsAreParse(c.allowed);
    ParseAllCons(pieces[0], pieces[1..]);
    assert pieces == [pieces[0]] + pieces[1..];
  }

  /** A flat child is reread as if it stood alone. */
  lemma FlatChild(c: AgentCapability)
    requires Flat(c)
    ensures CutChild(c).All() == [Reread(c)]
  {
    hide Parse, Print, CutChild, Reread, Split, ParseAll;
    FlatPrint(c);
    SplitHead(Print(c), ';');
    CutIsParse(c);
    RereadExactly(c);
    assert [Print(c)][1..] == [];
    ParseAllNothing();
  }

  // ----- without semicolons only the nesting changes -----

  /** No text in the tree holds a semicolon; spawns may have any number of children. */
  predicate Plain(c: AgentCapability) {
    if c.Spawn? then forall i :: 0 <= i < |c.allowed| ==> Plain(c.allowed[i]) else Flat(c)
  }

  /** A tree in preorder: the limits of its spawns, and its leaves. */
  datatype Node = SpawnNode(max: U32) | LeafNode(leaf: AgentCapability)

  function Preorder(c: AgentCapability): seq<Node>
    decreases c, 1
  {
    if c.Spawn? then [SpawnNode(c.maxConcurrent)] + PreorderAll(c.allowed) else [LeafNode(c)]
  }

  function PreorderAll(cs: seq<AgentCapability>): seq<Node>
    decreases cs, 0
  {
    if cs == [] then [] else Preorder(cs[0]) + PreorderAll(cs[1..])
  }

  /** The same, with each leaf as it is read back alone. */
  function RereadPreorder(c: AgentCapability): seq<Node>
    decreases c, 1
  {
    if c.Spawn? then [SpawnNode(c.maxConcurrent)] + RereadPreorderAll(c.allowed) else [LeafNode(RereadLeaf(c))]
  }

  function RereadPreorderAll(cs: seq<AgentCapability>): seq<Node>
    decreases cs, 0
  {
    if cs == [] then [] else RereadPreorder(cs[0]) + RereadPreorderAll(cs[1..])
  }

  lemma PreorderCons(c: AgentCapability, rest: seq<AgentCapability>)
    ensures PreorderAll([c] + rest) == Preorder(c) + PreorderAll(rest)
  {
    hide Preorder;
    assert ([c] + rest)[1..] == rest;
  }

  lemma PreorderNothing()
    ensures PreorderAll([]) == []
  {
  }

  lemma PreorderOne(c: AgentCapability)
    ensures PreorderAll([c]) == Preorder(c)
  {
    hide Preorder, PreorderAll;
    PreorderCons(c, []);
    PreorderNothing();
    assert [c] + [] == [c];
  }

  lemma {:induction false} PreorderAppend(a: seq<AgentCapability>, b: seq<AgentCapability>)
    ensures PreorderAll(a + b) == PreorderAll(a) + PreorderAll(b)
  {
    hide Preorder, PreorderAll;
    PreorderNothing();
    if a == [] {
      assert a + b == b;
    } else {
      var tail := a[1..];
      PreorderAppend(tail, b);
      PreorderCons(a[0], tail);
      PreorderCons(a[0], tail + b);
      assert a == [a[0]] + tail;
      assert a + b == [a[0]] + (tail + b);
    }
  }

  lemma {:induction false} TextsKept(xs: seq<string>)
    requires AllFree(xs, ';')
    ensures CutTexts(xs) == xs
  {
    if xs != [] {
      assert Free(xs[0], ';');
      TextsKept(xs[1..]);
    }
  }

  lemma LeafKept(c: AgentCapability)
    requires !c.Spawn? && Flat(c)
    ensures !c.Wallet? ==> CutLeaf(c) == c
    ensures CutChild(c) == Cut(Some(RereadLeaf(c)), [])
  {
    hide ParseAll, RereadLeaf, Print, Split, Loose, CutTexts;
    match c {
      case FileRead(paths) => TextsKept(paths);
      case FileWrite(paths) => TextsKept(paths);
      case NetworkHttp(hosts, _) => TextsKept(hosts);
      case NetworkTcp(_, hosts) => TextsKept(hosts);
      case Database(tables, _) => TextsKept(tables);
      case ExternalApi(endpoints, _) => TextsKept(endpoints);
      case Llm(providers, _) => TextsKept(providers);
      case Skill(ids, _) => TextsKept(ids);
      case Wallet(_, _) =>
    }
    if !c.Wallet? {
      FlatPrint(c);
      SplitHead(Print(c), ';');
      LeafCut(c);
      assert [Print(c)][1..] == [];
      ParseAllNothing();
    }
  }

  lemma {:induction false} PlainCut(c: AgentCapability)
    requires Plain(c)
    ensures CutChild(c).first.Some? && PreorderAll(CutChild(c).All()) == RereadPreorder(c)
    decreases c, 1
  {
    hide RereadLeaf, CutLeaf;
    if !c.Spawn? {
      LeafKept(c);
      LeafStaysLeaf(c);
      PreorderOne(RereadLeaf(c));
    } else if c.allowed == [] {
      PreorderOne(c);
    } else {
      PlainCuts(c.allowed);
      SpawnOfFirst(c.maxConcurrent, CutChildren(c.allowed));
    }
  }

  lemma SpawnOfFirst(max: U32, kids: Cut)
    requires kids.first.Some?
    ensures PreorderAll([Spawn(max, Listed(kids.first))] + kids.more) == [SpawnNode(max)] + PreorderAll(kids.All())
  {
    var s := Spawn(max, Listed(kids.first));
    PreorderAppend([s], kids.more);
    PreorderOne(s);
    PreorderAppend(Listed(kids.first), kids.more);
  }

  lemma LeafStaysLeaf(c: AgentCapability)
    requires !c.Spawn?
    ensures !RereadLeaf(c).Spawn?
  {
  }

  lemma {:induction false} PlainCuts(cs: seq<AgentCapability>)
    requires cs != [] && forall i :: 0 <= i < |cs| ==> Plain(cs[i])
    ensures CutChildren(cs).first.Some? && PreorderAll(CutChildren(cs).All()) == RereadPreorderAll(cs)
    decreases cs, 0
  {
    hide CutChild, Preorder, RereadPreorder;
    var head := CutChild(cs[0]);
    PlainCut(cs[0]);
    if |cs| == 1 {
      assert RereadPreorderAll(cs[1..]) == [];
    } else {
      var rest := CutChildren(cs[1..]).All();
      PlainCuts(cs[1..]);
      assert CutChildren(cs).All() == head.All() + rest;
      PreorderAppend(head.All(), rest);
    }
  }

  /**
   When no text holds a semicolon, no capability is lost and none is made up: in preorder the
   same spawns and the same leaves come back, each leaf as it is read alone.  Only the nesting
   changes, since an inner spawn keeps no child but its first.
   */
  lemma OnlyNestingChanges(c: AgentCapability)
    requires Plain(c)
    ensures Preorder(Reread(c)) == RereadPreorder(c)
  {
    hide RereadLeaf, CutChildren;
    if !c.Spawn? {
      LeafStaysLeaf(c);
    } else if c.allowed != [] {
      PlainCuts(c.allowed);
    }
  }

  /**
   A tree is well-formed exactly when rereading leaves it alone, and rereading once more changes
   nothing for any tree.
   */
  lemma RereadIsNormalForm(c: AgentCapability)
    ensures Reread(c) == c <==> WellFormed(c)
    ensures Reread(Reread(c)) == Reread(c)
  {
    hide Reread, Parse, Print, WellFormed;
    RereadExactly(c);
    RereadExactly(Reread(c));
    RoundTripExactly(c);
    ParseIsNormalForm(Print(c));
  }

  // ----- what goes wrong -----

  lemma {:induction false} NoneKnown(methods: seq<HttpMethod>)
    ensures KnownOnly(methods) == [] <==> forall i :: 0 <= i < |methods| ==> !Known(methods[i])
  {
    if methods != [] {
      NoneKnown(methods[1..]);
      assert forall i :: 1 <= i < |methods| ==> methods[i] == methods[1..][i - 1];
    }
  }

  /** A stored HTTP capability is read as one for all methods exactly when it named none that the parser knows. */
  lemma WildcardExactly(hosts: seq<string>, methods: seq<HttpMethod>)
    ensures Parse(Print(NetworkHttp(hosts, methods))) == Some(NetworkHttp(RereadList(hosts), []))
       <==> (forall i :: 0 <= i < |methods| ==> !Known(methods[i]))
  {
    hide Parse, Print, KnownOnly, RereadList;
    RereadExactly(NetworkHttp(hosts, methods));
    NoneKnown(methods);
  }

  /**
   Failing inputs: a capability for HEAD only is read as one for all methods, an empty list as one
   empty path, a comma splits a path.
   */
  lemma RoundTripFails()
    ensures Middle(NetworkHttp(["h"], [Head, Options])) == "HEAD,OPTIONS"
    ensures Parse(Print(NetworkHttp(["h"], [Head]))) == Some(NetworkHttp(["h"], []))
    ensures Parse(Print(FileRead([]))) == Some(FileRead([""]))
    ensures Parse(Print(FileRead(["a,b"]))) == Some(FileRead(["a", "b"]))
  {
    BothPrinted();
    hide Parse, Print;
    ShortTexts();
    RereadExactly(NetworkHttp(["h"], [Head]));
    RereadExactly(FileRead([]));
    RereadExactly(FileRead(["a,b"]));
  }

  lemma BothPrinted()
    ensures Middle(NetworkHttp(["h"], [Head, Options])) == "HEAD,OPTIONS"
  {
    var methods := [Head, Options];
    assert methods[1..] == [Options] && MapSeq(PrintMethod, [Options]) == ["OPTIONS"];
    assert MapSeq(PrintMethod, methods) == ["HEAD", "OPTIONS"];
    assert ["HEAD", "OPTIONS"][1..] == ["OPTIONS"];
  }

  lemma ShortTexts()
    ensures RereadList(["h"]) == ["h"] && RereadList(["a,b"]) == ["a", "b"]
    ensures KnownOnly([Head]) == []
  {
    SplitHead("h", ',');
    SplitHead("b", ',');
    SplitAtSeparator("a", "b", ',');
    assert "a" + [','] + "b" == "a,b";
    assert Pieces([], ',') == [];
    assert Pieces(["h"], ',') == Split("h", ',') + Pieces([], ',');
    assert Pieces(["a,b"], ',') == Split("a,b", ',') + Pieces([], ',');
  }

  /** A path of a spawn's child is cut at its first semicolon, and whatever follows is read as children of its own. */
  lemma SemicolonCuts(max: U32, path: string, rest: string)
    requires Free(path, ';')
    ensures Parse(Print(Spawn(max, [FileRead([path + ";" + rest])])))
         == Some(Spawn(max, [FileRead(RereadList([path]))] + ParseAll(Split(rest, ';'))))
  {
    hide Parse, Print, Split, ParseAll, CutChild;
    var child := FileRead([path + ";" + rest]);
    RereadExactly(Spawn(max, [child]));
    PathCut(path, rest);
    assert CutChildren([child]) == CutChild(child);
  }

  lemma PathCut(path: string, rest: string)
    requires Free(path, ';')
    ensures CutChild(FileRead([path + ";" + rest]))
         == Cut(Some(FileRead(RereadList([path]))), ParseAll(Split(rest, ';')))
  {
    hide Split, ParseAll, RereadList, Loose, CutTexts;
    CutText(path, rest);
    LooseText(path, rest);
  }

  lemma CutText(path: string, rest: string)
    requires Free(path, ';')
    ensures CutTexts([path + ";" + rest]) == [path]
  {
    hide Split;
    var text := path + ";" + rest;
    assert text[|path|] == ';';
    SplitAtSeparator(path, rest, ';');
    FirstPieceOf(text, ';');
  }

  lemma LooseText(path: string, rest: string)
    requires Free(path, ';')
    ensures Loose(FileRead([path + ";" + rest])) == Split(rest, ';')
  {
    hide Split;
    var child := FileRead([path + ";" + rest]);
    assert Middle(child) + ":" + Tail(child) == "read:" + path + [';'] + rest;
    SplitAtSeparator("read:" + path, rest, ';');
  }

  /**
   A path that holds a semicolon and then the compact string of any tree grants what that tree falls
   into, besides the path.
   */
  lemma SemicolonAdds(max: U32, path: string, d: AgentCapability)
    requires Free(path, ';')
    ensures Parse(Print(Spawn(max, [FileRead([path + ";" + Print(d)])])))
         == Some(Spawn(max, [FileRead(RereadList([path]))] + CutChild(d).All()))
    ensures Flat(d) ==> CutChild(d).All() == [Reread(d)]
  {
    hide Parse, Print, Split, ParseAll, CutChild, Reread;
    var parts := Split(Print(d), ';');
    SemicolonCuts(max, path, Print(d));
    CutIsParse(d);
    ParseAllCons(parts[0], parts[1..]);
    assert parts == [parts[0]] + parts[1..];
    if Flat(d) {
      FlatChild(d);
    }
  }

  // ----- sets of capabilities -----

  /** A stored set is read back member by member: none is lost, and each becomes its reread form. */
  lemma {:induction false} LegacyReread(json: string -> Option<AgentCapability>, caps: seq<AgentCapability>)
    requires forall c :: c in caps ==> json(Print(c)) == None
    ensures FromStrings(json, ToLegacyStrings(caps)) == MapSeq(Reread, caps)
  {
    hide Parse, Print, Reread;
    if caps != [] {
      var strings := ToLegacyStrings(caps);
      assert strings[1..] == ToLegacyStrings(caps[1..]);
      assert caps[0] in caps && strings[0] == Print(caps[0]);
      RereadExactly(caps[0]);
      LegacyReread(json, caps[1..]);
    }
  }
}
