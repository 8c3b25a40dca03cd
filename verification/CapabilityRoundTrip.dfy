/** The theorems about compact strings: which trees survive, and what the parser returns. */
module CapabilityRoundTrip {
  import opened Wrappers
  import opened Text
  import opened Capability

  // ----- the fields of a printed tree -----

  lemma PrintedMethodsAreNoWildcard(methods: seq<HttpMethod>)
    requires methods != []
    ensures PrintList(PrintMethod, methods) != "*"
  {
    MapSeqAt(PrintMethod, methods);
    var parts := MapSeq(PrintMethod, methods);
    assert parts[0][0] != '*';
    assert Join(parts, ',')[0] == parts[0][0];
  }

  lemma JoinedHostsAreNoWildcard(hosts: seq<string>)
    requires Listable(hosts) && hosts != ["*"]
    ensures Join(hosts, ',') != "*"
  {
    SplitJoin(hosts, ',');
    SplitHead("*", ',');
  }

  lemma MiddleFree(c: AgentCapability)
    requires c.Wallet? && c.maxTransactionValue.Some? ==> Free(c.maxTransactionValue.value, ':')
    ensures Free(Kind(c), ':') && Free(Middle(c), ':')
  {
    match c
    case FileRead(_) =>
    case FileWrite(_) =>
    case NetworkHttp(_, methods) => MethodsRoundTrip(methods);
    case NetworkTcp(ports, _) => PortsRoundTrip(ports);
    case Database(_, operations) => OperationsRoundTrip(operations);
    case ExternalApi(_, limit) => NumberFree(limit);
    case Llm(_, max) => NumberFree(max);
    case Skill(_, _) =>
    case Wallet(_, _) =>
    case Spawn(max, _) => NumberFree(max);
  }

  /** Printing keeps the fields apart when kind and middle hold no colon. */
  lemma ParsePrinted(c: AgentCapability)
    requires Free(Kind(c), ':') && Free(Middle(c), ':')
    ensures Parse(Print(c)) == ParseFields(Kind(c), Middle(c), Some(Tail(c)))
  {
    hide ParseFields, SplitN;
    var k, m, t := Kind(c), Middle(c), Tail(c);
    assert Print(c) == k + [':'] + m + [':'] + t;
    SplitThree(k, m, t, ':');
  }

  // ----- semicolons -----

  /** A tree is flat exactly when its print can stand between semicolons. */
  lemma {:induction false} FlatPrint(c: AgentCapability)
    ensures Flat(c) <==> Free(Print(c), ';')
    decreases c, 1
  {
    hide Print, Join, Split, MapSeq, FilterMap, PrintNat, PrintMethod, PrintOperation;
    PrintPieces(c);
    match c
    case FileRead(paths) => JoinFree(paths, ',', ';');
    case FileWrite(paths) => JoinFree(paths, ',', ';');
    case NetworkHttp(hosts, methods) =>
      JoinFree(hosts, ',', ';');
      MethodsRoundTrip(methods);
    case NetworkTcp(ports, hosts) =>
      JoinFree(hosts, ',', ';');
      PortsRoundTrip(ports);
    case Database(tables, operations) =>
      JoinFree(tables, ',', ';');
      OperationsRoundTrip(operations);
    case ExternalApi(endpoints, limit) =>
      JoinFree(endpoints, ',', ';');
      NumberFree(limit);
    case Llm(providers, max) =>
      JoinFree(providers, ',', ';');
      NumberFree(max);
    case Skill(ids, _) => JoinFree(ids, ',', ';');
    case Wallet(chains, _) => ChainIdsRoundTrip(chains);
    case Spawn(max, children) =>
      NumberFree(max);
      if |children| > 1 {
        JoinManyHasSeparator(PrintAll(children), ';');
      } else if |children| == 1 {
        FlatPrint(children[0]);
        PrintOne(children[0]);
        assert children == [children[0]];
      } else {
        PrintOne(c);
        assert children == [];
      }
  }

  lemma PrintOne(c: AgentCapability)
    ensures Join(PrintAll([c]), ';') == Print(c) && Join(PrintAll([]), ';') == ""
  {
  }

  lemma PrintPieces(c: AgentCapability)
    ensures Free(Print(c), ';') <==> Free(Middle(c), ';') && Free(Tail(c), ';')
  {
    hide Middle, Tail;
    assert Free(Kind(c), ';');
    assert Print(c) == Kind(c) + ":" + Middle(c) + ":" + Tail(c);
  }

  lemma {:induction false} PrintAllAt(cs: seq<AgentCapability>)
    ensures forall i :: 0 <= i < |cs| ==> PrintAll(cs)[i] == Print(cs[i])
  {
    if cs != [] {
      PrintAllAt(cs[1..]);
    }
  }

  // ----- well-formed trees are read back -----

  /** Every well-formed tree is read back from its compact string. */
  lemma {:induction false} RoundTrip(c: AgentCapability)
    requires WellFormed(c)
    ensures Parse(Print(c)) == Some(c)
    decreases c, 1
  {
    hide Parse, Print, Split, Join, FilterMap, MapSeq, PrintNat, ParseUnsigned;
    MiddleFree(c);
    ParsePrinted(c);
    match c
    case FileRead(paths) => SplitJoin(paths, ',');
    case FileWrite(paths) => SplitJoin(paths, ',');
    case NetworkHttp(hosts, methods) =>
      SplitJoin(hosts, ',');
      MethodsRoundTrip(methods);
      if methods != [] {
        PrintedMethodsAreNoWildcard(methods);
      }
    case NetworkTcp(ports, hosts) =>
      PortsRoundTrip(ports);
      if hosts != [] {
        SplitJoin(hosts, ',');
        JoinedHostsAreNoWildcard(hosts);
      }
    case Database(tables, operations) =>
      SplitJoin(tables, ',');
      OperationsRoundTrip(operations);
    case ExternalApi(endpoints, limit) =>
      SplitJoin(endpoints, ',');
      NatRoundTrip(limit, MAX_U32);
    case Llm(providers, max) =>
      SplitJoin(providers, ',');
      NatRoundTrip(max, MAX_U32);
    case Skill(ids, _) => SplitJoin(ids, ',');
    case Wallet(chains, _) => ChainIdsRoundTrip(chains);
    case Spawn(max, children) =>
      NatRoundTrip(max, MAX_U32);
      ChildrenRoundTrip(children);
  }

  lemma {:induction false} ChildrenRoundTrip(children: seq<AgentCapability>)
    requires AllSound(children)
    ensures ParseAll(Split(Join(PrintAll(children), ';'), ';')) == children
    decreases children, 1
  {
    var parts := PrintAll(children);
    if children == [] {
      NothingParsed();
    } else {
      PrintAllAt(children);
      forall i | 0 <= i < |children|
        ensures Free(parts[i], ';')
      {
        FlatPrint(children[i]);
      }
      SplitJoin(parts, ';');
      ReadBack(children);
    }
  }

  lemma NothingParsed()
    ensures ParseAll(Split("", ';')) == []
  {
    assert Split("", ';') == [""];
    SplitNEmpty();
    assert Parse("") == None;
    assert ParseAll([""]) == ParseAll([]);
  }

  lemma SplitNEmpty()
    ensures SplitN("", ':', 3) == [""]
  {
  }

  lemma {:induction false} ReadBack(children: seq<AgentCapability>)
    requires forall i :: 0 <= i < |children| ==> WellFormed(children[i])
    ensures ParseAll(PrintAll(children)) == children
    decreases children, 0
  {
    hide Parse, Print;
    if children != [] {
      RoundTrip(children[0]);
      ReadBack(children[1..]);
      assert PrintAll(children)[1..] == PrintAll(children[1..]);
      assert children == [children[0]] + children[1..];
    }
  }

  // ----- everything parsed is well-formed -----

  /** The fields of a text, free of what the text is free of. */
  lemma FieldsFree(s: string, d: char)
    requires Free(s, d) && d != ':'
    ensures AllFree(SplitN(s, ':', 3), d)
  {
    JoinFree(SplitN(s, ':', 3), ':', d);
  }

  lemma PiecesFree(s: string, c: char, d: char)
    requires Free(s, d) && c != d
    ensures AllFree(Split(s, c), d)
  {
    JoinFree(Split(s, c), c, d);
  }

  lemma ParsedMethodsKnown(middle: string)
    ensures forall i :: 0 <= i < |ParseList(ParseMethod, middle)| ==> Known(ParseList(ParseMethod, middle)[i])
  {
    var methods := ParseList(ParseMethod, middle);
    forall i | 0 <= i < |methods|
      ensures Known(methods[i])
    {
      assert methods[i] in methods;
      FilterMapSource(ParseMethod, Split(middle, ','), methods[i]);
    }
  }

  /** Whatever the parser returns is well-formed, and flat when the text has no semicolon. */
  lemma {:induction false} ParsedWellFormed(s: string)
    ensures var c := Parse(s);
            c.Some? ==> WellFormed(c.value) && (Free(s, ';') ==> Flat(c.value))
    decreases |s|, 0
  {
    hide ParseFields, WellFormed, Flat;
    var parts := SplitN(s, ':', 3);
    if |parts| >= 2 {
      if Free(s, ';') {
        FieldsFree(s, ';');
      }
      FieldsWellFormed(parts[0], parts[1], if |parts| == 3 then Some(parts[2]) else None);
    }
  }

  lemma {:induction false} FieldsWellFormed(kind: string, middle: string, tail: Option<string>)
    requires Free(middle, ':')
    ensures var c := ParseFields(kind, middle, tail);
            c.Some? ==>
              && WellFormed(c.value)
              && (Free(middle, ';') && (tail.Some? ==> Free(tail.value, ';')) ==> Flat(c.value))
    decreases if tail.Some? then |tail.value| + 1 else 0, 0
  {
    if kind == "spawn" {
      hide ParseFields, WellFormed, Flat, AllSound, Split;
      if tail.Some? {
        ParsedChildrenWellFormed(Split(tail.value, ';'));
      }
      SpawnWellFormed(middle, tail);
    } else {
      OtherFieldsWellFormed(kind, middle, tail);
    }
  }

  lemma SpawnWellFormed(middle: string, tail: Option<string>)
    requires tail.Some? ==> AllSound(ParseAll(Split(tail.value, ';')))
    ensures var c := ParseFields("spawn", middle, tail);
            c.Some? && WellFormed(c.value) && ((tail.Some? ==> Free(tail.value, ';')) ==> Flat(c.value))
  {
    hide Split, ParseU32Or, Parse;
    if tail.Some? && Free(tail.value, ';') {
      SplitHead(tail.value, ';');
      assert |ParseAll([tail.value])| <= 1 + |ParseAll([])|;
    }
  }

  lemma OtherFieldsWellFormed(kind: string, middle: string, tail: Option<string>)
    requires Free(middle, ':') && kind != "spawn"
    ensures var c := ParseFields(kind, middle, tail);
            c.Some? ==>
              && WellFormed(c.value)
              && (Free(middle, ';') && (tail.Some? ==> Free(tail.value, ';')) ==> Flat(c.value))
  {
    hide ParseAll, FilterMap, Split, Free, Known;
    ParsedMethodsKnown(middle);
    if tail.Some? {
      PiecesListable(tail.value);
    }
  }

  lemma PiecesListable(tail: string)
    ensures var parts := Split(tail, ',');
            && Listable(parts)
            && (tail != "*" ==> parts != ["*"])
            && (Free(tail, ';') ==> AllFree(parts, ';'))
  {
    assert Split(tail, ',') == ["*"] ==> tail == "*";
    if Free(tail, ';') {
      PiecesFree(tail, ',', ';');
    }
  }

  predicate AllSound(cs: seq<AgentCapability>) {
    forall i :: 0 <= i < |cs| ==> WellFormed(cs[i]) && Flat(cs[i])
  }

  lemma {:induction false} ParsedChildrenWellFormed(parts: seq<string>)
    requires AllFree(parts, ';')
    ensures AllSound(ParseAll(parts))
    decreases |Join(parts, ';')|, |parts| + 1
  {
    hide Parse;
    if parts != [] {
      JoinLength(parts, ';');
      assert Free(parts[0], ';');
      ParsedWellFormed(parts[0]);
      ParsedChildrenWellFormed(parts[1..]);
      SoundCons(Parse(parts[0]), ParseAll(parts[1..]));
    }
  }

  lemma SoundCons(c: Option<AgentCapability>, rest: seq<AgentCapability>)
    requires AllSound(rest) && (c.Some? ==> WellFormed(c.value) && Flat(c.value))
    ensures AllSound(match c case Some(x) => [x] + rest case None => rest)
  {
    hide WellFormed, Flat;
  }

  // ----- the main results -----

  /** Printing and parsing gives a tree back exactly when it is well-formed. */
  lemma RoundTripExactly(c: AgentCapability)
    ensures Parse(Print(c)) == Some(c) <==> WellFormed(c)
  {
    if WellFormed(c) {
      RoundTrip(c);
    }
    ParsedWellFormed(Print(c));
  }

  /** For every text: what it parses to is a normal form, stable under printing and parsing. */
  lemma ParseIsNormalForm(s: string)
    requires Parse(s).Some?
    ensures Parse(Print(Parse(s).value)) == Parse(s)
  {
    ParsedWellFormed(s);
    RoundTrip(Parse(s).value);
  }

  /** Well-formed trees are told apart by their prints. */
  lemma PrintInjective(c: AgentCapability, d: AgentCapability)
    requires WellFormed(c) && WellFormed(d) && Print(c) == Print(d)
    ensures c == d
  {
    RoundTrip(c);
    RoundTrip(d);
  }

  /** A spawn below another spawn has at most one child, and so on downwards. */
  predicate NarrowSpawns(c: AgentCapability) {
    c.Spawn? ==> |c.allowed| <= 1 && forall i :: 0 <= i < |c.allowed| ==> NarrowSpawns(c.allowed[i])
  }

  lemma {:induction false} FlatIsNarrow(c: AgentCapability)
    requires Flat(c)
    ensures NarrowSpawns(c)
    decreases c
  {
    if c.Spawn? && |c.allowed| == 1 {
      FlatIsNarrow(c.allowed[0]);
    }
  }

  lemma ParsedSpawnsAreNarrow(s: string)
    requires Parse(s).Some? && Parse(s).value.Spawn?
    ensures forall i :: 0 <= i < |Parse(s).value.allowed| ==> NarrowSpawns(Parse(s).value.allowed[i])
  {
    ParsedWellFormed(s);
    var children := Parse(s).value.allowed;
    forall i | 0 <= i < |children|
      ensures NarrowSpawns(children[i])
    {
      FlatIsNarrow(children[i]);
    }
  }

  lemma ParseThree(kind: string, middle: string, tail: string)
    requires Free(kind, ':') && Free(middle, ':')
    ensures Parse(kind + ":" + middle + ":" + tail) == ParseFields(kind, middle, Some(tail))
  {
    hide ParseFields, SplitN;
    SplitThree(kind, middle, tail, ':');
  }

  // ----- sets of capabilities -----

  function ToLegacyStrings(caps: seq<AgentCapability>): seq<string> {
    MapSeq(Print, caps)
  }

  /** Each string is tried as JSON first; the JSON reader is a parameter. */
  function FromStrings(json: string -> Option<AgentCapability>, strings: seq<string>): seq<AgentCapability> {
    if strings == [] then []
    else
      var c := json(strings[0]);
      var c := if c.Some? then c else Parse(strings[0]);
      (if c.Some? then [c.value] else []) + FromStrings(json, strings[1..])
  }

  lemma {:induction false} FromStringsShrinks(json: string -> Option<AgentCapability>, strings: seq<string>)
    ensures |FromStrings(json, strings)| <= |strings|
  {
    if strings != [] {
      FromStringsShrinks(json, strings[1..]);
    }
  }

  /**
   A stored set is read back exactly when each of its members is well-formed; otherwise some member
   changes or is lost.
   */
  lemma {:induction false} LegacyRoundTripExactly(json: string -> Option<AgentCapability>, caps: seq<AgentCapability>)
    requires forall c :: c in caps ==> json(Print(c)) == None
    ensures FromStrings(json, ToLegacyStrings(caps)) == caps
       <==> (forall i :: 0 <= i < |caps| ==> WellFormed(caps[i]))
  {
    hide Parse, Print, WellFormed;
    if caps != [] {
      var strings := ToLegacyStrings(caps);
      var rest := strings[1..];
      assert rest == ToLegacyStrings(caps[1..]);
      assert caps[0] in caps && strings[0] == Print(caps[0]);
      RoundTripExactly(caps[0]);
      LegacyRoundTripExactly(json, caps[1..]);
      FromStringsShrinks(json, rest);
      var c := Parse(strings[0]);
      assert FromStrings(json, strings) == (if c.Some? then [c.value] else []) + FromStrings(json, rest);
      assert caps == [caps[0]] + caps[1..];
      if FromStrings(json, strings) == caps {
        assert c.Some?;
        assert FromStrings(json, strings)[0] == c.value && FromStrings(json, strings)[1..] == FromStrings(json, rest);
      }
    }
  }
}
