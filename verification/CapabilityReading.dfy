/**
 What the parser makes of any text, stated as a grammar: which texts are capabilities, and which
 capability each of them is.  The grammar has its own words, numbers and lists; it shares with
 the parser only the joining of pieces.
 */
module CapabilityReading {
  import opened Wrappers
  import opened Text
  import opened Capability
  import opened CapabilityRoundTrip

  // ----- words and numbers -----

  const METHOD_WORDS := map["GET" := Get, "POST" := Post, "PUT" := Put, "DELETE" := HttpMethod.Delete, "PATCH" := Patch]

  const OPERATION_WORDS := map["select" := Select, "insert" := Insert, "update" := Update, "delete" := DbOperation.Delete]

  /** The same word up to the case of the letters A to Z, whose codes are 32 below those of a to z. */
  predicate SameWord(s: string, word: string) {
    |s| == |word|
    && forall i :: 0 <= i < |s| ==> s[i] == word[i] || ('a' <= word[i] <= 'z' && s[i] as int + 32 == word[i] as int)
  }

  predicate IsMethod(s: string, m: HttpMethod) {
    s in METHOD_WORDS && METHOD_WORDS[s] == m
  }

  predicate IsOperation(s: string, o: DbOperation) {
    exists word :: word in OPERATION_WORDS && OPERATION_WORDS[word] == o && SameWord(s, word)
  }

  /** A number is its decimal digits, after any number of zeros and at most one plus sign. */
  ghost predicate Spells(s: string, n: nat) {
    exists zeros: nat :: s == Zeros(zeros) + PrintNat(n) || s == "+" + Zeros(zeros) + PrintNat(n)
  }

  function Zeros(k: nat): string {
    seq(k, _ => '0')
  }

  ghost predicate IsPort(s: string, p: U16) {
    Spells(s, p) && p <= 65_535
  }

  ghost predicate IsChainId(s: string, c: U64) {
    Spells(s, c) && c <= 18_446_744_073_709_551_615
  }

  /** A 32-bit number, or the default when the text spells none. */
  ghost predicate IsLimit(s: string, default: nat, n: U32) {
    if exists k: nat :: Spells(s, k) && k <= 4_294_967_295 then Spells(s, n) else n == default
  }

  lemma MethodRead(s: string, m: HttpMethod)
    ensures ParseMethod(s) == Some(m) <==> IsMethod(s, m)
  {
  }

  lemma LowerIsSame(s: string, word: string)
    requires forall i :: 0 <= i < |word| ==> 'a' <= word[i] <= 'z'
    ensures LowerCase(s) == word <==> SameWord(s, word)
  {
    MapSeqAt(LowerChar, s);
    if SameWord(s, word) {
      forall i | 0 <= i < |s|
        ensures LowerCase(s)[i] == word[i]
      {
        assert LowerChar(s[i]) == word[i];
      }
    } else if LowerCase(s) == word {
      forall i | 0 <= i < |s|
        ensures s[i] == word[i] || s[i] as int + 32 == word[i] as int
      {
        assert LowerChar(s[i]) == word[i];
      }
    }
  }

  /** Operation names are read in any case. */
  lemma OperationRead(s: string, o: DbOperation)
    ensures ParseOperation(s) == Some(o) <==> IsOperation(s, o)
  {
    hide LowerCase, SameWord;
    LowerIsSame(s, "select");
    LowerIsSame(s, "insert");
    LowerIsSame(s, "update");
    LowerIsSame(s, "delete");
  }

  lemma {:induction false} ZerosAddNothing(k: nat, s: string)
    requires AllDigits(s)
    ensures AllDigits(Zeros(k) + s) && DigitsValue(Zeros(k) + s) == DigitsValue(s)
  {
    var all := Zeros(k) + s;
    if s != "" {
      var n := |s| - 1;
      ZerosAddNothing(k, s[..n]);
      assert all[..|all| - 1] == Zeros(k) + s[..n];
    } else if k > 0 {
      ZerosAddNothing(k - 1, s);
      assert all[..k - 1] == Zeros(k - 1) + s;
    }
  }

  lemma PrintSnoc(v: nat, c: char)
    requires IsDigit(c)
    ensures PrintNat(10 * v + Digit(c)) == if v == 0 then [c] else PrintNat(v) + [c]
  {
    assert [('0' as int + Digit(c)) as char] == [c];
  }

  lemma ValueSnoc(front: string, c: char)
    requires AllDigits(front) && IsDigit(c)
    ensures AllDigits(front + [c]) && DigitsValue(front + [c]) == 10 * DigitsValue(front) + Digit(c)
    ensures DigitsValue("") == 0
  {
    assert (front + [c])[..|front|] == front;
  }

  lemma SpelledSnoc(front: string, c: char, zeros: nat, v: nat)
    requires IsDigit(c) && front == Zeros(zeros) + PrintNat(v)
    ensures front + [c] == Zeros(if v == 0 then zeros + 1 else zeros) + PrintNat(10 * v + Digit(c))
  {
    hide PrintNat;
    PrintSnoc(v, c);
    PrintSnoc(0, '0');
  }

  /** Any digits are the digits of their value after some zeros. */
  lemma {:induction false} DigitsSpell(s: string) returns (zeros: nat)
    requires s != "" && AllDigits(s)
    ensures s == Zeros(zeros) + PrintNat(DigitsValue(s))
  {
    hide PrintNat, DigitsValue, Digit;
    var n := |s| - 1;
    var front, c := s[..n], s[n];
    assert s == front + [c];
    ValueSnoc(front, c);
    if n == 0 {
      zeros := 0;
      PrintSnoc(0, c);
    } else {
      zeros := DigitsSpell(front);
      SpelledSnoc(front, c, zeros, DigitsValue(front));
      zeros := if DigitsValue(front) == 0 then zeros + 1 else zeros;
    }
  }

  /** The digits behind a plus sign, if there is one. */
  function Unsigned(s: string): string {
    if s != "" && s[0] == '+' then s[1..] else s
  }

  lemma ParsedSpells(s: string, max: nat, n: nat)
    requires ParseUnsigned(s, max) == Some(n)
    ensures Spells(s, n)
  {
    hide PrintNat, DigitsValue, AllDigits;
    var digits := Unsigned(s);
    var k := DigitsSpell(digits);
    assert s == digits || s == "+" + digits;
    assert "+" + Zeros(k) + PrintNat(n) == "+" + digits;
  }

  lemma SpelledParses(s: string, max: nat, n: nat, zeros: nat)
    requires s == Zeros(zeros) + PrintNat(n) || s == "+" + Zeros(zeros) + PrintNat(n)
    ensures ParseUnsigned(s, max) == if n <= max then Some(n) else None
  {
    var digits := Zeros(zeros) + PrintNat(n);
    ZerosAddNothing(zeros, PrintNat(n));
    hide PrintNat, DigitsValue;
    assert IsDigit(digits[0]);
    assert "+" + Zeros(zeros) + PrintNat(n) == "+" + digits;
    assert ("+" + digits)[1..] == digits;
    assert Unsigned(s) == digits;
  }

  /** Unsigned numbers are read exactly from their spellings, if they are within the type. */
  lemma NumberRead(s: string, max: nat, n: nat)
    ensures ParseUnsigned(s, max) == Some(n) <==> Spells(s, n) && n <= max
  {
    hide ParseUnsigned, PrintNat, Zeros;
    if ParseUnsigned(s, max) == Some(n) {
      ParsedSpells(s, max, n);
    }
    if Spells(s, n) {
      var k: nat :| s == Zeros(k) + PrintNat(n) || s == "+" + Zeros(k) + PrintNat(n);
      SpelledParses(s, max, n, k);
    }
  }

  lemma PortRead(s: string, p: U16)
    ensures ParsePort(s) == Some(p) <==> IsPort(s, p)
  {
    NumberRead(s, MAX_U16, p);
  }

  lemma ChainIdRead(s: string, c: U64)
    ensures ParseChainId(s) == Some(c) <==> IsChainId(s, c)
  {
    NumberRead(s, MAX_U64, c);
  }

  lemma LimitRead(s: string, default: U32, n: U32)
    ensures ParseU32Or(s, default) == n <==> IsLimit(s, default, n)
  {
    hide ParseUnsigned, Spells;
    NumberRead(s, MAX_U32, n);
    if ParseUnsigned(s, MAX_U32).Some? {
      NumberRead(s, MAX_U32, ParseUnsigned(s, MAX_U32).value);
    }
    forall k: nat
      ensures ParseUnsigned(s, MAX_U32) == Some(k) <==> Spells(s, k) && k <= MAX_U32
    {
      NumberRead(s, MAX_U32, k);
    }
  }

  /** The widths of the four numbers: 16, 64 and 32 bits. */
  lemma WidthsExactly(n: nat)
    ensures ParsePort(PrintNat(n)).Some? <==> n <= 65_535
    ensures ParseChainId(PrintNat(n)).Some? <==> n <= 18_446_744_073_709_551_615
    ensures ParseU32Or(PrintNat(n), 60) == if n <= 4_294_967_295 then n else 60
  {
    SpelledParses(PrintNat(n), MAX_U16, n, 0);
    SpelledParses(PrintNat(n), MAX_U64, n, 0);
    SpelledParses(PrintNat(n), MAX_U32, n, 0);
  }

  // ----- lists -----

  /** The items that the pieces stand for, in order; a piece that stands for none is dropped. */
  ghost predicate Picks<T(!new)>(means: (string, T) -> bool, pieces: seq<string>, items: seq<T>) {
    if pieces == [] then items == []
    else if exists x :: means(pieces[0], x) then
      items != [] && means(pieces[0], items[0]) && Picks(means, pieces[1..], items[1..])
    else Picks(means, pieces[1..], items)
  }

  /** The text is these pieces, at least one, with separators between them. */
  predicate Joins(text: string, c: char, pieces: seq<string>) {
    pieces != [] && AllFree(pieces, c) && Join(pieces, c) == text
  }

  ghost predicate Lists<T(!new)>(means: (string, T) -> bool, text: string, items: seq<T>) {
    exists pieces :: Joins(text, ',', pieces) && Picks(means, pieces, items)
  }

  lemma JoinsExactly(text: string, c: char, pieces: seq<string>)
    ensures Joins(text, c, pieces) <==> pieces == Split(text, c)
  {
    SplitJoin(pieces, c);
  }

  lemma {:induction false} PicksExactly<T(!new)>(
      parse: string -> Option<T>, means: (string, T) -> bool, pieces: seq<string>, items: seq<T>)
    requires forall s, x :: parse(s) == Some(x) <==> means(s, x)
    ensures FilterMap(parse, pieces) == items <==> Picks(means, pieces, items)
  {
    if pieces != [] {
      var x := parse(pieces[0]);
      PicksExactly(parse, means, pieces[1..], if x.Some? && items != [] then items[1..] else items);
      if x.Some? {
        assert means(pieces[0], x.value);
        assert items != [] ==> items == [items[0]] + items[1..];
      }
    }
  }

  lemma ListsExactly<T(!new)>(parse: string -> Option<T>, means: (string, T) -> bool, text: string, items: seq<T>)
    requires forall s, x :: parse(s) == Some(x) <==> means(s, x)
    ensures ParseList(parse, text) == items <==> Lists(means, text, items)
  {
    hide FilterMap, Split, Joins, Picks;
    var pieces := Split(text, ',');
    JoinsExactly(text, ',', pieces);
    PicksExactly(parse, means, pieces, items);
    forall other | Joins(text, ',', other)
      ensures other == pieces
    {
      JoinsExactly(text, ',', other);
    }
  }

  // ----- the grammar -----

  /** A compact string: a kind, a middle, and a tail that may be missing. */
  datatype Fields = Fields(kind: string, middle: string, tail: Option<string>) {
    function Text(): string {
      kind + ":" + middle + if tail.Some? then ":" + tail.value else ""
    }

    predicate Apart() {
      Free(kind, ':') && Free(middle, ':')
    }
  }

  ghost predicate TailLists(tail: Option<string>, pieces: seq<string>) {
    tail.Some? && Joins(tail.value, ',', pieces)
  }

  /** Which fields make which capability. */
  ghost predicate Fits(f: Fields, c: AgentCapability)
    decreases c, 1
  {
    match c
    case FileRead(paths) => f.kind == "file" && f.middle == "read" && TailLists(f.tail, paths)
    case FileWrite(paths) => f.kind == "file" && f.middle == "write" && TailLists(f.tail, paths)
    case NetworkHttp(hosts, methods) =>
      && f.kind == "http" && TailLists(f.tail, hosts)
      && if f.middle == "*" then methods == [] else Lists(IsMethod, f.middle, methods)
    case NetworkTcp(ports, hosts) =>
      && f.kind == "tcp" && Lists(IsPort, f.middle, ports)
      && if f.tail == None || f.tail == Some("*") then hosts == [] else TailLists(f.tail, hosts)
    case Database(tables, operations) =>
      f.kind == "db" && TailLists(f.tail, tables) && Lists(IsOperation, f.middle, operations)
    case ExternalApi(endpoints, limit) => f.kind == "api" && TailLists(f.tail, endpoints) && IsLimit(f.middle, 60, limit)
    case Llm(providers, max) => f.kind == "llm" && TailLists(f.tail, providers) && IsLimit(f.middle, 4096, max)
    case Skill(ids, install) => f.kind == "skill" && TailLists(f.tail, ids) && (install <==> f.middle == "true")
    case Wallet(chains, max) =>
      && f.kind == "wallet" && f.tail.Some? && Lists(IsChainId, f.tail.value, chains)
      && max == if f.middle == "unlimited" then None else Some(f.middle)
    case Spawn(max, children) =>
      && f.kind == "spawn" && IsLimit(f.middle, 1, max)
      && if f.tail.None? then children == []
         else exists pieces :: Joins(f.tail.value, ';', pieces) && ReadsAll(pieces, children)
  }

  /** Which texts are which capability. */
  ghost predicate Reads(s: string, c: AgentCapability)
    decreases c, 2
  {
    exists f: Fields :: f.Apart() && f.Text() == s && Fits(f, c)
  }

  /** Of the pieces under a spawn, those that are capabilities at all, in order. */
  ghost predicate ReadsAll(pieces: seq<string>, cs: seq<AgentCapability>)
    decreases cs, |pieces|
  {
    if pieces == [] then cs == []
    else if IsCapability(pieces[0]) then
      cs != [] && Reads(pieces[0], cs[0]) && ReadsAll(pieces[1..], cs[1..])
    else ReadsAll(pieces[1..], cs)
  }

  /** Nine words begin a capability; after all but `tcp` and `spawn` a third field must follow. */
  predicate IsCapability(s: string) {
    || "tcp:" <= s
    || "spawn:" <= s
    || "file:read:" <= s
    || "file:write:" <= s
    || (exists prefix :: prefix in {"http:", "db:", "api:", "llm:", "skill:", "wallet:"} && HasThird(s, prefix))
  }

  predicate HasThird(s: string, prefix: string) {
    prefix <= s && ':' in s[|prefix|..]
  }

  // ----- cutting a text into fields -----

  lemma SplitTwo(a: string, b: string)
    requires Free(a, ':') && Free(b, ':')
    ensures SplitN(a + ":" + b, ':', 3) == [a, b]
  {
    hide SplitN;
    SplitNHead(a, b, ':', 3);
    SplitNFree(b);
  }

  lemma SplitNFree(s: string)
    requires Free(s, ':')
    ensures SplitN(s, ':', 3) == [s] == SplitN(s, ':', 2)
  {
    if IndexOf(s, ':') < |s| {
      assert false;
    }
  }

  /** Fields that stand apart are read from their text. */
  lemma ParseText(f: Fields)
    requires f.Apart()
    ensures Parse(f.Text()) == ParseFields(f.kind, f.middle, f.tail)
  {
    hide ParseFields, SplitN, Free;
    match f.tail {
      case Some(t) =>
        assert f.Text() == f.kind + ":" + f.middle + ":" + t;
        ParseThree(f.kind, f.middle, t);
      case None =>
        assert f.Text() == f.kind + ":" + f.middle;
        SplitTwo(f.kind, f.middle);
    }
  }

  lemma FirstColon(s: string) returns (head: string, rest: string)
    requires !Free(s, ':')
    ensures s == head + ":" + rest && Free(head, ':')
  {
    var k := IndexOf(s, ':');
    assert s[..|s|] == s;
    head, rest := s[..k], s[k + 1..];
  }

  /** Every text with a colon has fields. */
  lemma FieldsOf(s: string) returns (f: Fields)
    requires !Free(s, ':')
    ensures f.Apart() && f.Text() == s
  {
    hide Free;
    var kind, rest := FirstColon(s);
    if Free(rest, ':') {
      f := Fields(kind, rest, None);
    } else {
      var middle, tail := FirstColon(rest);
      f := Fields(kind, middle, Some(tail));
    }
  }

  lemma PrefixHas(prefix: string, s: string, c: char)
    requires prefix <= s && c in prefix
    ensures c in s
  {
    var i :| 0 <= i < |prefix| && prefix[i] == c;
    assert s[i] == c;
  }

  lemma NoColonNothing(s: string)
    requires Free(s, ':')
    ensures Parse(s) == None && !IsCapability(s)
  {
    SplitNFree(s);
    forall prefix: string | prefix <= s
      ensures ':' !in prefix
    {
      if ':' in prefix {
        PrefixHas(prefix, s, ':');
      }
    }
    assert ':' in "tcp:" && ':' in "spawn:" && ':' in "file:read:" && ':' in "file:write:";
    assert forall kind: string :: ':' in kind + ":";
  }

  /** A word and a colon begin a text exactly when the word is what stands before its first colon. */
  lemma HeadIsPrefix(head: string, rest: string, word: string)
    requires Free(head, ':') && Free(word, ':')
    ensures word + ":" <= head + ":" + rest <==> head == word
  {
    var s := head + ":" + rest;
    IndexOfHead(head, rest, ':');
    if word + ":" <= s {
      assert s == word + ":" + s[|word| + 1..];
      IndexOfHead(word, s[|word| + 1..], ':');
      assert s[..|word|] == word && s[..|head|] == head;
    }
  }

  /** What follows the kind and its colon. */
  function Behind(f: Fields): string {
    f.middle + if f.tail.Some? then ":" + f.tail.value else ""
  }

  lemma KindIsPrefix(f: Fields, kind: string)
    requires f.Apart() && Free(kind, ':')
    ensures kind + ":" <= f.Text() <==> f.kind == kind
    ensures f.kind == kind ==> f.Text()[|kind| + 1..] == Behind(f)
    ensures ':' in Behind(f) <==> f.tail.Some?
  {
    assert f.Text() == f.kind + ":" + Behind(f);
    HeadIsPrefix(f.kind, Behind(f), kind);
    if f.tail.Some? {
      assert Behind(f)[|f.middle|] == ':';
    }
  }

  lemma FilePrefix(f: Fields, word: string)
    requires f.Apart() && Free(word, ':')
    ensures "file:" + word + ":" <= f.Text() <==> f.kind == "file" && f.middle == word && f.tail.Some?
  {
    var prefix, s := "file:" + word + ":", f.Text();
    KindIsPrefix(f, "file");
    assert prefix == "file:" + (word + ":");
    if f.kind == "file" {
      assert s == "file:" + Behind(f);
      assert prefix <= s <==> word + ":" <= Behind(f);
      if f.tail.Some? {
        HeadIsPrefix(f.middle, f.tail.value, word);
      } else if word + ":" <= Behind(f) {
        assert ':' in word + ":";
        PrefixHas(word + ":", Behind(f), ':');
      }
    } else {
      assert prefix <= s ==> "file:" <= s;
    }
  }

  /** For every text: it parses exactly when it begins with one of the nine words and its third field is not missing. */
  lemma ParsesExactly(s: string)
    ensures Parse(s).Some? <==> IsCapability(s)
  {
    hide Parse, Free;
    if Free(s, ':') {
      NoColonNothing(s);
    } else {
      var f := FieldsOf(s);
      ParseText(f);
      KindsOfText(f);
      FieldsParse(f);
    }
  }

  lemma ThirdField(f: Fields, kind: string)
    requires f.Apart() && Free(kind, ':')
    ensures HasThird(f.Text(), kind + ":") <==> f.kind == kind && f.tail.Some?
  {
    KindIsPrefix(f, kind);
  }

  lemma KindsOfText(f: Fields)
    requires f.Apart()
    ensures IsCapability(f.Text()) <==>
              || f.kind in {"tcp", "spawn"}
              || (f.kind == "file" && f.middle in {"read", "write"} && f.tail.Some?)
              || (f.kind in {"http", "db", "api", "llm", "skill", "wallet"} && f.tail.Some?)
  {
    hide HasThird, Fields.Text;
    KindIsPrefix(f, "tcp");
    KindIsPrefix(f, "spawn");
    FilePrefix(f, "read");
    FilePrefix(f, "write");
    ThirdField(f, "http");
    ThirdField(f, "db");
    ThirdField(f, "api");
    ThirdField(f, "llm");
    ThirdField(f, "skill");
    ThirdField(f, "wallet");
    Prefixes();
  }

  lemma Prefixes()
    ensures "tcp" + ":" == "tcp:" && "spawn" + ":" == "spawn:"
    ensures "file:" + "read" + ":" == "file:read:" && "file:" + "write" + ":" == "file:write:"
    ensures "http" + ":" == "http:" && "db" + ":" == "db:" && "api" + ":" == "api:"
    ensures "llm" + ":" == "llm:" && "skill" + ":" == "skill:" && "wallet" + ":" == "wallet:"
  {
  }

  lemma FieldsParse(f: Fields)
    ensures ParseFields(f.kind, f.middle, f.tail).Some? <==>
              || f.kind in {"tcp", "spawn"}
              || (f.kind == "file" && f.middle in {"read", "write"} && f.tail.Some?)
              || (f.kind in {"http", "db", "api", "llm", "skill", "wallet"} && f.tail.Some?)
  {
    hide Split, ParseAll, FilterMap, ParseU32Or;
  }

  // ----- the parser follows the grammar -----

  lemma TailExactly(tail: Option<string>, pieces: seq<string>)
    ensures TailLists(tail, pieces) <==> tail.Some? && pieces == Split(tail.value, ',')
  {
    if tail.Some? {
      JoinsExactly(tail.value, ',', pieces);
    }
  }

  lemma FileFits(f: Fields, c: AgentCapability)
    requires f.kind == "file"
    ensures ParseFields(f.kind, f.middle, f.tail) == Some(c) <==> Fits(f, c)
  {
    hide Split, TailLists;
    match c
    case FileRead(paths) => TailExactly(f.tail, paths);
    case FileWrite(paths) => TailExactly(f.tail, paths);
    case _ =>
  }

  lemma HttpFits(f: Fields, c: AgentCapability)
    requires f.kind == "http"
    ensures ParseFields(f.kind, f.middle, f.tail) == Some(c) <==> Fits(f, c)
  {
    hide Split, TailLists, Lists, FilterMap, ParseMethod, IsMethod;
    if c.NetworkHttp? {
      TailExactly(f.tail, c.hosts);
      forall s, m: HttpMethod
        ensures ParseMethod(s) == Some(m) <==> IsMethod(s, m)
      {
        MethodRead(s, m);
      }
      ListsExactly(ParseMethod, IsMethod, f.middle, c.methods);
    }
  }

  lemma TcpFits(f: Fields, c: AgentCapability)
    requires f.kind == "tcp"
    ensures ParseFields(f.kind, f.middle, f.tail) == Some(c) <==> Fits(f, c)
  {
    hide Split, TailLists, Lists, FilterMap, ParsePort, IsPort;
    if c.NetworkTcp? {
      TailExactly(f.tail, c.tcpHosts);
      forall s, p: U16
        ensures ParsePort(s) == Some(p) <==> IsPort(s, p)
      {
        PortRead(s, p);
      }
      ListsExactly(ParsePort, IsPort, f.middle, c.ports);
    }
  }

  lemma DbFits(f: Fields, c: AgentCapability)
    requires f.kind == "db"
    ensures ParseFields(f.kind, f.middle, f.tail) == Some(c) <==> Fits(f, c)
  {
    hide Split, TailLists, Lists, FilterMap, ParseOperation, IsOperation;
    if c.Database? {
      TailExactly(f.tail, c.tables);
      forall s, o: DbOperation
        ensures ParseOperation(s) == Some(o) <==> IsOperation(s, o)
      {
        OperationRead(s, o);
      }
      ListsExactly(ParseOperation, IsOperation, f.middle, c.operations);
    }
  }

  lemma LimitedFits(f: Fields, c: AgentCapability)
    requires f.kind == "api" || f.kind == "llm" || f.kind == "skill"
    ensures ParseFields(f.kind, f.middle, f.tail) == Some(c) <==> Fits(f, c)
  {
    hide Split, TailLists, ParseU32Or, IsLimit;
    match c
    case ExternalApi(endpoints, limit) =>
      TailExactly(f.tail, endpoints);
      LimitRead(f.middle, 60, limit);
    case Llm(providers, max) =>
      TailExactly(f.tail, providers);
      LimitRead(f.middle, 4096, max);
    case Skill(ids, _) => TailExactly(f.tail, ids);
    case _ =>
  }

  lemma WalletFits(f: Fields, c: AgentCapability)
    requires f.kind == "wallet"
    ensures ParseFields(f.kind, f.middle, f.tail) == Some(c) <==> Fits(f, c)
  {
    hide Split, Lists, FilterMap, ParseChainId, IsChainId;
    if c.Wallet? && f.tail.Some? {
      forall s, n: U64
        ensures ParseChainId(s) == Some(n) <==> IsChainId(s, n)
      {
        ChainIdRead(s, n);
      }
      ListsExactly(ParseChainId, IsChainId, f.tail.value, c.chainIds);
    }
  }

  lemma {:induction false} FieldsFit(f: Fields, c: AgentCapability)
    ensures ParseFields(f.kind, f.middle, f.tail) == Some(c) <==> Fits(f, c)
    decreases if f.tail.Some? then |f.tail.value| + 1 else 0, 1
  {
    hide ParseFields, Fits;
    if f.kind == "file" {
      FileFits(f, c);
    } else if f.kind == "http" {
      HttpFits(f, c);
    } else if f.kind == "tcp" {
      TcpFits(f, c);
    } else if f.kind == "db" {
      DbFits(f, c);
    } else if f.kind in {"api", "llm", "skill"} {
      LimitedFits(f, c);
    } else if f.kind == "wallet" {
      WalletFits(f, c);
    } else if f.kind == "spawn" {
      SpawnFits(f, c);
    } else {
      UnknownFits(f, c);
    }
  }

  lemma UnknownFits(f: Fields, c: AgentCapability)
    requires f.kind !in {"file", "http", "tcp", "db", "api", "llm", "skill", "wallet", "spawn"}
    ensures ParseFields(f.kind, f.middle, f.tail) == None && !Fits(f, c)
  {
    hide Split, TailLists, Lists, IsLimit;
  }

  lemma {:induction false} SpawnFits(f: Fields, c: AgentCapability)
    requires f.kind == "spawn"
    ensures ParseFields(f.kind, f.middle, f.tail) == Some(c) <==> Fits(f, c)
    decreases if f.tail.Some? then |f.tail.value| + 1 else 0, 0
  {
    hide ParseAll, ReadsAll, Split, Joins, ParseU32Or, IsLimit;
    if c.Spawn? {
      LimitRead(f.middle, 1, c.maxConcurrent);
      if f.tail.Some? {
        var pieces := Split(f.tail.value, ';');
        PiecesRead(pieces, c.allowed);
        forall other: seq<string>
          ensures Joins(f.tail.value, ';', other) <==> other == pieces
        {
          JoinsExactly(f.tail.value, ';', other);
        }
      }
    }
  }

  lemma {:induction false} PiecesRead(pieces: seq<string>, cs: seq<AgentCapability>)
    ensures ParseAll(pieces) == cs <==> ReadsAll(pieces, cs)
    decreases |Join(pieces, ';')|, |pieces| + 1
  {
    hide Parse, Reads, IsCapability;
    if pieces != [] {
      JoinLength(pieces, ';');
      ParsesExactly(pieces[0]);
      if Parse(pieces[0]).Some? && cs != [] {
        ReadsExactly(pieces[0], cs[0]);
        PiecesRead(pieces[1..], cs[1..]);
        assert cs == [cs[0]] + cs[1..];
      } else {
        PiecesRead(pieces[1..], cs);
      }
    }
  }

  /** For every text and every tree: the text parses to the tree exactly when the grammar says so. */
  lemma {:induction false} ReadsExactly(s: string, c: AgentCapability)
    ensures Parse(s) == Some(c) <==> Reads(s, c)
    decreases |s|, 0
  {
    hide Parse, ParseFields, Fits, Free, Fields.Text;
    if Free(s, ':') {
      NoColonNothing(s);
      forall f: Fields
        ensures f.Text() != s
      {
        TextHasColon(f);
      }
    } else {
      var f := FieldsOf(s);
      ParseText(f);
      TailIsShorter(f);
      FieldsFit(f, c);
      forall other: Fields | other.Apart() && other.Text() == s
        ensures Parse(s) == Some(c) <==> Fits(other, c)
      {
        ParseText(other);
        TailIsShorter(other);
        FieldsFit(other, c);
      }
    }
  }

  lemma TextHasColon(f: Fields)
    ensures !Free(f.Text(), ':')
  {
    assert f.Text()[|f.kind|] == ':';
  }

  lemma TailIsShorter(f: Fields)
    ensures |f.Text()| > if f.tail.Some? then |f.tail.value| + 1 else 0
  {
  }

  /** Of the many words that read as no permission to install, one is printed. */
  lemma SkillPrinted(ids: seq<string>, install: bool, word: string)
    requires Free(word, ':')
    ensures Print(Skill(ids, install)) == "skill" + ":" + (if install then "true" else "false") + ":" + Join(ids, ',')
    ensures ids != [] && AllFree(ids, ',') ==>
              (Parse("skill" + ":" + word + ":" + Join(ids, ',')) == Some(Skill(ids, false)) <==> word != "true")
  {
    hide Parse, ParseFields, Join, Split;
    SplitJoin(ids, ',');
    ParseThree("skill", word, Join(ids, ','));
    SkillFields(word, Join(ids, ','));
  }

  lemma SkillFields(word: string, tail: string)
    ensures ParseFields("skill", word, Some(tail)) == Some(Skill(Split(tail, ','), word == "true"))
  {
  }

  // ----- sets of capabilities -----

  /** A stored string is a capability if the JSON reader says so, or else if the grammar does. */
  ghost function StoredAs(json: string -> Option<AgentCapability>): (string, AgentCapability) -> bool {
    (s, c) => json(s) == Some(c) || (json(s) == None && Reads(s, c))
  }

  /**
   For every list of strings: what is read are the capabilities among them, in order; strings that
   are none are dropped.
   */
  lemma {:induction false} FromStringsExactly(
      json: string -> Option<AgentCapability>, strings: seq<string>, caps: seq<AgentCapability>)
    ensures FromStrings(json, strings) == caps <==> Picks(StoredAs(json), strings, caps)
  {
    hide Parse, Reads;
    if strings != [] {
      var c := if json(strings[0]).Some? then json(strings[0]) else Parse(strings[0]);
      forall x: AgentCapability
        ensures StoredAs(json)(strings[0], x) <==> c == Some(x)
      {
        ReadsExactly(strings[0], x);
      }
      FromStringsExactly(json, strings[1..], if c.Some? && caps != [] then caps[1..] else caps);
      if c.Some? {
        assert StoredAs(json)(strings[0], c.value);
        assert caps != [] ==> caps == [caps[0]] + caps[1..];
      }
    }
  }
}
