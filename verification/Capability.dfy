/**
 Agent capabilities and their compact strings.

 The format has three separators and no escapes, so a tree survives printing and parsing only
 when its parts keep clear of them.  `WellFormed` says exactly which trees do, and every tree
 that the parser returns is one of them.
 */
module Capability {
  import opened Wrappers
  import opened Text

  const MAX_U16: nat := 0xFFFF
  const MAX_U32: nat := 0xFFFF_FFFF
  const MAX_U64: nat := 0xFFFF_FFFF_FFFF_FFFF

  type U16 = n: nat | n <= MAX_U16
  type U32 = n: nat | n <= MAX_U32
  type U64 = n: nat | n <= MAX_U64

  datatype HttpMethod = Get | Post | Put | Delete | Patch | Head | Options

  datatype DbOperation = Select | Insert | Update | Delete

  datatype AgentCapability =
    | FileRead(paths: seq<string>)
    | FileWrite(paths: seq<string>)
    | NetworkHttp(hosts: seq<string>, methods: seq<HttpMethod>)
    | NetworkTcp(ports: seq<U16>, tcpHosts: seq<string>)
    | Database(tables: seq<string>, operations: seq<DbOperation>)
    | ExternalApi(endpoints: seq<string>, rateLimitPerMinute: U32)
    | Llm(providers: seq<string>, maxTokensPerRequest: U32)
    | Skill(skillIds: seq<string>, allowInstall: bool)
    | Wallet(chainIds: seq<U64>, maxTransactionValue: Option<string>)
    | Spawn(maxConcurrent: U32, allowed: seq<AgentCapability>)

  // ----- items of the lists -----

  function PrintMethod(m: HttpMethod): string {
    match m
    case Get => "GET"
    case Post => "POST"
    case Put => "PUT"
    case Delete => "DELETE"
    case Patch => "PATCH"
    case Head => "HEAD"
    case Options => "OPTIONS"
  }

  /** The parser knows five of the seven methods that the printer writes. */
  function ParseMethod(s: string): Option<HttpMethod> {
    if s == "GET" then Some(Get)
    else if s == "POST" then Some(Post)
    else if s == "PUT" then Some(Put)
    else if s == "DELETE" then Some(HttpMethod.Delete)
    else if s == "PATCH" then Some(Patch)
    else None
  }

  function PrintOperation(o: DbOperation): string {
    match o
    case Select => "select"
    case Insert => "insert"
    case Update => "update"
    case Delete => "delete"
  }

  function LowerCase(s: string): string {
    MapSeq(LowerChar, s)
  }

  /** No character outside A-Z has a lower-case form that occurs in the names of the operations. */
  function LowerChar(c: char): char {
    if 'A' <= c <= 'Z' then (c as int - 'A' as int + 'a' as int) as char else c
  }

  function ParseOperation(s: string): Option<DbOperation> {
    var lower := LowerCase(s);
    if lower == "select" then Some(Select)
    else if lower == "insert" then Some(Insert)
    else if lower == "update" then Some(Update)
    else if lower == "delete" then Some(DbOperation.Delete)
    else None
  }

  function PrintPort(p: U16): string {
    PrintNat(p)
  }

  function ParsePort(s: string): Option<U16> {
    ParseUnsigned(s, MAX_U16)
  }

  function PrintChainId(c: U64): string {
    PrintNat(c)
  }

  function ParseChainId(s: string): Option<U64> {
    ParseUnsigned(s, MAX_U64)
  }

  function ParseU32Or(s: string, default: U32): U32 {
    match ParseUnsigned(s, MAX_U32)
    case Some(n) => n
    case None => default
  }

  function PrintBool(b: bool): string {
    if b then "true" else "false"
  }

  /** Whatever is not a boolean reads as false. */
  function ParseBool(s: string): bool {
    s == "true"
  }

  // ----- the printer -----

  /** The three fields of a compact string. */
  function Kind(c: AgentCapability): string {
    match c
    case FileRead(_) => "file"
    case FileWrite(_) => "file"
    case NetworkHttp(_, _) => "http"
    case NetworkTcp(_, _) => "tcp"
    case Database(_, _) => "db"
    case ExternalApi(_, _) => "api"
    case Llm(_, _) => "llm"
    case Skill(_, _) => "skill"
    case Wallet(_, _) => "wallet"
    case Spawn(_, _) => "spawn"
  }

  function Middle(c: AgentCapability): string {
    match c
    case FileRead(_) => "read"
    case FileWrite(_) => "write"
    case NetworkHttp(_, methods) => if methods == [] then "*" else PrintList(PrintMethod, methods)
    case NetworkTcp(ports, _) => PrintList(PrintPort, ports)
    case Database(_, operations) => PrintList(PrintOperation, operations)
    case ExternalApi(_, limit) => PrintNat(limit)
    case Llm(_, max) => PrintNat(max)
    case Skill(_, install) => PrintBool(install)
    case Wallet(_, max) => if max.Some? then max.value else "unlimited"
    case Spawn(max, _) => PrintNat(max)
  }

  function Tail(c: AgentCapability): string
    decreases c, 1
  {
    match c
    case FileRead(paths) => Join(paths, ',')
    case FileWrite(paths) => Join(paths, ',')
    case NetworkHttp(hosts, _) => Join(hosts, ',')
    case NetworkTcp(_, hosts) => if hosts == [] then "*" else Join(hosts, ',')
    case Database(tables, _) => Join(tables, ',')
    case ExternalApi(endpoints, _) => Join(endpoints, ',')
    case Llm(providers, _) => Join(providers, ',')
    case Skill(ids, _) => Join(ids, ',')
    case Wallet(chains, _) => PrintList(PrintChainId, chains)
    case Spawn(_, children) => Join(PrintAll(children), ';')
  }

  function Print(c: AgentCapability): string
    decreases c, 2
  {
    Kind(c) + ":" + Middle(c) + ":" + Tail(c)
  }

  function PrintAll(cs: seq<AgentCapability>): (ss: seq<string>)
    ensures |ss| == |cs|
    decreases cs, 0
  {
    if cs == [] then [] else [Print(cs[0])] + PrintAll(cs[1..])
  }

  // ----- the parser -----

  /** Every piece that is parsed under `spawn:` is strictly shorter than the input. */
  function Parse(s: string): Option<AgentCapability>
    decreases |s|, 0
  {
    var parts := SplitN(s, ':', 3);
    if |parts| < 2 then None
    else ParseFields(parts[0], parts[1], if |parts| == 3 then Some(parts[2]) else None)
  }

  function ParseFields(kind: string, middle: string, tail: Option<string>): Option<AgentCapability>
    decreases if tail.Some? then |tail.value| + 1 else 0, 0
  {
    if kind == "file" then
      if tail.None? then None
      else if middle == "read" then Some(FileRead(Split(tail.value, ',')))
      else if middle == "write" then Some(FileWrite(Split(tail.value, ',')))
      else None
    else if kind == "http" then
      if tail.None? then None
      else Some(NetworkHttp(Split(tail.value, ','), if middle == "*" then [] else ParseList(ParseMethod, middle)))
    else if kind == "tcp" then
      Some(NetworkTcp(
        ParseList(ParsePort, middle),
        if tail.None? || tail.value == "*" then [] else Split(tail.value, ',')))
    else if kind == "db" then
      if tail.None? then None
      else Some(Database(Split(tail.value, ','), ParseList(ParseOperation, middle)))
    else if kind == "api" then
      if tail.None? then None
      else Some(ExternalApi(Split(tail.value, ','), ParseU32Or(middle, 60)))
    else if kind == "llm" then
      if tail.None? then None
      else Some(Llm(Split(tail.value, ','), ParseU32Or(middle, 4096)))
    else if kind == "skill" then
      if tail.None? then None
      else Some(Skill(Split(tail.value, ','), ParseBool(middle)))
    else if kind == "wallet" then
      if tail.None? then None
      else Some(Wallet(ParseList(ParseChainId, tail.value), if middle == "unlimited" then None else Some(middle)))
    else if kind == "spawn" then
      Some(Spawn(ParseU32Or(middle, 1), if tail.None? then [] else ParseAll(Split(tail.value, ';'))))
    else None
  }

  /** Pieces that do not parse are dropped. */
  function ParseAll(parts: seq<string>): seq<AgentCapability>
    decreases |Join(parts, ';')|, |parts| + 1
  {
    if parts == [] then []
    else
      JoinLength(parts, ';');
      var rest := ParseAll(parts[1..]);
      match Parse(parts[0])
      case Some(c) => [c] + rest
      case None => rest
  }

  // ----- which trees survive -----

  /** A list that a comma-separated field can hold. */
  predicate Listable(xs: seq<string>) {
    xs != [] && AllFree(xs, ',')
  }

  predicate Known(m: HttpMethod) {
    m in {Get, Post, Put, HttpMethod.Delete, Patch}
  }

  predicate WellFormed(c: AgentCapability) {
    match c
    case FileRead(paths) => Listable(paths)
    case FileWrite(paths) => Listable(paths)
    case NetworkHttp(hosts, methods) => Listable(hosts) && forall i :: 0 <= i < |methods| ==> Known(methods[i])
    case NetworkTcp(_, hosts) => hosts == [] || (Listable(hosts) && hosts != ["*"])
    case Database(tables, _) => Listable(tables)
    case ExternalApi(endpoints, _) => Listable(endpoints)
    case Llm(providers, _) => Listable(providers)
    case Skill(ids, _) => Listable(ids)
    case Wallet(_, max) => max.Some? ==> Free(max.value, ':') && max.value != "unlimited"
    case Spawn(_, children) =>
      forall i :: 0 <= i < |children| ==> WellFormed(children[i]) && Flat(children[i])
  }

  /** No text in the tree holds a semicolon, and no spawn in it has two children. */
  predicate Flat(c: AgentCapability) {
    match c
    case FileRead(paths) => AllFree(paths, ';')
    case FileWrite(paths) => AllFree(paths, ';')
    case NetworkHttp(hosts, _) => AllFree(hosts, ';')
    case NetworkTcp(_, hosts) => AllFree(hosts, ';')
    case Database(tables, _) => AllFree(tables, ';')
    case ExternalApi(endpoints, _) => AllFree(endpoints, ';')
    case Llm(providers, _) => AllFree(providers, ';')
    case Skill(ids, _) => AllFree(ids, ';')
    case Wallet(_, max) => max.Some? ==> Free(max.value, ';')
    case Spawn(_, children) => |children| <= 1 && forall i :: 0 <= i < |children| ==> Flat(children[i])
  }

  // ----- printed items -----

  lemma MethodRoundTrip(m: HttpMethod)
    ensures Known(m) <==> ParseMethod(PrintMethod(m)) == Some(m)
    ensures Free(PrintMethod(m), ',') && Free(PrintMethod(m), ':') && Free(PrintMethod(m), ';')
  {
  }

  lemma LowerCaseKeeps(s: string)
    requires forall i :: 0 <= i < |s| ==> 'a' <= s[i] <= 'z'
    ensures LowerCase(s) == s
  {
    MapSeqAt(LowerChar, s);
  }

  lemma OperationRoundTrip(o: DbOperation)
    ensures ParseOperation(PrintOperation(o)) == Some(o)
    ensures Free(PrintOperation(o), ',') && Free(PrintOperation(o), ':') && Free(PrintOperation(o), ';')
  {
    LowerCaseKeeps(PrintOperation(o));
  }

  lemma NumberFree(n: nat)
    ensures Free(PrintNat(n), ',') && Free(PrintNat(n), ':') && Free(PrintNat(n), ';')
  {
    DigitsFree(PrintNat(n), ',');
    DigitsFree(PrintNat(n), ':');
    DigitsFree(PrintNat(n), ';');
  }

  /** A printed list has no character that neither its items nor the comma have. */
  lemma ListFree<T>(show: T -> string, xs: seq<T>, d: char)
    requires d != ',' && forall x :: x in xs ==> Free(show(x), d)
    ensures Free(PrintList(show, xs), d)
  {
    MapSeqAt(show, xs);
    assert forall i :: 0 <= i < |xs| ==> xs[i] in xs;
    JoinFree(MapSeq(show, xs), ',', d);
  }

  lemma MethodsRoundTrip(methods: seq<HttpMethod>)
    ensures Free(PrintList(PrintMethod, methods), ':') && Free(PrintList(PrintMethod, methods), ';')
    ensures (forall i :: 0 <= i < |methods| ==> Known(methods[i]))
        ==> ParseList(ParseMethod, PrintList(PrintMethod, methods)) == methods
  {
    forall m: HttpMethod
      ensures Known(m) <==> ParseMethod(PrintMethod(m)) == Some(m)
      ensures Free(PrintMethod(m), ',') && Free(PrintMethod(m), ':') && Free(PrintMethod(m), ';')
    {
      MethodRoundTrip(m);
    }
    ListFree(PrintMethod, methods, ':');
    ListFree(PrintMethod, methods, ';');
    if forall i :: 0 <= i < |methods| ==> Known(methods[i]) {
      ListRoundTrip(PrintMethod, ParseMethod, methods);
    }
  }

  lemma OperationsRoundTrip(operations: seq<DbOperation>)
    ensures var s := PrintList(PrintOperation, operations);
            Free(s, ':') && Free(s, ';') && ParseList(ParseOperation, s) == operations
  {
    forall o: DbOperation
      ensures ParseOperation(PrintOperation(o)) == Some(o)
      ensures Free(PrintOperation(o), ',') && Free(PrintOperation(o), ':') && Free(PrintOperation(o), ';')
    {
      OperationRoundTrip(o);
    }
    ListFree(PrintOperation, operations, ':');
    ListFree(PrintOperation, operations, ';');
    ListRoundTrip(PrintOperation, ParseOperation, operations);
  }

  lemma PortsRoundTrip(ports: seq<U16>)
    ensures var s := PrintList(PrintPort, ports);
            Free(s, ':') && Free(s, ';') && ParseList(ParsePort, s) == ports
  {
    forall p: U16
      ensures ParsePort(PrintPort(p)) == Some(p)
      ensures Free(PrintPort(p), ',') && Free(PrintPort(p), ':') && Free(PrintPort(p), ';')
    {
      NatRoundTrip(p, MAX_U16);
      NumberFree(p);
    }
    ListFree(PrintPort, ports, ':');
    ListFree(PrintPort, ports, ';');
    ListRoundTrip(PrintPort, ParsePort, ports);
  }

  lemma ChainIdRoundTrip(c: U64)
    ensures ParseChainId(PrintChainId(c)) == Some(c)
    ensures Free(PrintChainId(c), ',') && Free(PrintChainId(c), ';')
  {
    NatRoundTrip(c, MAX_U64);
    NumberFree(c);
  }

  lemma ChainIdsRoundTrip(chains: seq<U64>)
    ensures var s := PrintList(PrintChainId, chains);
            Free(s, ';') && ParseList(ParseChainId, s) == chains
  {
    forall c: U64
      ensures ParseChainId(PrintChainId(c)) == Some(c)
      ensures Free(PrintChainId(c), ',') && Free(PrintChainId(c), ';')
    {
      ChainIdRoundTrip(c);
    }
    ListFree(PrintChainId, chains, ';');
    ListRoundTrip(PrintChainId, ParseChainId, chains);
  }
}
