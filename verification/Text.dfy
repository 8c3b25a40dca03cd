/** Splitting and joining on a separator, and decimal numbers, with their inverse laws. */
module Text {
  import opened Wrappers

  /** The text does not contain the character. */
  predicate Free(s: string, c: char) {
    c !in s
  }

  predicate AllFree(parts: seq<string>, c: char) {
    forall i :: 0 <= i < |parts| ==> Free(parts[i], c)
  }

  // ----- join and split -----

  function Join(parts: seq<string>, c: char): string {
    if parts == [] then ""
    else if |parts| == 1 then parts[0]
    else parts[0] + [c] + Join(parts[1..], c)
  }

  /** The pieces between the separators: always at least one, none holding a separator. */
  function Split(s: string, c: char): (parts: seq<string>)
    ensures parts != [] && AllFree(parts, c) && Join(parts, c) == s
  {
    if s == "" then [""]
    else
      var rest := Split(s[1..], c);
      if s[0] == c then
        var parts := [""] + rest;
        assert parts[1..] == rest;
        parts
      else
        var parts := [[s[0]] + rest[0]] + rest[1..];
        assert parts[1..] == rest[1..];
        parts
  }

  /** Splitting undoes joining exactly on the non-empty lists of separator-free pieces. */
  lemma {:induction false} SplitJoin(parts: seq<string>, c: char)
    ensures Split(Join(parts, c), c) == parts <==> parts != [] && AllFree(parts, c)
  {
    if parts != [] && AllFree(parts, c) {
      SplitHead(parts[0], c);
      if |parts| > 1 {
        SplitJoin(parts[1..], c);
        SplitAtSeparator(parts[0], Join(parts[1..], c), c);
        assert parts == [parts[0]] + parts[1..];
      }
    }
  }

  lemma SplitCons(x: char, s: string, c: char)
    ensures Split([x] + s, c)
         == if x == c then [""] + Split(s, c) else [[x] + Split(s, c)[0]] + Split(s, c)[1..]
  {
    assert ([x] + s)[1..] == s;
  }

  lemma {:induction false} SplitHead(s: string, c: char)
    requires Free(s, c)
    ensures Split(s, c) == [s]
  {
    if s != "" {
      assert s[0] in s;
      assert forall x :: x in s[1..] ==> x in s;
      SplitHead(s[1..], c);
      assert s == [s[0]] + s[1..];
    }
  }

  lemma {:induction false} SplitAppend(s: string, t: string, c: char)
    ensures Split(s + [c] + t, c) == Split(s, c) + Split(t, c)
  {
    hide Split;
    if s == "" {
      assert s + [c] + t == [c] + t;
      SplitCons(c, t, c);
      SplitHead("", c);
    } else {
      var tail := s[1..];
      SplitAppend(tail, t, c);
      assert s == [s[0]] + tail;
      assert s + [c] + t == [s[0]] + (tail + [c] + t);
      SplitCons(s[0], tail + [c] + t, c);
      SplitCons(s[0], tail, c);
      FirstPiece(s[0], Split(tail, c), Split(t, c));
    }
  }

  lemma FirstPiece(x: char, front: seq<string>, back: seq<string>)
    requires front != []
    ensures [[x] + (front + back)[0]] + (front + back)[1..] == [[x] + front[0]] + front[1..] + back
    ensures [""] + (front + back) == [""] + front + back
  {
  }

  lemma SplitAtSeparator(s: string, t: string, c: char)
    requires Free(s, c)
    ensures Split(s + [c] + t, c) == [s] + Split(t, c)
  {
    hide Split;
    SplitAppend(s, t, c);
    SplitHead(s, c);
  }

  /** Two lists of pieces, the last of the one joined to the first of the other. */
  function Glue(a: seq<string>, b: seq<string>): seq<string>
    requires a != [] && b != []
  {
    a[..|a| - 1] + [a[|a| - 1] + b[0]] + b[1..]
  }

  /** Splitting a concatenation glues the pieces of its halves. */
  lemma {:induction false} SplitGlue(s: string, t: string, c: char)
    ensures Split(s + t, c) == Glue(Split(s, c), Split(t, c))
  {
    hide Split, Glue;
    var b := Split(t, c);
    if s == "" {
      SplitHead("", c);
      GlueNothing(b);
      assert s + t == t;
    } else {
      var tail := s[1..];
      SplitGlue(tail, t, c);
      assert s == [s[0]] + tail;
      assert s + t == [s[0]] + (tail + t);
      SplitCons(s[0], tail + t, c);
      SplitCons(s[0], tail, c);
      GlueCons(s[0], Split(tail, c), b);
    }
  }

  lemma GlueNothing(b: seq<string>)
    requires b != []
    ensures Glue([""], b) == b
  {
    assert "" + b[0] == b[0];
    assert [""][..0] == [];
  }

  lemma GlueCons(x: char, a: seq<string>, b: seq<string>)
    requires a != [] && b != []
    ensures Glue([""] + a, b) == [""] + Glue(a, b)
    ensures Glue(a, b) != []
    ensures Glue([[x] + a[0]] + a[1..], b) == [[x] + Glue(a, b)[0]] + Glue(a, b)[1..]
  {
    var longer, n := [[x] + a[0]] + a[1..], |a| - 1;
    if n == 0 {
      assert [x] + a[0] + b[0] == [x] + (a[0] + b[0]);
      assert longer == [[x] + a[0]];
      assert Glue(a, b) == [a[0] + b[0]] + b[1..];
    } else {
      assert longer[..n] == [[x] + a[0]] + a[1..n];
      assert Glue(a, b)[1..] == a[1..n] + [a[n] + b[0]] + b[1..];
    }
  }

  /** A prefix without separators stays with the first piece. */
  lemma SplitPrefixed(prefix: string, s: string, c: char)
    requires Free(prefix, c)
    ensures Split(prefix + s, c) == [prefix + Split(s, c)[0]] + Split(s, c)[1..]
  {
    hide Split;
    SplitGlue(prefix, s, c);
    SplitHead(prefix, c);
    assert [prefix][..0] == [];
  }

  /** The first piece is the text up to the first separator. */
  lemma FirstPieceOf(s: string, c: char)
    ensures Split(s, c)[0] == s[..IndexOf(s, c)]
    ensures Free(s, c) <==> |Split(s, c)| == 1
  {
    hide Split;
    var k := IndexOf(s, c);
    if k == |s| {
      assert s[..k] == s;
      SplitHead(s, c);
    } else {
      assert s == s[..k] + [c] + s[k + 1..];
      SplitAtSeparator(s[..k], s[k + 1..], c);
      assert s[k] in s;
    }
  }

  /** The pieces of all the parts. */
  function Pieces(parts: seq<string>, c: char): seq<string> {
    if parts == [] then [] else Split(parts[0], c) + Pieces(parts[1..], c)
  }

  /** What splitting makes of any joined list: the pieces of its parts, and one empty piece of an empty list. */
  lemma {:induction false} SplitJoined(parts: seq<string>, c: char)
    ensures Split(Join(parts, c), c) == if parts == [] then [""] else Pieces(parts, c)
  {
    if parts == [] {
      SplitHead("", c);
    } else {
      hide Split;
      assert Pieces(parts[1..], c) == [] || |parts| > 1;
      if |parts| > 1 {
        SplitJoined(parts[1..], c);
        SplitAppend(parts[0], Join(parts[1..], c), c);
      }
    }
  }

  /** Joining introduces only the separator. */
  lemma {:induction false} JoinFree(parts: seq<string>, c: char, d: char)
    requires c != d
    ensures Free(Join(parts, c), d) <==> AllFree(parts, d)
  {
    if |parts| == 1 {
      assert parts[0] == Join(parts, c);
    } else if |parts| > 1 {
      JoinFree(parts[1..], c, d);
      var s := Join(parts, c);
      assert s == parts[0] + [c] + Join(parts[1..], c);
      assert forall i :: 1 <= i < |parts| ==> parts[i] == parts[1..][i - 1];
    }
  }

  lemma JoinLength(parts: seq<string>, c: char)
    requires parts != []
    ensures |parts[0]| <= |Join(parts, c)| && |Join(parts[1..], c)| <= |Join(parts, c)|
  {
  }

  /** A list of two or more parts is printed with a separator. */
  lemma JoinManyHasSeparator(parts: seq<string>, c: char)
    requires |parts| > 1
    ensures !Free(Join(parts, c), c)
  {
    assert Join(parts, c)[|parts[0]|] == c;
  }

  // ----- splitting off at most n pieces -----

  function IndexOf(s: string, c: char): (k: nat)
    ensures k <= |s| && Free(s[..k], c) && (k < |s| ==> s[k] == c)
  {
    if s == "" || s[0] == c then 0
    else
      var k := 1 + IndexOf(s[1..], c);
      assert s[..k] == [s[0]] + s[1..][..k - 1];
      k
  }

  /** At most n pieces that join to the text; only the last of n may hold separators. */
  predicate SplitsInto(s: string, c: char, n: nat, parts: seq<string>) {
    && 1 <= |parts| <= n
    && Join(parts, c) == s
    && |parts[|parts| - 1]| + |parts| - 1 <= |s|
    && (forall i :: 0 <= i < |parts| - 1 ==> Free(parts[i], c))
    && (|parts| < n ==> AllFree(parts, c))
  }

  function SplitN(s: string, c: char, n: nat): (parts: seq<string>)
    requires n > 0
    ensures SplitsInto(s, c, n, parts)
  {
    var k := IndexOf(s, c);
    if n == 1 then [s]
    else if k == |s| then
      assert s[..k] == s;
      [s]
    else
      var rest := SplitN(s[k + 1..], c, n - 1);
      PutFirst(s[..k], s[k + 1..], c, n - 1, rest);
      assert s == s[..k] + [c] + s[k + 1..];
      [s[..k]] + rest
  }

  lemma PutFirst(first: string, s: string, c: char, n: nat, rest: seq<string>)
    requires Free(first, c) && SplitsInto(s, c, n, rest)
    ensures SplitsInto(first + [c] + s, c, n + 1, [first] + rest)
  {
    hide Free;
    var parts := [first] + rest;
    assert parts[1..] == rest;
    assert Join(parts, c) == first + [c] + Join(rest, c);
  }

  lemma {:induction false} IndexOfHead(s: string, t: string, c: char)
    requires Free(s, c)
    ensures IndexOf(s + [c] + t, c) == |s|
  {
    var all := s + [c] + t;
    if s != "" {
      assert s[0] in s;
      assert forall x :: x in s[1..] ==> x in s;
      IndexOfHead(s[1..], t, c);
      assert all[1..] == s[1..] + [c] + t;
    }
  }

  lemma SplitNHead(a: string, t: string, c: char, n: nat)
    requires Free(a, c) && n > 1
    ensures SplitN(a + [c] + t, c, n) == [a] + SplitN(t, c, n - 1)
  {
    hide IndexOf;
    var all := a + [c] + t;
    IndexOfHead(a, t, c);
    assert all[..|a|] == a;
    assert all[|a| + 1..] == t;
  }

  /** Three fields, the first two separator-free, are read back whatever the third holds. */
  lemma SplitThree(a: string, b: string, t: string, c: char)
    requires Free(a, c) && Free(b, c)
    ensures SplitN(a + [c] + b + [c] + t, c, 3) == [a, b, t]
  {
    hide SplitN;
    assert a + [c] + b + [c] + t == a + [c] + (b + [c] + t);
    SplitNHead(a, b + [c] + t, c, 3);
    SplitNHead(b, t, c, 2);
    SplitNOne(t, c);
  }

  lemma SplitNOne(t: string, c: char)
    ensures SplitN(t, c, 1) == [t]
  {
  }

  // ----- lists of printed items -----

  function MapSeq<T, U>(f: T -> U, xs: seq<T>): (ys: seq<U>)
    ensures |ys| == |xs|
  {
    if xs == [] then [] else [f(xs[0])] + MapSeq(f, xs[1..])
  }

  lemma {:induction false} MapSeqAt<T, U>(f: T -> U, xs: seq<T>)
    ensures forall i :: 0 <= i < |xs| ==> MapSeq(f, xs)[i] == f(xs[i])
  {
    if xs != [] {
      MapSeqAt(f, xs[1..]);
    }
  }

  /** Items that do not parse are dropped. */
  function FilterMap<T>(parse: string -> Option<T>, parts: seq<string>): seq<T> {
    if parts == [] then []
    else
      var rest := FilterMap(parse, parts[1..]);
      match parse(parts[0])
      case Some(x) => [x] + rest
      case None => rest
  }

  /** A comma-separated list of printed items, and its reader. */
  function PrintList<T>(show: T -> string, xs: seq<T>): string {
    Join(MapSeq(show, xs), ',')
  }

  function ParseList<T>(parse: string -> Option<T>, s: string): seq<T> {
    FilterMap(parse, Split(s, ','))
  }

  lemma {:induction false} FilterMapInverts<T>(show: T -> string, parse: string -> Option<T>, xs: seq<T>)
    requires forall x :: x in xs ==> parse(show(x)) == Some(x)
    ensures FilterMap(parse, MapSeq(show, xs)) == xs
  {
    if xs != [] {
      var all := MapSeq(show, xs);
      assert all[1..] == MapSeq(show, xs[1..]);
      assert xs[0] in xs && parse(all[0]) == Some(xs[0]);
      FilterMapInverts(show, parse, xs[1..]);
    }
  }

  /** The empty list is printed as the empty text, whose only piece is dropped again. */
  lemma ListRoundTrip<T>(show: T -> string, parse: string -> Option<T>, xs: seq<T>)
    requires parse("") == None
    requires forall x :: x in xs ==> parse(show(x)) == Some(x) && Free(show(x), ',')
    ensures ParseList(parse, PrintList(show, xs)) == xs
  {
    var parts := MapSeq(show, xs);
    if xs == [] {
      assert Split("", ',') == [""];
      assert FilterMap(parse, [""]) == FilterMap(parse, []);
    } else {
      MapSeqAt(show, xs);
      assert forall i :: 0 <= i < |xs| ==> xs[i] in xs;
      SplitJoin(parts, ',');
      FilterMapInverts(show, parse, xs);
    }
  }

  lemma FilterMapNothing<T>(parse: string -> Option<T>)
    ensures FilterMap(parse, []) == []
  {
  }

  lemma FilterMapCons<T>(parse: string -> Option<T>, s: string, rest: seq<string>)
    ensures FilterMap(parse, [s] + rest)
         == (match parse(s) case Some(x) => [x] case None => []) + FilterMap(parse, rest)
  {
    assert ([s] + rest)[1..] == rest;
  }

  lemma {:induction false} FilterMapAppend<T>(parse: string -> Option<T>, a: seq<string>, b: seq<string>)
    ensures FilterMap(parse, a + b) == FilterMap(parse, a) + FilterMap(parse, b)
  {
    hide FilterMap;
    FilterMapNothing(parse);
    if a == [] {
      assert a + b == b;
    } else {
      var tail := a[1..];
      FilterMapAppend(parse, tail, b);
      FilterMapCons(parse, a[0], tail);
      FilterMapCons(parse, a[0], tail + b);
      assert a == [a[0]] + tail;
      assert a + b == [a[0]] + (tail + b);
    }
  }

  /** Everything a list reader keeps was read from some piece. */
  lemma {:induction false} FilterMapSource<T>(parse: string -> Option<T>, parts: seq<string>, x: T)
    requires x in FilterMap(parse, parts)
    ensures exists p :: p in parts && parse(p) == Some(x)
  {
    if parse(parts[0]) == Some(x) {
      assert parts[0] in parts;
    } else {
      FilterMapSource(parse, parts[1..], x);
    }
  }

  // ----- decimal numbers -----

  predicate IsDigit(c: char) {
    '0' <= c <= '9'
  }

  function Digit(c: char): nat
    requires IsDigit(c)
  {
    c as int - '0' as int
  }

  predicate AllDigits(s: string) {
    forall i :: 0 <= i < |s| ==> IsDigit(s[i])
  }

  function DigitsValue(s: string): nat
    requires AllDigits(s)
  {
    if s == "" then 0 else 10 * DigitsValue(s[..|s| - 1]) + Digit(s[|s| - 1])
  }

  function PrintNat(n: nat): (s: string)
    ensures s != "" && AllDigits(s) && DigitsValue(s) == n
  {
    var last := [('0' as int + n % 10) as char];
    if n < 10 then last
    else
      var front := PrintNat(n / 10);
      assert (front + last)[..|front|] == front;
      front + last
  }

  /**
   The standard library's reader of unsigned numbers: one leading plus sign is allowed, any
   number of leading zeros is, and the value must not exceed the maximum of the type.
   */
  function ParseUnsigned(s: string, max: nat): (n: Option<nat>)
    ensures n.Some? ==> n.value <= max
  {
    var digits := if s != "" && s[0] == '+' then s[1..] else s;
    if digits != "" && AllDigits(digits) && DigitsValue(digits) <= max then Some(DigitsValue(digits)) else None
  }

  lemma NatRoundTrip(n: nat, max: nat)
    requires n <= max
    ensures ParseUnsigned(PrintNat(n), max) == Some(n)
  {
    assert IsDigit(PrintNat(n)[0]);
  }

  lemma DigitsFree(s: string, c: char)
    requires AllDigits(s) && !IsDigit(c)
    ensures Free(s, c)
  {
  }
}
