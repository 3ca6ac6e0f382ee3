/** The log pattern language of pans/src/Logger/formatter.cc: what `Formatter::parse` compiles a pattern to,
  * and a printer that inverts it.
  */
module Pattern {
  import opened Sequences

  /** A compiled item. A directive keeps its `{...}` argument even where its factory ignores it. */
  datatype Item = Literal(text: string) | Directive(c: char, arg: string)

  /** One step of the scanner: a character of a literal, or a directive. */
  datatype Token = Plain(c: char) | Dir(c: char, arg: string)

  datatype Scan = Stop(code: int) | Read(token: Token, length: nat)

  datatype Parsed<T> = Rejected(code: int) | Accepted(value: seq<T>)

  const INCOMPLETE_DIRECTIVE := -1
  const BAD_ARGUMENT := -2
  const UNKNOWN_DIRECTIVE := -3

  /** The keys of `GetFormatItemFactories`. */
  predicate Known(c: char) {
    c in {'m', 'p', 'r', 'c', 't', 'n', 'd', 'u', 'f', 'l', 'T', 'F', 'N'}
  }

  /** The first index of `c` in `s`, or |s|. */
  function Find(s: string, c: char): (k: nat)
    ensures k <= |s| && c !in s[..k]
    ensures k < |s| ==> s[k] == c
  {
    if s == [] then 0 else if s[0] == c then 0 else 1 + Find(s[1..], c)
  }

  function ScanToken(p: string): (r: Scan)
    requires p != []
    ensures r.Read? ==> 0 < r.length <= |p|
  {
    if p[0] != '%' then Read(Plain(p[0]), 1)
    else if |p| == 1 then Stop(INCOMPLETE_DIRECTIVE)
    else if p[1] == '%' then Read(Plain('%'), 2)
    else if |p| > 2 && p[2] == '{' then
      var n := Find(p[3..], '}');
      if n == |p[3..]| || n == 0 then Stop(BAD_ARGUMENT) else Read(Dir(p[1], p[3..3 + n]), n + 4)
    else Read(Dir(p[1], ""), 2)
  }

  function Tokens(p: string): Parsed<Token> {
    if p == [] then Accepted([])
    else
      match ScanToken(p)
      case Stop(code) => Rejected(code)
      case Read(token, length) => Prepend([token], Tokens(p[length..]))
  }

  function Prepend(tokens: seq<Token>, r: Parsed<Token>): Parsed<Token> {
    match r
    case Rejected(code) => Rejected(code)
    case Accepted(rest) => Accepted(tokens + rest)
  }

  /** `addLiteral`: an empty literal adds no item. */
  function Flush(literal: string): seq<Item> {
    if literal == "" then [] else [Literal(literal)]
  }

  /** The items of `tokens` when `literal` has been collected before them. */
  function Build(literal: string, tokens: seq<Token>): seq<Item>
    decreases |tokens|
  {
    if tokens == [] then Flush(literal)
    else
      match tokens[0]
      case Plain(c) => Build(literal + [c], tokens[1..])
      case Dir(c, arg) => Flush(literal) + [Directive(c, arg)] + Build("", tokens[1..])
  }

  predicate AllKnown(items: seq<Item>) {
    forall k :: 0 <= k < |items| ==> items[k].Directive? ==> Known(items[k].c)
  }

  /** The result of `Formatter::parse`: an error code, or the compiled items. */
  function Parse(p: string): Parsed<Item> {
    match Tokens(p)
    case Rejected(code) => Rejected(code)
    case Accepted(tokens) =>
      var items := Build("", tokens);
      if AllKnown(items) then Accepted(items) else Rejected(UNKNOWN_DIRECTIVE)
  }

  // ----- Printing -----

  function PrintToken(token: Token): string {
    match token
    case Plain(c) => if c == '%' then "%%" else [c]
    case Dir(c, arg) => if arg == "" then ['%', c] else ['%', c, '{'] + arg + "}"
  }

  function PrintTokens(tokens: seq<Token>): string {
    if tokens == [] then "" else PrintToken(tokens[0]) + PrintTokens(tokens[1..])
  }

  /** The tokens an item stands for: a literal is its characters. */
  function ItemTokens(item: Item): seq<Token> {
    match item
    case Literal(text) => seq(|text|, k requires 0 <= k < |text| => Plain(text[k]))
    case Directive(c, arg) => [Dir(c, arg)]
  }

  function AllTokens(items: seq<Item>): seq<Token> {
    if items == [] then [] else ItemTokens(items[0]) + AllTokens(items[1..])
  }

  /** A pattern that compiles to `items`: `%` in a literal is doubled. */
  function Print(items: seq<Item>): string { PrintTokens(AllTokens(items)) }

  /** The item lists that patterns can express, each in exactly one way. */
  ghost predicate Canonical(items: seq<Item>) {
    forall k :: 0 <= k < |items| ==> CanonicalAt(items, k)
  }

  ghost predicate CanonicalAt(items: seq<Item>, k: nat)
    requires k < |items|
  {
    match items[k]
    case Literal(text) =>
      && text != ""
      && (0 < k ==> items[k - 1].Directive? && (items[k - 1].arg == "" ==> text[0] != '{'))
    case Directive(c, arg) => Known(c) && '}' !in arg
  }

  // ----- Scanning inverts printing -----

  ghost predicate GoodToken(token: Token) {
    token.Dir? ==> token.c != '%' && '}' !in token.arg
  }

  /** `rest` does not read as the argument of the token before it. */
  ghost predicate Separated(token: Token, rest: string) {
    token.Dir? && token.arg == "" && rest != "" ==> rest[0] != '{'
  }

  lemma {:induction false} FindBefore(a: string, c: char, b: string)
    requires c !in a
    ensures Find(a + [c] + b, c) == |a|
  {
    if a != [] {
      assert (a + [c] + b)[1..] == a[1..] + [c] + b && a[0] in a;
      FindBefore(a[1..], c, b);
    }
  }

  lemma ScanArgument(c: char, arg: string, rest: string)
    requires c != '%' && arg != "" && '}' !in arg
    ensures var s := PrintToken(Dir(c, arg)); ScanToken(s + rest) == Read(Dir(c, arg), |s|)
  {
    var p := PrintToken(Dir(c, arg)) + rest;
    FindBefore(arg, '}', rest);
    assert p[3..] == arg + ['}'] + rest;
    assert p[3..3 + |arg|] == arg;
  }

  lemma ScanInvertsPrint(token: Token, rest: string)
    requires GoodToken(token) && Separated(token, rest)
    ensures ScanToken(PrintToken(token) + rest) == Read(token, |PrintToken(token)|)
  {
    if token.Dir? && token.arg != "" {
      ScanArgument(token.c, token.arg, rest);
    } else if token.Dir? {
      var p := ['%', token.c] + rest;
      assert |p| > 2 ==> p[2] == rest[0];
    }
  }

  lemma PrintInvertsScan(p: string)
    requires p != [] && ScanToken(p).Read?
    ensures var r := ScanToken(p);
            GoodToken(r.token) && Separated(r.token, p[r.length..]) && PrintToken(r.token) == p[..r.length]
  {}

  ghost predicate GoodTokens(tokens: seq<Token>) {
    && (forall k :: 0 <= k < |tokens| ==> GoodToken(tokens[k]))
    && (forall k :: 0 < k < |tokens| ==> Apart(tokens[k - 1], tokens[k]))
  }

  ghost predicate Apart(before: Token, after: Token) {
    before.Dir? && before.arg == "" ==> after != Plain('{')
  }

  lemma PrependTwice(a: seq<Token>, b: seq<Token>, r: Parsed<Token>)
    ensures Prepend(a, Prepend(b, r)) == Prepend(a + b, r)
  {}

  lemma TokensStep(token: Token, others: string)
    requires GoodToken(token) && Separated(token, others)
    ensures Tokens(PrintToken(token) + others) == Prepend([token], Tokens(others))
  {
    var p := PrintToken(token) + others;
    ScanInvertsPrint(token, others);
    assert p[|PrintToken(token)|..] == others;
  }

  lemma PrintedFirst(tokens: seq<Token>, rest: string)
    requires tokens != []
    ensures PrintTokens(tokens) + rest == PrintToken(tokens[0]) + (PrintTokens(tokens[1..]) + rest)
    ensures (PrintTokens(tokens) + rest)[0] == PrintToken(tokens[0])[0]
  {
    var head, tail := PrintToken(tokens[0]), PrintTokens(tokens[1..]);
    assert PrintTokens(tokens) == head + tail && head != "";
    Associates(head, tail, rest);
  }

  lemma GoodTail(tokens: seq<Token>, n: nat)
    requires GoodTokens(tokens) && n <= |tokens|
    ensures GoodTokens(tokens[n..])
  {}

  lemma SeparatedByNext(tokens: seq<Token>, rest: string)
    requires GoodTokens(tokens) && tokens != []
    requires Separated(tokens[|tokens| - 1], rest)
    ensures Separated(tokens[0], PrintTokens(tokens[1..]) + rest)
  {}

  /** Scanning a printed token list gives the list back, whatever follows it. */
  lemma {:induction false} TokensOfPrinted(tokens: seq<Token>, rest: string)
    requires GoodTokens(tokens)
    requires tokens != [] ==> Separated(tokens[|tokens| - 1], rest)
    ensures Tokens(PrintTokens(tokens) + rest) == Prepend(tokens, Tokens(rest))
  {
    if tokens == [] {
      assert PrintTokens(tokens) + rest == rest;
      if Tokens(rest).Accepted? { assert tokens + Tokens(rest).value == Tokens(rest).value; }
    } else {
      var tail := tokens[1..];
      GoodTail(tokens, 1);
      SeparatedByNext(tokens, rest);
      TokensOfPrinted(tail, rest);
      TokensStep(tokens[0], PrintTokens(tail) + rest);
      PrintedFirst(tokens, rest);
      PrependTwice([tokens[0]], tail, Tokens(rest));
      assert [tokens[0]] + tail == tokens;
    }
  }

  lemma PrintedCons(token: Token, rest: seq<Token>, first: string, more: string)
    requires GoodToken(token) && PrintToken(token) == first && Separated(token, more)
    requires GoodTokens(rest) && PrintTokens(rest) == more
    ensures PrintTokens([token] + rest) == first + more && GoodTokens([token] + rest)
  {}

  lemma ScanSplits(p: string) returns (token: Token, more: string)
    requires p != [] && ScanToken(p).Read?
    ensures GoodToken(token) && Separated(token, more) && p == PrintToken(token) + more && |more| < |p|
    ensures Tokens(p) == Prepend([token], Tokens(more))
  {
    PrintInvertsScan(p);
    var r := ScanToken(p);
    token, more := r.token, p[r.length..];
    assert p == p[..r.length] + more;
  }

  /** Printing what was scanned gives the pattern back. */
  lemma {:induction false} PrintedTokens(p: string)
    requires Tokens(p).Accepted?
    ensures PrintTokens(Tokens(p).value) == p && GoodTokens(Tokens(p).value)
    decreases |p|
  {
    if p != [] {
      var token, more := ScanSplits(p);
      PrintedTokens(more);
      PrintedCons(token, Tokens(more).value, PrintToken(token), more);
    }
  }

  lemma GoodConcat(a: seq<Token>, b: seq<Token>)
    requires GoodTokens(a) && GoodTokens(b)
    requires a != [] && b != [] ==> Apart(a[|a| - 1], b[0])
    ensures GoodTokens(a + b)
  {}

  // ----- Building items inverts expanding them -----

  function Plains(text: string): seq<Token> { ItemTokens(Literal(text)) }

  lemma PlainsAppend(text: string, c: char)
    ensures Plains(text + [c]) == Plains(text) + [Plain(c)]
  {}

  lemma AllTokensCons(item: Item, items: seq<Item>)
    ensures AllTokens([item] + items) == ItemTokens(item) + AllTokens(items)
  {}

  lemma AllTokensOfFlush(literal: string, items: seq<Item>)
    ensures AllTokens(Flush(literal) + items) == Plains(literal) + AllTokens(items)
  {
    if literal == "" {
      assert Flush(literal) + items == items && Plains(literal) + AllTokens(items) == AllTokens(items);
    } else {
      AllTokensCons(Literal(literal), items);
    }
  }

  lemma NoTokens(tokens: seq<Token>)
    ensures AllTokens([]) == [] && Plains("") + tokens == tokens
  {}

  lemma {:induction false} TokensOfBuild(literal: string, tokens: seq<Token>)
    ensures AllTokens(Build(literal, tokens)) == Plains(literal) + tokens
    decreases |tokens|
  {
    hide AllTokens, Plains, Flush;
    NoTokens(tokens);
    if tokens == [] {
      AllTokensOfFlush(literal, []);
      assert Flush(literal) + [] == Flush(literal);
    } else {
      var first, tail := tokens[0], tokens[1..];
      assert tokens == [first] + tail;
      match first
      case Plain(c) =>
        TokensOfBuild(literal + [c], tail);
        PlainsAppend(literal, c);
        Associates(Plains(literal), [first], tail);
      case Dir(c, arg) =>
        TokensOfBuild("", tail);
        NoTokens(tail);
        var item, rest := Directive(c, arg), Build("", tail);
        AllTokensCons(item, rest);
        AllTokensOfFlush(literal, [item] + rest);
        Associates(Flush(literal), [item], rest);
    }
  }

  lemma {:induction false} BuildOfPlains(literal: string, text: string, tokens: seq<Token>)
    ensures Build(literal, Plains(text) + tokens) == Build(literal + text, tokens)
    decreases |text|
  {
    if text == "" {
      assert literal + text == literal && Plains(text) + tokens == tokens;
    } else {
      var all := Plains(text) + tokens;
      assert all[0] == Plain(text[0]) && all[1..] == Plains(text[1..]) + tokens;
      BuildOfPlains(literal + [text[0]], text[1..], tokens);
      assert literal + [text[0]] + text[1..] == literal + text;
    }
  }

  lemma BuildFromDirective(literal: string, tokens: seq<Token>)
    requires tokens != [] ==> tokens[0].Dir?
    ensures Build(literal, tokens) == Flush(literal) + Build("", tokens)
  {
    if tokens == [] {
      assert Flush(literal) + [] == Flush(literal);
    } else {
      var item, others := [Directive(tokens[0].c, tokens[0].arg)], Build("", tokens[1..]);
      assert [] + item + others == item + others;
      Associates(Flush(literal), item, others);
    }
  }

  /** A literal in front of a directive, or of nothing, stays an item of its own. */
  lemma BuildAfterLiteral(text: string, rest: seq<Item>)
    requires text != "" && (rest != [] ==> rest[0].Directive?)
    requires Build("", AllTokens(rest)) == rest
    ensures Build("", Plains(text) + AllTokens(rest)) == [Literal(text)] + rest
  {
    hide Build, Plains;
    BuildOfPlains("", text, AllTokens(rest));
    assert "" + text == text;
    BuildFromDirective(text, AllTokens(rest));
  }

  lemma CanonicalTail(items: seq<Item>)
    requires Canonical(items) && items != []
    ensures Canonical(items[1..]) && CanonicalAt(items, 0)
    ensures items[0].Literal? && |items| > 1 ==> items[1].Directive?
  {
    var rest := items[1..];
    forall k | 0 <= k < |rest| ensures CanonicalAt(rest, k) { assert CanonicalAt(items, k + 1); }
    if |items| > 1 { assert CanonicalAt(items, 1); }
  }

  lemma {:induction false} BuildOfItems(items: seq<Item>)
    requires Canonical(items)
    ensures Build("", AllTokens(items)) == items
  {
    if items != [] {
      var rest := items[1..];
      CanonicalTail(items);
      BuildOfItems(rest);
      assert items == [items[0]] + rest;
      match items[0]
      case Literal(text) =>
        BuildAfterLiteral(text, rest);
      case Directive(c, arg) =>
        assert AllTokens(items)[1..] == AllTokens(rest);
    }
  }

  lemma {:induction false} CanonicalTokens(items: seq<Item>)
    requires Canonical(items)
    ensures GoodTokens(AllTokens(items))
  {
    if items != [] {
      var rest := items[1..];
      forall k | 0 <= k < |rest| ensures CanonicalAt(rest, k) { assert CanonicalAt(items, k + 1); }
      CanonicalTokens(rest);
      assert CanonicalAt(items, 0);
      var first, others := ItemTokens(items[0]), AllTokens(rest);
      if rest != [] {
        assert CanonicalAt(items, 1);
        assert others[0] == if rest[0].Literal? then Plain(rest[0].text[0]) else Dir(rest[0].c, rest[0].arg);
      }
      GoodConcat(first, others);
    }
  }

  lemma {:induction false} BuildIsCanonical(literal: string, tokens: seq<Token>)
    requires GoodTokens(Plains(literal) + tokens) && AllKnown(Build(literal, tokens))
    ensures Canonical(Build(literal, tokens))
    decreases |tokens|
  {
    var items := Build(literal, tokens);
    if tokens != [] {
      match tokens[0]
      case Plain(c) =>
        PlainsAppend(literal, c);
        assert Plains(literal) + tokens == Plains(literal + [c]) + tokens[1..];
        BuildIsCanonical(literal + [c], tokens[1..]);
      case Dir(c, arg) =>
        var rest, whole := Build("", tokens[1..]), Plains(literal) + tokens;
        var n := |Flush(literal)|;
        assert items[n] == Directive(c, arg) && items[n + 1..] == rest && whole[|literal|] == tokens[0];
        GoodTail(whole, |literal| + 1);
        assert whole[|literal| + 1..] == Plains("") + tokens[1..];
        BuildIsCanonical("", tokens[1..]);
        TokensOfBuild("", tokens[1..]);
        forall k | 0 <= k < |items| ensures CanonicalAt(items, k) {
          if k > n {
            assert items[k] == rest[k - n - 1] && CanonicalAt(rest, k - n - 1);
            if k == n + 1 && rest[0].Literal? {
              assert AllTokens(rest)[0] == Plain(rest[0].text[0]);
              assert whole[|literal| + 1] == tokens[1] == AllTokens(rest)[0];
              assert Apart(whole[|literal|], whole[|literal| + 1]);
            }
          }
        }
    }
  }

  // ----- Parser and printer are inverse -----

  /** Every accepted pattern is printed back exactly, and only canonical lists are produced. */
  lemma PrintInvertsParse(p: string)
    requires Parse(p).Accepted?
    ensures Print(Parse(p).value) == p && Canonical(Parse(p).value)
  {
    var tokens := Tokens(p).value;
    PrintedTokens(p);
    TokensOfBuild("", tokens);
    assert Plains("") + tokens == tokens;
    BuildIsCanonical("", tokens);
  }

  /** Every canonical list is parsed back exactly from its printed pattern. */
  lemma ParseInvertsPrint(items: seq<Item>)
    requires Canonical(items)
    ensures Parse(Print(items)) == Accepted(items)
  {
    var tokens := AllTokens(items);
    CanonicalTokens(items);
    TokensOfPrinted(tokens, "");
    assert PrintTokens(tokens) + "" == Print(items) && tokens + [] == tokens;
    BuildOfItems(items);
    forall k | 0 <= k < |items| && items[k].Directive? ensures Known(items[k].c) { assert CanonicalAt(items, k); }
  }

  /** The accepted patterns are exactly the printed canonical lists, each of one list only. */
  lemma AcceptedExactly(p: string)
    ensures Parse(p).Accepted? <==> exists items :: Canonical(items) && Print(items) == p
    ensures forall items :: Canonical(items) && Print(items) == p ==> Parse(p) == Accepted(items)
  {
    if Parse(p).Accepted? { PrintInvertsParse(p); }
    forall items | Canonical(items) && Print(items) == p ensures Parse(p) == Accepted(items) {
      ParseInvertsPrint(items);
    }
  }

  // ----- What the error codes mean -----

  /** The scanner's errors: complete tokens, then something it cannot read. */
  lemma {:induction false} ScannerStops(p: string) returns (read: seq<Token>, rest: string)
    requires Tokens(p).Rejected?
    ensures GoodTokens(read) && rest != [] && p == PrintTokens(read) + rest
    ensures ScanToken(rest) == Stop(Tokens(p).code)
    decreases |p|
  {
    if ScanToken(p).Stop? {
      read, rest := [], p;
      assert PrintTokens([]) + p == p;
    } else {
      var token, more := ScanSplits(p);
      var tail;
      tail, rest := ScannerStops(more);
      read := [token] + tail;
      StoppedCons(token, tail, rest, more);
    }
  }

  lemma StoppedCons(token: Token, tail: seq<Token>, rest: string, more: string)
    requires GoodToken(token) && Separated(token, more)
    requires GoodTokens(tail) && more == PrintTokens(tail) + rest
    ensures GoodTokens([token] + tail) && PrintToken(token) + more == PrintTokens([token] + tail) + rest
  {}

  /** An argument that does not close, or closes at once. */
  ghost predicate BadArgument(rest: string) {
    |rest| >= 3 && rest[0] == '%' && rest[1] != '%' && rest[2] == '{'
    && ('}' !in rest[3..] || rest[3..][0] == '}')
  }

  lemma StopMeans(rest: string)
    requires rest != []
    ensures ScanToken(rest) == Stop(INCOMPLETE_DIRECTIVE) <==> rest == "%"
    ensures ScanToken(rest) == Stop(BAD_ARGUMENT) <==> BadArgument(rest)
    ensures ScanToken(rest).Stop? ==> rest == "%" || BadArgument(rest)
    ensures ScanToken(rest).Stop? ==> rest[0] == '%'
  {}

  ghost predicate SomeUnknown(tokens: seq<Token>) {
    exists k :: 0 <= k < |tokens| && tokens[k].Dir? && !Known(tokens[k].c)
  }

  /** The pattern is complete tokens followed by `rest`. */
  ghost predicate ReadsUpTo(p: string, read: seq<Token>, rest: string) {
    GoodTokens(read) && p == PrintTokens(read) + rest
  }

  /** -1: the pattern is complete tokens and a last `%`. -2: complete tokens, then a directive whose brace does
    * not close or closes at once. -3: only complete tokens, one of them an unknown directive.
    */
  lemma ErrorCodesMean(p: string)
    ensures Parse(p) == Rejected(-1) <==> exists read :: ReadsUpTo(p, read, "%")
    ensures Parse(p) == Rejected(-2) <==> exists read, rest :: ReadsUpTo(p, read, rest) && BadArgument(rest)
    ensures Parse(p) == Rejected(-3) <==> exists read :: ReadsUpTo(p, read, "") && SomeUnknown(read)
    ensures Parse(p).Rejected? ==> Parse(p).code in {-1, -2, -3}
  {
    if Tokens(p).Rejected? {
      var read, rest := ScannerStops(p);
      StopMeans(rest);
      assert ReadsUpTo(p, read, rest);
    } else {
      PrintedTokens(p);
      KnownTokens("", Tokens(p).value);
      assert PrintTokens(Tokens(p).value) + "" == p;
      assert ReadsUpTo(p, Tokens(p).value, "");
    }
    forall read, rest | ReadsUpTo(p, read, rest) && (rest == "%" || BadArgument(rest) || rest == "")
      ensures rest == "%" ==> Tokens(p) == Rejected(INCOMPLETE_DIRECTIVE)
      ensures BadArgument(rest) ==> Tokens(p) == Rejected(BAD_ARGUMENT)
      ensures rest == "" ==> Tokens(p) == Accepted(read)
    {
      if rest != "" { StopMeans(rest); }
      TokensOfPrinted(read, rest);
      assert read + [] == read;
    }
  }

  lemma {:induction false} KnownTokens(literal: string, tokens: seq<Token>)
    ensures AllKnown(Build(literal, tokens)) <==> !SomeUnknown(tokens)
    decreases |tokens|
  {
    if tokens != [] {
      var items, tail := Build(literal, tokens), tokens[1..];
      match tokens[0]
      case Plain(c) =>
        KnownTokens(literal + [c], tail);
        assert forall k :: 0 < k < |tokens| ==> tokens[k] == tail[k - 1];
      case Dir(c, arg) =>
        KnownTokens("", tail);
        assert forall k :: 0 < k < |tokens| ==> tokens[k] == tail[k - 1];
        var n, rest := |Flush(literal)|, Build("", tail);
        assert items[n] == Directive(c, arg) && items[n + 1..] == rest;
        assert forall k :: n < k < |items| ==> items[k] == rest[k - n - 1];
        if !AllKnown(rest) {
          var k :| 0 <= k < |rest| && rest[k].Directive? && !Known(rest[k].c);
          assert items[k + n + 1] == rest[k];
        }
    }
  }
}
