/** The default log pattern of pans/src/Logger/Logger.cc compiles, so constructing a logger does not throw. */
module DefaultPattern {
  import opened Pattern

  /** In parts, each with a lemma of its own below. */
  const DEFAULT_LOG_PATTERN :=
    "%d{" + "%Y-%m-%d %H:%M:%S" + "}" + (".%u%T" + ("thread=%t%T" + ("fiber=%F%T" + ("[%p]%T" + "%f:%l%T%m%n"))))

  ghost predicate Compiles(p: string) {
    Tokens(p).Accepted? && !SomeUnknown(Tokens(p).value)
  }

  lemma KnownCons(token: Token, tokens: seq<Token>)
    requires (token.Dir? ==> Known(token.c)) && !SomeUnknown(tokens)
    ensures !SomeUnknown([token] + tokens)
  {}

  lemma Extend(token: Token, p: string, q: string)
    requires Compiles(p) && GoodToken(token) && Separated(token, p) && (token.Dir? ==> Known(token.c))
    requires q == PrintToken(token) + p
    ensures Compiles(q)
  {
    TokensStep(token, p);
    KnownCons(token, Tokens(p).value);
  }

  lemma {:induction false} AtText(p: string, from: nat, to: nat)
    requires from <= to <= |p| && Compiles(p[to..])
    requires forall i :: from <= i < to ==> p[i] != '%'
    ensures Compiles(p[from..])
    decreases |p| - from
  {
    if from < to {
      AtText(p, from + 1, to);
      Extend(Plain(p[from]), p[from + 1..], p[from..]);
    }
  }

  lemma AtDirective(p: string, from: nat)
    requires from + 2 <= |p| && p[from] == '%' && Known(p[from + 1]) && Compiles(p[from + 2..])
    requires from + 2 < |p| ==> p[from + 2] != '{'
    ensures Compiles(p[from..])
  {}

  // One lemma for each part of the default pattern, `rest` being the parts after it.

  lemma MessageCompiles(rest: string)
    requires Compiles(rest) && (rest != "" ==> rest[0] != '{')
    ensures Compiles("%f:%l%T%m%n" + rest)
  {
    hide Compiles;
    var p := "%f:%l%T%m%n" + rest;
    assert p[11..] == rest && p[0..] == p;
    AtDirective(p, 9);
    AtDirective(p, 7);
    AtDirective(p, 5);
    AtDirective(p, 3);
    AtText(p, 2, 3);
    AtDirective(p, 0);
  }

  lemma LevelCompiles(rest: string)
    requires Compiles(rest) && (rest != "" ==> rest[0] != '{')
    ensures Compiles("[%p]%T" + rest)
  {
    hide Compiles;
    var p := "[%p]%T" + rest;
    assert p[6..] == rest && p[0..] == p;
    AtDirective(p, 4);
    AtText(p, 3, 4);
    AtDirective(p, 1);
    AtText(p, 0, 1);
  }

  lemma FiberCompiles(rest: string)
    requires Compiles(rest) && (rest != "" ==> rest[0] != '{')
    ensures Compiles("fiber=%F%T" + rest)
  {
    hide Compiles;
    var p := "fiber=%F%T" + rest;
    assert p[10..] == rest && p[0..] == p;
    AtDirective(p, 8);
    AtDirective(p, 6);
    AtText(p, 0, 6);
  }

  lemma ThreadCompiles(rest: string)
    requires Compiles(rest) && (rest != "" ==> rest[0] != '{')
    ensures Compiles("thread=%t%T" + rest)
  {
    hide Compiles;
    var p := "thread=%t%T" + rest;
    assert p[11..] == rest && p[0..] == p;
    AtDirective(p, 9);
    AtDirective(p, 7);
    AtText(p, 0, 7);
  }

  lemma MicrosecondsCompiles(rest: string)
    requires Compiles(rest) && (rest != "" ==> rest[0] != '{')
    ensures Compiles(".%u%T" + rest)
  {
    hide Compiles;
    var p := ".%u%T" + rest;
    assert p[5..] == rest && p[0..] == p;
    AtDirective(p, 3);
    AtDirective(p, 1);
    AtText(p, 0, 1);
  }

  lemma DateCompiles(arg: string, rest: string)
    requires Compiles(rest) && arg != "" && '}' !in arg
    ensures Compiles("%d{" + arg + "}" + rest)
  {
    Extend(Dir('d', arg), rest, "%d{" + arg + "}" + rest);
  }

  lemma CompiledIsAccepted(p: string)
    ensures Compiles(p) <==> Parse(p).Accepted?
  {
    if Tokens(p).Accepted? { KnownTokens("", Tokens(p).value); }
  }

  lemma EmptyCompiles()
    ensures Compiles("")
  {}

  lemma DefaultPatternCompiles()
    ensures Parse(DEFAULT_LOG_PATTERN).Accepted?
  {
    hide Compiles, Parse;
    var p := "%f:%l%T%m%n";
    assert p + "" == p;
    EmptyCompiles();
    MessageCompiles("");
    LevelCompiles(p);
    FiberCompiles("[%p]%T" + p);
    ThreadCompiles("fiber=%F%T" + ("[%p]%T" + p));
    MicrosecondsCompiles("thread=%t%T" + ("fiber=%F%T" + ("[%p]%T" + p)));
    DateCompiles("%Y-%m-%d %H:%M:%S", ".%u%T" + ("thread=%t%T" + ("fiber=%F%T" + ("[%p]%T" + p))));
    CompiledIsAccepted(DEFAULT_LOG_PATTERN);
  }
}
