/**
 * The documented behaviour of `getProps` on concrete directive bodies. Each
 * step of the lexer is read off a spelling through `LexSpelled`, and the
 * steps are chained into the token list.
 */
module PropsExamples {
  import opened Wrappers
  import opened Hast
  import opened GetProps
  import opened RoundTrip

  /** One more token in front of a lexed rest. */
  lemma Chain(s: string, t: Token, rest: string, ts: seq<Token>)
    requires s != [] && Lex(s) == (t, rest) && !SetsClassName(t)
    requires ClassNameFree(rest) && Tokens(rest) == ts
    ensures ClassNameFree(s) && Tokens(s) == [t] + ts
  {
  }

  /** A class token at the very front of the input, followed by no name character, is read whole. */
  lemma LeadingClass(s: string, n: string, rest: string)
    requires s == ['.'] + n + rest && WellFormed(ClassName(n)) && Fits(ClassName(n), rest)
    ensures Lex(s) == (ClassName(n), rest)
  {
    assert s == [] + Spelling(ClassName(n)) + rest;
    LexSpelled([], ClassName(n), rest);
  }

  lemma HiStep()
    ensures Lex(" .hi #world") == (ClassName("hi"), " #world")
  {
    assert " " + Spelling(ClassName("hi")) + " #world" == " .hi #world";
    LexSpelled(" ", ClassName("hi"), " #world");
  }

  lemma WorldStep()
    ensures Lex(" #world") == (Id("world"), "")
  {
    assert " " + Spelling(Id("world")) + "" == " #world";
    LexSpelled(" ", Id("world"), "");
  }

  /** The property map of a parse whose tokens are known. */
  lemma PropsOf(s: string, ts: seq<Token>)
    requires ClassNameFree(s) && Tokens(s) == ts
    ensures GetProps.GetProps(s) == Props(if ClassNames(ts) == [] then None else Some(ClassNames(ts)), Assignments(ts))
  {
  }

  lemma ClassesAndIdAssigned()
    ensures var ts := [ClassName("hello"), ClassName("hi"), Id("world")];
      ClassNames(ts) == ["hello", "hi"] && Assignments(ts) == map["id" := Str("world")]
  {
    assert ClassNames([Id("world")]) == [];
    assert Assignments([ClassName("hi"), Id("world")]) == map["id" := Str("world")];
  }

  /** `'.hello .hi #world'` gives `{ className: ['hello', 'hi'], id: 'world' }`. */
  lemma ClassesAndId()
    ensures ClassNameFree(".hello .hi #world")
    ensures GetProps.GetProps(".hello .hi #world") == Props(Some(["hello", "hi"]), map["id" := Str("world")])
  {
    ClassesAndIdTokens();
    ClassesAndIdAssigned();
    PropsOf(".hello .hi #world", [ClassName("hello"), ClassName("hi"), Id("world")]);
  }

  lemma WorldTokens()
    ensures ClassNameFree(" #world") && Tokens(" #world") == [Id("world")]
  {
    WorldStep();
    Chain(" #world", Id("world"), "", []);
  }

  lemma HiTokens()
    ensures ClassNameFree(" .hi #world") && Tokens(" .hi #world") == [ClassName("hi"), Id("world")]
  {
    HiStep();
    WorldTokens();
    Chain(" .hi #world", ClassName("hi"), " #world", [Id("world")]);
  }

  lemma ClassesAndIdTokens()
    ensures ClassNameFree(".hello .hi #world")
    ensures Tokens(".hello .hi #world") == [ClassName("hello"), ClassName("hi"), Id("world")]
  {
    LeadingClass(".hello .hi #world", "hello", " .hi #world");
    HiTokens();
    Chain(".hello .hi #world", ClassName("hello"), " .hi #world", [ClassName("hi"), Id("world")]);
  }

  lemma LastClassSteps()
    ensures Lex(".b") == (ClassName("b"), "")
    ensures Lex(" .b") == (ClassName("b"), "")
  {
    LeadingClass(".b", "b", []);
    assert " " + Spelling(ClassName("b")) + [] == " .b";
    LexSpelled(" ", ClassName("b"), []);
  }

  lemma TwoClasses()
    ensures ClassNames([ClassName("a"), ClassName("b")]) == ["a", "b"]
    ensures Assignments([ClassName("a"), ClassName("b")]) == map[]
  {
    assert ClassNames([ClassName("b")]) == ["b"];
  }

  /** `.a.b` and `.a .b` both give the class list `['a', 'b']` and nothing else. */
  lemma AdjacentAndSpacedClasses()
    ensures ClassNameFree(".a.b") && GetProps.GetProps(".a.b") == Props(Some(["a", "b"]), map[])
    ensures ClassNameFree(".a .b") && GetProps.GetProps(".a .b") == Props(Some(["a", "b"]), map[])
  {
    AdjacentClasses();
    SpacedClasses();
  }

  lemma AdjacentClasses()
    ensures ClassNameFree(".a.b") && GetProps.GetProps(".a.b") == Props(Some(["a", "b"]), map[])
  {
    AdjacentTokens();
    TwoClasses();
    PropsOf(".a.b", [ClassName("a"), ClassName("b")]);
  }

  lemma SpacedClasses()
    ensures ClassNameFree(".a .b") && GetProps.GetProps(".a .b") == Props(Some(["a", "b"]), map[])
  {
    SpacedTokens();
    TwoClasses();
    PropsOf(".a .b", [ClassName("a"), ClassName("b")]);
  }

  lemma LastClassTokens()
    ensures ClassNameFree(".b") && Tokens(".b") == [ClassName("b")]
    ensures ClassNameFree(" .b") && Tokens(" .b") == [ClassName("b")]
  {
    LastClassSteps();
    Chain(".b", ClassName("b"), "", []);
    Chain(" .b", ClassName("b"), "", []);
  }

  lemma AdjacentTokens()
    ensures ClassNameFree(".a.b") && Tokens(".a.b") == [ClassName("a"), ClassName("b")]
  {
    LeadingClass(".a.b", "a", ".b");
    LastClassTokens();
    Chain(".a.b", ClassName("a"), ".b", [ClassName("b")]);
  }

  lemma SpacedTokens()
    ensures ClassNameFree(".a .b") && Tokens(".a .b") == [ClassName("a"), ClassName("b")]
  {
    LeadingClass(".a .b", "a", " .b");
    LastClassTokens();
    Chain(".a .b", ClassName("a"), " .b", [ClassName("b")]);
  }

  lemma HelloWorldClasses()
    ensures ClassNames([ClassName("hello"), ClassName("world")]) == ["hello", "world"]
    ensures Assignments([ClassName("hello"), ClassName("world")]) == map[]
  {
    assert ClassNames([ClassName("world")]) == ["world"];
  }

  lemma WorldClassTokens()
    ensures ClassNameFree(".world") && Tokens(".world") == [ClassName("world")]
  {
    LeadingClass(".world", "world", []);
    Chain(".world", ClassName("world"), "", []);
  }

  lemma HelloDotStep()
    ensures Lex(".hello.world") == (ClassName("hello"), ".world")
  {
    LeadingClass(".hello.world", "hello", ".world");
  }

  lemma HelloWorldTokens()
    ensures ClassNameFree(".hello.world") && Tokens(".hello.world") == [ClassName("hello"), ClassName("world")]
  {
    WorldClassTokens();
    HelloDotStep();
    Chain(".hello.world", ClassName("hello"), ".world", [ClassName("world")]);
  }

  /** `'.hello'` gives `{ className: ['hello'] }`. */
  lemma HelloOnly()
    ensures ClassNameFree(".hello")
    ensures GetProps.GetProps(".hello") == Props(Some(["hello"]), map[])
  {
    LeadingClass(".hello", "hello", []);
    Chain(".hello", ClassName("hello"), [], []);
    assert ClassNames([ClassName("hello")]) == ["hello"];
    PropsOf(".hello", [ClassName("hello")]);
  }

  /** The empty input gives `{}`. */
  lemma EmptyInput()
    ensures ClassNameFree("") && GetProps.GetProps("") == Empty
  {
  }

  /** The body of the directive `{.hello.world}` gives `{ className: ['hello', 'world'] }`. */
  lemma HelloWorld()
    ensures ClassNameFree(".hello.world")
    ensures GetProps.GetProps(".hello.world") == Props(Some(["hello", "world"]), map[])
  {
    HelloWorldTokens();
    HelloWorldClasses();
    PropsOf(".hello.world", [ClassName("hello"), ClassName("world")]);
  }

  lemma TitleStep()
    ensures Lex("title=\"a b\" x=1 !y z") == (Attribute("title", "a b", DoubleQuote), " x=1 !y z")
  {
    assert [] + Spelling(Attribute("title", "a b", DoubleQuote)) + " x=1 !y z" == "title=\"a b\" x=1 !y z";
    LexSpelled([], Attribute("title", "a b", DoubleQuote), " x=1 !y z");
  }

  lemma XStep()
    ensures Lex(" x=1 !y z") == (Attribute("x", "1", NoQuote), " !y z")
  {
    assert " " + Spelling(Attribute("x", "1", NoQuote)) + " !y z" == " x=1 !y z";
    LexSpelled(" ", Attribute("x", "1", NoQuote), " !y z");
  }

  lemma BlankStep()
    ensures Lex(" !y z") == (Blank, "!y z")
  {
    assert " " + Spelling(Blank) + "!y z" == " !y z";
    LexSpelled(" ", Blank, "!y z");
  }

  lemma JunkStep()
    ensures Lex("!y z") == (Stop, "")
  {
    StopOn("!y z");
  }

  lemma ValuesAssigned()
    ensures var ts := [Attribute("title", "a b", DoubleQuote), Attribute("x", "1", NoQuote), Blank, Stop];
      ClassNames(ts) == [] && Assignments(ts) == map["title" := Str("a b"), "x" := Str("1")]
  {
    var ts := [Attribute("title", "a b", DoubleQuote), Attribute("x", "1", NoQuote), Blank, Stop];
    assert Assignments([Stop]) == map[];
    assert Assignments([Blank, Stop]) == map[];
    assert Assignments(ts[1..]) == map["x" := Str("1")];
    assert ClassNames([Stop]) == [];
  }

  /**
   * A quoted value keeps its inner blank, an unquoted one runs to the next
   * blank, and the first text no rule can take ends the parse: the names
   * after it are never read.
   */
  lemma ValuesAndStop()
    ensures ClassNameFree("title=\"a b\" x=1 !y z")
    ensures GetProps.GetProps("title=\"a b\" x=1 !y z") == Props(None, map["title" := Str("a b"), "x" := Str("1")])
  {
    ValuesTokens();
    ValuesAssigned();
    PropsOf("title=\"a b\" x=1 !y z", [Attribute("title", "a b", DoubleQuote), Attribute("x", "1", NoQuote), Blank, Stop]);
  }

  lemma JunkTokens()
    ensures ClassNameFree("!y z") && Tokens("!y z") == [Stop]
  {
    JunkStep();
    Chain("!y z", Stop, "", []);
  }

  lemma BlankTokens()
    ensures ClassNameFree(" !y z") && Tokens(" !y z") == [Blank, Stop]
  {
    BlankStep();
    JunkTokens();
    Chain(" !y z", Blank, "!y z", [Stop]);
  }

  lemma XTokens()
    ensures ClassNameFree(" x=1 !y z") && Tokens(" x=1 !y z") == [Attribute("x", "1", NoQuote), Blank, Stop]
  {
    XStep();
    BlankTokens();
    Chain(" x=1 !y z", Attribute("x", "1", NoQuote), " !y z", [Blank, Stop]);
  }

  lemma ValuesTokens()
    ensures ClassNameFree("title=\"a b\" x=1 !y z")
    ensures Tokens("title=\"a b\" x=1 !y z") == [Attribute("title", "a b", DoubleQuote), Attribute("x", "1", NoQuote), Blank, Stop]
  {
    TitleStep();
    XTokens();
    Chain("title=\"a b\" x=1 !y z", Attribute("title", "a b", DoubleQuote), " x=1 !y z", [Attribute("x", "1", NoQuote), Blank, Stop]);
    ConsFour(Attribute("title", "a b", DoubleQuote), Attribute("x", "1", NoQuote), Blank, Stop);
  }

  /** A sequence display is its first item followed by the others. */
  lemma ConsFour<T>(a: T, b: T, c: T, d: T)
    ensures [a] + [b, c, d] == [a, b, c, d]
  {
  }
}
