/**
 * The directive-body parser: `getProps` strips one recognised token at a
 * time from the front of its input and folds it into a property map.
 *
 * The callback that `getProps` hands to `reduce` is split in two here: `Lex`
 * is its cascade of `match` calls (which rule fires and what is left), and
 * `Apply` is what the chosen branch does to the state.
 */
module GetProps {
  import opened Wrappers
  import opened Hast
  import opened Patterns

  /** How an attribute value was written. */
  datatype Quote = DoubleQuote | SingleQuote | NoQuote

  /** One recognised token of a directive body, in the order the rules are tried. */
  datatype Token =
    | ClassName(name: string)                          // `.name`
    | Id(name: string)                                 // `#name`
    | Attribute(name: string, text: string, quote: Quote)  // `name="v"`, `name='v'`, `name=v`
    | Flag(name: string)                               // `name`
    | Blank                                            // a run of whitespace
    | Stop                                             // nothing matched

  /** The position of a token's rule in the priority order. */
  function Rank(t: Token): nat {
    match t
    case ClassName(_) => 0
    case Id(_) => 1
    case Attribute(_, _, DoubleQuote) => 2
    case Attribute(_, _, SingleQuote) => 3
    case Attribute(_, _, NoQuote) => 4
    case Flag(_) => 5
    case Blank => 6
    case Stop => 7
  }

  /** The `k`-th of the seven patterns of the cascade, in priority order, applied to the input. */
  function Rule(input: string, k: nat): (r: Option<Hit>)
    requires k < 7
    ensures Anchored(input, r)
  {
    if k == 0 then Sigiled(input, '.')
    else if k == 1 then Sigiled(input, '#')
    else if k == 2 then Quoted(input, '"')
    else if k == 3 then Quoted(input, '\'')
    else if k == 4 then Unquoted(input)
    else if k == 5 then Bare(input)
    else Spaces(input)
  }

  /** The text a token stands for, leading whitespace excluded. */
  function Spelling(t: Token): string {
    match t
    case ClassName(n) => ['.'] + n
    case Id(n) => ['#'] + n
    case Attribute(n, v, DoubleQuote) => n + "=" + ['"'] + v + ['"']
    case Attribute(n, v, SingleQuote) => n + "=" + ['\''] + v + ['\'']
    case Attribute(n, v, NoQuote) => n + "=" + v
    case Flag(n) => n
    case Blank => ""
    case Stop => ""
  }

  /** What the lexer can produce: non-empty names, values free of their terminator. */
  predicate WellFormed(t: Token) {
    match t
    case ClassName(n) => n != [] && All(n, Name)
    case Id(n) => n != [] && All(n, Name)
    case Attribute(n, v, q) =>
      && n != [] && All(n, Name)
      && (match q
          case DoubleQuote => '"' !in v
          case SingleQuote => '\'' !in v
          case NoQuote => ' ' !in v)
    case Flag(n) => n != [] && All(n, Name)
    case Blank => true
    case Stop => true
  }

  /**
   * `match(str, re)`: on a hit, the rest of `str` after the matched text;
   * otherwise no hit and `str` itself.
   */
  function Match(str: string, m: Option<Hit>): (r: (Option<Hit>, string))
    requires m.Some? ==> m.value.whole <= str
    ensures r.0 == m
    ensures m.Some? ==> r.0.value.whole + r.1 == str
    ensures m.None? ==> r.1 == str
  {
    if m.Some? then (m, str[|m.value.whole|..]) else (None, str)
  }

  /** The token the rule at position `k` of `Rule` makes of its match (the branch bodies of the callback). */
  function Handle(k: nat, m: Hit): (t: Token)
    requires k < 7
    ensures Rank(t) == k && !t.Stop?
  {
    if k == 0 then ClassName(m.name)
    else if k == 1 then Id(m.name)
    else if k == 2 then Attribute(m.name, m.value, DoubleQuote)
    else if k == 3 then Attribute(m.name, m.value, SingleQuote)
    else if k == 4 then Attribute(m.name, m.value, NoQuote)
    else if k == 5 then Flag(m.name)
    else Blank
  }

  /**
   * The rule cascade of the `getProps` callback from rule `k` on: the first
   * rule that matches decides the token and the input loses the matched
   * text; when none matches the rest is `''`.
   */
  function Cascade(input: string, k: nat): (r: (Token, string))
    requires k <= 7
    ensures r.0.Stop? ==> r.1 == []
    ensures input != [] ==> |r.1| < |input|
    decreases 7 - k
  {
    if k == 7 then (Stop, [])
    else
      var m := Match(input, Rule(input, k));
      if m.0.Some? then (Handle(k, m.0.value), m.1) else Cascade(input, k + 1)
  }

  /** One step of the callback's rule cascade, all seven rules in priority order. */
  function Lex(input: string): (r: (Token, string))
    ensures r.0.Stop? ==> r.1 == []
    ensures input != [] ==> |r.1| < |input|
  {
    Cascade(input, 0)
  }

  /** From rule `k` on, the token comes from rule `k` or a later one, and that rule matched. */
  lemma {:induction false} CascadeRank(input: string, k: nat)
    requires k <= 7
    ensures var t := Cascade(input, k).0;
      k <= Rank(t) && (Rank(t) < 7 ==> Rule(input, Rank(t)).Some?)
    decreases 7 - k
  {
    if k < 7 {
      if Rule(input, k).None? {
        CascadeSkip(input, k);
        CascadeRank(input, k + 1);
      } else {
        CascadeHit(input, k);
      }
    }
  }

  /** From rule `k` on, every rule before the token's own failed. */
  lemma {:induction false} CascadeSkipped(input: string, k: nat, j: nat)
    requires k <= 7 && k <= j < Rank(Cascade(input, k).0)
    ensures Rule(input, j).None?
    decreases j - k
  {
    if Rule(input, k).None? {
      CascadeSkip(input, k);
      if j > k {
        CascadeSkipped(input, k + 1, j);
      }
    } else {
      CascadeHit(input, k);
    }
  }

  /** First match wins, from rule `k` on. */
  lemma CascadePriority(input: string, k: nat)
    requires k <= 7
    ensures var t := Cascade(input, k).0;
      && k <= Rank(t)
      && (Rank(t) < 7 ==> Rule(input, Rank(t)).Some?)
      && (forall j :: k <= j < Rank(t) ==> Rule(input, j).None?)
  {
    CascadeRank(input, k);
    forall j | k <= j < Rank(Cascade(input, k).0) ensures Rule(input, j).None? {
      CascadeSkipped(input, k, j);
    }
  }

  /** First match wins: the token's rule matches and every rule before it fails. */
  lemma LexPriority(input: string)
    ensures var t := Lex(input).0;
      && (Rank(t) < 7 ==> Rule(input, Rank(t)).Some?)
      && (forall j :: 0 <= j < Rank(t) ==> Rule(input, j).None?)
  {
    CascadePriority(input, 0);
  }

  /** The quoted rules, read back as an attribute token. */
  lemma QuotedRule(input: string, q: char, quote: Quote)
    requires (q == '"' && quote == DoubleQuote) || (q == '\'' && quote == SingleQuote)
    requires Quoted(input, q).Some?
    ensures var m := Quoted(input, q).value; var t := Attribute(m.name, m.value, quote);
      WellFormed(t) && m.whole == input[..Lead(input)] + Spelling(t)
  {
    QuotedCaptures(input, q);
  }

  /** What rule `k` matched, read back through the pattern's meaning. */
  lemma RuleMeaning(input: string, k: nat)
    requires k < 7 && Rule(input, k).Some?
    ensures var m := Rule(input, k).value; var t := Handle(k, m);
      && WellFormed(t)
      && m.whole == input[..Lead(input)] + Spelling(t)
  {
    var m := Rule(input, k).value;
    if k == 0 {
      assert Rule(input, 0) == Sigiled(input, '.');
      SigiledMeaning(input, '.');
    } else if k == 1 {
      assert Rule(input, 1) == Sigiled(input, '#');
      SigiledMeaning(input, '#');
    } else if k == 2 {
      assert Rule(input, 2) == Quoted(input, '"');
      QuotedRule(input, '"', DoubleQuote);
    } else if k == 3 {
      assert Rule(input, 3) == Quoted(input, '\'');
      QuotedRule(input, '\'', SingleQuote);
    } else if k == 4 {
      assert Rule(input, 4) == Unquoted(input);
      UnquotedMeaning(input);
    } else if k == 5 {
      assert Rule(input, 5) == Bare(input);
      BareMeaning(input);
    } else {
      assert Rule(input, 6) == Spaces(input);
      SpacesMeaning(input);
    }
  }

  lemma {:induction false} CascadeConsumes(input: string, k: nat)
    requires k <= 7
    ensures var (t, rest) := Cascade(input, k);
      && WellFormed(t)
      && (!t.Stop? ==> input == input[..Lead(input)] + Spelling(t) + rest)
    decreases 7 - k
  {
    if k < 7 {
      if Rule(input, k).Some? {
        RuleMeaning(input, k);
      } else {
        CascadeConsumes(input, k + 1);
      }
    }
  }

  /**
   * What a step consumes is leading whitespace followed by the token's own
   * spelling; a failed step drops the whole input, which then starts with
   * no rule's text and no whitespace.
   */
  lemma LexConsumes(input: string)
    ensures var (t, rest) := Lex(input);
      && WellFormed(t)
      && (t.Stop? ==> rest == [] && (input == [] || !IsSpace(input[0])))
      && (!t.Stop? ==> input == input[..Lead(input)] + Spelling(t) + rest)
  {
    CascadeConsumes(input, 0);
    CascadePriority(input, 0);
    SpacesMeaning(input);
    assert Lex(input).0.Stop? ==> Rule(input, 6).None?;
  }

  /** A rule that fails passes the input on to the next one. */
  lemma CascadeSkip(input: string, k: nat)
    requires k < 7 && Rule(input, k).None?
    ensures Cascade(input, k) == Cascade(input, k + 1)
  {
  }

  /** A rule that matches decides the token and drops the matched text. */
  lemma CascadeHit(input: string, k: nat)
    requires k < 7 && Rule(input, k).Some?
    ensures Cascade(input, k) == (Handle(k, Rule(input, k).value), input[|Rule(input, k).value.whole|..])
  {
  }

  /** Every rule before rule `k` fails on the input. */
  predicate FailsBefore(input: string, k: nat)
    requires k <= 7
  {
    forall j :: 0 <= j < k ==> Rule(input, j).None?
  }

  /** From rule `i` on, the first rule that matches decides the token and drops its match. */
  lemma {:induction false} CascadeFrom(input: string, i: nat, k: nat, h: Hit)
    requires i <= k < 7 && Rule(input, k) == Some(h)
    requires forall j :: i <= j < k ==> Rule(input, j).None?
    ensures Cascade(input, i) == (Handle(k, h), input[|h.whole|..])
    decreases k - i
  {
    if i < k {
      CascadeSkip(input, i);
      CascadeFrom(input, i + 1, k, h);
    } else {
      CascadeHit(input, k);
    }
  }

  /** First match wins, exactly: the token and the rest come from the first rule that matches. */
  lemma LexFirstMatch(input: string, k: nat, h: Hit)
    requires k < 7 && FailsBefore(input, k) && Rule(input, k) == Some(h)
    ensures Lex(input) == (Handle(k, h), input[|h.whole|..])
  {
    CascadeFrom(input, 0, k, h);
  }

  /** Whether a token would store a string or a flag under the reserved `className` key. */
  predicate SetsClassName(t: Token) {
    (t.Attribute? || t.Flag?) && t.name == "className"
  }

  /** The class names a token contributes: one for a class token, none otherwise. */
  function ClassesOf(t: Token): seq<string> {
    if t.ClassName? then [t.name] else []
  }

  /** The keys a token sets and the values it sets them to. */
  function Assigned(t: Token): map<string, Value> {
    match t
    case Id(n) => map["id" := Str(n)]
    case Attribute(n, v, _) => map[n := Str(v)]
    case Flag(n) => map[n := Bool(true)]
    case _ => map[]
  }

  /** `addClassName(state, name)`: the class list grows by `name` at its end; nothing else changes. */
  function AddClassName(state: PropertyMap, name: string): (r: PropertyMap)
    ensures ClassList(r) == ClassList(state) + [name]
    ensures r.className.Some? && r.attrs == state.attrs
  {
    state.(className := Some(ClassList(state) + [name]))
  }

  /** The branch bodies of the callback: what each token does to the state. */
  function Apply(state: PropertyMap, t: Token): (r: PropertyMap)
    requires !SetsClassName(t)
    ensures ClassList(r) == ClassList(state) + ClassesOf(t)
    ensures r.className == if t.ClassName? then Some(ClassList(r)) else state.className
    ensures r.attrs == state.attrs + Assigned(t)
  {
    match t
    case ClassName(n) => AddClassName(state, n)
    case Id(n) => state.(attrs := state.attrs["id" := Str(n)])
    case Attribute(n, v, _) => state.(attrs := state.attrs[n := Str(v)])
    case Flag(n) => state.(attrs := state.attrs[n := Bool(true)])
    case Blank => state
    case Stop => state
  }

  /** The callback `(state, input) => [state, input]` that `getProps` passes to `reduce`. */
  function Step(state: PropertyMap, input: string): (r: (PropertyMap, string))
    requires !SetsClassName(Lex(input).0)
    ensures input != [] ==> |r.1| < |input|
  {
    var (t, rest) := Lex(input);
    (Apply(state, t), rest)
  }

  /** The input never stores a string or a flag under `className` (see README, "Left out"). */
  predicate ClassNameFree(input: string)
    decreases |input|
  {
    input == [] || (!SetsClassName(Lex(input).0) && ClassNameFree(Lex(input).1))
  }

  /** The tokens the parser reads from `input`, in order, up to and including a `Stop`. */
  function Tokens(input: string): seq<Token>
    decreases |input|
  {
    if input == [] then [] else [Lex(input).0] + Tokens(Lex(input).1)
  }

  /** The class names of a token sequence, in order, duplicates kept. */
  function ClassNames(ts: seq<Token>): seq<string> {
    if ts == [] then [] else ClassesOf(ts[0]) + ClassNames(ts[1..])
  }

  /** The keys a token sequence sets; a later token overrides an earlier one. */
  function Assignments(ts: seq<Token>): map<string, Value> {
    if ts == [] then map[] else Assigned(ts[0]) + Assignments(ts[1..])
  }

  /**
   * `reduce(input, state, fn)` with `fn` the `getProps` callback: step until
   * the input is exhausted. The state only grows: no class is lost and no key
   * removed. `ReduceClasses` and `ReduceAttrs` state the result exactly.
   */
  function Reduce(input: string, state: PropertyMap): (r: PropertyMap)
    requires ClassNameFree(input)
    ensures input == [] ==> r == state
    ensures ClassList(state) <= ClassList(r)
    ensures state.attrs.Keys <= r.attrs.Keys
    decreases |input|
  {
    if |input| == 0 then state
    else
      var (next, rest) := Step(state, input);
      Reduce(rest, next)
  }

  /** Unfolds one step of `Reduce` and `Tokens` together. */
  lemma ReduceUnfold(input: string, state: PropertyMap)
    requires input != [] && ClassNameFree(input)
    ensures var (t, rest) := Lex(input);
      && !SetsClassName(t) && ClassNameFree(rest)
      && Reduce(input, state) == Reduce(rest, Apply(state, t))
      && Tokens(input) == [t] + Tokens(rest)
  {
  }

  /** The result holds the state's classes followed by every class token read, in order. */
  lemma {:induction false} ReduceClasses(input: string, state: PropertyMap)
    requires ClassNameFree(input)
    ensures ClassList(Reduce(input, state)) == ClassList(state) + ClassNames(Tokens(input))
    ensures Reduce(input, state).className
         == if ClassNames(Tokens(input)) == [] then state.className else Some(ClassList(Reduce(input, state)))
    decreases |input|
  {
    if input != [] {
      ReduceUnfold(input, state);
      var (t, rest) := Lex(input);
      ReduceClasses(rest, Apply(state, t));
      ClassesStep(state, t, Tokens(rest), Reduce(rest, Apply(state, t)));
    }
  }

  /** One token ahead of the rest: its classes come right after the state's, before the rest's. */
  lemma ClassesStep(state: PropertyMap, t: Token, ts: seq<Token>, r: PropertyMap)
    requires !SetsClassName(t)
    requires ClassList(r) == ClassList(Apply(state, t)) + ClassNames(ts)
    requires r.className == if ClassNames(ts) == [] then Apply(state, t).className else Some(ClassList(r))
    ensures ClassList(r) == ClassList(state) + ClassNames([t] + ts)
    ensures r.className == if ClassNames([t] + ts) == [] then state.className else Some(ClassList(r))
  {
    assert ([t] + ts)[1..] == ts;
    assert ClassNames([t] + ts) == ClassesOf(t) + ClassNames(ts);
  }

  /** The result holds the state's keys, overridden by every key the tokens set. */
  lemma {:induction false} ReduceAttrs(input: string, state: PropertyMap)
    requires ClassNameFree(input)
    ensures Reduce(input, state).attrs == state.attrs + Assignments(Tokens(input))
    decreases |input|
  {
    if input != [] {
      ReduceUnfold(input, state);
      var (t, rest) := Lex(input);
      ReduceAttrs(rest, Apply(state, t));
      assert ([t] + Tokens(rest))[1..] == Tokens(rest);
      MapUnionAssoc(state.attrs, Assigned(t), Assignments(Tokens(rest)));
    }
  }

  /** Map union is associative. */
  lemma MapUnionAssoc<K, V>(a: map<K, V>, b: map<K, V>, c: map<K, V>)
    ensures (a + b) + c == a + (b + c)
  {
  }

  /**
   * `getProps(input)`: `className` is present exactly when a class token was
   * read and then lists all of them in order; every other key holds the value
   * its last assignment gave it.
   */
  function GetProps(input: string): (r: PropertyMap)
    requires ClassNameFree(input)
    ensures r.className.None? <==> ClassNames(Tokens(input)) == []
    ensures r.className.Some? ==> r.className.value == ClassNames(Tokens(input)) && r.className.value != []
    ensures r.attrs == Assignments(Tokens(input))
  {
    ReduceClasses(input, Empty);
    ReduceAttrs(input, Empty);
    Reduce(input, Empty)
  }

  /** A key absent from every token is absent from the result, and a key some token sets is present. */
  lemma {:induction false} AssignedSomewhere(ts: seq<Token>, k: string)
    ensures k in Assignments(ts) <==> exists j :: 0 <= j < |ts| && k in Assigned(ts[j])
  {
    if ts != [] {
      AssignedSomewhere(ts[1..], k);
      if k in Assignments(ts[1..]) {
        var j :| 0 <= j < |ts[1..]| && k in Assigned(ts[1..][j]);
        assert k in Assigned(ts[j + 1]);
      }
      forall j | 1 <= j < |ts| && k in Assigned(ts[j])
        ensures k in Assignments(ts[1..])
      {
        assert k in Assigned(ts[1..][j - 1]);
      }
    }
  }

  /** Later assignments override earlier ones: a key's value is the one its last assignment gave it. */
  lemma {:induction false} LastAssignmentWins(ts: seq<Token>, i: nat, k: string)
    requires i < |ts| && k in Assigned(ts[i])
    requires forall j :: i < j < |ts| ==> k !in Assigned(ts[j])
    ensures k in Assignments(ts) && Assignments(ts)[k] == Assigned(ts[i])[k]
  {
    if i == 0 {
      AssignedSomewhere(ts[1..], k);
      forall j | 0 <= j < |ts[1..]| ensures k !in Assigned(ts[1..][j]) {
        assert ts[1..][j] == ts[j + 1];
      }
    } else {
      LastAssignmentWins(ts[1..], i - 1, k);
    }
  }

  /**
   * When the text after a token cannot extend it or make an earlier rule
   * fire, the lexer reads the token back from its spelling.
   */
  predicate Fits(t: Token, rest: string) {
    match t
    case ClassName(_) => rest == [] || !IsNameChar(rest[0])
    case Id(_) => rest == [] || !IsNameChar(rest[0])
    case Attribute(_, v, q) =>
      q.NoQuote? ==>
        && (rest == [] || rest[0] == ' ')
        && !(v != [] && v[0] == '"' && '"' in v[1..] + rest)
        && !(v != [] && v[0] == '\'' && '\'' in v[1..] + rest)
    case Flag(_) => rest == [] || (!IsNameChar(rest[0]) && rest[0] != '=')
    case Blank => NoTokenStarts(rest)
    case Stop => false
  }

  /** No rule can start on `s`: it is empty or starts with a sign that is no blank, no name character and no sigil of a name. */
  predicate NoTokenStarts(s: string) {
    s == [] ||
      (&& !IsSpace(s[0]) && !IsNameChar(s[0])
       && !((s[0] == '.' || s[0] == '#') && |s| > 1 && IsNameChar(s[1])))
  }
}
