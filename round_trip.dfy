/**
 * The lexer reads a token back from its own spelling: after any leading
 * blanks, a token's spelling followed by text that cannot extend it (nor
 * let an earlier rule of the cascade fire) lexes to that token and leaves
 * the text after it.
 */
module RoundTrip {
  import opened Wrappers
  import opened Patterns
  import opened GetProps

  /** `s` is the blanks `ws`, then the text `x`, then `rest`. */
  predicate Laid(s: string, ws: string, x: string, rest: string) {
    && |s| == |ws| + |x| + |rest|
    && s[..|ws|] == ws && s[|ws|..|ws| + |x|] == x && s[|ws| + |x|..] == rest
  }

  lemma LaidConcat(ws: string, x: string, rest: string)
    ensures Laid(ws + x + rest, ws, x, rest)
  {
    var s := ws + x + rest;
    assert s[|ws|..|ws| + |x|] == x;
  }

  /** The class or id rule on its own spelling. */
  lemma SigiledRead(s: string, ws: string, sigil: char, n: string, rest: string)
    requires !IsSpace(sigil) && Laid(s, ws, [sigil] + n, rest)
    requires All(ws, Space) && n != [] && All(n, Name) && (rest == [] || !IsNameChar(rest[0]))
    ensures Lead(s) == |ws| && s[|ws|] == sigil
    ensures Sigiled(s, sigil) == Some(Hit(s[..|ws| + 1 + |n|], n, "")) && s[|ws| + 1 + |n|..] == rest
  {
    SigiledLayout(s, ws, sigil, n, rest);
    SigiledIs(s, sigil, |ws|, |n|, n);
  }

  /** Where the sigil and the name of a class or id sit in `s`. */
  lemma SigiledLayout(s: string, ws: string, sigil: char, n: string, rest: string)
    requires !IsSpace(sigil) && Laid(s, ws, [sigil] + n, rest)
    requires All(ws, Space) && n != [] && All(n, Name) && (rest == [] || !IsNameChar(rest[0]))
    ensures var w := |ws|;
      && Lead(s) == w && w + 1 + |n| <= |s| && s[w] == sigil
      && SpanWhile(s, w + 1, Name) == |n| && s[w + 1..w + 1 + |n|] == n && s[w + 1 + |n|..] == rest
  {
    SigilPieces(s, ws, sigil, n, rest);
    SigiledScan(s, ws, sigil, n, rest);
  }

  /** The pieces of a sigil and a name laid out in `s`, by position. */
  lemma SigilPieces(s: string, ws: string, sigil: char, n: string, rest: string)
    requires Laid(s, ws, [sigil] + n, rest)
    ensures var w := |ws|;
      && w + 1 + |n| <= |s| && s[..w] == ws && s[w] == sigil
      && s[w + 1..w + 1 + |n|] == n && s[w + 1 + |n|..] == rest
  {
    var w := |ws|;
    SliceOf(s, w, [sigil] + n, 0, 1);
    SliceOf(s, w, [sigil] + n, 1, 1 + |n|);
    assert s[w] == s[w..w + 1][0];
  }

  /** How far the blanks and the name run when a sigil and a name sit at `|ws|`. */
  lemma SigiledScan(s: string, ws: string, sigil: char, n: string, rest: string)
    requires var w := |ws|;
      && w + 1 + |n| <= |s| && s[..w] == ws && s[w] == sigil
      && s[w + 1..w + 1 + |n|] == n && s[w + 1 + |n|..] == rest
    requires !IsSpace(sigil) && All(ws, Space) && All(n, Name) && (rest == [] || !IsNameChar(rest[0]))
    ensures Lead(s) == |ws| && SpanWhile(s, |ws| + 1, Name) == |n|
  {
    var w := |ws|;
    WithinOf(s, 0, ws, Space);
    LeadAt(s, w);
    WithinOf(s, w + 1, n, Name);
    if rest != [] {
      assert s[w + 1 + |n|] == rest[0];
    }
    SpanWhileExact(s, w + 1, |n|, Name);
  }

  lemma LexClassName(s: string, ws: string, n: string, rest: string)
    requires Laid(s, ws, Spelling(ClassName(n)), rest)
    requires All(ws, Space) && WellFormed(ClassName(n)) && Fits(ClassName(n), rest)
    ensures Lex(s) == (ClassName(n), rest)
  {
    SigiledRead(s, ws, '.', n, rest);
    assert Rule(s, 0) == Sigiled(s, '.');
    CascadeHit(s, 0);
  }

  lemma LexId(s: string, ws: string, n: string, rest: string)
    requires Laid(s, ws, Spelling(Id(n)), rest)
    requires All(ws, Space) && WellFormed(Id(n)) && Fits(Id(n), rest)
    ensures Lex(s) == (Id(n), rest)
  {
    SigiledRead(s, ws, '#', n, rest);
    SigiledMeaning(s, '.');
    assert Rule(s, 0) == Sigiled(s, '.') && Rule(s, 1) == Sigiled(s, '#');
    CascadeSkip(s, 0);
    CascadeHit(s, 1);
  }

  /** A character of a piece of `s` is a character of `s`. */
  lemma CharOf(s: string, i: nat, x: string, a: nat)
    requires i + |x| <= |s| && s[i..i + |x|] == x && a < |x|
    ensures s[i + a] == x[a]
  {
    assert s[i..i + |x|][a] == s[i + a];
  }

  /** A name character is none of the signs the rules look for. */
  lemma NameCharIsNoSign(c: char)
    requires IsNameChar(c)
    ensures c != '.' && c != '#' && c != '=' && c != '"' && c != '\'' && !IsSpace(c)
  {
  }

  /** The class or id rule fails when its sigil does not follow the blanks. */
  lemma SigiledNone(s: string, sigil: char)
    requires Lead(s) == |s| || s[Lead(s)] != sigil
    ensures Sigiled(s, sigil).None?
  {
  }

  /** A name starts with a name character, which is no blank. */
  lemma NameStart(n: string)
    requires n != [] && All(n, Name)
    ensures IsNameChar(n[0]) && !IsSpace(n[0])
  {
  }

  /** The blanks and the name in front of `=` or of another non-name character. */
  lemma NameRead(s: string, ws: string, x: string, n: string)
    requires |ws| + |x| <= |s| && s[..|ws|] == ws && s[|ws|..|ws| + |x|] == x
    requires All(ws, Space) && n != [] && All(n, Name) && n <= x
    requires |ws| + |n| == |s| || !IsNameChar(s[|ws| + |n|])
    ensures Lead(s) == |ws| && NameAt(s) == |n| && s[|ws|..|ws| + |n|] == n
  {
    var w := |ws|;
    NameStart(n);
    assert x[..|n|] == n;
    SliceOf(s, w, x, 0, |n|);
    CharOf(s, w, x, 0);
    WithinOf(s, 0, ws, Space);
    LeadAt(s, w);
    WithinOf(s, w, n, Name);
    NameAtIs(s, |n|);
  }

  /** A run free of `q` followed by `q` is exactly what `[^q]*` takes. */
  lemma QuotedValue(s: string, i: nat, v: string, q: char)
    requires i + |v| < |s| && s[i..i + |v|] == v && q !in v && s[i + |v|] == q
    ensures SpanWhile(s, i, Except(q)) == |v|
  {
    forall x | i <= x < i + |v| ensures In(s[x], Except(q)) {
      assert s[x] == v[x - i];
    }
    SpanWhileExact(s, i, |v|, Except(q));
  }

  /** A run free of spaces followed by a space or the end is exactly what `[^ ]*` takes. */
  lemma UnquotedValue(s: string, i: nat, v: string, rest: string)
    requires i + |v| <= |s| && s[i..i + |v|] == v && s[i + |v|..] == rest
    requires ' ' !in v && (rest == [] || rest[0] == ' ')
    ensures SpanWhile(s, i, Except(' ')) == |v|
  {
    forall x | i <= x < i + |v| ensures In(s[x], Except(' ')) {
      assert s[x] == v[x - i];
    }
    if rest != [] {
      assert s[i + |v|] == rest[0];
    }
    SpanWhileExact(s, i, |v|, Except(' '));
  }

  /** Where the parts of `name=<q>value<q>` sit. */
  lemma QuotedParts(n: string, v: string, q: char)
    ensures var x := n + "=" + [q] + v + [q];
      && n <= x && x[|n|] == '=' && x[|n| + 1] == q
      && x[|n| + 2..|n| + 2 + |v|] == v && x[|n| + 2 + |v|] == q && |x| == |n| + 3 + |v|
  {
    var x := n + "=" + [q] + v + [q];
    assert x == n + ("=" + [q] + v + [q]);
  }

  /** Where the parts of a quoted attribute sit in `s`. */
  lemma QuotedLayout(s: string, ws: string, n: string, v: string, q: char, rest: string)
    requires Laid(s, ws, n + "=" + [q] + v + [q], rest)
    requires All(ws, Space) && n != [] && All(n, Name)
    ensures var e := |ws| + |n|;
      && Lead(s) == |ws| && NameAt(s) == |n| && s[|ws|..e] == n
      && e + 2 + |v| < |s| && s[e] == '=' && s[e + 1] == q
      && s[e + 2..e + 2 + |v|] == v && s[e + 2 + |v|] == q && s[e + 3 + |v|..] == rest
  {
    var x := n + "=" + [q] + v + [q];
    var w := |ws|;
    QuotedParts(n, v, q);
    CharOf(s, w, x, |n|);
    NameRead(s, ws, x, n);
    CharOf(s, w, x, |n| + 1);
    CharOf(s, w, x, |n| + 2 + |v|);
    SliceOf(s, w, x, |n| + 2, |n| + 2 + |v|);
  }

  /** The quoted rule on text laid out as a quoted attribute, by position. */
  lemma QuotedAt(s: string, w: nat, nl: nat, vl: nat, q: char)
    requires var e := w + nl;
      && Lead(s) == w && NameAt(s) == nl && nl > 0
      && e + 2 + vl < |s| && s[e] == '=' && s[e + 1] == q
      && s[e + 2 + vl] == q && SpanWhile(s, e + 2, Except(q)) == vl
    ensures Quoted(s, q) == Some(Hit(s[..w + nl + 3 + vl], s[w..w + nl], s[w + nl + 2..w + nl + 2 + vl]))
  {
    QuotedIs(s, q, w, nl, vl, s[w..w + nl], s[w + nl + 2..w + nl + 2 + vl]);
  }

  /**
   * By position: blanks up to `w`, a name of `nl` characters, `=`, the quote
   * `q`, `vl` characters other than `q`, and `q` again.
   */
  predicate QuotedLaidAt(s: string, w: nat, nl: nat, vl: nat, q: char) {
    var e := w + nl;
    && e + 2 + vl < |s|
    && Lead(s) == w && NameAt(s) == nl && nl > 0 && IsNameChar(s[w])
    && s[e] == '=' && s[e + 1] == q
    && s[e + 2 + vl] == q && SpanWhile(s, e + 2, Except(q)) == vl
  }

  /** The name, value and rest of a quoted attribute laid out by position. */
  predicate QuotedPieces(s: string, w: nat, n: string, v: string, rest: string) {
    && w + |n| + 3 + |v| <= |s|
    && s[w..w + |n|] == n && s[w + |n| + 2..w + |n| + 2 + |v|] == v && s[w + |n| + 3 + |v|..] == rest
  }

  /** What each rule makes of text laid out as a quoted attribute: rule `k`, the one for `q`, is the first to match. */
  lemma QuotedRules(s: string, w: nat, n: string, v: string, q: char, quote: Quote, k: nat, rest: string) returns (h: Hit)
    requires (q == '"' && quote == DoubleQuote && k == 2) || (q == '\'' && quote == SingleQuote && k == 3)
    requires QuotedLaidAt(s, w, |n|, |v|, q) && QuotedPieces(s, w, n, v, rest)
    ensures k < 7 && FailsBefore(s, k) && Rule(s, k) == Some(h)
    ensures Handle(k, h) == Attribute(n, v, quote) && s[|h.whole|..] == rest
  {
    QuotedAt(s, w, |n|, |v|, q);
    NameCharIsNoSign(s[w]);
    SigiledNone(s, '.');
    SigiledNone(s, '#');
    h := Quoted(s, q).value;
    if q == '\'' {
      QuotedMatches(s, '"');
    }
    assert Rule(s, 0).None? && Rule(s, 1).None? && Rule(s, k) == Quoted(s, q);
  }

  /** The cascade on text laid out as a quoted attribute, by position. */
  lemma LexQuotedAt(s: string, w: nat, n: string, v: string, q: char, quote: Quote, k: nat, rest: string)
    requires (q == '"' && quote == DoubleQuote && k == 2) || (q == '\'' && quote == SingleQuote && k == 3)
    requires QuotedLaidAt(s, w, |n|, |v|, q) && QuotedPieces(s, w, n, v, rest)
    ensures Lex(s) == (Attribute(n, v, quote), rest)
  {
    var h := QuotedRules(s, w, n, v, q, quote, k, rest);
    LexFirstMatch(s, k, h);
  }

  /** Where the parts of a quoted attribute sit, in the form `LexQuotedAt` asks for. */
  lemma QuotedFacts(s: string, ws: string, n: string, v: string, q: char, rest: string)
    requires Laid(s, ws, n + "=" + [q] + v + [q], rest) && q !in v
    requires All(ws, Space) && n != [] && All(n, Name)
    ensures QuotedLaidAt(s, |ws|, |n|, |v|, q)
    ensures QuotedPieces(s, |ws|, n, v, rest)
  {
    QuotedLayout(s, ws, n, v, q, rest);
    QuotedValue(s, |ws| + |n| + 2, v, q);
    NameStart(n);
    assert s[|ws|] == s[|ws|..|ws| + |n|][0];
  }

  /** A quoted attribute with its quote `q`, read back. */
  lemma LexQuotedLaid(s: string, ws: string, n: string, v: string, q: char, quote: Quote, k: nat, rest: string)
    requires (q == '"' && quote == DoubleQuote && k == 2) || (q == '\'' && quote == SingleQuote && k == 3)
    requires Laid(s, ws, n + "=" + [q] + v + [q], rest) && q !in v
    requires All(ws, Space) && n != [] && All(n, Name)
    ensures Lex(s) == (Attribute(n, v, quote), rest)
  {
    QuotedFacts(s, ws, n, v, q, rest);
    LexQuotedAt(s, |ws|, n, v, q, quote, k, rest);
  }

  lemma LexDoubleQuoted(s: string, ws: string, n: string, v: string, rest: string)
    requires Laid(s, ws, Spelling(Attribute(n, v, DoubleQuote)), rest)
    requires All(ws, Space) && WellFormed(Attribute(n, v, DoubleQuote))
    ensures Lex(s) == (Attribute(n, v, DoubleQuote), rest)
  {
    LexQuotedLaid(s, ws, n, v, '"', DoubleQuote, 2, rest);
  }

  lemma LexSingleQuoted(s: string, ws: string, n: string, v: string, rest: string)
    requires Laid(s, ws, Spelling(Attribute(n, v, SingleQuote)), rest)
    requires All(ws, Space) && WellFormed(Attribute(n, v, SingleQuote))
    ensures Lex(s) == (Attribute(n, v, SingleQuote), rest)
  {
    LexQuotedLaid(s, ws, n, v, '\'', SingleQuote, 3, rest);
  }

  /** Where the parts of `name=value` sit. */
  lemma UnquotedParts(n: string, v: string)
    ensures var x := n + "=" + v;
      && n <= x && x[|n|] == '=' && x[|n| + 1..] == v && |x| == |n| + 1 + |v|
  {
    var x := n + "=" + v;
    assert x == n + ("=" + v);
  }

  /** Where the parts of an unquoted attribute sit in `s`. */
  lemma UnquotedLayout(s: string, ws: string, n: string, v: string, rest: string)
    requires Laid(s, ws, n + "=" + v, rest)
    requires All(ws, Space) && n != [] && All(n, Name)
    ensures var e := |ws| + |n|;
      && Lead(s) == |ws| && NameAt(s) == |n| && s[|ws|..e] == n
      && e + 1 + |v| <= |s| && s[e] == '='
      && s[e + 1..e + 1 + |v|] == v && s[e + 1 + |v|..] == rest
  {
    var x := n + "=" + v;
    var w := |ws|;
    UnquotedParts(n, v);
    CharOf(s, w, x, |n|);
    NameRead(s, ws, x, n);
    SliceOf(s, w, x, |n| + 1, |x|);
  }

  /** After `=`, an unquoted value that holds no closing quote for its first character opens no quoted value. */
  lemma QuotedAbsent(s: string, e: nat, v: string, rest: string, q: char)
    requires e + 1 + |v| <= |s| && s[e + 1..e + 1 + |v|] == v && s[e + 1 + |v|..] == rest
    requires (rest == [] || rest[0] == ' ') && q != ' '
    requires !(v != [] && v[0] == q && q in v[1..] + rest)
    ensures !(e + 1 < |s| && s[e + 1] == q && q in s[e + 2..])
  {
    if e + 1 < |s| && s[e + 1] == q {
      assert s[e + 1..] == v + rest;
      if v != [] {
        assert s[e + 1] == v[0];
        assert s[e + 2..] == (v + rest)[1..] == v[1..] + rest;
      }
    }
  }

  /**
   * The layout the cascade needs to see an unquoted attribute at `w`: a
   * name of `nl` characters, `=`, and `vl` characters up to the next space,
   * with no quoted rule able to fire on what follows the `=`.
   */
  predicate UnquotedLaidAt(s: string, w: nat, nl: nat, vl: nat) {
    var e := w + nl;
    && Lead(s) == w && NameAt(s) == nl && nl > 0 && IsNameChar(s[w])
    && e + 1 + vl <= |s| && s[e] == '=' && SpanWhile(s, e + 1, Except(' ')) == vl
    && !(e + 1 < |s| && s[e + 1] == '"' && '"' in s[e + 2..])
    && !(e + 1 < |s| && s[e + 1] == '\'' && '\'' in s[e + 2..])
  }

  /** The name, value and rest of an unquoted attribute laid out by position. */
  predicate UnquotedPieces(s: string, w: nat, n: string, v: string, rest: string) {
    && w + |n| + 1 + |v| <= |s|
    && s[w..w + |n|] == n && s[w + |n| + 1..w + |n| + 1 + |v|] == v && s[w + |n| + 1 + |v|..] == rest
  }

  /** What each rule makes of text laid out as an unquoted attribute: rule 4 is the first to match. */
  lemma UnquotedRules(s: string, w: nat, n: string, v: string, rest: string) returns (h: Hit)
    requires UnquotedLaidAt(s, w, |n|, |v|) && UnquotedPieces(s, w, n, v, rest)
    ensures FailsBefore(s, 4) && Rule(s, 4) == Some(h)
    ensures Handle(4, h) == Attribute(n, v, NoQuote) && s[|h.whole|..] == rest
  {
    QuotedMatches(s, '"');
    QuotedMatches(s, '\'');
    UnquotedHit(s, w, |n|, |v|);
    NameCharIsNoSign(s[w]);
    SigiledNone(s, '.');
    SigiledNone(s, '#');
    h := Unquoted(s).value;
    assert Rule(s, 0).None? && Rule(s, 1).None? && Rule(s, 2).None? && Rule(s, 3).None?;
  }

  /** The cascade on text laid out as an unquoted attribute, by position. */
  lemma LexUnquotedAt(s: string, w: nat, n: string, v: string, rest: string)
    requires UnquotedLaidAt(s, w, |n|, |v|) && UnquotedPieces(s, w, n, v, rest)
    ensures Lex(s) == (Attribute(n, v, NoQuote), rest)
  {
    var h := UnquotedRules(s, w, n, v, rest);
    LexFirstMatch(s, 4, h);
  }

  /** What follows the `=` of an unquoted attribute, by position. */
  lemma UnquotedTail(s: string, e: nat, v: string, rest: string)
    requires e + 1 + |v| <= |s| && s[e + 1..e + 1 + |v|] == v && s[e + 1 + |v|..] == rest
    requires ' ' !in v && (rest == [] || rest[0] == ' ')
    requires !(v != [] && v[0] == '"' && '"' in v[1..] + rest)
    requires !(v != [] && v[0] == '\'' && '\'' in v[1..] + rest)
    ensures SpanWhile(s, e + 1, Except(' ')) == |v|
    ensures !(e + 1 < |s| && s[e + 1] == '"' && '"' in s[e + 2..])
    ensures !(e + 1 < |s| && s[e + 1] == '\'' && '\'' in s[e + 2..])
  {
    UnquotedValue(s, e + 1, v, rest);
    QuotedAbsent(s, e, v, rest, '"');
    QuotedAbsent(s, e, v, rest, '\'');
  }

  /** What the cascade needs to see an unquoted attribute, read off its layout. */
  lemma UnquotedRead(s: string, ws: string, n: string, v: string, rest: string)
    requires Laid(s, ws, n + "=" + v, rest)
    requires All(ws, Space) && n != [] && All(n, Name) && ' ' !in v && (rest == [] || rest[0] == ' ')
    requires !(v != [] && v[0] == '"' && '"' in v[1..] + rest)
    requires !(v != [] && v[0] == '\'' && '\'' in v[1..] + rest)
    ensures UnquotedLaidAt(s, |ws|, |n|, |v|) && UnquotedPieces(s, |ws|, n, v, rest)
  {
    UnquotedLayout(s, ws, n, v, rest);
    assert In(s[|ws|], Name);
    UnquotedTail(s, |ws| + |n|, v, rest);
  }

  /** An unquoted attribute, read back. */
  lemma LexUnquotedLaid(s: string, ws: string, n: string, v: string, rest: string)
    requires Laid(s, ws, n + "=" + v, rest)
    requires All(ws, Space) && n != [] && All(n, Name) && ' ' !in v && (rest == [] || rest[0] == ' ')
    requires !(v != [] && v[0] == '"' && '"' in v[1..] + rest)
    requires !(v != [] && v[0] == '\'' && '\'' in v[1..] + rest)
    ensures Lex(s) == (Attribute(n, v, NoQuote), rest)
  {
    UnquotedRead(s, ws, n, v, rest);
    LexUnquotedAt(s, |ws|, n, v, rest);
  }

  lemma LexUnquoted(s: string, ws: string, n: string, v: string, rest: string)
    requires Laid(s, ws, Spelling(Attribute(n, v, NoQuote)), rest)
    requires All(ws, Space) && WellFormed(Attribute(n, v, NoQuote)) && Fits(Attribute(n, v, NoQuote), rest)
    ensures Lex(s) == (Attribute(n, v, NoQuote), rest)
  {
    LexUnquotedLaid(s, ws, n, v, rest);
  }

  /** Where a flag's name sits in `s`. */
  lemma FlagLayout(s: string, ws: string, n: string, rest: string)
    requires Laid(s, ws, n, rest)
    requires All(ws, Space) && n != [] && All(n, Name)
    requires rest == [] || (!IsNameChar(rest[0]) && rest[0] != '=')
    ensures Lead(s) == |ws| && NameAt(s) == |n| && IsNameChar(s[|ws|])
    ensures |ws| + |n| == |s| || s[|ws| + |n|] != '='
    ensures s[|ws|..|ws| + |n|] == n && s[|ws| + |n|..] == rest
  {
    if rest != [] {
      assert s[|ws| + |n|] == rest[0];
    }
    NameRead(s, ws, n, n);
    assert In(s[|ws|], Name);
  }

  /** No rule that needs `=` after the name fires when none follows it. */
  lemma NoEquals(s: string)
    requires var e := Lead(s) + NameAt(s); NameAt(s) == 0 || e == |s| || s[e] != '='
    ensures Quoted(s, '"').None? && Quoted(s, '\'').None? && Unquoted(s).None?
  {
  }

  /** What each rule makes of text laid out as a flag: rule 5 is the first to match. */
  lemma FlagRules(s: string, ws: string, n: string, rest: string) returns (h: Hit)
    requires Laid(s, ws, n, rest)
    requires All(ws, Space) && n != [] && All(n, Name)
    requires rest == [] || (!IsNameChar(rest[0]) && rest[0] != '=')
    ensures FailsBefore(s, 5) && Rule(s, 5) == Some(h)
    ensures Handle(5, h) == Flag(n) && s[|h.whole|..] == rest
  {
    FlagLayout(s, ws, n, rest);
    BareIs(s, |ws|, |n|, n);
    NoEquals(s);
    NameCharIsNoSign(s[|ws|]);
    SigiledNone(s, '.');
    SigiledNone(s, '#');
    h := Bare(s).value;
    assert Rule(s, 0).None? && Rule(s, 1).None? && Rule(s, 2).None? && Rule(s, 3).None? && Rule(s, 4).None?;
  }

  /** A flag, read back. */
  lemma LexFlagLaid(s: string, ws: string, n: string, rest: string)
    requires Laid(s, ws, n, rest)
    requires All(ws, Space) && n != [] && All(n, Name)
    requires rest == [] || (!IsNameChar(rest[0]) && rest[0] != '=')
    ensures Lex(s) == (Flag(n), rest)
  {
    var h := FlagRules(s, ws, n, rest);
    LexFirstMatch(s, 5, h);
  }

  /** Where a run of blanks ends in `s`, and that nothing else can start there. */
  lemma BlankLayout(s: string, ws: string, rest: string)
    requires Laid(s, ws, "", rest) && All(ws, Space) && NoTokenStarts(rest)
    ensures var w := |ws|;
      && Lead(s) == w && NameAt(s) == 0 && s[w..] == rest
      && (w == |s| || !IsNameChar(s[w]))
      && !((w < |s| && (s[w] == '.' || s[w] == '#')) && w + 1 < |s| && IsNameChar(s[w + 1]))
  {
    var w := |ws|;
    if rest != [] {
      assert s[w] == rest[0];
      if |rest| > 1 {
        assert s[w + 1] == rest[1];
      }
    }
    WithinOf(s, 0, ws, Space);
    LeadAt(s, w);
    NameAtIs(s, 0);
  }

  /** What each rule makes of a run of blanks followed by nothing a rule can take: rule 6 is the first to match. */
  lemma BlankRules(s: string, ws: string, rest: string) returns (h: Hit)
    requires Laid(s, ws, "", rest) && ws != [] && All(ws, Space) && NoTokenStarts(rest)
    ensures FailsBefore(s, 6) && Rule(s, 6) == Some(h)
    ensures Handle(6, h) == Blank && s[|h.whole|..] == rest
  {
    BlankLayout(s, ws, rest);
    SigiledMeaning(s, '.');
    SigiledMeaning(s, '#');
    NoEquals(s);
    SpacesIs(s, |ws|);
    h := Spaces(s).value;
    assert Rule(s, 0).None? && Rule(s, 1).None? && Rule(s, 2).None? && Rule(s, 3).None? && Rule(s, 4).None?;
    assert Rule(s, 5) == Bare(s);
  }

  lemma LexBlank(s: string, ws: string, rest: string)
    requires Laid(s, ws, Spelling(Blank), rest) && ws != []
    requires All(ws, Space) && Fits(Blank, rest)
    ensures Lex(s) == (Blank, rest)
  {
    var h := BlankRules(s, ws, rest);
    LexFirstMatch(s, 6, h);
  }

  lemma LexFlag(s: string, ws: string, n: string, rest: string)
    requires Laid(s, ws, Spelling(Flag(n)), rest)
    requires All(ws, Space) && WellFormed(Flag(n)) && Fits(Flag(n), rest)
    ensures Lex(s) == (Flag(n), rest)
  {
    LexFlagLaid(s, ws, n, rest);
  }

  /**
   * The lexer reads back what it spells: after blanks, a well-formed
   * token's spelling followed by text that fits it lexes to that token.
   */
  lemma LexRead(s: string, ws: string, t: Token, rest: string)
    requires Laid(s, ws, Spelling(t), rest) && All(ws, Space)
    requires WellFormed(t) && Fits(t, rest) && (t.Blank? ==> ws != [])
    ensures Lex(s) == (t, rest)
  {
    match t
    case ClassName(n) => LexClassName(s, ws, n, rest);
    case Id(n) => LexId(s, ws, n, rest);
    case Attribute(n, v, DoubleQuote) => LexDoubleQuoted(s, ws, n, v, rest);
    case Attribute(n, v, SingleQuote) => LexSingleQuoted(s, ws, n, v, rest);
    case Attribute(n, v, NoQuote) => LexUnquoted(s, ws, n, v, rest);
    case Flag(n) => LexFlag(s, ws, n, rest);
    case Blank => LexBlank(s, ws, rest);
  }

  /** The same, for text written as blanks, a spelling and a rest. */
  lemma LexSpelled(ws: string, t: Token, rest: string)
    requires All(ws, Space) && WellFormed(t) && Fits(t, rest) && (t.Blank? ==> ws != [])
    ensures Lex(ws + Spelling(t) + rest) == (t, rest)
  {
    LaidConcat(ws, Spelling(t), rest);
    LexRead(ws + Spelling(t) + rest, ws, t, rest);
  }

  /** A class or id rule stops where no name character follows. */
  lemma SigiledFits(s: string, sigil: char)
    requires Sigiled(s, sigil).Some?
    ensures var rest := s[|Sigiled(s, sigil).value.whole|..]; rest == [] || !IsNameChar(rest[0])
  {
    SigiledMeaning(s, sigil);
    var m := Sigiled(s, sigil).value;
    if |m.whole| < |s| {
      assert s[|m.whole|..][0] == s[|m.whole|];
    }
  }

  /** A value after `=` at `e` that a quoted rule for `q` could not take holds no closing `q` for an opening one. */
  lemma QuoteFree(s: string, e: nat, vl: nat, q: char)
    requires e + 1 + vl <= |s| && !(e + 1 < |s| && s[e + 1] == q && q in s[e + 2..])
    ensures var v, rest := s[e + 1..e + 1 + vl], s[e + 1 + vl..]; !(v != [] && v[0] == q && q in v[1..] + rest)
  {
    var v, rest := s[e + 1..e + 1 + vl], s[e + 1 + vl..];
    if v != [] {
      assert v[0] == s[e + 1];
      assert v[1..] + rest == s[e + 2..];
    }
  }

  /** An unquoted value that neither quoted rule could take ends at a blank and holds no closing quote for its opening one. */
  lemma UnquotedFits(s: string)
    requires Unquoted(s).Some? && Quoted(s, '"').None? && Quoted(s, '\'').None?
    ensures var m := Unquoted(s).value; Fits(Attribute(m.name, m.value, NoQuote), s[|m.whole|..])
  {
    var w, n := Lead(s), NameAt(s);
    var vl := SpanWhile(s, w + n + 1, Except(' '));
    UnquotedHit(s, w, n, vl);
    QuotedMatches(s, '"');
    QuotedMatches(s, '\'');
    UnquotedFitsAt(s, w, n, vl);
  }

  /** The same, by position. */
  lemma UnquotedFitsAt(s: string, w: nat, n: nat, vl: nat)
    requires w == Lead(s) && n == NameAt(s) && w + n + 1 <= |s| && vl == SpanWhile(s, w + n + 1, Except(' '))
    requires s[w + n] == '='
    requires var e := w + n; !(e + 1 < |s| && s[e + 1] == '"' && '"' in s[e + 2..])
    requires var e := w + n; !(e + 1 < |s| && s[e + 1] == '\'' && '\'' in s[e + 2..])
    ensures Fits(Attribute(s[w..w + n], s[w + n + 1..w + n + 1 + vl], NoQuote), s[w + n + 1 + vl..])
  {
    var e := w + n;
    UnquotedSplit(s, w, n, vl);
    QuoteFree(s, e, vl, '"');
    QuoteFree(s, e, vl, '\'');
    if e + 1 + vl < |s| {
      assert s[e + 1 + vl..][0] == s[e + 1 + vl];
    }
  }

  /** A bare name that the unquoted rule could not take is followed by neither a name character nor `=`. */
  lemma BareFits(s: string)
    requires Bare(s).Some? && Unquoted(s).None?
    ensures Fits(Flag(Bare(s).value.name), s[|Bare(s).value.whole|..])
  {
    var e := Lead(s) + NameAt(s);
    if e < |s| {
      assert s[e..][0] == s[e];
    }
  }

  /** A run of blanks that no earlier rule could take is followed by nothing a rule can start on. */
  lemma SpacesFits(s: string)
    requires Spaces(s).Some? && Bare(s).None? && Sigiled(s, '.').None? && Sigiled(s, '#').None?
    ensures Fits(Blank, s[|Spaces(s).value.whole|..]) && Lead(s) > 0
  {
    var w := Lead(s);
    SigiledMeaning(s, '.');
    SigiledMeaning(s, '#');
    if w < |s| {
      assert s[w..][0] == s[w];
      if w + 1 < |s| {
        assert s[w..][1] == s[w + 1];
      }
    }
  }

  /** Rule `k` fires, no earlier one does: what it leaves fits the token it makes. */
  lemma RuleFits(s: string, k: nat)
    requires k < 7 && Rule(s, k).Some?
    requires forall j :: 0 <= j < k ==> Rule(s, j).None?
    ensures var m := Rule(s, k).value; Fits(Handle(k, m), s[|m.whole|..]) && (k == 6 ==> Lead(s) > 0)
  {
    if k == 0 {
      assert Rule(s, 0) == Sigiled(s, '.');
      SigiledFits(s, '.');
    } else if k == 1 {
      assert Rule(s, 1) == Sigiled(s, '#');
      SigiledFits(s, '#');
    } else if k == 4 {
      assert Rule(s, 2).None? && Rule(s, 3).None?;
      assert Rule(s, 4) == Unquoted(s);
      UnquotedFits(s);
    } else if k == 5 {
      assert Rule(s, 4).None?;
      assert Rule(s, 5) == Bare(s);
      BareFits(s);
    } else if k == 6 {
      assert Rule(s, 0).None? && Rule(s, 1).None? && Rule(s, 5).None?;
      assert Rule(s, 6) == Spaces(s);
      SpacesFits(s);
    }
  }

  /** From rule `k` on, the cascade returns what the rule of its token's rank made. */
  lemma {:induction false} CascadeAtRank(input: string, k: nat)
    requires k <= 7
    ensures var r := Cascade(input, k); var j := Rank(r.0);
      j < 7 ==> Rule(input, j).Some? && r == (Handle(j, Rule(input, j).value), input[|Rule(input, j).value.whole|..])
    decreases 7 - k
  {
    if k < 7 {
      if Rule(input, k).Some? {
        CascadeHit(input, k);
      } else {
        CascadeSkip(input, k);
        CascadeAtRank(input, k + 1);
      }
    }
  }

  /** A step that does not stop comes from the first rule that matched, as `LexFirstMatch` reads it. */
  lemma LexWhich(s: string) returns (k: nat, h: Hit)
    requires !Lex(s).0.Stop?
    ensures k < 7 && FailsBefore(s, k) && Rule(s, k) == Some(h)
    ensures Lex(s) == (Handle(k, h), s[|h.whole|..])
  {
    LexPriority(s);
    CascadeAtRank(s, 0);
    k := Rank(Lex(s).0);
    h := Rule(s, k).value;
  }

  /** What the first rule to match spells: blanks, its token's spelling, and a rest that fits it. */
  lemma RuleSpells(s: string, k: nat, h: Hit)
    requires k < 7 && FailsBefore(s, k) && Rule(s, k) == Some(h)
    ensures var t, rest, ws := Handle(k, h), s[|h.whole|..], s[..Lead(s)];
      && Laid(s, ws, Spelling(t), rest) && All(ws, Space)
      && WellFormed(t) && Fits(t, rest) && (t.Blank? ==> ws != [])
  {
    RuleMeaning(s, k);
    RuleFits(s, k);
    var t, rest, ws := Handle(k, h), s[|h.whole|..], s[..Lead(s)];
    assert s == ws + Spelling(t) + rest;
    LaidConcat(ws, Spelling(t), rest);
    assert forall i :: 0 <= i < |ws| ==> ws[i] == s[i];
  }

  /**
   * The converse of `LexRead`: whatever the lexer returns short of `Stop` is
   * the blanks it skipped, a well-formed token's spelling and a rest that
   * fits it, with at least one blank before a blank token.
   */
  lemma LexSpells(s: string)
    ensures var (t, rest) := Lex(s); var ws := s[..Lead(s)];
      !t.Stop? ==>
        && Laid(s, ws, Spelling(t), rest) && All(ws, Space)
        && WellFormed(t) && Fits(t, rest) && (t.Blank? ==> ws != [])
  {
    if !Lex(s).0.Stop? {
      var k, h := LexWhich(s);
      RuleSpells(s, k, h);
    }
  }

  /** Every rule fails on text no token can start on. */
  lemma StopOn(s: string)
    requires NoTokenStarts(s)
    ensures Lex(s) == (Stop, [])
  {
    LeadAt(s, 0);
    NameAtIs(s, 0);
    SigiledMeaning(s, '.');
    SigiledMeaning(s, '#');
    NoEquals(s);
    assert Rule(s, 0) == Sigiled(s, '.') && Rule(s, 1) == Sigiled(s, '#');
    assert Rule(s, 2) == Quoted(s, '"') && Rule(s, 3) == Quoted(s, '\'') && Rule(s, 4) == Unquoted(s);
    assert Rule(s, 5) == Bare(s) && Rule(s, 6) == Spaces(s);
    CascadeSkip(s, 0);
    CascadeSkip(s, 1);
    CascadeSkip(s, 2);
    CascadeSkip(s, 3);
    CascadeSkip(s, 4);
    CascadeSkip(s, 5);
    CascadeSkip(s, 6);
  }

  /** The lexer stops exactly on text that no token can start on. */
  lemma LexStop(s: string)
    ensures Lex(s).0.Stop? <==> NoTokenStarts(s)
  {
    if NoTokenStarts(s) {
      StopOn(s);
    } else if Lex(s).0.Stop? {
      LexPriority(s);
      assert Rule(s, 0).None? && Rule(s, 1).None? && Rule(s, 5).None? && Rule(s, 6).None?;
      assert Rule(s, 0) == Sigiled(s, '.') && Rule(s, 1) == Sigiled(s, '#');
      assert Rule(s, 5) == Bare(s) && Rule(s, 6) == Spaces(s);
      SpacesMeaning(s);
      SigiledMeaning(s, '.');
      SigiledMeaning(s, '#');
      assert false;
    }
  }
}
