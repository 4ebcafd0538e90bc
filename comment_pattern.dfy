/**
 * The directive envelope `^\s*{\s*(.*?)\s*}\s*$` (src/index.js:11): a comment
 * is a directive when its text, blanks aside, is a pair of braces around a
 * single line, and the captured body is that line with its blanks trimmed.
 */
module CommentPattern {
  import opened Wrappers
  import opened Patterns

  /** `.` matches every character but a line terminator. */
  predicate OneLine(s: string) {
    forall i :: 0 <= i < |s| ==> !IsLineTerminator(s[i])
  }

  /** Neither end of `s` is a blank. */
  predicate Trimmed(s: string) {
    s == [] || (!IsSpace(s[0]) && !IsSpace(s[|s| - 1]))
  }

  /**
   * `s` is braces around `body`: blanks `a`, `{`, blanks `b`, the body,
   * blanks `c`, `}`, blanks `d`, with a trimmed body.
   */
  predicate Framed(s: string, a: string, b: string, body: string, c: string, d: string) {
    && s == a + "{" + b + body + c + "}" + d
    && All(a, Space) && All(b, Space) && All(c, Space) && All(d, Space)
    && Trimmed(body)
  }

  /** `s` is the envelope around `body`: braces around a trimmed single-line body. */
  predicate Padded(s: string, a: string, b: string, body: string, c: string, d: string) {
    Framed(s, a, b, body, c, d) && OneLine(body)
  }

  /**
   * `s.match(COMMENT)`, giving the capture group `m[1]`. The leading `\s*`
   * must stop at the `{`, the trailing `\s*$` must start right after the
   * last non-blank, which must be the `}`; between them the greedy `\s*`
   * and the lazy `(.*?)\s*` leave the trimmed inner text as the capture,
   * and the match fails when that text spans a line break.
   */
  function Envelope(s: string): (r: Option<string>)
    ensures r.Some? ==> Trimmed(r.value) && OneLine(r.value)
  {
    var w := Lead(s);
    var t := TrimEndSpace(s);
    if w + 2 <= |t| && t[w] == '{' && t[|t| - 1] == '}' then
      var body := TrimSpace(t[w + 1..|t| - 1]);
      if OneLine(body) then Some(body) else None
    else None
  }

  /** Trailing blanks after a non-blank end are exactly what `TrimEndSpace` drops. */
  lemma {:induction false} TrimEndPad(x: string, d: string)
    requires (x == [] || !IsSpace(x[|x| - 1])) && All(d, Space)
    ensures TrimEndSpace(x + d) == x
    decreases |d|
  {
    if d != [] {
      assert (x + d)[..|x + d| - 1] == x + d[..|d| - 1];
      TrimEndPad(x, d[..|d| - 1]);
    }
  }

  /** Leading blanks before a non-blank (or before the end) are exactly what `Lead` counts. */
  lemma LeadPad(a: string, x: string)
    requires All(a, Space) && (x == [] || !IsSpace(x[0]))
    ensures Lead(a + x) == |a|
  {
    LeadAt(a + x, |a|);
  }

  /** The inner text `b + body + c` trims to the body. */
  lemma TrimSpacePad(b: string, body: string, c: string)
    requires All(b, Space) && All(c, Space) && Trimmed(body)
    ensures TrimSpace(b + body + c) == body
  {
    var s := b + body + c;
    if body == [] {
      assert s == (b + c) + [];
      LeadPad(b + c, []);
      assert s[Lead(s)..] == [];
    } else {
      assert s == b + (body + c);
      LeadPad(b, body + c);
      assert s[|b|..] == body + c;
      TrimEndPad(body, c);
    }
  }

  /**
   * Spelling to match: braces around a trimmed body capture that body when
   * it is a single line, and do not match otherwise.
   */
  lemma EnvelopeOf(s: string, a: string, b: string, body: string, c: string, d: string)
    requires Framed(s, a, b, body, c, d)
    ensures Envelope(s) == if OneLine(body) then Some(body) else None
  {
    var inner := b + body + c;
    var closed := a + "{" + inner + "}";
    assert s == closed + d;
    assert s == a + ("{" + inner + "}" + d);
    LeadPad(a, "{" + inner + "}" + d);
    TrimEndPad(closed, d);
    assert closed[|a| + 1..|closed| - 1] == inner;
    TrimSpacePad(b, body, c);
  }

  /** The pieces `Envelope` cuts a matching text into, read off by index. */
  lemma PaddedParts(s: string, w: nat, t: string, body: string)
    requires w <= |s| && Within(s, 0, w, Space)
    requires t <= s && All(s[|t|..], Space)
    requires w + 2 <= |t| && t[w] == '{' && t[|t| - 1] == '}'
    requires var inner := t[w + 1..|t| - 1]; var i := Lead(inner);
      body <= inner[i..] && All(inner[i + |body|..], Space)
    requires Trimmed(body) && OneLine(body)
    ensures exists a, b, c, d :: Padded(s, a, b, body, c, d)
  {
    var inner := t[w + 1..|t| - 1];
    var i := Lead(inner);
    var a, b, c, d := s[..w], inner[..i], inner[i + |body|..], s[|t|..];
    WithinAll(s, 0, w, Space);
    WithinAll(inner, 0, i, Space);
    ThreeParts(inner, i, body);
    assert t[..w] == a;
    Braced(t, w);
    PrefixRest(s, t);
    Concat7(s, a, b, body, c, d, inner);
    assert Padded(s, a, b, body, c, d);
  }

  /** A prefix of a text and what follows it make up the text. */
  lemma PrefixRest(s: string, t: string)
    requires t <= s
    ensures s == t + s[|t|..]
  {
  }

  /** A text with `{` at `w` and `}` at its end, cut at its braces. */
  lemma Braced(t: string, w: nat)
    requires w + 2 <= |t| && t[w] == '{' && t[|t| - 1] == '}'
    ensures t == t[..w] + "{" + t[w + 1..|t| - 1] + "}"
  {
  }

  /** A text cut before and after a piece of it. */
  lemma ThreeParts(inner: string, i: nat, body: string)
    requires i <= |inner| && body <= inner[i..]
    ensures inner == inner[..i] + body + inner[i + |body|..]
  {
  }

  /** Substituting the inner text into the envelope. */
  lemma Concat7(s: string, a: string, b: string, body: string, c: string, d: string, inner: string)
    requires inner == b + body + c && s == a + "{" + inner + "}" + d
    ensures s == a + "{" + b + body + c + "}" + d
  {
  }

  /** Match to spelling: a matching text is an envelope around its capture. */
  lemma EnvelopeSplits(s: string)
    requires Envelope(s).Some?
    ensures exists a, b, c, d :: Padded(s, a, b, Envelope(s).value, c, d)
  {
    var t := TrimEndSpace(s);
    PaddedParts(s, Lead(s), t, TrimSpace(t[Lead(s) + 1..|t| - 1]));
  }

  /** A comment text matches exactly when it is an envelope, and the capture is the enveloped body. */
  lemma EnvelopeIff(s: string, body: string)
    ensures Envelope(s) == Some(body) <==> exists a, b, c, d :: Padded(s, a, b, body, c, d)
  {
    if Envelope(s) == Some(body) {
      EnvelopeSplits(s);
    }
    if exists a, b, c, d :: Padded(s, a, b, body, c, d) {
      var a, b, c, d :| Padded(s, a, b, body, c, d);
      EnvelopeOf(s, a, b, body, c, d);
    }
  }

  /**
   * A line break inside the trimmed body prevents a match; the blanks
   * around the body may hold line breaks, since `\s` matches them.
   */
  lemma EnvelopeRejectsBreak(s: string, a: string, b: string, body: string, c: string, d: string, i: nat)
    requires Framed(s, a, b, body, c, d) && i < |body| && IsLineTerminator(body[i])
    ensures Envelope(s) == None
  {
    EnvelopeOf(s, a, b, body, c, d);
  }

  /** `{.a\n.b}` does not match. */
  lemma BreakInBody()
    ensures Envelope("{.a\n.b}") == None
  {
    assert "{.a\n.b}" == [] + "{" + [] + ".a\n.b" + [] + "}" + [];
    EnvelopeRejectsBreak("{.a\n.b}", [], [], ".a\n.b", [], [], 2);
  }

  /** A line break between `{` and the body is a blank: `{\n.a}` captures `.a`. */
  lemma BreakBeforeBody(body: string)
    requires Trimmed(body) && OneLine(body)
    ensures Envelope("{\n" + body + "}") == Some(body)
  {
    assert "{\n" + body + "}" == [] + "{" + "\n" + body + [] + "}" + [];
    EnvelopeOf("{\n" + body + "}", [], "\n", body, [], []);
  }

  /** A line break between the body and `}` is a blank: `{.a\n}` captures `.a`. */
  lemma BreakAfterBody(body: string)
    requires Trimmed(body) && OneLine(body)
    ensures Envelope("{" + body + "\n}") == Some(body)
  {
    assert "{" + body + "\n}" == [] + "{" + [] + body + "\n" + "}" + [];
    EnvelopeOf("{" + body + "\n}", [], [], body, "\n", []);
  }

  /** A text whose first character is neither a blank nor `{` is not a directive. */
  lemma EnvelopeNeedsOpen(s: string)
    requires s != [] && !IsSpace(s[0]) && s[0] != '{'
    ensures Envelope(s) == None
  {
    LeadAt(s, 0);
  }

  /** A text whose last character is neither a blank nor `}` is not a directive. */
  lemma EnvelopeNeedsClose(s: string)
    requires s != [] && !IsSpace(s[|s| - 1]) && s[|s| - 1] != '}'
    ensures Envelope(s) == None
  {
    TrimEndPad(s, []);
    assert s + [] == s;
  }

  /** A text without its braces is not a directive. */
  lemma EnvelopeRejectsUnbraced()
    ensures Envelope(".a") == None
    ensures Envelope("{.a") == None
  {
    EnvelopeNeedsOpen(".a");
    EnvelopeNeedsClose("{.a");
  }
}
