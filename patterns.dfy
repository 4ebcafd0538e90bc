/**
 * The regular expressions of the directive parser, each written out as a
 * matcher anchored at the front of a string. A matcher returns the matched
 * text (`m[0]`) and its capture groups (`m[1]`, `m[2]`), or nothing.
 */
module Patterns {
  import opened Wrappers

  /** `\s`: the ECMAScript WhiteSpace and LineTerminator characters. */
  predicate IsSpace(c: char) {
    || c == '\t' || c == '\n' || c == '\U{B}' || c == '\U{C}' || c == '\r' || c == ' '
    || c == '\U{A0}' || c == '\U{1680}' || ('\U{2000}' <= c <= '\U{200A}')
    || c == '\U{2028}' || c == '\U{2029}' || c == '\U{202F}' || c == '\U{205F}'
    || c == '\U{3000}' || c == '\U{FEFF}'
  }

  /** The characters `.` does not match: the ECMAScript line terminators. */
  predicate IsLineTerminator(c: char) {
    c == '\n' || c == '\r' || c == '\U{2028}' || c == '\U{2029}'
  }

  /** `[a-zA-Z0-9\-_]`, the characters of a class, id or attribute name. */
  predicate IsNameChar(c: char) {
    ('a' <= c <= 'z') || ('A' <= c <= 'Z') || ('0' <= c <= '9') || c == '-' || c == '_'
  }

  /** The character classes the patterns take runs of. */
  datatype CharClass = Space | Name | Except(c: char)

  predicate In(c: char, k: CharClass) {
    match k
    case Space => IsSpace(c)
    case Name => IsNameChar(c)
    case Except(x) => c != x
  }

  predicate All(s: string, k: CharClass) {
    forall i :: 0 <= i < |s| ==> In(s[i], k)
  }

  /** Every character of `s` from index `i` up to `j` is in class `k`. */
  predicate Within(s: string, i: nat, j: nat, k: CharClass)
    requires i <= j <= |s|
  {
    forall x :: i <= x < j ==> In(s[x], k)
  }

  /** The length of the longest run of characters satisfying `p` from index `i` on. */
  function SpanWhile(s: string, i: nat, k: CharClass): (n: nat)
    requires i <= |s|
    ensures i + n <= |s|
    ensures Within(s, i, i + n, k)
    ensures i + n == |s| || !In(s[i + n], k)
    decreases |s| - i
  {
    if i < |s| && In(s[i], k) then 1 + SpanWhile(s, i + 1, k) else 0
  }

  /** A run is determined by its extent: `n` characters satisfying `p`, then one that does not (or the end). */
  lemma {:induction false} SpanWhileExact(s: string, i: nat, n: nat, k: CharClass)
    requires i + n <= |s| && Within(s, i, i + n, k)
    requires i + n == |s| || !In(s[i + n], k)
    ensures SpanWhile(s, i, k) == n
    decreases n
  {
    if n > 0 {
      SpanWhileExact(s, i + 1, n - 1, k);
    }
  }

  /** The length of the leading `\s*`. */
  function Lead(s: string): (n: nat)
    ensures n <= |s| && Within(s, 0, n, Space)
    ensures n == |s| || !IsSpace(s[n])
  {
    SpanWhile(s, 0, Space)
  }

  /** `s` with its trailing `\s*` removed. */
  function TrimEndSpace(s: string): (r: string)
    ensures r <= s && All(s[|r|..], Space)
    ensures r == [] || !IsSpace(r[|r| - 1])
  {
    if s != [] && IsSpace(s[|s| - 1]) then TrimEndSpace(s[..|s| - 1]) else s
  }

  /** `s` with its leading and trailing `\s*` removed (`String.prototype.trim`). */
  function TrimSpace(s: string): (r: string)
    ensures var a := Lead(s); r <= s[a..] && All(s[..a], Space) && All(s[a + |r|..], Space)
    ensures r == [] || (!IsSpace(r[0]) && !IsSpace(r[|r| - 1]))
  {
    TrimEndSpace(s[Lead(s)..])
  }

  /** A successful match: the matched text and the first two capture groups. */
  datatype Hit = Hit(whole: string, name: string, value: string)

  /** A matcher's hit is a non-empty prefix of its input. */
  predicate Anchored(s: string, r: Option<Hit>) {
    r.Some? ==> r.value.whole <= s && r.value.whole != []
  }

  /** `^\s*<sigil>([a-zA-Z0-9\-_]+)`: the class rule with `.`, the id rule with `#`. */
  function Sigiled(s: string, sigil: char): (r: Option<Hit>)
    ensures Anchored(s, r)
  {
    var w := Lead(s);
    if w < |s| && s[w] == sigil then
      var n := SpanWhile(s, w + 1, Name);
      if n > 0 then Some(Hit(s[..w + 1 + n], s[w + 1..w + 1 + n], "")) else None
    else None
  }

  /** The length of the name that `\s*([a-zA-Z0-9\-_]+)` would capture (0 if none). */
  function NameAt(s: string): (n: nat)
    ensures Lead(s) + n <= |s| && Within(s, Lead(s), Lead(s) + n, Name)
    ensures Lead(s) + n == |s| || !IsNameChar(s[Lead(s) + n])
  {
    SpanWhile(s, Lead(s), Name)
  }

  /** `^\s*([a-zA-Z0-9\-_]+)=<q>([^<q>]*)<q>`: an attribute quoted with `q`. */
  function Quoted(s: string, q: char): (r: Option<Hit>)
    ensures Anchored(s, r)
  {
    var w, n := Lead(s), NameAt(s);
    var e := w + n;
    if n > 0 && e + 1 < |s| && s[e] == '=' && s[e + 1] == q then
      var v := SpanWhile(s, e + 2, Except(q));
      if e + 2 + v < |s| then Some(Hit(s[..e + 3 + v], s[w..e], s[e + 2..e + 2 + v])) else None
    else None
  }

  /** `^\s*([a-zA-Z0-9\-_]+)=([^ ]*)`: an unquoted attribute; the value stops at a space. */
  function Unquoted(s: string): (r: Option<Hit>)
    ensures Anchored(s, r)
  {
    var w, n := Lead(s), NameAt(s);
    var e := w + n;
    if n > 0 && e < |s| && s[e] == '=' then
      var v := SpanWhile(s, e + 1, Except(' '));
      Some(Hit(s[..e + 1 + v], s[w..e], s[e + 1..e + 1 + v]))
    else None
  }

  /** `^\s*([a-zA-Z0-9\-_]+)`: a bare name. */
  function Bare(s: string): (r: Option<Hit>)
    ensures Anchored(s, r)
  {
    var w, n := Lead(s), NameAt(s);
    if n > 0 then Some(Hit(s[..w + n], s[w..w + n], "")) else None
  }

  /** `^\s+`: a run of whitespace. */
  function Spaces(s: string): (r: Option<Hit>)
    ensures Anchored(s, r)
  {
    var w := Lead(s);
    if w > 0 then Some(Hit(s[..w], "", "")) else None
  }

  /** The class and id rules match exactly when a name character follows the sigil, and capture the whole name. */
  lemma SigiledMeaning(s: string, sigil: char)
    ensures var r := Sigiled(s, sigil);
      && (r.Some? <==> var w := Lead(s); w + 1 < |s| && s[w] == sigil && IsNameChar(s[w + 1]))
      && (r.Some? ==>
        && r.value.whole == s[..Lead(s)] + ([sigil] + r.value.name)
        && r.value.name != [] && All(r.value.name, Name)
        && (|r.value.whole| == |s| || !IsNameChar(s[|r.value.whole|])))
  {
  }

  /** The quoted-attribute rule fails exactly when `name=<q>` is missing or no closing quote follows it. */
  lemma QuotedMatches(s: string, q: char)
    ensures Quoted(s, q).Some? <==>
      var w, n := Lead(s), NameAt(s);
      n > 0 && w + n + 1 < |s| && s[w + n] == '=' && s[w + n + 1] == q && q in s[w + n + 2..]
  {
    var w, n := Lead(s), NameAt(s);
    var e := w + n;
    if n > 0 && e + 1 < |s| && s[e] == '=' && s[e + 1] == q {
      var v := SpanWhile(s, e + 2, Except(q));
      if e + 2 + v < |s| {
        assert s[e + 2..][v] == q;
      } else {
        assert forall k | e + 2 <= k < |s| :: s[k] != q;
      }
    }
  }

  /** A quoted value runs to the first matching quote, spaces included. */
  lemma QuotedCaptures(s: string, q: char)
    ensures var r := Quoted(s, q);
      r.Some? ==>
        && r.value.whole == s[..Lead(s)] + (r.value.name + "=" + [q] + r.value.value + [q])
        && r.value.name != [] && All(r.value.name, Name)
        && q !in r.value.value
  {
    var r := Quoted(s, q);
    if r.Some? {
      var w, n := Lead(s), NameAt(s);
      var e := w + n;
      var v := SpanWhile(s, e + 2, Except(q));
      assert r.value == Hit(s[..e + 3 + v], s[w..e], s[e + 2..e + 2 + v]);
      QuotedShape(s, w, e, v, q);
      WithinAll(s, w, e, Name);
      RunExcludes(s, e + 2, v, q);
    }
  }

  /** An unquoted value is the longest run of non-space characters after `=`, possibly empty. */
  lemma UnquotedMeaning(s: string)
    ensures var r := Unquoted(s);
      && (r.Some? <==> var w, n := Lead(s), NameAt(s); n > 0 && w + n < |s| && s[w + n] == '=')
      && (r.Some? ==>
        && r.value.whole == s[..Lead(s)] + (r.value.name + "=" + r.value.value)
        && r.value.name != [] && All(r.value.name, Name)
        && ' ' !in r.value.value
        && (|r.value.whole| == |s| || s[|r.value.whole|] == ' '))
  {
    var r := Unquoted(s);
    if r.Some? {
      var w, n := Lead(s), NameAt(s);
      var v := SpanWhile(s, w + n + 1, Except(' '));
      UnquotedHit(s, w, n, v);
      UnquotedSplit(s, w, n, v);
    }
  }

  /** The pieces of an unquoted match, read off by position. */
  lemma UnquotedSplit(s: string, w: nat, n: nat, v: nat)
    requires w == Lead(s) && n == NameAt(s) && w + n + 1 <= |s| && v == SpanWhile(s, w + n + 1, Except(' '))
    requires s[w + n] == '='
    ensures s[..w + n + 1 + v] == s[..w] + (s[w..w + n] + "=" + s[w + n + 1..w + n + 1 + v])
    ensures All(s[w..w + n], Name) && ' ' !in s[w + n + 1..w + n + 1 + v]
    ensures w + n + 1 + v == |s| || s[w + n + 1 + v] == ' '
  {
    var e := w + n;
    UnquotedShape(s, w, e, v);
    WithinAll(s, w, e, Name);
    RunExcludes(s, e + 1, v, ' ');
    assert e + 1 + v == |s| || !In(s[e + 1 + v], Except(' '));
  }

  /** A bare name is matched whenever a name character follows the leading blanks, and is taken whole. */
  lemma BareMeaning(s: string)
    ensures var r := Bare(s);
      && (r.Some? <==> NameAt(s) > 0)
      && (r.Some? ==>
        && r.value.whole == s[..Lead(s)] + r.value.name
        && r.value.name != [] && All(r.value.name, Name)
        && (|r.value.whole| == |s| || !IsNameChar(s[|r.value.whole|])))
  {
  }

  /** The whitespace rule takes the whole leading run of blanks. */
  lemma SpacesMeaning(s: string)
    ensures var r := Spaces(s);
      && (r.Some? <==> s != [] && IsSpace(s[0]))
      && (r.Some? ==>
        && r.value.whole == s[..Lead(s)]
        && All(r.value.whole, Space)
        && (|r.value.whole| == |s| || !IsSpace(s[|r.value.whole|])))
  {
  }

  /** What the quoted rule returns once its name, `=` and opening quote are in place and a closing quote follows. */
  lemma QuotedHit(s: string, q: char, w: nat, n: nat, v: nat)
    requires w == Lead(s) && n == NameAt(s) && w + n + 2 <= |s| && v == SpanWhile(s, w + n + 2, Except(q))
    requires n > 0 && s[w + n] == '=' && s[w + n + 1] == q && w + n + 2 + v < |s|
    ensures var r := Quoted(s, q);
      && r.Some? && r.value.whole == s[..w + n + 3 + v]
      && r.value.name == s[w..w + n] && r.value.value == s[w + n + 2..w + n + 2 + v]
  {
  }

  /** The quoted rule's hit, with its captures named. */
  lemma QuotedIs(s: string, q: char, w: nat, n: nat, v: nat, name: string, value: string)
    requires w == Lead(s) && n == NameAt(s) && w + n + 2 <= |s| && v == SpanWhile(s, w + n + 2, Except(q))
    requires n > 0 && s[w + n] == '=' && s[w + n + 1] == q && w + n + 2 + v < |s|
    requires s[w..w + n] == name && s[w + n + 2..w + n + 2 + v] == value
    ensures Quoted(s, q) == Some(Hit(s[..w + n + 3 + v], name, value))
  {
    QuotedHit(s, q, w, n, v);
  }

  /** What the unquoted rule returns once its name and `=` are in place. */
  lemma UnquotedHit(s: string, w: nat, n: nat, v: nat)
    requires w == Lead(s) && n == NameAt(s) && w + n + 1 <= |s| && v == SpanWhile(s, w + n + 1, Except(' '))
    requires n > 0 && s[w + n] == '='
    ensures var r := Unquoted(s);
      && r.Some? && r.value.whole == s[..w + n + 1 + v]
      && r.value.name == s[w..w + n] && r.value.value == s[w + n + 1..w + n + 1 + v]
  {
  }

  /** The text a quoted match spans, cut at its name, `=`, quotes and value. */
  lemma QuotedShape(s: string, w: nat, e: nat, v: nat, q: char)
    requires w <= e && e + 2 + v < |s| && s[e] == '=' && s[e + 1] == q && s[e + 2 + v] == q
    ensures s[..e + 3 + v] == s[..w] + (s[w..e] + "=" + [q] + s[e + 2..e + 2 + v] + [q])
  {
    assert s[..e + 3 + v] == s[..w] + s[w..e] + [s[e]] + [s[e + 1]] + s[e + 2..e + 2 + v] + [s[e + 2 + v]];
  }

  /** The text an unquoted match spans, cut at its name, `=` and value. */
  lemma UnquotedShape(s: string, w: nat, e: nat, v: nat)
    requires w <= e && e + 1 + v <= |s| && s[e] == '='
    ensures s[..e + 1 + v] == s[..w] + (s[w..e] + "=" + s[e + 1..e + 1 + v])
  {
    assert s[..e + 1 + v] == s[..w] + s[w..e] + [s[e]] + s[e + 1..e + 1 + v];
  }

  /** A run read off by index is a run of the sliced string. */
  lemma WithinAll(s: string, i: nat, j: nat, k: CharClass)
    requires i <= j <= |s| && Within(s, i, j, k)
    ensures All(s[i..j], k)
  {
    var r := s[i..j];
    forall x | 0 <= x < |r| ensures In(r[x], k) {
      assert r[x] == s[i + x];
    }
  }

  /** A run of characters other than `c` does not contain `c`. */
  lemma RunExcludes(s: string, i: nat, n: nat, c: char)
    requires i + n <= |s| && Within(s, i, i + n, Except(c))
    ensures c !in s[i..i + n]
  {
    var r := s[i..i + n];
    forall j | 0 <= j < |r| ensures r[j] != c {
      assert r[j] == s[i + j] && In(s[i + j], Except(c));
    }
  }

  /** `\s*` takes a run of blanks ended by a non-blank or by the end. */
  lemma LeadAt(s: string, w: nat)
    requires w <= |s| && Within(s, 0, w, Space) && (w == |s| || !IsSpace(s[w]))
    ensures Lead(s) == w
  {
    SpanWhileExact(s, 0, w, Space);
  }

  /** The name group takes a run of name characters ended by another character or by the end. */
  lemma NameAtIs(s: string, n: nat)
    requires Lead(s) + n <= |s| && Within(s, Lead(s), Lead(s) + n, Name)
    requires Lead(s) + n == |s| || !IsNameChar(s[Lead(s) + n])
    ensures NameAt(s) == n
  {
    SpanWhileExact(s, Lead(s), n, Name);
  }

  /** The class or id rule's hit once its sigil and name are in place. */
  lemma SigiledIs(s: string, sigil: char, w: nat, n: nat, name: string)
    requires w == Lead(s) && w + 1 + n <= |s| && s[w] == sigil && n > 0
    requires SpanWhile(s, w + 1, Name) == n && s[w + 1..w + 1 + n] == name
    ensures Sigiled(s, sigil) == Some(Hit(s[..w + 1 + n], name, ""))
  {
    var r := Sigiled(s, sigil);
    assert r == Some(Hit(s[..w + 1 + n], s[w + 1..w + 1 + n], ""));
  }

  /** The bare-name rule's hit once its name is in place. */
  lemma BareIs(s: string, w: nat, n: nat, name: string)
    requires w == Lead(s) && n == NameAt(s) && n > 0 && s[w..w + n] == name
    ensures Bare(s) == Some(Hit(s[..w + n], name, ""))
  {
  }

  /** The whitespace rule's hit. */
  lemma SpacesIs(s: string, w: nat)
    requires w == Lead(s) && w > 0
    ensures Spaces(s) == Some(Hit(s[..w], "", ""))
  {
  }

  /** A piece of `s` that is a run of class `k`, read off by index. */
  lemma WithinOf(s: string, i: nat, x: string, k: CharClass)
    requires i + |x| <= |s| && s[i..i + |x|] == x && All(x, k)
    ensures Within(s, i, i + |x|, k)
  {
    forall j | i <= j < i + |x| ensures In(s[j], k) {
      assert s[j] == x[j - i];
    }
  }

  /** A slice of a piece of `s` is a slice of `s`. */
  lemma SliceOf(s: string, i: nat, x: string, a: nat, b: nat)
    requires i + |x| <= |s| && s[i..i + |x|] == x && a <= b <= |x|
    ensures s[i + a..i + b] == x[a..b]
  {
    forall j | 0 <= j < b - a ensures s[i + a..i + b][j] == x[a..b][j] {
      assert s[i..i + |x|][a + j] == s[i + a + j];
    }
  }
}
