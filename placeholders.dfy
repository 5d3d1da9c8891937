/**
  Placeholders: the `{{name}}` tokens of a template. The extractor finds them
  with `re.findall(r'\{\{[^{}]+\}\}', text)`, the renderer builds them with
  `f"{{{{{var_name}}}}}"`, and a stored field name becomes a context key with
  `strip('{} ')`.
  */
module Placeholders {
  import opened Wrappers
  import opened Text

  predicate IsBrace(c: char) {
    c == '{' || c == '}'
  }

  predicate NotBrace(c: char) {
    !IsBrace(c)
  }

  /** What `[^{}]+` matches: one or more characters, none of them a brace. */
  predicate IsName(n: string) {
    |n| > 0 && forall k :: 0 <= k < |n| ==> NotBrace(n[k])
  }

  /** The placeholder the renderer looks for when the context has key `name`. */
  function Token(name: string): string {
    "{{" + name + "}}"
  }

  /** A string the extraction pattern matches as a whole. */
  predicate IsToken(t: string) {
    |t| >= 5 && t == Token(t[2..|t| - 2]) && IsName(t[2..|t| - 2])
  }

  lemma TokenIsToken(n: string)
    requires IsName(n)
    ensures IsToken(Token(n))
  {
    var t := Token(n);
    assert t[2..|t| - 2] == n;
  }

  /** Length of the match of `\{\{[^{}]+\}\}` that starts at the first character of `s`, if there is one. */
  function MatchAt(s: string): (m: Option<nat>)
    ensures m.Some? ==> 5 <= m.value <= |s| && IsToken(s[..m.value])
  {
    if |s| >= 2 && s[0] == '{' && s[1] == '{' then
      var n := LeadingCount(s[2..], NotBrace);
      if n > 0 && 4 + n <= |s| && s[2 + n] == '}' && s[3 + n] == '}' then
        assert s[..4 + n] == Token(s[2..2 + n]);
        TokenIsToken(s[2..2 + n]);
        Some(4 + n)
      else
        None
    else
      None
  }

  /**
    `re.findall` with the placeholder pattern: scan from the left, take a match
    where one starts and resume after it, otherwise move one character on.
    */
  function FindTokens(s: string): seq<string>
    decreases |s|
  {
    if s == [] then
      []
    else
      match MatchAt(s)
      case Some(m) => [s[..m]] + FindTokens(s[m..])
      case None => FindTokens(s[1..])
  }

  /** Every result of the scan is a placeholder token that occurs in `s`. */
  lemma {:induction false} FindTokensSound(s: string)
    ensures forall k :: 0 <= k < |FindTokens(s)| ==> IsToken(FindTokens(s)[k]) && Contains(s, FindTokens(s)[k])
    decreases |s|
  {
    if s != [] {
      var ts := FindTokens(s);
      match MatchAt(s)
      case Some(m) =>
        var rest := FindTokens(s[m..]);
        FindTokensSound(s[m..]);
        ContainsInSuffix(s, m);
        assert StartsAt(s, s[..m], 0) by { assert s[0..m] == s[..m]; }
        assert ts == [s[..m]] + rest;
        forall k | 0 <= k < |ts| ensures IsToken(ts[k]) && Contains(s, ts[k]) {
          if k > 0 {
            assert ts[k] == rest[k - 1];
          }
        }
      case None =>
        FindTokensSound(s[1..]);
        ContainsInSuffix(s, 1);
    }
  }

  /** A stretch of text without `{` holds no token and is skipped by the scan. */
  lemma {:induction false} FindTokensSkipsPlain(u: string, w: string)
    requires '{' !in u
    ensures FindTokens(u + w) == FindTokens(w)
    decreases |u|
  {
    if u == [] {
      assert u + w == w;
    } else {
      var s := u + w;
      assert s[0] == u[0];
      assert MatchAt(s).None?;
      assert FindTokens(s) == FindTokens(s[1..]);
      assert s[1..] == u[1..] + w;
      assert '{' !in u[1..] by {
        forall k | 0 <= k < |u| - 1 ensures u[1..][k] != '{' { assert u[1..][k] == u[k + 1]; }
      }
      FindTokensSkipsPlain(u[1..], w);
    }
  }

  /** A token followed by anything is matched as a whole. */
  lemma FindTokensAtToken(n: string, w: string)
    requires IsName(n)
    ensures FindTokens(Token(n) + w) == [Token(n)] + FindTokens(w)
  {
    var s := Token(n) + w;
    var rest := s[2..];
    assert rest == n + "}}" + w;
    var k := LeadingCount(rest, NotBrace);
    assert rest[|n|] == '}';
    assert forall j :: 0 <= j < |n| ==> rest[j] == n[j];
    assert k == |n|;
    assert MatchAt(s) == Some(4 + |n|);
    assert s[..4 + |n|] == Token(n);
    assert s[4 + |n|..] == w;
  }

  /**
    The text of a template paragraph seen as pieces: plain text without `{`,
    and placeholder tokens. Every paragraph written this way renders and
    extracts predictably.
    */
  datatype Piece = Plain(text: string) | Placeholder(name: string)

  predicate WellFormedPiece(p: Piece) {
    match p
    case Plain(t) => '{' !in t
    case Placeholder(n) => IsName(n)
  }

  predicate WellFormed(ps: seq<Piece>) {
    forall i :: 0 <= i < |ps| ==> WellFormedPiece(ps[i])
  }

  function PieceText(p: Piece): string {
    match p
    case Plain(t) => t
    case Placeholder(n) => Token(n)
  }

  /** The paragraph text the pieces make up. */
  function Render(ps: seq<Piece>): string {
    if ps == [] then "" else PieceText(ps[0]) + Render(ps[1..])
  }

  lemma RenderCons(p: Piece, rest: seq<Piece>)
    ensures Render([p] + rest) == PieceText(p) + Render(rest)
  {
    assert ([p] + rest)[1..] == rest;
  }

  /** The tokens among the pieces, in order. */
  function TokensOf(ps: seq<Piece>): seq<string> {
    if ps == [] then []
    else (if ps[0].Placeholder? then [Token(ps[0].name)] else []) + TokensOf(ps[1..])
  }

  /** Extraction finds exactly the placeholder pieces of a well-formed text, in order. */
  lemma {:induction false} ExtractWellFormed(ps: seq<Piece>)
    requires WellFormed(ps)
    ensures FindTokens(Render(ps)) == TokensOf(ps)
  {
    if ps != [] {
      assert WellFormedPiece(ps[0]);
      assert WellFormed(ps[1..]) by {
        forall i | 0 <= i < |ps| - 1 ensures WellFormedPiece(ps[1..][i]) {
          assert ps[1..][i] == ps[i + 1];
        }
      }
      ExtractWellFormed(ps[1..]);
      match ps[0]
      case Plain(t) => FindTokensSkipsPlain(t, Render(ps[1..]));
      case Placeholder(n) => FindTokensAtToken(n, Render(ps[1..]));
    }
  }

  /** The characters `strip('{} ')` removes from a stored field name. */
  predicate KeyTrim(c: char) {
    c == '{' || c == '}' || c == ' '
  }

  /** The context key of a stored field name: `field_name.strip('{} ')`. */
  function NormaliseKey(field: string): string {
    Strip(field, KeyTrim)
  }

  /**
    Whatever braces and spaces surround a name, the key is the name itself,
    provided the name neither starts nor ends with one of them.
    */
  lemma KeyOfWrappedName(a: string, n: string, b: string)
    requires forall k :: 0 <= k < |a| ==> KeyTrim(a[k])
    requires forall k :: 0 <= k < |b| ==> KeyTrim(b[k])
    requires n != [] ==> !KeyTrim(n[0]) && !KeyTrim(n[|n| - 1])
    ensures NormaliseKey(a + n + b) == n
  {
    StripUnique(a, n, b, KeyTrim);
  }

  /**
    Round trip between extraction and rendering: for a token whose name does
    not start or end with a space, the key it is stored under rebuilds the
    token exactly.
    */
  lemma TokenKeyRoundTrip(n: string)
    requires IsName(n) && n[0] != ' ' && n[|n| - 1] != ' '
    ensures NormaliseKey(Token(n)) == n
    ensures Token(NormaliseKey(Token(n))) == Token(n)
  {
    KeyOfWrappedName("{{", n, "}}");
  }

  /**
    A token written with a space just inside its braces, such as `{{ name }}`,
    is extracted as it stands, but its key rebuilds a different placeholder,
    so the renderer never finds it in the text.
    */
  lemma SpacedTokenNotRebuilt(n: string)
    requires IsName(n) && n[0] != ' ' && n[|n| - 1] != ' '
    ensures IsToken(Token(" " + n + " "))
    ensures NormaliseKey(Token(" " + n + " ")) == n
    ensures Token(NormaliseKey(Token(" " + n + " "))) != Token(" " + n + " ")
  {
    var m := " " + n + " ";
    assert IsName(m) by {
      forall k | 0 <= k < |m| ensures NotBrace(m[k]) {
        if 0 < k < |m| - 1 { assert m[k] == n[k - 1]; }
      }
    }
    TokenIsToken(m);
    assert Token(m) == "{{ " + n + " }}";
    KeyOfWrappedName("{{ ", n, " }}");
    assert |Token(n)| != |Token(m)|;
  }
}
