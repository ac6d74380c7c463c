/**
 * The comma splitter the value and assignment parsers run their input through:
 * a POSIX-mode shell lexer whose only whitespace character is the comma.
 * Commas outside quotes separate tokens; a single or double quote opens a quoted
 * span that runs to the next quote of the same kind, inside which a comma is an
 * ordinary character; the quote characters that open and close a span are not
 * part of the token; an unterminated span is an error.
 */
module Lexer {
  import opened Wrappers

  datatype LexError = NoClosingQuotation

  const Delimiter: char := ','

  predicate IsQuote(c: char) {
    c == '"' || c == '\''
  }

  /** Outside any quoted span, or inside one opened by `quote`. */
  datatype Mode = Bare | Quoting(quote: char)

  /** Adds `t` to the front of the first token. */
  function Prepend(t: string, r: Result<seq<string>, LexError>): (r': Result<seq<string>, LexError>)
    requires r.Ok? ==> |r.value| >= 1
    ensures r'.Ok? <==> r.Ok?
    ensures r'.Ok? ==> |r'.value| == |r.value|
  {
    match r
    case Ok(ts) => Ok([t + ts[0]] + ts[1..])
    case Err(e) => Err(e)
  }

  /**
   * The tokens of `s` read in `mode`. The first token is the one under
   * construction, so a successful result always has at least one token.
   */
  function LexFrom(s: string, mode: Mode): (r: Result<seq<string>, LexError>)
    ensures r.Ok? ==> |r.value| >= 1
  {
    if s == [] then
      if mode.Bare? then Ok([""]) else Err(NoClosingQuotation)
    else
      match mode
      case Bare =>
        if s[0] == Delimiter then
          match LexFrom(s[1..], Bare)
          case Ok(ts) => Ok([""] + ts)
          case Err(e) => Err(e)
        else if IsQuote(s[0]) then LexFrom(s[1..], Quoting(s[0]))
        else Prepend([s[0]], LexFrom(s[1..], Bare))
      case Quoting(q) =>
        if s[0] == q then LexFrom(s[1..], Bare)
        else Prepend([s[0]], LexFrom(s[1..], Quoting(q)))
  }

  /** Splits `s` into its comma-separated tokens. */
  function Split(s: string): (r: Result<seq<string>, LexError>)
    ensures r.Ok? ==> |r.value| >= 1
  {
    LexFrom(s, Bare)
  }

  /** The pieces an input to the splitter is made of. */
  datatype Piece = Plain(text: string) | Quoted(quote: char, text: string) | Comma

  /** Plain text holds no comma and no quote; quoted text holds no quote of its own kind. */
  predicate WellFormed(p: Piece) {
    match p
    case Plain(t) => forall i :: 0 <= i < |t| ==> t[i] != Delimiter && !IsQuote(t[i])
    case Quoted(q, t) => IsQuote(q) && q !in t
    case Comma => true
  }

  predicate AllWellFormed(ps: seq<Piece>) {
    forall i :: 0 <= i < |ps| ==> WellFormed(ps[i])
  }

  /** The text the pieces are written as. */
  function Render(ps: seq<Piece>): string {
    if ps == [] then []
    else
      match ps[0]
      case Plain(t) => t + Render(ps[1..])
      case Quoted(q, t) => [q] + t + [q] + Render(ps[1..])
      case Comma => [Delimiter] + Render(ps[1..])
  }

  function CommaCount(ps: seq<Piece>): nat {
    if ps == [] then 0 else (if ps[0].Comma? then 1 else 0) + CommaCount(ps[1..])
  }

  /**
   * The tokens the pieces stand for: the commas separate them, and each token is
   * the concatenated text of the pieces between two commas, quotes removed.
   */
  function TokensOf(ps: seq<Piece>): (ts: seq<string>)
    ensures |ts| == CommaCount(ps) + 1
  {
    if ps == [] then [""]
    else
      var rest := TokensOf(ps[1..]);
      match ps[0]
      case Comma => [""] + rest
      case Plain(t) => [t + rest[0]] + rest[1..]
      case Quoted(_, t) => [t + rest[0]] + rest[1..]
  }

  lemma PrependPrepend(a: string, b: string, r: Result<seq<string>, LexError>)
    requires r.Ok? ==> |r.value| >= 1
    ensures Prepend(a, Prepend(b, r)) == Prepend(a + b, r)
  {
    if r.Ok? {
      assert a + (b + r.value[0]) == (a + b) + r.value[0];
    }
  }

  /** A text without commas or quotes is one token, itself. */
  lemma SplitPlain(s: string)
    requires WellFormed(Plain(s))
    ensures Split(s) == Ok([s])
  {
    LexPlain(s, []);
    assert s + [] == s;
    assert LexFrom([], Bare) == Ok([""]);
    assert [s + ""] + [""][1..] == [s];
  }

  /** Plain text goes to the front of the first token. */
  lemma {:induction false} LexPlain(t: string, x: string)
    requires WellFormed(Plain(t))
    ensures LexFrom(t + x, Bare) == Prepend(t, LexFrom(x, Bare))
  {
    if t == [] {
      assert t + x == x;
      var r := LexFrom(x, Bare);
      if r.Ok? {
        assert t + r.value[0] == r.value[0];
        assert [r.value[0]] + r.value[1..] == r.value;
      }
    } else {
      assert (t + x)[0] == t[0];
      assert (t + x)[1..] == t[1..] + x;
      LexPlain(t[1..], x);
      PrependPrepend([t[0]], t[1..], LexFrom(x, Bare));
      assert [t[0]] + t[1..] == t;
    }
  }

  /** The body of a quoted span, up to its closing quote, goes to the front of the first token. */
  lemma {:induction false} LexQuotedBody(q: char, t: string, x: string)
    requires q !in t
    ensures LexFrom(t + [q] + x, Quoting(q)) == Prepend(t, LexFrom(x, Bare))
  {
    if t == [] {
      assert t + [q] + x == [q] + x;
      assert ([q] + x)[1..] == x;
      var r := LexFrom(x, Bare);
      if r.Ok? {
        assert t + r.value[0] == r.value[0];
        assert [r.value[0]] + r.value[1..] == r.value;
      }
    } else {
      assert (t + [q] + x)[0] == t[0];
      assert (t + [q] + x)[1..] == t[1..] + [q] + x;
      LexQuotedBody(q, t[1..], x);
      PrependPrepend([t[0]], t[1..], LexFrom(x, Bare));
      assert [t[0]] + t[1..] == t;
    }
  }

  /** A quoted span that is never closed makes the split fail. */
  lemma {:induction false} LexUnclosed(q: char, t: string)
    requires q !in t
    ensures LexFrom(t, Quoting(q)).Err?
  {
    if t != [] {
      LexUnclosed(q, t[1..]);
    }
  }

  /**
   * Splitting the rendered pieces gives back exactly their tokens: commas inside
   * quoted spans do not split, and the quotes themselves are dropped.
   */
  lemma {:induction false} SplitRender(ps: seq<Piece>)
    requires AllWellFormed(ps)
    ensures Split(Render(ps)) == Ok(TokensOf(ps))
  {
    if ps != [] {
      var rest := Render(ps[1..]);
      SplitRender(ps[1..]);
      match ps[0]
      case Plain(t) =>
        LexPlain(t, rest);
      case Quoted(q, t) =>
        var s := [q] + t + [q] + rest;
        assert s[0] == q && s[1..] == t + [q] + rest;
        LexQuotedBody(q, t, rest);
      case Comma =>
        assert ([Delimiter] + rest)[1..] == rest;
    }
  }

  /** A quote that is opened after well-formed pieces and never closed makes the split fail. */
  lemma {:induction false} SplitUnterminated(ps: seq<Piece>, q: char, t: string)
    requires AllWellFormed(ps) && IsQuote(q) && q !in t
    ensures Split(Render(ps) + [q] + t).Err?
  {
    if ps == [] {
      assert Render(ps) + [q] + t == [q] + t;
      assert ([q] + t)[1..] == t;
      LexUnclosed(q, t);
    } else {
      var tail := Render(ps[1..]) + [q] + t;
      SplitUnterminated(ps[1..], q, t);
      match ps[0]
      case Plain(u) =>
        assert Render(ps) + [q] + t == u + tail by {
          assert Render(ps) == u + Render(ps[1..]);
        }
        LexPlain(u, tail);
      case Quoted(q', u) =>
        var s := [q'] + u + [q'] + tail;
        assert Render(ps) + [q] + t == s by {
          assert Render(ps) == [q'] + u + [q'] + Render(ps[1..]);
        }
        assert s[0] == q' && s[1..] == u + [q'] + tail;
        LexQuotedBody(q', u, tail);
      case Comma =>
        assert Render(ps) + [q] + t == [Delimiter] + tail by {
          assert Render(ps) == [Delimiter] + Render(ps[1..]);
        }
        assert ([Delimiter] + tail)[1..] == tail;
    }
  }

  predicate CommaFree(ps: seq<Piece>) {
    forall i :: 0 <= i < |ps| ==> !ps[i].Comma?
  }

  /** The text of comma-free pieces with the quotes removed: the token they make up. */
  function TextOf(ps: seq<Piece>): string {
    if ps == [] then []
    else
      match ps[0]
      case Comma => TextOf(ps[1..])
      case Plain(t) => t + TextOf(ps[1..])
      case Quoted(_, t) => t + TextOf(ps[1..])
  }

  /** Groups of pieces written one after another, with a comma between neighbours. */
  function Joined(groups: seq<seq<Piece>>): seq<Piece> {
    if groups == [] then []
    else if |groups| == 1 then groups[0]
    else groups[0] + [Comma] + Joined(groups[1..])
  }

  lemma {:induction false} JoinedWellFormed(groups: seq<seq<Piece>>)
    requires forall i :: 0 <= i < |groups| ==> AllWellFormed(groups[i])
    ensures AllWellFormed(Joined(groups))
  {
    if |groups| > 1 {
      JoinedWellFormed(groups[1..]);
    }
  }

  /** Comma-free pieces all go into the first token. */
  lemma {:induction false} TokensOfCommaFree(g: seq<Piece>, rest: seq<Piece>)
    requires CommaFree(g)
    ensures var r := TokensOf(rest); TokensOf(g + rest) == [TextOf(g) + r[0]] + r[1..]
  {
    var r := TokensOf(rest);
    if g == [] {
      assert g + rest == rest;
      assert TextOf(g) + r[0] == r[0];
      assert [r[0]] + r[1..] == r;
    } else {
      assert (g + rest)[0] == g[0];
      assert (g + rest)[1..] == g[1..] + rest;
      TokensOfCommaFree(g[1..], rest);
      var r' := TokensOf(g[1..] + rest);
      assert !g[0].Comma?;
      assert TokensOf(g + rest) == [g[0].text + r'[0]] + r'[1..];
      assert TextOf(g) == g[0].text + TextOf(g[1..]);
      assert r'[0] == TextOf(g[1..]) + r[0] && r'[1..] == r[1..];
      assert g[0].text + (TextOf(g[1..]) + r[0]) == TextOf(g) + r[0];
    }
  }

  /** Each comma-free group of a comma-joined list becomes one token. */
  lemma {:induction false} TokensOfJoined(groups: seq<seq<Piece>>)
    requires |groups| >= 1
    requires forall i :: 0 <= i < |groups| ==> CommaFree(groups[i])
    ensures TokensOf(Joined(groups)) == seq(|groups|, i requires 0 <= i < |groups| => TextOf(groups[i]))
  {
    var g := groups[0];
    if |groups| == 1 {
      TokensOfCommaFree(g, []);
      assert g + [] == g;
      assert TokensOf([]) == [""];
      assert TextOf(g) + "" == TextOf(g);
    } else {
      var rest := [Comma] + Joined(groups[1..]);
      assert Joined(groups) == g + rest;
      TokensOfCommaFree(g, rest);
      assert rest[0] == Comma && rest[1..] == Joined(groups[1..]);
      TokensOfJoined(groups[1..]);
      var tail := TokensOf(Joined(groups[1..]));
      assert TokensOf(rest) == [""] + tail;
      assert TextOf(g) + "" == TextOf(g);
      assert TokensOf(Joined(groups)) == [TextOf(g)] + tail;
    }
  }
}
