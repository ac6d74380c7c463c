/**
 * The literal and expression parser: turns a raw token into a typed value, a
 * parenthesised value list into a list of values, a `column = value` filter into
 * a one-entry mapping, and a comma-separated assignment list into an ordered
 * column-to-value mapping.
 */
module Parser {
  import opened Wrappers
  import opened Text
  import OrderedMap
  import Lexer

  /** The three kinds of value a literal can denote. */
  datatype Value = Int(i: int) | Bool(b: bool) | Str(s: string)

  datatype ParseError =
    | UnclosedQuote               // the comma splitter met a quote that is never closed
    | NotAFilter                  // a filter without `=`; the message does not name the segment
    | MissingEquals(text: string) // an assignment without `=`, named in the message

  // ----- Literals -----

  /** At least two characters, starting and ending with the same kind of quote. */
  predicate IsQuotedToken(token: string) {
    |token| >= 2 && Lexer.IsQuote(token[0]) && token[|token| - 1] == token[0]
  }

  predicate IsDigit(c: char) {
    '0' <= c <= '9'
  }

  /** `str.isdigit()` on ASCII: non-empty and only digits. */
  predicate IsDigits(s: string) {
    |s| >= 1 && forall i :: 0 <= i < |s| ==> IsDigit(s[i])
  }

  /** Digits, or a single `-` followed by digits. */
  predicate IsIntegerToken(token: string) {
    IsDigits(token) || (|token| >= 1 && token[0] == '-' && IsDigits(token[1..]))
  }

  /**
   * The most digits `int()` converts from a string: Python's default
   * `sys.get_int_max_str_digits()`. A longer digit string makes `int()` raise
   * `ValueError`, leading zeros counted.
   */
  const MaxIntDigits: nat := 4300

  /** The digits of an integer token, without its sign. */
  function DigitCount(token: string): nat
    requires IsIntegerToken(token)
  {
    if IsDigits(token) then |token| else |token| - 1
  }

  /** An integer token that `int()` converts: one with at most `MaxIntDigits` digits. */
  predicate ReadsAsInt(token: string) {
    IsIntegerToken(token) && DigitCount(token) <= MaxIntDigits
  }

  /** Spells `true` or `false` in any mix of upper and lower case. */
  predicate IsBooleanToken(token: string) {
    Lower(token) == "true" || Lower(token) == "false"
  }

  function DigitValue(c: char): nat
    requires IsDigit(c)
  {
    c as int - '0' as int
  }

  /** The number a string of decimal digits denotes (leading zeros allowed). */
  function DigitsValue(s: string): nat
    requires forall i :: 0 <= i < |s| ==> IsDigit(s[i])
  {
    if s == [] then 0 else DigitsValue(s[..|s| - 1]) * 10 + DigitValue(s[|s| - 1])
  }

  /** `int(token)` for an integer token. */
  function IntegerValue(token: string): int
    requires IsIntegerToken(token)
  {
    if IsDigits(token) then DigitsValue(token) else -(DigitsValue(token[1..]) as int)
  }

  /**
   * `_parse_literal`: the rules are tried in order — a quoted token is its
   * interior as text, then a boolean spelling, then an integer that `int()`
   * converts, and anything else is the token itself as text. It never fails.
   */
  function ParseLiteral(token: string): (v: Value)
    ensures v.Int? <==> ReadsAsInt(token)
    ensures v.Bool? <==> IsBooleanToken(token)
  {
    assert IsQuotedToken(token) ==> !IsIntegerToken(token) && Lower(token)[0] == token[0];
    if IsQuotedToken(token) then Str(token[1..|token| - 1])
    else if Lower(token) == "true" then Bool(true)
    else if Lower(token) == "false" then Bool(false)
    else if ReadsAsInt(token) then Int(IntegerValue(token))
    else Str(token)
  }

  function DigitChar(d: nat): char
    requires d < 10
  {
    ('0' as int + d) as char
  }

  /** The decimal digits of `n`, without leading zeros. */
  function NatToken(n: nat): (s: string)
    ensures IsDigits(s)
  {
    if n < 10 then [DigitChar(n)] else NatToken(n / 10) + [DigitChar(n % 10)]
  }

  /** How an integer is written: `str(n)`. */
  function IntToken(n: int): string {
    if n < 0 then "-" + NatToken(-n) else NatToken(n)
  }

  /** `n` has at most `MaxIntDigits` decimal digits, so its writing converts back. */
  predicate Convertible(n: int) {
    |NatToken(if n < 0 then -n else n)| <= MaxIntDigits
  }

  /** How a boolean is written in lower case. */
  function BoolToken(b: bool): string {
    if b then "true" else "false"
  }

  lemma {:induction false} DigitsValueOfNatToken(n: nat)
    ensures DigitsValue(NatToken(n)) == n
  {
    if n >= 10 {
      DigitsValueOfNatToken(n / 10);
      var s := NatToken(n);
      assert s[..|s| - 1] == NatToken(n / 10);
    }
  }

  /** A quoted token yields its interior as text, whatever that interior is. */
  lemma LiteralOfQuoted(q: char, s: string)
    requires Lexer.IsQuote(q)
    ensures ParseLiteral([q] + s + [q]) == Str(s)
  {
    var t := [q] + s + [q];
    assert IsQuotedToken(t);
    assert t[1..|t| - 1] == s;
  }

  /** A written integer of at most `MaxIntDigits` digits reads back as that integer. */
  lemma LiteralOfInt(n: int)
    requires Convertible(n)
    ensures ParseLiteral(IntToken(n)) == Int(n)
  {
    var t := IntToken(n);
    if n < 0 {
      DigitsValueOfNatToken(-n);
      assert t[1..] == NatToken(-n);
      assert !IsDigits(t) by { assert !IsDigit(t[0]); }
    } else {
      DigitsValueOfNatToken(n);
    }
    assert !IsBooleanToken(t) by {
      assert Lower(t)[0] == LowerChar(t[0]);
    }
    assert !IsQuotedToken(t);
  }

  /** Any spelling of `true` or `false`, whatever its case, reads as that boolean. */
  lemma LiteralOfBoolean(token: string, b: bool)
    requires Lower(token) == BoolToken(b)
    ensures ParseLiteral(token) == Bool(b)
  {
    assert LowerChar(token[0]) == Lower(token)[0];
    assert !IsQuotedToken(token);
  }

  /** A token is returned unchanged as text exactly when no rule applies to it. */
  lemma LiteralUnchanged(token: string)
    ensures ParseLiteral(token) == Str(token) <==>
      !IsQuotedToken(token) && !IsBooleanToken(token) && !ReadsAsInt(token)
  {
  }

  /**
   * Digits beyond `MaxIntDigits` make `int()` fail, and the token, signed or
   * not, comes back unchanged as text.
   */
  lemma TooManyDigitsIsText(digits: string)
    requires IsDigits(digits) && |digits| > MaxIntDigits
    ensures ParseLiteral(digits) == Str(digits)
    ensures ParseLiteral("-" + digits) == Str("-" + digits)
  {
    var t := "-" + digits;
    assert t[1..] == digits;
    assert !IsDigits(t) by { assert !IsDigit(t[0]); }
    LongIntegerIsText(digits);
    LongIntegerIsText(t);
  }

  /** An integer token with too many digits matches no rule of `_parse_literal`. */
  lemma LongIntegerIsText(token: string)
    requires IsIntegerToken(token) && DigitCount(token) > MaxIntDigits
    ensures ParseLiteral(token) == Str(token)
  {
    assert !IsQuotedToken(token) by {
      assert IsDigit(token[|token| - 1]);
    }
    assert !IsBooleanToken(token) by {
      assert |Lower(token)| == |token| > 5;
    }
  }

  /** A quoted boolean stays text: the quote rule comes first. */
  lemma QuotedBooleanIsText()
    ensures ParseLiteral("\"true\"") == Str("true")
    ensures ParseLiteral("'FALSE'") == Str("FALSE")
  {
    LiteralOfQuoted('"', "true");
    LiteralOfQuoted('\'', "FALSE");
  }

  /** The boolean rule ignores case. */
  lemma MixedCaseBoolean()
    ensures ParseLiteral("TrUe") == Bool(true)
  {
    LiteralOfBoolean("TrUe", true);
  }

  /** A lone `-`, the empty token and a `+` sign are not integers and come back as text. */
  lemma NonIntegersAreText()
    ensures ParseLiteral("-") == Str("-")
    ensures ParseLiteral("") == Str("")
    ensures ParseLiteral("+5") == Str("+5")
  {
    assert !IsDigits("+5") by { assert !IsDigit("+5"[0]); }
  }

  /** Leading zeros are allowed, after a `-` as well. */
  lemma LeadingZeros()
    ensures ParseLiteral("-007") == Int(-7)
  {
    assert IsDigits("007");
    assert "-007"[1..] == "007";
    assert DigitsValue("007") == 7 by {
      assert "007"[..2] == "00" && "00"[..1] == "0" && "0"[..0] == "";
    }
  }

  // ----- Value lists -----

  /** A token as the value and assignment parsers keep it: non-blank and stripped. */
  predicate Tidy(t: string) {
    t != [] && Unpadded(t)
  }

  /** The tokens that are not blank, each stripped, in their original order. */
  function NonBlank(tokens: seq<string>): (r: seq<string>)
    ensures |r| <= |tokens|
    ensures forall i :: 0 <= i < |r| ==> Tidy(r[i])
    ensures r == [] <==> forall i :: 0 <= i < |tokens| ==> Strip(tokens[i]) == []
  {
    if tokens == [] then []
    else
      var t := Strip(tokens[0]);
      StripIsUnpadded(tokens[0]);
      if t == [] then NonBlank(tokens[1..]) else [t] + NonBlank(tokens[1..])
  }

  lemma {:induction false} NonBlankKeeps(tokens: seq<string>)
    requires forall i :: 0 <= i < |tokens| ==> Tidy(tokens[i])
    ensures NonBlank(tokens) == tokens
  {
    if tokens != [] {
      StripUnpadded(tokens[0]);
      NonBlankKeeps(tokens[1..]);
      assert [tokens[0]] + tokens[1..] == tokens;
    }
  }

  /** The non-empty texts of `ts`, in order. */
  function Nonempty(ts: seq<string>): (r: seq<string>)
    ensures |r| <= |ts|
    ensures forall i :: 0 <= i < |r| ==> r[i] != []
  {
    if ts == [] then []
    else if ts[0] == [] then Nonempty(ts[1..])
    else [ts[0]] + Nonempty(ts[1..])
  }

  lemma {:induction false} NonemptyKeeps(ts: seq<string>)
    requires forall i :: 0 <= i < |ts| ==> ts[i] != []
    ensures Nonempty(ts) == ts
  {
    if ts != [] {
      NonemptyKeeps(ts[1..]);
      assert [ts[0]] + ts[1..] == ts;
    }
  }

  /** `token` is the unpadded text `t` with whitespace `pre` before it and `post` after it. */
  predicate Pads(token: string, pre: string, t: string, post: string) {
    token == pre + t + post && AllSpace(pre) && AllSpace(post) && Unpadded(t)
  }

  /**
   * Stripping and dropping blanks: when each token is an unpadded text with
   * whitespace around it, the kept tokens are exactly the non-empty texts, in order.
   */
  lemma {:induction false} NonBlankPadded(tokens: seq<string>, pre: seq<string>, ts: seq<string>, post: seq<string>)
    requires |pre| == |ts| == |post| == |tokens|
    requires forall i :: 0 <= i < |tokens| ==> Pads(tokens[i], pre[i], ts[i], post[i])
    ensures NonBlank(tokens) == Nonempty(ts)
  {
    if tokens != [] {
      assert Pads(tokens[0], pre[0], ts[0], post[0]);
      StripPadded(pre[0], ts[0], post[0]);
      NonBlankPadded(tokens[1..], pre[1..], ts[1..], post[1..]);
    }
  }

  /** Drops one enclosing pair of parentheses, only when both are there. */
  function Unparenthesize(text: string): string {
    if |text| >= 2 && text[0] == '(' && text[|text| - 1] == ')' then text[1..|text| - 1] else text
  }

  function Literals(tokens: seq<string>): (vs: seq<Value>)
    ensures |vs| == |tokens|
  {
    seq(|tokens|, i requires 0 <= i < |tokens| => ParseLiteral(tokens[i]))
  }

  /** Splits an unwrapped value list on its commas and reads every non-blank stripped token as a literal. */
  function SplitValues(text: string): (r: Result<seq<Value>, ParseError>)
    ensures r.Err? <==> Lexer.Split(text).Err?
    ensures r.Ok? ==> |r.value| <= |Lexer.Split(text).value|
  {
    match Lexer.Split(text)
    case Err(_) => Err(UnclosedQuote)
    case Ok(tokens) => Ok(Literals(NonBlank(tokens)))
  }

  /**
   * `parse_values`: strip, drop one enclosing pair of parentheses, split on the
   * commas outside quotes, and read every non-blank stripped token as a literal.
   */
  function ParseValues(segment: string): (r: Result<seq<Value>, ParseError>)
    ensures var tokens := Lexer.Split(Unparenthesize(Strip(segment)));
      && (r.Err? <==> tokens.Err?)
      && (r.Ok? ==> |r.value| <= |tokens.value|)
  {
    SplitValues(Unparenthesize(Strip(segment)))
  }

  /**
   * The stripped segment loses its first and last character when they are `(`
   * and `)`; when only one of them is there, or neither, the whole stripped
   * segment is split.
   */
  lemma ParseValuesParentheses(segment: string)
    ensures var t := Strip(segment);
      |t| >= 2 && t[0] == '(' && t[|t| - 1] == ')' ==> ParseValues(segment) == SplitValues(t[1..|t| - 1])
    ensures var t := Strip(segment);
      !(|t| >= 2 && t[0] == '(' && t[|t| - 1] == ')') ==> ParseValues(segment) == SplitValues(t)
  {
  }

  /** How a value is written in a list: integers and booleans bare, text in double quotes. */
  function ListPiece(v: Value): Lexer.Piece {
    match v
    case Int(n) => Lexer.Plain(IntToken(n))
    case Bool(b) => Lexer.Plain(BoolToken(b))
    case Str(s) => Lexer.Quoted('"', s)
  }

  /**
   * A value that survives being written in a list. The splitter removes the
   * quotes and the tokens are stripped and blanks dropped before the literal rules
   * run, so a text value must hold no double quote, be non-empty and unpadded, and
   * not read as anything else; an integer must have few enough digits for `int()`.
   */
  predicate Listable(v: Value) {
    && (v.Int? ==> Convertible(v.i))
    && (v.Str? ==> '"' !in v.s && Tidy(v.s) && ParseLiteral(v.s) == v)
  }

  /** The groups of pieces a list is written as: each value, after a space from the second on. */
  function ValueGroups(vs: seq<Value>): seq<seq<Lexer.Piece>> {
    seq(|vs|, i requires 0 <= i < |vs| => if i == 0 then [ListPiece(vs[i])] else [Lexer.Plain(" "), ListPiece(vs[i])])
  }

  /** `(v1, v2, ...)`. */
  function FormatValues(vs: seq<Value>): string {
    "(" + Lexer.Render(Lexer.Joined(ValueGroups(vs))) + ")"
  }

  lemma IntTokenShape(n: int)
    ensures Lexer.WellFormed(Lexer.Plain(IntToken(n)))
    ensures Tidy(IntToken(n))
  {
    var t := IntToken(n);
    if n < 0 {
      assert t == "-" + NatToken(-n);
      assert forall i :: 1 <= i < |t| ==> t[i] == NatToken(-n)[i - 1];
    }
  }

  /** A value written as a token reads back as that value. */
  lemma ListPieceReadsBack(v: Value)
    requires Listable(v)
    ensures Lexer.AllWellFormed([ListPiece(v)]) && Lexer.CommaFree([ListPiece(v)])
    ensures var t := Lexer.TextOf([ListPiece(v)]); Tidy(t) && ParseLiteral(t) == v
  {
    var p := ListPiece(v);
    assert Lexer.TextOf([p]) == p.text by {
      assert Lexer.TextOf([p]) == p.text + Lexer.TextOf([]);
      assert p.text + [] == p.text;
    }
    match v
    case Int(n) => IntTokenReadsBack(n);
    case Bool(b) => BoolTokenReadsBack(b);
    case Str(s) =>
  }

  lemma IntTokenReadsBack(n: int)
    requires Convertible(n)
    ensures Lexer.WellFormed(Lexer.Plain(IntToken(n))) && Tidy(IntToken(n))
    ensures ParseLiteral(IntToken(n)) == Int(n)
  {
    IntTokenShape(n);
    LiteralOfInt(n);
  }

  lemma BoolTokenReadsBack(b: bool)
    ensures Lexer.WellFormed(Lexer.Plain(BoolToken(b))) && Tidy(BoolToken(b))
    ensures ParseLiteral(BoolToken(b)) == Bool(b)
  {
    assert forall i :: 0 <= i < |BoolToken(b)| ==> 'a' <= BoolToken(b)[i] <= 'z';
    LowerOfBoolToken(b);
    LiteralOfBoolean(BoolToken(b), b);
  }

  lemma LowerOfBoolToken(b: bool)
    ensures Lower(BoolToken(b)) == BoolToken(b)
  {
    var t := BoolToken(b);
    assert forall i :: 0 <= i < |t| ==> 'a' <= t[i] <= 'z';
  }

  /**
   * A list written as comma-joined groups of pieces parses to the literals of
   * the groups' texts, each stripped, blank ones dropped, in order.
   */
  lemma {:induction false} ParseJoinedList(groups: seq<seq<Lexer.Piece>>)
    requires forall i :: 0 <= i < |groups| ==> Lexer.AllWellFormed(groups[i]) && Lexer.CommaFree(groups[i])
    ensures ParseValues("(" + Lexer.Render(Lexer.Joined(groups)) + ")")
         == Ok(Literals(NonBlank(seq(|groups|, i requires 0 <= i < |groups| => Lexer.TextOf(groups[i])))))
  {
    var inner := Lexer.Render(Lexer.Joined(groups));
    var text := "(" + inner + ")";
    StripUnpadded(text);
    assert Unparenthesize(text) == inner;
    Lexer.JoinedWellFormed(groups);
    Lexer.SplitRender(Lexer.Joined(groups));
    var texts := seq(|groups|, i requires 0 <= i < |groups| => Lexer.TextOf(groups[i]));
    if groups == [] {
      assert Lexer.TokensOf([]) == [""];
      assert NonBlank([""]) == [] == NonBlank(texts);
    } else {
      Lexer.TokensOfJoined(groups);
    }
  }

  /**
   * When each group's text is an unpadded item with whitespace around it, the
   * list parses to the literals of the non-empty items: padding is stripped and
   * blank items such as the middle one of `(1,,2)` are dropped.
   */
  lemma ParsePaddedList(groups: seq<seq<Lexer.Piece>>, pre: seq<string>, items: seq<string>, post: seq<string>)
    requires forall i :: 0 <= i < |groups| ==> Lexer.AllWellFormed(groups[i]) && Lexer.CommaFree(groups[i])
    requires |pre| == |items| == |post| == |groups|
    requires forall i :: 0 <= i < |groups| ==> Pads(Lexer.TextOf(groups[i]), pre[i], items[i], post[i])
    ensures ParseValues("(" + Lexer.Render(Lexer.Joined(groups)) + ")") == Ok(Literals(Nonempty(items)))
  {
    ParseJoinedList(groups);
    var texts := seq(|groups|, i requires 0 <= i < |groups| => Lexer.TextOf(groups[i]));
    NonBlankPadded(texts, pre, items, post);
  }

  /** Round trip: a list of listable values, written as `(v1, v2, ...)`, parses back to the same list. */
  lemma ValuesRoundTrip(vs: seq<Value>)
    requires forall i :: 0 <= i < |vs| ==> Listable(vs[i])
    ensures ParseValues(FormatValues(vs)) == Ok(vs)
  {
    var items := seq(|vs|, i requires 0 <= i < |vs| => ItemText(vs[i]));
    var pre := seq(|vs|, i requires 0 <= i < |vs| => Indent(i));
    var post := seq(|vs|, i requires 0 <= i < |vs| => "");
    ValueGroupsPadded(vs);
    ParsePaddedList(ValueGroups(vs), pre, items, post);
    NonemptyKeeps(items);
    assert Literals(items) == vs;
  }

  /** The text a value is written as inside a list. */
  function ItemText(v: Value): string {
    Lexer.TextOf([ListPiece(v)])
  }

  /** What comes before the `i`th item after its comma. */
  function Indent(i: nat): string {
    if i == 0 then "" else " "
  }

  /** Every group of a written list is well formed, comma-free, and pads an item that reads back as its value. */
  lemma ValueGroupsPadded(vs: seq<Value>)
    requires forall i :: 0 <= i < |vs| ==> Listable(vs[i])
    ensures forall i :: 0 <= i < |vs| ==>
      var g := ValueGroups(vs)[i];
      && Lexer.AllWellFormed(g) && Lexer.CommaFree(g)
      && Pads(Lexer.TextOf(g), Indent(i), ItemText(vs[i]), "")
      && ItemText(vs[i]) != [] && ParseLiteral(ItemText(vs[i])) == vs[i]
  {
    forall i | 0 <= i < |vs|
      ensures var g := ValueGroups(vs)[i];
        && Lexer.AllWellFormed(g) && Lexer.CommaFree(g)
        && Pads(Lexer.TextOf(g), Indent(i), ItemText(vs[i]), "")
        && ItemText(vs[i]) != [] && ParseLiteral(ItemText(vs[i])) == vs[i]
    {
      ListPieceReadsBack(vs[i]);
      IndentedPiece(ListPiece(vs[i]), i);
    }
  }

  /** A piece with an unpadded text, after the indent of position `i`, pads that text. */
  lemma IndentedPiece(p: Lexer.Piece, i: nat)
    requires Lexer.AllWellFormed([p]) && Lexer.CommaFree([p]) && Unpadded(Lexer.TextOf([p]))
    ensures var g := if i == 0 then [p] else [Lexer.Plain(" "), p];
      && Lexer.AllWellFormed(g) && Lexer.CommaFree(g)
      && Pads(Lexer.TextOf(g), Indent(i), Lexer.TextOf([p]), "")
  {
    var t := Lexer.TextOf([p]);
    if i == 0 {
      assert t == "" + t + "";
    } else {
      var g := [Lexer.Plain(" "), p];
      assert g[1..] == [p];
      assert Lexer.TextOf(g) == " " + t + "";
      assert AllSpace(" ") by { assert IsSpace(" "[0]); }
    }
  }

  /**
   * The splitter removes the quotes before the literal rules run, so a number
   * written in quotes in a value list is read as a number, not as text.
   */
  lemma QuotedIntegerInListIsInteger(n: int)
    requires Convertible(n)
    ensures ParseValues(['(', '"'] + IntToken(n) + ['"', ')']) == Ok([Int(n)])
  {
    var t := IntToken(n);
    IntTokenShape(n);
    assert '"' !in t by {
      assert forall i :: 0 <= i < |t| ==> t[i] != '"';
    }
    ParseQuotedItem('"', t);
    LiteralOfInt(n);
  }

  /** A parenthesised single quoted item parses to the literal of the text between the quotes. */
  lemma ParseQuotedItem(q: char, t: string)
    requires Lexer.IsQuote(q) && q !in t && Tidy(t)
    ensures ParseValues(['(', q] + t + [q, ')']) == Ok([ParseLiteral(t)])
  {
    var g := [Lexer.Quoted(q, t)];
    assert Lexer.TextOf(g) == t by {
      assert Lexer.TextOf(g) == t + Lexer.TextOf([]);
    }
    assert "(" + Lexer.Render(g) + ")" == ['(', q] + t + [q, ')'] by {
      assert Lexer.Render(g) == [q] + t + [q] + Lexer.Render([]);
    }
    ParseOneItem(g);
  }

  /** A parenthesised single item whose text is tidy parses to that text's literal. */
  lemma ParseOneItem(g: seq<Lexer.Piece>)
    requires Lexer.AllWellFormed(g) && Lexer.CommaFree(g) && Tidy(Lexer.TextOf(g))
    ensures ParseValues("(" + Lexer.Render(g) + ")") == Ok([ParseLiteral(Lexer.TextOf(g))])
  {
    var groups := [g];
    var t := Lexer.TextOf(g);
    ParseJoinedList(groups);
    assert Lexer.Joined(groups) == g;
    assert seq(|groups|, i requires 0 <= i < |groups| => Lexer.TextOf(groups[i])) == [t];
    NonBlankKeeps([t]);
    assert Literals([t]) == [ParseLiteral(t)];
  }

  // ----- Filters -----

  /**
   * `parse_where`: splits at the first `=`; the key is the stripped text before
   * it and the value is the literal of the stripped text after it. Fails when
   * there is no `=`.
   */
  function ParseWhere(segment: string): (r: Result<map<string, Value>, ParseError>)
    ensures r.Err? <==> '=' !in segment
    ensures r.Err? ==> r.error == NotAFilter
    ensures r.Ok? ==> |r.value| == 1 && forall k :: k in r.value ==> '=' !in k && Unpadded(k)
  {
    match SplitFirst(segment, '=')
    case None => Err(NotAFilter)
    case Some(parts) =>
      StripIsUnpadded(parts.0);
      assert '=' !in Strip(parts.0) by {
        var t := parts.0[LeadingSpace(parts.0)..];
        assert forall i :: 0 <= i < |Strip(parts.0)| ==> Strip(parts.0)[i] == parts.0[LeadingSpace(parts.0) + i];
      }
      Ok(map[Strip(parts.0) := ParseLiteral(Strip(parts.1))])
  }

  /** Only the first `=` splits: everything after it, further `=` included, is the value. */
  lemma WhereSplitsAtFirstEquals(key: string, rest: string)
    requires '=' !in key
    ensures ParseWhere(key + "=" + rest) == Ok(map[Strip(key) := ParseLiteral(Strip(rest))])
  {
    SplitFirstJoin(key, '=', rest);
  }

  /** How a value is written in a filter: integers and booleans bare, text in double quotes. */
  function FilterToken(v: Value): string {
    match v
    case Int(n) => IntToken(n)
    case Bool(b) => BoolToken(b)
    case Str(s) => "\"" + s + "\""
  }

  /**
   * Round trip: `column = value` parses back to the one-entry filter. The filter
   * is not split on commas, so any text value survives, quotes and `=` included;
   * an integer survives when `int()` converts its writing.
   */
  lemma WhereRoundTrip(column: string, v: Value)
    requires '=' !in column && Unpadded(column)
    requires v.Int? ==> Convertible(v.i)
    ensures ParseWhere(column + " = " + FilterToken(v)) == Ok(map[column := v])
  {
    WhereSpaced(column, FilterToken(v));
    FilterTokenReadsBack(v);
  }

  /** `key = text` with an unpadded key: the key is kept as written and the value is read from the stripped text. */
  lemma WhereSpaced(key: string, text: string)
    requires '=' !in key && Unpadded(key)
    ensures ParseWhere(key + " = " + text) == Ok(map[key := ParseLiteral(Strip(" " + text))])
  {
    var k := key + " ";
    var rest := " " + text;
    assert Strip(k) == key by {
      StripPadded([], key, " ");
      assert [] + key + " " == k;
    }
    WhereSplitsAt(key + " = " + text, k, rest);
  }

  /** `WhereSplitsAtFirstEquals` for a segment already known to be joined at its first `=`. */
  lemma WhereSplitsAt(segment: string, key: string, rest: string)
    requires segment == key + "=" + rest && '=' !in key
    ensures ParseWhere(segment) == Ok(map[Strip(key) := ParseLiteral(Strip(rest))])
  {
    WhereSplitsAtFirstEquals(key, rest);
  }

  lemma FilterTokenReadsBack(v: Value)
    requires v.Int? ==> Convertible(v.i)
    ensures Strip(" " + FilterToken(v)) == FilterToken(v)
    ensures ParseLiteral(FilterToken(v)) == v
  {
    var t := FilterToken(v);
    assert Unpadded(t) by {
      if v.Int? { IntTokenShape(v.i); }
    }
    StripPadded(" ", t, []);
    assert " " + t + [] == " " + t;
    match v
    case Int(n) => LiteralOfInt(n);
    case Bool(b) =>
      LowerOfBoolToken(b);
      LiteralOfBoolean(t, b);
    case Str(s) => LiteralOfQuoted('"', s);
  }

  // ----- Assignment lists -----

  /** One `key = value` pair: the stripped key before the first `=` and the literal after it. */
  function AssignmentOf(pair: string): (r: Result<(string, Value), ParseError>)
    ensures r.Err? <==> '=' !in pair
    ensures r.Err? ==> r.error == MissingEquals(pair)
    ensures r.Ok? ==> '=' !in r.value.0 && Unpadded(r.value.0)
  {
    match SplitFirst(pair, '=')
    case None => Err(MissingEquals(pair))
    case Some(parts) =>
      StripIsUnpadded(parts.0);
      assert '=' !in Strip(parts.0) by {
        assert forall i :: 0 <= i < |Strip(parts.0)| ==> Strip(parts.0)[i] == parts.0[LeadingSpace(parts.0) + i];
      }
      Ok((Strip(parts.0), ParseLiteral(Strip(parts.1))))
  }

  /** A pair splits at its first `=`: a later `=` belongs to the value. */
  lemma AssignmentOfJoin(key: string, rest: string)
    requires '=' !in key
    ensures AssignmentOf(key + "=" + rest) == Ok((Strip(key), ParseLiteral(Strip(rest))))
  {
    SplitFirstJoin(key, '=', rest);
  }

  /**
   * What `parse_set` computes: split on the commas outside quotes, keep the
   * non-blank stripped pairs, and assign them in order into an empty
   * dictionary, failing at the first pair without `=`.
   */
  function Assignments(segment: string): (r: Result<OrderedMap.Entries<Value>, ParseError>)
    ensures Lexer.Split(segment).Err? ==> r == Err(UnclosedQuote)
    ensures Lexer.Split(segment).Ok? && r.Err? ==> NamesPairWithoutEquals(NonBlank(Lexer.Split(segment).value), r.error)
    ensures r.Ok? ==> OrderedMap.IsMap(r.value)
  {
    match Lexer.Split(segment)
    case Err(_) => Err(UnclosedQuote)
    case Ok(tokens) =>
      var empty: OrderedMap.Entries<Value> := [];
      PairsOutcome(NonBlank(tokens));
      OrderedMap.TryPutAll(empty, NonBlank(tokens), AssignmentOf)
  }

  /** The error names one of the pairs, and that pair has no `=`. */
  predicate NamesPairWithoutEquals(pairs: seq<string>, error: ParseError) {
    exists i :: 0 <= i < |pairs| && '=' !in pairs[i] && error == MissingEquals(pairs[i])
  }

  /** Assigning pairs into an empty dictionary fails at a pair without `=`, naming it, or gives a dictionary. */
  lemma PairsOutcome(pairs: seq<string>)
    ensures var empty: OrderedMap.Entries<Value> := [];
      var r := OrderedMap.TryPutAll(empty, pairs, AssignmentOf);
      && (r.Err? ==> NamesPairWithoutEquals(pairs, r.error))
      && (r.Ok? ==> OrderedMap.IsMap(r.value))
  {
    var empty: OrderedMap.Entries<Value> := [];
    OrderedMap.TryPutAllOutcome(empty, pairs, AssignmentOf);
    var r := OrderedMap.TryPutAll(empty, pairs, AssignmentOf);
    if r.Err? {
      var i :| 0 <= i < |pairs| && AssignmentOf(pairs[i]) == Err(r.error);
    }
  }

  /** `parse_set`: fills the result dictionary pair by pair. */
  method ParseSet(segment: string) returns (r: Result<OrderedMap.Entries<Value>, ParseError>)
    ensures r == Assignments(segment)
  {
    var lexed := Lexer.Split(segment);
    if lexed.Err? {
      return Err(UnclosedQuote);
    }
    var pairs := NonBlank(lexed.value);
    var result: OrderedMap.Entries<Value> := [];
    var i := 0;
    while i < |pairs|
      invariant 0 <= i <= |pairs|
      invariant OrderedMap.TryPutAll([], pairs[..i], AssignmentOf) == Ok(result)
    {
      var pair := pairs[i];
      OrderedMap.TryPutAllNext([], pairs, AssignmentOf, i);
      var kv := SplitFirst(pair, '=');
      if kv.None? {
        assert AssignmentOf(pair) == Err(MissingEquals(pair));
        OrderedMap.TryPutAllErrPrefix([], pairs, AssignmentOf, i + 1);
        return Err(MissingEquals(pair));
      }
      var key := Strip(kv.value.0);
      var val := ParseLiteral(Strip(kv.value.1));
      assert AssignmentOf(pair) == Ok((key, val));
      result := OrderedMap.Put(result, key, val);
      i := i + 1;
    }
    assert pairs[..i] == pairs;
    r := Ok(result);
  }

  /** An assignment list fails at its first non-blank pair without `=`, and names that pair. */
  lemma AssignmentsFirstError(segment: string, tokens: seq<string>, i: nat)
    requires Lexer.Split(segment) == Ok(tokens)
    requires var pairs := NonBlank(tokens);
      i < |pairs| && '=' !in pairs[i] && forall j :: 0 <= j < i ==> '=' in pairs[j]
    ensures Assignments(segment) == Err(MissingEquals(NonBlank(tokens)[i]))
  {
    var pairs := NonBlank(tokens);
    forall j | 0 <= j < i ensures AssignmentOf(pairs[j]).Ok? { }
    OrderedMap.TryPutAllFirstError([], pairs, AssignmentOf, i);
  }

  /**
   * When every pair has an `=`, the result holds each key once, in order of
   * first appearance, and a repeated key holds the value of its last pair.
   */
  lemma AssignmentsLastWins(segment: string, tokens: seq<string>)
    requires Lexer.Split(segment) == Ok(tokens)
    requires forall j :: 0 <= j < |NonBlank(tokens)| ==> '=' in NonBlank(tokens)[j]
    ensures var pairs := NonBlank(tokens);
      var entries := OrderedMap.EntriesOf(pairs, AssignmentOf);
      && Assignments(segment).Ok?
      && OrderedMap.IsMap(Assignments(segment).value)
      && OrderedMap.Keys(Assignments(segment).value) == OrderedMap.Dedup(OrderedMap.Keys(entries))
      && forall k :: OrderedMap.Lookup(Assignments(segment).value, k) == OrderedMap.LastValue(entries, k)
  {
    var pairs := NonBlank(tokens);
    var entries := OrderedMap.EntriesOf(pairs, AssignmentOf);
    OrderedMap.TryPutAllOk([], pairs, AssignmentOf);
    var empty: OrderedMap.Entries<Value> := [];
    OrderedMap.PutAllKeys(empty, entries);
    assert OrderedMap.Keys(empty) + OrderedMap.Keys(entries) == OrderedMap.Keys(entries);
    forall k ensures OrderedMap.Lookup(Assignments(segment).value, k) == OrderedMap.LastValue(entries, k) {
      OrderedMap.PutAllLookup(empty, entries, k);
    }
  }
}
