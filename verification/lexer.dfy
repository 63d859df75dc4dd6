/**
 * The lexer: a single left-to-right scan of the source text. Minilang's `lex`
 * walks an index through the whole string; here `Lex` is applied to the part of
 * the input not yet scanned, so a position is the length of the consumed prefix
 * and every step strictly shortens the remaining text (which is why lexing
 * terminates). Character classes are those of Python's `str` predicates
 * restricted to ASCII.
 */
module Lexer {
  import opened Decimal
  import opened Tokens
  import opened Errors

  /** `c.isspace()` on ASCII: space, \t \n \v \f \r and the separators 0x1C-0x1F. */
  predicate IsSpace(c: char) {
    c == ' ' || 9 <= c as int <= 13 || 28 <= c as int <= 31
  }

  predicate IsAlpha(c: char) {
    'a' <= c <= 'z' || 'A' <= c <= 'Z'
  }

  /** A character that may continue an identifier: `isalnum()` or `_`. */
  predicate IsWordChar(c: char) {
    IsAlpha(c) || IsDigit(c) || c == '_'
  }

  /** The single-character operators and punctuation, each a token without a value. */
  function Punctuation(c: char): (r: Option<Token>)
    ensures r.Some? ==> !IsSpace(c) && !IsDigit(c) && !IsWordChar(c) && c != '#'
  {
    match c
    case '=' => Some(EqTok)
    case '+' => Some(PlusTok)
    case '-' => Some(MinusTok)
    case '*' => Some(StarTok)
    case '/' => Some(SlashTok)
    case '(' => Some(LParenTok)
    case ')' => Some(RParenTok)
    case ':' => Some(ColonTok)
    case ';' => Some(SemiTok)
    case '>' => Some(GtTok)
    case '<' => Some(LtTok)
    case _ => None
  }

  /** The keyword table: a scanned word becomes a keyword token, a TYPE token, or an ID. */
  function Keyword(w: string): (t: Token)
    ensures t.IdTok? <==> w !in {"print", "return", "read", "var", "while", "do", "done", "int", "float"}
    ensures t.IdTok? ==> t.name == w
    ensures t.TypeTok? <==> w == "int" || w == "float"
    ensures t.TypeTok? ==> TypeName(t.ty) == w
  {
    if w == "print" then PrintTok
    else if w == "return" then ReturnTok
    else if w == "read" then ReadTok
    else if w == "var" then VarTok
    else if w == "while" then WhileTok
    else if w == "do" then DoTok
    else if w == "done" then DoneTok
    else if w == "int" then TypeTok(Int)
    else if w == "float" then TypeTok(Float)
    else IdTok(w)
  }

  /** Length of the maximal run of digits at the front of `s`. */
  function DigitRun(s: string): (k: nat)
    ensures k <= |s| && AllDigits(s[..k])
    ensures k < |s| ==> !IsDigit(s[k])
  {
    if s != [] && IsDigit(s[0]) then
      var k := 1 + DigitRun(s[1..]);
      assert s[..k] == [s[0]] + s[1..][..k - 1];
      k
    else 0
  }

  /** Length of the maximal run of identifier characters at the front of `s`. */
  function WordRun(s: string): (k: nat)
    ensures k <= |s|
    ensures forall i :: 0 <= i < k ==> IsWordChar(s[i])
    ensures k < |s| ==> !IsWordChar(s[k])
  {
    if s != [] && IsWordChar(s[0]) then 1 + WordRun(s[1..]) else 0
  }

  /** Index of the first newline in `s`, or |s| when there is none. */
  function LineEnd(s: string): (k: nat)
    ensures k <= |s|
    ensures forall i :: 0 <= i < k ==> s[i] != '\n'
    ensures k < |s| ==> s[k] == '\n'
  {
    if s == [] || s[0] == '\n' then 0 else 1 + LineEnd(s[1..])
  }

  /** Puts a token in front of the tokens of the rest, unless the rest failed. */
  function Cons(t: Token, r: Result<seq<Token>>): (r': Result<seq<Token>>)
    ensures r'.Success? <==> r.Success?
    ensures r'.Success? ==> r'.value == [t] + r.value
    ensures r'.Failure? ==> r' == r
  {
    if r.Success? then Success([t] + r.value) else r
  }

  /**
   * The token sequence of `s`. Reading on at the very end of the input (a
   * number, word or comment that is not followed by another character) is the
   * scan's IndexError in `lex` and fails with UnexpectedEndOfInput.
   */
  function Lex(s: string): (r: Result<seq<Token>>)
    decreases |s|, 2
  {
    if s == [] then Success([])
    else
      var c := s[0];
      if IsSpace(c) then Lex(s[1..])
      else if c == '#' then LexComment(s)
      else if Punctuation(c).Some? then Cons(Punctuation(c).value, Lex(s[1..]))
      else if IsDigit(c) then LexNumber(s)
      else if IsAlpha(c) || c == '_' then LexWord(s)
      else Failure(InvalidCharacter(c))
  }

  /** `#` skips up to and including the next newline. */
  function LexComment(s: string): (r: Result<seq<Token>>)
    requires |s| > 0 && s[0] == '#'
    decreases |s|, 0
  {
    var k := LineEnd(s);
    if k == |s| then Failure(UnexpectedEndOfInput) else Lex(s[k + 1..])
  }

  /** A maximal digit run, then optionally '.' and a second maximal digit run. */
  function LexNumber(s: string): (r: Result<seq<Token>>)
    requires |s| > 0 && IsDigit(s[0])
    decreases |s|, 1
  {
    var k := DigitRun(s);
    if k == |s| then Failure(UnexpectedEndOfInput)
    else if s[k] == '.' then LexFraction(s[..k], s[k + 1..])
    else Cons(IntTok(DigitsValue(s[..k])), Lex(s[k..]))
  }

  /** The digits after the point of a float whose integer part is `whole`; `t` follows the point. */
  function LexFraction(whole: string, t: string): (r: Result<seq<Token>>)
    decreases |t| + 1, 0
  {
    var j := DigitRun(t);
    if j == |t| then Failure(UnexpectedEndOfInput)
    else Cons(FloatTok(FloatLexeme(whole, t[..j])), Lex(t[j..]))
  }

  /** A maximal identifier run, looked up in the keyword table. */
  function LexWord(s: string): (r: Result<seq<Token>>)
    requires |s| > 0 && (IsAlpha(s[0]) || s[0] == '_')
    decreases |s|, 0
  {
    var k := WordRun(s);
    if k == |s| then Failure(UnexpectedEndOfInput) else Cons(Keyword(s[..k]), Lex(s[k..]))
  }

  // ---------------------------------------------------------------------------
  // One scanning step at a time

  /** Whitespace produces no token. */
  lemma LexSkipsSpace(c: char, rest: string)
    requires IsSpace(c)
    ensures Lex([c] + rest) == Lex(rest)
  {
    assert ([c] + rest)[1..] == rest;
  }

  /** Each operator or punctuation character produces exactly one token. */
  lemma LexPunctuation(c: char, rest: string)
    requires Punctuation(c).Some?
    ensures Lex([c] + rest) == Cons(Punctuation(c).value, Lex(rest))
  {
    assert ([c] + rest)[1..] == rest;
  }

  /** A comment runs to the newline, which it also consumes, and produces no token. */
  lemma LexSkipsComment(text: string, rest: string)
    requires forall i :: 0 <= i < |text| ==> text[i] != '\n'
    ensures Lex(['#'] + text + ['\n'] + rest) == Lex(rest)
  {
    var s := ['#'] + text + ['\n'] + rest;
    assert s[1..] == text + ['\n'] + rest;
    var k := LineEnd(s);
    assert s[|text| + 1] == '\n';
    assert k == |text| + 1;
    assert s[k + 1..] == rest;
  }

  /** A character that starts no token is a lexical error. */
  lemma LexRejects(c: char, rest: string)
    requires !IsSpace(c) && c != '#' && Punctuation(c).None? && !IsWordChar(c)
    ensures Lex([c] + rest) == Failure(InvalidCharacter(c))
  {
  }

  lemma {:induction false} DigitRunAppend(d: string, s: string)
    requires AllDigits(d)
    ensures DigitRun(d + s) == |d| + DigitRun(s)
    decreases |d|
  {
    if d != [] {
      assert (d + s)[1..] == d[1..] + s;
      DigitRunAppend(d[1..], s);
    } else {
      assert d + s == s;
    }
  }

  lemma {:induction false} WordRunAppend(w: string, s: string)
    requires forall i :: 0 <= i < |w| ==> IsWordChar(w[i])
    ensures WordRun(w + s) == |w| + WordRun(s)
    decreases |w|
  {
    if w != [] {
      assert (w + s)[1..] == w[1..] + s;
      WordRunAppend(w[1..], s);
    } else {
      assert w + s == s;
    }
  }

  /** A maximal digit run not followed by '.' is one INT token holding the run's decimal value. */
  lemma LexInt(d: string, rest: string)
    requires |d| > 0 && AllDigits(d)
    requires |rest| > 0 && !IsDigit(rest[0]) && rest[0] != '.'
    ensures Lex(d + rest) == Cons(IntTok(DigitsValue(d)), Lex(rest))
  {
    var s := d + rest;
    DigitRunAppend(d, rest);
    assert DigitRun(rest) == 0;
    assert s[0] == d[0];
    assert s[..|d|] == d && s[|d|..] == rest;
  }

  /** A float: the integer digits, the point, and the fraction scanned on from there. */
  lemma LexNumberPoint(d: string, t: string)
    requires |d| > 0 && AllDigits(d)
    ensures LexNumber(d + ['.'] + t) == LexFraction(d, t)
  {
    var s := d + ['.'] + t;
    assert s == d + (['.'] + t);
    DigitRunAppend(d, ['.'] + t);
    assert DigitRun(['.'] + t) == 0;
    assert s[..|d|] == d && s[|d|] == '.' && s[|d| + 1..] == t;
  }

  lemma LexFractionAt(whole: string, f: string, rest: string)
    requires AllDigits(f) && |rest| > 0 && !IsDigit(rest[0])
    ensures LexFraction(whole, f + rest) == Cons(FloatTok(FloatLexeme(whole, f)), Lex(rest))
  {
    DigitRunAppend(f, rest);
    assert DigitRun(rest) == 0;
    assert (f + rest)[..|f|] == f && (f + rest)[|f|..] == rest;
  }

  lemma LexNumberFloat(d: string, f: string, rest: string)
    requires |d| > 0 && AllDigits(d) && AllDigits(f)
    requires |rest| > 0 && !IsDigit(rest[0])
    ensures LexNumber(d + ['.'] + f + rest) == Cons(FloatTok(FloatLexeme(d, f)), Lex(rest))
  {
    calc {
      LexNumber(d + ['.'] + f + rest);
      { assert d + ['.'] + f + rest == d + ['.'] + (f + rest); }
      LexNumber(d + ['.'] + (f + rest));
      { LexNumberPoint(d, f + rest); }
      LexFraction(d, f + rest);
      { LexFractionAt(d, f, rest); }
      Cons(FloatTok(FloatLexeme(d, f)), Lex(rest));
    }
  }

  lemma LexFloat(d: string, f: string, rest: string)
    requires |d| > 0 && AllDigits(d) && AllDigits(f)
    requires |rest| > 0 && !IsDigit(rest[0])
    ensures Lex(d + ['.'] + f + rest) == Cons(FloatTok(FloatLexeme(d, f)), Lex(rest))
  {
    var s := d + ['.'] + f + rest;
    assert s[0] == d[0];
    LexNumberFloat(d, f, rest);
  }

  /** A maximal word starting with a letter or '_' goes through the keyword table. */
  lemma LexScansWord(w: string, rest: string)
    requires |w| > 0 && (IsAlpha(w[0]) || w[0] == '_')
    requires forall i :: 0 <= i < |w| ==> IsWordChar(w[i])
    requires |rest| > 0 && !IsWordChar(rest[0])
    ensures Lex(w + rest) == Cons(Keyword(w), Lex(rest))
  {
    var s := w + rest;
    WordRunAppend(w, rest);
    assert WordRun(rest) == 0;
    assert s[0] == w[0];
    assert s[..|w|] == w && s[|w|..] == rest;
  }

  /** A float whose fraction reaches the end of the input reads past it and fails. */
  lemma LexFloatRunsOffEnd(d: string, f: string)
    requires |d| > 0 && AllDigits(d) && AllDigits(f)
    ensures Lex(d + ['.'] + f) == Failure(UnexpectedEndOfInput)
  {
    var s := d + ['.'] + f;
    assert s[0] == d[0];
    LexNumberPoint(d, f);
    DigitRunAppend(f, []);
    assert f + [] == f;
  }

  lemma IntRunsOffEnd(s: string)
    requires |s| > 0 && AllDigits(s)
    ensures Lex(s) == Failure(UnexpectedEndOfInput)
  {
    DigitRunAppend(s, []);
    assert s + [] == s;
  }

  lemma WordRunsOffEnd(s: string)
    requires |s| > 0 && (IsAlpha(s[0]) || s[0] == '_')
    requires forall i :: 0 <= i < |s| ==> IsWordChar(s[i])
    ensures Lex(s) == Failure(UnexpectedEndOfInput)
  {
    WordRunAppend(s, []);
    assert s + [] == s;
  }

  lemma CommentRunsOffEnd(s: string)
    requires |s| > 0 && s[0] == '#'
    requires forall i :: 0 <= i < |s| ==> s[i] != '\n'
    ensures Lex(s) == Failure(UnexpectedEndOfInput)
  {
  }

  /** A number (integer or float), word or comment that reaches the end of the input reads past it and fails. */
  lemma LexRunsOffEnd(s: string)
    requires |s| > 0
    requires || AllDigits(s)
             || (exists k :: 0 < k < |s| && AllDigits(s[..k]) && s[k] == '.' && AllDigits(s[k + 1..]))
             || ((IsAlpha(s[0]) || s[0] == '_') && forall i :: 0 <= i < |s| ==> IsWordChar(s[i]))
             || (s[0] == '#' && forall i :: 0 <= i < |s| ==> s[i] != '\n')
    ensures Lex(s) == Failure(UnexpectedEndOfInput)
  {
    if s[0] == '#' {
      CommentRunsOffEnd(s);
    } else if IsAlpha(s[0]) || s[0] == '_' {
      WordRunsOffEnd(s);
    } else {
      NumberRunsOffEnd(s);
    }
  }

  lemma NumberRunsOffEnd(s: string)
    requires |s| > 0
    requires AllDigits(s) || exists k :: 0 < k < |s| && AllDigits(s[..k]) && s[k] == '.' && AllDigits(s[k + 1..])
    ensures Lex(s) == Failure(UnexpectedEndOfInput)
  {
    if AllDigits(s) {
      IntRunsOffEnd(s);
    } else {
      var k :| 0 < k < |s| && AllDigits(s[..k]) && s[k] == '.' && AllDigits(s[k + 1..]);
      assert s == s[..k] + ['.'] + s[k + 1..];
      LexFloatRunsOffEnd(s[..k], s[k + 1..]);
    }
  }

  // ---------------------------------------------------------------------------
  // The inverse of lexing: spelling tokens back as text

  /** A word the lexer turns into an ID token carrying that word. */
  predicate IsIdentifier(x: string) {
    && |x| > 0
    && (IsAlpha(x[0]) || x[0] == '_')
    && (forall i :: 0 <= i < |x| ==> IsWordChar(x[i]))
    && Keyword(x) == IdTok(x)
  }

  /** Tokens that have a spelling: identifiers are words, float lexemes are digit strings. */
  predicate Spellable(t: Token) {
    match t
    case IdTok(x) => IsIdentifier(x)
    case FloatTok(f) => |f.whole| > 0 && AllDigits(f.whole) && AllDigits(f.frac)
    case _ => true
  }

  function Spelling(t: Token): (r: string) {
    match t
    case VarTok => "var"
    case IdTok(x) => x
    case ColonTok => ":"
    case TypeTok(ty) => TypeName(ty)
    case SemiTok => ";"
    case EqTok => "="
    case PlusTok => "+"
    case MinusTok => "-"
    case StarTok => "*"
    case SlashTok => "/"
    case LParenTok => "("
    case RParenTok => ")"
    case GtTok => ">"
    case LtTok => "<"
    case IntTok(v) => NatToString(v)
    case FloatTok(f) => f.whole + "." + f.frac
    case PrintTok => "print"
    case ReadTok => "read"
    case ReturnTok => "return"
    case WhileTok => "while"
    case DoTok => "do"
    case DoneTok => "done"
  }

  /** Source text for a token sequence: every token followed by one space. */
  function Spell(ts: seq<Token>): (r: string) {
    if ts == [] then [] else Spelling(ts[0]) + [' '] + Spell(ts[1..])
  }

  /** Tokens spelled as a word: identifiers, TYPE and the keywords. */
  predicate IsWordToken(t: Token) {
    t.IdTok? || t.TypeTok? || t.VarTok? || t.PrintTok? || t.ReadTok? || t.ReturnTok?
    || t.WhileTok? || t.DoTok? || t.DoneTok?
  }

  lemma KeywordSpelling(t: Token)
    requires IsWordToken(t) && Spellable(t)
    ensures |Spelling(t)| > 0 && (IsAlpha(Spelling(t)[0]) || Spelling(t)[0] == '_')
    ensures forall i :: 0 <= i < |Spelling(t)| ==> IsWordChar(Spelling(t)[i])
    ensures Keyword(Spelling(t)) == t
  {
    match t
    case TypeTok(ty) => assert ty == Int || ty == Float;
    case _ =>
  }

  lemma LexWordToken(t: Token, tail: string)
    requires IsWordToken(t) && Spellable(t)
    requires |tail| > 0 && tail[0] == ' '
    ensures Lex(Spelling(t) + tail) == Cons(t, Lex(tail))
  {
    KeywordSpelling(t);
    LexScansWord(Spelling(t), tail);
  }

  lemma LexNumberToken(t: Token, tail: string)
    requires (t.IntTok? || t.FloatTok?) && Spellable(t)
    requires |tail| > 0 && tail[0] == ' '
    ensures Lex(Spelling(t) + tail) == Cons(t, Lex(tail))
  {
    match t
    case IntTok(v) =>
      NatToStringValue(v);
      LexInt(NatToString(v), tail);
    case FloatTok(f) =>
      assert Spelling(t) + tail == f.whole + ['.'] + f.frac + tail;
      LexFloat(f.whole, f.frac, tail);
  }

  lemma LexPunctuationToken(t: Token, tail: string)
    requires !IsWordToken(t) && !t.IntTok? && !t.FloatTok?
    ensures Lex(Spelling(t) + tail) == Cons(t, Lex(tail))
  {
    var w := Spelling(t);
    assert |w| == 1 && Punctuation(w[0]) == Some(t);
    assert w + tail == [w[0]] + tail;
    LexPunctuation(w[0], tail);
  }

  lemma LexOneToken(t: Token, rest: string)
    requires Spellable(t)
    ensures Lex(Spelling(t) + [' '] + rest) == Cons(t, Lex(rest))
  {
    var tail := [' '] + rest;
    assert Spelling(t) + [' '] + rest == Spelling(t) + tail;
    LexSkipsSpace(' ', rest);
    if IsWordToken(t) {
      LexWordToken(t, tail);
    } else if t.IntTok? || t.FloatTok? {
      LexNumberToken(t, tail);
    } else {
      LexPunctuationToken(t, tail);
    }
  }

  /** Lexing the spelling of spellable tokens gives those tokens back. */
  lemma {:induction false} LexSpell(ts: seq<Token>)
    requires forall i :: 0 <= i < |ts| ==> Spellable(ts[i])
    ensures Lex(Spell(ts)) == Success(ts)
  {
    if ts != [] {
      var rest := ts[1..];
      assert Spell(ts) == Spelling(ts[0]) + [' '] + Spell(rest);
      LexOneToken(ts[0], Spell(rest));
      forall i | 0 <= i < |rest|
        ensures Spellable(rest[i])
      {
        assert rest[i] == ts[i + 1];
      }
      LexSpell(rest);
      assert [ts[0]] + rest == ts;
    }
  }
}
