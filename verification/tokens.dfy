/**
 * Tokens exchanged between the lexer and the parser. Each token records its
 * kind; identifiers, number literals and the `int`/`float` keywords also carry
 * a value, exactly as the lexer's `tok(kind, value)` records do.
 */
module Tokens {

  /** The two types of the language. */
  datatype Type = Int | Float

  /** The spelling of a type in declarations and in the generated C. */
  function TypeName(t: Type): (r: string) {
    match t
    case Int => "int"
    case Float => "float"
  }

  /** A float literal kept as its lexeme: the digits before and after the '.'. */
  datatype FloatLexeme = FloatLexeme(whole: string, frac: string)

  /** The token kinds, one per TOK_ constant. */
  datatype TokKind =
    | VAR | ID | COLON | TYPE | SEMI | EQ | PLUS | MINUS | STAR | SLASH
    | LPAREN | RPAREN | GTHAN | LTHAN | INT | FLOAT
    | PRINT | READ | RETURN | WHILE | DO | DONE

  datatype Token =
    | VarTok
    | IdTok(name: string)
    | ColonTok
    | TypeTok(ty: Type)
    | SemiTok
    | EqTok
    | PlusTok
    | MinusTok
    | StarTok
    | SlashTok
    | LParenTok
    | RParenTok
    | GtTok
    | LtTok
    | IntTok(value: nat)
    | FloatTok(lexeme: FloatLexeme)
    | PrintTok
    | ReadTok
    | ReturnTok
    | WhileTok
    | DoTok
    | DoneTok
  {
    function Kind(): (r: TokKind)
      ensures r == ID <==> this.IdTok?
      ensures r == TYPE <==> this.TypeTok?
    {
      match this
      case VarTok => VAR
      case IdTok(_) => ID
      case ColonTok => COLON
      case TypeTok(_) => TYPE
      case SemiTok => SEMI
      case EqTok => EQ
      case PlusTok => PLUS
      case MinusTok => MINUS
      case StarTok => STAR
      case SlashTok => SLASH
      case LParenTok => LPAREN
      case RParenTok => RPAREN
      case GtTok => GTHAN
      case LtTok => LTHAN
      case IntTok(_) => INT
      case FloatTok(_) => FLOAT
      case PrintTok => PRINT
      case ReadTok => READ
      case ReturnTok => RETURN
      case WhileTok => WHILE
      case DoTok => DO
      case DoneTok => DONE
    }
  }

  /** The whole ID token that a `read` statement keeps. */
  type IdToken = t: Token | t.IdTok? witness IdTok("x")
}
