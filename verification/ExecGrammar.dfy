// The Exec key of the Desktop Entry Specification: its grammar, the reader for it, and quoting as the reader's inverse.
module ExecGrammar {
  import opened Wrappers

  const MAX_EXEC_BYTES: nat := 16_384

  datatype ExecError =
    | BadLength | IncompleteEscape | BadEscape | ReservedCharacter | ControlByte
    | IncompleteCode | UnknownCode | CodeInQuotes | QuotedInPart | NotTerminated
    | NoExecutable | EmptyExecutable | CodeInExecutable | EqualsInExecutable | CodeNotAlone | TooManyFileCodes

  /** An argument as read: the text it stands for, and the field codes to be filled in later. */
  datatype Token = Token(literal: string, codes: string)

  predicate Ascii(c: char) {
    c as int < 128
  }

  predicate Control(c: char) {
    c as int < 0x20 || c as int == 0x7f
  }

  predicate Reserved(c: char) {
    c in "\"'\\><~|&;$*?#()`\t\n"
  }

  predicate Escapable(c: char) {
    c in "\"`$\\"
  }

  predicate FieldCode(c: char) {
    c in "fFuUdDnNickvm"
  }

  // ---- The grammar

  /** A piece of an argument: a character, an escaped character, a doubled percent sign or a field code. */
  datatype Piece = Plain(byte: char) | Escaped(byte: char) | Percent | Code(byte: char)

  datatype Lexeme = Bare(pieces: seq<Piece>) | Quoted(pieces: seq<Piece>)

  predicate PieceAllowed(quoted: bool, piece: Piece) {
    match piece
    case Plain(c) =>
      if quoted then !Escapable(c) && c != '%' && (Control(c) ==> c == '\t' || c == '\n')
      else c != ' ' && c != '%' && !Reserved(c) && !Control(c)
    case Escaped(c) => quoted && Escapable(c)
    case Percent => true
    case Code(c) => !quoted && FieldCode(c)
  }

  predicate LexemeAllowed(lexeme: Lexeme) {
    && (forall piece <- lexeme.pieces :: PieceAllowed(lexeme.Quoted?, piece))
    && (lexeme.Bare? ==> lexeme.pieces != [])
  }

  function PieceText(piece: Piece): string {
    match piece
    case Plain(c) => [c]
    case Escaped(c) => ['\\', c]
    case Percent => "%%"
    case Code(c) => ['%', c]
  }

  function PiecesText(pieces: seq<Piece>): string {
    if pieces == [] then "" else PieceText(pieces[0]) + PiecesText(pieces[1..])
  }

  function LexemeText(lexeme: Lexeme): string {
    if lexeme.Quoted? then "\"" + PiecesText(lexeme.pieces) + "\"" else PiecesText(lexeme.pieces)
  }

  function Spaces(n: nat): string {
    seq(n, _ => ' ')
  }

  /** Gaps before, between and after the arguments; those between are at least one space wide. */
  predicate GapsAllowed(gaps: seq<nat>, lexemes: nat) {
    |gaps| == lexemes + 1 && forall i | 0 < i < lexemes :: gaps[i] >= 1
  }

  function Written(lexemes: seq<Lexeme>, gaps: seq<nat>): string
    requires |gaps| == |lexemes| + 1
  {
    Spaces(gaps[0]) + if lexemes == [] then "" else LexemeText(lexemes[0]) + Written(lexemes[1..], gaps[1..])
  }

  /** What an argument stands for. */
  function PiecesMeaning(pieces: seq<Piece>): Token {
    if pieces == [] then Token("", "")
    else
      var rest := PiecesMeaning(pieces[1..]);
      match pieces[0]
      case Plain(c) => Token([c] + rest.literal, rest.codes)
      case Escaped(c) => Token([c] + rest.literal, rest.codes)
      case Percent => Token("%" + rest.literal, rest.codes)
      case Code(c) => Token(rest.literal, [c] + rest.codes)
  }

  function Meanings(lexemes: seq<Lexeme>): seq<Token> {
    if lexemes == [] then [] else [PiecesMeaning(lexemes[0].pieces)] + Meanings(lexemes[1..])
  }

  function LiteralOf(piece: Piece): string {
    match piece
    case Plain(c) => [c]
    case Escaped(c) => [c]
    case Percent => "%"
    case Code(_) => ""
  }

  function CodeOf(piece: Piece): string {
    if piece.Code? then [piece.byte] else ""
  }

  lemma MeaningFirst(piece: Piece, rest: seq<Piece>)
    ensures PiecesMeaning([piece] + rest)
      == Token(LiteralOf(piece) + PiecesMeaning(rest).literal, CodeOf(piece) + PiecesMeaning(rest).codes)
  {
    assert ([piece] + rest)[1..] == rest;
  }

  /** Pieces one after the other stand for their texts, and ask for their codes, one after the other. */
  lemma {:induction false} MeaningJoin(a: seq<Piece>, b: seq<Piece>)
    ensures PiecesMeaning(a + b)
      == Token(PiecesMeaning(a).literal + PiecesMeaning(b).literal, PiecesMeaning(a).codes + PiecesMeaning(b).codes)
  {
    hide PiecesMeaning, LiteralOf, CodeOf;
    if a == [] {
      assert a + b == b;
      NoMeaning();
    } else {
      var first, rest := a[0], a[1..];
      assert a == [first] + rest && a + b == [first] + (rest + b);
      MeaningJoin(rest, b);
      MeaningFirst(first, rest);
      MeaningFirst(first, rest + b);
      Regroup(LiteralOf(first), PiecesMeaning(rest).literal, PiecesMeaning(b).literal);
      Regroup(CodeOf(first), PiecesMeaning(rest).codes, PiecesMeaning(b).codes);
    }
  }

  lemma NoMeaning()
    ensures PiecesMeaning([]) == Token("", "")
  {
  }

  /** One piece stands for its character, for a percent sign, or for a code. */
  lemma PieceMeanings(c: char)
    ensures PiecesMeaning([Plain(c)]) == Token([c], "") && PiecesMeaning([Escaped(c)]) == Token([c], "")
    ensures PiecesMeaning([Percent]) == Token("%", "") && PiecesMeaning([Code(c)]) == Token("", [c])
  {
    assert PiecesMeaning([]) == Token("", "");
    assert [Plain(c)][1..] == [] && [Escaped(c)][1..] == [] && [Percent][1..] == [] && [Code(c)][1..] == [];
  }

  /** Outside quotes letters and digits and the characters !+,-./:=@[]^_{} stand for themselves, and no other ASCII character does. */
  lemma BareCharacters(c: char)
    requires Ascii(c)
    ensures PieceAllowed(false, Plain(c)) <==>
      c == '!' || '+' <= c <= ':' || c == '=' || '@' <= c <= '[' || ']' <= c <= '_' || 'a' <= c <= '{' || c == '}'
  {
  }

  /** Inside quotes all that can be printed does, and tabs and newlines, but for the quote itself, the backquote, the dollar sign,
      the backslash and the percent sign. */
  lemma QuotedCharacters(c: char)
    requires Ascii(c)
    ensures PieceAllowed(true, Plain(c)) <==>
      (c == '\t' || c == '\n' || ' ' <= c <= '~') && c != '\"' && c != '`' && c != '$' && c != '\\' && c != '%'
  {
  }

  // ---- Reading

  /** Whether an argument, or its part in quotes, ends where the text begins. */
  predicate Ends(quoted: bool, text: string) {
    text == "" || text[0] == (if quoted then '\"' else ' ')
  }

  function ParseFieldCode(text: string): Result<char, ExecError>
    requires text != ""
  {
    if |text| < 2 then Failure(IncompleteCode)
    else if FieldCode(text[1]) || text[1] == '%' then Success(text[1])
    else Failure(UnknownCode)
  }

  function ReadPiece(quoted: bool, text: string): Result<Piece, ExecError>
    requires !Ends(quoted, text)
  {
    var c := text[0];
    if c == '%' then
      match ParseFieldCode(text)
      case Failure(error) => Failure(error)
      case Success(code) => if code == '%' then Success(Percent) else if quoted then Failure(CodeInQuotes) else Success(Code(code))
    else if quoted then
      if c == '\\' then
        if |text| < 2 then Failure(IncompleteEscape) else if Escapable(text[1]) then Success(Escaped(text[1])) else Failure(BadEscape)
      else if Escapable(c) then Failure(ReservedCharacter)
      else if Control(c) && c != '\t' && c != '\n' then Failure(ControlByte)
      else Success(Plain(c))
    else if Reserved(c) || Control(c) then Failure(ReservedCharacter)
    else Success(Plain(c))
  }

  function ReadPieces(quoted: bool, text: string): (r: Result<seq<Piece>, ExecError>)
    ensures r.Success? ==> |PiecesText(r.value)| <= |text| && Ends(quoted, text[|PiecesText(r.value)|..])
    ensures r.Success? && !Ends(quoted, text) ==> r.value != [] && PiecesText(r.value) != ""
    decreases |text|
  {
    if Ends(quoted, text) then Success([])
    else
      match ReadPiece(quoted, text)
      case Failure(error) => Failure(error)
      case Success(piece) =>
        match ReadPieces(quoted, text[|PieceText(piece)|..])
        case Failure(error) => Failure(error)
        case Success(pieces) => Success([piece] + pieces)
  }

  function ReadLexemes(text: string): Result<seq<Lexeme>, ExecError>
    decreases |text|
  {
    if text == "" then Success([])
    else if text[0] == ' ' then ReadLexemes(text[1..])
    else
      var quoted := text[0] == '\"';
      var body := if quoted then text[1..] else text;
      match ReadPieces(quoted, body)
      case Failure(error) => Failure(error)
      case Success(pieces) =>
        var rest := body[|PiecesText(pieces)|..];
        if quoted && rest == "" then Failure(NotTerminated)
        else if quoted && |rest| > 1 && rest[1] != ' ' then Failure(QuotedInPart)
        else
          match ReadLexemes(if quoted then rest[1..] else rest)
          case Failure(error) => Failure(error)
          case Success(lexemes) => Success([if quoted then Quoted(pieces) else Bare(pieces)] + lexemes)
  }

  // ---- The reader accepts the grammar, whole and unambiguously

  lemma ReadPieceExact(quoted: bool, text: string, piece: Piece)
    requires !Ends(quoted, text)
    ensures ReadPiece(quoted, text) == Success(piece) <==> PieceAllowed(quoted, piece) && PieceText(piece) <= text
  {
  }

  lemma AllowedDoesNotEnd(quoted: bool, text: string, piece: Piece)
    requires PieceAllowed(quoted, piece) && PieceText(piece) <= text
    ensures !Ends(quoted, text)
  {
  }

  lemma {:induction false} ReadPiecesExact(quoted: bool, text: string, pieces: seq<Piece>)
    ensures ReadPieces(quoted, text) == Success(pieces)
      <==> (forall piece <- pieces :: PieceAllowed(quoted, piece)) && PiecesText(pieces) <= text && Ends(quoted, text[|PiecesText(pieces)|..])
    decreases |text|
  {
    hide PieceAllowed, ReadPiece, Ends;
    if pieces == [] {
      assert text[0..] == text;
      PiecesNonempty(quoted, text);
    } else {
      var first := pieces[0];
      var size := |PieceText(first)|;
      assert pieces == [first] + pieces[1..];
      if PieceText(first) <= text && PieceAllowed(quoted, first) {
        AllowedDoesNotEnd(quoted, text, first);
        ReadPieceExact(quoted, text, first);
        ReadPiecesExact(quoted, text[size..], pieces[1..]);
        PrefixSplit(PieceText(first), PiecesText(pieces[1..]), text);
      } else if !Ends(quoted, text) {
        ReadPieceExact(quoted, text, first);
      }
    }
  }

  lemma PiecesNonempty(quoted: bool, text: string)
    ensures ReadPieces(quoted, text) == Success([]) <==> Ends(quoted, text)
  {
  }

  lemma PrefixSplit(a: string, b: string, text: string)
    requires a <= text
    ensures a + b <= text <==> b <= text[|a|..]
    ensures a + b <= text ==> text[|a + b|..] == text[|a|..][|b|..]
  {
    assert text == a + text[|a|..];
    if b <= text[|a|..] {
      assert text[|a|..] == b + text[|a|..][|b|..];
    }
    if a + b <= text {
      assert text[|a|..][..|b|] == (a + b)[|a|..];
    }
  }

  /** An argument begins with its quote or with a piece, and never with a space. */
  lemma LexemeStart(lexeme: Lexeme)
    requires LexemeAllowed(lexeme)
    ensures LexemeText(lexeme) != "" && LexemeText(lexeme)[0] != ' '
    ensures LexemeText(lexeme)[0] == '\"' <==> lexeme.Quoted?
  {
    if lexeme.Bare? {
      assert lexeme.pieces[0] in lexeme.pieces;
    }
  }

  /** Every command line the reader accepts is written by the rules of the grammar. */
  lemma {:induction false} ReadsOnlyGrammar(text: string) returns (gaps: seq<nat>)
    requires ReadLexemes(text).Success?
    ensures
      var lexemes := ReadLexemes(text).value;
      && GapsAllowed(gaps, |lexemes|) && (forall lexeme <- lexemes :: LexemeAllowed(lexeme)) && Written(lexemes, gaps) == text
      && (text != "" && text[0] == ' ' ==> gaps[0] > 0)
    decreases |text|
  {
    hide LexemeAllowed, PieceAllowed, ReadPieces, Written, Spaces;
    if text == "" {
      gaps := [0];
      WrittenEmpty();
    } else if text[0] == ' ' {
      var after := ReadsOnlyGrammar(text[1..]);
      gaps := [after[0] + 1] + after[1..];
      WiderGap(ReadLexemes(text).value, after, gaps);
    } else {
      var rest, lexeme := ReadsOneArgument(text);
      var after := ReadsOnlyGrammar(rest);
      gaps := [0] + after;
      PrependArgument(lexeme, ReadLexemes(rest).value, after);
    }
  }

  lemma WrittenEmpty()
    ensures Written([], [0]) == ""
  {
  }

  lemma PrependArgument(lexeme: Lexeme, lexemes: seq<Lexeme>, gaps: seq<nat>)
    requires GapsAllowed(gaps, |lexemes|) && (lexemes != [] ==> gaps[0] > 0)
    ensures GapsAllowed([0] + gaps, |[lexeme] + lexemes|)
    ensures Written([lexeme] + lexemes, [0] + gaps) == LexemeText(lexeme) + Written(lexemes, gaps)
  {
    assert ([lexeme] + lexemes)[1..] == lexemes && ([0] + gaps)[1..] == gaps;
    hide LexemeText;
    assert Spaces(0) == "";
  }

  lemma WiderGap(lexemes: seq<Lexeme>, gaps: seq<nat>, wider: seq<nat>)
    requires |gaps| == |lexemes| + 1 && wider == [gaps[0] + 1] + gaps[1..]
    ensures Written(lexemes, wider) == " " + Written(lexemes, gaps)
    ensures GapsAllowed(gaps, |lexemes|) ==> GapsAllowed(wider, |lexemes|)
  {
    hide LexemeText, Spaces;
    WiderSpaces(gaps[0]);
    assert wider[1..] == gaps[1..];
    Regroup(" ", Spaces(gaps[0]), if lexemes == [] then "" else LexemeText(lexemes[0]) + Written(lexemes[1..], gaps[1..]));
  }

  lemma WiderSpaces(n: nat)
    ensures Spaces(n + 1) == " " + Spaces(n)
  {
  }

  lemma ReadsOneArgument(text: string) returns (rest: string, lexeme: Lexeme)
    requires text != "" && text[0] != ' ' && ReadLexemes(text).Success?
    ensures LexemeAllowed(lexeme) && text == LexemeText(lexeme) + rest && |rest| < |text|
    ensures rest != "" ==> rest[0] == ' '
    ensures ReadLexemes(rest).Success? && ReadLexemes(text).value == [lexeme] + ReadLexemes(rest).value
  {
    hide PieceAllowed, ReadPieces, LexemeAllowed, LexemeText;
    var quoted := text[0] == '\"';
    var body := if quoted then text[1..] else text;
    var pieces := ReadPieces(quoted, body).value;
    lexeme := if quoted then Quoted(pieces) else Bare(pieces);
    rest := if quoted then body[|PiecesText(pieces)|..][1..] else body[|PiecesText(pieces)|..];
    ArgumentText(text, lexeme, rest);
  }

  lemma ArgumentText(text: string, lexeme: Lexeme, rest: string)
    requires text != "" && text[0] != ' '
    requires
      var body := if text[0] == '\"' then text[1..] else text;
      && lexeme.Quoted? == (text[0] == '\"') && ReadPieces(lexeme.Quoted?, body) == Success(lexeme.pieces)
      && var after := body[|PiecesText(lexeme.pieces)|..];
      rest == (if lexeme.Quoted? then (if after == "" then "" else after[1..]) else after) && (lexeme.Quoted? ==> after != "")
    ensures LexemeAllowed(lexeme) && text == LexemeText(lexeme) + rest && |rest| < |text|
  {
    hide PieceAllowed, ReadPieces, ReadPiece, PiecesText;
    var body := if lexeme.Quoted? then text[1..] else text;
    ReadPiecesExact(lexeme.Quoted?, body, lexeme.pieces);
    var pieces := PiecesText(lexeme.pieces);
    var after := body[|pieces|..];
    assert body == pieces + after;
    if lexeme.Quoted? {
      assert after == "\"" + rest;
      assert text == "\"" + body;
      Regroup("\"" + pieces, "\"", rest);
      Regroup("\"", pieces, after);
    } else {
      BareNotEmpty(text);
    }
  }

  lemma BareNotEmpty(text: string)
    requires text != "" && text[0] != ' ' && ReadPieces(false, text).Success?
    ensures ReadPieces(false, text).value != [] && PiecesText(ReadPieces(false, text).value) != ""
  {
  }

  /** Every command line written by the rules of the grammar is read as the arguments it was written from. */
  lemma {:induction false} ReadsAllGrammar(lexemes: seq<Lexeme>, gaps: seq<nat>)
    requires GapsAllowed(gaps, |lexemes|) && forall lexeme <- lexemes :: LexemeAllowed(lexeme)
    ensures ReadLexemes(Written(lexemes, gaps)) == Success(lexemes)
    decreases |lexemes|
  {
    hide LexemeAllowed, ReadLexemes, LexemeText, Spaces;
    if lexemes == [] {
      SkipSpaces(gaps[0], "");
      assert Spaces(gaps[0]) + "" == Spaces(gaps[0]);
      ReadsNothing();
    } else {
      var rest := Written(lexemes[1..], gaps[1..]);
      ReadsAllGrammar(lexemes[1..], gaps[1..]);
      SkipSpaces(gaps[0], LexemeText(lexemes[0]) + rest);
      assert Written(lexemes, gaps) == Spaces(gaps[0]) + (LexemeText(lexemes[0]) + rest);
      StartsWithSpace(lexemes[1..], gaps[1..]);
      ReadsArgument(lexemes[0], rest);
      assert lexemes == [lexemes[0]] + lexemes[1..];
    }
  }

  lemma ReadsNothing()
    ensures ReadLexemes("") == Success([])
  {
  }

  lemma StartsWithSpace(lexemes: seq<Lexeme>, gaps: seq<nat>)
    requires |gaps| == |lexemes| + 1 && (lexemes != [] ==> gaps[0] >= 1)
    ensures Written(lexemes, gaps) == "" || Written(lexemes, gaps)[0] == ' '
  {
  }

  lemma {:induction false} SkipSpaces(n: nat, text: string)
    ensures ReadLexemes(Spaces(n) + text) == ReadLexemes(text)
    decreases n
  {
    hide ReadLexemes;
    if n == 0 {
      assert Spaces(0) + text == text;
    } else {
      SkipSpaces(n - 1, text);
      assert (Spaces(n) + text)[1..] == Spaces(n - 1) + text;
      SpaceStep(Spaces(n) + text);
    }
  }

  lemma ReadsArgument(lexeme: Lexeme, rest: string)
    requires LexemeAllowed(lexeme) && (rest == "" || rest[0] == ' ')
    ensures ReadLexemes(LexemeText(lexeme) + rest)
      == if ReadLexemes(rest).Success? then Success([lexeme] + ReadLexemes(rest).value) else ReadLexemes(rest)
  {
    hide PieceAllowed, ReadPieces, LexemeText, LexemeAllowed, PiecesText;
    LexemeStart(lexeme);
    BodyText(lexeme, rest);
  }

  lemma BodyText(lexeme: Lexeme, rest: string)
    requires LexemeAllowed(lexeme) && (rest == "" || rest[0] == ' ')
    ensures
      var text := LexemeText(lexeme) + rest;
      var body, after := if lexeme.Quoted? then text[1..] else text, if lexeme.Quoted? then "\"" + rest else rest;
      && ReadPieces(lexeme.Quoted?, body) == Success(lexeme.pieces)
      && |PiecesText(lexeme.pieces)| <= |body| && body[|PiecesText(lexeme.pieces)|..] == after
      && (lexeme.Quoted? ==> after[1..] == rest)
  {
    hide PieceAllowed, ReadPieces, PiecesText;
    var text := LexemeText(lexeme) + rest;
    var body, after := if lexeme.Quoted? then text[1..] else text, if lexeme.Quoted? then "\"" + rest else rest;
    assert body == PiecesText(lexeme.pieces) + after;
    ReadPiecesExact(lexeme.Quoted?, body, lexeme.pieces);
  }

  /** The reader's arguments are those, and the only ones, the command line can have been written from. */
  lemma GrammarExact(text: string, lexemes: seq<Lexeme>)
    ensures ReadLexemes(text) == Success(lexemes)
      <==> (forall lexeme <- lexemes :: LexemeAllowed(lexeme)) && exists gaps :: GapsAllowed(gaps, |lexemes|) && Written(lexemes, gaps) == text
  {
    if ReadLexemes(text) == Success(lexemes) {
      var gaps := ReadsOnlyGrammar(text);
      assert GapsAllowed(gaps, |lexemes|);
    }
    if gaps :| (forall lexeme <- lexemes :: LexemeAllowed(lexeme)) && GapsAllowed(gaps, |lexemes|) && Written(lexemes, gaps) == text {
      ReadsAllGrammar(lexemes, gaps);
    }
  }

  // ---- Rules across arguments

  predicate FileCode(c: char) {
    c in "fFuU"
  }

  /** Codes that expand to any number of arguments stand alone. */
  predicate CodesAlone(token: Token) {
    forall code <- token.codes :: code in "FUi" ==> token == Token("", [code])
  }

  function FileCodes(codes: string): nat {
    if codes == "" then 0 else FileCodes(codes[..|codes| - 1]) + if FileCode(codes[|codes| - 1]) then 1 else 0
  }

  /** A file code occurs in two places. */
  predicate TwoFileCodes(codes: string) {
    exists i, j | 0 <= i < j < |codes| :: FileCode(codes[i]) && FileCode(codes[j])
  }

  lemma {:induction false} FileCodesExact(codes: string)
    ensures FileCodes(codes) > 1 <==> TwoFileCodes(codes)
    ensures FileCodes(codes) > 0 <==> exists i | 0 <= i < |codes| :: FileCode(codes[i])
  {
    hide FileCode;
    if codes != "" {
      var front, last := codes[..|codes| - 1], |codes| - 1;
      FileCodesExact(front);
      assert forall i | 0 <= i < last :: front[i] == codes[i];
      if i, j :| 0 <= i < j < |front| && FileCode(front[i]) && FileCode(front[j]) {
        assert FileCode(codes[i]) && FileCode(codes[j]);
      }
      if i :| 0 <= i < |front| && FileCode(front[i]) {
        assert FileCode(codes[i]);
      }
      if i, j :| 0 <= i < j < |codes| && FileCode(codes[i]) && FileCode(codes[j]) {
        assert FileCode(front[i]);
      }
    }
  }

  function AllCodes(tokens: seq<Token>): string {
    if tokens == [] then "" else AllCodes(tokens[..|tokens| - 1]) + tokens[|tokens| - 1].codes
  }

  function JudgeCodes(tokens: seq<Token>): Option<ExecError> {
    if exists token <- tokens :: !CodesAlone(token) then Some(CodeNotAlone)
    else if FileCodes(AllCodes(tokens)) > 1 then Some(TooManyFileCodes)
    else None
  }

  function Judge(tokens: seq<Token>): Result<string, ExecError> {
    if tokens == [] then Failure(NoExecutable)
    else if tokens[0].literal == "" then Failure(EmptyExecutable)
    else if tokens[0].codes != "" then Failure(CodeInExecutable)
    else if '=' in tokens[0].literal then Failure(EqualsInExecutable)
    else if JudgeCodes(tokens).Some? then Failure(JudgeCodes(tokens).value)
    else Success(tokens[0].literal)
  }

  function Accepted(commandline: string): Result<string, ExecError> {
    if commandline == "" || |commandline| > MAX_EXEC_BYTES || exists c <- commandline :: !Ascii(c) then Failure(BadLength)
    else
      match ReadLexemes(commandline)
      case Failure(error) => Failure(error)
      case Success(lexemes) => Judge(Meanings(lexemes))
  }

  /** The rules a row of arguments must keep to run the executable `path`. */
  predicate Lawful(tokens: seq<Token>, path: string) {
    && tokens != [] && tokens[0] == Token(path, "") && path != "" && '=' !in path
    && (forall token <- tokens :: CodesAlone(token))
    && !TwoFileCodes(AllCodes(tokens))
  }

  ghost predicate WrittenAs(text: string, lexemes: seq<Lexeme>, gaps: seq<nat>) {
    GapsAllowed(gaps, |lexemes|) && (forall lexeme <- lexemes :: LexemeAllowed(lexeme)) && Written(lexemes, gaps) == text
  }

  /** A command line runs `path` exactly when it is short ASCII text the grammar can have written from a lawful row of arguments. */
  lemma AcceptedExact(commandline: string, path: string)
    ensures Accepted(commandline) == Success(path)
      <==> commandline != "" && |commandline| <= MAX_EXEC_BYTES && (forall c <- commandline :: Ascii(c))
           && exists lexemes, gaps :: WrittenAs(commandline, lexemes, gaps) && Lawful(Meanings(lexemes), path)
  {
    hide ReadLexemes, LexemeAllowed, Written, Meanings, Judge, Lawful;
    if Accepted(commandline) == Success(path) {
      var lexemes := ReadLexemes(commandline).value;
      var gaps := ReadsOnlyGrammar(commandline);
      JudgeExact(Meanings(lexemes), path);
      assert WrittenAs(commandline, lexemes, gaps);
    }
    if lexemes, gaps :| WrittenAs(commandline, lexemes, gaps) && Lawful(Meanings(lexemes), path) {
      ReadsAllGrammar(lexemes, gaps);
      JudgeExact(Meanings(lexemes), path);
    }
  }

  lemma JudgeExact(tokens: seq<Token>, path: string)
    ensures Judge(tokens) == Success(path) <==> Lawful(tokens, path)
  {
    hide AllCodes, FileCodes, CodesAlone, TwoFileCodes;
    FileCodesExact(AllCodes(tokens));
  }

  /** The first argument can be run. */
  predicate Runnable(tokens: seq<Token>) {
    tokens != [] && tokens[0].literal != "" && tokens[0].codes == "" && '=' !in tokens[0].literal
  }

  /** A row of arguments that may not be run is refused for its executable first, then for codes that do not stand alone, then for
      a second file code. */
  lemma JudgeRefuses(tokens: seq<Token>)
    ensures Judge(tokens) == Failure(NoExecutable) <==> tokens == []
    ensures tokens != [] ==>
      && (Judge(tokens) == Failure(EmptyExecutable) <==> tokens[0].literal == "")
      && (Judge(tokens) == Failure(CodeInExecutable) <==> tokens[0].literal != "" && tokens[0].codes != "")
      && (Judge(tokens) == Failure(EqualsInExecutable) <==> tokens[0].literal != "" && tokens[0].codes == "" && '=' in tokens[0].literal)
    ensures Judge(tokens) == Failure(CodeNotAlone) <==> Runnable(tokens) && exists token <- tokens :: !CodesAlone(token)
    ensures Judge(tokens) == Failure(TooManyFileCodes) <==>
      Runnable(tokens) && (forall token <- tokens :: CodesAlone(token)) && TwoFileCodes(AllCodes(tokens))
  {
    hide AllCodes, FileCodes, CodesAlone, TwoFileCodes;
    FileCodesExact(AllCodes(tokens));
  }

  /** The codes of a row are those of its arguments, one after the other. */
  lemma {:induction false} AllCodesJoin(a: seq<Token>, b: seq<Token>)
    ensures AllCodes(a + b) == AllCodes(a) + AllCodes(b)
  {
    hide AllCodes;
    NoCodesAtAll();
    if b == [] {
      assert a + b == a;
    } else {
      var front, last := b[..|b| - 1], b[|b| - 1];
      AllCodesJoin(a, front);
      assert b == front + [last] && a + b == a + front + [last];
      AllCodesStep(front, last);
      AllCodesStep(a + front, last);
      Regroup(AllCodes(a), AllCodes(front), last.codes);
    }
  }

  lemma NoCodesAtAll()
    ensures AllCodes([]) == ""
  {
  }

  lemma AllCodesStep(tokens: seq<Token>, last: Token)
    ensures AllCodes(tokens + [last]) == AllCodes(tokens) + last.codes
  {
    assert (tokens + [last])[..|tokens|] == tokens;
  }

  // ---- Quoting

  function PieceOf(c: char): Piece {
    if Escapable(c) then Escaped(c) else if c == '%' then Percent else Plain(c)
  }

  function PiecesOf(argument: string): seq<Piece> {
    seq(|argument|, i requires 0 <= i < |argument| => PieceOf(argument[i]))
  }

  /** An argument in double quotes, with a backslash before the characters that need one and percent signs doubled. */
  function Quote(argument: string): string {
    LexemeText(Quoted(PiecesOf(argument)))
  }

  function Join(arguments: seq<string>): string {
    if arguments == [] then ""
    else if |arguments| == 1 then Quote(arguments[0])
    else Quote(arguments[0]) + " " + Join(arguments[1..])
  }

  predicate Sayable(argument: string) {
    forall c <- argument :: Ascii(c) && (Control(c) ==> c == '\t' || c == '\n')
  }

  lemma EscapeAllowed(c: char)
    ensures PieceAllowed(true, PieceOf(c)) <==> (Control(c) ==> c == '\t' || c == '\n')
  {
  }

  /** Quoting a character yields a piece that stands for it. */
  lemma {:induction false} QuoteMeaning(argument: string)
    ensures PiecesMeaning(PiecesOf(argument)) == Token(argument, "")
  {
    if argument != "" {
      QuoteMeaning(argument[1..]);
      assert PiecesOf(argument)[1..] == PiecesOf(argument[1..]);
    }
  }

  lemma QuoteAllowed(argument: string)
    ensures LexemeAllowed(Quoted(PiecesOf(argument))) <==> forall c <- argument :: Control(c) ==> c == '\t' || c == '\n'
  {
    var pieces := PiecesOf(argument);
    forall i | 0 <= i < |argument|
      ensures PieceAllowed(true, pieces[i]) <==> (Control(argument[i]) ==> argument[i] == '\t' || argument[i] == '\n')
    {
      EscapeAllowed(argument[i]);
    }
    if forall piece <- pieces :: PieceAllowed(true, piece) {
      forall c | c in argument ensures Control(c) ==> c == '\t' || c == '\n' {
        var i :| 0 <= i < |argument| && argument[i] == c;
        assert pieces[i] in pieces;
      }
    }
  }

  function Quoteds(arguments: seq<string>): seq<Lexeme> {
    seq(|arguments|, i requires 0 <= i < |arguments| => Quoted(PiecesOf(arguments[i])))
  }

  function GapsFrom(lead: nat, n: nat): seq<nat>
    requires n > 0
  {
    [lead] + seq(n - 1, _ => 1) + [0]
  }

  lemma {:induction false} JoinWritten(arguments: seq<string>, lead: nat)
    requires arguments != []
    ensures GapsAllowed(GapsFrom(lead, |arguments|), |arguments|)
    ensures Written(Quoteds(arguments), GapsFrom(lead, |arguments|)) == Spaces(lead) + Join(arguments)
  {
    hide Quote, PiecesOf, LexemeText, Spaces;
    var gaps, first := GapsFrom(lead, |arguments|), Quoted(PiecesOf(arguments[0]));
    FirstText(arguments[0]);
    assert Quoteds(arguments)[0] == first && Quoteds(arguments)[1..] == Quoteds(arguments[1..]);
    if |arguments| == 1 {
      assert gaps[1..] == [0];
      NoSpaces();
      assert Quoteds(arguments[1..]) == [];
    } else {
      JoinWritten(arguments[1..], 1);
      OneSpace();
      assert gaps[1..] == GapsFrom(1, |arguments| - 1);
      var rest := Join(arguments[1..]);
      assert Spaces(lead) + Quote(arguments[0]) + (" " + rest) == Spaces(lead) + (Quote(arguments[0]) + " " + rest);
    }
  }

  lemma FirstText(argument: string)
    ensures Quote(argument) == LexemeText(Quoted(PiecesOf(argument)))
  {
  }

  lemma NoSpaces()
    ensures Spaces(0) == ""
  {
  }

  lemma OneSpace()
    ensures Spaces(1) == " "
  {
  }

  /** A quoted argument holding a control byte other than a tab or newline is refused. */
  lemma {:induction false} ControlRefused(argument: string, rest: string)
    requires ReadPieces(true, PiecesText(PiecesOf(argument)) + "\"" + rest).Success?
    ensures forall c <- argument :: Control(c) ==> c == '\t' || c == '\n'
  {
    hide PieceOf, PieceText, PiecesOf, PiecesText, ReadPieces;
    if argument != "" {
      var tail := PiecesText(PiecesOf(argument[1..])) + "\"" + rest;
      EscapedTail(argument, rest);
      EscapedRead(argument[0], tail);
      ControlRefused(argument[1..], rest);
      assert argument == [argument[0]] + argument[1..];
    }
  }

  lemma EscapedTail(argument: string, rest: string)
    requires argument != ""
    ensures PiecesText(PiecesOf(argument)) + "\"" + rest
      == PieceText(PieceOf(argument[0])) + (PiecesText(PiecesOf(argument[1..])) + "\"" + rest)
  {
    hide PieceOf, PieceText;
    assert PiecesOf(argument)[1..] == PiecesOf(argument[1..]);
  }

  lemma EscapedRead(c: char, tail: string)
    requires ReadPieces(true, PieceText(PieceOf(c)) + tail).Success?
    ensures ReadPieces(true, tail).Success? && (Control(c) ==> c == '\t' || c == '\n')
  {
    var text := PieceText(PieceOf(c)) + tail;
    assert text[|PieceText(PieceOf(c))|..] == tail;
  }

  lemma QuotedControlRefused(argument: string, rest: string)
    requires ReadLexemes(Quote(argument) + rest).Success?
    ensures LexemeAllowed(Quoted(PiecesOf(argument)))
  {
    hide ReadPieces, PiecesOf, LexemeAllowed;
    var text := Quote(argument) + rest;
    assert text[1..] == PiecesText(PiecesOf(argument)) + "\"" + rest;
    ControlRefused(argument, rest);
    QuoteAllowed(argument);
  }

  /** A joined row of quoted arguments is read if and only if none of them holds a forbidden control byte. */
  lemma {:induction false} JoinControlRefused(arguments: seq<string>)
    requires ReadLexemes(Join(arguments)).Success?
    ensures forall lexeme <- Quoteds(arguments) :: LexemeAllowed(lexeme)
  {
    hide LexemeAllowed, ReadLexemes, Quote, PiecesOf;
    if arguments != [] {
      var first, rest := arguments[0], if |arguments| == 1 then "" else " " + Join(arguments[1..]);
      assert Join(arguments) == Quote(first) + rest;
      QuotedControlRefused(first, rest);
      ReadsArgument(Quoted(PiecesOf(first)), rest);
      FirstText(first);
      if |arguments| > 1 {
        OneSpace();
        SkipSpaces(1, Join(arguments[1..]));
        JoinControlRefused(arguments[1..]);
      }
      assert Quoteds(arguments) == [Quoted(PiecesOf(first))] + Quoteds(arguments[1..]);
    }
  }

  lemma {:induction false} JoinAscii(arguments: seq<string>)
    ensures (forall c <- Join(arguments) :: Ascii(c)) <==> forall argument <- arguments, c <- argument :: Ascii(c)
  {
    hide Quote;
    if arguments != [] {
      var first, rest := arguments[0], if |arguments| == 1 then "" else " " + Join(arguments[1..]);
      assert Join(arguments) == Quote(first) + rest;
      QuoteAscii(first);
      JoinAscii(arguments[1..]);
      assert arguments == [first] + arguments[1..];
    }
  }

  lemma {:induction false} QuoteAscii(argument: string)
    ensures (forall c <- Quote(argument) :: Ascii(c)) <==> forall c <- argument :: Ascii(c)
  {
    PiecesAscii(argument);
  }

  lemma {:induction false} PiecesAscii(argument: string)
    ensures (forall c <- PiecesText(PiecesOf(argument)) :: Ascii(c)) <==> forall c <- argument :: Ascii(c)
  {
    if argument != "" {
      PiecesAscii(argument[1..]);
      assert argument == [argument[0]] + argument[1..];
      assert PiecesOf(argument)[1..] == PiecesOf(argument[1..]);
      var piece := PieceText(PieceOf(argument[0]));
      assert argument[0] in piece;
      assert PiecesText(PiecesOf(argument)) == piece + PiecesText(PiecesOf(argument[1..]));
    }
  }

  function Literals(arguments: seq<string>): seq<Token> {
    seq(|arguments|, i requires 0 <= i < |arguments| => Token(arguments[i], ""))
  }

  lemma {:induction false} QuotedMeanings(arguments: seq<string>)
    ensures Meanings(Quoteds(arguments)) == Literals(arguments)
  {
    if arguments != [] {
      QuotedMeanings(arguments[1..]);
      QuoteMeaning(arguments[0]);
      assert Quoteds(arguments)[1..] == Quoteds(arguments[1..]);
      assert Literals(arguments) == [Token(arguments[0], "")] + Literals(arguments[1..]);
    }
  }

  lemma {:induction false} NoCodes(arguments: seq<string>)
    ensures AllCodes(Literals(arguments)) == ""
  {
    if arguments != [] {
      NoCodes(arguments[..|arguments| - 1]);
      assert Literals(arguments)[..|arguments| - 1] == Literals(arguments[..|arguments| - 1]);
    }
  }

  lemma JudgeLiterals(arguments: seq<string>)
    requires arguments != []
    ensures Judge(Literals(arguments)).Success? <==> arguments[0] != "" && '=' !in arguments[0]
    ensures Judge(Literals(arguments)).Success? ==> Judge(Literals(arguments)).value == arguments[0]
  {
    NoCodes(arguments);
    hide AllCodes;
    assert forall token <- Literals(arguments) :: CodesAlone(token);
  }

  /** Reading undoes quoting: arguments quoted and joined are read back exactly. */
  lemma JoinReadBack(arguments: seq<string>)
    requires forall lexeme <- Quoteds(arguments) :: LexemeAllowed(lexeme)
    ensures ReadLexemes(Join(arguments)) == Success(Quoteds(arguments))
  {
    hide LexemeAllowed, ReadLexemes;
    if arguments == [] {
      ReadsNothing();
      assert Quoteds(arguments) == [];
    } else {
      JoinWritten(arguments, 0);
      NoSpaces();
      assert Spaces(0) + Join(arguments) == Join(arguments);
      ReadsAllGrammar(Quoteds(arguments), GapsFrom(0, |arguments|));
    }
  }

  /** A joined row of quoted arguments is accepted exactly when it fits, names an executable without an equals sign, and
      holds only ASCII without control bytes other than tabs and newlines; it is then read as those very arguments. */
  lemma QuotingExact(arguments: seq<string>)
    ensures Accepted(Join(arguments)).Success?
      <==> arguments != [] && |Join(arguments)| <= MAX_EXEC_BYTES && (forall argument <- arguments :: Sayable(argument))
           && arguments[0] != "" && '=' !in arguments[0]
    ensures Accepted(Join(arguments)).Success? ==>
      Accepted(Join(arguments)).value == arguments[0] && Meanings(ReadLexemes(Join(arguments)).value) == Literals(arguments)
  {
    hide ReadLexemes, LexemeAllowed, Judge, Quote, PiecesOf;
    var line := Join(arguments);
    JoinAscii(arguments);
    QuotedsAllowed(arguments);
    if ReadLexemes(line).Success? {
      JoinControlRefused(arguments);
    }
    if forall lexeme <- Quoteds(arguments) :: LexemeAllowed(lexeme) {
      JoinReadBack(arguments);
      QuotedMeanings(arguments);
      if arguments != [] {
        JudgeLiterals(arguments);
        JoinNotEmpty(arguments);
      }
    }
  }

  lemma JoinNotEmpty(arguments: seq<string>)
    requires arguments != []
    ensures Join(arguments) != ""
  {
  }

  lemma QuotedsAllowed(arguments: seq<string>)
    ensures (forall lexeme <- Quoteds(arguments) :: LexemeAllowed(lexeme))
      <==> forall argument <- arguments, c <- argument :: Control(c) ==> c == '\t' || c == '\n'
  {
    hide LexemeAllowed, PiecesOf;
    forall i | 0 <= i < |arguments|
      ensures LexemeAllowed(Quoteds(arguments)[i]) <==> forall c <- arguments[i] :: Control(c) ==> c == '\t' || c == '\n'
    {
      QuoteAllowed(arguments[i]);
    }
    if forall lexeme <- Quoteds(arguments) :: LexemeAllowed(lexeme) {
      forall argument | argument in arguments ensures forall c <- argument :: Control(c) ==> c == '\t' || c == '\n' {
        var i :| 0 <= i < |arguments| && arguments[i] == argument;
        assert Quoteds(arguments)[i] in Quoteds(arguments);
      }
    }
  }

  // ---- The reader's loops

  function After(pieces: seq<Piece>, r: Result<seq<Piece>, ExecError>): Result<seq<Piece>, ExecError> {
    if r.Success? then Success(pieces + r.value) else r
  }

  /** The piece that begins at `offset`, and where the next one begins. */
  method NextPiece(line: string, offset: nat, quoted: bool) returns (r: Result<Piece, ExecError>, next: nat)
    requires offset < |line| && !Ends(quoted, line[offset..])
    ensures r == ReadPiece(quoted, line[offset..])
    ensures r.Success? ==> next == offset + |PieceText(r.value)| && next <= |line|
  {
    next := offset;
    var c := line[offset];
    if quoted && c == '\\' {
      if offset + 1 == |line| {
        return Failure(IncompleteEscape), next;
      }
      var escaped := line[offset + 1];
      if !Escapable(escaped) {
        return Failure(BadEscape), next;
      }
      return Success(Escaped(escaped)), offset + 2;
    }
    if quoted && (c == '`' || c == '$') {
      return Failure(ReservedCharacter), next;
    }
    if c == '%' {
      if offset + 1 == |line| {
        return Failure(IncompleteCode), next;
      }
      var code := line[offset + 1];
      if !FieldCode(code) && code != '%' {
        return Failure(UnknownCode), next;
      }
      next := offset + 2;
      if code == '%' {
        return Success(Percent), next;
      }
      if quoted {
        return Failure(CodeInQuotes), next;
      }
      return Success(Code(code)), next;
    }
    if quoted && Control(c) && c != '\t' && c != '\n' {
      return Failure(ControlByte), next;
    }
    if !quoted && (Reserved(c) || Control(c)) {
      return Failure(ReservedCharacter), next;
    }
    return Success(Plain(c)), offset + 1;
  }

  function Extended(token: Token, piece: Piece): Token {
    match piece
    case Plain(c) => Token(token.literal + [c], token.codes)
    case Escaped(c) => Token(token.literal + [c], token.codes)
    case Percent => Token(token.literal + "%", token.codes)
    case Code(c) => Token(token.literal, token.codes + [c])
  }

  /** Reads one argument, up to its closing quote if it is quoted, and where it ends. */
  method ReadToken(line: string, start: nat, quoted: bool) returns (r: Result<Token, ExecError>, offset: nat)
    requires start <= |line|
    ensures offset <= |line|
    ensures
      var read := ReadPieces(quoted, line[start..]);
      if read.Success? then r == Success(PiecesMeaning(read.value)) && offset == start + |PiecesText(read.value)|
      else r == Failure(read.error)
  {
    hide ReadPieces, ReadPiece, PieceText, PiecesText, PiecesMeaning, Extended;
    var token := Token("", "");
    offset := start;
    ghost var pieces: seq<Piece> := [];
    NothingRead(quoted, line[start..]);
    while offset < |line| && line[offset] != (if quoted then '\"' else ' ')
      invariant start <= offset <= |line| && offset == start + |PiecesText(pieces)|
      invariant token == PiecesMeaning(pieces)
      invariant ReadPieces(quoted, line[start..]) == After(pieces, ReadPieces(quoted, line[offset..]))
    {
      ghost var text := line[offset..];
      var piece, next := NextPiece(line, offset, quoted);
      ReadStep(quoted, text);
      if piece.Failure? {
        return Failure(piece.error), offset;
      }
      token := Extended(token, piece.value);
      AddPiece(pieces, piece.value);
      assert text[|PieceText(piece.value)|..] == line[next..];
      AfterAfter(pieces, piece.value, ReadPieces(quoted, line[next..]));
      pieces := pieces + [piece.value];
      offset := next;
    }
    PiecesNonempty(quoted, line[offset..]);
    assert pieces + [] == pieces;
    return Success(token), offset;
  }

  lemma AfterAfter(pieces: seq<Piece>, piece: Piece, r: Result<seq<Piece>, ExecError>)
    ensures After(pieces, After([piece], r)) == After(pieces + [piece], r)
  {
    if r.Success? {
      assert pieces + ([piece] + r.value) == pieces + [piece] + r.value;
    }
  }

  lemma NothingRead(quoted: bool, text: string)
    ensures PiecesText([]) == "" && PiecesMeaning([]) == Token("", "")
    ensures ReadPieces(quoted, text) == After([], ReadPieces(quoted, text))
  {
    var r := ReadPieces(quoted, text);
    if r.Success? {
      assert [] + r.value == r.value;
    }
  }

  lemma ReadStep(quoted: bool, text: string)
    requires !Ends(quoted, text)
    ensures
      var piece := ReadPiece(quoted, text);
      if piece.Failure? then ReadPieces(quoted, text) == Failure(piece.error)
      else 0 < |PieceText(piece.value)| <= |text| && ReadPieces(quoted, text) == After([piece.value], ReadPieces(quoted, text[|PieceText(piece.value)|..]))
  {
  }

  lemma {:induction false} AddPiece(pieces: seq<Piece>, piece: Piece)
    ensures |PiecesText(pieces + [piece])| == |PiecesText(pieces)| + |PieceText(piece)|
    ensures PiecesMeaning(pieces + [piece]) == Extended(PiecesMeaning(pieces), piece)
  {
    hide PieceText;
    if pieces == [] {
      assert [] + [piece] == [piece];
      assert [piece][1..] == [];
    } else {
      AddPiece(pieces[1..], piece);
      assert (pieces + [piece])[1..] == pieces[1..] + [piece];
    }
  }

  function Further(tokens: seq<Token>, r: Result<seq<Lexeme>, ExecError>): Result<seq<Token>, ExecError> {
    if r.Success? then Success(tokens + Meanings(r.value)) else Failure(r.error)
  }

  method SkipSpacesFrom(line: string, start: nat) returns (offset: nat)
    requires start <= |line|
    ensures start <= offset <= |line| && (offset < |line| ==> line[offset] != ' ')
    ensures ReadLexemes(line[start..]) == ReadLexemes(line[offset..])
  {
    hide ReadLexemes;
    offset := start;
    while offset < |line| && line[offset] == ' '
      invariant start <= offset <= |line|
      invariant ReadLexemes(line[start..]) == ReadLexemes(line[offset..])
    {
      SpaceStep(line[offset..]);
      assert line[offset..][1..] == line[offset + 1..];
      offset := offset + 1;
    }
  }

  lemma Slice<T>(s: seq<T>, i: nat, j: nat)
    requires i + j <= |s|
    ensures s[i..][j..] == s[i + j..]
  {
  }

  /** Reads the argument that begins at `offset`, quotes and all, to follow those already read. */
  method NextArgument(line: string, offset: nat, ghost tokens: seq<Token>) returns (r: Result<Token, ExecError>, end: nat)
    requires offset < |line| && line[offset] != ' '
    ensures r.Failure? ==> Further(tokens, ReadLexemes(line[offset..])) == Failure(r.error)
    ensures r.Success? ==> offset < end <= |line|
    ensures r.Success? ==> Further(tokens, ReadLexemes(line[offset..])) == Further(tokens + [r.value], ReadLexemes(line[end..]))
  {
    hide ReadPieces, ReadLexemes, PiecesMeaning, PiecesText, Further;
    var quoted := line[offset] == '\"';
    var start := if quoted then offset + 1 else offset;
    Slice(line, offset, 1);
    r, end := ReadToken(line, start, quoted);
    TokenStep(tokens, line[offset..]);
    if r.Failure? {
      return;
    }
    Slice(line, start, end - start);
    if quoted {
      if end == |line| {
        return Failure(NotTerminated), end;
      }
      end := end + 1;
      if end < |line| && line[end] != ' ' {
        return Failure(QuotedInPart), end;
      }
      Slice(line, end - 1, 1);
    }
  }

  method Tokenize(line: string) returns (r: Result<seq<Token>, ExecError>)
    ensures r == Further([], ReadLexemes(line))
  {
    hide ReadLexemes, Further;
    var offset, tokens: seq<Token> := 0, [];
    assert line[0..] == line;
    while offset < |line|
      invariant offset <= |line|
      invariant Further([], ReadLexemes(line)) == Further(tokens, ReadLexemes(line[offset..]))
      decreases |line| - offset
    {
      offset := SkipSpacesFrom(line, offset);
      if offset == |line| {
        break;
      }
      var token, end := NextArgument(line, offset, tokens);
      if token.Failure? {
        return Failure(token.error);
      }
      tokens := tokens + [token.value];
      offset := end;
    }
    EndOfLine(tokens);
    assert line[offset..] == "";
    return Success(tokens);
  }

  lemma EndOfLine(tokens: seq<Token>)
    ensures Further(tokens, ReadLexemes("")) == Success(tokens)
  {
    ReadsNothing();
    assert tokens + [] == tokens;
  }

  lemma SpaceStep(text: string)
    requires text != "" && text[0] == ' '
    ensures ReadLexemes(text) == ReadLexemes(text[1..])
  {
  }

  function Body(text: string): string
    requires text != ""
  {
    if text[0] == '\"' then text[1..] else text
  }

  /** One argument more. */
  lemma TokenStep(tokens: seq<Token>, text: string)
    requires text != "" && text[0] != ' '
    ensures
      var quoted, body := text[0] == '\"', Body(text);
      var read := ReadPieces(quoted, body);
      if read.Failure? then Further(tokens, ReadLexemes(text)) == Failure(read.error)
      else
        var rest := body[|PiecesText(read.value)|..];
        if quoted && rest == "" then Further(tokens, ReadLexemes(text)) == Failure(NotTerminated)
        else if quoted && |rest| > 1 && rest[1] != ' ' then Further(tokens, ReadLexemes(text)) == Failure(QuotedInPart)
        else
          Further(tokens, ReadLexemes(text))
          == Further(tokens + [PiecesMeaning(read.value)], ReadLexemes(if quoted then rest[1..] else rest))
    ensures text[0] != '\"' && ReadPieces(false, text).Success? ==> PiecesText(ReadPieces(false, text).value) != ""
  {
    hide ReadPieces, PiecesMeaning;
    var quoted, body := text[0] == '\"', Body(text);
    var read := ReadPieces(quoted, body);
    if read.Success? {
      if !quoted {
        BareNotEmpty(text);
      }
      var rest := body[|PiecesText(read.value)|..];
      if !(quoted && (rest == "" || (|rest| > 1 && rest[1] != ' '))) {
        var following := ReadLexemes(if quoted then rest[1..] else rest);
        if following.Success? {
          var lexeme := if quoted then Quoted(read.value) else Bare(read.value);
          MeaningsStep(lexeme, following.value);
          assert tokens + ([PiecesMeaning(read.value)] + Meanings(following.value))
              == tokens + [PiecesMeaning(read.value)] + Meanings(following.value);
        }
      }
    }
  }

  lemma MeaningsStep(lexeme: Lexeme, lexemes: seq<Lexeme>)
    ensures Meanings([lexeme] + lexemes) == [PiecesMeaning(lexeme.pieces)] + Meanings(lexemes)
  {
    assert ([lexeme] + lexemes)[1..] == lexemes;
  }

  /** Whether the codes of one argument that must stand alone do, and how many of its codes stand for files. */
  method CheckToken(token: Token) returns (alone: bool, files: nat)
    ensures alone == CodesAlone(token)
    ensures alone ==> files == FileCodes(token.codes)
  {
    var codes := token.codes;
    var single := token.literal == "" && |codes| == 1;
    files := 0;
    for j := 0 to |codes|
      invariant forall code <- codes[..j] :: code in "FUi" ==> single
      invariant files == FileCodes(codes[..j])
    {
      var code := codes[j];
      assert codes[..j + 1][..j] == codes[..j];
      if FileCode(code) {
        files := files + 1;
      }
      if code in "FUi" && !single {
        NotAlone(token, code);
        return false, files;
      }
    }
    assert codes[..|codes|] == codes;
    assert single ==> token == Token("", [codes[0]]);
    return true, files;
  }

  method CheckCodes(tokens: seq<Token>) returns (error: Option<ExecError>)
    ensures error == JudgeCodes(tokens)
  {
    hide CodesAlone, FileCodes;
    var count := 0;
    NoFileCodes();
    for i := 0 to |tokens|
      invariant forall token <- tokens[..i] :: CodesAlone(token)
      invariant count == FileCodes(AllCodes(tokens[..i]))
    {
      var alone, files := CheckToken(tokens[i]);
      if !alone {
        return Some(CodeNotAlone);
      }
      assert tokens[..i + 1][..i] == tokens[..i];
      FileCodesAdd(AllCodes(tokens[..i]), tokens[i].codes);
      count := count + files;
    }
    assert tokens[..|tokens|] == tokens;
    return if count > 1 then Some(TooManyFileCodes) else None;
  }

  lemma NoFileCodes()
    ensures FileCodes("") == 0
  {
  }

  lemma {:induction false} FileCodesAdd(a: string, b: string)
    ensures FileCodes(a + b) == FileCodes(a) + FileCodes(b)
  {
    hide FileCode;
    if b == "" {
      assert a + b == a;
    } else {
      FileCodesAdd(a, b[..|b| - 1]);
      assert (a + b)[..|a + b| - 1] == a + b[..|b| - 1];
    }
  }

  lemma NotAlone(token: Token, code: char)
    requires code in token.codes && code in "FUi" && !(token.literal == "" && |token.codes| == 1)
    ensures !CodesAlone(token)
  {
    assert token != Token("", [code]);
  }

  /** Validates a command line and returns its executable. */
  method ParseExec(commandline: string) returns (r: Result<string, ExecError>)
    ensures r == Accepted(commandline)
  {
    hide ReadLexemes, JudgeCodes;
    if commandline == "" || |commandline| > MAX_EXEC_BYTES || exists c <- commandline :: !Ascii(c) {
      return Failure(BadLength);
    }
    var read := Tokenize(commandline);
    if read.Failure? {
      return Failure(read.error);
    }
    var tokens := read.value;
    assert tokens == Meanings(ReadLexemes(commandline).value);
    if tokens == [] {
      return Failure(NoExecutable);
    }
    var executable := tokens[0];
    if executable.literal == "" {
      return Failure(EmptyExecutable);
    }
    if executable.codes != "" {
      return Failure(CodeInExecutable);
    }
    if '=' in executable.literal {
      return Failure(EqualsInExecutable);
    }
    var error := CheckCodes(tokens);
    if error.Some? {
      return Failure(error.value);
    }
    return Success(executable.literal);
  }
}
