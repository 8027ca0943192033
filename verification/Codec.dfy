/**
 Text and Morse tokens: splitting text into tokens, printing tokens as text,
 and the lenient splitter for what an operator typed.
 */
module Codec {
  import opened Wrappers

  datatype Prosign = Ar | Sk | Bt | Kn | As | Hh | Sos

  datatype Token = Char(c: char) | Sign(p: Prosign) | WordSpace

  /** Offsets are byte offsets into the UTF-8 text. */
  datatype CodecError =
    | UnknownChar(ch: char, offset: nat)
    | UnknownProsign(name: string, offset: nat)
    | UnterminatedProsign(offset: nat)

  function Name(p: Prosign): string {
    match p
    case Ar => "AR"
    case Sk => "SK"
    case Bt => "BT"
    case Kn => "KN"
    case As => "AS"
    case Hh => "HH"
    case Sos => "SOS"
  }

  const ALL_PROSIGNS: seq<Prosign> := [Ar, Sk, Bt, Kn, As, Hh, Sos]

  function AsciiUpper(c: char): char {
    if 'a' <= c <= 'z' then (c as int - 32) as char else c
  }

  predicate EqIgnoreAsciiCase(a: string, b: string) {
    |a| == |b| && forall i :: 0 <= i < |a| ==> AsciiUpper(a[i]) == AsciiUpper(b[i])
  }

  /** The first prosign, in table order from `k`, that `name` spells in any case. */
  function FromNameAfter(name: string, k: nat): Option<Prosign>
    decreases |ALL_PROSIGNS| - k
  {
    if k >= |ALL_PROSIGNS| then None
    else if EqIgnoreAsciiCase(Name(ALL_PROSIGNS[k]), name) then Some(ALL_PROSIGNS[k])
    else FromNameAfter(name, k + 1)
  }

  function FromName(name: string): Option<Prosign> {
    FromNameAfter(name, 0)
  }

  /** The characters with a Morse pattern. */
  predicate InTable(c: char) {
    'A' <= c <= 'Z' || '0' <= c <= '9' || c in {'.', ',', '?', '/', '=', '-', '\'', ':', '"', '(', ')', '@', '+', '!', '&'}
  }

  /** Unicode White_Space. */
  predicate IsWhitespace(c: char) {
    || '\t' <= c <= '\r'
    || c in {' ', '\U{85}', '\U{A0}', '\U{1680}', '\U{2028}', '\U{2029}', '\U{202F}', '\U{205F}', '\U{3000}'}
    || '\U{2000}' <= c <= '\U{200A}'
  }

  function Utf8Len(c: char): nat {
    if c < '\U{80}' then 1 else if c < '\U{800}' then 2 else if c < '\U{10000}' then 3 else 4
  }

  function Bytes(text: string): nat {
    if text == [] then 0 else Utf8Len(text[0]) + Bytes(text[1..])
  }

  /** Folds each character that shares its pattern with a prosign to the prosign, and letters to upper case. */
  function Canonical(t: Token): Token {
    match t
    case Char(c) =>
      var u := AsciiUpper(c);
      if u == '=' then Sign(Bt)
      else if u == '+' then Sign(Ar)
      else if u == '(' then Sign(Kn)
      else if u == '&' then Sign(As)
      else Char(u)
    case _ => t
  }

  // -------------------------------------------------------------------------
  // Printing
  // -------------------------------------------------------------------------

  function Show(t: Token): string {
    match t
    case Char(c) => [c]
    case Sign(p) => "<" + Name(p) + ">"
    case WordSpace => " "
  }

  function TokensToText(ts: seq<Token>): string {
    if ts == [] then "" else Show(ts[0]) + TokensToText(ts[1..])
  }

  /** How each token prints. */
  lemma PrintsAs(c: char)
    ensures TokensToText([Char(c)]) == [c] && TokensToText([WordSpace]) == " "
    ensures TokensToText([Sign(Ar)]) == "<AR>" && TokensToText([Sign(Sk)]) == "<SK>" && TokensToText([Sign(Bt)]) == "<BT>"
    ensures TokensToText([Sign(Kn)]) == "<KN>" && TokensToText([Sign(As)]) == "<AS>"
    ensures TokensToText([Sign(Hh)]) == "<HH>" && TokensToText([Sign(Sos)]) == "<SOS>"
  {
    forall t: Token ensures TokensToText([t]) == Show(t) {
      assert [t][1..] == [] && TokensToText([t]) == Show(t) + "";
    }
  }

  /** A list prints as its parts do. */
  lemma {:induction false} PrintsInParts(a: seq<Token>, b: seq<Token>)
    ensures TokensToText(a + b) == TokensToText(a) + TokensToText(b)
    decreases |a|
  {
    hide Show;
    if a == [] {
      assert a + b == b;
    } else {
      assert (a + b)[1..] == a[1..] + b && (a + b)[0] == a[0];
      PrintsInParts(a[1..], b);
    }
  }

  // -------------------------------------------------------------------------
  // Tokenizing
  // -------------------------------------------------------------------------

  /** The index of the first `>` at or after `i`. */
  function FindClose(text: string, i: nat): (r: Option<nat>)
    ensures r.Some? ==> i <= r.value < |text| && text[r.value] == '>' && '>' !in text[i..r.value]
    ensures r.None? ==> forall k :: i <= k < |text| ==> text[k] != '>'
    decreases |text| - i
  {
    if i >= |text| then None
    else if text[i] == '>' then Some(i)
    else
      var r := FindClose(text, i + 1);
      assert r.Some? ==> text[i..r.value] == [text[i]] + text[i + 1..r.value];
      r
  }

  /** The token at the front of `text`, which starts with no space, and how many characters it takes. */
  function NextToken(text: string, offset: nat): (r: Result<(Token, nat), CodecError>)
    requires text != []
    ensures r.Ok? ==> 1 <= r.value.1 <= |text|
  {
    if text[0] == '<' then
      match FindClose(text, 1)
      case None => Err(UnterminatedProsign(offset))
      case Some(close) =>
        match FromName(text[1..close])
        case Some(p) => Ok((Sign(p), close + 1))
        case None => Err(UnknownProsign(text[1..close], offset))
    else if InTable(AsciiUpper(text[0])) then Ok((Char(AsciiUpper(text[0])), 1))
    else Err(UnknownChar(text[0], offset))
  }

  /** The separator owed before the next token. */
  function Gap(pending: bool): seq<Token> {
    if pending then [WordSpace] else []
  }

  /** What `text` adds to the tokens already read: `started` says there are some, `pending` that space followed them. */
  function Rest(text: string, started: bool, pending: bool, offset: nat): Result<seq<Token>, CodecError>
    decreases |text|
  {
    if text == [] then Ok([])
    else if IsWhitespace(text[0]) then Rest(text[1..], started, started, offset + Utf8Len(text[0]))
    else
      match NextToken(text, offset)
      case Err(e) => Err(e)
      case Ok((token, used)) =>
        match Rest(text[used..], true, false, offset + Bytes(text[..used]))
        case Err(e) => Err(e)
        case Ok(tail) => Ok(Gap(pending) + [token] + tail)
  }

  function Tokens(text: string): Result<seq<Token>, CodecError> {
    Rest(text, false, false, 0)
  }

  /** Table tokens, upper case, with no leading, trailing or doubled word space. */
  predicate Normalised(ts: seq<Token>) {
    && (ts != [] ==> ts[0] != WordSpace)
    && NormalisedAfterToken(ts)
  }

  predicate NormalisedAfterToken(ts: seq<Token>) {
    && (forall i :: 0 <= i < |ts| && ts[i].Char? ==> InTable(ts[i].c))
    && Spaced(ts)
  }

  /** Every word space is followed by something else. */
  predicate Spaced(ts: seq<Token>) {
    forall i :: 0 <= i < |ts| && ts[i].WordSpace? ==> i + 1 < |ts| && !ts[i + 1].WordSpace?
  }

  lemma NamesDiffer(p: Prosign, q: Prosign)
    requires p != q
    ensures !EqIgnoreAsciiCase(Name(p), Name(q))
  {
    assert |Name(p)| == |Name(q)| ==> Name(p)[0] != Name(q)[0] || Name(p)[1] != Name(q)[1];
  }

  lemma {:induction false} NameFound(p: Prosign, k: nat, at: nat)
    requires k <= at < |ALL_PROSIGNS| && ALL_PROSIGNS[at] == p
    ensures FromNameAfter(Name(p), k) == Some(p)
    decreases at - k
  {
    if ALL_PROSIGNS[k] != p {
      NamesDiffer(ALL_PROSIGNS[k], p);
      NameFound(p, k + 1, at);
    }
  }

  /** A prosign's name is read back as the prosign. */
  lemma NameRoundTrip(p: Prosign)
    ensures FromName(Name(p)) == Some(p)
  {
    var at :| 0 <= at < |ALL_PROSIGNS| && ALL_PROSIGNS[at] == p by {
      assert ALL_PROSIGNS[0] == Ar && ALL_PROSIGNS[1] == Sk && ALL_PROSIGNS[2] == Bt && ALL_PROSIGNS[3] == Kn;
      assert ALL_PROSIGNS[4] == As && ALL_PROSIGNS[5] == Hh && ALL_PROSIGNS[6] == Sos;
    }
    NameFound(p, 0, at);
  }

  lemma CloseOfPrinted(name: string, rest: string)
    requires '>' !in name
    ensures FindClose("<" + name + ">" + rest, 1) == Some(|name| + 1)
  {
    var text := "<" + name + ">" + rest;
    assert text[|name| + 1] == '>';
    forall k | 1 <= k <= |name| ensures text[k] != '>' {
      assert text[k] == name[k - 1];
    }
  }

  lemma NextTokenOfSign(p: Prosign, rest: string, offset: nat)
    ensures NextToken(Show(Sign(p)) + rest, offset) == Ok((Sign(p), |Show(Sign(p))|))
  {
    hide FromName, FindClose, InTable, Name, AsciiUpper;
    var name := Name(p);
    var text := Show(Sign(p)) + rest;
    assert text == "<" + name + ">" + rest;
    NameHasNoClose(p);
    NameRoundTrip(p);
    CloseOfPrinted(name, rest);
    assert text[1..|name| + 1] == name && text[0] == '<';
  }

  lemma NameHasNoClose(p: Prosign)
    ensures '>' !in Name(p)
  {
  }

  /** A printed token is read back from the front of any text it starts. */
  lemma NextTokenOfShow(t: Token, rest: string, offset: nat)
    requires !t.WordSpace? && (t.Char? ==> InTable(t.c))
    ensures !IsWhitespace((Show(t) + rest)[0])
    ensures NextToken(Show(t) + rest, offset) == Ok((t, |Show(t)|))
  {
    hide FromName, FindClose, Name;
    if t.Sign? {
      NextTokenOfSign(t.p, rest, offset);
    }
  }

  lemma RestAfterSpace(tail: string, started: bool, offset: nat)
    ensures Rest(" " + tail, started, false, offset) == Rest(tail, started, started, offset + 1)
  {
    assert (" " + tail)[1..] == tail;
  }

  lemma RestAfterToken(t: Token, tail: string, started: bool, pending: bool, offset: nat)
    requires !t.WordSpace? && (t.Char? ==> InTable(t.c))
    requires Rest(tail, true, false, offset + Bytes(Show(t))).Ok?
    ensures Rest(Show(t) + tail, started, pending, offset)
         == Ok(Gap(pending) + [t] + Rest(tail, true, false, offset + Bytes(Show(t))).value)
  {
    hide NextToken, InTable, IsWhitespace, Bytes;
    NextTokenOfShow(t, tail, offset);
    var text := Show(t) + tail;
    assert text[|Show(t)|..] == tail && text[..|Show(t)|] == Show(t);
  }

  lemma {:induction false} RestOfPrinted(ts: seq<Token>, started: bool, offset: nat)
    requires NormalisedAfterToken(ts) && (!started && ts != [] ==> ts[0] != WordSpace)
    ensures Rest(TokensToText(ts), started, false, offset) == Ok(ts)
    decreases |ts|
  {
    hide InTable, Show, Rest;
    if ts == [] {
      assert Rest("", started, false, offset) == Ok([]) by { NothingLeft(started, false, offset); }
    } else if ts[0].WordSpace? {
      var rest := ts[2..];
      assert ts == [WordSpace] + [ts[1]] + rest;
      assert ts[1..][1..] == rest;
      RestAfterSpace(TokensToText(ts[1..]), started, offset);
      RestOfPrinted(rest, true, offset + 1 + Bytes(Show(ts[1])));
      RestAfterToken(ts[1], TokensToText(rest), true, true, offset + 1);
      SpacePrints();
    } else {
      RestOfPrinted(ts[1..], true, offset + Bytes(Show(ts[0])));
      RestAfterToken(ts[0], TokensToText(ts[1..]), started, false, offset);
      assert ts == Gap(false) + [ts[0]] + ts[1..];
    }
  }

  lemma NothingLeft(started: bool, pending: bool, offset: nat)
    ensures Rest("", started, pending, offset) == Ok([])
  {
  }

  lemma SpacePrints()
    ensures Show(WordSpace) == " "
  {
  }

  /** Printing a normalised token list and tokenizing the text gives the list back. */
  lemma PrintThenTokenize(ts: seq<Token>)
    requires Normalised(ts)
    ensures Tokens(TokensToText(ts)) == Ok(ts)
  {
    RestOfPrinted(ts, false, 0);
  }

  lemma TokenFits(text: string, offset: nat)
    requires text != [] && NextToken(text, offset).Ok?
    ensures var token := NextToken(text, offset).value.0;
            !token.WordSpace? && (token.Char? ==> InTable(token.c))
  {
  }

  lemma PrependKeepsNormalised(pending: bool, token: Token, tail: seq<Token>)
    requires NormalisedAfterToken(tail) && !token.WordSpace? && (token.Char? ==> InTable(token.c))
    ensures NormalisedAfterToken(Gap(pending) + [token] + tail)
  {
    hide InTable;
  }

  lemma {:induction false} RestIsNormalised(text: string, started: bool, pending: bool, offset: nat)
    requires pending ==> started
    requires Rest(text, started, pending, offset).Ok?
    ensures var ts := Rest(text, started, pending, offset).value;
            NormalisedAfterToken(ts) && (!started && ts != [] ==> ts[0] != WordSpace)
    decreases |text|
  {
    hide NormalisedAfterToken, NextToken, InTable, IsWhitespace, Utf8Len, Bytes;
    if text == [] {
      NothingNormalised();
    } else {
      if IsWhitespace(text[0]) {
        RestIsNormalised(text[1..], started, started, offset + Utf8Len(text[0]));
      } else {
        var (token, used) := NextToken(text, offset).value;
        RestIsNormalised(text[used..], true, false, offset + Bytes(text[..used]));
        TokenFits(text, offset);
        PrependKeepsNormalised(pending, token, Rest(text[used..], true, false, offset + Bytes(text[..used])).value);
      }
    }
  }

  lemma NothingNormalised()
    ensures NormalisedAfterToken([])
  {
  }

  /** What tokenizes is normalised, and prints to text that tokenizes the same: exactly the normalised lists arise. */
  lemma TokenizedIsNormalised(text: string)
    requires Tokens(text).Ok?
    ensures Normalised(Tokens(text).value)
    ensures Tokens(TokensToText(Tokens(text).value)) == Tokens(text)
  {
    RestIsNormalised(text, false, false, 0);
    PrintThenTokenize(Tokens(text).value);
  }

  // -------------------------------------------------------------------------
  // Which texts tokenize, and to what
  // -------------------------------------------------------------------------

  /** What a text is made of: blanks, characters in either case, and prosigns named in any case. */
  datatype Piece = Blank(c: char) | Letter(c: char) | Named(name: string, p: Prosign)

  function UpperOf(c: char): char {
    if 'a' <= c <= 'z' then ('A' as int + (c as int - 'a' as int)) as char else c
  }

  predicate SpeltAs(name: string, p: Prosign) {
    |name| == |Name(p)| && forall i :: 0 <= i < |name| ==> UpperOf(name[i]) == Name(p)[i]
  }

  predicate Good(piece: Piece) {
    match piece
    case Blank(c) => IsWhitespace(c)
    case Letter(c) => 'a' <= c <= 'z' || InTable(c)
    case Named(name, p) => SpeltAs(name, p)
  }

  ghost predicate AllGood(pieces: seq<Piece>) {
    forall i :: 0 <= i < |pieces| ==> Good(pieces[i])
  }

  function Spelt(piece: Piece): string {
    match piece
    case Blank(c) => [c]
    case Letter(c) => [c]
    case Named(name, _) => "<" + name + ">"
  }

  function SpeltAll(pieces: seq<Piece>): string {
    if pieces == [] then "" else Spelt(pieces[0]) + SpeltAll(pieces[1..])
  }

  /** The pieces' tokens, a word space wherever blanks stand between two. */
  function Meaning(pieces: seq<Piece>, started: bool, pending: bool): seq<Token>
    decreases |pieces|
  {
    if pieces == [] then []
    else match pieces[0]
      case Blank(_) => Meaning(pieces[1..], started, started)
      case Letter(c) => Gap(pending) + [Char(UpperOf(c))] + Meaning(pieces[1..], true, false)
      case Named(_, p) => Gap(pending) + [Sign(p)] + Meaning(pieces[1..], true, false)
  }

  /** The front of `rest`, at byte `offset`, is what the error says and no piece. */
  ghost predicate Offends(rest: string, e: CodecError, offset: nat) {
    rest != [] && match e
    case UnknownChar(ch, at) =>
      at == offset && ch == rest[0] && ch != '<' && !IsWhitespace(ch) && !('a' <= ch <= 'z') && !InTable(ch)
    case UnterminatedProsign(at) => at == offset && rest[0] == '<' && '>' !in rest
    case UnknownProsign(name, at) =>
      at == offset && ("<" + name + ">") <= rest && '>' !in name && forall p :: !SpeltAs(name, p)
  }

  lemma UpperIs(c: char)
    ensures UpperOf(c) == AsciiUpper(c)
    ensures InTable(AsciiUpper(c)) <==> 'a' <= c <= 'z' || InTable(c)
  {
  }

  lemma NameIsUpper(p: Prosign, i: nat)
    requires i < |Name(p)|
    ensures AsciiUpper(Name(p)[i]) == Name(p)[i]
  {
  }

  lemma SpeltIsEqual(name: string, p: Prosign)
    ensures SpeltAs(name, p) <==> EqIgnoreAsciiCase(Name(p), name)
  {
    hide Name, AsciiUpper, UpperOf;
    if |name| == |Name(p)| {
      forall i | 0 <= i < |name| ensures UpperOf(name[i]) == Name(p)[i] <==> AsciiUpper(Name(p)[i]) == AsciiUpper(name[i]) {
        UpperIs(name[i]);
        NameIsUpper(p, i);
      }
    }
  }

  lemma SpeltOnce(name: string, p: Prosign, q: Prosign)
    requires SpeltAs(name, p) && SpeltAs(name, q)
    ensures p == q
  {
    hide Name, UpperOf;
    assert Name(p) == Name(q);
    NameRoundTrip(p);
    NameRoundTrip(q);
  }

  lemma {:induction false} FromNameAfterIs(name: string, k: nat)
    requires k <= |ALL_PROSIGNS|
    ensures FromNameAfter(name, k).Some? ==> SpeltAs(name, FromNameAfter(name, k).value)
    ensures FromNameAfter(name, k).None? ==> forall i :: k <= i < |ALL_PROSIGNS| ==> !SpeltAs(name, ALL_PROSIGNS[i])
    decreases |ALL_PROSIGNS| - k
  {
    hide SpeltAs, EqIgnoreAsciiCase;
    if k < |ALL_PROSIGNS| {
      SpeltIsEqual(name, ALL_PROSIGNS[k]);
      FromNameAfterIs(name, k + 1);
    }
  }

  /** A prosign is found by exactly the names that spell it. */
  lemma FromNameExactly(name: string, p: Prosign)
    ensures FromName(name) == Some(p) <==> SpeltAs(name, p)
  {
    hide SpeltAs, FromNameAfter;
    FromNameAfterIs(name, 0);
    var i := PlaceOf(p);
    if SpeltAs(name, p) {
      SpeltOnce(name, p, FromName(name).value);
    }
  }

  lemma PlaceOf(p: Prosign) returns (i: nat)
    ensures i < |ALL_PROSIGNS| && ALL_PROSIGNS[i] == p
  {
    i := match p case Ar => 0 case Sk => 1 case Bt => 2 case Kn => 3 case As => 4 case Hh => 5 case Sos => 6;
  }

  lemma {:induction false} BytesInParts(a: string, b: string)
    ensures Bytes(a + b) == Bytes(a) + Bytes(b)
  {
    hide Utf8Len;
    if a == [] {
      assert a + b == b;
    } else {
      assert (a + b)[1..] == a[1..] + b;
      BytesInParts(a[1..], b);
    }
  }

  /** What reading one token off the front says about the text. */
  lemma TokenIsPiece(text: string, offset: nat) returns (piece: Piece)
    requires text != [] && !IsWhitespace(text[0])
    ensures NextToken(text, offset).Err? ==> Offends(text, NextToken(text, offset).error, offset)
    ensures NextToken(text, offset).Ok? ==>
              var (token, used) := NextToken(text, offset).value;
              && Good(piece) && !piece.Blank? && Spelt(piece) == text[..used]
              && token == (if piece.Letter? then Char(UpperOf(piece.c)) else Sign(piece.p))
  {
    hide FromName, SpeltAs, InTable, AsciiUpper, UpperOf, IsWhitespace;
    piece := Letter(text[0]);
    UpperIs(text[0]);
    if text[0] == '<' {
      match FindClose(text, 1) {
        case None => assert '>' !in text;
        case Some(close) =>
          var name := text[1..close];
          assert text[..close + 1] == "<" + name + ">";
          match FromName(name) {
            case Some(p) =>
              FromNameExactly(name, p);
              piece := Named(name, p);
            case None =>
              forall p ensures !SpeltAs(name, p) {
                FromNameExactly(name, p);
              }
          }
      }
    } else {
      assert text[..1] == [text[0]];
    }
  }

  /** `text` is good pieces and then `rest`, which is empty if it tokenizes and offends if not. */
  ghost predicate InPieces(text: string, started: bool, pending: bool, offset: nat, pieces: seq<Piece>, rest: string) {
    && AllGood(pieces) && text == SpeltAll(pieces) + rest
    && match Rest(text, started, pending, offset)
       case Ok(ts) => rest == [] && ts == Meaning(pieces, started, pending)
       case Err(e) => Offends(rest, e, offset + Bytes(SpeltAll(pieces)))
  }

  lemma MeaningStep(piece: Piece, more: seq<Piece>, started: bool, pending: bool)
    ensures Meaning([piece] + more, started, pending) ==
            match piece
            case Blank(_) => Meaning(more, started, started)
            case Letter(c) => Gap(pending) + [Char(UpperOf(c))] + Meaning(more, true, false)
            case Named(_, p) => Gap(pending) + [Sign(p)] + Meaning(more, true, false)
  {
    assert ([piece] + more)[1..] == more;
  }

  lemma RestStep(text: string, started: bool, pending: bool, offset: nat)
    requires text != []
    ensures IsWhitespace(text[0]) ==>
              Rest(text, started, pending, offset) == Rest(text[1..], started, started, offset + Utf8Len(text[0]))
    ensures !IsWhitespace(text[0]) && NextToken(text, offset).Err? ==>
              Rest(text, started, pending, offset) == Err(NextToken(text, offset).error)
    ensures !IsWhitespace(text[0]) && NextToken(text, offset).Ok? ==>
              var (token, used) := NextToken(text, offset).value;
              Rest(text, started, pending, offset) ==
              match Rest(text[used..], true, false, offset + Bytes(text[..used]))
              case Err(e) => Err(e)
              case Ok(tail) => Ok(Gap(pending) + [token] + tail)
  {
    hide IsWhitespace, NextToken, Bytes, Utf8Len;
  }

  /** One piece in front of a text that is in pieces. */
  lemma PieceInFront(piece: Piece, text: string, st: bool, pe: bool, at: nat, more: seq<Piece>, rest: string,
                     started: bool, pending: bool, offset: nat)
    requires Good(piece) && InPieces(text, st, pe, at, more, rest) && at == offset + Bytes(Spelt(piece))
    requires if piece.Blank? then st == pe == started else st && !pe
    requires Rest(Spelt(piece) + text, started, pending, offset) ==
             match Rest(text, st, pe, at)
             case Err(e) => Err(e)
             case Ok(tail) => Ok(if piece.Blank? then tail
                                 else Gap(pending) + [if piece.Letter? then Char(UpperOf(piece.c)) else Sign(piece.p)] + tail)
    ensures InPieces(Spelt(piece) + text, started, pending, offset, [piece] + more, rest)
  {
    hide Rest, Offends, Good, Spelt, SpeltAll, Bytes, Meaning, UpperOf, AllGood;
    OnePieceMore(piece, more);
    MeaningStep(piece, more, started, pending);
    BytesInParts(Spelt(piece), SpeltAll(more));
    assert Spelt(piece) + (SpeltAll(more) + rest) == SpeltAll([piece] + more) + rest;
  }

  /** Every text is pieces, up to the first thing that is none, and that is what the error reports. */
  lemma {:induction false} RestInPieces(text: string, started: bool, pending: bool, offset: nat)
    returns (pieces: seq<Piece>, rest: string)
    ensures InPieces(text, started, pending, offset, pieces, rest)
    decreases |text|
  {
    hide InPieces, Rest, NextToken, Offends, Good, UpperOf, IsWhitespace, Utf8Len, Bytes;
    if text == [] {
      pieces, rest := [], [];
      NothingInPieces(started, pending, offset);
    } else {
      RestStep(text, started, pending, offset);
      if IsWhitespace(text[0]) {
        var more;
        more, rest := RestInPieces(text[1..], started, started, offset + Utf8Len(text[0]));
        BlankIsGood(text[0]);
        BytesOfOne(text[0]);
        assert text == Spelt(Blank(text[0])) + text[1..];
        PieceInFront(Blank(text[0]), text[1..], started, started, offset + Utf8Len(text[0]), more, rest, started, pending, offset);
        pieces := [Blank(text[0])] + more;
      } else {
        var piece := TokenIsPiece(text, offset);
        if NextToken(text, offset).Err? {
          pieces, rest := [], text;
          OffendsAtOnce(text, started, pending, offset);
        } else {
          var used := NextToken(text, offset).value.1;
          var at := offset + Bytes(text[..used]);
          var more;
          more, rest := RestInPieces(text[used..], true, false, at);
          assert text == Spelt(piece) + text[used..];
          PieceInFront(piece, text[used..], true, false, at, more, rest, started, pending, offset);
          pieces := [piece] + more;
        }
      }
    }
  }

  lemma NothingInPieces(started: bool, pending: bool, offset: nat)
    ensures InPieces([], started, pending, offset, [], [])
  {
  }

  lemma OffendsAtOnce(text: string, started: bool, pending: bool, offset: nat)
    requires text != [] && Rest(text, started, pending, offset).Err?
    requires Offends(text, Rest(text, started, pending, offset).error, offset)
    ensures InPieces(text, started, pending, offset, [], text)
  {
    hide Rest, Offends;
    assert SpeltAll([]) + text == text && Bytes([]) == 0;
  }

  lemma BlankIsGood(c: char)
    requires IsWhitespace(c)
    ensures Good(Blank(c))
  {
  }

  lemma BytesOfOne(c: char)
    ensures Bytes([c]) == Utf8Len(c)
  {
    hide Utf8Len;
    assert [c][1..] == [];
  }

  lemma OnePieceMore(piece: Piece, more: seq<Piece>)
    ensures SpeltAll([piece] + more) == Spelt(piece) + SpeltAll(more)
    ensures ([piece] + more)[1..] == more
    ensures Good(piece) && AllGood(more) ==> AllGood([piece] + more)
  {
    assert ([piece] + more)[1..] == more;
  }

  lemma PieceIsToken(piece: Piece, rest: string, offset: nat)
    requires Good(piece) && !piece.Blank?
    ensures !IsWhitespace((Spelt(piece) + rest)[0])
    ensures NextToken(Spelt(piece) + rest, offset) ==
            Ok((if piece.Letter? then Char(UpperOf(piece.c)) else Sign(piece.p), |Spelt(piece)|))
  {
    if piece.Letter? {
      LetterIsToken(piece.c, rest, offset);
    } else {
      NamedIsToken(piece.name, piece.p, rest, offset);
    }
  }

  lemma LetterIsToken(c: char, rest: string, offset: nat)
    requires 'a' <= c <= 'z' || InTable(c)
    ensures !IsWhitespace(c) && NextToken([c] + rest, offset) == Ok((Char(UpperOf(c)), 1))
  {
    UpperIs(c);
  }

  lemma NamedIsToken(name: string, p: Prosign, rest: string, offset: nat)
    requires SpeltAs(name, p)
    ensures !IsWhitespace('<') && NextToken("<" + name + ">" + rest, offset) == Ok((Sign(p), |name| + 2))
  {
    hide FromName, FindClose, InTable, AsciiUpper;
    var text := "<" + name + ">" + rest;
    NoCloseInName(name, p);
    FromNameExactly(name, p);
    CloseOfPrinted(name, rest);
    assert text[1..|name| + 1] == name && text[0] == '<';
  }

  lemma NoCloseInName(name: string, p: Prosign)
    requires SpeltAs(name, p)
    ensures '>' !in name
  {
    NameHasNoClose(p);
    assert forall i :: 0 <= i < |name| ==> UpperOf(name[i]) in Name(p);
  }

  lemma {:induction false} RestOfPieces(pieces: seq<Piece>, started: bool, pending: bool, offset: nat)
    requires AllGood(pieces)
    ensures Rest(SpeltAll(pieces), started, pending, offset) == Ok(Meaning(pieces, started, pending))
    decreases |pieces|
  {
    hide Rest, Meaning, NextToken, Good, UpperOf, IsWhitespace, Utf8Len, Bytes;
    if pieces == [] {
      NothingMeans(started, pending, offset);
    } else {
      var (piece, more) := (pieces[0], pieces[1..]);
      var text := Spelt(piece) + SpeltAll(more);
      assert pieces == [piece] + more && Good(piece);
      MeaningStep(piece, more, started, pending);
      RestStep(text, started, pending, offset);
      if piece.Blank? {
        GoodBlank(piece);
        assert text[1..] == SpeltAll(more) && text[0] == piece.c;
        RestOfPieces(more, started, started, offset + Utf8Len(text[0]));
      } else {
        PieceIsToken(piece, SpeltAll(more), offset);
        var used := |Spelt(piece)|;
        assert text[used..] == SpeltAll(more);
        RestOfPieces(more, true, false, offset + Bytes(text[..used]));
      }
    }
  }

  lemma NothingMeans(started: bool, pending: bool, offset: nat)
    ensures Rest([], started, pending, offset) == Ok([]) && Meaning([], started, pending) == []
  {
  }

  lemma GoodBlank(piece: Piece)
    requires Good(piece) && piece.Blank?
    ensures IsWhitespace(piece.c)
  {
  }

  /** A text tokenizes exactly when it is made of pieces, and then to what they mean, however it is cut into them. */
  lemma TokenizesExactly(text: string)
    ensures Tokens(text).Ok? <==> exists pieces :: AllGood(pieces) && SpeltAll(pieces) == text
    ensures forall pieces :: AllGood(pieces) && SpeltAll(pieces) == text ==> Tokens(text) == Ok(Meaning(pieces, false, false))
  {
    hide Rest, SpeltAll, AllGood, Meaning, Offends;
    var pieces, rest := RestInPieces(text, false, false, 0);
    assert rest == [] ==> SpeltAll(pieces) == text;
    forall pieces | AllGood(pieces) && SpeltAll(pieces) == text ensures Tokens(text) == Ok(Meaning(pieces, false, false)) {
      RestOfPieces(pieces, false, false, 0);
    }
  }

  /** An error names the first thing that is no piece, and how many bytes come before it. */
  lemma ErrorsExactly(text: string) returns (pieces: seq<Piece>, rest: string)
    requires Tokens(text).Err?
    ensures AllGood(pieces) && text == SpeltAll(pieces) + rest
    ensures Offends(rest, Tokens(text).error, Bytes(SpeltAll(pieces)))
  {
    hide Rest, SpeltAll, AllGood, Offends, Bytes;
    pieces, rest := RestInPieces(text, false, false, 0);
  }

  // -------------------------------------------------------------------------
  // The loops
  // -------------------------------------------------------------------------

  /** `tail` after the tokens already in `out`. */
  ghost function Prepend(out: seq<Token>, tail: Result<seq<Token>, CodecError>): Result<seq<Token>, CodecError> {
    match tail
    case Err(e) => Err(e)
    case Ok(ts) => Ok(out + ts)
  }

  lemma TokensFromStart(text: string)
    ensures Tokens(text) == Prepend([], Rest(text, false, false, 0))
  {
    var tail := Rest(text, false, false, 0);
    if tail.Ok? {
      assert [] + tail.value == tail.value;
    }
  }

  lemma TokensAtEnd(out: seq<Token>, started: bool, pending: bool, offset: nat)
    ensures Prepend(out, Rest("", started, pending, offset)) == Ok(out)
  {
    assert out + [] == out;
  }

  /** Reads a prosign's name from `i` up to the closing bracket, if there is one. */
  method ReadName(text: string, i: nat) returns (name: string, closed: bool, next: nat)
    requires i <= |text|
    ensures i <= next <= |text|
    ensures closed ==> FindClose(text, i) == Some(next - 1) && name == text[i..next - 1]
    ensures !closed ==> FindClose(text, i) == None
  {
    name, closed, next := [], false, i;
    while next < |text|
      invariant i <= next <= |text| && name == text[i..next] && '>' !in name
      invariant FindClose(text, i) == FindClose(text, next)
    {
      var c := text[next];
      next := next + 1;
      if c == '>' {
        closed := true;
        return;
      }
      name := name + [c];
    }
  }

  /** One token from the front of `text[i..]`, as the loop reads it. */
  method ReadToken(text: string, i: nat, offset: nat) returns (r: Result<(Token, nat), CodecError>)
    requires i < |text|
    ensures match NextToken(text[i..], offset)
            case Err(e) => r == Err(e)
            case Ok((token, used)) => r == Ok((token, i + used))
  {
    hide FromName, InTable, FindClose, AsciiUpper;
    var ch := text[i];
    FindCloseShift(text, i, 1);
    if ch == '<' {
      var name, closed, next := ReadName(text, i + 1);
      if !closed {
        return Err(UnterminatedProsign(offset));
      }
      assert text[i..][1..next - 1 - i] == name;
      match FromName(name) {
        case Some(p) => return Ok((Sign(p), next));
        case None => return Err(UnknownProsign(name, offset));
      }
    }
    var up := AsciiUpper(ch);
    if !InTable(up) {
      return Err(UnknownChar(ch, offset));
    }
    return Ok((Char(up), i + 1));
  }

  lemma {:induction false} FindCloseShift(text: string, i: nat, k: nat)
    requires i <= |text|
    ensures FindClose(text[i..], k) == match FindClose(text, i + k)
                                       case None => None
                                       case Some(c) => Some(c - i)
    decreases |text| - k
  {
    if i + k < |text| {
      FindCloseShift(text, i, k + 1);
    }
  }

  /** Splits text into tokens; every non-space character must be in the table. */
  method Tokenize(text: string) returns (r: Result<seq<Token>, CodecError>)
    ensures r == Tokens(text)
  {
    hide NextToken, Bytes, Rest, Tokens, InTable, IsWhitespace, Prepend;
    var out, pending, i := [], false, 0;
    var offset: nat := 0;
    assert text[0..] == text;
    ghost var started := false;
    TokensFromStart(text);
    while i < |text|
      invariant 0 <= i <= |text|
      invariant started == (out != [])
      invariant Tokens(text) == Prepend(out, Rest(text[i..], started, pending, offset))
    {
      ghost var here := text[i..];
      if IsWhitespace(text[i]) {
        RestAfterWhitespace(here, started, pending, offset);
        assert here[1..] == text[i + 1..];
        pending := out != [];
        offset, i := offset + Utf8Len(text[i]), i + 1;
        continue;
      }
      var next := ReadToken(text, i, offset);
      match next {
        case Err(e) =>
          RestFails(here, out, started, pending, offset);
          return Err(e);
        case Ok((token, j)) =>
          assert here[j - i..] == text[j..] && here[..j - i] == text[i..j];
          RestAfterRead(here, token, j - i, out, started, pending, offset);
          out := out + Gap(pending) + [token];
          started, pending := true, false;
          offset, i := offset + Bytes(text[i..j]), j;
      }
    }
    assert text[i..] == [];
    TokensAtEnd(out, started, pending, offset);
    return Ok(out);
  }

  lemma RestAfterWhitespace(here: string, started: bool, pending: bool, offset: nat)
    requires here != [] && IsWhitespace(here[0])
    ensures Rest(here, started, pending, offset) == Rest(here[1..], started, started, offset + Utf8Len(here[0]))
  {
  }

  lemma RestFails(here: string, out: seq<Token>, started: bool, pending: bool, offset: nat)
    requires here != [] && !IsWhitespace(here[0]) && NextToken(here, offset).Err?
    ensures Prepend(out, Rest(here, started, pending, offset)) == Err(NextToken(here, offset).error)
  {
  }

  lemma RestAfterRead(here: string, token: Token, used: nat, out: seq<Token>,
                      started: bool, pending: bool, offset: nat)
    requires here != [] && !IsWhitespace(here[0]) && NextToken(here, offset) == Ok((token, used))
    ensures Prepend(out, Rest(here, started, pending, offset))
         == Prepend(out + Gap(pending) + [token], Rest(here[used..], true, false, offset + Bytes(here[..used])))
  {
    hide NextToken, IsWhitespace;
    var rest := Rest(here[used..], true, false, offset + Bytes(here[..used]));
    if rest.Ok? {
      assert out + (Gap(pending) + [token] + rest.value) == out + Gap(pending) + [token] + rest.value;
    }
  }

  // -------------------------------------------------------------------------
  // What an operator typed
  // -------------------------------------------------------------------------

  /** Like `NextToken`, but an unknown character is itself and an unknown `<...>` is its characters. */
  function NextTyped(text: string): (r: (Token, nat))
    requires text != []
    ensures 1 <= r.1 <= |text| && !r.0.WordSpace?
  {
    var close := if text[0] == '<' then FindClose(text, 1) else None;
    if close.Some? && FromName(text[1..close.value]).Some?
    then (Sign(FromName(text[1..close.value]).value), close.value + 1)
    else (Char(AsciiUpper(text[0])), 1)
  }

  function RestTyped(text: string, started: bool, pending: bool): seq<Token>
    decreases |text|
  {
    if text == [] then []
    else if IsWhitespace(text[0]) then RestTyped(text[1..], started, started)
    else
      var (token, used) := NextTyped(text);
      Gap(pending) + [token] + RestTyped(text[used..], true, false)
  }

  function TypedTokens(text: string): seq<Token> {
    RestTyped(text, false, false)
  }

  /** A prosign, named in any case, starts the text. */
  ghost predicate StartsWith(text: string, name: string, p: Prosign) {
    SpeltAs(name, p) && ("<" + name + ">") <= text
  }

  /** Pieces as an operator types them: any character is a letter, but a `<` only where no prosign starts. */
  ghost predicate TypedPieces(pieces: seq<Piece>) {
    pieces != [] ==>
      && TypedPieces(pieces[1..])
      && match pieces[0]
         case Blank(c) => IsWhitespace(c)
         case Named(name, p) => SpeltAs(name, p)
         case Letter(c) => !IsWhitespace(c) && forall name, p :: !StartsWith(SpeltAll(pieces), name, p)
  }

  lemma TypedSign(text: string, name: string, p: Prosign)
    requires StartsWith(text, name, p)
    ensures text != [] && !IsWhitespace(text[0]) && NextTyped(text) == (Sign(p), |name| + 2)
  {
    hide FromName, FindClose, SpeltAs, AsciiUpper;
    var rest := text[|name| + 2..];
    assert text == "<" + name + ">" + rest;
    NoCloseInName(name, p);
    FromNameExactly(name, p);
    CloseOfPrinted(name, rest);
    assert text[1..|name| + 1] == name && text[0] == '<';
  }

  lemma TypedLetter(text: string)
    requires text != [] && forall name, p :: !StartsWith(text, name, p)
    ensures NextTyped(text) == (Char(UpperOf(text[0])), 1)
  {
    hide FromName, SpeltAs, AsciiUpper, UpperOf;
    UpperIs(text[0]);
    if text[0] == '<' && FindClose(text, 1).Some? {
      var close := FindClose(text, 1).value;
      var name := text[1..close];
      assert text[..close + 1] == "<" + name + ">";
      forall p ensures FromName(name) != Some(p) {
        FromNameExactly(name, p);
        assert !StartsWith(text, name, p);
      }
    }
  }

  lemma {:induction false} RestOfTypedPieces(pieces: seq<Piece>, started: bool, pending: bool)
    requires TypedPieces(pieces)
    ensures RestTyped(SpeltAll(pieces), started, pending) == Meaning(pieces, started, pending)
    decreases |pieces|
  {
    hide NextTyped, StartsWith, SpeltAs, UpperOf, IsWhitespace;
    if pieces != [] {
      var (piece, more) := (pieces[0], SpeltAll(pieces[1..]));
      var text := Spelt(piece) + more;
      assert text == SpeltAll(pieces);
      match piece
      case Blank(c) =>
        assert text[1..] == more && text[0] == c;
        RestOfTypedPieces(pieces[1..], started, started);
      case Letter(c) =>
        assert text[1..] == more && text[0] == c;
        TypedLetter(text);
        RestOfTypedPieces(pieces[1..], true, false);
      case Named(name, p) =>
        assert text[|name| + 2..] == more && ("<" + name + ">") <= text;
        StartsHere(text, name, p);
        TypedSign(text, name, p);
        RestOfTypedPieces(pieces[1..], true, false);
    }
  }

  lemma StartsHere(text: string, name: string, p: Prosign)
    requires SpeltAs(name, p) && ("<" + name + ">") <= text
    ensures StartsWith(text, name, p)
  {
  }

  lemma {:induction false} AnyTextInPieces(text: string) returns (pieces: seq<Piece>)
    ensures TypedPieces(pieces) && SpeltAll(pieces) == text
    decreases |text|
  {
    hide SpeltAs, IsWhitespace, StartsWith, TypedPieces;
    if text == [] {
      pieces := [];
      NothingTypedInPieces();
    } else {
      var piece, used := FirstTyped(text);
      var more := AnyTextInPieces(text[used..]);
      pieces := [piece] + more;
      OnePieceMore(piece, more);
      assert text == Spelt(piece) + text[used..];
      TypedPush(piece, more);
    }
  }

  /** A piece that may stand at the front of `text`. */
  ghost predicate TypedFront(piece: Piece, text: string) {
    match piece
    case Blank(c) => IsWhitespace(c)
    case Named(name, p) => SpeltAs(name, p)
    case Letter(c) => !IsWhitespace(c) && forall name, p :: !StartsWith(text, name, p)
  }

  lemma FirstTyped(text: string) returns (piece: Piece, used: nat)
    requires text != []
    ensures TypedFront(piece, text) && 1 <= used <= |text| && Spelt(piece) == text[..used]
  {
    hide SpeltAs, IsWhitespace;
    piece, used := Letter(text[0]), 1;
    if IsWhitespace(text[0]) {
      piece := Blank(text[0]);
    } else if name, p :| StartsWith(text, name, p) {
      piece, used := Named(name, p), |name| + 2;
    }
  }

  lemma TypedPush(piece: Piece, more: seq<Piece>)
    requires TypedPieces(more) && TypedFront(piece, Spelt(piece) + SpeltAll(more))
    ensures TypedPieces([piece] + more)
  {
    hide SpeltAs, IsWhitespace, StartsWith;
    OnePieceMore(piece, more);
  }

  lemma NothingTypedInPieces()
    ensures TypedPieces([])
  {
  }

  /** Any text is typed pieces, and however it is cut into them its tokens are what they mean. */
  lemma TypedExactly(text: string)
    ensures exists pieces :: TypedPieces(pieces) && SpeltAll(pieces) == text
    ensures forall pieces :: TypedPieces(pieces) && SpeltAll(pieces) == text ==> TypedTokens(text) == Meaning(pieces, false, false)
  {
    hide RestTyped, TypedPieces, SpeltAll, Meaning;
    var some := AnyTextInPieces(text);
    forall pieces | TypedPieces(pieces) && SpeltAll(pieces) == text ensures TypedTokens(text) == Meaning(pieces, false, false) {
      RestOfTypedPieces(pieces, false, false);
    }
  }

  lemma {:induction false} TypedRestAgrees(text: string, started: bool, pending: bool, offset: nat)
    requires Rest(text, started, pending, offset).Ok?
    ensures RestTyped(text, started, pending) == Rest(text, started, pending, offset).value
    decreases |text|
  {
    if text != [] {
      if IsWhitespace(text[0]) {
        TypedRestAgrees(text[1..], started, started, offset + Utf8Len(text[0]));
      } else {
        var (token, used) := NextToken(text, offset).value;
        assert NextTyped(text) == (token, used);
        hide NextToken, NextTyped, IsWhitespace;
        TypedRestAgrees(text[used..], true, false, offset + Bytes(text[..used]));
      }
    }
  }

  /** On every text that encodes, the lenient splitter and the strict one agree. */
  lemma TypedAgrees(text: string)
    requires Tokens(text).Ok?
    ensures TypedTokens(text) == Tokens(text).value
  {
    TypedRestAgrees(text, false, false, 0);
  }

  /** Word spaces never lead, trail or double in what an operator typed either. */
  lemma {:induction false} TypedSpacing(text: string, started: bool, pending: bool)
    requires pending ==> started
    ensures var ts := RestTyped(text, started, pending);
            && (!started && ts != [] ==> ts[0] != WordSpace)
            && (pending && ts != [] ==> ts[0] == WordSpace)
            && Spaced(ts)
    decreases |text|
  {
    if text != [] {
      if IsWhitespace(text[0]) {
        TypedSpacing(text[1..], started, started);
      } else {
        var (token, used) := NextTyped(text);
        TypedSpacing(text[used..], true, false);
        SpacingAfterPrepend(pending, token, RestTyped(text[used..], true, false));
      }
    }
  }

  lemma SpacingAfterPrepend(pending: bool, token: Token, tail: seq<Token>)
    requires !token.WordSpace?
    requires Spaced(tail)
    ensures Spaced(Gap(pending) + [token] + tail)
  {
  }

  /** One token of `text[i..]`, as typed, and how many characters it takes. */
  method ReadTyped(text: string, i: nat) returns (token: Token, step: nat)
    requires i < |text|
    ensures (token, step) == NextTyped(text[i..])
  {
    token, step := Char(AsciiUpper(text[i])), 1;
    FindCloseShift(text, i, 1);
    if text[i] == '<' {
      var name, closed, next := ReadName(text, i + 1);
      if closed {
        assert text[i..][1..next - 1 - i] == name;
        match FromName(name) {
          case Some(p) => token, step := Sign(p), next - i;
          case None =>
        }
      }
    }
  }

  method TokenizeCopy(text: string) returns (out: seq<Token>)
    ensures out == TypedTokens(text)
  {
    hide NextTyped, RestTyped, TypedTokens, IsWhitespace;
    out := [];
    var pending, i := false, 0;
    assert text[0..] == text;
    TypedFromStart(text);
    while i < |text|
      invariant 0 <= i <= |text|
      invariant TypedTokens(text) == out + RestTyped(text[i..], out != [], pending)
    {
      ghost var here := text[i..];
      TypedUnfolds(here, out != [], pending);
      if IsWhitespace(text[i]) {
        assert here[1..] == text[i + 1..];
        pending := out != [];
        i := i + 1;
        continue;
      }
      var token, step := ReadTyped(text, i);
      assert here[step..] == text[i + step..];
      out := out + Gap(pending) + [token];
      assert out != [];
      pending := false;
      i := i + step;
    }
    assert text[i..] == [];
    NothingTyped(out != [], pending);
  }

  lemma TypedFromStart(text: string)
    ensures TypedTokens(text) == [] + RestTyped(text, false, false)
  {
  }

  lemma NothingTyped(started: bool, pending: bool)
    ensures RestTyped("", started, pending) == []
  {
  }

  lemma TypedUnfolds(here: string, started: bool, pending: bool)
    requires here != []
    ensures RestTyped(here, started, pending) ==
            if IsWhitespace(here[0]) then RestTyped(here[1..], started, started)
            else Gap(pending) + [NextTyped(here).0] + RestTyped(here[NextTyped(here).1..], true, false)
  {
  }
}
