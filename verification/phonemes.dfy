/** The unit algebra of `src/phonemes.rs`: the units a spectrogram model is
    fed, their ARPABET spellings and parsers, the IPA to ARPABET mapping and
    the lookup of a unit in a model's vocabulary. */
module Phonemes {
  import opened Outcomes
  import opened Strings
  import opened Seqs

  datatype Punctuation =
    | FullStop | Comma | QuestionMark | ExclamationMark | Dash
    | OpenBracket | CloseBracket | Colon | SemiColon | Apostrophe

  /** Two-letter ARPABET phones, in declaration order. */
  datatype ArpaPhone =
    | Aa | Ae | Ah | Ao | Aw | Ay | B | Ch | D | Dh | Eh | Er | Ey | F | G | Hh
    | Ih | Iy | Jh | K | L | M | N | Ng | Ow | Oy | P | R | S | Sh | T | Th
    | Uh | Uw | V | W | Y | Z | Zh

  /** Stress markers and the other ARPABET auxiliary symbols. */
  datatype AuxiliarySymbol =
    | NoStress | PrimaryStress | SecondaryStress | TertiaryStress | Silence
    | NonSpeechSegment | MorphemeBoundary | WordBoundary | UtteranceBoundary
    | ToneGroupBoundary | FallingOrDecliningJuncture | RisingOrInternalJuncture
    | FallRiseOrNonTerminalJuncture

  datatype PhoneticUnit = PhoneticUnit(phone: ArpaPhone, context: Option<AuxiliarySymbol>)

  /** What a spectrogram model consumes. */
  datatype Unit =
    | Phone(unit: PhoneticUnit)
    | Unk
    | Space
    | Punct(punct: Punctuation)
    | Character(ch: char)
    | Padding

  /** The pronunciation of one word, as stored in the CMU dictionary. */
  type Pronunciation = seq<PhoneticUnit>

  // ---------------------------------------------------------------------
  // Classification

  predicate IsSentenceEnd(p: Punctuation) {
    p.FullStop? || p.QuestionMark? || p.ExclamationMark?
  }

  predicate IsPause(p: Punctuation) {
    IsSentenceEnd(p) || p.Comma? || p.SemiColon?
  }

  /** How good a place `u` is to cut a transcript that is too long. */
  function SplitScore(u: Unit): (score: nat)
    ensures score <= 3
    ensures score == 3 <==> u.Padding? || (u.Punct? && u.punct in {FullStop, QuestionMark, ExclamationMark})
    ensures score == 2 <==> u.Punct? && u.punct in {Comma, SemiColon}
    ensures score == 1 <==> u.Space?
    ensures score == 0 <==> u.Phone? || u.Unk? || u.Character?
                            || (u.Punct? && u.punct in {Dash, OpenBracket, CloseBracket, Colon, Apostrophe})
  {
    match u
    case Punct(p) => if IsSentenceEnd(p) then 3 else if IsPause(p) then 2 else 0
    case Padding => 3
    case Space => 1
    case _ => 0
  }

  /** `is_pause` adds exactly the comma and the semicolon to the sentence ends. */
  lemma PauseClassification(p: Punctuation)
    ensures IsSentenceEnd(p) <==> p in {FullStop, QuestionMark, ExclamationMark}
    ensures IsPause(p) <==> p in {FullStop, QuestionMark, ExclamationMark, Comma, SemiColon}
  {
  }

  // ---------------------------------------------------------------------
  // Printers (`Display`)

  function PunctuationToString(p: Punctuation): string {
    match p
    case FullStop => "."
    case Comma => ","
    case QuestionMark => "?"
    case ExclamationMark => "!"
    case Dash => "-"
    case OpenBracket => "("
    case CloseBracket => ")"
    case Colon => ":"
    case SemiColon => ";"
    case Apostrophe => "'"
  }

  function ArpaPhoneToString(p: ArpaPhone): string {
    match p
    case Aa => "AA" case Ae => "AE" case Ah => "AH" case Ao => "AO"
    case Aw => "AW" case Ay => "AY" case B => "B" case Ch => "CH"
    case D => "D" case Dh => "DH" case Eh => "EH" case Er => "ER"
    case Ey => "EY" case F => "F" case G => "G" case Hh => "HH"
    case Ih => "IH" case Iy => "IY" case Jh => "JH" case K => "K"
    case L => "L" case M => "M" case N => "N" case Ng => "NG"
    case Ow => "OW" case Oy => "OY" case P => "P" case R => "R"
    case S => "S" case Sh => "SH" case T => "T" case Th => "TH"
    case Uh => "UH" case Uw => "UW" case V => "V" case W => "W"
    case Y => "Y" case Z => "Z" case Zh => "ZH"
  }

  function AuxToString(a: AuxiliarySymbol): string {
    match a
    case NoStress => "0"
    case PrimaryStress => "1"
    case SecondaryStress => "2"
    case TertiaryStress => "3"
    case Silence => "-"
    case NonSpeechSegment => "!"
    case MorphemeBoundary => "+"
    case WordBoundary => "/"
    case UtteranceBoundary => "#"
    case ToneGroupBoundary => ":"
    case FallingOrDecliningJuncture => ":1"
    case RisingOrInternalJuncture => ":2"
    case FallRiseOrNonTerminalJuncture => ":3"
  }

  function ContextToString(c: Option<AuxiliarySymbol>): string {
    match c
    case None => ""
    case Some(a) => AuxToString(a)
  }

  function PhoneticUnitToString(u: PhoneticUnit): string {
    ArpaPhoneToString(u.phone) + ContextToString(u.context)
  }

  function UnitToString(u: Unit): string {
    match u
    case Phone(p) => PhoneticUnitToString(p)
    case Unk => "<UNK>"
    case Space => " "
    case Punct(p) => PunctuationToString(p)
    case Padding => "<PAD>"
    case Character(c) => [c]
  }

  // ---------------------------------------------------------------------
  // Parsers (`FromStr`)

  // The string tables of the `FromStr` implementations are written below
  // keyed by their characters (all spellings are one or two characters
  // long); the round-trip and soundness lemmas further down tie each table
  // back to the printer it inverts.

  /** The punctuation mark spelled exactly by `t`, with no trimming. */
  function PunctuationSymbol(t: string): (r: Option<Punctuation>)
    ensures r.Some? ==> PunctuationToString(r.value) == t
  {
    if |t| != 1 then None
    else match t[0]
      case '.' => Some(FullStop)
      case ',' => Some(Comma)
      case '?' => Some(QuestionMark)
      case '!' => Some(ExclamationMark)
      case '-' => Some(Dash)
      case '(' => Some(OpenBracket)
      case ')' => Some(CloseBracket)
      case ';' => Some(SemiColon)
      case ':' => Some(Colon)
      case '\'' => Some(Apostrophe)
      case _ => None
  }

  /** `Punctuation::from_str`, which trims its input first. */
  function PunctuationFromStr(s: string): (r: Option<Punctuation>)
    ensures r.Some? ==> PunctuationToString(r.value) == Trim(s)
  {
    PunctuationSymbol(Trim(s))
  }

  /** `ArpaPhone::from_str`: the 39 spellings "AA" … "ZH". */
  function ArpaPhoneFromStr(s: string): Option<ArpaPhone>
  {
    if |s| == 1 then OneLetterPhone(s[0])
    else if |s| == 2 then TwoLetterPhone(s[0], s[1])
    else None
  }

  function OneLetterPhone(c: char): Option<ArpaPhone> {
    match c
    case 'B' => Some(B) case 'D' => Some(D) case 'F' => Some(F) case 'G' => Some(G)
    case 'K' => Some(K) case 'L' => Some(L) case 'M' => Some(M) case 'N' => Some(N)
    case 'P' => Some(P) case 'R' => Some(R) case 'S' => Some(S) case 'T' => Some(T)
    case 'V' => Some(V) case 'W' => Some(W) case 'Y' => Some(Y) case 'Z' => Some(Z)
    case _ => None
  }

  function TwoLetterPhone(a: char, b: char): Option<ArpaPhone> {
    match a
    case 'A' =>
      (match b
       case 'A' => Some(Aa) case 'E' => Some(Ae) case 'H' => Some(Ah)
       case 'O' => Some(Ao) case 'W' => Some(Aw) case 'Y' => Some(Ay)
       case _ => None)
    case 'C' => if b == 'H' then Some(Ch) else None
    case 'D' => if b == 'H' then Some(Dh) else None
    case 'E' =>
      (match b
       case 'H' => Some(Eh) case 'R' => Some(Er) case 'Y' => Some(Ey)
       case _ => None)
    case 'H' => if b == 'H' then Some(Hh) else None
    case 'I' =>
      (match b
       case 'H' => Some(Ih) case 'Y' => Some(Iy)
       case _ => None)
    case 'J' => if b == 'H' then Some(Jh) else None
    case 'N' => if b == 'G' then Some(Ng) else None
    case 'O' =>
      (match b
       case 'W' => Some(Ow) case 'Y' => Some(Oy)
       case _ => None)
    case 'S' => if b == 'H' then Some(Sh) else None
    case 'T' => if b == 'H' then Some(Th) else None
    case 'U' =>
      (match b
       case 'H' => Some(Uh) case 'W' => Some(Uw)
       case _ => None)
    case 'Z' => if b == 'H' then Some(Zh) else None
    case _ => None
  }

  /** `AuxiliarySymbol::from_str`: every printed symbol, plus "." and "?" as
      extra spellings of the falling and rising junctures. */
  function AuxFromStr(s: string): Option<AuxiliarySymbol>
  {
    if |s| == 1 then
      match s[0]
      case '0' => Some(NoStress)
      case '1' => Some(PrimaryStress)
      case '2' => Some(SecondaryStress)
      case '3' => Some(TertiaryStress)
      case '-' => Some(Silence)
      case '!' => Some(NonSpeechSegment)
      case '+' => Some(MorphemeBoundary)
      case '/' => Some(WordBoundary)
      case '#' => Some(UtteranceBoundary)
      case ':' => Some(ToneGroupBoundary)
      case '.' => Some(FallingOrDecliningJuncture)
      case '?' => Some(RisingOrInternalJuncture)
      case _ => None
    else if |s| == 2 && s[0] == ':' then
      match s[1]
      case '1' => Some(FallingOrDecliningJuncture)
      case '2' => Some(RisingOrInternalJuncture)
      case '3' => Some(FallRiseOrNonTerminalJuncture)
      case _ => None
    else None
  }

  /** Characters that may follow the first letter of a two-letter phone. */
  const PhoneSymbols: string := "AEHOWYBCDFGIJKLMNPRSUVZ"

  /** The phone and context read from `s` once the phone ends at byte `stop`. */
  function PhoneAndContext(s: string, stop: nat): ParseResult<PhoneticUnit> {
    match SplitAtByte(s, stop)
    case None => Panicked
    case Some(parts) =>
      match ArpaPhoneFromStr(parts.0)
      case None => Rejected
      case Some(phone) =>
        if stop == ByteLen(s) then Parsed(PhoneticUnit(phone, None))
        else match AuxFromStr(parts.1)
          case None => Rejected
          case Some(aux) => Parsed(PhoneticUnit(phone, Some(aux)))
  }

  /** `PhoneticUnit::from_str` exactly as written: lengths are UTF-8 byte
      counts, `s.chars().nth(1).unwrap()` panics on a string of one
      multi-byte character, and `&s[..k]` panics off a character boundary. */
  function PhoneticUnitFromStrAsWritten(s: string): ParseResult<PhoneticUnit> {
    if |s| == 0 then Rejected
    else if ByteLen(s) > 4 then Rejected
    else if ByteLen(s) == 1 then
      match ArpaPhoneFromStr(s)
      case None => Rejected
      case Some(phone) => Parsed(PhoneticUnit(phone, None))
    else if ByteLen(s) == 4 then
      match SplitAtByte(s, 2)
      case None => Panicked
      case Some(parts) =>
        match ArpaPhoneFromStr(parts.0)
        case None => Rejected
        case Some(phone) =>
          match AuxFromStr(parts.1)
          case None => Rejected
          case Some(aux) => Parsed(PhoneticUnit(phone, Some(aux)))
    else if |s| < 2 then Panicked
    else PhoneAndContext(s, if s[1] in PhoneSymbols then 2 else 1)
  }

  /** `PhoneticUnit::from_str` with the two panics turned into the error
      return the function's signature promises. */
  function PhoneticUnitFromStr(s: string): (r: ParseResult<PhoneticUnit>)
    ensures !r.Panicked?
    ensures PhoneticUnitFromStrAsWritten(s).Parsed? ==> r == PhoneticUnitFromStrAsWritten(s)
  {
    match PhoneticUnitFromStrAsWritten(s)
    case Panicked => Rejected
    case other => other
  }

  /** The body of `Unit::from_str` once the phone parser's answer `phone` for
      the trimmed text `t` is known. */
  function UnitFromTrimmed(s: string, t: string, phone: ParseResult<PhoneticUnit>): ParseResult<Unit> {
    if t == [] && s != [] then Parsed(Space)
    else if PunctuationSymbol(t).Some? then Parsed(Punct(PunctuationSymbol(t).value))
    else if t == "<PAD>" then Parsed(Padding)
    else if t == "<UNK>" then Parsed(Unk)
    else match phone
      case Parsed(p) => Parsed(Phone(p))
      case Panicked => Panicked
      case Rejected => if |t| == 1 then Parsed(Character(t[0])) else Rejected
  }

  /** `Unit::from_str` as written, inheriting the phone parser's panics. */
  function UnitFromStrAsWritten(s: string): ParseResult<Unit> {
    UnitFromTrimmed(s, Trim(s), PhoneticUnitFromStrAsWritten(Trim(s)))
  }

  /** `Unit::from_str` over the corrected phone parser: a phone wins over a
      character, and one leftover character becomes a `Character` unit. */
  function UnitFromStr(s: string): (r: ParseResult<Unit>)
    ensures !r.Panicked?
    ensures r.Parsed? ==> (r.value.Space? <==> s != [] && Trim(s) == [])
    ensures r.Parsed? && r.value.Character? ==> Trim(s) == [r.value.ch]
    ensures r.Parsed? && r.value.Punct? ==> Trim(s) == PunctuationToString(r.value.punct)
    ensures r.Parsed? && (r.value.Padding? || r.value.Unk?) ==> Trim(s) == UnitToString(r.value)
  {
    UnitFromTrimmed(s, Trim(s), PhoneticUnitFromStr(Trim(s)))
  }

  // ---------------------------------------------------------------------
  // Shapes of the printed forms

  predicate IsUpper(c: char) {
    'A' <= c <= 'Z'
  }

  /** The letters that end a two-letter phone. */
  predicate IsSecondLetter(c: char) {
    c == 'A' || c == 'E' || c == 'G' || c == 'H' || c == 'O' || c == 'R' || c == 'W' || c == 'Y'
  }

  /** Each of them is in `PhoneSymbols`, so the phone parser reads a
      two-letter phone as two letters. */
  lemma SecondLetterIsPhoneSymbol(c: char)
    requires IsSecondLetter(c)
    ensures c in PhoneSymbols
  {
    assert PhoneSymbols[0] == 'A' && PhoneSymbols[1] == 'E' && PhoneSymbols[2] == 'H';
    assert PhoneSymbols[3] == 'O' && PhoneSymbols[4] == 'W' && PhoneSymbols[5] == 'Y';
    assert PhoneSymbols[10] == 'G' && PhoneSymbols[18] == 'R';
  }

  /** Phones are spelled with one or two capital letters. */
  lemma PhoneShape(p: ArpaPhone)
    ensures var s := ArpaPhoneToString(p);
      (|s| == 1 || |s| == 2) && (forall i :: 0 <= i < |s| ==> IsUpper(s[i]))
      && (|s| == 2 ==> IsSecondLetter(s[1]))
  {
    match p
    case Aa => case Ae => case Ah => case Ao => case Aw => case Ay => case B => case Ch =>
    case D => case Dh => case Eh => case Er => case Ey => case F => case G => case Hh =>
    case Ih => case Iy => case Jh => case K => case L => case M => case N => case Ng =>
    case Ow => case Oy => case P => case R => case S => case Sh => case T => case Th =>
    case Uh => case Uw => case V => case W => case Y => case Z => case Zh =>
  }

  /** Auxiliary symbols are spelled with one or two characters between '!'
      and ':', so never with a capital letter or whitespace. */
  lemma AuxShape(a: AuxiliarySymbol)
    ensures var s := AuxToString(a);
      (|s| == 1 || |s| == 2) && forall i :: 0 <= i < |s| ==> '!' <= s[i] <= ':'
  {
  }

  lemma PhoneSymbolsUpper(c: char)
    requires c in PhoneSymbols
    ensures IsUpper(c)
  {
  }

  /** The printed form of a phonetic unit is ASCII without whitespace, and
      starts with a capital letter. */
  lemma PhoneticUnitChars(u: PhoneticUnit)
    ensures var s := PhoneticUnitToString(u);
      |s| > 0 && IsUpper(s[0]) && IsAscii(s)
      && forall i :: 0 <= i < |s| ==> !IsWhitespace(s[i])
  {
    var ps := ArpaPhoneToString(u.phone);
    var cs := ContextToString(u.context);
    PhoneShape(u.phone);
    if u.context.Some? {
      AuxShape(u.context.value);
    }
    assert forall i :: 0 <= i < |cs| ==> '!' <= cs[i] <= ':';
    var s := ps + cs;
    assert forall i :: 0 <= i < |s| ==> IsUpper(s[i]) || '!' <= s[i] <= ':' by {
      forall i | 0 <= i < |s|
        ensures IsUpper(s[i]) || '!' <= s[i] <= ':'
      {
        if i < |ps| {
          assert s[i] == ps[i];
        } else {
          assert s[i] == cs[i - |ps|];
        }
      }
    }
  }

  // ---------------------------------------------------------------------
  // Parser properties

  /** Printing then parsing gives back every phone. */
  lemma ArpaPhoneRoundTrip(p: ArpaPhone)
    ensures ArpaPhoneFromStr(ArpaPhoneToString(p)) == Some(p)
  {
    match p
    case Aa => case Ae => case Ah => case Ao => case Aw => case Ay => case B => case Ch =>
    case D => case Dh => case Eh => case Er => case Ey => case F => case G => case Hh =>
    case Ih => case Iy => case Jh => case K => case L => case M => case N => case Ng =>
    case Ow => case Oy => case P => case R => case S => case Sh => case T => case Th =>
    case Uh => case Uw => case V => case W => case Y => case Z => case Zh =>
  }

  /** A parsed phone is printed back to exactly the text it was read from. */
  lemma ArpaPhoneParseSound(s: string)
    requires ArpaPhoneFromStr(s).Some?
    ensures ArpaPhoneToString(ArpaPhoneFromStr(s).value) == s
  {
    if |s| == 1 {
      OneLetterSound(s[0]);
      assert s == [s[0]];
    } else {
      TwoLetterSound(s[0], s[1]);
      assert s == [s[0], s[1]];
    }
  }

  lemma OneLetterSound(c: char)
    requires OneLetterPhone(c).Some?
    ensures ArpaPhoneToString(OneLetterPhone(c).value) == [c]
  {
  }

  lemma TwoLetterSound(a: char, b: char)
    requires TwoLetterPhone(a, b).Some?
    ensures ArpaPhoneToString(TwoLetterPhone(a, b).value) == [a, b]
  {
  }

  /** Printing then parsing gives back every auxiliary symbol. */
  lemma AuxRoundTrip(a: AuxiliarySymbol)
    ensures AuxFromStr(AuxToString(a)) == Some(a)
  {
  }

  /** A parsed symbol prints back to the text it was read from, except for the
      two juncture aliases. */
  lemma AuxParseSound(s: string)
    requires AuxFromStr(s).Some?
    ensures var a := AuxFromStr(s).value;
      AuxToString(a) == s
      || (s == "." && a == FallingOrDecliningJuncture)
      || (s == "?" && a == RisingOrInternalJuncture)
  {
  }

  /** "." and "?" are accepted as juncture symbols although nothing prints them. */
  lemma JunctureAliases()
    ensures AuxFromStr(".") == Some(FallingOrDecliningJuncture)
    ensures AuxFromStr("?") == Some(RisingOrInternalJuncture)
  {
  }

  /** Printing then parsing gives back every punctuation mark, also when the
      text is padded with whitespace. */
  lemma PunctuationRoundTrip(p: Punctuation, pre: string, post: string)
    requires forall i :: 0 <= i < |pre| ==> IsWhitespace(pre[i])
    requires forall i :: 0 <= i < |post| ==> IsWhitespace(post[i])
    ensures PunctuationFromStr(pre + PunctuationToString(p) + post) == Some(p)
  {
    PunctuationSymbolRoundTrip(p);
    TrimPadded(pre, PunctuationToString(p), post);
  }

  lemma PunctuationSymbolRoundTrip(p: Punctuation)
    ensures PunctuationSymbol(PunctuationToString(p)) == Some(p)
    ensures var s := PunctuationToString(p); |s| == 1 && !IsWhitespace(s[0]) && !IsUpper(s[0])
  {
  }

  lemma {:induction false} TrimPadded(pre: string, t: string, post: string)
    requires forall i :: 0 <= i < |pre| ==> IsWhitespace(pre[i])
    requires forall i :: 0 <= i < |post| ==> IsWhitespace(post[i])
    requires |t| > 0 && !IsWhitespace(t[0]) && !IsWhitespace(t[|t| - 1])
    ensures Trim(pre + t + post) == t
  {
    var s := pre + t + post;
    var a := TrimStart(s);
    assert s[|pre|] == t[0];
    assert |a| == |t| + |post|;
    assert a == t + post;
    var b := TrimEnd(a);
    assert a[|t| - 1] == t[|t| - 1];
    assert |b| == |t|;
    assert b == t;
  }

  lemma {:induction false} ByteLenAppend(a: string, b: string)
    ensures ByteLen(a + b) == ByteLen(a) + ByteLen(b)
  {
    if |a| > 0 {
      assert (a + b)[0] == a[0];
      assert (a + b)[1..] == a[1..] + b;
      ByteLenAppend(a[1..], b);
    } else {
      assert a + b == b;
    }
  }

  /** Spelling of a context read after a phone: nothing, or one of the
      symbol's spellings. */
  ghost predicate ReadAs(u: PhoneticUnit, s: string) {
    var n := |ArpaPhoneToString(u.phone)|;
    n <= |s| && s[..n] == ArpaPhoneToString(u.phone)
    && (if u.context.None? then n == |s| else AuxFromStr(s[n..]) == Some(u.context.value))
  }

  lemma PhoneAndContextSound(s: string, stop: nat)
    requires PhoneAndContext(s, stop).Parsed?
    ensures ReadAs(PhoneAndContext(s, stop).value, s)
  {
    var parts := SplitAtByte(s, stop).value;
    ArpaPhoneParseSound(parts.0);
    assert s[..|parts.0|] == parts.0 && s[|parts.0|..] == parts.1;
    if stop == ByteLen(s) {
      ByteLenAppend(parts.0, parts.1);
    }
  }

  lemma FourByteSound(s: string)
    requires ByteLen(s) == 4 && PhoneticUnitFromStrAsWritten(s).Parsed?
    ensures ReadAs(PhoneticUnitFromStrAsWritten(s).value, s)
  {
    var parts := SplitAtByte(s, 2).value;
    ArpaPhoneParseSound(parts.0);
    assert s[..|parts.0|] == parts.0 && s[|parts.0|..] == parts.1;
  }

  /** What a successful parse read: the phone's spelling, followed either by
      nothing or by a spelling of the context symbol. */
  lemma PhoneticUnitParseSound(s: string)
    requires PhoneticUnitFromStrAsWritten(s).Parsed?
    ensures ReadAs(PhoneticUnitFromStrAsWritten(s).value, s)
  {
    if ByteLen(s) == 1 {
      ArpaPhoneParseSound(s);
    } else if ByteLen(s) == 4 {
      FourByteSound(s);
    } else {
      PhoneAndContextSound(s, if s[1] in PhoneSymbols then 2 else 1);
    }
  }

  /** The phone parser as written never panics on ASCII text. */
  lemma AsciiPhoneParseNeverPanics(s: string)
    requires IsAscii(s)
    ensures !PhoneticUnitFromStrAsWritten(s).Panicked?
  {
    AsciiByteLen(s);
    if |s| > 0 && ByteLen(s) <= 4 && ByteLen(s) != 1 {
      if ByteLen(s) == 4 {
        AsciiSplitAtByte(s, 2);
      } else {
        AsciiSplitAtByte(s, if s[1] in PhoneSymbols then 2 else 1);
      }
    }
  }

  /** Printing then parsing gives back every phonetic unit. */
  lemma PhoneticUnitRoundTrip(u: PhoneticUnit)
    ensures PhoneticUnitFromStrAsWritten(PhoneticUnitToString(u)) == Parsed(u)
    ensures PhoneticUnitFromStr(PhoneticUnitToString(u)) == Parsed(u)
  {
    var ps := ArpaPhoneToString(u.phone);
    var cs := ContextToString(u.context);
    var s := ps + cs;
    PhoneShape(u.phone);
    PhoneticUnitChars(u);
    ArpaPhoneRoundTrip(u.phone);
    if u.context.Some? {
      AuxShape(u.context.value);
      AuxRoundTrip(u.context.value);
    }
    AsciiByteLen(s);
    assert s[..|ps|] == ps && s[|ps|..] == cs;
    if |s| == 4 {
      AsciiSplitAtByte(s, 2);
    } else if |s| > 1 {
      if |ps| == 1 {
        assert s[1] == cs[0];
        if s[1] in PhoneSymbols {
          PhoneSymbolsUpper(s[1]);
        }
        assert s[1] !in PhoneSymbols;
      } else {
        assert s[1] == ps[1];
        SecondLetterIsPhoneSymbol(ps[1]);
      }
      AsciiSplitAtByte(s, |ps|);
      assert SplitAtByte(s, |ps|) == Some((ps, cs));
      assert |ps| == ByteLen(s) <==> u.context.None?;
      assert PhoneAndContext(s, |ps|) == Parsed(u);
    } else {
      assert s == ps;
    }
  }

  /** The empty string and strings of more than four bytes are not phones. */
  lemma PhoneticUnitRejectsLength(s: string)
    requires |s| == 0 || ByteLen(s) > 4
    ensures PhoneticUnitFromStrAsWritten(s) == Rejected
    ensures PhoneticUnitFromStr(s) == Rejected
  {
  }

  /** Trimming text without whitespace changes nothing, so a unit's printed
      form is its own trimmed form. */
  lemma PhoneticUnitTrimmed(u: PhoneticUnit)
    ensures Trim(PhoneticUnitToString(u)) == PhoneticUnitToString(u)
  {
    PhoneticUnitChars(u);
    TrimNoWhitespace(PhoneticUnitToString(u));
  }

  /** Every unit other than a `Character` survives printing and parsing. */
  lemma UnitRoundTrip(u: Unit)
    requires !u.Character?
    ensures UnitFromStr(UnitToString(u)) == Parsed(u)
  {
    match u
    case Phone(p) => UnitRoundTripPhone(p);
    case Punct(p) => UnitRoundTripPunct(p);
    case Unk => UnitRoundTripMarkers();
    case Padding => UnitRoundTripMarkers();
    case Space =>
  }

  lemma UnitRoundTripPunct(p: Punctuation)
    ensures UnitFromStr(PunctuationToString(p)) == Parsed(Punct(p))
  {
    PunctuationSymbolRoundTrip(p);
    TrimNoWhitespace(PunctuationToString(p));
  }

  lemma UnitRoundTripMarkers()
    ensures UnitFromStr("<UNK>") == Parsed(Unk)
    ensures UnitFromStr("<PAD>") == Parsed(Padding)
  {
    TrimNoWhitespace("<UNK>");
    TrimNoWhitespace("<PAD>");
  }

  lemma UnitRoundTripPhone(p: PhoneticUnit)
    ensures UnitFromStr(PhoneticUnitToString(p)) == Parsed(Phone(p))
  {
    var s := PhoneticUnitToString(p);
    PhoneticUnitTrimmed(p);
    PhoneticUnitRoundTrip(p);
    PhoneticUnitChars(p);
    if PunctuationSymbol(s).Some? {
      PunctuationSymbolRoundTrip(PunctuationSymbol(s).value);
    }
  }

  /** A one-character string that is also a phone parses as the phone. */
  lemma PhoneBeatsCharacter()
    ensures UnitFromStr("B") == Parsed(Phone(PhoneticUnit(B, None)))
    ensures UnitFromStrAsWritten("B") == Parsed(Phone(PhoneticUnit(B, None)))
  {
    TrimNoWhitespace("B");
  }

  /** The phone parser as written on one character: outside ASCII the
      character is more than one byte long and `chars().nth(1)` (or, for a
      four-byte character, the slice at byte 2) panics. */
  lemma SingleCharPhoneParse(c: char)
    ensures c as int >= 0x80 ==> PhoneticUnitFromStrAsWritten([c]) == Panicked
    ensures c as int < 0x80 && ArpaPhoneFromStr([c]).None? ==> PhoneticUnitFromStrAsWritten([c]) == Rejected
  {
    assert [c][1..] == [];
    assert ByteLen([c]) == Utf8Width(c);
    if Utf8Width(c) == 4 {
      assert SplitAtByte([c], 2) == None;
    }
  }

  /** What `Unit::from_str` makes of a single character that is neither
      whitespace nor punctuation, given the phone parser's answer. */
  lemma OneCharUnit(c: char, phone: ParseResult<PhoneticUnit>)
    requires !IsWhitespace(c) && PunctuationSymbol([c]).None?
    ensures phone.Parsed? ==> UnitFromTrimmed([c], [c], phone) == Parsed(Phone(phone.value))
    ensures phone.Panicked? ==> UnitFromTrimmed([c], [c], phone) == Panicked
    ensures phone.Rejected? ==> UnitFromTrimmed([c], [c], phone) == Parsed(Character(c))
  {
    assert [c] != "<PAD>" && [c] != "<UNK>";
  }

  /** Any other printable character comes back as a `Character` unit. */
  lemma CharacterRoundTrip(c: char)
    requires !IsWhitespace(c)
    requires PunctuationSymbol([c]).None? && ArpaPhoneFromStr([c]).None?
    ensures UnitFromStr(UnitToString(Character(c))) == Parsed(Character(c))
  {
    var s := [c];
    assert Trim(s) == s by {
      TrimNoWhitespace(s);
    }
    assert PhoneticUnitFromStr(s) == Rejected by {
      SingleCharPhoneParse(c);
    }
    OneCharUnit(c, PhoneticUnitFromStr(s));
  }

  /** With the phone parser as written, every character outside ASCII that is
      not whitespace makes `Unit::from_str` panic instead of producing a
      `Character` unit. */
  lemma NonAsciiCharacterPanics(c: char)
    requires !IsWhitespace(c) && c as int >= 0x80
    ensures UnitFromStrAsWritten([c]) == Panicked
  {
    var s := [c];
    assert Trim(s) == s by {
      TrimNoWhitespace(s);
    }
    assert PhoneticUnitFromStrAsWritten(s) == Panicked by {
      SingleCharPhoneParse(c);
    }
    NonAsciiNotPunctuation(c);
    OneCharUnit(c, Panicked);
  }

  /** With the corrected phone parser the same characters become `Character`
      units. */
  lemma NonAsciiCharacterParsed(c: char)
    requires !IsWhitespace(c) && c as int >= 0x80
    ensures UnitFromStr([c]) == Parsed(Character(c))
  {
    var s := [c];
    assert Trim(s) == s by {
      TrimNoWhitespace(s);
    }
    assert PhoneticUnitFromStr(s) == Rejected by {
      SingleCharPhoneParse(c);
    }
    NonAsciiNotPunctuation(c);
    OneCharUnit(c, Rejected);
  }

  lemma NonAsciiNotPunctuation(c: char)
    requires c as int >= 0x80
    ensures PunctuationSymbol([c]).None?
  {
    assert [c][0] == c;
  }

  /** The witness used in the findings table: "é". */
  lemma AcuteEPanics()
    ensures UnitFromStrAsWritten("\U{E9}") == Panicked
    ensures UnitFromStr("\U{E9}") == Parsed(Character('\U{E9}'))
  {
    NonAsciiCharacterPanics('\U{E9}');
    NonAsciiCharacterParsed('\U{E9}');
  }

  /** On ASCII text the corrected parser and the parser as written agree. */
  lemma UnitParsersAgreeOnAscii(s: string)
    requires IsAscii(s)
    ensures UnitFromStrAsWritten(s) == UnitFromStr(s)
  {
    var t := Trim(s);
    assert IsAscii(t) by {
      var a := TrimStart(s);
      assert forall i :: 0 <= i < |a| ==> a[i] == s[|s| - |a| + i];
      assert forall i :: 0 <= i < |t| ==> t[i] == a[i];
    }
    assert !PhoneticUnitFromStrAsWritten(t).Panicked? by {
      AsciiPhoneParseNeverPanics(t);
    }
    assert PhoneticUnitFromStr(t) == PhoneticUnitFromStrAsWritten(t);
  }

  // ---------------------------------------------------------------------
  // IPA

  /** The IPA table of `ipa_to_unit` (the phones CMU dict does not use are
      absent from the source table too), keyed by the symbol's characters:
      one character, two characters, or two joined by the tie bar U+0361. */
  function IpaToPhone(ipa: string): Option<ArpaPhone> {
    if |ipa| == 1 then IpaSingle(ipa[0])
    else if |ipa| == 2 then IpaPair(ipa[0], ipa[1])
    else if |ipa| == 3 && ipa[1] == '\U{361}' then IpaTied(ipa[0], ipa[2])
    else None
  }

  function IpaSingle(c: char): Option<ArpaPhone> {
    match c
    case '\U{252}' => Some(Aa)
    case '\U{251}' => Some(Aa)
    case '\U{E6}' => Some(Ae)
    case '\U{28C}' => Some(Ah)
    case '\U{259}' => Some(Ah)
    case '\U{254}' => Some(Ao)
    case '\U{25B}' => Some(Eh)
    case '\U{25D}' => Some(Er)
    case '\U{25A}' => Some(Er)
    case '\U{26A}' => Some(Ih)
    case 'i' => Some(Iy)
    case '\U{28A}' => Some(Uh)
    case 'u' => Some(Uw)
    case 'b' => Some(B)
    case 'd' => Some(D)
    case '\U{F0}' => Some(Dh)
    case 'f' => Some(F)
    case '\U{261}' => Some(G)
    case 'h' => Some(Hh)
    case 'k' => Some(K)
    case 'l' => Some(L)
    case 'm' => Some(M)
    case 'n' => Some(N)
    case '\U{14B}' => Some(Ng)
    case 'p' => Some(P)
    case '\U{279}' => Some(R)
    case 's' => Some(S)
    case '\U{283}' => Some(Sh)
    case 't' => Some(T)
    case '\U{3B8}' => Some(Th)
    case 'v' => Some(V)
    case 'w' => Some(W)
    case 'j' => Some(Y)
    case 'z' => Some(Z)
    case '\U{292}' => Some(Zh)
    case _ => None
  }

  function IpaPair(a: char, b: char): Option<ArpaPhone> {
    if a == 'a' && b == '\U{28A}' then Some(Aw)
    else if a == 'a' && b == '\U{26A}' then Some(Ay)
    else if a == 'e' && b == '\U{26A}' then Some(Ey)
    else if a == 'o' && b == '\U{28A}' then Some(Ow)
    else if a == '\U{254}' && b == '\U{26A}' then Some(Oy)
    else if a == 't' && b == '\U{283}' then Some(Ch)
    else if a == 'd' && b == '\U{292}' then Some(Jh)
    else None
  }

  function IpaTied(a: char, b: char): Option<ArpaPhone> {
    if a == 't' && b == '\U{283}' then Some(Ch)
    else if a == 'd' && b == '\U{292}' then Some(Jh)
    else None
  }

  /** `ipa_to_unit`: a phone carrying the given stress, or an error. */
  function IpaToUnit(ipa: string, context: Option<AuxiliarySymbol>): (r: Option<Unit>)
    ensures r.Some? <==> IpaToPhone(ipa).Some?
    ensures r.Some? ==> r.value == Phone(PhoneticUnit(IpaToPhone(ipa).value, context))
  {
    match IpaToPhone(ipa)
    case None => None
    case Some(phone) => Some(Phone(PhoneticUnit(phone, context)))
  }

  /** One IPA spelling of each phone: the first symbol the table lists for it. */
  function IpaSpelling(p: ArpaPhone): string {
    match p
    case Aa => "\U{252}" case Ae => "\U{E6}" case Ah => "\U{28C}" case Ao => "\U{254}"
    case Aw => "a\U{28A}" case Ay => "a\U{26A}" case B => "b" case Ch => "t\U{283}"
    case D => "d" case Dh => "\U{F0}" case Eh => "\U{25B}" case Er => "\U{25D}"
    case Ey => "e\U{26A}" case F => "f" case G => "\U{261}" case Hh => "h"
    case Ih => "\U{26A}" case Iy => "i" case Jh => "d\U{292}" case K => "k"
    case L => "l" case M => "m" case N => "n" case Ng => "\U{14B}"
    case Ow => "o\U{28A}" case Oy => "\U{254}\U{26A}" case P => "p" case R => "\U{279}"
    case S => "s" case Sh => "\U{283}" case T => "t" case Th => "\U{3B8}"
    case Uh => "\U{28A}" case Uw => "u" case V => "v" case W => "w"
    case Y => "j" case Z => "z" case Zh => "\U{292}"
  }

  /** The phones the table spells with two characters. */
  predicate IpaDigraphPhone(p: ArpaPhone) {
    p.Aw? || p.Ay? || p.Ch? || p.Ey? || p.Jh? || p.Ow? || p.Oy?
  }

  /** The IPA table covers every ARPABET phone: each is the unit of some IPA
      symbol, with whatever stress the caller gives. */
  lemma IpaToUnitCovers(p: ArpaPhone, context: Option<AuxiliarySymbol>)
    ensures IpaToUnit(IpaSpelling(p), context) == Some(Phone(PhoneticUnit(p, context)))
  {
    if IpaDigraphPhone(p) { IpaPairCovers(p); } else { IpaSingleCovers(p); }
  }

  /** Every phone spelled with one character is in the single-character
      table; the groups below follow the table's order. */
  lemma IpaSingleCovers(p: ArpaPhone)
    requires !IpaDigraphPhone(p)
    ensures |IpaSpelling(p)| == 1 && IpaSingle(IpaSpelling(p)[0]) == Some(p)
  {
    if p.Aa? || p.Ae? || p.Ah? || p.Ao? || p.Eh? || p.Er? || p.Ih? || p.Iy? || p.Uh? || p.Uw? {
      IpaVowelCovers(p);
    } else if p.B? || p.D? || p.Dh? || p.F? || p.G? || p.Hh? || p.K? || p.L? || p.M? || p.N? {
      IpaConsonantsBToN(p);
    } else if p.Ng? || p.P? || p.R? || p.S? || p.Sh? || p.T? {
      IpaConsonantsNgToT(p);
    } else {
      IpaConsonantsThToZh(p);
    }
  }

  lemma IpaVowelCovers(p: ArpaPhone)
    requires p.Aa? || p.Ae? || p.Ah? || p.Ao? || p.Eh? || p.Er? || p.Ih? || p.Iy? || p.Uh? || p.Uw?
    ensures |IpaSpelling(p)| == 1 && IpaSingle(IpaSpelling(p)[0]) == Some(p)
  {
  }

  lemma IpaConsonantsBToN(p: ArpaPhone)
    requires p.B? || p.D? || p.Dh? || p.F? || p.G? || p.Hh? || p.K? || p.L? || p.M? || p.N?
    ensures |IpaSpelling(p)| == 1 && IpaSingle(IpaSpelling(p)[0]) == Some(p)
  {
  }

  lemma IpaConsonantsNgToT(p: ArpaPhone)
    requires p.Ng? || p.P? || p.R? || p.S? || p.Sh? || p.T?
    ensures |IpaSpelling(p)| == 1 && IpaSingle(IpaSpelling(p)[0]) == Some(p)
  {
  }

  lemma IpaConsonantsThToZh(p: ArpaPhone)
    requires p.Th? || p.V? || p.W? || p.Y? || p.Z? || p.Zh?
    ensures |IpaSpelling(p)| == 1 && IpaSingle(IpaSpelling(p)[0]) == Some(p)
  {
  }

  /** Every phone spelled with two characters is in the digraph table. */
  lemma IpaPairCovers(p: ArpaPhone)
    requires IpaDigraphPhone(p)
    ensures |IpaSpelling(p)| == 2 && IpaPair(IpaSpelling(p)[0], IpaSpelling(p)[1]) == Some(p)
  {
  }

  /** The `get_unit` closure of `ipa_string_to_units`. Its test
      `g.trim().is_empty()` is written as `IsBlank(g)`, which
      `TrimEmptyIffBlank` shows to be the same condition. */
  function GetUnit(g: string, stress: Option<AuxiliarySymbol>): Unit {
    if IsBlank(g) then Space
    else match IpaToUnit(g, stress)
      case Some(u) => u
      case None => Unk
  }

  /** `get_unit` gives a space for blank text, the stressed phone of a symbol
      of the table, and `Unk` for anything else. */
  lemma GetUnitCases(g: string, stress: Option<AuxiliarySymbol>)
    ensures var u := GetUnit(g, stress);
      && (u.Space? <==> Trim(g) == [])
      && (u.Unk? <==> Trim(g) != [] && IpaToPhone(g).None?)
      && (u.Phone? <==> Trim(g) != [] && IpaToPhone(g).Some?)
      && (u.Phone? ==> u.unit == PhoneticUnit(IpaToPhone(g).value, stress))
  {
    TrimEmptyIffBlank(g);
  }

  /** Graphemes that may open a two-grapheme IPA symbol. */
  predicate OpensDigraph(g: string) {
    |g| == 1 && (g[0] == 't' || g[0] == 'a' || g[0] == 'd' || g[0] == 'o')
  }

  /** The primary stress marks "'" and "\U{2C8}". */
  predicate IsPrimaryMark(g: string) {
    |g| == 1 && (g[0] == '\'' || g[0] == '\U{2C8}')
  }

  predicate IsSecondaryMark(g: string) {
    |g| == 1 && g[0] == '\U{2CC}'
  }

  predicate IsStressMark(g: string) {
    IsPrimaryMark(g) || IsSecondaryMark(g)
  }

  /** Loop state of `ipa_string_to_units`: units so far, the held-back
      grapheme and the pending stress. */
  datatype IpaScan = IpaScan(res: seq<Unit>, buffer: string, stress: Option<AuxiliarySymbol>)

  /** One iteration of the grapheme loop. */
  function IpaStep(st: IpaScan, g: string): IpaScan {
    if st.buffer == [] then
      if IsPrimaryMark(g) then st.(stress := Some(PrimaryStress))
      else if IsSecondaryMark(g) then st.(stress := Some(SecondaryStress))
      else if OpensDigraph(g) then st.(buffer := g)
      else IpaScan(st.res + [GetUnit(g, st.stress)], [], None)
    else match IpaToUnit(st.buffer + g, st.stress)
      case Some(u) => IpaScan(st.res + [u], [], None)
      case None =>
        var flushed := st.res + [GetUnit(st.buffer, st.stress)];
        if OpensDigraph(g) then IpaScan(flushed, g, st.stress)
        else IpaScan(flushed + [GetUnit(g, st.stress)], [], None)
  }

  function IpaFold(st: IpaScan, graphemes: seq<string>): IpaScan
    decreases |graphemes|
  {
    if |graphemes| == 0 then st else IpaFold(IpaStep(st, graphemes[0]), graphemes[1..])
  }

  const IpaStart := IpaScan([], [], None)

  /** `ipa_string_to_units` over an already segmented grapheme sequence. A
      buffered grapheme still held after the last one is dropped. */
  function IpaStringToUnits(graphemes: seq<string>): seq<Unit> {
    IpaFold(IpaStart, graphemes).res
  }

  /** Units emitted plus a held grapheme never outnumber graphemes read. */
  function Pending(st: IpaScan): nat {
    |st.res| + (if st.buffer == [] then 0 else 1)
  }

  lemma {:induction false} IpaFoldBound(st: IpaScan, graphemes: seq<string>)
    ensures Pending(IpaFold(st, graphemes)) <= Pending(st) + |graphemes|
    ensures |st.res| <= |IpaFold(st, graphemes).res|
    ensures IpaFold(st, graphemes).res[..|st.res|] == st.res
    decreases |graphemes|
  {
    if |graphemes| > 0 {
      var next := IpaStep(st, graphemes[0]);
      assert Pending(next) <= Pending(st) + 1;
      assert next.res[..|st.res|] == st.res;
      IpaFoldBound(next, graphemes[1..]);
    }
  }

  /** Never more units than graphemes, and output only ever grows. */
  lemma IpaOutputBound(graphemes: seq<string>)
    ensures |IpaStringToUnits(graphemes)| <= |graphemes|
  {
    IpaFoldBound(IpaStart, graphemes);
  }

  lemma {:induction false} IpaFoldAppend(st: IpaScan, gs: seq<string>, g: string)
    ensures IpaFold(st, gs + [g]) == IpaStep(IpaFold(st, gs), g)
    decreases |gs|
  {
    if |gs| > 0 {
      assert (gs + [g])[1..] == gs[1..] + [g];
      IpaFoldAppend(IpaStep(st, gs[0]), gs[1..], g);
    }
  }

  /** There is no flush after the loop: a final "t", "a", "d" or "o" that
      finds the buffer empty is held back and never emitted. */
  lemma TrailingDigraphOpenerDropped(graphemes: seq<string>, g: string)
    requires OpensDigraph(g)
    requires IpaFold(IpaStart, graphemes).buffer == []
    ensures IpaStringToUnits(graphemes + [g]) == IpaStringToUnits(graphemes)
  {
    IpaFoldAppend(IpaStart, graphemes, g);
  }

  /** Graphemes that neither carry stress nor open a digraph are mapped one
      by one by `get_unit`: whitespace to `Space`, unknown symbols to `Unk`. */
  lemma {:induction false} IpaPlainFold(res: seq<Unit>, graphemes: seq<string>)
    requires forall i :: 0 <= i < |graphemes| ==> !IsStressMark(graphemes[i]) && !OpensDigraph(graphemes[i])
    ensures var out := IpaFold(IpaScan(res, [], None), graphemes).res;
      |out| == |res| + |graphemes| && out[..|res|] == res
      && forall i :: 0 <= i < |graphemes| ==> out[|res| + i] == GetUnit(graphemes[i], None)
    decreases |graphemes|
  {
    if |graphemes| > 0 {
      var g, rest := graphemes[0], graphemes[1..];
      var res' := res + [GetUnit(g, None)];
      StepMapped(IpaScan(res, [], None), g);
      IpaPlainFold(res', rest);
      var out := IpaFold(IpaScan(res', [], None), rest).res;
      assert out[..|res|] == out[..|res'|][..|res|];
      assert out[|res|] == out[..|res'|][|res|];
      forall i | 1 <= i < |graphemes|
        ensures out[|res| + i] == GetUnit(graphemes[i], None)
      {
        assert out[|res'| + (i - 1)] == GetUnit(rest[i - 1], None);
      }
    }
  }

  lemma IpaPlainGraphemes(graphemes: seq<string>)
    requires forall i :: 0 <= i < |graphemes| ==> !IsStressMark(graphemes[i]) && !OpensDigraph(graphemes[i])
    ensures |IpaStringToUnits(graphemes)| == |graphemes|
    ensures forall i :: 0 <= i < |graphemes| ==> IpaStringToUnits(graphemes)[i] == GetUnit(graphemes[i], None)
  {
    IpaPlainFold([], graphemes);
  }

  function Ph(p: ArpaPhone): Unit {
    Phone(PhoneticUnit(p, None))
  }

  function Stressed(p: ArpaPhone): Unit {
    Phone(PhoneticUnit(p, Some(PrimaryStress)))
  }

  lemma {:induction false} IpaFoldConcat(st: IpaScan, a: seq<string>, b: seq<string>)
    ensures IpaFold(st, a + b) == IpaFold(IpaFold(st, a), b)
    decreases |a|
  {
    if |a| > 0 {
      assert (a + b)[0] == a[0];
      assert (a + b)[1..] == a[1..] + b;
      IpaFoldConcat(IpaStep(st, a[0]), a[1..], b);
    } else {
      assert a + b == b;
    }
  }

  // The kinds of step of the grapheme loop, stated once so that the test
  // vectors below only have to name which kind each grapheme takes.

  /** A primary stress mark met with nothing held sets the pending stress. */
  lemma StepMarked(st: IpaScan, g: string)
    requires st.buffer == [] && IsPrimaryMark(g)
    ensures IpaStep(st, g) == st.(stress := Some(PrimaryStress))
  {
  }

  /** A grapheme that may open a two-grapheme symbol is held back. */
  lemma StepHeld(st: IpaScan, g: string)
    requires st.buffer == [] && OpensDigraph(g)
    ensures IpaStep(st, g) == st.(buffer := g)
  {
  }

  /** Any other grapheme is mapped on its own by `get_unit`, with the pending
      stress, which is then cleared. */
  lemma StepMapped(st: IpaScan, g: string)
    requires st.buffer == [] && !IsStressMark(g) && !OpensDigraph(g)
    ensures IpaStep(st, g) == IpaScan(st.res + [GetUnit(g, st.stress)], [], None)
  {
  }

  /** `get_unit` on a one-character symbol of the table. */
  lemma GetUnitSingle(c: char, stress: Option<AuxiliarySymbol>, p: ArpaPhone)
    requires !IsWhitespace(c) && IpaSingle(c) == Some(p)
    ensures GetUnit([c], stress) == Phone(PhoneticUnit(p, stress))
  {
    var g := [c];
    assert !IsBlank(g) by {
      assert !IsWhitespace(g[0]);
    }
    assert IpaToUnit(g, stress) == Some(Phone(PhoneticUnit(p, stress))) by {
      assert |g| == 1 && g[0] == c;
    }
  }

  lemma StepEmitted(st: IpaScan, c: char, p: ArpaPhone)
    requires st.buffer == [] && !IsStressMark([c]) && !OpensDigraph([c])
    requires !IsWhitespace(c) && IpaSingle(c) == Some(p)
    ensures IpaStep(st, [c]) == IpaScan(st.res + [Phone(PhoneticUnit(p, st.stress))], [], None)
  {
    StepMapped(st, [c]);
    GetUnitSingle(c, st.stress, p);
  }

  /** A held grapheme that combines with the next one into a symbol of the
      table gives that symbol's phone. */
  lemma StepJoined(st: IpaScan, g: string, p: ArpaPhone)
    requires st.buffer != [] && IpaToPhone(st.buffer + g) == Some(p)
    ensures IpaStep(st, g) == IpaScan(st.res + [Phone(PhoneticUnit(p, st.stress))], [], None)
  {
  }

  /** A held one-character grapheme that does not combine with the next one
      is flushed as its own phone, and the next one is held in its place if
      it may open a symbol. */
  lemma StepSplit(st: IpaScan, g: string, p: ArpaPhone)
    requires |st.buffer| == 1 && !IsWhitespace(st.buffer[0]) && IpaSingle(st.buffer[0]) == Some(p)
    requires IpaToPhone(st.buffer + g).None? && OpensDigraph(g)
    ensures IpaStep(st, g) == IpaScan(st.res + [Phone(PhoneticUnit(p, st.stress))], g, st.stress)
  {
    assert !IsBlank(st.buffer) by {
      assert !IsWhitespace(st.buffer[0]);
    }
  }

  /** "td" and "dt" are no symbol of the table. */
  lemma SplitPairs()
    ensures IpaToPhone("t" + "d") == None && IpaToPhone("d" + "t") == None
  {
    assert "t" + "d" == "td";
    assert "d" + "t" == "dt";
  }

  /** The first `ipa_remapping` vector: "\U{E6}\U{25D}t\U{283}tdtd\U{292}k" gives AE ER CH T D T JH K:
      "t\U{283}" and "d\U{292}" join, while "td" and "dt" are no symbol and split. */
  lemma IpaRemappingDigraphs()
    ensures IpaStringToUnits(["\U{E6}", "\U{25D}", "t", "\U{283}", "t", "d", "t", "d", "\U{292}", "k"])
            == [Ph(Ae), Ph(Er), Ph(Ch), Ph(T), Ph(D), Ph(T), Ph(Jh), Ph(K)]
  {
    assert ["\U{E6}", "\U{25D}", "t", "\U{283}", "t"] + ["d", "t", "d", "\U{292}", "k"] == ["\U{E6}", "\U{25D}", "t", "\U{283}", "t", "d", "t", "d", "\U{292}", "k"];
    IpaFoldConcat(IpaStart, ["\U{E6}", "\U{25D}", "t", "\U{283}", "t"], ["d", "t", "d", "\U{292}", "k"]);
    DigraphsHead();
    DigraphsTail();
  }

  lemma DigraphsHead()
    ensures IpaFold(IpaStart, ["\U{E6}", "\U{25D}", "t", "\U{283}", "t"]) == IpaScan([Ph(Ae), Ph(Er), Ph(Ch)], "t", None)
  {
    DigraphStep0([]);
    assert [] + [Ph(Ae)] == [Ph(Ae)];
    DigraphStep1([Ph(Ae)]);
    assert [Ph(Ae)] + [Ph(Er)] == [Ph(Ae), Ph(Er)];
    DigraphStep2([Ph(Ae), Ph(Er)]);
    DigraphStep3([Ph(Ae), Ph(Er)]);
    assert [Ph(Ae), Ph(Er)] + [Ph(Ch)] == [Ph(Ae), Ph(Er), Ph(Ch)];
    DigraphStep4([Ph(Ae), Ph(Er), Ph(Ch)]);
  }

  lemma DigraphsTail()
    ensures IpaFold(IpaScan([Ph(Ae), Ph(Er), Ph(Ch)], "t", None), ["d", "t", "d", "\U{292}", "k"])
         == IpaScan([Ph(Ae), Ph(Er), Ph(Ch), Ph(T), Ph(D), Ph(T), Ph(Jh), Ph(K)], [], None)
  {
    DigraphStep5([Ph(Ae), Ph(Er), Ph(Ch)]);
    assert [Ph(Ae), Ph(Er), Ph(Ch)] + [Ph(T)] == [Ph(Ae), Ph(Er), Ph(Ch), Ph(T)];
    DigraphStep6([Ph(Ae), Ph(Er), Ph(Ch), Ph(T)]);
    assert [Ph(Ae), Ph(Er), Ph(Ch), Ph(T)] + [Ph(D)] == [Ph(Ae), Ph(Er), Ph(Ch), Ph(T), Ph(D)];
    DigraphStep7([Ph(Ae), Ph(Er), Ph(Ch), Ph(T), Ph(D)]);
    assert [Ph(Ae), Ph(Er), Ph(Ch), Ph(T), Ph(D)] + [Ph(T)] == [Ph(Ae), Ph(Er), Ph(Ch), Ph(T), Ph(D), Ph(T)];
    DigraphStep8([Ph(Ae), Ph(Er), Ph(Ch), Ph(T), Ph(D), Ph(T)]);
    assert [Ph(Ae), Ph(Er), Ph(Ch), Ph(T), Ph(D), Ph(T)] + [Ph(Jh)] == [Ph(Ae), Ph(Er), Ph(Ch), Ph(T), Ph(D), Ph(T), Ph(Jh)];
    DigraphStep9([Ph(Ae), Ph(Er), Ph(Ch), Ph(T), Ph(D), Ph(T), Ph(Jh)]);
    assert [Ph(Ae), Ph(Er), Ph(Ch), Ph(T), Ph(D), Ph(T), Ph(Jh)] + [Ph(K)] == [Ph(Ae), Ph(Er), Ph(Ch), Ph(T), Ph(D), Ph(T), Ph(Jh), Ph(K)];
  }

  lemma DigraphStep0(res: seq<Unit>)
    ensures IpaStep(IpaScan(res, [], None), "\U{E6}") == IpaScan(res + [Ph(Ae)], [], None)
  {
    StepEmitted(IpaScan(res, [], None), '\U{E6}', Ae);
  }

  lemma DigraphStep1(res: seq<Unit>)
    ensures IpaStep(IpaScan(res, [], None), "\U{25D}") == IpaScan(res + [Ph(Er)], [], None)
  {
    StepEmitted(IpaScan(res, [], None), '\U{25D}', Er);
  }

  lemma DigraphStep2(res: seq<Unit>)
    ensures IpaStep(IpaScan(res, [], None), "t") == IpaScan(res, "t", None)
  {
    StepHeld(IpaScan(res, [], None), "t");
  }

  lemma DigraphStep3(res: seq<Unit>)
    ensures IpaStep(IpaScan(res, "t", None), "\U{283}") == IpaScan(res + [Ph(Ch)], [], None)
  {
    assert "t" + "\U{283}" == "t\U{283}";
    StepJoined(IpaScan(res, "t", None), "\U{283}", Ch);
  }

  lemma DigraphStep4(res: seq<Unit>)
    ensures IpaStep(IpaScan(res, [], None), "t") == IpaScan(res, "t", None)
  {
    StepHeld(IpaScan(res, [], None), "t");
  }

  lemma DigraphStep5(res: seq<Unit>)
    ensures IpaStep(IpaScan(res, "t", None), "d") == IpaScan(res + [Ph(T)], "d", None)
  {
    SplitPairs();
    StepSplit(IpaScan(res, "t", None), "d", T);
  }

  lemma DigraphStep6(res: seq<Unit>)
    ensures IpaStep(IpaScan(res, "d", None), "t") == IpaScan(res + [Ph(D)], "t", None)
  {
    SplitPairs();
    StepSplit(IpaScan(res, "d", None), "t", D);
  }

  lemma DigraphStep7(res: seq<Unit>)
    ensures IpaStep(IpaScan(res, "t", None), "d") == IpaScan(res + [Ph(T)], "d", None)
  {
    SplitPairs();
    StepSplit(IpaScan(res, "t", None), "d", T);
  }

  lemma DigraphStep8(res: seq<Unit>)
    ensures IpaStep(IpaScan(res, "d", None), "\U{292}") == IpaScan(res + [Ph(Jh)], [], None)
  {
    assert "d" + "\U{292}" == "d\U{292}";
    StepJoined(IpaScan(res, "d", None), "\U{292}", Jh);
  }

  lemma DigraphStep9(res: seq<Unit>)
    ensures IpaStep(IpaScan(res, [], None), "k") == IpaScan(res + [Ph(K)], [], None)
  {
    StepEmitted(IpaScan(res, [], None), 'k', K);
  }

  /** The second vector: "\U{2C8}o\U{28A}nf\U{2C8}\U{254}\U{279}\U{3B8}" gives OW1 N F AO1 R TH: a stress
      mark applies to the next unit only. */
  lemma IpaRemappingStress()
    ensures IpaStringToUnits(["\U{2C8}", "o", "\U{28A}", "n", "f", "\U{2C8}", "\U{254}", "\U{279}", "\U{3B8}"])
            == [Stressed(Ow), Ph(N), Ph(F), Stressed(Ao), Ph(R), Ph(Th)]
  {
    assert ["\U{2C8}", "o", "\U{28A}", "n", "f"] + ["\U{2C8}", "\U{254}", "\U{279}", "\U{3B8}"] == ["\U{2C8}", "o", "\U{28A}", "n", "f", "\U{2C8}", "\U{254}", "\U{279}", "\U{3B8}"];
    IpaFoldConcat(IpaStart, ["\U{2C8}", "o", "\U{28A}", "n", "f"], ["\U{2C8}", "\U{254}", "\U{279}", "\U{3B8}"]);
    StressHead();
    StressTail();
  }

  lemma StressHead()
    ensures IpaFold(IpaStart, ["\U{2C8}", "o", "\U{28A}", "n", "f"]) == IpaScan([Stressed(Ow), Ph(N), Ph(F)], [], None)
  {
    StressStep0([]);
    StressStep1([]);
    StressStep2([]);
    assert [] + [Stressed(Ow)] == [Stressed(Ow)];
    StressStep3([Stressed(Ow)]);
    assert [Stressed(Ow)] + [Ph(N)] == [Stressed(Ow), Ph(N)];
    StressStep4([Stressed(Ow), Ph(N)]);
    assert [Stressed(Ow), Ph(N)] + [Ph(F)] == [Stressed(Ow), Ph(N), Ph(F)];
  }

  lemma StressTail()
    ensures IpaFold(IpaScan([Stressed(Ow), Ph(N), Ph(F)], [], None), ["\U{2C8}", "\U{254}", "\U{279}", "\U{3B8}"])
         == IpaScan([Stressed(Ow), Ph(N), Ph(F), Stressed(Ao), Ph(R), Ph(Th)], [], None)
  {
    StressStep5([Stressed(Ow), Ph(N), Ph(F)]);
    StressStep6([Stressed(Ow), Ph(N), Ph(F)]);
    assert [Stressed(Ow), Ph(N), Ph(F)] + [Stressed(Ao)] == [Stressed(Ow), Ph(N), Ph(F), Stressed(Ao)];
    StressStep7([Stressed(Ow), Ph(N), Ph(F), Stressed(Ao)]);
    assert [Stressed(Ow), Ph(N), Ph(F), Stressed(Ao)] + [Ph(R)] == [Stressed(Ow), Ph(N), Ph(F), Stressed(Ao), Ph(R)];
    StressStep8([Stressed(Ow), Ph(N), Ph(F), Stressed(Ao), Ph(R)]);
    assert [Stressed(Ow), Ph(N), Ph(F), Stressed(Ao), Ph(R)] + [Ph(Th)] == [Stressed(Ow), Ph(N), Ph(F), Stressed(Ao), Ph(R), Ph(Th)];
  }

  lemma StressStep0(res: seq<Unit>)
    ensures IpaStep(IpaScan(res, [], None), "\U{2C8}") == IpaScan(res, [], Some(PrimaryStress))
  {
    StepMarked(IpaScan(res, [], None), "\U{2C8}");
  }

  lemma StressStep1(res: seq<Unit>)
    ensures IpaStep(IpaScan(res, [], Some(PrimaryStress)), "o") == IpaScan(res, "o", Some(PrimaryStress))
  {
    StepHeld(IpaScan(res, [], Some(PrimaryStress)), "o");
  }

  lemma StressStep2(res: seq<Unit>)
    ensures IpaStep(IpaScan(res, "o", Some(PrimaryStress)), "\U{28A}") == IpaScan(res + [Stressed(Ow)], [], None)
  {
    assert "o" + "\U{28A}" == "o\U{28A}";
    StepJoined(IpaScan(res, "o", Some(PrimaryStress)), "\U{28A}", Ow);
  }

  lemma StressStep3(res: seq<Unit>)
    ensures IpaStep(IpaScan(res, [], None), "n") == IpaScan(res + [Ph(N)], [], None)
  {
    StepEmitted(IpaScan(res, [], None), 'n', N);
  }

  lemma StressStep4(res: seq<Unit>)
    ensures IpaStep(IpaScan(res, [], None), "f") == IpaScan(res + [Ph(F)], [], None)
  {
    StepEmitted(IpaScan(res, [], None), 'f', F);
  }

  lemma StressStep5(res: seq<Unit>)
    ensures IpaStep(IpaScan(res, [], None), "\U{2C8}") == IpaScan(res, [], Some(PrimaryStress))
  {
    StepMarked(IpaScan(res, [], None), "\U{2C8}");
  }

  lemma StressStep6(res: seq<Unit>)
    ensures IpaStep(IpaScan(res, [], Some(PrimaryStress)), "\U{254}") == IpaScan(res + [Stressed(Ao)], [], None)
  {
    StepEmitted(IpaScan(res, [], Some(PrimaryStress)), '\U{254}', Ao);
  }

  lemma StressStep7(res: seq<Unit>)
    ensures IpaStep(IpaScan(res, [], None), "\U{279}") == IpaScan(res + [Ph(R)], [], None)
  {
    StepEmitted(IpaScan(res, [], None), '\U{279}', R);
  }

  lemma StressStep8(res: seq<Unit>)
    ensures IpaStep(IpaScan(res, [], None), "\U{3B8}") == IpaScan(res + [Ph(Th)], [], None)
  {
    StepEmitted(IpaScan(res, [], None), '\U{3B8}', Th);
  }

  // ---------------------------------------------------------------------
  // Vocabulary lookup

  predicate SamePhone(x: Unit, q: PhoneticUnit) {
    x.Phone? && x.unit.phone == q.phone
  }

  function SamePhoneAs(q: PhoneticUnit): Unit -> bool {
    x => SamePhone(x, q)
  }

  function EqualTo(u: Unit): Unit -> bool {
    x => x == u
  }

  /** The `for` loop of `best_match_for_unit` from entry `i` on, over the
      entries with the query's phone; `best` is the first such entry seen. */
  function PhoneScan(q: PhoneticUnit, list: seq<Unit>, i: nat, best: Option<nat>): Option<nat>
    requires i <= |list|
    decreases |list| - i
  {
    if i == |list| then best
    else if !SamePhone(list[i], q) then PhoneScan(q, list, i + 1, best)
    else if q.context.None? && list[i].unit.context.Some? then Some(i)
    else if list[i].unit == q then Some(i)
    else PhoneScan(q, list, i + 1, if best.None? then Some(i) else best)
  }

  /** `best_match_for_unit`: the vocabulary index a unit is fed to the model as. */
  function BestMatchForUnit(u: Unit, list: seq<Unit>): Option<nat> {
    if u.Phone? then PhoneScan(u.unit, list, 0, None)
    else FirstIndex(list, EqualTo(u))
  }

  /** The lookup described without the loop: an exact entry for a marked
      phone if there is one, otherwise the first entry with the same phone;
      anything else must be present verbatim. */
  function BestMatchReference(u: Unit, list: seq<Unit>): Option<nat> {
    if u.Phone? && u.unit.context.Some? then
      match FirstIndex(list, EqualTo(u))
      case Some(k) => Some(k)
      case None => FirstIndex(list, SamePhoneAs(u.unit))
    else if u.Phone? then FirstIndex(list, SamePhoneAs(u.unit))
    else FirstIndex(list, EqualTo(u))
  }

  lemma {:induction false} PhoneScanMarked(q: PhoneticUnit, list: seq<Unit>, i: nat, best: Option<nat>)
    requires q.context.Some? && i <= |list|
    requires forall j :: 0 <= j < i ==> list[j] != Phone(q)
    requires best.None? ==> forall j :: 0 <= j < i ==> !SamePhone(list[j], q)
    requires best.Some? ==> best == FirstIndex(list, SamePhoneAs(q)) && best.value < i
    ensures PhoneScan(q, list, i, best) == BestMatchReference(Phone(q), list)
    decreases |list| - i
  {
    var exact := FirstIndex(list, EqualTo(Phone(q)));
    var same := FirstIndex(list, SamePhoneAs(q));
    if i == |list| {
      assert exact.None?;
    } else if !SamePhone(list[i], q) {
      PhoneScanMarked(q, list, i + 1, best);
    } else if list[i].unit == q {
      assert exact == Some(i);
    } else {
      if best.None? {
        assert same == Some(i);
      }
      PhoneScanMarked(q, list, i + 1, if best.None? then Some(i) else best);
    }
  }

  lemma {:induction false} PhoneScanUnmarked(q: PhoneticUnit, list: seq<Unit>, i: nat)
    requires q.context.None? && i <= |list|
    requires forall j :: 0 <= j < i ==> !SamePhone(list[j], q)
    ensures PhoneScan(q, list, i, None) == BestMatchReference(Phone(q), list)
    decreases |list| - i
  {
    var same := FirstIndex(list, SamePhoneAs(q));
    if i == |list| {
      assert same.None?;
    } else if !SamePhone(list[i], q) {
      PhoneScanUnmarked(q, list, i + 1);
    } else {
      assert same == Some(i);
    }
  }

  /** The loop computes the reference lookup, for every unit and list. */
  lemma BestMatchIsReference(u: Unit, list: seq<Unit>)
    ensures BestMatchForUnit(u, list) == BestMatchReference(u, list)
  {
    if u.Phone? {
      if u.unit.context.Some? {
        PhoneScanMarked(u.unit, list, 0, None);
      } else {
        PhoneScanUnmarked(u.unit, list, 0);
      }
    }
  }

  /** Consequences for a phone query: no answer exactly when no entry has the
      phone; an unmarked query gets the first entry with its phone; a marked
      one gets its exact entry when present. */
  lemma BestMatchForPhone(q: PhoneticUnit, list: seq<Unit>)
    ensures var r := BestMatchForUnit(Phone(q), list);
      (r.None? <==> forall j :: 0 <= j < |list| ==> !SamePhone(list[j], q))
      && (r.Some? ==> r.value < |list| && SamePhone(list[r.value], q))
      && (q.context.None? && r.Some? ==> forall j :: 0 <= j < r.value ==> !SamePhone(list[j], q))
      && (q.context.Some? && Phone(q) in list ==>
            (r.Some? && list[r.value] == Phone(q) && forall j :: 0 <= j < r.value ==> list[j] != Phone(q)))
  {
    BestMatchIsReference(Phone(q), list);
    var exact := FirstIndex(list, EqualTo(Phone(q)));
    var same := FirstIndex(list, SamePhoneAs(q));
    if exact.Some? {
      assert SamePhone(list[exact.value], q);
    }
    if q.context.Some? && Phone(q) in list {
      var k :| 0 <= k < |list| && list[k] == Phone(q);
      assert EqualTo(Phone(q))(list[k]);
    }
  }
}
