/** The `convert` helper of `scripts/data_cleaning.py`: it rewrites one IPA
    phoneme, as the gruut phonemiser emits it, into an ARPABET token of the
    lexicon the dictionary is extended with, and collects the symbols it
    does not know in the script's `bad_phones` set. */
module DataCleaning {
  import opened Outcomes
  import opened Seqs
  import opened Phonemes

  /** The result of `convert` together with the script's `bad_phones` set
      after the call. */
  datatype Cleaned = Cleaned(token: string, badPhones: set<string>)

  /** The script's own IPA table, written as its `if`/`elif` chain is: the
      ARPABET name each accepted symbol maps to. Like the library's table it
      is keyed by the symbol's characters (one character, two, or two joined
      by the tie bar U+0361). */
  function ScriptPhone(ipa: string): Option<string> {
    if |ipa| == 1 then ScriptSingle(ipa[0])
    else if |ipa| == 2 then ScriptPair(ipa[0], ipa[1])
    else if |ipa| == 3 && ipa[1] == '\U{361}' then ScriptTied(ipa[0], ipa[2])
    else None
  }

  function ScriptSingle(c: char): Option<string> {
    match c
    case '\U{252}' => Some("AA")
    case '\U{251}' => Some("AA")
    case '\U{E6}' => Some("AE")
    case '\U{28C}' => Some("AH")
    case '\U{259}' => Some("AH")
    case '\U{254}' => Some("AO")
    case '\U{25B}' => Some("EH")
    case '\U{25D}' => Some("ER")
    case '\U{25A}' => Some("ER")
    case '\U{26A}' => Some("IH")
    case 'i' => Some("IY")
    case '\U{28A}' => Some("UH")
    case 'u' => Some("UW")
    case 'b' => Some("B")
    case 'd' => Some("D")
    case '\U{F0}' => Some("DH")
    case 'f' => Some("F")
    case '\U{261}' => Some("G")
    case 'h' => Some("HH")
    case 'k' => Some("K")
    case 'l' => Some("L")
    case 'm' => Some("M")
    case 'n' => Some("N")
    case '\U{14B}' => Some("NG")
    case 'p' => Some("P")
    case '\U{279}' => Some("R")
    case 's' => Some("S")
    case '\U{283}' => Some("SH")
    case 't' => Some("T")
    case '\U{3B8}' => Some("TH")
    case 'v' => Some("V")
    case 'w' => Some("W")
    case 'j' => Some("Y")
    case 'z' => Some("Z")
    case '\U{292}' => Some("ZH")
    case _ => None
  }

  function ScriptPair(a: char, b: char): Option<string> {
    if a == 'a' && b == '\U{28A}' then Some("AW")
    else if a == 'a' && b == '\U{26A}' then Some("AY")
    else if a == 'e' && b == '\U{26A}' then Some("EY")
    else if a == 'o' && b == '\U{28A}' then Some("OW")
    else if a == '\U{254}' && b == '\U{26A}' then Some("OY")
    else if a == 't' && b == '\U{283}' then Some("CH")
    else if a == 'd' && b == '\U{292}' then Some("JH")
    else None
  }

  function ScriptTied(a: char, b: char): Option<string> {
    if a == 't' && b == '\U{283}' then Some("CH")
    else if a == 'd' && b == '\U{292}' then Some("JH")
    else None
  }

  /** The stress prefix `convert` strips: an apostrophe or U+02C8 gives the
      suffix "1 ", U+02CC gives "2 ", anything else leaves the symbol whole
      and gives " ". */
  function SplitStress(ipa: string): (r: (string, string))
    ensures r.1 in {"1 ", "2 ", " "}
    ensures r.1 == "1 " <==> |ipa| > 0 && (ipa[0] == '\'' || ipa[0] == '\U{2C8}')
    ensures r.1 == "2 " <==> |ipa| > 0 && ipa[0] == '\U{2CC}'
    ensures r.1 == " " ==> r.0 == ipa
    ensures r.1 != " " ==> |ipa| > 0 && r.0 == ipa[1..]
  {
    if |ipa| > 0 && (ipa[0] == '\'' || ipa[0] == '\U{2C8}') then (ipa[1..], "1 ")
    else if |ipa| > 0 && ipa[0] == '\U{2CC}' then (ipa[1..], "2 ")
    else (ipa, " ")
  }

  /** `convert`: the ARPABET name followed by the stress suffix, or
      `<UNK> ` for a symbol outside the table, which then joins
      `bad_phones` (without its stress prefix). */
  function Convert(ipa: string, badPhones: set<string>): (r: Cleaned)
    ensures badPhones <= r.badPhones
    ensures ScriptPhone(SplitStress(ipa).0).None? <==> r.token == "<UNK> "
    ensures ScriptPhone(SplitStress(ipa).0).None? ==> r.badPhones == badPhones + {SplitStress(ipa).0}
    ensures ScriptPhone(SplitStress(ipa).0).Some? ==> r.badPhones == badPhones
  {
    var (rest, aux) := SplitStress(ipa);
    match ScriptPhone(rest)
    case None => Cleaned("<UNK> ", badPhones + {rest})
    case Some(phone) =>
      ScriptNames(rest);
      Cleaned(phone + aux, badPhones)
  }

  /** The stress the script's suffix stands for, as the library reads the
      same prefix in `ipa_string_to_units`. */
  function StressOf(ipa: string): Option<AuxiliarySymbol> {
    if |ipa| > 0 && (ipa[0] == '\'' || ipa[0] == '\U{2C8}') then Some(PrimaryStress)
    else if |ipa| > 0 && ipa[0] == '\U{2CC}' then Some(SecondaryStress)
    else None
  }

  /** The unit the library's `ipa_to_unit` gives for the same symbol and
      stress, with `Unk` where it fails (as `get_unit` does). */
  function LibraryUnit(ipa: string): Unit {
    match IpaToUnit(SplitStress(ipa).0, StressOf(ipa))
    case Some(u) => u
    case None => Unk
  }

  // ---------------------------------------------------------------------
  // Agreement with the library's table

  lemma ScriptSingleAgrees(c: char)
    ensures ScriptSingle(c) == (if IpaSingle(c).Some? then Some(ArpaPhoneToString(IpaSingle(c).value)) else None)
  {
    if c as int < 0x80 {
      AsciiSingleAgrees(c);
    } else {
      IpaLetterAgrees(c);
    }
  }

  lemma AsciiSingleAgrees(c: char)
    requires c as int < 0x80
    ensures ScriptSingle(c) == (if IpaSingle(c).Some? then Some(ArpaPhoneToString(IpaSingle(c).value)) else None)
  {
  }

  lemma IpaLetterAgrees(c: char)
    requires c as int >= 0x80
    ensures ScriptSingle(c) == (if IpaSingle(c).Some? then Some(ArpaPhoneToString(IpaSingle(c).value)) else None)
  {
  }

  lemma ScriptPairAgrees(a: char, b: char)
    ensures ScriptPair(a, b) == (if IpaPair(a, b).Some? then Some(ArpaPhoneToString(IpaPair(a, b).value)) else None)
  {
  }

  lemma ScriptTiedAgrees(a: char, b: char)
    ensures ScriptTied(a, b) == (if IpaTied(a, b).Some? then Some(ArpaPhoneToString(IpaTied(a, b).value)) else None)
  {
  }

  /** The script accepts exactly the symbols the library's `ipa_to_unit`
      accepts, and names the same phone. */
  lemma ScriptTableAgrees(ipa: string)
    ensures ScriptPhone(ipa).Some? <==> IpaToPhone(ipa).Some?
    ensures ScriptPhone(ipa).Some? ==> ScriptPhone(ipa).value == ArpaPhoneToString(IpaToPhone(ipa).value)
  {
    if |ipa| == 1 {
      ScriptSingleAgrees(ipa[0]);
    } else if |ipa| == 2 {
      ScriptPairAgrees(ipa[0], ipa[1]);
    } else if |ipa| == 3 && ipa[1] == '\U{361}' {
      ScriptTiedAgrees(ipa[0], ipa[2]);
    }
  }

  /** Every name in the script's table is an ARPABET phone's spelling. */
  lemma ScriptNames(ipa: string)
    requires ScriptPhone(ipa).Some?
    ensures exists p: ArpaPhone :: ScriptPhone(ipa).value == ArpaPhoneToString(p)
  {
    ScriptTableAgrees(ipa);
  }

  // ---------------------------------------------------------------------
  // Properties of `convert`

  /** The token `convert` writes is the library's spelling of the unit
      `ipa_to_unit` gives for the same symbol and stress (`<UNK>` when it
      fails), followed by one space. */
  lemma ConvertSpellsLibraryUnit(ipa: string, badPhones: set<string>)
    ensures Convert(ipa, badPhones).token == UnitToString(LibraryUnit(ipa)) + " "
  {
    var rest := SplitStress(ipa).0;
    ScriptTableAgrees(rest);
  }

  /** Every token ends in exactly one space: its last character is a space
      and the one before it is not. */
  lemma ConvertEndsInOneSpace(ipa: string, badPhones: set<string>)
    ensures var t := Convert(ipa, badPhones).token;
      |t| >= 2 && t[|t| - 1] == ' ' && t[|t| - 2] != ' '
  {
    ConvertSpellsLibraryUnit(ipa, badPhones);
    var u := LibraryUnit(ipa);
    if u.Phone? {
      PhoneticUnitChars(u.unit);
    }
  }

  /** An accepted symbol's token, without its space, parses back (with the
      library's unit parser) as the phone with the stress of the prefix. */
  lemma ConvertReadsBack(ipa: string, badPhones: set<string>)
    requires ScriptPhone(SplitStress(ipa).0).Some?
    ensures var t := Convert(ipa, badPhones).token;
      && |t| > 0
      && UnitFromStr(t[..|t| - 1]) == Parsed(Phone(PhoneticUnit(IpaToPhone(SplitStress(ipa).0).value, StressOf(ipa))))
  {
    var t := Convert(ipa, badPhones).token;
    ScriptTableAgrees(SplitStress(ipa).0);
    ConvertSpellsLibraryUnit(ipa, badPhones);
    var u := LibraryUnit(ipa);
    assert t[..|t| - 1] == UnitToString(u);
    UnitRoundTrip(u);
  }

  // ---------------------------------------------------------------------
  // A word: the phonemes of one gruut word, converted in turn and joined

  /** `"".join(map(convert, w.phonemes))`, threading `bad_phones`. */
  function ConvertWord(phonemes: seq<string>, badPhones: set<string>): (r: Cleaned)
    decreases |phonemes|
  {
    if |phonemes| == 0 then Cleaned([], badPhones)
    else
      var first := Convert(phonemes[0], badPhones);
      var rest := ConvertWord(phonemes[1..], first.badPhones);
      Cleaned(first.token + rest.token, rest.badPhones)
  }

  /** A phoneme the script does not know (after its stress prefix). */
  predicate Unknown(ipa: string) {
    ScriptPhone(SplitStress(ipa).0).None?
  }

  /** The symbols of `phonemes` the script does not know, stress stripped. */
  function UnknownSymbols(phonemes: seq<string>): set<string> {
    set i | 0 <= i < |phonemes| && Unknown(phonemes[i]) :: SplitStress(phonemes[i]).0
  }

  /** The library's spelling of each phoneme's unit, each followed by one
      space. */
  function LibrarySpellings(phonemes: seq<string>): (r: seq<string>)
    ensures |r| == |phonemes|
  {
    if |phonemes| == 0 then []
    else [UnitToString(LibraryUnit(phonemes[0])) + " "] + LibrarySpellings(phonemes[1..])
  }

  /** A word's text is its phonemes' library spellings, each followed by one
      space, and `bad_phones` gains exactly the unknown symbols. */
  lemma {:induction false} ConvertWordContents(phonemes: seq<string>, badPhones: set<string>)
    ensures var r := ConvertWord(phonemes, badPhones);
      && r.token == Flatten(LibrarySpellings(phonemes))
      && r.badPhones == badPhones + UnknownSymbols(phonemes)
    decreases |phonemes|
  {
    if |phonemes| > 0 {
      var first := Convert(phonemes[0], badPhones);
      ConvertSpellsLibraryUnit(phonemes[0], badPhones);
      ConvertWordContents(phonemes[1..], first.badPhones);
      var spell := LibrarySpellings(phonemes);
      assert spell[1..] == LibrarySpellings(phonemes[1..]);
      UnknownSymbolsCons(phonemes);
    } else {
      assert UnknownSymbols(phonemes) == {};
    }
  }

  lemma UnknownSymbolsCons(phonemes: seq<string>)
    requires |phonemes| > 0
    ensures UnknownSymbols(phonemes)
      == (if Unknown(phonemes[0]) then {SplitStress(phonemes[0]).0} else {}) + UnknownSymbols(phonemes[1..])
  {
    var tail := phonemes[1..];
    forall x | x in UnknownSymbols(phonemes)
      ensures x in (if Unknown(phonemes[0]) then {SplitStress(phonemes[0]).0} else {}) + UnknownSymbols(tail)
    {
      var i :| 0 <= i < |phonemes| && Unknown(phonemes[i]) && SplitStress(phonemes[i]).0 == x;
      if i > 0 {
        assert tail[i - 1] == phonemes[i];
      }
    }
    forall x | x in UnknownSymbols(tail)
      ensures x in UnknownSymbols(phonemes)
    {
      var i :| 0 <= i < |tail| && Unknown(tail[i]) && SplitStress(tail[i]).0 == x;
      assert phonemes[i + 1] == tail[i];
    }
  }
}
