/** The pronunciation dictionary of `src/cmu_dict.rs`: a map from a
    normalised word to every pronunciation listed for it, read from the
    lines of a CMU dictionary file, merged with other dictionaries and
    simplified to one pronunciation per word. The word normaliser
    (`dict_normalise`, or `normalise_text` then `to_string_unchecked` for
    queries) is a parameter. */
module CmuDict {
  import opened Outcomes
  import opened Strings
  import opened Seqs
  import opened Phonemes
  import TextNormaliser

  /** Pronunciations of each word, in the order they were read. */
  datatype CmuDictionary = CmuDictionary(entries: map<string, seq<Pronunciation>>)

  type Normaliser = string -> string

  /** The list kept for `w`, empty when the word is absent. */
  function ListOf(m: map<string, seq<Pronunciation>>, w: string): seq<Pronunciation> {
    if w in m then m[w] else []
  }

  // ---------------------------------------------------------------------
  // Size and lookup

  /** `CmuDictionary::len`: the number of distinct words. */
  function Len(d: CmuDictionary): nat {
    |d.entries|
  }

  function IsEmpty(d: CmuDictionary): bool {
    Len(d) == 0
  }

  /** A dictionary is empty exactly when it knows no word. */
  lemma IsEmptyIffNoWords(d: CmuDictionary)
    ensures IsEmpty(d) <==> forall w :: w !in d.entries
  {
    if !IsEmpty(d) {
      var w :| w in d.entries;
    }
  }

  /** `get_pronunciations_normalised`: an exact key lookup. */
  function GetNormalised(d: CmuDictionary, word: string): (r: Option<seq<Pronunciation>>)
    ensures r.Some? <==> word in d.entries
    ensures r.Some? ==> r.value == d.entries[word]
  {
    if word in d.entries then Some(d.entries[word]) else None
  }

  /** `get_pronunciations`: the lookup of the normalised word. */
  function GetPronunciations(d: CmuDictionary, normalise: Normaliser, word: string): Option<seq<Pronunciation>> {
    GetNormalised(d, normalise(word))
  }

  /** The dictionary as the word lookup the text normaliser is given. */
  function AsLookup(d: CmuDictionary, normalise: Normaliser): TextNormaliser.Lookup {
    w => GetPronunciations(d, normalise, w)
  }

  // ---------------------------------------------------------------------
  // Reading lines (`from_reader`)

  /** The tokens of a split that are not empty, in order. */
  function NonEmpty(ts: seq<string>): (r: seq<string>)
    ensures forall t :: t in r ==> |t| > 0
    ensures (forall k :: 0 <= k < |ts| ==> |ts[k]| > 0) ==> r == ts
  {
    if |ts| == 0 then []
    else (if |ts[0]| > 0 then [ts[0]] else []) + NonEmpty(ts[1..])
  }

  /** The phones of a line, or `None` when any of them does not parse. */
  function ParsePhones(tokens: seq<string>): (r: Option<Pronunciation>)
    ensures r.Some? ==> |r.value| == |tokens|
    ensures r.Some? ==> forall k :: 0 <= k < |tokens| ==> PhoneticUnitFromStr(tokens[k]) == Parsed(r.value[k])
    ensures r.None? <==> exists k :: 0 <= k < |tokens| && !PhoneticUnitFromStr(tokens[k]).Parsed?
  {
    if |tokens| == 0 then Some([])
    else match PhoneticUnitFromStr(tokens[0])
      case Parsed(u) =>
        (match ParsePhones(tokens[1..])
         case Some(rest) =>
           ParsedInFront(tokens, u, rest);
           Some([u] + rest)
         case None =>
           var k :| 0 <= k < |tokens[1..]| && !PhoneticUnitFromStr(tokens[1..][k]).Parsed?;
           assert tokens[1..][k] == tokens[k + 1];
           None)
      case _ => None
  }

  /** The first token's phone in front of the parse of the others parses
      every token in place. */
  lemma ParsedInFront(tokens: seq<string>, u: PhoneticUnit, rest: Pronunciation)
    requires |tokens| > 0 && PhoneticUnitFromStr(tokens[0]) == Parsed(u)
    requires |rest| == |tokens| - 1
    requires forall k :: 0 <= k < |tokens[1..]| ==> PhoneticUnitFromStr(tokens[1..][k]) == Parsed(rest[k])
    ensures forall k :: 0 <= k < |tokens| ==> PhoneticUnitFromStr(tokens[k]) == Parsed(([u] + rest)[k])
  {
    var parsesTo := (t: string, v: PhoneticUnit) => PhoneticUnitFromStr(t) == Parsed(v);
    PointwiseInFront(tokens, u, rest, parsesTo);
  }

  const CommentStart := ";;;"
  const FieldSeparator := "  "

  /** The phone tokens of a line's second field: its non-empty pieces
      between single spaces. */
  function Tokens(field: string): seq<string> {
    NonEmpty(SplitOn(field, " "))
  }

  /** The word and pronunciation one line contributes: none for a comment, a
      line without a double-space separator, or a line with a phone that does
      not parse. Anything after a second separator is ignored. */
  function ParseLine(line: string, normalise: Normaliser): (r: Option<(string, Pronunciation)>)
    ensures StartsWith(line, CommentStart) ==> r.None?
    ensures |SplitOn(line, FieldSeparator)| < 2 ==> r.None?
    ensures r.Some? ==> r.value.0 == normalise(SplitOn(line, FieldSeparator)[0])
  {
    if StartsWith(line, CommentStart) then None
    else
      var fields := SplitOn(line, FieldSeparator);
      if |fields| < 2 then None
      else match ParsePhones(Tokens(fields[1]))
        case None => None
        case Some(p) => Some((normalise(fields[0]), p))
  }

  /** An entry line's pronunciation is the parse of the non-empty tokens of
      its second field, and a line that is not a comment and has two fields
      is dropped exactly when one of those tokens is not a phone. */
  lemma ParseLineCases(line: string, normalise: Normaliser)
    ensures ParseLine(line, normalise).Some? ==>
      ParsePhones(Tokens(SplitOn(line, FieldSeparator)[1])) == Some(ParseLine(line, normalise).value.1)
    ensures !StartsWith(line, CommentStart) && |SplitOn(line, FieldSeparator)| >= 2 ==>
      var toks := Tokens(SplitOn(line, FieldSeparator)[1]);
      (ParseLine(line, normalise).None? <==> exists k :: 0 <= k < |toks| && !PhoneticUnitFromStr(toks[k]).Parsed?)
  {
  }

  /** The phones of a line as `from_reader` reads them, token by token with
      `PhoneticUnit::from_str` as written: the first token that does not
      parse drops the line, and a token on which the parser panics aborts
      the whole read. */
  function ParsePhonesAsWritten(tokens: seq<string>): (r: ParseResult<Pronunciation>)
    ensures r.Parsed? <==> ParsePhones(tokens).Some?
    ensures r.Parsed? ==> r.value == ParsePhones(tokens).value
  {
    if |tokens| == 0 then Parsed([])
    else match PhoneticUnitFromStrAsWritten(tokens[0])
      case Parsed(u) =>
        (match ParsePhonesAsWritten(tokens[1..])
         case Parsed(rest) => Parsed([u] + rest)
         case Rejected => Rejected
         case Panicked => Panicked)
      case Rejected => Rejected
      case Panicked => Panicked
  }

  /** One line as `from_reader` reads it: `Panicked` where the phone parser
      panics on one of its tokens before any token is rejected. */
  function ParseLineAsWritten(line: string, normalise: Normaliser): (r: ParseResult<(string, Pronunciation)>)
    ensures !r.Panicked? ==> (r.Parsed? <==> ParseLine(line, normalise).Some?)
    ensures r.Parsed? ==> r.value == ParseLine(line, normalise).value
  {
    if StartsWith(line, CommentStart) then Rejected
    else
      var fields := SplitOn(line, FieldSeparator);
      if |fields| < 2 then Rejected
      else match ParsePhonesAsWritten(Tokens(fields[1]))
        case Parsed(p) => Parsed((normalise(fields[0]), p))
        case Rejected => Rejected
        case Panicked => Panicked
  }

  /** Which tokens make a line panic: one the parser panics on, with every
      token before it parsed. */
  lemma {:induction false} ParsePhonesPanics(tokens: seq<string>)
    ensures ParsePhonesAsWritten(tokens).Panicked? <==>
      exists k :: 0 <= k < |tokens| && PhoneticUnitFromStrAsWritten(tokens[k]).Panicked?
        && forall j :: 0 <= j < k ==> PhoneticUnitFromStrAsWritten(tokens[j]).Parsed?
  {
    if |tokens| > 0 {
      var tail := tokens[1..];
      ParsePhonesPanics(tail);
      var first := PhoneticUnitFromStrAsWritten(tokens[0]);
      if ParsePhonesAsWritten(tokens).Panicked? {
        if !first.Panicked? {
          var k :| 0 <= k < |tail| && PhoneticUnitFromStrAsWritten(tail[k]).Panicked?
            && forall j :: 0 <= j < k ==> PhoneticUnitFromStrAsWritten(tail[j]).Parsed?;
          assert tokens[k + 1] == tail[k];
          forall j | 0 <= j < k + 1
            ensures PhoneticUnitFromStrAsWritten(tokens[j]).Parsed?
          {
            if j > 0 {
              assert tokens[j] == tail[j - 1];
            }
          }
        }
      } else {
        forall k | 0 <= k < |tokens| && PhoneticUnitFromStrAsWritten(tokens[k]).Panicked?
          ensures exists j :: 0 <= j < k && !PhoneticUnitFromStrAsWritten(tokens[j]).Parsed?
        {
          if first.Parsed? {
            assert k > 0 && tail[k - 1] == tokens[k];
            var j :| 0 <= j < k - 1 && !PhoneticUnitFromStrAsWritten(tail[j]).Parsed?;
            assert tokens[j + 1] == tail[j];
          }
        }
      }
    }
  }

  function PhoneStrings(p: Pronunciation): (ts: seq<string>)
    ensures |ts| == |p| && forall k :: 0 <= k < |p| ==> ts[k] == PhoneticUnitToString(p[k])
  {
    if |p| == 0 then [] else [PhoneticUnitToString(p[0])] + PhoneStrings(p[1..])
  }

  /** The line the CMU dictionary uses for one pronunciation of a word. */
  function EntryLine(word: string, p: Pronunciation): string {
    word + FieldSeparator + Join(PhoneStrings(p), " ")
  }

  /** Reading the printed form of an entry gives back the entry, for any word
      without spaces that does not look like a comment. */
  lemma ParseLineRoundTrip(word: string, p: Pronunciation, normalise: Normaliser)
    requires forall i :: 0 <= i < |word| ==> word[i] != ' '
    requires !StartsWith(word, CommentStart)
    ensures ParseLine(EntryLine(word, p), normalise) == Some((normalise(word), p))
  {
    var phones := Join(PhoneStrings(p), " ");
    PhoneTokens(p);
    EntryFields(word, PhoneStrings(p));
    NotComment(word, FieldSeparator + phones);
    PhonesRoundTrip(p);
  }

  lemma PhoneTokens(p: Pronunciation)
    ensures forall k :: 0 <= k < |PhoneStrings(p)| ==>
      |PhoneStrings(p)[k]| > 0 && forall i :: 0 <= i < |PhoneStrings(p)[k]| ==> PhoneStrings(p)[k][i] != ' '
  {
    var ts := PhoneStrings(p);
    forall k | 0 <= k < |ts|
      ensures |ts[k]| > 0 && forall i :: 0 <= i < |ts[k]| ==> ts[k][i] != ' '
    {
      PhoneticUnitChars(p[k]);
    }
  }

  /** An entry line splits into the word and the phone list. */
  lemma EntryFields(word: string, ts: seq<string>)
    requires forall i :: 0 <= i < |word| ==> word[i] != ' '
    requires forall k :: 0 <= k < |ts| ==> |ts[k]| > 0 && forall i :: 0 <= i < |ts[k]| ==> ts[k][i] != ' '
    ensures SplitOn(word + FieldSeparator + Join(ts, " "), FieldSeparator) == [word, Join(ts, " ")]
  {
    var phones := Join(ts, " ");
    var tail := FieldSeparator + phones;
    calc {
      SplitOn(word + FieldSeparator + phones, FieldSeparator);
      { assert word + FieldSeparator + phones == word + tail; }
      SplitOnFrom(word + tail, FieldSeparator, []);
      { SplitOnWalk(word, tail, FieldSeparator, []); assert [] + word == word; }
      SplitOnFrom(tail, FieldSeparator, word);
      { assert tail[..2] == FieldSeparator && tail[2..] == phones; }
      [word] + SplitOnFrom(phones, FieldSeparator, []);
      { JoinedWordsUnsplit(ts, []); assert [] + phones == phones; }
      [word, phones];
    }
  }

  /** A line that starts with a word without spaces is a comment only if the
      word starts like one. */
  lemma NotComment(word: string, rest: string)
    requires forall i :: 0 <= i < |word| ==> word[i] != ' '
    requires !StartsWith(word, CommentStart)
    requires |rest| > 0 && rest[0] == ' '
    ensures !StartsWith(word + rest, CommentStart)
  {
    var line := word + rest;
    if |word| >= 3 {
      assert line[..3] == word[..3];
    } else if |line| >= 3 {
      assert line[|word|] == ' ';
      assert line[..3][|word|] == ' ';
    }
  }

  /** The phone list of an entry line reads back as the pronunciation. */
  lemma PhonesRoundTrip(p: Pronunciation)
    ensures ParsePhones(NonEmpty(SplitOn(Join(PhoneStrings(p), " "), " "))) == Some(p)
  {
    PhoneFields(p);
    PrintedPhonesParse(p);
  }

  lemma PhoneFields(p: Pronunciation)
    ensures NonEmpty(SplitOn(Join(PhoneStrings(p), " "), " ")) == PhoneStrings(p)
  {
    var ts := PhoneStrings(p);
    PhoneTokens(p);
    if |p| == 0 {
      assert SplitOn(Join(ts, " "), " ") == [[]];
      assert NonEmpty([[]]) == [];
    } else {
      SplitOnJoinedWords(ts, " ");
    }
  }

  lemma {:induction false} PrintedPhonesParse(p: Pronunciation)
    ensures ParsePhones(PhoneStrings(p)) == Some(p)
  {
    if |p| > 0 {
      PhoneticUnitRoundTrip(p[0]);
      PrintedPhonesParse(p[1..]);
      assert PhoneStrings(p)[1..] == PhoneStrings(p[1..]);
      assert [p[0]] + p[1..] == p;
    }
  }

  /** Adds one read pronunciation at the end of the word's list. */
  function AddEntry(m: map<string, seq<Pronunciation>>, w: string, p: Pronunciation): map<string, seq<Pronunciation>> {
    if w in m then m[w := m[w] + [p]] else m[w := [p]]
  }

  /** How one line is read: the entry it gives, if any. The reading below
      is stated for any such function; `from_reader` uses `ParseLine`. */
  type LineParser = string -> Option<(string, Pronunciation)>

  function EntryReader(normalise: Normaliser): LineParser {
    line => ParseLine(line, normalise)
  }

  /** One line read into `m`: an entry line adds its pronunciation. */
  function ReadLine(m: map<string, seq<Pronunciation>>, line: string, parse: LineParser): map<string, seq<Pronunciation>> {
    match parse(line)
    case None => m
    case Some(entry) => AddEntry(m, entry.0, entry.1)
  }

  /** `from_reader` over the lines read so far into `m`. */
  function ReadLines(m: map<string, seq<Pronunciation>>, lines: seq<string>, parse: LineParser): map<string, seq<Pronunciation>>
    decreases |lines|
  {
    if |lines| == 0 then m
    else ReadLines(ReadLine(m, lines[0], parse), lines[1..], parse)
  }

  /** `CmuDictionary::from_reader`, over the lines of the file. */
  function FromLines(lines: seq<string>, normalise: Normaliser): CmuDictionary {
    CmuDictionary(ReadLines(map[], lines, EntryReader(normalise)))
  }

  /** `from_reader` as written: the first line whose phones make the parser
      panic aborts the read. */
  function ReadLinesAsWritten(m: map<string, seq<Pronunciation>>, lines: seq<string>, normalise: Normaliser): Result<map<string, seq<Pronunciation>>>
    decreases |lines|
  {
    if |lines| == 0 then Ok(m)
    else match ParseLineAsWritten(lines[0], normalise)
      case Panicked => Err(Panic("PhoneticUnit::from_str panicked on a phone token"))
      case Rejected => ReadLinesAsWritten(m, lines[1..], normalise)
      case Parsed(entry) => ReadLinesAsWritten(AddEntry(m, entry.0, entry.1), lines[1..], normalise)
  }

  function FromLinesAsWritten(lines: seq<string>, normalise: Normaliser): Result<CmuDictionary> {
    match ReadLinesAsWritten(map[], lines, normalise)
    case Ok(m) => Ok(CmuDictionary(m))
    case Err(e) => Err(e)
  }

  /** What one line gives the word `w`: its pronunciation when the line is
      an entry for `w`. */
  function LineFor(line: string, parse: LineParser, w: string): seq<Pronunciation> {
    match parse(line)
    case Some(entry) => if entry.0 == w then [entry.1] else []
    case None => []
  }

  /** The pronunciations the lines give `w`, in file order. */
  function ParsedFor(lines: seq<string>, parse: LineParser, w: string): seq<Pronunciation> {
    if |lines| == 0 then [] else LineFor(lines[0], parse, w) + ParsedFor(lines[1..], parse, w)
  }

  lemma AddEntryFor(m: map<string, seq<Pronunciation>>, e: string, p: Pronunciation, w: string)
    ensures ListOf(AddEntry(m, e, p), w) == ListOf(m, w) + (if e == w then [p] else [])
    ensures w in AddEntry(m, e, p) <==> w in m || e == w
  {
  }

  lemma ReadLineFor(m: map<string, seq<Pronunciation>>, line: string, parse: LineParser, w: string)
    ensures ListOf(ReadLine(m, line, parse), w) == ListOf(m, w) + LineFor(line, parse, w)
    ensures w in ReadLine(m, line, parse) <==> w in m || |LineFor(line, parse, w)| > 0
  {
    match parse(line)
    case None =>
      assert ListOf(m, w) + [] == ListOf(m, w);
    case Some(entry) =>
      AddEntryFor(m, entry.0, entry.1, w);
  }

  lemma {:induction false} ReadLinesFor(m: map<string, seq<Pronunciation>>, lines: seq<string>, parse: LineParser, w: string)
    ensures ListOf(ReadLines(m, lines, parse), w) == ListOf(m, w) + ParsedFor(lines, parse, w)
    ensures w in ReadLines(m, lines, parse) <==> w in m || |ParsedFor(lines, parse, w)| > 0
    decreases |lines|
  {
    if |lines| == 0 {
      assert ListOf(m, w) + [] == ListOf(m, w);
    } else {
      var next := ReadLine(m, lines[0], parse);
      var here := LineFor(lines[0], parse, w);
      var rest := ParsedFor(lines[1..], parse, w);
      ReadLineFor(m, lines[0], parse, w);
      ReadLinesFor(next, lines[1..], parse, w);
      assert ParsedFor(lines, parse, w) == here + rest;
      assert ListOf(m, w) + here + rest == ListOf(m, w) + (here + rest);
    }
  }

  /** A line that does not panic is read as the corrected read reads it. */
  lemma ReadAsWrittenStep(m: map<string, seq<Pronunciation>>, lines: seq<string>, normalise: Normaliser)
    requires |lines| > 0 && !ParseLineAsWritten(lines[0], normalise).Panicked?
    ensures ReadLinesAsWritten(m, lines, normalise)
         == ReadLinesAsWritten(ReadLine(m, lines[0], EntryReader(normalise)), lines[1..], normalise)
  {
  }

  /** Some line panics exactly when the first one does or one of the rest does. */
  lemma PanicsShift(lines: seq<string>, panics: string -> bool)
    requires |lines| > 0
    ensures (exists k :: 0 <= k < |lines| && panics(lines[k]))
        <==> panics(lines[0]) || exists k :: 0 <= k < |lines[1..]| && panics(lines[1..][k])
  {
    if exists k :: 0 <= k < |lines[1..]| && panics(lines[1..][k]) {
      var k :| 0 <= k < |lines[1..]| && panics(lines[1..][k]);
      assert lines[k + 1] == lines[1..][k];
    }
    if exists k :: 0 <= k < |lines| && panics(lines[k]) {
      var k :| 0 <= k < |lines| && panics(lines[k]);
      if k > 0 {
        assert lines[1..][k - 1] == lines[k];
      }
    }
  }

  /** The read as written fails exactly when some line panics, and otherwise
      gives the dictionary of the corrected read. */
  lemma {:induction false} ReadLinesAsWrittenAgrees(m: map<string, seq<Pronunciation>>, lines: seq<string>, normalise: Normaliser)
    ensures ReadLinesAsWritten(m, lines, normalise).Err? <==>
      exists k :: 0 <= k < |lines| && ParseLineAsWritten(lines[k], normalise).Panicked?
    ensures ReadLinesAsWritten(m, lines, normalise).Ok? ==>
      ReadLinesAsWritten(m, lines, normalise).value == ReadLines(m, lines, EntryReader(normalise))
    decreases |lines|
  {
    if |lines| > 0 {
      PanicsShift(lines, line => ParseLineAsWritten(line, normalise).Panicked?);
      if !ParseLineAsWritten(lines[0], normalise).Panicked? {
        ReadAsWrittenStep(m, lines, normalise);
        ReadLinesAsWrittenAgrees(ReadLine(m, lines[0], EntryReader(normalise)), lines[1..], normalise);
      }
    }
  }

  lemma FromLinesAsWrittenAgrees(lines: seq<string>, normalise: Normaliser)
    ensures FromLinesAsWritten(lines, normalise).Err? <==>
      exists k :: 0 <= k < |lines| && ParseLineAsWritten(lines[k], normalise).Panicked?
    ensures FromLinesAsWritten(lines, normalise).Ok? ==> FromLinesAsWritten(lines, normalise).value == FromLines(lines, normalise)
  {
    ReadLinesAsWrittenAgrees(map[], lines, normalise);
  }

  /** An entry line whose only phone token is one non-ASCII character: the
      read as written panics on it, the corrected read drops the line. */
  lemma NonAsciiPhoneLine(word: string, c: char, normalise: Normaliser)
    requires forall i :: 0 <= i < |word| ==> word[i] != ' '
    requires !StartsWith(word, CommentStart)
    requires c as int >= 0x80
    ensures ParseLineAsWritten(word + FieldSeparator + [c], normalise) == Panicked
    ensures ParseLine(word + FieldSeparator + [c], normalise) == None
  {
    var line := word + FieldSeparator + [c];
    assert Join([[c]], " ") == [c];
    EntryFields(word, [[c]]);
    NotComment(word, FieldSeparator + [c]);
    assert line == word + (FieldSeparator + [c]);
    SplitOnJoinedWords([[c]], " ");
    assert Tokens([c]) == [[c]];
    SingleCharPhoneParse(c);
    assert [[c]][1..] == [];
  }

  /** A file of one such line (for instance "CAFE  é"): the read as written
      fails, while the corrected read gives an empty dictionary. */
  lemma NonAsciiPhoneAbortsRead(lines: seq<string>, word: string, c: char, normalise: Normaliser)
    requires forall i :: 0 <= i < |word| ==> word[i] != ' '
    requires !StartsWith(word, CommentStart)
    requires c as int >= 0x80
    requires lines == [word + FieldSeparator + [c]]
    ensures FromLinesAsWritten(lines, normalise).Err?
    ensures FromLines(lines, normalise).entries == map[]
  {
    var line := word + FieldSeparator + [c];
    NonAsciiPhoneLine(word, c, normalise);
    assert ReadLinesAsWritten(map[], lines, normalise).Err? by {
      assert lines[0] == line;
    }
    assert ReadLines(map[], lines, EntryReader(normalise)) == map[] by {
      assert lines[0] == line && lines[1..] == [];
      assert ReadLine(map[], line, EntryReader(normalise)) == map[];
    }
  }

  /** Every word of the read dictionary is one some line gave, and its list
      is exactly the pronunciations of those lines in file order. */
  lemma FromLinesReference(lines: seq<string>, normalise: Normaliser, w: string)
    ensures w in FromLines(lines, normalise).entries <==> |ParsedFor(lines, EntryReader(normalise), w)| > 0
    ensures w in FromLines(lines, normalise).entries ==> FromLines(lines, normalise).entries[w] == ParsedFor(lines, EntryReader(normalise), w)
  {
    ReadLinesFor(map[], lines, EntryReader(normalise), w);
    assert [] + ParsedFor(lines, EntryReader(normalise), w) == ParsedFor(lines, EntryReader(normalise), w);
  }

  /** Looking a word up in a dictionary read from a file finds it exactly
      when some line of the file gives it an entry, and then returns every
      such entry in file order. */
  lemma GetAfterRead(lines: seq<string>, normalise: Normaliser, w: string)
    ensures GetNormalised(FromLines(lines, normalise), w).Some? <==> |ParsedFor(lines, EntryReader(normalise), w)| > 0
    ensures GetNormalised(FromLines(lines, normalise), w).Some? ==>
      GetNormalised(FromLines(lines, normalise), w).value == ParsedFor(lines, EntryReader(normalise), w)
  {
    FromLinesReference(lines, normalise, w);
  }

  /** A read dictionary has no word with an empty list. */
  predicate NoEmptyLists(d: CmuDictionary) {
    forall w :: w in d.entries ==> |d.entries[w]| > 0
  }

  lemma FromLinesNoEmptyLists(lines: seq<string>, normalise: Normaliser)
    ensures NoEmptyLists(FromLines(lines, normalise))
  {
    forall w | w in FromLines(lines, normalise).entries
      ensures |FromLines(lines, normalise).entries[w]| > 0
    {
      FromLinesReference(lines, normalise, w);
    }
  }

  /** A line that gives no entry adds nothing wherever it appears. */
  lemma DroppedLineIgnored(lines: seq<string>, k: nat, parse: LineParser, w: string)
    requires k < |lines| && parse(lines[k]).None?
    ensures ParsedFor(lines, parse, w) == ParsedFor(lines[..k] + lines[k + 1..], parse, w)
  {
    ParsedForAppend(lines[..k], lines[k..], parse, w);
    ParsedForAppend(lines[..k], lines[k + 1..], parse, w);
    assert lines == lines[..k] + lines[k..];
    assert lines[k..][0] == lines[k] && lines[k..][1..] == lines[k + 1..];
    assert ParsedFor(lines[k..], parse, w) == ParsedFor(lines[k + 1..], parse, w);
  }

  /** Comment lines add nothing wherever they appear. */
  lemma CommentIgnored(lines: seq<string>, k: nat, normalise: Normaliser, w: string)
    requires k < |lines| && StartsWith(lines[k], CommentStart)
    ensures ParsedFor(lines, EntryReader(normalise), w) == ParsedFor(lines[..k] + lines[k + 1..], EntryReader(normalise), w)
  {
    assert EntryReader(normalise)(lines[k]).None?;
    DroppedLineIgnored(lines, k, EntryReader(normalise), w);
  }

  lemma {:induction false} ParsedForAppend(a: seq<string>, b: seq<string>, parse: LineParser, w: string)
    ensures ParsedFor(a + b, parse, w) == ParsedFor(a, parse, w) + ParsedFor(b, parse, w)
  {
    if |a| == 0 {
      assert a + b == b;
    } else {
      var here := LineFor(a[0], parse, w);
      assert (a + b)[0] == a[0] && (a + b)[1..] == a[1..] + b;
      assert ParsedFor(a + b, parse, w) == here + ParsedFor(a[1..] + b, parse, w);
      ParsedForAppend(a[1..], b, parse, w);
      assert here + (ParsedFor(a[1..], parse, w) + ParsedFor(b, parse, w))
          == (here + ParsedFor(a[1..], parse, w)) + ParsedFor(b, parse, w);
    }
  }

  // ---------------------------------------------------------------------
  // `merge`

  /** Appends the incoming pronunciations not already listed, in order. */
  function MergeList(acc: seq<Pronunciation>, incoming: seq<Pronunciation>): (r: seq<Pronunciation>)
    ensures |acc| <= |r| && r[..|acc|] == acc
    ensures forall p :: p in r <==> p in acc || p in incoming
    decreases |incoming|
  {
    if |incoming| == 0 then acc
    else
      var next := if incoming[0] in acc then acc else acc + [incoming[0]];
      var r := MergeList(next, incoming[1..]);
      assert r[..|acc|] == r[..|next|][..|acc|];
      assert forall p :: p in incoming <==> p == incoming[0] || p in incoming[1..];
      r
  }

  ghost predicate NoDuplicates(s: seq<Pronunciation>) {
    forall i, j :: 0 <= i < j < |s| ==> s[i] != s[j]
  }

  /** Merging never lists a pronunciation twice unless it already was. */
  lemma {:induction false} MergeListNoDuplicates(acc: seq<Pronunciation>, incoming: seq<Pronunciation>)
    requires NoDuplicates(acc)
    ensures NoDuplicates(MergeList(acc, incoming))
    decreases |incoming|
  {
    if |incoming| > 0 {
      var next := if incoming[0] in acc then acc else acc + [incoming[0]];
      assert NoDuplicates(next);
      MergeListNoDuplicates(next, incoming[1..]);
    }
  }

  /** Merging only pronunciations already listed changes nothing. */
  lemma {:induction false} MergeListKnown(acc: seq<Pronunciation>, incoming: seq<Pronunciation>)
    requires forall p :: p in incoming ==> p in acc
    ensures MergeList(acc, incoming) == acc
    decreases |incoming|
  {
    if |incoming| > 0 {
      assert incoming[0] in incoming;
      MergeListKnown(acc, incoming[1..]);
    }
  }

  /** `CmuDictionary::merge`: every word of either dictionary, each list of
      `d` extended by the new pronunciations `other` has for the word. */
  function Merge(d: CmuDictionary, other: CmuDictionary): (r: CmuDictionary)
    ensures r.entries.Keys == d.entries.Keys + other.entries.Keys
  {
    CmuDictionary(map w | w in d.entries.Keys + other.entries.Keys ::
      if w in other.entries then MergeList(ListOf(d.entries, w), other.entries[w]) else d.entries[w])
  }

  /** After a merge each word keeps its old list as a prefix, and lists
      exactly the pronunciations either dictionary had for it. */
  lemma MergeEntries(d: CmuDictionary, other: CmuDictionary, w: string)
    requires w in Merge(d, other).entries
    ensures var l := Merge(d, other).entries[w];
      && |ListOf(d.entries, w)| <= |l| && l[..|ListOf(d.entries, w)|] == ListOf(d.entries, w)
      && forall p :: p in l <==> p in ListOf(d.entries, w) || p in ListOf(other.entries, w)
  {
  }

  /** Merging a dictionary with a copy of itself changes nothing. */
  lemma MergeSelf(d: CmuDictionary)
    ensures Merge(d, d) == d
  {
    forall w | w in d.entries
      ensures Merge(d, d).entries[w] == d.entries[w]
    {
      MergeListKnown(d.entries[w], d.entries[w]);
    }
  }

  /** Merging dictionaries without empty lists gives one without empty lists,
      so word lookups in it never hit the normaliser's `assert!`. */
  lemma MergeNoEmptyLists(d: CmuDictionary, other: CmuDictionary)
    requires NoEmptyLists(d) && NoEmptyLists(other)
    ensures NoEmptyLists(Merge(d, other))
  {
    forall w | w in Merge(d, other).entries
      ensures |Merge(d, other).entries[w]| > 0
    {
      if w in other.entries {
        assert other.entries[w][0] in Merge(d, other).entries[w];
      }
    }
  }

  /** A dictionary without empty lists never makes `words_to_pronunciation`
      panic. */
  lemma LookupNeverPanics(d: CmuDictionary, normalise: Normaliser, t: TextNormaliser.NormalisedText)
    requires NoEmptyLists(d)
    ensures TextNormaliser.WordsToPronunciation(t, AsLookup(d, normalise)).Ok?
  {
    TextNormaliser.WordsToPronunciationFails(t, AsLookup(d, normalise));
  }

  /** The merge of the source's test on dictionaries of that shape: the
      shared word `n` gains the one new pronunciation and the dictionary ends
      up with three words. */
  lemma MergeFixture(base: CmuDictionary, toMerge: CmuDictionary, n: string, rw: string, uw: string,
                     p1: Pronunciation, p2: Pronunciation, q: Pronunciation, u: Pronunciation)
    requires n != rw && n != uw && rw != uw
    requires p1 != p2
    requires base == CmuDictionary(map[n := [p1], rw := [q]])
    requires toMerge == CmuDictionary(map[n := [p1, p2], uw := [u]])
    ensures Merge(base, toMerge).entries.Keys == {n, rw, uw}
    ensures Len(Merge(base, toMerge)) == 3
    ensures Merge(base, toMerge).entries[n] == [p1, p2]
    ensures Merge(base, toMerge).entries[rw] == [q]
    ensures Merge(base, toMerge).entries[uw] == [u]
  {
    MergeFixtureKeys(base, toMerge, n, rw, uw, p1, p2, q, u);
    MergeFixtureLists(base, toMerge, n, rw, uw, p1, p2, q, u);
  }

  lemma MergeFixtureKeys(base: CmuDictionary, toMerge: CmuDictionary, n: string, rw: string, uw: string,
                         p1: Pronunciation, p2: Pronunciation, q: Pronunciation, u: Pronunciation)
    requires n != rw && n != uw && rw != uw
    requires base == CmuDictionary(map[n := [p1], rw := [q]])
    requires toMerge == CmuDictionary(map[n := [p1, p2], uw := [u]])
    ensures Merge(base, toMerge).entries.Keys == {n, rw, uw}
    ensures Len(Merge(base, toMerge)) == 3
  {
    var m := Merge(base, toMerge).entries;
    assert m.Keys == {n, rw, uw};
    ThreeWords(n, rw, uw);
  }

  lemma ThreeWords(a: string, b: string, c: string)
    requires a != b && a != c && b != c
    ensures |{a, b, c}| == 3
  {
    assert {a, b, c} == {a, b} + {c};
  }

  lemma MergeFixtureLists(base: CmuDictionary, toMerge: CmuDictionary, n: string, rw: string, uw: string,
                          p1: Pronunciation, p2: Pronunciation, q: Pronunciation, u: Pronunciation)
    requires n != rw && n != uw && rw != uw
    requires p1 != p2
    requires base == CmuDictionary(map[n := [p1], rw := [q]])
    requires toMerge == CmuDictionary(map[n := [p1, p2], uw := [u]])
    ensures Merge(base, toMerge).entries[n] == [p1, p2]
    ensures Merge(base, toMerge).entries[rw] == [q]
    ensures Merge(base, toMerge).entries[uw] == [u]
  {
    var m := Merge(base, toMerge);
    assert m.entries[n] == [p1, p2] by {
      assert ListOf(base.entries, n) == [p1] && toMerge.entries[n] == [p1, p2];
      MergeTwo(p1, p2);
    }
    assert m.entries[rw] == [q] by {
      assert rw !in toMerge.entries;
    }
    assert m.entries[uw] == [u] by {
      assert ListOf(base.entries, uw) == [] && toMerge.entries[uw] == [u];
      assert MergeList([], [u]) == MergeList([u], []);
    }
  }

  lemma MergeTwo(p1: Pronunciation, p2: Pronunciation)
    requires p1 != p2
    ensures MergeList([p1], [p1, p2]) == [p1, p2]
  {
    assert [p1, p2][1..] == [p2];
    assert MergeList([p1], [p1, p2]) == MergeList([p1], [p2]);
    assert [p2][1..] == [];
    assert MergeList([p1], [p2]) == MergeList([p1, p2], []);
  }

  // ---------------------------------------------------------------------
  // The source's merge test, from the file lines on

  /** A word spelled with capital letters only. */
  predicate CapitalWord(w: string) {
    |w| > 0 && forall i :: 0 <= i < |w| ==> 'A' <= w[i] <= 'Z'
  }

  lemma CapitalLineParsed(word: string, p: Pronunciation, normalise: Normaliser)
    requires CapitalWord(word) && normalise(word) == word
    ensures ParseLine(EntryLine(word, p), normalise) == Some((word, p))
  {
    assert word[0] != ';';
    ParseLineRoundTrip(word, p, normalise);
  }

  /** Reading lines that each parse, one step at a time. */
  lemma ReadStep(m: map<string, seq<Pronunciation>>, line: string, rest: seq<string>, parse: LineParser,
                 w: string, p: Pronunciation)
    requires parse(line) == Some((w, p))
    ensures ReadLines(m, [line] + rest, parse) == ReadLines(AddEntry(m, w, p), rest, parse)
  {
    assert ([line] + rest)[0] == line && ([line] + rest)[1..] == rest;
    assert ReadLine(m, line, parse) == AddEntry(m, w, p);
  }

  /** Two lines for two different words give one entry each. */
  lemma TwoWordLines(l0: string, l1: string, parse: LineParser,
                     w0: string, p0: Pronunciation, w1: string, p1: Pronunciation)
    requires parse(l0) == Some((w0, p0)) && parse(l1) == Some((w1, p1))
    requires w0 != w1
    ensures ReadLines(map[], [l0, l1], parse) == map[w0 := [p0], w1 := [p1]]
  {
    calc {
      ReadLines(map[], [l0, l1], parse);
      { assert [l0, l1] == [l0] + [l1]; }
      ReadLines(map[], [l0] + [l1], parse);
      { ReadStep(map[], l0, [l1], parse, w0, p0); }
      ReadLines(map[w0 := [p0]], [l1] + [], parse);
      { ReadStep(map[w0 := [p0]], l1, [], parse, w1, p1); }
      ReadLines(map[w0 := [p0], w1 := [p1]], [], parse);
    }
  }

  lemma SecondEntry(w: string, p0: Pronunciation, p1: Pronunciation)
    ensures AddEntry(map[w := [p0]], w, p1) == map[w := [p0, p1]]
  {
    var m1 := map[w := [p0]];
    assert m1[w] + [p1] == [p0, p1];
    assert m1[w := [p0, p1]] == map[w := [p0, p1]];
  }

  /** Two lines for one word followed by a line for another: the repeated
      word collects both pronunciations in file order. */
  lemma RepeatedWordLines(l0: string, l1: string, l2: string, parse: LineParser,
                          w: string, p0: Pronunciation, p1: Pronunciation, v: string, q: Pronunciation)
    requires parse(l0) == Some((w, p0)) && parse(l1) == Some((w, p1))
    requires parse(l2) == Some((v, q))
    requires w != v
    ensures ReadLines(map[], [l0, l1, l2], parse) == map[w := [p0, p1], v := [q]]
  {
    var m1 := map[w := [p0]];
    var m2 := map[w := [p0, p1]];
    calc {
      ReadLines(map[], [l0, l1, l2], parse);
      { assert [l0, l1, l2] == [l0] + ([l1] + [l2]); }
      ReadLines(map[], [l0] + ([l1] + [l2]), parse);
      { ReadStep(map[], l0, [l1] + [l2], parse, w, p0); }
      ReadLines(m1, [l1] + [l2], parse);
      { ReadStep(m1, l1, [l2], parse, w, p1);
        SecondEntry(w, p0, p1); }
      ReadLines(m2, [l2] + [], parse);
      { ReadStep(m2, l2, [], parse, v, q); }
      ReadLines(m2[v := [q]], [], parse);
    }
  }

  lemma TestWords(w0: string, w1: string, w2: string)
    requires w0 == "RUSTNATION" && w1 == "RUST" && w2 == "UST"
    ensures CapitalWord(w0) && CapitalWord(w1) && CapitalWord(w2)
    ensures w0 != w1 && w0 != w2 && w1 != w2
  {
    assert |w0| == 10 && |w1| == 4 && |w2| == 3;
  }

  /** The first file of the source's dictionary test: "RUSTNATION  R AH1 S
      T N EY1 SH AH0 N" and "RUST  R AH1 S T", as the entry printer writes
      them, read into one entry per word. */
  lemma FirstTestFile(first: seq<string>, normalise: Normaliser, w0: string, w1: string,
                      a: Pronunciation, r: Pronunciation)
    requires w0 == "RUSTNATION" && w1 == "RUST"
    requires normalise(w0) == w0 && normalise(w1) == w1
    requires first == [EntryLine(w0, a), EntryLine(w1, r)]
    ensures FromLines(first, normalise).entries == map[w0 := [a], w1 := [r]]
  {
    TestWords(w0, w1, "UST");
    CapitalLineParsed(w0, a, normalise);
    CapitalLineParsed(w1, r, normalise);
    TwoWordLines(first[0], first[1], EntryReader(normalise), w0, a, w1, r);
  }

  /** The second file of the test: the RUSTNATION line again, "RUSTNATION  R
      AH1 S N EY1 SH AH0 N" and "UST  UH1 S T"; RUSTNATION collects both of
      its pronunciations in file order. */
  lemma SecondTestFile(second: seq<string>, normalise: Normaliser, w0: string, w2: string,
                       a: Pronunciation, b: Pronunciation, u: Pronunciation)
    requires w0 == "RUSTNATION" && w2 == "UST"
    requires normalise(w0) == w0 && normalise(w2) == w2
    requires second == [EntryLine(w0, a), EntryLine(w0, b), EntryLine(w2, u)]
    ensures FromLines(second, normalise).entries == map[w0 := [a, b], w2 := [u]]
  {
    TestWords(w0, "RUST", w2);
    CapitalLineParsed(w0, a, normalise);
    CapitalLineParsed(w0, b, normalise);
    CapitalLineParsed(w2, u, normalise);
    RepeatedWordLines(second[0], second[1], second[2], EntryReader(normalise), w0, a, b, w2, u);
  }

  /** The dictionary test of the source end to end, for any two different
      RUSTNATION pronunciations `a` and `b` (the test's are those of the
      lines above) and any RUST and UST pronunciations `r` and `u`: the first
      dictionary has two words, the second two words with two pronunciations
      for RUSTNATION, and their merge three words. */
  lemma DictionaryTest(first: seq<string>, second: seq<string>, normalise: Normaliser,
                       a: Pronunciation, b: Pronunciation, r: Pronunciation, u: Pronunciation)
    requires a != b
    requires normalise("RUSTNATION") == "RUSTNATION" && normalise("RUST") == "RUST" && normalise("UST") == "UST"
    requires first == [EntryLine("RUSTNATION", a), EntryLine("RUST", r)]
    requires second == [EntryLine("RUSTNATION", a), EntryLine("RUSTNATION", b), EntryLine("UST", u)]
    ensures Len(FromLines(first, normalise)) == 2
    ensures Len(FromLines(second, normalise)) == 2
    ensures "RUSTNATION" in FromLines(second, normalise).entries
    ensures FromLines(second, normalise).entries["RUSTNATION"] == [a, b]
    ensures Merge(FromLines(first, normalise), FromLines(second, normalise)).entries.Keys == {"RUSTNATION", "RUST", "UST"}
    ensures Len(Merge(FromLines(first, normalise), FromLines(second, normalise))) == 3
    ensures Merge(FromLines(first, normalise), FromLines(second, normalise)).entries["RUSTNATION"] == [a, b]
    ensures Merge(FromLines(first, normalise), FromLines(second, normalise)).entries["RUST"] == [r]
    ensures Merge(FromLines(first, normalise), FromLines(second, normalise)).entries["UST"] == [u]
  {
    FirstTestFile(first, normalise, "RUSTNATION", "RUST", a, r);
    SecondTestFile(second, normalise, "RUSTNATION", "UST", a, b, u);
    TestWords("RUSTNATION", "RUST", "UST");
    MergeFixture(FromLines(first, normalise), FromLines(second, normalise), "RUSTNATION", "RUST", "UST", a, b, r, u);
  }

  // ---------------------------------------------------------------------
  // `into_simple_dictionary`

  /** `into_simple_dictionary`: the words with at least one pronunciation,
      each with its first. */
  function IntoSimple(d: CmuDictionary): (r: map<string, Pronunciation>)
    ensures forall w :: w in r <==> w in d.entries && |d.entries[w]| > 0
    ensures forall w :: w in r ==> r[w] == d.entries[w][0]
  {
    map w | w in d.entries && |d.entries[w]| > 0 :: d.entries[w][0]
  }

  /** For a dictionary read from lines the simple form keeps every word, with
      the pronunciation of the first line that listed it. */
  lemma SimpleFromLines(lines: seq<string>, normalise: Normaliser, w: string)
    ensures w in IntoSimple(FromLines(lines, normalise)) <==> |ParsedFor(lines, EntryReader(normalise), w)| > 0
    ensures w in IntoSimple(FromLines(lines, normalise)) ==>
              IntoSimple(FromLines(lines, normalise))[w] == ParsedFor(lines, EntryReader(normalise), w)[0]
  {
    FromLinesReference(lines, normalise, w);
  }
}
