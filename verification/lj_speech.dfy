/** The LJ Speech dataset (src/training/lj_speech.rs): picking the
    transcript out of a manifest record, rewriting transcripts into the
    braced ARPABET notation used for training, and checking the dataset. */
module LjSpeech {
  import opened Outcomes
  import opened Strings
  import opened Seqs
  import opened Phonemes
  import TextNormaliser

  datatype Entry = Entry(id: string, text: string)

  datatype Dataset = Dataset(entries: seq<Entry>)

  // ---------------------------------------------------------------------
  // `load`: the manifest is '|'-separated with quoting switched off, so a
  // record is its line cut at every '|'.

  const Delimiter: char := '|'

  function Fields(line: string): seq<string> {
    SplitOn(line, [Delimiter])
  }

  /** The id is the first field; the text the third when there is one (the
      normalised transcript), else the second. */
  function SelectEntry(fields: seq<string>): (r: Option<Entry>)
    ensures r.Some? <==> |fields| >= 2
  {
    if |fields| < 2 then None
    else Some(Entry(fields[0], if |fields| >= 3 then fields[2] else fields[1]))
  }

  const SplitFailed := "Failed to split"

  function LoadRecords(lines: seq<string>): (r: Result<seq<Entry>>)
    decreases |lines|
  {
    if |lines| == 0 then Ok([])
    else
      var rest := LoadRecords(lines[1..]);
      match SelectEntry(Fields(lines[0]))
      case None => rest
      case Some(e) =>
        if Delimiter in e.text then Err(Panic(SplitFailed))
        else match rest
          case Ok(es) => Ok([e] + es)
          case Err(err) => Err(err)
  }

  /** `Dataset::load` over the lines of the manifest. */
  function Load(lines: seq<string>): Result<Dataset> {
    match LoadRecords(lines)
    case Ok(es) => Ok(Dataset(es))
    case Err(e) => Err(e)
  }

  /** The entries loaded from the lines: one per line with at least two
      fields, in order. */
  function Selected(lines: seq<string>): seq<Entry>
    decreases |lines|
  {
    if |lines| == 0 then []
    else match SelectEntry(Fields(lines[0]))
      case None => Selected(lines[1..])
      case Some(e) => [e] + Selected(lines[1..])
  }

  /** The `assert!` that a text holds no '|' never fires, because fields are
      cut at every '|'; loading keeps every complete record and skips the
      others. */
  lemma {:induction false} LoadSelects(lines: seq<string>)
    ensures Load(lines) == Ok(Dataset(Selected(lines)))
    ensures |Selected(lines)| <= |lines|
    decreases |lines|
  {
    if |lines| > 0 {
      LoadSelects(lines[1..]);
      var fields := Fields(lines[0]);
      SplitPiecesFree(lines[0], Delimiter, []);
      if |fields| >= 2 {
        var e := SelectEntry(fields).value;
        var k := if |fields| >= 3 then 2 else 1;
        assert e.text == fields[k];
        assert forall i :: 0 <= i < |fields[k]| ==> fields[k][i] != Delimiter;
      }
    }
  }

  /** A line written as id|text or id|raw|text, with no '|' inside a field,
      loads as the entry of that id and text. */
  lemma LoadLine(id: string, raw: string, text: string)
    requires Delimiter !in id && Delimiter !in raw && Delimiter !in text
    ensures Load([Join([id, raw, text], [Delimiter])]) == Ok(Dataset([Entry(id, text)]))
    ensures Load([Join([id, text], [Delimiter])]) == Ok(Dataset([Entry(id, text)]))
  {
    var three := Join([id, raw, text], [Delimiter]);
    var two := Join([id, text], [Delimiter]);
    SplitOnJoinedWords([id, raw, text], [Delimiter]);
    SplitOnJoinedWords([id, text], [Delimiter]);
    assert Fields(three) == [id, raw, text] && Fields(two) == [id, text];
    LoadSelects([three]);
    LoadSelects([two]);
    assert [three][1..] == [] && [two][1..] == [];
    assert Selected([three]) == [Entry(id, text)] + [] == [Entry(id, text)];
    assert Selected([two]) == [Entry(id, text)] + [] == [Entry(id, text)];
  }

  /** Lines with fewer than two fields are skipped. */
  lemma IncompleteSkipped(line: string, rest: seq<string>)
    requires |Fields(line)| < 2
    ensures Load([line] + rest) == Load(rest)
  {
    LoadSelects([line] + rest);
    LoadSelects(rest);
    assert ([line] + rest)[1..] == rest;
  }

  // ---------------------------------------------------------------------
  // `convert_to_pronunciation`

  const UnexpectedUnit := "Unexpected unit"
  const UnexpectedChunk := "Didn't expect"

  predicate Writable(u: Unit) {
    u.Phone? || u.Space? || u.Punct?
  }

  /** The units of one pronunciation chunk; `open` says a brace is open
      (the previous unit was a phone). Each phone is printed followed by a
      space, a run of phones is opened by '{' and closed by '}' at the next
      space or punctuation mark. */
  function WriteUnits(us: seq<Unit>, open: bool): (r: Result<string>)
    ensures r.Err? <==> exists k :: 0 <= k < |us| && !Writable(us[k])
    ensures r.Err? ==> r.error == Panic(UnexpectedUnit)
    decreases |us|
  {
    if |us| == 0 then Ok([])
    else
      var head: Option<(string, bool)> := match us[0]
        case Phone(p) => Some(((if open then [] else "{") + PhoneticUnitToString(p) + " ", true))
        case Space => Some(((if open then "}" else []) + " ", false))
        case Punct(q) => Some(((if open then "}" else []) + PunctuationToString(q) + " ", false))
        case _ => None;
      match head
      case None => Err(Panic(UnexpectedUnit))
      case Some((s, next)) =>
        match WriteUnits(us[1..], next)
        case Ok(t) =>
          assert forall k | 0 < k < |us| :: us[k] == us[1..][k - 1];
          Ok(s + t)
        case Err(e) =>
          var k :| 0 <= k < |us[1..]| && !Writable(us[1..][k]);
          assert !Writable(us[k + 1]);
          Err(e)
  }

  /** What one writable unit prints, given whether a brace is open before it. */
  function Piece(open: bool, u: Unit): string
    requires Writable(u)
  {
    match u
    case Phone(p) => (if open then [] else "{") + PhoneticUnitToString(p) + " "
    case Space => (if open then "}" else []) + " "
    case Punct(q) => (if open then "}" else []) + PunctuationToString(q) + " "
  }

  /** Unit `i` prints with a brace open exactly when the unit before it is a
      phone (for the first unit: when `open` says so). */
  function Pieces(us: seq<Unit>, open: bool): seq<string>
    requires forall k :: 0 <= k < |us| ==> Writable(us[k])
  {
    seq(|us|, i requires 0 <= i < |us| => Piece(if i == 0 then open else us[i - 1].Phone?, us[i]))
  }

  /** The running brace flag is exactly "the previous unit was a phone": the
      output is each unit's piece in turn. */
  lemma {:induction false} WriteUnitsPieces(us: seq<Unit>, open: bool)
    requires forall k :: 0 <= k < |us| ==> Writable(us[k])
    ensures WriteUnits(us, open) == Ok(Flatten(Pieces(us, open)))
    decreases |us|
  {
    if |us| > 0 {
      var next := us[0].Phone?;
      var ps := Pieces(us, open);
      calc {
        WriteUnits(us, open);
        { WriteUnitsPieces(us[1..], next);
          WriteHead(us, open, Flatten(Pieces(us[1..], next))); }
        Ok(Piece(open, us[0]) + Flatten(Pieces(us[1..], next)));
        { assert ps[0] == Piece(open, us[0]);
          assert ps[1..] == Pieces(us[1..], next); }
        Ok(Flatten(ps));
      }
    }
  }

  /** A unit written after the first one: the head's piece, then the rest
      with the brace flag the head leaves. */
  lemma WriteHead(us: seq<Unit>, open: bool, t: string)
    requires |us| > 0 && Writable(us[0])
    requires WriteUnits(us[1..], us[0].Phone?) == Ok(t)
    ensures WriteUnits(us, open) == Ok(Piece(open, us[0]) + t)
  {
  }

  lemma Assoc<T>(a: seq<T>, b: seq<T>, c: seq<T>)
    ensures (a + b) + c == a + (b + c)
  {
  }

  function Brace(open: bool): string {
    if open then [] else "{"
  }

  /** A known word of one phone: "{P } ". */
  lemma WriteLastPhone(p: Pronunciation, rest: seq<Unit>, open: bool, t: string)
    requires |p| == 1
    requires WriteUnits(rest, false) == Ok(t)
    ensures WriteUnits(TextNormaliser.PhonesOf(p) + [Space] + rest, open)
         == Ok(Brace(open) + (PhonesText(p) + ("} " + t)))
  {
    var us := TextNormaliser.PhonesOf(p) + [Space] + rest;
    var after := [Space] + rest;
    assert us[0] == Phone(p[0]) && us[1..] == after && after[1..] == rest;
    WriteHead(after, true, t);
    assert Piece(true, Space) + t == "} " + t;
    WriteHead(us, open, "} " + t);
    var name := PhoneticUnitToString(p[0]);
    assert PhonesText(p) == name + " " + [] == name + " ";
    Assoc(Brace(open), name, " ");
    Assoc(Brace(open), name + " ", "} " + t);
  }

  /** One more phone in front of a known word's units. */
  lemma WriteNextPhone(p: Pronunciation, rest: seq<Unit>, open: bool, t: string)
    requires |p| > 1
    requires WriteUnits(TextNormaliser.PhonesOf(p[1..]) + [Space] + rest, true)
          == Ok(Brace(true) + (PhonesText(p[1..]) + ("} " + t)))
    ensures WriteUnits(TextNormaliser.PhonesOf(p) + [Space] + rest, open)
         == Ok(Brace(open) + (PhonesText(p) + ("} " + t)))
  {
    var us := TextNormaliser.PhonesOf(p) + [Space] + rest;
    assert us[0] == Phone(p[0]);
    assert us[1..] == TextNormaliser.PhonesOf(p[1..]) + [Space] + rest;
    var name := PhoneticUnitToString(p[0]);
    var tail := PhonesText(p[1..]) + ("} " + t);
    assert Brace(true) + tail == tail;
    WriteHead(us, open, tail);
    Assoc(name + " ", PhonesText(p[1..]), "} " + t);
    Assoc(Brace(open), name, " ");
    Assoc(Brace(open), name + " ", tail);
  }

  /** The units words-to-pronunciation gives a known word print as its
      phones, each followed by a space, inside braces, then a space. */
  lemma {:induction false} WriteWord(p: Pronunciation, rest: seq<Unit>, open: bool, t: string)
    requires |p| > 0
    requires WriteUnits(rest, false) == Ok(t)
    ensures WriteUnits(TextNormaliser.PhonesOf(p) + [Space] + rest, open)
         == Ok(Brace(open) + (PhonesText(p) + ("} " + t)))
    decreases |p|
  {
    if |p| == 1 {
      WriteLastPhone(p, rest, open, t);
    } else {
      WriteWord(p[1..], rest, true, t);
      WriteNextPhone(p, rest, open, t);
    }
  }

  /** A pronunciation's phones, each followed by a space. */
  function PhonesText(p: Pronunciation): string
    decreases |p|
  {
    if |p| == 0 then [] else PhoneticUnitToString(p[0]) + " " + PhonesText(p[1..])
  }

  /** One chunk of the pronounced text: a non-empty pronunciation as above,
      punctuation as its symbol and a space, an empty pronunciation as
      nothing; text and breaks make the source panic. */
  function WriteChunk(c: TextNormaliser.Chunk): Result<string> {
    match c
    case Pronunciation(us) => if |us| > 0 then WriteUnits(us, false) else Ok([])
    case Punct(p) => Ok(PunctuationToString(p) + " ")
    case _ => Err(Panic(UnexpectedChunk))
  }

  function WriteChunks(cs: seq<TextNormaliser.Chunk>): Result<string>
    decreases |cs|
  {
    if |cs| == 0 then Ok([])
    else match WriteChunk(cs[0])
      case Err(e) => Err(e)
      case Ok(s) =>
        match WriteChunks(cs[1..])
        case Ok(t) => Ok(s + t)
        case Err(e) => Err(e)
  }

  /** A chunk list writes out exactly when every chunk does. */
  lemma {:induction false} WriteChunksOk(cs: seq<TextNormaliser.Chunk>)
    ensures WriteChunks(cs).Ok? <==> forall k :: 0 <= k < |cs| ==> WriteChunk(cs[k]).Ok?
    decreases |cs|
  {
    if |cs| > 0 {
      WriteChunksOk(cs[1..]);
      assert forall k | 0 < k < |cs| :: cs[k] == cs[1..][k - 1];
    }
  }

  /** One entry: the transcript is normalised (`normalise` stands for
      `normalise_text`), its words looked up, and the chunks written out. */
  function ConvertEntry(e: Entry, normalise: string -> TextNormaliser.NormalisedText,
                        lookup: TextNormaliser.Lookup): (r: Result<Entry>)
    ensures r.Ok? ==> r.value.id == e.id
  {
    match TextNormaliser.WordsToPronunciation(normalise(e.text), lookup)
    case Err(err) => Err(err)
    case Ok(spoken) =>
      match WriteChunks(TextNormaliser.DrainAll(spoken).0)
      case Ok(s) => Ok(Entry(e.id, s))
      case Err(err) => Err(err)
  }

  /** `Dataset::convert_to_pronunciation`: every entry rewritten in place,
      or the first panic. */
  function ConvertToPronunciation(d: Dataset, normalise: string -> TextNormaliser.NormalisedText,
                                  lookup: TextNormaliser.Lookup): (r: Result<Dataset>)
    ensures r.Ok? ==> |r.value.entries| == |d.entries|
    ensures r.Ok? ==> forall k :: 0 <= k < |d.entries| ==> ConvertEntry(d.entries[k], normalise, lookup) == Ok(r.value.entries[k])
    ensures r.Err? <==> exists k :: 0 <= k < |d.entries| && ConvertEntry(d.entries[k], normalise, lookup).Err?
    decreases |d.entries|
  {
    if |d.entries| == 0 then Ok(d)
    else match ConvertEntry(d.entries[0], normalise, lookup)
      case Err(err) => Err(err)
      case Ok(e) =>
        match ConvertToPronunciation(Dataset(d.entries[1..]), normalise, lookup)
        case Ok(rest) =>
          assert forall k | 0 < k < |d.entries| :: d.entries[k] == d.entries[1..][k - 1];
          Ok(Dataset([e] + rest.entries))
        case Err(err) =>
          var k :| 0 <= k < |d.entries[1..]| && ConvertEntry(d.entries[1..][k], normalise, lookup).Err?;
          assert ConvertEntry(d.entries[k + 1], normalise, lookup).Err?;
          Err(err)
  }

  /** The units words-to-pronunciation produces are phones and spaces only. */
  lemma {:induction false} SpokenUnitsWritable(words: seq<string>, lookup: TextNormaliser.Lookup)
    requires TextNormaliser.WordsUnits(words, lookup).Ok?
    ensures forall k :: 0 <= k < |TextNormaliser.WordsUnits(words, lookup).value| ==>
              TextNormaliser.WordsUnits(words, lookup).value[k].Phone?
              || TextNormaliser.WordsUnits(words, lookup).value[k].Space?
    decreases |words|
  {
    if |words| > 0 {
      SpokenUnitsWritable(words[1..], lookup);
    }
  }

  /** The source's panics on chunk kinds cannot fire for a normalised text
      made only of text, punctuation and phone/space/punctuation
      pronunciations, with a dictionary that lists no word without a
      pronunciation. */
  lemma ConvertEntrySucceeds(e: Entry, normalise: string -> TextNormaliser.NormalisedText,
                             lookup: TextNormaliser.Lookup)
    requires forall w :: lookup(w) != Some([])
    requires var cs := normalise(e.text).chunks;
      forall k :: 0 <= k < |cs| ==>
        (!cs[k].Break? && (cs[k].Pronunciation? ==> forall j :: 0 <= j < |cs[k].units| ==> Writable(cs[k].units[j])))
    ensures ConvertEntry(e, normalise, lookup).Ok?
  {
    var t := normalise(e.text);
    TextNormaliser.WordsToPronunciationFails(t, lookup);
    var spoken := TextNormaliser.WordsToPronunciation(t, lookup).value;
    var cs := TextNormaliser.DrainAll(spoken).0;
    forall k | 0 <= k < |cs| ensures WriteChunk(cs[k]).Ok? {
      SpokenChunkWritable(t, lookup, k);
    }
    WriteChunksOk(cs);
  }

  lemma SpokenChunkWritable(t: TextNormaliser.NormalisedText, lookup: TextNormaliser.Lookup, k: nat)
    requires TextNormaliser.WordsToPronunciation(t, lookup).Ok?
    requires k < |t.chunks|
    requires !t.chunks[k].Break?
    requires t.chunks[k].Pronunciation? ==> forall j :: 0 <= j < |t.chunks[k].units| ==> Writable(t.chunks[k].units[j])
    ensures WriteChunk(TextNormaliser.WordsToPronunciation(t, lookup).value.chunks[k]).Ok?
  {
    var c := TextNormaliser.WordsToPronunciation(t, lookup).value.chunks[k];
    if t.chunks[k].Text? {
      var words := SplitAsciiWhitespace(t.chunks[k].text);
      assert c.Pronunciation? && TextNormaliser.WordsUnits(words, lookup) == Ok(c.units);
      SpokenUnitsWritable(words, lookup);
    } else {
      assert c == t.chunks[k];
    }
    WritableChunk(c);
  }

  lemma WritableChunk(c: TextNormaliser.Chunk)
    requires c.Punct? || (c.Pronunciation? && forall j :: 0 <= j < |c.units| ==> Writable(c.units[j]))
    ensures WriteChunk(c).Ok?
  {
  }

  // ---------------------------------------------------------------------
  // `validate`

  /** Entry `k` is reported: its transcript is blank, it normalises to a
      blank string or to one that cannot be printed, or its id was already
      seen. */
  predicate Flagged(entries: seq<Entry>, k: nat, normalise: string -> TextNormaliser.NormalisedText)
    requires k < |entries|
  {
    Trim(entries[k].text) == []
    || (match TextNormaliser.ToString(normalise(entries[k].text))
        case Ok(s) => Trim(s) == []
        case Err(_) => true)
    || exists j :: 0 <= j < k && entries[j].id == entries[k].id
  }

  /** `Dataset::validate`: true exactly when no entry is flagged. */
  method Validate(d: Dataset, normalise: string -> TextNormaliser.NormalisedText) returns (success: bool)
    ensures success <==> forall k :: 0 <= k < |d.entries| ==> !Flagged(d.entries, k, normalise)
  {
    var ids: set<string> := {};
    success := true;
    var i := 0;
    while i < |d.entries|
      invariant 0 <= i <= |d.entries|
      invariant ids == set j | 0 <= j < i :: d.entries[j].id
      invariant success <==> forall k :: 0 <= k < i ==> !Flagged(d.entries, k, normalise)
    {
      var entry := d.entries[i];
      var blank := Trim(entry.text) == [];
      var unprintable := match TextNormaliser.ToString(normalise(entry.text))
        case Ok(s) => Trim(s) == []
        case Err(_) => true;
      var duplicate := entry.id in ids;
      FlaggedAt(d.entries, i, normalise, ids);
      success := success && !blank && !unprintable && !duplicate;
      CleanPrefixExtends(d.entries, i, normalise);
      ids := ids + {entry.id};
      i := i + 1;
    }
  }

  lemma CleanPrefixExtends(entries: seq<Entry>, i: nat, normalise: string -> TextNormaliser.NormalisedText)
    requires i < |entries|
    ensures (forall k :: 0 <= k < i + 1 ==> !Flagged(entries, k, normalise))
        <==> (forall k :: 0 <= k < i ==> !Flagged(entries, k, normalise)) && !Flagged(entries, i, normalise)
  {
  }

  lemma FlaggedAt(entries: seq<Entry>, i: nat, normalise: string -> TextNormaliser.NormalisedText, ids: set<string>)
    requires i < |entries|
    requires ids == set j | 0 <= j < i :: entries[j].id
    ensures Flagged(entries, i, normalise) <==>
      Trim(entries[i].text) == []
      || (match TextNormaliser.ToString(normalise(entries[i].text))
          case Ok(s) => Trim(s) == []
          case Err(_) => true)
      || entries[i].id in ids
    ensures ids + {entries[i].id} == set j | 0 <= j < i + 1 :: entries[j].id
  {
    if entries[i].id in ids {
      var j :| 0 <= j < i && entries[j].id == entries[i].id;
    }
  }

  /** A blank transcript is reported, whatever else holds. */
  lemma BlankFlagged(entries: seq<Entry>, k: nat, normalise: string -> TextNormaliser.NormalisedText)
    requires k < |entries| && IsBlank(entries[k].text)
    ensures Flagged(entries, k, normalise)
  {
    TrimEmptyIffBlank(entries[k].text);
  }

  /** The first entry with an id is never reported as a duplicate: an entry
      with a non-blank transcript that prints to a non-blank string is
      reported only for an id used earlier. */
  lemma FlaggedDuplicateOnlyAfterFirst(entries: seq<Entry>, k: nat, normalise: string -> TextNormaliser.NormalisedText)
    requires k < |entries|
    requires !IsBlank(entries[k].text)
    requires TextNormaliser.ToString(normalise(entries[k].text)).Ok?
    requires !IsBlank(TextNormaliser.ToString(normalise(entries[k].text)).value)
    ensures Flagged(entries, k, normalise) <==> exists j :: 0 <= j < k && entries[j].id == entries[k].id
  {
    TrimEmptyIffBlank(entries[k].text);
    TrimEmptyIffBlank(TextNormaliser.ToString(normalise(entries[k].text)).value);
  }
}
