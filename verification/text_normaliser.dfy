/** The chunk list of `src/text_normaliser.rs` (`NormalisedText`) and the
    rewrites later stages apply to it: dictionary lookup of words, spelling
    text out as character units, rendering back to a string, and the
    duration of an SSML break. The stages that build the list (regular
    expressions, number words, the SSML event loop) are not modelled; the
    dictionary lookup of a word is a parameter. */
module TextNormaliser {
  import opened Outcomes
  import opened Strings
  import opened Seqs
  import opened Phonemes
  import ChunkSplitter

  /** A piece of transcript processed as a whole. Break lengths are in
      milliseconds. */
  datatype Chunk =
    | Text(text: string)
    | Break(millis: nat)
    | Pronunciation(units: seq<Unit>)
    | Punct(punct: Punctuation)

  /** The chunks of a transcript, in transcript order. */
  datatype NormalisedText = NormalisedText(chunks: seq<Chunk>)

  /** `CmuDictionary::get_pronunciations`: every pronunciation of a word, or
      `None` for a word the dictionary does not know. */
  type Lookup = string -> Option<seq<Pronunciation>>

  // ---------------------------------------------------------------------
  // `append` and `drain_all`

  function Append(t: NormalisedText, other: NormalisedText): (r: NormalisedText)
    ensures |r.chunks| == |t.chunks| + |other.chunks|
    ensures r.chunks[..|t.chunks|] == t.chunks && r.chunks[|t.chunks|..] == other.chunks
  {
    NormalisedText(t.chunks + other.chunks)
  }

  /** Chunks after the dictionary or character rewrite: no text is left. */
  predicate NoText(cs: seq<Chunk>) {
    forall k :: 0 <= k < |cs| ==> !cs[k].Text?
  }

  /** `drain_all`: every chunk, in order, and the emptied text left behind. */
  function DrainAll(t: NormalisedText): (r: (seq<Chunk>, NormalisedText))
    ensures r.1.chunks == []
    ensures NormalisedText(r.0) == t
  {
    (t.chunks, NormalisedText([]))
  }

  /** Draining and appending the drained chunks to what is left gives back
      the text, and appending to an empty text is the identity. */
  lemma DrainRoundTrip(t: NormalisedText)
    ensures Append(DrainAll(t).1, NormalisedText(DrainAll(t).0)) == t
    ensures Append(t, NormalisedText([])) == t
  {
    assert [] + t.chunks == t.chunks;
    assert t.chunks + [] == t.chunks;
  }

  // ---------------------------------------------------------------------
  // `words_to_pronunciation`

  const EmptyPronunciationPanic := "assertion failed: !pronunciation.is_empty()"

  function PhonesOf(p: Pronunciation): (us: seq<Unit>)
    ensures |us| == |p| && forall k :: 0 <= k < |p| ==> us[k] == Phone(p[k])
  {
    if |p| == 0 then [] else [Phone(p[0])] + PhonesOf(p[1..])
  }

  /** What one word contributes: its first pronunciation then a space, or
      nothing when the dictionary does not know it. A known word with no
      pronunciation fails the `assert!`. */
  function WordUnits(word: string, lookup: Lookup): Result<seq<Unit>> {
    match lookup(word)
    case None => Ok([])
    case Some(ps) =>
      if |ps| == 0 then Err(Panic(EmptyPronunciationPanic))
      else Ok(PhonesOf(ps[0]) + [Space])
  }

  /** The units of a run of words, or the first word's panic. */
  function WordsUnits(words: seq<string>, lookup: Lookup): (r: Result<seq<Unit>>)
    ensures r.Err? <==> exists k :: 0 <= k < |words| && lookup(words[k]) == Some([])
    ensures r.Err? ==> r.error == Panic(EmptyPronunciationPanic)
  {
    if |words| == 0 then Ok([])
    else match WordUnits(words[0], lookup)
      case Err(e) => Err(e)
      case Ok(us) =>
        match WordsUnits(words[1..], lookup)
        case Err(e) =>
          var k :| 0 <= k < |words[1..]| && lookup(words[1..][k]) == Some([]);
          assert lookup(words[k + 1]) == Some([]);
          Err(e)
        case Ok(rest) =>
          assert forall k | 0 < k < |words| :: words[k] == words[1..][k - 1];
          Ok(us + rest)
  }

  /** The first pronunciation of every word the dictionary knows, in order. */
  function FirstPronunciations(words: seq<string>, lookup: Lookup): seq<Pronunciation> {
    if |words| == 0 then []
    else match lookup(words[0])
      case Some(ps) =>
        (if |ps| > 0 then [ps[0]] else []) + FirstPronunciations(words[1..], lookup)
      case None => FirstPronunciations(words[1..], lookup)
  }

  /** Cuts a run of units after every `Space`; `current` is the group being
      read. This is the reading of a pronunciation chunk back into words. */
  function SpaceGroups(us: seq<Unit>, current: seq<Unit>): seq<seq<Unit>>
    decreases |us|
  {
    if |us| == 0 then (if |current| == 0 then [] else [current])
    else if us[0].Space? then [current] + SpaceGroups(us[1..], [])
    else SpaceGroups(us[1..], current + [us[0]])
  }

  function PhoneGroups(ps: seq<Pronunciation>): seq<seq<Unit>> {
    if |ps| == 0 then [] else [PhonesOf(ps[0])] + PhoneGroups(ps[1..])
  }

  /** One step of `SpaceGroups`: a space closes the group, anything else
      joins it. */
  lemma SpaceGroupsCons(u: Unit, rest: seq<Unit>, current: seq<Unit>)
    ensures SpaceGroups([u] + rest, current)
         == if u.Space? then [current] + SpaceGroups(rest, []) else SpaceGroups(rest, current + [u])
  {
    assert ([u] + rest)[0] == u && ([u] + rest)[1..] == rest;
  }

  /** A run without spaces followed by a space is read back as one group. */
  lemma {:induction false} SpaceFreeGroup(w: seq<Unit>, current: seq<Unit>, rest: seq<Unit>)
    requires forall k :: 0 <= k < |w| ==> !w[k].Space?
    ensures SpaceGroups(w + [Space] + rest, current) == [current + w] + SpaceGroups(rest, [])
    decreases |w|
  {
    if |w| == 0 {
      assert w + [Space] + rest == [Space] + rest;
      SpaceGroupsCons(Space, rest, current);
      assert current + w == current;
    } else {
      var tail := w[1..] + [Space] + rest;
      assert w + [Space] + rest == [w[0]] + tail;
      SpaceGroupsCons(w[0], tail, current);
      SpaceFreeGroup(w[1..], current + [w[0]], rest);
      assert current + [w[0]] + w[1..] == current + w;
    }
  }

  lemma GroupOfPhones(p: Pronunciation, current: seq<Unit>, rest: seq<Unit>)
    ensures SpaceGroups(PhonesOf(p) + [Space] + rest, current)
         == [current + PhonesOf(p)] + SpaceGroups(rest, [])
  {
    SpaceFreeGroup(PhonesOf(p), current, rest);
  }

  /** Reading the units back at the spaces recovers, word by word, the first
      pronunciation of each known word; unknown words leave no trace. */
  lemma {:induction false} WordsUnitsDecode(words: seq<string>, lookup: Lookup)
    requires WordsUnits(words, lookup).Ok?
    ensures SpaceGroups(WordsUnits(words, lookup).value, []) == PhoneGroups(FirstPronunciations(words, lookup))
  {
    if |words| > 0 {
      WordsUnitsDecode(words[1..], lookup);
      var rest := WordsUnits(words[1..], lookup).value;
      match lookup(words[0])
      case None =>
        assert WordsUnits(words, lookup).value == [] + rest == rest;
      case Some(ps) =>
        assert |ps| > 0;
        assert WordsUnits(words, lookup).value == PhonesOf(ps[0]) + [Space] + rest;
        GroupOfPhones(ps[0], [], rest);
        assert [] + PhonesOf(ps[0]) == PhonesOf(ps[0]);
        assert ([ps[0]] + FirstPronunciations(words[1..], lookup))[1..] == FirstPronunciations(words[1..], lookup);
    }
  }

  /** One chunk rewritten by `words_to_pronunciation`: text becomes the
      pronunciation of its ASCII-whitespace separated words. */
  function WordsChunk(c: Chunk, lookup: Lookup): Result<Chunk> {
    match c
    case Text(s) =>
      (match WordsUnits(SplitAsciiWhitespace(s), lookup)
       case Ok(us) => Ok(Pronunciation(us))
       case Err(e) => Err(e))
    case _ => Ok(c)
  }

  function WordsChunks(cs: seq<Chunk>, lookup: Lookup): (r: Result<seq<Chunk>>)
    ensures r.Ok? ==> |r.value| == |cs|
    ensures r.Ok? ==> forall k :: 0 <= k < |cs| ==> WordsChunk(cs[k], lookup) == Ok(r.value[k])
    ensures r.Err? <==> exists k :: 0 <= k < |cs| && WordsChunk(cs[k], lookup).Err?
  {
    if |cs| == 0 then Ok([])
    else match WordsChunk(cs[0], lookup)
      case Err(e) => Err(e)
      case Ok(c) =>
        match WordsChunks(cs[1..], lookup)
        case Err(e) =>
          var k :| 0 <= k < |cs[1..]| && WordsChunk(cs[1..][k], lookup).Err?;
          assert WordsChunk(cs[k + 1], lookup).Err?;
          Err(e)
        case Ok(rest) =>
          assert forall k | 0 < k < |cs| :: cs[k] == cs[1..][k - 1];
          Ok([c] + rest)
  }

  /** `NormalisedText::words_to_pronunciation`: no text chunk is left, every
      other chunk stays where it was, and each text chunk becomes the units
      of its words. */
  function WordsToPronunciation(t: NormalisedText, lookup: Lookup): (r: Result<NormalisedText>)
    ensures r.Ok? ==> |r.value.chunks| == |t.chunks|
    ensures r.Ok? ==> forall k :: 0 <= k < |t.chunks| ==> !r.value.chunks[k].Text?
    ensures r.Ok? ==> forall k :: 0 <= k < |t.chunks| && !t.chunks[k].Text? ==> r.value.chunks[k] == t.chunks[k]
    ensures r.Ok? ==> forall k :: 0 <= k < |t.chunks| && t.chunks[k].Text? ==>
              WordsChunk(t.chunks[k], lookup) == Ok(r.value.chunks[k])
              && WordsUnits(SplitAsciiWhitespace(t.chunks[k].text), lookup) == Ok(r.value.chunks[k].units)
  {
    match WordsChunks(t.chunks, lookup)
    case Ok(cs) => Ok(NormalisedText(cs))
    case Err(e) => Err(e)
  }

  /** One chunk fails exactly when it is text holding a word known with no
      pronunciation. */
  lemma WordsChunkFails(c: Chunk, lookup: Lookup)
    ensures WordsChunk(c, lookup).Err?
        <==> c.Text? && exists w :: w in SplitAsciiWhitespace(c.text) && lookup(w) == Some([])
  {
    if c.Text? {
      var ws := SplitAsciiWhitespace(c.text);
      if WordsChunk(c, lookup).Err? {
        var j :| 0 <= j < |ws| && lookup(ws[j]) == Some([]);
        assert ws[j] in ws;
      } else {
        forall w | w in ws ensures lookup(w) != Some([]) {
          var j :| 0 <= j < |ws| && ws[j] == w;
        }
      }
    }
  }

  /** Words-to-pronunciation panics exactly when a word of a text chunk is
      known with no pronunciation. */
  lemma WordsToPronunciationFails(t: NormalisedText, lookup: Lookup)
    ensures WordsToPronunciation(t, lookup).Err?
        <==> exists k, w :: 0 <= k < |t.chunks| && t.chunks[k].Text?
               && w in SplitAsciiWhitespace(t.chunks[k].text) && lookup(w) == Some([])
  {
    if WordsToPronunciation(t, lookup).Err? {
      var k :| 0 <= k < |t.chunks| && WordsChunk(t.chunks[k], lookup).Err?;
      WordsChunkFails(t.chunks[k], lookup);
    } else {
      forall k, w | 0 <= k < |t.chunks| && t.chunks[k].Text? && w in SplitAsciiWhitespace(t.chunks[k].text)
        ensures lookup(w) != Some([])
      {
        WordsChunkFails(t.chunks[k], lookup);
      }
    }
  }

  /** Running the rewrite twice changes nothing more. */
  lemma WordsToPronunciationIdempotent(t: NormalisedText, lookup: Lookup)
    requires WordsToPronunciation(t, lookup).Ok?
    ensures WordsToPronunciation(WordsToPronunciation(t, lookup).value, lookup) == WordsToPronunciation(t, lookup)
  {
    var u := WordsToPronunciation(t, lookup).value;
    var v := WordsToPronunciation(u, lookup);
    assert v.Ok? by {
      forall k | 0 <= k < |u.chunks| ensures WordsChunk(u.chunks[k], lookup).Ok? {
        assert !u.chunks[k].Text?;
      }
    }
    assert v.value.chunks == u.chunks;
  }

  /** Two rewrites in a row: the first failure, or both outputs in order. */
  function BothChunks(x: Result<seq<Chunk>>, y: Result<seq<Chunk>>): Result<seq<Chunk>> {
    match x
    case Err(e) => Err(e)
    case Ok(u) => match y case Err(e) => Err(e) case Ok(v) => Ok(u + v)
  }

  /** The rewrite works chunk by chunk, so it distributes over `append`. */
  lemma {:induction false} WordsChunksAppend(a: seq<Chunk>, b: seq<Chunk>, lookup: Lookup)
    ensures WordsChunks(a + b, lookup) == BothChunks(WordsChunks(a, lookup), WordsChunks(b, lookup))
  {
    if |a| == 0 {
      assert a + b == b;
      if WordsChunks(b, lookup).Ok? {
        assert [] + WordsChunks(b, lookup).value == WordsChunks(b, lookup).value;
      }
    } else {
      WordsChunksAppend(a[1..], b, lookup);
      WordsChunksAppendStep(a, b, lookup);
    }
  }

  /** One chunk's rewrite in front of the rest's: the first failure wins. */
  function ConsChunk(c: Result<Chunk>, rest: Result<seq<Chunk>>): Result<seq<Chunk>> {
    match c
    case Err(e) => Err(e)
    case Ok(h) => match rest case Err(e) => Err(e) case Ok(t) => Ok([h] + t)
  }

  /** A non-empty run is rewritten head first. */
  lemma WordsChunksCons(cs: seq<Chunk>, lookup: Lookup)
    requires |cs| > 0
    ensures WordsChunks(cs, lookup) == ConsChunk(WordsChunk(cs[0], lookup), WordsChunks(cs[1..], lookup))
  {
  }

  /** Putting a chunk in front commutes with appending a second run. */
  lemma ConsBothChunks(c: Result<Chunk>, x: Result<seq<Chunk>>, y: Result<seq<Chunk>>)
    ensures ConsChunk(c, BothChunks(x, y)) == BothChunks(ConsChunk(c, x), y)
  {
    match (c, x, y)
    case (Ok(h), Ok(u), Ok(v)) => assert [h] + (u + v) == ([h] + u) + v;
    case _ =>
  }

  /** One step of `WordsChunksAppend`: the first chunk's rewrite goes in front. */
  lemma WordsChunksAppendStep(a: seq<Chunk>, b: seq<Chunk>, lookup: Lookup)
    requires |a| > 0
    requires WordsChunks(a[1..] + b, lookup) == BothChunks(WordsChunks(a[1..], lookup), WordsChunks(b, lookup))
    ensures WordsChunks(a + b, lookup) == BothChunks(WordsChunks(a, lookup), WordsChunks(b, lookup))
  {
    AppendHeadTail(a, b);
    WordsChunksCons(a + b, lookup);
    WordsChunksCons(a, lookup);
    ConsBothChunks(WordsChunk(a[0], lookup), WordsChunks(a[1..], lookup), WordsChunks(b, lookup));
  }

  // ---------------------------------------------------------------------
  // `convert_to_units`

  /** The unit for one (already lower-cased) character: whitespace is a
      space, a punctuation mark its `Punct`, anything else a `Character`. */
  function CharUnit(c: char): Unit {
    if IsWhitespace(c) then Space
    else match PunctuationFromStr([c])
      case Some(p) => Unit.Punct(p)
      case None => Character(c)
  }

  /** A text chunk spelled out, one unit per character after ASCII lower-casing. */
  function SpellOut(s: string): (us: seq<Unit>)
    ensures |us| == |s|
    ensures forall k :: 0 <= k < |s| ==> us[k] == CharUnit(AsciiLower(s[k]))
  {
    if |s| == 0 then [] else [CharUnit(AsciiLower(s[0]))] + SpellOut(s[1..])
  }

  /** Each character's unit prints as that character lower-cased, except
      whitespace, which always becomes a space. */
  lemma CharUnitPrints(c: char)
    ensures CharUnit(AsciiLower(c)).Space? <==> IsWhitespace(c)
    ensures !IsWhitespace(c) ==> UnitToString(CharUnit(AsciiLower(c))) == [AsciiLower(c)]
    ensures CharUnit(AsciiLower(c)).Punct? <==> PunctuationSymbol([c]).Some?
    ensures CharUnit(AsciiLower(c)).Space? || CharUnit(AsciiLower(c)).Punct? || CharUnit(AsciiLower(c)).Character?
  {
    var l := AsciiLower(c);
    assert IsWhitespace(l) <==> IsWhitespace(c);
    if !IsWhitespace(l) {
      TrimNoWhitespace([l]);
    }
  }

  function Render(us: seq<Unit>): string {
    if |us| == 0 then [] else UnitToString(us[0]) + Render(us[1..])
  }

  function LowerString(s: string): string {
    if |s| == 0 then [] else [AsciiLower(s[0])] + LowerString(s[1..])
  }

  /** Printing a spelled-out chunk back gives the lower-cased text, as long as
      its only whitespace is the plain space. */
  lemma {:induction false} SpellOutRoundTrip(s: string)
    requires forall k :: 0 <= k < |s| && IsWhitespace(s[k]) ==> s[k] == ' '
    ensures Render(SpellOut(s)) == LowerString(s)
  {
    if |s| > 0 {
      CharUnitPrints(s[0]);
      SpellOutRoundTrip(s[1..]);
      assert SpellOut(s)[1..] == SpellOut(s[1..]);
    }
  }

  function UnitsChunk(c: Chunk): Chunk {
    match c
    case Text(s) => Pronunciation(SpellOut(s))
    case Punct(p) => Pronunciation([Unit.Punct(p)])
    case _ => c
  }

  /** `NormalisedText::convert_to_units`. */
  function ConvertToUnits(t: NormalisedText): (r: NormalisedText)
    ensures |r.chunks| == |t.chunks|
    ensures forall k :: 0 <= k < |t.chunks| ==> r.chunks[k].Break? || r.chunks[k].Pronunciation?
    ensures forall k :: 0 <= k < |t.chunks| && (t.chunks[k].Break? || t.chunks[k].Pronunciation?)
              ==> r.chunks[k] == t.chunks[k]
    ensures forall k :: 0 <= k < |t.chunks| && t.chunks[k].Text?
              ==> r.chunks[k].Pronunciation? && |r.chunks[k].units| == |t.chunks[k].text|
    ensures forall k :: 0 <= k < |t.chunks| && t.chunks[k].Punct?
              ==> r.chunks[k] == Pronunciation([Unit.Punct(t.chunks[k].punct)])
  {
    NormalisedText(seq(|t.chunks|, k requires 0 <= k < |t.chunks| => UnitsChunk(t.chunks[k])))
  }

  /** A text chunk becomes exactly one unit per character: a space for
      whitespace, the mark for a punctuation character, the lower-cased
      character otherwise. */
  lemma ConvertedText(t: NormalisedText, k: nat, j: nat)
    requires k < |t.chunks| && t.chunks[k].Text? && j < |t.chunks[k].text|
    ensures var c := t.chunks[k].text[j]; var u := ConvertToUnits(t).chunks[k].units[j];
      && (u.Space? <==> IsWhitespace(c))
      && (u.Punct? <==> PunctuationSymbol([c]).Some?)
      && (!IsWhitespace(c) ==> UnitToString(u) == [AsciiLower(c)])
      && (u.Space? || u.Punct? || u.Character?)
  {
    CharUnitPrints(t.chunks[k].text[j]);
  }

  /** Converting twice changes nothing more. */
  lemma ConvertToUnitsIdempotent(t: NormalisedText)
    ensures ConvertToUnits(ConvertToUnits(t)) == ConvertToUnits(t)
  {
  }

  /** Conversion works chunk by chunk, so it distributes over `append`. */
  lemma ConvertToUnitsAppend(a: NormalisedText, b: NormalisedText)
    ensures ConvertToUnits(Append(a, b)) == Append(ConvertToUnits(a), ConvertToUnits(b))
  {
  }

  // ---------------------------------------------------------------------
  // `to_string`

  const PronunciationNotText := "Can't turn pronunciation chunk into text"

  /** The output so far, with the space `to_string` puts before a text chunk
      when the output is non-empty and does not end in whitespace. (The source
      compares byte lengths with `trim_end`; `trim_end` only removes a suffix,
      so equal byte lengths mean nothing was removed.) */
  function Separated(res: string): string {
    if |res| > 0 && |TrimEnd(res)| == |res| then res + " " else res
  }

  /** The text of chunks appended to `res`, or the failure on a pronunciation. */
  function RenderFrom(cs: seq<Chunk>, res: string): (r: Result<string>)
    ensures r.Err? <==> exists k :: 0 <= k < |cs| && cs[k].Pronunciation?
    ensures r.Err? ==> r.error == Failure(PronunciationNotText)
    ensures r.Ok? ==> |res| <= |r.value| && r.value[..|res|] == res
  {
    if |cs| == 0 then Ok(res)
    else
      assert forall k | 0 < k < |cs| :: cs[k] == cs[1..][k - 1];
      match cs[0]
      case Text(s) => RenderFrom(cs[1..], Separated(res) + s)
      case Punct(p) => RenderFrom(cs[1..], res + PunctuationToString(p))
      case Pronunciation(_) => Err(Failure(PronunciationNotText))
      case Break(_) => RenderFrom(cs[1..], res)
  }

  /** `NormalisedText::to_string`. */
  function ToString(t: NormalisedText): Result<string> {
    RenderFrom(t.chunks, [])
  }

  /** `to_string_unchecked`: the same, panicking where `to_string` fails. */
  function ToStringUnchecked(t: NormalisedText): (r: Result<string>)
    ensures r.Ok? <==> forall k :: 0 <= k < |t.chunks| ==> !t.chunks[k].Pronunciation?
    ensures r.Ok? ==> r == ToString(t)
  {
    match ToString(t)
    case Ok(s) => Ok(s)
    case Err(_) => Err(Panic("called `Result::unwrap()` on an `Err` value: " + PronunciationNotText))
  }

  /** Text and punctuation in order, without the separating spaces. */
  function Pieces(cs: seq<Chunk>): string {
    if |cs| == 0 then []
    else match cs[0]
      case Text(s) => s + Pieces(cs[1..])
      case Punct(p) => PunctuationToString(p) + Pieces(cs[1..])
      case _ => Pieces(cs[1..])
  }

  function TextCount(cs: seq<Chunk>): nat {
    if |cs| == 0 then 0 else (if cs[0].Text? then 1 else 0) + TextCount(cs[1..])
  }

  function WithoutBreaks(cs: seq<Chunk>): seq<Chunk> {
    if |cs| == 0 then []
    else (if cs[0].Break? then [] else [cs[0]]) + WithoutBreaks(cs[1..])
  }

  /** The rendered text holds every text and punctuation piece, plus at most
      one separating space per text chunk. */
  lemma {:induction false} RenderLength(cs: seq<Chunk>, res: string)
    requires RenderFrom(cs, res).Ok?
    ensures |res| + |Pieces(cs)| <= |RenderFrom(cs, res).value| <= |res| + |Pieces(cs)| + TextCount(cs)
  {
    if |cs| > 0 {
      match cs[0]
      case Text(s) => RenderLength(cs[1..], Separated(res) + s);
      case Punct(p) => RenderLength(cs[1..], res + PunctuationToString(p));
      case Break(_) => RenderLength(cs[1..], res);
    }
  }

  /** Breaks add nothing to the rendered text. */
  lemma {:induction false} RenderIgnoresBreaks(cs: seq<Chunk>, res: string)
    ensures RenderFrom(WithoutBreaks(cs), res) == RenderFrom(cs, res)
  {
    if |cs| > 0 {
      var rest := WithoutBreaks(cs[1..]);
      RenderIgnoresBreaks(cs[1..], res);
      if cs[0].Break? {
        assert WithoutBreaks(cs) == rest;
      } else {
        var w := [cs[0]] + rest;
        assert WithoutBreaks(cs) == w && w[0] == cs[0] && w[1..] == rest;
        match cs[0]
        case Text(s) => RenderIgnoresBreaks(cs[1..], Separated(res) + s);
        case Punct(p) => RenderIgnoresBreaks(cs[1..], res + PunctuationToString(p));
        case Pronunciation(_) =>
      }
    }
  }

  /** Rendering appended texts continues from where the first one stopped. */
  lemma {:induction false} RenderAppend(a: seq<Chunk>, b: seq<Chunk>, res: string)
    ensures RenderFrom(a + b, res)
         == match RenderFrom(a, res)
            case Ok(s) => RenderFrom(b, s)
            case Err(e) => Err(e)
  {
    if |a| == 0 {
      assert a + b == b;
    } else {
      assert (a + b)[0] == a[0] && (a + b)[1..] == a[1..] + b;
      match a[0]
      case Text(s) => RenderAppend(a[1..], b, Separated(res) + s);
      case Punct(p) => RenderAppend(a[1..], b, res + PunctuationToString(p));
      case Break(_) => RenderAppend(a[1..], b, res);
      case Pronunciation(_) =>
    }
  }

  /** Before a text chunk, output that ends in a visible character gets one space. */
  lemma SeparatedAfterVisible(res: string)
    requires |res| > 0 && !IsWhitespace(res[|res| - 1])
    ensures Separated(res) == res + " "
  {
  }

  lemma RenderText(s: string, rest: seq<Chunk>, res: string)
    ensures RenderFrom([Text(s)] + rest, res) == RenderFrom(rest, Separated(res) + s)
  {
    assert ([Text(s)] + rest)[1..] == rest;
  }

  lemma RenderPunct(p: Punctuation, rest: seq<Chunk>, res: string)
    ensures RenderFrom([Chunk.Punct(p)] + rest, res) == RenderFrom(rest, res + PunctuationToString(p))
  {
    assert ([Chunk.Punct(p)] + rest)[1..] == rest;
  }

  /** The chunks the punctuation-extraction test expects for "Is this my
      1st talk? You tell me!": the text after a mark keeps its leading space,
      and rendering adds a second one after the mark. */
  lemma QuestionFixture()
    ensures ToString(NormalisedText([Text("IS THIS MY FIRST TALK"), Chunk.Punct(QuestionMark),
                                     Text(" YOU TELL ME"), Chunk.Punct(ExclamationMark)]))
         == Ok("IS THIS MY FIRST TALK?  YOU TELL ME!")
  {
    var cs := [Text("IS THIS MY FIRST TALK"), Chunk.Punct(QuestionMark), Text(" YOU TELL ME"), Chunk.Punct(ExclamationMark)];
    RenderTwoMarked(cs, "IS THIS MY FIRST TALK", QuestionMark, " YOU TELL ME", ExclamationMark);
    assert "IS THIS MY FIRST TALK" + PunctuationToString(QuestionMark) + " " + " YOU TELL ME" + PunctuationToString(ExclamationMark)
        == "IS THIS MY FIRST TALK?  YOU TELL ME!";
  }

  /** Two marked texts: the first opens the output, the mark follows it
      directly, and the second text is separated from that mark by a space. */
  lemma RenderTwoMarked(cs: seq<Chunk>, t1: string, p1: Punctuation, t2: string, p2: Punctuation)
    requires cs == [Text(t1), Chunk.Punct(p1), Text(t2), Chunk.Punct(p2)]
    ensures ToString(NormalisedText(cs)) == Ok(t1 + PunctuationToString(p1) + " " + t2 + PunctuationToString(p2))
  {
    var rest := [Text(t2), Chunk.Punct(p2)];
    assert cs == [Text(t1), Chunk.Punct(p1)] + rest;
    RenderOpeningTextThenPunct(t1, p1, rest);
    MarkSymbol(p1);
    var c := PunctuationToString(p1)[0];
    assert PunctuationToString(p1) == [c];
    var first := t1 + [c];
    assert first[|t1|] == c;
    SeparatedAfterVisible(first);
    RenderTextThenPunct(t2, p2, first);
  }

  /** Every mark prints as one visible character. */
  lemma MarkSymbol(p: Punctuation)
    ensures |PunctuationToString(p)| == 1 && !IsWhitespace(PunctuationToString(p)[0])
  {
  }

  /** Text opening the output gets no separating space; a mark follows it directly. */
  lemma RenderOpeningTextThenPunct(t: string, p: Punctuation, rest: seq<Chunk>)
    ensures RenderFrom([Text(t), Chunk.Punct(p)] + rest, []) == RenderFrom(rest, t + PunctuationToString(p))
  {
    assert [Text(t), Chunk.Punct(p)] + rest == [Text(t)] + ([Chunk.Punct(p)] + rest);
    RenderText(t, [Chunk.Punct(p)] + rest, []);
    assert Separated([]) + t == t;
    RenderPunct(p, rest, t);
  }

  /** A text chunk and a mark add the separating space `to_string` puts
      before text, the text and the mark's symbol. */
  lemma RenderTextThenPunct(t: string, p: Punctuation, res: string)
    ensures RenderFrom([Text(t), Chunk.Punct(p)], res) == Ok(Separated(res) + t + PunctuationToString(p))
  {
    RenderText(t, [Chunk.Punct(p)], res);
    assert [Text(t)] + [Chunk.Punct(p)] == [Text(t), Chunk.Punct(p)];
    RenderPunct(p, [], Separated(res) + t);
    assert [Chunk.Punct(p)] + [] == [Chunk.Punct(p)];
  }

  /** A spelled-out number followed by a full stop, as the SSML test renders it. */
  lemma CharactersFixture()
    ensures ToString(NormalisedText([Text("ONE ZERO"), Chunk.Punct(FullStop)])) == Ok("ONE ZERO.")
  {
    var cs := [Text("ONE ZERO"), Chunk.Punct(FullStop)];
    var c1 := [Chunk.Punct(FullStop)];
    RenderText("ONE ZERO", c1, []);
    assert Separated([]) + "ONE ZERO" == "ONE ZERO";
    RenderPunct(FullStop, [], "ONE ZERO");
    assert c1 == [Chunk.Punct(FullStop)] + [];
    assert "ONE ZERO" + PunctuationToString(FullStop) == "ONE ZERO.";
    assert cs == [Text("ONE ZERO")] + c1;
  }

  // ---------------------------------------------------------------------
  // `valid_char`

  const InvalidChars: string := "!\"£$%^&*()-_=+[{]};:'@#~,<.>/?|\\`¬"

  /** `valid_char`: whether a character may stay in a word. */
  function ValidChar(c: char): bool {
    c !in InvalidChars
  }

  /** `char::is_ascii_punctuation`, by code-point ranges. */
  predicate IsAsciiPunctuation(c: char) {
    ('!' <= c <= '/') || (':' <= c <= '@') || ('[' <= c <= '`') || ('{' <= c <= '~')
  }

  /** The rejected characters are exactly the ASCII punctuation characters
      plus the pound sign and the not sign. */
  lemma ValidCharClassification(c: char)
    ensures !ValidChar(c) <==> IsAsciiPunctuation(c) || c == '£' || c == '¬'
  {
    if '!' <= c <= '/' {
      RejectedRange(c, "!\"#$%&'()*+,-./", '!');
    } else if ':' <= c <= '@' {
      RejectedRange(c, ":;<=>?@", ':');
    } else if '[' <= c <= '`' {
      RejectedRange(c, "[\\]^_`", '[');
    } else if '{' <= c <= '~' {
      RejectedRange(c, "{|}~", '{');
    }
    if !ValidChar(c) {
      var k :| 0 <= k < |InvalidChars| && InvalidChars[k] == c;
      RejectedClassified(k);
    }
  }

  lemma RejectedClassified(k: nat)
    requires k < |InvalidChars|
    ensures IsAsciiPunctuation(InvalidChars[k]) || InvalidChars[k] == '£' || InvalidChars[k] == '¬'
  {
  }

  /** A run of consecutive code points that are all rejected. */
  lemma RejectedRange(c: char, run: string, first: char)
    requires forall k :: 0 <= k < |run| ==> run[k] as int == first as int + k && run[k] in InvalidChars
    requires first <= c && c as int < first as int + |run|
    ensures !ValidChar(c)
  {
    assert run[c as int - first as int] == c;
  }

  /** Every punctuation mark is stripped from words, so it must be taken out
      as a `Punct` chunk before the stripping. */
  lemma PunctuationIsInvalid(p: Punctuation)
    ensures !ValidChar(PunctuationToString(p)[0])
  {
  }

  // ---------------------------------------------------------------------
  // SSML `break` (section 3.2.3 of W3C SSML 1.1)

  datatype Strength = No | ExtraWeak | Weak | Medium | Strong | ExtraStrong

  /** The attributes of a `break` element; `time` is in milliseconds. */
  datatype BreakAttributes = BreakAttributes(time: Option<nat>, strength: Option<Strength>)

  /** The chunk a `break` element adds to the output, if any. */
  function BreakChunk(b: BreakAttributes): (r: Option<Chunk>)
    ensures r.None? <==> b.time.None? && b.strength == Some(No)
    ensures r.Some? ==> r.value.Break?
    ensures b.time.Some? ==> r == Some(Break(b.time.value))
  {
    match (b.time, b.strength)
    case (Some(ms), _) => Some(Break(ms))
    case (None, Some(s)) =>
      (match s
       case No => None
       case ExtraWeak => Some(Break(200))
       case Weak => Some(Break(500))
       case Medium => Some(Break(1000))
       case Strong => Some(Break(2000))
       case ExtraStrong => Some(Break(5000)))
    case (None, None) => Some(Break(1000))
  }

  /** Position of a strength on the scale the SSML standard orders them by. */
  function StrengthRank(s: Strength): nat {
    match s
    case No => 0
    case ExtraWeak => 1
    case Weak => 2
    case Medium => 3
    case Strong => 4
    case ExtraStrong => 5
  }

  /** A stronger break is a longer pause, and a break with no attributes is a
      medium one. */
  lemma BreakDurations(a: Strength, b: Strength)
    requires a != No && StrengthRank(a) < StrengthRank(b)
    ensures BreakChunk(BreakAttributes(None, Some(a))).value.millis
          < BreakChunk(BreakAttributes(None, Some(b))).value.millis
    ensures BreakChunk(BreakAttributes(None, None)) == BreakChunk(BreakAttributes(None, Some(Medium)))
  {
  }

  // ---------------------------------------------------------------------
  // The `split_units` test of `src/phonemes.rs`

  /** The text the test splits. The test checks that its units are one per
      character; they are taken here as `SpellOut` of the whole text, the
      normaliser's own pass over it not being modelled. */
  const SplitTestText: string := "a b c d. e f g h. i j k l m n o p"

  /** Which character the fixture's score at `i` stands for: a full stop,
      a space, or a lower-case letter. */
  predicate FixtureChar(c: char, i: nat) {
    (c == '.' <==> ChunkSplitter.FixtureScore(i) == 3)
    && (c == ' ' <==> ChunkSplitter.FixtureScore(i) == 1)
    && (c == '.' || c == ' ' || 'a' <= c <= 'z')
  }

  /** `FixtureChar` at every position from `i` on, checked one by one. */
  predicate FixtureShaped(s: string, i: nat)
    decreases |s| - i
  {
    i >= |s| || (FixtureChar(s[i], i) && FixtureShaped(s, i + 1))
  }

  lemma {:induction false} FixtureShapedAll(s: string, i: nat, j: nat)
    requires FixtureShaped(s, i)
    requires i <= j < |s|
    ensures FixtureChar(s[j], j)
    decreases j - i
  {
    if i < j {
      FixtureShapedAll(s, i + 1, j);
    }
  }

  /** A letter is scored 0, a space 1 and a full stop 3 once spelled out. */
  lemma FixtureCharScore(c: char, i: nat)
    requires FixtureChar(c, i)
    ensures SplitScore(CharUnit(AsciiLower(c))) == ChunkSplitter.FixtureScore(i)
  {
  }

  /** A full stop spells out as the full-stop mark. */
  lemma FullStopUnit(c: char)
    requires c == '.'
    ensures CharUnit(AsciiLower(c)) == Unit.Punct(FullStop)
  {
    TrimNoWhitespace([c]);
  }

  /** Any 33 characters shaped like the test text split as the test expects. */
  lemma SplitUnitsShaped(s: string, units: seq<Unit>)
    requires |s| == 33 && FixtureShaped(s, 0)
    requires units == SpellOut(s)
    ensures |units| == 33
    ensures ChunkSplitter.FindSplits(units, 10) == [7, 16, 25]
    ensures units[7] == Unit.Punct(FullStop) && units[16] == Unit.Punct(FullStop)
    ensures units[25] == Space
  {
    forall i | 0 <= i < 33
      ensures SplitScore(units[i]) == ChunkSplitter.FixtureScore(i)
    {
      FixtureShapedAll(s, 0, i);
      FixtureCharScore(s[i], i);
    }
    ChunkSplitter.SplitUnitsFixture(units);
    FixtureShapedAll(s, 0, 7);
    FixtureShapedAll(s, 0, 16);
    FixtureShapedAll(s, 0, 25);
    FullStopUnit(s[7]);
    FullStopUnit(s[16]);
  }

  /** `FixtureChar` at every position from `i` on makes the text shaped from `i`. */
  lemma {:induction false} FixtureShapedFrom(s: string, i: nat)
    requires forall j :: i <= j < |s| ==> FixtureChar(s[j], j)
    ensures FixtureShaped(s, i)
    decreases |s| - i
  {
    if i < |s| {
      FixtureShapedFrom(s, i + 1);
    }
  }

  /** The test text has the fixture's shape, checked character by character. */
  lemma TestTextShaped()
    ensures |SplitTestText| == 33 && FixtureShaped(SplitTestText, 0)
  {
    forall j | 0 <= j < |SplitTestText|
      ensures FixtureChar(SplitTestText[j], j)
    {
    }
    FixtureShapedFrom(SplitTestText, 0);
  }

  /** The `split_units` test: the 33 units of the test text, cut with
      `max_size` 10, are split at the two full stops and at a space after
      the second one. */
  lemma SplitUnitsTest(text: string, units: seq<Unit>)
    requires text == SplitTestText
    requires units == SpellOut(text)
    ensures |units| == |text|
    ensures ChunkSplitter.FindSplits(units, 10) == [7, 16, 25]
    ensures units[7] == Unit.Punct(FullStop) && units[16] == Unit.Punct(FullStop)
    ensures units[25] == Space
  {
    TestTextShaped();
    SplitUnitsShaped(text, units);
  }
}
