/** Dataset analytics (src/training/analytics.rs): running counts of phones,
    diphones (adjacent phone pairs), out-of-vocabulary words and sentence
    lengths, gathered word by word and sentence by sentence, and the report
    they are turned into. */
module Analytics {
  import opened Outcomes
  import opened Strings
  import opened Seqs
  import opened Phonemes
  import TextNormaliser
  import CmuDict

  // ---------------------------------------------------------------------
  // Counting maps (`*map.entry(k).or_insert(0) += 1`)

  /** How often `k` has been counted: zero when it is not a key. */
  function Count<K>(m: map<K, nat>, k: K): nat {
    if k in m then m[k] else 0
  }

  function Bump<K(!new)>(m: map<K, nat>, k: K): (r: map<K, nat>)
    ensures r.Keys == m.Keys + {k}
    ensures Count(r, k) == Count(m, k) + 1
    ensures forall j :: j != k ==> Count(r, j) == Count(m, j)
  {
    m[k := Count(m, k) + 1]
  }

  /** Counts every element of `ks` in order. */
  function BumpAll<K(!new)>(m: map<K, nat>, ks: seq<K>): (r: map<K, nat>)
    ensures forall k :: Count(r, k) == Count(m, k) + multiset(ks)[k]
    decreases |ks|
  {
    if |ks| == 0 then m
    else
      assert ks == [ks[0]] + ks[1..];
      BumpAll(Bump(m, ks[0]), ks[1..])
  }

  // ---------------------------------------------------------------------
  // The generator

  type Diphone = (PhoneticUnit, PhoneticUnit)

  datatype Generator = Generator(
    dict: CmuDict.CmuDictionary,
    diphones: map<Diphone, nat>,
    phonemes: map<PhoneticUnit, nat>,
    oov: map<string, nat>,
    sentenceLengths: map<nat, nat>)

  /** `AnalyticsGenerator::new`: the dictionary and nothing counted yet. */
  function NewGenerator(dict: CmuDict.CmuDictionary): (g: Generator)
    ensures g.dict == dict
    ensures forall d :: Count(g.diphones, d) == 0
    ensures forall u :: Count(g.phonemes, u) == 0
    ensures forall w :: Count(g.oov, w) == 0
    ensures forall n :: Count(g.sentenceLengths, n) == 0
  {
    Generator(dict, map[], map[], map[], map[])
  }

  /** The adjacent pairs of a pronunciation: its windows of two. */
  function Pairs(p: Pronunciation): seq<Diphone> {
    if |p| == 0 then [] else seq(|p| - 1, i requires 0 <= i < |p| - 1 => (p[i], p[i + 1]))
  }

  /** One pronunciation of a known word: each window counts its pair and its
      first phone, then the last phone is counted on its own. */
  function PushWindows(g: Generator, p: Pronunciation, i: nat): Generator
    decreases |p| - i
  {
    if i + 1 >= |p| then g
    else
      PushWindows(g.(diphones := Bump(g.diphones, (p[i], p[i + 1])),
                     phonemes := Bump(g.phonemes, p[i])), p, i + 1)
  }

  function PushPronunciation(g: Generator, p: Pronunciation): Generator {
    var h := PushWindows(g, p, 0);
    if |p| == 0 then h else h.(phonemes := Bump(h.phonemes, p[|p| - 1]))
  }

  function PushPronunciations(g: Generator, ps: seq<Pronunciation>): Generator
    decreases |ps|
  {
    if |ps| == 0 then g else PushPronunciations(PushPronunciation(g, ps[0]), ps[1..])
  }

  /** `push_word`: the word is normalised (by `normalise`, standing for
      `normalise_text(..).to_string_unchecked()`) and looked up exactly; a
      known word counts all its pronunciations, an unknown one is counted
      as out of vocabulary. */
  function PushWord(g: Generator, normalise: CmuDict.Normaliser, word: string): Generator {
    var n := normalise(word);
    match CmuDict.GetNormalised(g.dict, n)
    case Some(ps) => PushPronunciations(g, ps)
    case None => g.(oov := Bump(g.oov, n))
  }

  /** Every phone of the pronunciations, and every adjacent pair within one. */
  function AllPhones(ps: seq<Pronunciation>): seq<PhoneticUnit> {
    Flatten(ps)
  }

  function AllPairs(ps: seq<Pronunciation>): seq<Diphone>
    decreases |ps|
  {
    if |ps| == 0 then [] else Pairs(ps[0]) + AllPairs(ps[1..])
  }

  lemma PairsLength(p: Pronunciation)
    requires |p| > 0
    ensures |Pairs(p)| == |p| - 1
    ensures forall i :: 0 <= i < |p| - 1 ==> Pairs(p)[i] == (p[i], p[i + 1])
  {
  }

  lemma {:induction false} PushWindowsBumps(g: Generator, p: Pronunciation, i: nat)
    requires i < |p|
    ensures var r := PushWindows(g, p, i);
      r.dict == g.dict && r.oov == g.oov && r.sentenceLengths == g.sentenceLengths
      && r.phonemes == BumpAll(g.phonemes, p[i..|p| - 1])
      && r.diphones == BumpAll(g.diphones, Pairs(p)[i..])
    decreases |p| - i
  {
    if i + 1 >= |p| {
      assert p[i..|p| - 1] == [];
      assert Pairs(p)[i..] == [];
    } else {
      var h := g.(diphones := Bump(g.diphones, (p[i], p[i + 1])), phonemes := Bump(g.phonemes, p[i]));
      PushWindowsBumps(h, p, i + 1);
      var phones := p[i..|p| - 1];
      assert phones[0] == p[i] && phones[1..] == p[i + 1..|p| - 1];
      var pairs := Pairs(p)[i..];
      assert pairs[0] == (p[i], p[i + 1]) && pairs[1..] == Pairs(p)[i + 1..];
    }
  }

  /** A pronunciation of n phones counts each of its n phones once and each
      of its n - 1 adjacent pairs once; nothing else changes. */
  lemma PushPronunciationCounts(g: Generator, p: Pronunciation)
    ensures var r := PushPronunciation(g, p);
      r.dict == g.dict && r.oov == g.oov && r.sentenceLengths == g.sentenceLengths
      && (forall u :: Count(r.phonemes, u) == Count(g.phonemes, u) + multiset(p)[u])
      && (forall d :: Count(r.diphones, d) == Count(g.diphones, d) + multiset(Pairs(p))[d])
  {
    if |p| > 0 {
      PushWindowsBumps(g, p, 0);
      assert p[0..|p| - 1] == p[..|p| - 1];
      assert Pairs(p)[0..] == Pairs(p);
      LastPhoneCounted(g.phonemes, p);
    }
  }

  lemma LastPhoneCounted(m: map<PhoneticUnit, nat>, p: Pronunciation)
    requires |p| > 0
    ensures forall u :: Count(Bump(BumpAll(m, p[..|p| - 1]), p[|p| - 1]), u) == Count(m, u) + multiset(p)[u]
  {
    assert p == p[..|p| - 1] + [p[|p| - 1]];
  }

  lemma {:induction false} PushPronunciationsCounts(g: Generator, ps: seq<Pronunciation>)
    ensures var r := PushPronunciations(g, ps);
      r.dict == g.dict && r.oov == g.oov && r.sentenceLengths == g.sentenceLengths
      && (forall u :: Count(r.phonemes, u) == Count(g.phonemes, u) + multiset(AllPhones(ps))[u])
      && (forall d :: Count(r.diphones, d) == Count(g.diphones, d) + multiset(AllPairs(ps))[d])
    decreases |ps|
  {
    if |ps| > 0 {
      PushPronunciationCounts(g, ps[0]);
      PushPronunciationsCounts(PushPronunciation(g, ps[0]), ps[1..]);
    }
  }

  /** A known word counts the phones and pairs of every pronunciation it has,
      not only the first, and leaves the out-of-vocabulary counts alone. */
  lemma PushWordKnown(g: Generator, normalise: CmuDict.Normaliser, word: string)
    requires normalise(word) in g.dict.entries
    ensures var r := PushWord(g, normalise, word);
      var ps := g.dict.entries[normalise(word)];
      r.dict == g.dict && r.oov == g.oov && r.sentenceLengths == g.sentenceLengths
      && (forall u :: Count(r.phonemes, u) == Count(g.phonemes, u) + multiset(AllPhones(ps))[u])
      && (forall d :: Count(r.diphones, d) == Count(g.diphones, d) + multiset(AllPairs(ps))[d])
  {
    PushPronunciationsCounts(g, g.dict.entries[normalise(word)]);
  }

  /** An unknown word counts one more occurrence of its normalised form as
      out of vocabulary, and nothing else. */
  lemma PushWordUnknown(g: Generator, normalise: CmuDict.Normaliser, word: string)
    requires normalise(word) !in g.dict.entries
    ensures var r := PushWord(g, normalise, word);
      r.dict == g.dict && r.phonemes == g.phonemes && r.diphones == g.diphones
      && r.sentenceLengths == g.sentenceLengths
      && Count(r.oov, normalise(word)) == Count(g.oov, normalise(word)) + 1
      && (forall w :: w != normalise(word) ==> Count(r.oov, w) == Count(g.oov, w))
  {
  }

  /** The number of phones and of pairs a pronunciation list contributes: n
      and n - 1 for each pronunciation of n phones. */
  lemma {:induction false} AllPairsLength(ps: seq<Pronunciation>)
    requires forall i :: 0 <= i < |ps| ==> |ps[i]| > 0
    ensures |AllPhones(ps)| == |AllPairs(ps)| + |ps|
    decreases |ps|
  {
    if |ps| > 0 {
      PairsLength(ps[0]);
      AllPairsLength(ps[1..]);
    }
  }

  // ---------------------------------------------------------------------
  // Sentence lengths

  /** What a chunk adds to the running sentence length. */
  function Weight(c: TextNormaliser.Chunk): nat {
    match c
    case Pronunciation(us) => |us|
    case Punct(_) => 1
    case _ => 0
  }

  function TotalWeight(cs: seq<TextNormaliser.Chunk>): nat
    decreases |cs|
  {
    if |cs| == 0 then 0 else Weight(cs[0]) + TotalWeight(cs[1..])
  }

  function SentenceEnds(cs: seq<TextNormaliser.Chunk>): nat
    decreases |cs|
  {
    if |cs| == 0 then 0
    else (if cs[0].Punct? && IsSentenceEnd(cs[0].punct) then 1 else 0) + SentenceEnds(cs[1..])
  }

  function Sum(xs: seq<nat>): nat
    decreases |xs|
  {
    if |xs| == 0 then 0 else xs[0] + Sum(xs[1..])
  }

  /** The lengths `push_sentence` records, in order: each sentence-ending
      mark closes a sentence (counting itself), and a non-empty remainder is
      recorded once at the end. */
  function LengthsFrom(cs: seq<TextNormaliser.Chunk>, running: nat): (r: seq<nat>)
    requires TextNormaliser.NoText(cs)
    ensures forall i :: 0 <= i < |r| ==> r[i] > 0
    ensures Sum(r) == running + TotalWeight(cs)
    ensures SentenceEnds(cs) <= |r| <= SentenceEnds(cs) + 1
    decreases |cs|
  {
    if |cs| == 0 then (if running > 0 then [running] else [])
    else
      match cs[0]
      case Punct(p) =>
        if IsSentenceEnd(p) then [running + 1] + LengthsFrom(cs[1..], 0)
        else LengthsFrom(cs[1..], running + 1)
      case Pronunciation(us) => LengthsFrom(cs[1..], running + |us|)
      case Break(_) => LengthsFrom(cs[1..], running)
      case Text(_) => assert false; [running]
  }

  /** A text that ends on a sentence-ending mark records exactly one length
      per sentence. */
  lemma {:induction false} LengthsClosed(cs: seq<TextNormaliser.Chunk>, running: nat)
    requires TextNormaliser.NoText(cs) && |cs| > 0
    requires cs[|cs| - 1].Punct? && IsSentenceEnd(cs[|cs| - 1].punct)
    ensures |LengthsFrom(cs, running)| == SentenceEnds(cs)
    decreases |cs|
  {
    if |cs| == 1 {
      assert cs[1..] == [];
    } else {
      assert cs[1..][|cs[1..]| - 1] == cs[|cs| - 1];
      match cs[0]
      case Punct(p) =>
        if IsSentenceEnd(p) { LengthsClosed(cs[1..], 0); } else { LengthsClosed(cs[1..], running + 1); }
      case Pronunciation(us) => LengthsClosed(cs[1..], running + |us|);
      case Break(_) => LengthsClosed(cs[1..], running);
      case Text(_) => assert false;
    }
  }

  /** The words of a sentence, one `push_word` each. */
  function PushWords(g: Generator, normalise: CmuDict.Normaliser, words: seq<string>): Generator
    decreases |words|
  {
    if |words| == 0 then g else PushWords(PushWord(g, normalise, words[0]), normalise, words[1..])
  }

  /** After `words_to_pronunciation` no Text chunk is left, so the
      source's `unreachable!` on Text cannot fire. */
  lemma SpokenHasNoText(t: TextNormaliser.NormalisedText, lookup: TextNormaliser.Lookup)
    requires TextNormaliser.WordsToPronunciation(t, lookup).Ok?
    ensures TextNormaliser.NoText(TextNormaliser.WordsToPronunciation(t, lookup).value.chunks)
  {
  }

  const UnwrapPanic := "called `Result::unwrap()` on an `Err` value"

  /** `push_sentence`: the sentence is normalised (`normaliseText` stands for
      the text normaliser, whose failure the source unwraps), its words
      turned into pronunciations, its sentence lengths recorded, and then
      every whitespace-separated word of the raw sentence pushed. */
  function PushSentence(g: Generator, normaliseText: string -> Result<TextNormaliser.NormalisedText>,
                        normalise: CmuDict.Normaliser, sentence: string): (r: Result<Generator>)
    ensures normaliseText(sentence).Err? ==> r == Err(Panic(UnwrapPanic))
    ensures normaliseText(sentence).Ok? ==>
              (r.Err? <==> TextNormaliser.WordsToPronunciation(normaliseText(sentence).value, CmuDict.AsLookup(g.dict, normalise)).Err?)
  {
    match normaliseText(sentence)
    case Err(_) => Err(Panic(UnwrapPanic))
    case Ok(text) =>
      match TextNormaliser.WordsToPronunciation(text, CmuDict.AsLookup(g.dict, normalise))
      case Err(e) => Err(e)
      case Ok(spoken) =>
        SpokenHasNoText(text, CmuDict.AsLookup(g.dict, normalise));
        var cs := TextNormaliser.DrainAll(spoken).0;
        var h := g.(sentenceLengths := BumpAll(g.sentenceLengths, LengthsFrom(cs, 0)));
        Ok(PushWords(h, normalise, SplitWhitespace(sentence)))
  }

  lemma {:induction false} PushWordsKeepsLengths(g: Generator, normalise: CmuDict.Normaliser, words: seq<string>)
    ensures PushWords(g, normalise, words).sentenceLengths == g.sentenceLengths
    ensures PushWords(g, normalise, words).dict == g.dict
    decreases |words|
  {
    if |words| > 0 {
      if normalise(words[0]) in g.dict.entries {
        PushWordKnown(g, normalise, words[0]);
      }
      PushWordsKeepsLengths(PushWord(g, normalise, words[0]), normalise, words[1..]);
    }
  }

  /** Sentence lengths after `push_sentence`: one more count for each length
      the pronounced text records, and a dictionary read from a file (no
      word with an empty list) never makes it panic once the text
      normalises. */
  lemma PushSentenceLengths(g: Generator, normaliseText: string -> Result<TextNormaliser.NormalisedText>,
                            normalise: CmuDict.Normaliser, sentence: string)
    requires normaliseText(sentence).Ok?
    requires CmuDict.NoEmptyLists(g.dict)
    ensures var spoken := TextNormaliser.WordsToPronunciation(normaliseText(sentence).value, CmuDict.AsLookup(g.dict, normalise));
      var r := PushSentence(g, normaliseText, normalise, sentence);
      spoken.Ok? && TextNormaliser.NoText(spoken.value.chunks) && r.Ok? && r.value.dict == g.dict
      && forall n :: Count(r.value.sentenceLengths, n) == Count(g.sentenceLengths, n) + multiset(LengthsFrom(spoken.value.chunks, 0))[n]
  {
    var text := normaliseText(sentence).value;
    var lookup := CmuDict.AsLookup(g.dict, normalise);
    CmuDict.LookupNeverPanics(g.dict, normalise, text);
    var spoken := TextNormaliser.WordsToPronunciation(text, lookup).value;
    SpokenHasNoText(text, lookup);
    PushSentenceCounts(g, normaliseText, normalise, sentence, spoken);
  }

  /** Once the sentence is pronounced, `push_sentence` succeeds, keeps the
      dictionary and counts each recorded length once more. */
  lemma PushSentenceCounts(g: Generator, normaliseText: string -> Result<TextNormaliser.NormalisedText>,
                           normalise: CmuDict.Normaliser, sentence: string, spoken: TextNormaliser.NormalisedText)
    requires normaliseText(sentence).Ok?
    requires TextNormaliser.WordsToPronunciation(normaliseText(sentence).value, CmuDict.AsLookup(g.dict, normalise)) == Ok(spoken)
    ensures var r := PushSentence(g, normaliseText, normalise, sentence);
      r.Ok? && r.value.dict == g.dict
      && forall n :: Count(r.value.sentenceLengths, n) == Count(g.sentenceLengths, n) + multiset(LengthsFrom(spoken.chunks, 0))[n]
  {
    var h := g.(sentenceLengths := BumpAll(g.sentenceLengths, LengthsFrom(spoken.chunks, 0)));
    PushSentenceSpoken(g, normaliseText, normalise, sentence, spoken);
    PushWordsKeepsLengths(h, normalise, SplitWhitespace(sentence));
  }

  /** Once the sentence is pronounced, its lengths are counted and then its
      words. */
  lemma PushSentenceSpoken(g: Generator, normaliseText: string -> Result<TextNormaliser.NormalisedText>,
                           normalise: CmuDict.Normaliser, sentence: string, spoken: TextNormaliser.NormalisedText)
    requires normaliseText(sentence).Ok?
    requires TextNormaliser.WordsToPronunciation(normaliseText(sentence).value, CmuDict.AsLookup(g.dict, normalise)) == Ok(spoken)
    ensures PushSentence(g, normaliseText, normalise, sentence)
         == Ok(PushWords(g.(sentenceLengths := BumpAll(g.sentenceLengths, LengthsFrom(spoken.chunks, 0))),
                         normalise, SplitWhitespace(sentence)))
  {
    assert TextNormaliser.DrainAll(spoken).0 == spoken.chunks;
  }

  // ---------------------------------------------------------------------
  // `generate_report`

  datatype DiphoneStat = DiphoneStat(phones: (string, string), count: nat)

  datatype Report = Report(
    diphones: seq<DiphoneStat>,
    phonemes: map<string, nat>,
    oov: map<string, nat>,
    sentenceLengths: map<nat, nat>)

  /** The pair a stat names, read back from its two printed phones. */
  function StatPair(s: DiphoneStat): Option<Diphone> {
    match (PhoneticUnitFromStr(s.phones.0), PhoneticUnitFromStr(s.phones.1))
    case (Parsed(a), Parsed(b)) => Some((a, b))
    case _ => None
  }

  function StatOf(d: Diphone, count: nat): DiphoneStat {
    DiphoneStat((PhoneticUnitToString(d.0), PhoneticUnitToString(d.1)), count)
  }

  /** Printing a phonetic unit loses nothing. */
  lemma PrintedUnitsDistinct(u: PhoneticUnit, v: PhoneticUnit)
    ensures PhoneticUnitToString(u) == PhoneticUnitToString(v) ==> u == v
  {
    PhoneticUnitRoundTrip(u);
    PhoneticUnitRoundTrip(v);
  }

  lemma StatNamesPair(d: Diphone, count: nat)
    ensures StatPair(StatOf(d, count)) == Some(d)
  {
    PhoneticUnitRoundTrip(d.0);
    PhoneticUnitRoundTrip(d.1);
  }

  /** The phone counts keyed by the printed phone. */
  function PrintedCounts(m: map<PhoneticUnit, nat>): map<string, nat> {
    forall u, v | u in m && v in m && PhoneticUnitToString(u) == PhoneticUnitToString(v)
      ensures m[u] == m[v]
    {
      PrintedUnitsDistinct(u, v);
    }
    map u | u in m :: PhoneticUnitToString(u) := m[u]
  }

  lemma PrintedCountsKept(m: map<PhoneticUnit, nat>, u: PhoneticUnit)
    ensures Count(PrintedCounts(m), PhoneticUnitToString(u)) == Count(m, u)
  {
    forall v | v in m ensures PhoneticUnitToString(v) == PhoneticUnitToString(u) ==> v == u {
      PrintedUnitsDistinct(u, v);
    }
    if u in m {
      assert PhoneticUnitToString(u) in PrintedCounts(m);
    }
  }

  lemma PrintedCountsAll(m: map<PhoneticUnit, nat>)
    ensures forall u :: Count(PrintedCounts(m), PhoneticUnitToString(u)) == Count(m, u)
    ensures PrintedCounts(m).Keys == set u | u in m :: PhoneticUnitToString(u)
  {
    forall u ensures Count(PrintedCounts(m), PhoneticUnitToString(u)) == Count(m, u) {
      PrintedCountsKept(m, u);
    }
  }

  /** Stats printed from a duplicate-free listing of a map's keys name each
      key exactly once, with its count. */
  lemma StatsOfListing(stats: seq<DiphoneStat>, order: seq<Diphone>, m: map<Diphone, nat>)
    requires |stats| == |order|
    requires forall i :: 0 <= i < |order| ==> order[i] in m && stats[i] == StatOf(order[i], m[order[i]])
    requires forall d :: d in m ==> d in order
    requires forall i, j :: 0 <= i < j < |order| ==> order[i] != order[j]
    ensures forall i :: 0 <= i < |stats| ==>
              StatPair(stats[i]).Some? && StatPair(stats[i]).value in m
              && stats[i].count == m[StatPair(stats[i]).value]
    ensures forall d :: d in m ==> exists i :: 0 <= i < |stats| && StatPair(stats[i]) == Some(d)
    ensures forall i, j :: 0 <= i < j < |stats| ==> StatPair(stats[i]) != StatPair(stats[j])
  {
    forall i | 0 <= i < |stats| ensures StatPair(stats[i]) == Some(order[i]) {
      StatNamesPair(order[i], m[order[i]]);
    }
    forall d | d in m ensures exists i :: 0 <= i < |stats| && StatPair(stats[i]) == Some(d) {
      var i :| 0 <= i < |order| && order[i] == d;
      assert StatPair(stats[i]) == Some(d);
    }
  }

  /** `generate_report`: one stat per counted pair, with its count, and the
      phone, out-of-vocabulary and sentence-length counts carried over (the
      phones printed in the ARPABET notation). The source lists the pairs in
      the map's key order; here the order is left open. */
  method GenerateReport(g: Generator) returns (r: Report)
    ensures r.oov == g.oov && r.sentenceLengths == g.sentenceLengths
    ensures forall u :: Count(r.phonemes, PhoneticUnitToString(u)) == Count(g.phonemes, u)
    ensures r.phonemes.Keys == set u | u in g.phonemes :: PhoneticUnitToString(u)
    ensures |r.diphones| == |g.diphones|
    ensures forall i :: 0 <= i < |r.diphones| ==>
              StatPair(r.diphones[i]).Some? && StatPair(r.diphones[i]).value in g.diphones
              && r.diphones[i].count == g.diphones[StatPair(r.diphones[i]).value]
    ensures forall d :: d in g.diphones ==> exists i :: 0 <= i < |r.diphones| && StatPair(r.diphones[i]) == Some(d)
    ensures forall i, j :: 0 <= i < j < |r.diphones| ==> StatPair(r.diphones[i]) != StatPair(r.diphones[j])
  {
    var stats := ListDiphones(g.diphones);
    PrintedCountsAll(g.phonemes);
    r := Report(stats, PrintedCounts(g.phonemes), g.oov, g.sentenceLengths);
  }

  /** The diphone part of the report: the map's keys taken one at a time, in
      an order left open, each printed with its count. */
  method ListDiphones(m: map<Diphone, nat>) returns (stats: seq<DiphoneStat>)
    ensures |stats| == |m|
    ensures forall i :: 0 <= i < |stats| ==>
              StatPair(stats[i]).Some? && StatPair(stats[i]).value in m
              && stats[i].count == m[StatPair(stats[i]).value]
    ensures forall d :: d in m ==> exists i :: 0 <= i < |stats| && StatPair(stats[i]) == Some(d)
    ensures forall i, j :: 0 <= i < j < |stats| ==> StatPair(stats[i]) != StatPair(stats[j])
  {
    var rest := m.Keys;
    stats := [];
    ghost var order: seq<Diphone> := [];
    while rest != {}
      invariant rest <= m.Keys
      invariant |stats| == |order| && |order| + |rest| == |m|
      invariant forall i :: 0 <= i < |order| ==>
                  order[i] in m && order[i] !in rest && stats[i] == StatOf(order[i], m[order[i]])
      invariant forall d :: d in m && d !in rest ==> d in order
      invariant forall i, j :: 0 <= i < j < |order| ==> order[i] != order[j]
      decreases |rest|
    {
      var d :| d in rest;
      stats := stats + [StatOf(d, m[d])];
      order := order + [d];
      rest := rest - {d};
    }
    StatsOfListing(stats, order, m);
  }
}
