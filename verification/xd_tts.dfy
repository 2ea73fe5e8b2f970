/** The top-level synthesis loop of the library (src/lib.rs): the
    normalised text is turned into units, and the units are sent to the
    acoustic model in batches cut at every break, with a stretch of silence
    written for each break. */
module XdTts {
  import opened Outcomes
  import opened Seqs
  import opened Phonemes
  import TextNormaliser

  /** What synthesis does, in order: run the model (and vocoder) on a batch
      of units, or write silence for a break. */
  datatype Action = ModelCall(units: seq<Unit>) | WriteSilence(millis: nat)

  /** `XdTts::infer` returns straight away on an empty batch. */
  function Flush(batch: seq<Unit>): (r: seq<Action>)
    ensures |batch| == 0 ==> r == []
    ensures |batch| > 0 ==> r == [ModelCall(batch)]
  {
    if |batch| == 0 then [] else [ModelCall(batch)]
  }

  /** The loop of `generate_audio` over the drained chunks: pronunciations
      and punctuation accumulate in `batch`, a break flushes the batch and
      writes its silence, and the end flushes what is left. */
  function PlanFrom(cs: seq<TextNormaliser.Chunk>, batch: seq<Unit>): (r: seq<Action>)
    requires TextNormaliser.NoText(cs)
    ensures forall k :: 0 <= k < |r| && r[k].ModelCall? ==> |r[k].units| > 0
    decreases |cs|
  {
    if |cs| == 0 then Flush(batch)
    else
      match cs[0]
      case Pronunciation(us) => PlanFrom(cs[1..], batch + us)
      case Punct(p) => PlanFrom(cs[1..], batch + [Unit.Punct(p)])
      case Break(ms) => Flush(batch) + [WriteSilence(ms)] + PlanFrom(cs[1..], [])
      case Text(_) => assert false; Flush(batch)
  }

  // ---------------------------------------------------------------------
  // The plan read back

  /** The units a chunk contributes to the model input. */
  function UnitsOf(c: TextNormaliser.Chunk): seq<Unit> {
    match c
    case Pronunciation(us) => us
    case Punct(p) => [Unit.Punct(p)]
    case _ => []
  }

  /** The model input between consecutive breaks, starting with `current`:
      one group more than there are breaks. */
  function Groups(cs: seq<TextNormaliser.Chunk>, current: seq<Unit>): (r: seq<seq<Unit>>)
    ensures |r| == Breaks(cs) + 1
    decreases |cs|
  {
    if |cs| == 0 then [current]
    else if cs[0].Break? then [current] + Groups(cs[1..], [])
    else Groups(cs[1..], current + UnitsOf(cs[0]))
  }

  function Breaks(cs: seq<TextNormaliser.Chunk>): nat
    decreases |cs|
  {
    if |cs| == 0 then 0 else (if cs[0].Break? then 1 else 0) + Breaks(cs[1..])
  }

  function BreakTimes(cs: seq<TextNormaliser.Chunk>): seq<nat>
    decreases |cs|
  {
    if |cs| == 0 then [] else (if cs[0].Break? then [cs[0].millis] else []) + BreakTimes(cs[1..])
  }

  function NonEmpty(gs: seq<seq<Unit>>): seq<seq<Unit>>
    decreases |gs|
  {
    if |gs| == 0 then [] else (if |gs[0]| > 0 then [gs[0]] else []) + NonEmpty(gs[1..])
  }

  /** The batches sent to the model and the silences written, in order. */
  function Calls(plan: seq<Action>): seq<seq<Unit>>
    decreases |plan|
  {
    if |plan| == 0 then [] else (if plan[0].ModelCall? then [plan[0].units] else []) + Calls(plan[1..])
  }

  function Silences(plan: seq<Action>): seq<nat>
    decreases |plan|
  {
    if |plan| == 0 then [] else (if plan[0].WriteSilence? then [plan[0].millis] else []) + Silences(plan[1..])
  }

  lemma {:induction false} CallsAppend(a: seq<Action>, b: seq<Action>)
    ensures Calls(a + b) == Calls(a) + Calls(b)
    ensures Silences(a + b) == Silences(a) + Silences(b)
    decreases |a|
  {
    if |a| > 0 {
      CallsAppend(a[1..], b);
      assert (a + b)[1..] == a[1..] + b;
    } else {
      assert a + b == b;
    }
  }

  lemma FlushCalls(batch: seq<Unit>)
    ensures Calls(Flush(batch)) == NonEmpty([batch])
    ensures Silences(Flush(batch)) == []
  {
    assert [batch][1..] == [];
    if |batch| > 0 {
      assert Flush(batch)[1..] == [];
    }
  }

  lemma {:induction false} NonEmptyAppend(a: seq<seq<Unit>>, b: seq<seq<Unit>>)
    ensures NonEmpty(a + b) == NonEmpty(a) + NonEmpty(b)
    decreases |a|
  {
    if |a| > 0 {
      NonEmptyAppend(a[1..], b);
      assert (a + b)[1..] == a[1..] + b;
    } else {
      assert a + b == b;
    }
  }

  /** A break flushes the batch before its silence: the model is called on
      exactly the non-empty groups of units between breaks, and the
      silences are the breaks' durations, in order. */
  lemma {:induction false} PlanReadBack(cs: seq<TextNormaliser.Chunk>, batch: seq<Unit>)
    requires TextNormaliser.NoText(cs)
    ensures Calls(PlanFrom(cs, batch)) == NonEmpty(Groups(cs, batch))
    ensures Silences(PlanFrom(cs, batch)) == BreakTimes(cs)
    decreases |cs|
  {
    if |cs| == 0 {
      FlushCalls(batch);
    } else {
      var rest := cs[1..];
      assert TextNormaliser.NoText(rest) by { assert forall k | 0 <= k < |rest| :: rest[k] == cs[k + 1]; }
      match cs[0]
      case Pronunciation(us) =>
        PlanReadBack(rest, batch + us);
      case Punct(p) =>
        PlanReadBack(rest, batch + [Unit.Punct(p)]);
      case Break(ms) =>
        PlanReadBack(rest, []);
        var tail := PlanFrom(rest, []);
        CallsAppend(Flush(batch) + [WriteSilence(ms)], tail);
        CallsAppend(Flush(batch), [WriteSilence(ms)]);
        FlushCalls(batch);
        assert Calls([WriteSilence(ms)]) == [] && Silences([WriteSilence(ms)]) == [ms] by {
          assert [WriteSilence(ms)][1..] == [];
        }
        NonEmptyAppend([batch], Groups(rest, []));
      case Text(_) =>
        assert false;
    }
  }

  /** Splitting at the breaks loses no unit: the groups together are the
      pending batch followed by every pronunciation unit and punctuation
      mark, in input order. */
  lemma {:induction false} GroupsFlatten(cs: seq<TextNormaliser.Chunk>, current: seq<Unit>)
    ensures Flatten(Groups(cs, current)) == current + Flatten(seq(|cs|, k requires 0 <= k < |cs| => UnitsOf(cs[k])))
    decreases |cs|
  {
    var all := seq(|cs|, k requires 0 <= k < |cs| => UnitsOf(cs[k]));
    if |cs| == 0 {
      assert Flatten(Groups(cs, current)) == current + [];
    } else {
      var rest := seq(|cs| - 1, k requires 0 <= k < |cs| - 1 => UnitsOf(cs[1..][k]));
      assert all == [UnitsOf(cs[0])] + rest;
      assert Flatten(all) == UnitsOf(cs[0]) + Flatten(rest);
      if cs[0].Break? {
        GroupsFlatten(cs[1..], []);
        assert UnitsOf(cs[0]) == [];
        assert Groups(cs, current) == [current] + Groups(cs[1..], []);
        assert [] + Flatten(rest) == Flatten(rest);
      } else {
        GroupsFlatten(cs[1..], current + UnitsOf(cs[0]));
      }
    }
  }

  /** Empty groups are dropped, so the calls carry the same units. */
  lemma {:induction false} NonEmptyFlatten(gs: seq<seq<Unit>>)
    ensures Flatten(NonEmpty(gs)) == Flatten(gs)
    ensures |NonEmpty(gs)| <= |gs|
    decreases |gs|
  {
    if |gs| > 0 {
      NonEmptyFlatten(gs[1..]);
      if |gs[0]| > 0 {
        assert Flatten(NonEmpty(gs)) == gs[0] + Flatten(NonEmpty(gs[1..]));
      } else {
        assert gs[0] == [];
        var empty: seq<seq<Unit>> := [];
        assert NonEmpty(gs) == empty + NonEmpty(gs[1..]) == NonEmpty(gs[1..]);
        assert Flatten(gs) == gs[0] + Flatten(gs[1..]) == Flatten(gs[1..]);
      }
    }
  }

  /** The model sees every unit once, in order, never an empty batch, and is
      called at most once more than there are breaks. */
  lemma PlanCoversInput(cs: seq<TextNormaliser.Chunk>)
    requires TextNormaliser.NoText(cs)
    ensures Flatten(Calls(PlanFrom(cs, []))) == Flatten(seq(|cs|, k requires 0 <= k < |cs| => UnitsOf(cs[k])))
    ensures |Calls(PlanFrom(cs, []))| <= Breaks(cs) + 1
    ensures Silences(PlanFrom(cs, [])) == BreakTimes(cs)
  {
    PlanReadBack(cs, []);
    NonEmptyFlatten(Groups(cs, []));
    GroupsFlatten(cs, []);
    var all := Flatten(seq(|cs|, k requires 0 <= k < |cs| => UnitsOf(cs[k])));
    assert [] + all == all;
  }

  /** Two breaks in a row write two silences with no model call between. */
  lemma AdjacentBreaks(a: nat, b: nat, rest: seq<TextNormaliser.Chunk>)
    requires TextNormaliser.NoText(rest)
    ensures TextNormaliser.NoText([TextNormaliser.Break(a), TextNormaliser.Break(b)] + rest)
    ensures PlanFrom([TextNormaliser.Break(a), TextNormaliser.Break(b)] + rest, [])
         == [WriteSilence(a), WriteSilence(b)] + PlanFrom(rest, [])
  {
    var cs := [TextNormaliser.Break(a), TextNormaliser.Break(b)] + rest;
    assert cs[1..] == [TextNormaliser.Break(b)] + rest;
    assert cs[1..][1..] == rest;
  }

  // ---------------------------------------------------------------------
  // `generate_audio`

  /** `generate_audio`: the text is normalised (`normalise` stands for
      `text_normaliser::normalise`), turned into phones through the
      dictionary when the model takes phoneme input and into characters
      otherwise, and planned as above. */
  function GenerateAudio(text: string, normalise: string -> Result<TextNormaliser.NormalisedText>,
                         phonemeInput: bool, lookup: TextNormaliser.Lookup): (r: Result<seq<Action>>)
    ensures normalise(text).Err? ==> r == Err(normalise(text).error)
    ensures !phonemeInput && normalise(text).Ok? ==> r.Ok?
    ensures phonemeInput && normalise(text).Ok? ==>
              (r.Err? <==> TextNormaliser.WordsToPronunciation(normalise(text).value, lookup).Err?)
  {
    match normalise(text)
    case Err(e) => Err(e)
    case Ok(t) =>
      match Spoken(t, phonemeInput, lookup)
      case Err(e) => Err(e)
      case Ok(s) =>
        var cs := TextNormaliser.DrainAll(s).0;
        assert TextNormaliser.NoText(cs);
        Ok(PlanFrom(cs, []))
  }

  /** Running a plan with a model that fails on some batches (`fails`):
      synthesis stops at the first failing call, having carried out
      everything before it. */
  function Perform(plan: seq<Action>, fails: seq<Unit> -> bool): (r: (seq<Action>, bool))
    ensures r.1 <==> forall k :: 0 <= k < |plan| && plan[k].ModelCall? ==> !fails(plan[k].units)
    ensures r.1 ==> r.0 == plan
    ensures !r.1 ==> (0 < |r.0| <= |plan| && r.0 == plan[..|r.0|]
                      && r.0[|r.0| - 1].ModelCall? && fails(r.0[|r.0| - 1].units)
                      && forall k :: 0 <= k < |r.0| - 1 && plan[k].ModelCall? ==> !fails(plan[k].units))
    decreases |plan|
  {
    if |plan| == 0 then ([], true)
    else if plan[0].ModelCall? && fails(plan[0].units) then ([plan[0]], false)
    else
      var (done, ok) := Perform(plan[1..], fails);
      assert forall k | 0 < k < |plan| :: plan[k] == plan[1..][k - 1];
      ([plan[0]] + done, ok)
  }

  /** The chunks the plan is built from: the normalised text after the
      dictionary or character rewrite. */
  function Spoken(t: TextNormaliser.NormalisedText, phonemeInput: bool, lookup: TextNormaliser.Lookup): Result<TextNormaliser.NormalisedText> {
    if phonemeInput then TextNormaliser.WordsToPronunciation(t, lookup) else Ok(TextNormaliser.ConvertToUnits(t))
  }

  /** A rewrite that keeps every break where it was and makes no new break
      keeps the break durations. */
  lemma {:induction false} BreakTimesKept(a: seq<TextNormaliser.Chunk>, b: seq<TextNormaliser.Chunk>)
    requires |a| == |b|
    requires forall k :: 0 <= k < |a| ==> (a[k].Break? <==> b[k].Break?)
    requires forall k :: 0 <= k < |a| && a[k].Break? ==> b[k] == a[k]
    ensures BreakTimes(a) == BreakTimes(b)
    ensures Breaks(a) == Breaks(b)
    decreases |a|
  {
    if |a| > 0 {
      assert forall k | 0 < k < |a| :: a[k] == a[1..][k - 1] && b[k] == b[1..][k - 1];
      BreakTimesKept(a[1..], b[1..]);
    }
  }

  /** What `generate_audio` does with a text it accepts: one silence per
      break of the normalised text, with the break's duration and in order;
      at most one model call more than there are breaks; and the calls
      together carry every unit of the rewritten text, in order. */
  lemma GenerateAudioPlan(text: string, normalise: string -> Result<TextNormaliser.NormalisedText>,
                          phonemeInput: bool, lookup: TextNormaliser.Lookup)
    requires GenerateAudio(text, normalise, phonemeInput, lookup).Ok?
    ensures normalise(text).Ok? && Spoken(normalise(text).value, phonemeInput, lookup).Ok?
    ensures Silences(GenerateAudio(text, normalise, phonemeInput, lookup).value) == BreakTimes(normalise(text).value.chunks)
    ensures |Calls(GenerateAudio(text, normalise, phonemeInput, lookup).value)| <= Breaks(normalise(text).value.chunks) + 1
    ensures var cs := Spoken(normalise(text).value, phonemeInput, lookup).value.chunks;
            Flatten(Calls(GenerateAudio(text, normalise, phonemeInput, lookup).value))
              == Flatten(seq(|cs|, k requires 0 <= k < |cs| => UnitsOf(cs[k])))
  {
    var t := normalise(text).value;
    var cs := Spoken(t, phonemeInput, lookup).value.chunks;
    assert TextNormaliser.NoText(cs);
    PlanCoversInput(cs);
    if phonemeInput {
      forall k | 0 <= k < |t.chunks| && t.chunks[k].Text? ensures cs[k].Pronunciation? {
        assert TextNormaliser.WordsChunk(t.chunks[k], lookup) == Ok(cs[k]);
      }
    }
    BreakTimesKept(t.chunks, cs);
  }
}
