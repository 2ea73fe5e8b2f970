/** Inference orchestration of `src/tacotron2/mod.rs`: the model's fixed
    vocabulary, the cutting of the index sequence into chunks at the
    splitter's offsets, the padding of each chunk, the decoder state and the
    autoregressive decode loop. The three ONNX networks are oracles carried
    in an `Engine` value. */
module Tacotron2 {
  import opened Outcomes
  import opened Seqs
  import opened Phonemes
  import opened ChunkSplitter

  // ---------------------------------------------------------------------
  // Vocabulary (`generate_id_list`)

  /** The punctuation entries, in the order they follow `Padding`. */
  const PunctuationIds: seq<Punctuation> :=
    [Dash, ExclamationMark, Apostrophe, OpenBracket, CloseBracket, Comma, FullStop, Colon, SemiColon, QuestionMark]

  const Letters: string := "ABCDEFGHIJKLMNOPQRSTUVWXYZabcdefghijklmnopqrstuvwxyz"

  /** The phones of the vocabulary, in the order the list gives them (the
      declaration order of `ArpaPhone`). */
  const AllPhones: seq<ArpaPhone> :=
    [Aa, Ae, Ah, Ao, Aw, Ay, B, Ch, D, Dh, Eh, Er, Ey, F, G, Hh, Ih, Iy, Jh, K,
     L, M, N, Ng, Ow, Oy, P, R, S, Sh, T, Th, Uh, Uw, V, W, Y, Z, Zh]

  /** The phones the list spells bare and with each of the stress markers
      0, 1 and 2. */
  predicate IsVowel(p: ArpaPhone) {
    p.Aa? || p.Ae? || p.Ah? || p.Ao? || p.Aw? || p.Ay? || p.Eh? || p.Er? || p.Ey?
    || p.Ih? || p.Iy? || p.Ow? || p.Oy? || p.Uh? || p.Uw?
  }

  /** The entries the list has for one phone: `AA AA0 AA1 AA2` for a vowel,
      just `B` for a consonant. */
  function Variants(p: ArpaPhone): (vs: seq<PhoneticUnit>)
    ensures |vs| >= 1 && vs[0] == PhoneticUnit(p, None)
    ensures forall k :: 0 <= k < |vs| ==> vs[k].phone == p
  {
    if IsVowel(p) then
      [PhoneticUnit(p, None), PhoneticUnit(p, Some(NoStress)),
       PhoneticUnit(p, Some(PrimaryStress)), PhoneticUnit(p, Some(SecondaryStress))]
    else [PhoneticUnit(p, None)]
  }

  function Entries(ps: seq<ArpaPhone>): seq<PhoneticUnit> {
    if |ps| == 0 then [] else Variants(ps[0]) + Entries(ps[1..])
  }

  /** The ARPABET spellings of the phone part of the list, as the source
      writes them out. */
  function Spellings(es: seq<PhoneticUnit>): seq<string> {
    if |es| == 0 then [] else [PhoneticUnitToString(es[0])] + Spellings(es[1..])
  }

  function PhoneUnits(es: seq<PhoneticUnit>): (us: seq<Unit>)
    ensures |us| == |es| && forall k :: 0 <= k < |es| ==> us[k] == Phone(es[k])
  {
    if |es| == 0 then [] else [Phone(es[0])] + PhoneUnits(es[1..])
  }

  /** `Unit::from_str(x).unwrap()` over a list of strings; `None` where the
      `unwrap` panics. */
  function ParseUnits(strs: seq<string>): (r: Option<seq<Unit>>)
    ensures r.Some? ==> |r.value| == |strs|
  {
    if |strs| == 0 then Some([])
    else match UnitFromStr(strs[0])
      case Parsed(u) =>
        (match ParseUnits(strs[1..])
         case None => None
         case Some(rest) => Some([u] + rest))
      case _ => None
  }

  /** `Padding`, the ten punctuation marks, `Space` and the 52 ASCII letters. */
  function PunctUnits(ps: seq<Punctuation>): (us: seq<Unit>)
    ensures |us| == |ps| && forall k :: 0 <= k < |ps| ==> us[k] == Punct(ps[k])
  {
    if |ps| == 0 then [] else [Punct(ps[0])] + PunctUnits(ps[1..])
  }

  function CharacterUnits(cs: string): (us: seq<Unit>)
    ensures |us| == |cs| && forall k :: 0 <= k < |cs| ==> us[k] == Character(cs[k])
  {
    if |cs| == 0 then [] else [Character(cs[0])] + CharacterUnits(cs[1..])
  }

  function PrefixWith(ps: seq<Punctuation>, cs: string): seq<Unit> {
    [Padding] + PunctUnits(ps) + [Space] + CharacterUnits(cs)
  }

  const Prefix: seq<Unit> := PrefixWith(PunctuationIds, Letters)

  /** `generate_id_list`: fails only where a phone spelling does not parse. */
  function GenerateIdList(): Result<seq<Unit>> {
    match ParseUnits(Spellings(Entries(AllPhones)))
    case None => Err(Panic("called `Result::unwrap()` on an `Err` value"))
    case Some(phones) => Ok(Prefix + phones)
  }

  /** A vocabulary made of `pre` followed by the phone entries `es`. */
  function VocabularyWith(pre: seq<Unit>, es: seq<PhoneticUnit>): seq<Unit> {
    pre + PhoneUnits(es)
  }

  /** The vocabulary as it is once built. */
  const IdList: seq<Unit> := VocabularyWith(Prefix, Entries(AllPhones))

  /** Printing a phone entry and parsing it back gives the entry. */
  lemma {:induction false} ParseSpellings(es: seq<PhoneticUnit>)
    ensures ParseUnits(Spellings(es)) == Some(PhoneUnits(es))
  {
    if |es| > 0 {
      ParseSpellings(es[1..]);
      UnitRoundTripPhone(es[0]);
      assert Spellings(es)[1..] == Spellings(es[1..]);
      assert PhoneUnits(es) == [Phone(es[0])] + PhoneUnits(es[1..]);
    }
  }

  /** Building the list never panics: every spelling parses as its phone. */
  lemma GenerateIdListBuilds()
    ensures GenerateIdList() == Ok(IdList)
  {
    ParseSpellings(Entries(AllPhones));
  }

  /** Index 0 is `Padding`, 1 to 10 the punctuation marks, 11 `Space` and
      12 to 63 the letters `A` to `Z` and `a` to `z`; none of them is a
      phone or `Unk`. */
  lemma PrefixLayout()
    ensures |Prefix| == 64
    ensures Prefix[0] == Padding && Prefix[11] == Space
    ensures forall k :: 0 <= k < 10 ==> Prefix[1 + k] == Punct(PunctuationIds[k])
    ensures forall k :: 0 <= k < 52 ==> Prefix[12 + k] == Character(Letters[k])
    ensures forall k :: 0 <= k < 64 ==> !Prefix[k].Phone? && !Prefix[k].Unk?
  {
    PrefixShape(PunctuationIds, Letters);
  }

  lemma PrefixShape(ps: seq<Punctuation>, cs: string)
    ensures var pre := PrefixWith(ps, cs);
      && |pre| == |ps| + |cs| + 2
      && pre[0] == Padding && pre[|ps| + 1] == Space
      && (forall k :: 0 <= k < |ps| ==> pre[1 + k] == Punct(ps[k]))
      && (forall k :: 0 <= k < |cs| ==> pre[|ps| + 2 + k] == Character(cs[k]))
      && (forall k :: 0 <= k < |pre| ==> !pre[k].Phone? && !pre[k].Unk?)
  {
    var pre := PrefixWith(ps, cs);
    var p := PunctUnits(ps);
    var c := CharacterUnits(cs);
    forall k | 0 <= k < |pre|
      ensures !pre[k].Phone? && !pre[k].Unk?
    {
      if 1 <= k <= |ps| {
        assert pre[k] == p[k - 1];
      } else if |ps| + 2 <= k {
        assert pre[k] == c[k - |ps| - 2];
      }
    }
  }

  /** What the lookups rely on in the part of the list before the phones:
      no phone, no `Unk`, and exactly the characters of `letters`. */
  ghost predicate PrefixShaped(pre: seq<Unit>, letters: string) {
    && Padding in pre && Space in pre && (forall p: Punctuation :: Punct(p) in pre)
    && (forall k :: 0 <= k < |pre| ==> !pre[k].Phone? && !pre[k].Unk?)
    && (forall k :: 0 <= k < |pre| && pre[k].Character? ==> pre[k].ch in letters)
    && (forall k :: 0 <= k < |letters| ==> Character(letters[k]) in pre)
  }

  lemma PrefixWithShaped(ps: seq<Punctuation>, cs: string)
    requires forall p: Punctuation :: p in ps
    ensures PrefixShaped(PrefixWith(ps, cs), cs)
  {
    var pre := PrefixWith(ps, cs);
    PrefixShape(ps, cs);
    assert pre[0] == Padding && pre[|ps| + 1] == Space;
    forall p: Punctuation
      ensures Punct(p) in pre
    {
      assert p in ps;
      var k :| 0 <= k < |ps| && ps[k] == p;
      assert pre[1 + k] == Punct(p);
    }
    forall k | 0 <= k < |pre| && pre[k].Character?
      ensures pre[k].ch in cs
    {
      var n := |ps| + 2;
      if k >= n {
        assert pre[n + (k - n)] == Character(cs[k - n]);
      }
    }
    forall k | 0 <= k < |cs|
      ensures Character(cs[k]) in pre
    {
      assert pre[|ps| + 2 + k] == Character(cs[k]);
    }
  }

  lemma PrefixIsShaped()
    ensures PrefixShaped(Prefix, Letters)
  {
    forall p: Punctuation
      ensures p in PunctuationIds
    {
      PunctuationListed(p);
    }
    PrefixWithShaped(PunctuationIds, Letters);
  }

  /** Within the phone part, the first entry of each phone is its bare
      spelling. */
  lemma {:induction false} FirstEntryBare(ps: seq<ArpaPhone>, j: nat, p: ArpaPhone)
    requires j < |Entries(ps)| && Entries(ps)[j].phone == p
    requires forall i :: 0 <= i < j ==> Entries(ps)[i].phone != p
    ensures Entries(ps)[j].context.None?
  {
    var vs := Variants(ps[0]);
    var rest := Entries(ps[1..]);
    assert Entries(ps) == vs + rest;
    if j >= |vs| {
      var j' := j - |vs|;
      assert Entries(ps)[j] == rest[j'];
      forall i | 0 <= i < j'
        ensures rest[i].phone != p
      {
        assert Entries(ps)[|vs| + i] == rest[i];
      }
      FirstEntryBare(ps[1..], j', p);
    } else {
      assert Entries(ps)[0] == vs[0];
    }
  }

  /** Every phone of `ps` has an entry. */
  lemma {:induction false} EntriesCover(ps: seq<ArpaPhone>, p: ArpaPhone) returns (j: nat)
    requires p in ps
    ensures j < |Entries(ps)| && Entries(ps)[j].phone == p
  {
    var vs := Variants(ps[0]);
    assert Entries(ps) == vs + Entries(ps[1..]);
    if ps[0] == p {
      j := 0;
    } else {
      var j' := EntriesCover(ps[1..], p);
      j := |vs| + j';
    }
  }

  lemma PunctuationListed(p: Punctuation)
    ensures p in PunctuationIds
  {
  }

  lemma AllPhonesListed(p: ArpaPhone)
    ensures p in AllPhones
  {
  }

  /** No vocabulary with a shaped prefix has an `Unk` entry. */
  lemma UnkAbsent(pre: seq<Unit>, es: seq<PhoneticUnit>)
    requires PrefixShaped(pre, Letters)
    ensures BestMatchForUnit(Unk, VocabularyWith(pre, es)) == None
  {
    var list := VocabularyWith(pre, es);
    forall j | 0 <= j < |list|
      ensures list[j] != Unk
    {
      if j >= |pre| {
        assert list[j] == PhoneUnits(es)[j - |pre|];
      } else {
        assert list[j] == pre[j];
      }
    }
  }

  /** An unknown unit gets no index. */
  lemma UnkHasNoId()
    ensures BestMatchForUnit(Unk, IdList) == None
  {
    PrefixIsShaped();
    UnkAbsent(Prefix, Entries(AllPhones));
  }

  /** A character has an index in a vocabulary with a shaped prefix exactly
      when it is an ASCII letter. */
  lemma CharacterIds(pre: seq<Unit>, es: seq<PhoneticUnit>, c: char)
    requires PrefixShaped(pre, Letters)
    ensures BestMatchForUnit(Character(c), VocabularyWith(pre, es)).Some? <==> c in Letters
  {
    var list := VocabularyWith(pre, es);
    if c in Letters {
      var k :| 0 <= k < |Letters| && Letters[k] == c;
      assert Character(Letters[k]) in pre;
      var i :| 0 <= i < |pre| && pre[i] == Character(c);
      assert list[i] == Character(c);
    }
    if BestMatchForUnit(Character(c), list).Some? {
      var j := BestMatchForUnit(Character(c), list).value;
      assert list[j] == Character(c);
      if j < |pre| {
        assert list[j] == pre[j];
      }
    }
  }

  /** In a vocabulary whose prefix holds no phone, the first entry with a
      given phone is its bare spelling. */
  lemma FirstPhoneEntryBare(pre: seq<Unit>, ps: seq<ArpaPhone>, q: PhoneticUnit, r: nat)
    requires forall k :: 0 <= k < |pre| ==> !pre[k].Phone?
    requires r < |VocabularyWith(pre, Entries(ps))|
    requires SamePhone(VocabularyWith(pre, Entries(ps))[r], q)
    requires forall j :: 0 <= j < r ==> !SamePhone(VocabularyWith(pre, Entries(ps))[j], q)
    ensures VocabularyWith(pre, Entries(ps))[r] == Phone(PhoneticUnit(q.phone, None))
  {
    var es := Entries(ps);
    var list := VocabularyWith(pre, es);
    var n := |pre|;
    assert r >= n;
    forall i | 0 <= i < r - n
      ensures es[i].phone != q.phone
    {
      assert list[n + i] == Phone(es[i]);
    }
    assert list[r] == Phone(es[r - n]);
    FirstEntryBare(ps, r - n, q.phone);
  }

  /** A phone query against a vocabulary whose phone part lists `q`'s phone
      gets an entry with that phone; an unmarked query gets the bare entry,
      a query with an entry of its own gets exactly that entry. */
  lemma PhoneIds(pre: seq<Unit>, ps: seq<ArpaPhone>, q: PhoneticUnit)
    requires forall k :: 0 <= k < |pre| ==> !pre[k].Phone?
    requires q.phone in ps
    ensures var list := VocabularyWith(pre, Entries(ps));
      var r := BestMatchForUnit(Phone(q), list);
      && r.Some? && r.value < |list| && SamePhone(list[r.value], q)
      && (q.context.None? ==> list[r.value] == Phone(q))
      && (Phone(q) in list ==> list[r.value] == Phone(q))
  {
    var es := Entries(ps);
    var list := VocabularyWith(pre, es);
    var j := EntriesCover(ps, q.phone);
    assert list[|pre| + j] == Phone(es[j]);
    BestMatchForPhone(q, list);
    if q.context.None? {
      FirstPhoneEntryBare(pre, ps, q, BestMatchForUnit(Phone(q), list).value);
    }
  }

  /** The tacotron2 list is built as the lemmas above assume: a prefix
      (shaped, by `PrefixIsShaped`) followed by the entries of every phone
      (`AllPhonesListed`). */
  lemma IdListBuilt()
    ensures IdList == VocabularyWith(Prefix, Entries(AllPhones))
  {
  }

  // ---------------------------------------------------------------------
  // Arrays and the networks

  /** A two-dimensional `f32` array, kept as its rows; `cols` is the second
      dimension, which an array without rows still has. */
  datatype Mat = Mat(cols: nat, rows: seq<seq<real>>)

  /** An array of any rank; only its shape matters here. */
  datatype Tensor = Tensor(shape: seq<nat>, data: seq<real>)

  /** `Array2::zeros((0, 0))`. */
  const NoRows: Mat := Mat(0, [])

  function Zeros(r: nat, c: nat): (m: Mat)
    ensures m.cols == c && |m.rows| == r
    ensures forall i :: 0 <= i < r ==> |m.rows[i]| == c
    ensures forall i, j :: 0 <= i < r && 0 <= j < c ==> m.rows[i][j] == 0.0
  {
    Mat(c, seq(r, i => seq(c, j => 0.0)))
  }

  /** `ArrayBase::is_empty`: no elements at all. */
  predicate IsEmpty(m: Mat) {
    |m.rows| == 0 || m.cols == 0
  }

  /** `concatenate(Axis(0), [a, b])`: `b`'s rows under `a`'s; the widths must
      agree, otherwise the error carries `context`. */
  function ConcatRows(a: Mat, b: Mat, context: string): (r: Result<Mat>)
    ensures r.Ok? <==> a.cols == b.cols
  {
    if a.cols != b.cols then Err(EngineFailure(context)) else Ok(Mat(a.cols, a.rows + b.rows))
  }

  /** `concatenate(Axis(1), [a, b])`: each row of `a` continued by the row of
      `b` beside it; the row counts must agree. */
  function ConcatCols(a: Mat, b: Mat, context: string): (r: Result<Mat>)
    ensures r.Ok? <==> |a.rows| == |b.rows|
  {
    if |a.rows| != |b.rows| then Err(EngineFailure(context))
    else Ok(Mat(a.cols + b.cols, seq(|a.rows|, i requires 0 <= i < |a.rows| => a.rows[i] + b.rows[i])))
  }

  const AttentionRnnDim: nat := 1024
  const DecoderRnnDim: nat := 1024
  const EncoderEmbeddingDim: nat := 512
  const MelChannels: nat := 80

  /** The recurrent state threaded through the decoder network; `mask`
      has one row, `true` over the padding. */
  datatype DecoderState = DecoderState(
    attentionHidden: Mat, attentionCell: Mat, decoderHidden: Mat, decoderCell: Mat,
    attentionWeights: Mat, attentionWeightsCum: Mat, attentionContext: Mat,
    decoderInput: Mat, mask: seq<seq<bool>>)

  /** `DecoderState::new`: zero state for a batch of `shape[0]` sequences of
      `shape[1]` encoder steps, of which the first `unpaddedLen` are input.
      Fails where Rust panics: a memory of rank below 2, or a mask slice
      starting past its end. */
  function NewDecoderState(shape: seq<nat>, unpaddedLen: nat): (r: Result<DecoderState>)
    ensures r.Ok? <==> |shape| >= 2 && unpaddedLen <= shape[1]
    ensures r.Err? ==> r.error.Panic?
    ensures r.Ok? ==> var st := r.value; var bs := shape[0];
      && |st.mask| == 1 && |st.mask[0]| == shape[1]
      && (forall j :: 0 <= j < shape[1] ==> (st.mask[0][j] <==> j >= unpaddedLen))
      && st.attentionHidden == Zeros(bs, AttentionRnnDim) && st.attentionCell == Zeros(bs, AttentionRnnDim)
      && st.decoderHidden == Zeros(bs, DecoderRnnDim) && st.decoderCell == Zeros(bs, DecoderRnnDim)
      && st.attentionWeights == Zeros(bs, shape[1]) && st.attentionWeightsCum == Zeros(bs, shape[1])
      && st.attentionContext == Zeros(bs, EncoderEmbeddingDim)
      && st.decoderInput == Zeros(bs, MelChannels)
  {
    if |shape| < 2 then Err(Panic("index out of bounds"))
    else if unpaddedLen > shape[1] then Err(Panic("slice begin is out of bounds"))
    else
      var bs := shape[0];
      var seqLen := shape[1];
      Ok(DecoderState(
        Zeros(bs, AttentionRnnDim), Zeros(bs, AttentionRnnDim),
        Zeros(bs, DecoderRnnDim), Zeros(bs, DecoderRnnDim),
        Zeros(bs, seqLen), Zeros(bs, seqLen), Zeros(bs, EncoderEmbeddingDim),
        Zeros(bs, MelChannels), [seq(seqLen, j => j >= unpaddedLen)]))
  }

  /** Number of `false` entries. */
  function CountUnmasked(row: seq<bool>): nat {
    if |row| == 0 then 0 else (if row[0] then 0 else 1) + CountUnmasked(row[1..])
  }

  /** The mask leaves exactly the unpadded positions open. */
  lemma {:induction false} MaskOpensInput(row: seq<bool>, unpaddedLen: nat)
    requires unpaddedLen <= |row|
    requires forall j :: 0 <= j < |row| ==> (row[j] <==> j >= unpaddedLen)
    ensures CountUnmasked(row) == unpaddedLen
  {
    if |row| > 0 {
      if unpaddedLen == 0 {
        MaskOpensInput(row[1..], 0);
      } else {
        MaskOpensInput(row[1..], unpaddedLen - 1);
      }
    }
  }

  /** The inputs the decoder network takes, by their ONNX names. */
  datatype DecoderInputs = DecoderInputs(
    decoderInput: Mat, attentionHidden: Mat, attentionCell: Mat,
    decoderHidden: Mat, decoderCell: Mat, attentionWeights: Mat,
    attentionWeightsCum: Mat, attentionContext: Mat,
    memory: Tensor, processedMemory: Tensor, mask: seq<seq<bool>>)

  /** What one decoder step yields: the mel frame, whether the gate's
      sigmoid exceeds 0.6, and the next recurrent state. */
  datatype DecoderOutputs = DecoderOutputs(
    decoderOutput: Mat, gateFires: bool,
    outAttentionHidden: Mat, outAttentionCell: Mat,
    outDecoderHidden: Mat, outDecoderCell: Mat, outAttentionWeights: Mat,
    outAttentionWeightsCum: Mat, outAttentionContext: Mat)

  /** The three networks, as oracles, and the vocabulary the model was
      trained on. A failing run, a failed tensor extraction and a
      dimensionality error all surface as an `Err` of the oracle. */
  datatype Engine = Engine(
    encoder: seq<nat> -> Result<seq<Tensor>>,
    decoder: DecoderInputs -> Result<DecoderOutputs>,
    postnet: Mat -> Result<Mat>,
    phonemeIds: seq<Unit>)

  // ---------------------------------------------------------------------
  // The decoder loop (`run_decoder`)

  const MaxDecoderSteps: nat := 1000

  function FirstInputs(memory: Tensor, processedMemory: Tensor, st: DecoderState): DecoderInputs {
    DecoderInputs(st.decoderInput, st.attentionHidden, st.attentionCell, st.decoderHidden,
      st.decoderCell, st.attentionWeights, st.attentionWeightsCum, st.attentionContext,
      memory, processedMemory, st.mask)
  }

  /** The inputs of the step after `prev`: each `out_*` output is fed back
      under its input name, the frame becomes `decoder_input`, and memory,
      processed memory and mask are passed again. */
  function NextInputs(prev: DecoderInputs, out: DecoderOutputs): DecoderInputs {
    DecoderInputs(out.decoderOutput, out.outAttentionHidden, out.outAttentionCell,
      out.outDecoderHidden, out.outDecoderCell, out.outAttentionWeights,
      out.outAttentionWeightsCum, out.outAttentionContext,
      prev.memory, prev.processedMemory, prev.mask)
  }

  /** Step `i` adds its frame to the spectrogram: the first frame becomes
      the spectrogram, later ones are stacked under it. */
  function JoinFrame(i: nat, mel: Mat, frame: Mat): Result<Mat> {
    if i == 0 then Ok(frame) else ConcatRows(mel, frame, "Joining decoder iter output")
  }

  /** The `for i in 0..max_decoder_steps` loop from step `i` on, `mel` being
      the spectrogram so far. */
  function DecodeFrom(net: Engine, inputs: DecoderInputs, i: nat, mel: Mat): Result<Mat>
    requires i < MaxDecoderSteps
    decreases MaxDecoderSteps - i
  {
    match net.decoder(inputs)
    case Err(e) => Err(e)
    case Ok(out) =>
      match JoinFrame(i, mel, out.decoderOutput)
      case Err(e) => Err(e)
      case Ok(m) =>
        if out.gateFires || i + 1 == MaxDecoderSteps then Ok(m)
        else DecodeFrom(net, NextInputs(inputs, out), i + 1, m)
  }

  /** `run_decoder`; the transposition before the postnet is part of the
      postnet oracle. */
  function RunDecoder(net: Engine, memory: Tensor, processedMemory: Tensor, st: DecoderState): Result<Mat> {
    match DecodeFrom(net, FirstInputs(memory, processedMemory, st), 0, NoRows)
    case Err(e) => Err(e)
    case Ok(mel) => net.postnet(mel)
  }

  /** Reference: `n` decoder steps run back to back, whatever the gate says. */
  function Unroll(net: Engine, inputs: DecoderInputs, n: nat): Result<seq<DecoderOutputs>>
    decreases n
  {
    if n == 0 then Ok([])
    else match net.decoder(inputs)
      case Err(e) => Err(e)
      case Ok(out) =>
        match Unroll(net, NextInputs(inputs, out), n - 1)
        case Err(e) => Err(e)
        case Ok(rest) => Ok([out] + rest)
  }

  /** Reference: the frames of `outs` stacked in step order, numbering the
      steps from `i`. */
  function Stack(i: nat, mel: Mat, outs: seq<DecoderOutputs>): Result<Mat>
    decreases |outs|
  {
    if |outs| == 0 then Ok(mel)
    else match JoinFrame(i, mel, outs[0].decoderOutput)
      case Err(e) => Err(e)
      case Ok(m) => Stack(i + 1, m, outs[1..])
  }

  /** The inputs of step `k` of a run whose outputs are `outs`. */
  function InputsAt(first: DecoderInputs, outs: seq<DecoderOutputs>, k: nat): DecoderInputs
    requires k <= |outs|
  {
    if k == 0 then first else NextInputs(InputsAt(first, outs, k - 1), outs[k - 1])
  }

  /** A successful decode is a run of 1 to 1000 steps in which only the
      last step's gate may fire, and which ends because it fired or because
      the step limit was reached; its spectrogram is that run's frames in
      step order. */
  lemma {:induction false} DecodeTrace(net: Engine, inputs: DecoderInputs, i: nat, mel: Mat) returns (outs: seq<DecoderOutputs>)
    requires i < MaxDecoderSteps && DecodeFrom(net, inputs, i, mel).Ok?
    ensures 1 <= |outs| <= MaxDecoderSteps - i
    ensures Unroll(net, inputs, |outs|) == Ok(outs)
    ensures forall k :: 0 <= k < |outs| - 1 ==> !outs[k].gateFires
    ensures outs[|outs| - 1].gateFires || i + |outs| == MaxDecoderSteps
    ensures Stack(i, mel, outs) == DecodeFrom(net, inputs, i, mel)
    decreases MaxDecoderSteps - i
  {
    var out := net.decoder(inputs).value;
    var m := JoinFrame(i, mel, out.decoderOutput).value;
    if out.gateFires || i + 1 == MaxDecoderSteps {
      outs := [out];
      assert Unroll(net, NextInputs(inputs, out), 0) == Ok([]);
      assert [out] + [] == outs;
      assert Stack(i + 1, m, outs[1..]) == Ok(m);
    } else {
      var rest := DecodeTrace(net, NextInputs(inputs, out), i + 1, m);
      outs := [out] + rest;
      assert outs[1..] == rest;
      assert Unroll(net, inputs, |outs|) == Ok([out] + rest);
    }
  }

  /** Conversely, a run that stops where the loop stops decides the
      outcome: the decode gives that run's stacked frames, or the error of
      stacking them. */
  lemma {:induction false} DecodeFollowsRun(net: Engine, inputs: DecoderInputs, i: nat, mel: Mat, outs: seq<DecoderOutputs>)
    requires 1 <= |outs| && i + |outs| <= MaxDecoderSteps
    requires Unroll(net, inputs, |outs|) == Ok(outs)
    requires forall k :: 0 <= k < |outs| - 1 ==> !outs[k].gateFires
    requires outs[|outs| - 1].gateFires || i + |outs| == MaxDecoderSteps
    ensures DecodeFrom(net, inputs, i, mel) == Stack(i, mel, outs)
    decreases |outs|
  {
    var out := outs[0];
    assert net.decoder(inputs) == Ok(out);
    var rest := Unroll(net, NextInputs(inputs, out), |outs| - 1).value;
    assert outs == [out] + rest;
    if |outs| > 1 {
      match JoinFrame(i, mel, out.decoderOutput)
      case Err(e) =>
      case Ok(m) =>
        assert !out.gateFires;
        forall k | 0 <= k < |rest| - 1
          ensures !rest[k].gateFires
        {
          assert rest[k] == outs[k + 1];
        }
        DecodeFollowsRun(net, NextInputs(inputs, out), i + 1, m, rest);
    }
  }

  /** Stepping into a run: the inputs of step `k + 1` are those of step `k`
      of the run that starts at step 1. */
  lemma {:induction false} InputsAtShift(first: DecoderInputs, outs: seq<DecoderOutputs>, k: nat)
    requires k + 1 <= |outs|
    ensures InputsAt(first, outs, k + 1) == InputsAt(NextInputs(first, outs[0]), outs[1..], k)
  {
    if k > 0 {
      InputsAtShift(first, outs, k - 1);
    }
  }

  /** In an unrolled run, step `k` calls the decoder on the inputs threaded
      through the steps before it, and gets `outs[k]`. */
  lemma {:induction false} UnrollCalls(net: Engine, first: DecoderInputs, outs: seq<DecoderOutputs>, k: nat)
    requires Unroll(net, first, |outs|) == Ok(outs) && k < |outs|
    ensures net.decoder(InputsAt(first, outs, k)) == Ok(outs[k])
    decreases k
  {
    var out := net.decoder(first).value;
    var rest := Unroll(net, NextInputs(first, out), |outs| - 1).value;
    assert outs == [out] + rest;
    if k > 0 {
      UnrollCalls(net, NextInputs(first, out), rest, k - 1);
      InputsAtShift(first, outs, k - 1);
    }
  }

  /** Memory, processed memory and mask are the same at every step; every
      other input of a later step is the same-named output of the step
      before. */
  lemma {:induction false} InputsThreaded(first: DecoderInputs, outs: seq<DecoderOutputs>, k: nat)
    requires k <= |outs|
    ensures var in_ := InputsAt(first, outs, k);
      in_.memory == first.memory && in_.processedMemory == first.processedMemory && in_.mask == first.mask
    ensures k > 0 ==> var in_ := InputsAt(first, outs, k); var o := outs[k - 1];
      && in_.decoderInput == o.decoderOutput
      && in_.attentionHidden == o.outAttentionHidden && in_.attentionCell == o.outAttentionCell
      && in_.decoderHidden == o.outDecoderHidden && in_.decoderCell == o.outDecoderCell
      && in_.attentionWeights == o.outAttentionWeights
      && in_.attentionWeightsCum == o.outAttentionWeightsCum
      && in_.attentionContext == o.outAttentionContext
  {
    if k > 0 {
      InputsThreaded(first, outs, k - 1);
    }
  }

  // ---------------------------------------------------------------------
  // Chunks (`infer_chunk`, `infer`)

  /** The encoder's fixed input length. */
  const ChunkSize: nat := 100

  /** `Vec::resize(n, 0)` when the vector is shorter than `n`; longer
      vectors are left alone. */
  function Pad(ids: seq<nat>, n: nat): (r: seq<nat>)
    ensures |ids| <= n ==> |r| == n
    ensures |ids| <= |r| && r[..|ids|] == ids
    ensures forall k :: |ids| <= k < |r| ==> r[k] == 0
  {
    if |ids| < n then ids + seq(n - |ids|, k => 0) else ids
  }

  /** `infer_chunk`: at most 100 indices, padded to exactly 100 for the
      encoder, whose memory output sizes the decoder state and whose mask
      opens the unpadded positions. */
  function InferChunk(net: Engine, ids: seq<nat>): (r: Result<Mat>)
    ensures |ids| > ChunkSize ==> r == Err(Panic("assertion failed: units_len <= 100"))
  {
    if |ids| > ChunkSize then Err(Panic("assertion failed: units_len <= 100"))
    else match net.encoder(Pad(ids, ChunkSize))
      case Err(e) => Err(e)
      case Ok(outs) =>
        if |outs| != 3 then Err(Panic("assertion `left == right` failed"))
        else match NewDecoderState(outs[0].shape, |ids|)
          case Err(e) => Err(e)
          case Ok(st) => RunDecoder(net, outs[0], outs[1], st)
  }

  /** The encoder sees the chunk followed by padding index 0, exactly 100
      entries in all. */
  lemma ChunkPadded(ids: seq<nat>)
    requires |ids| <= ChunkSize
    ensures var padded := Pad(ids, ChunkSize);
      |padded| == ChunkSize && padded == ids + seq(ChunkSize - |ids|, k => 0)
  {
    var padded := Pad(ids, ChunkSize);
    assert padded[..|ids|] == ids;
    assert padded == padded[..|ids|] + padded[|ids|..];
  }

  /** A chunk that fits runs as `infer_chunk` promises: the encoder gets the
      chunk right-padded with index 0 to exactly 100 entries, and a result is
      the decoder run on a fresh state whose mask opens exactly the chunk's
      own positions, not the padding. An encoder failure is passed on. */
  lemma InferChunkRuns(net: Engine, ids: seq<nat>)
    ensures |ids| <= ChunkSize ==>
      var encoded := net.encoder(ids + seq(ChunkSize - |ids|, k => 0));
      && (encoded.Err? ==> InferChunk(net, ids) == Err(encoded.error))
      && (InferChunk(net, ids).Ok? ==>
            && encoded.Ok? && |encoded.value| == 3
            && var st := NewDecoderState(encoded.value[0].shape, |ids|);
            && st.Ok? && |st.value.mask| == 1 && |ids| <= |st.value.mask[0]|
            && (forall j :: 0 <= j < |st.value.mask[0]| ==> (!st.value.mask[0][j] <==> j < |ids|))
            && InferChunk(net, ids) == RunDecoder(net, encoded.value[0], encoded.value[1], st.value))
  {
    if |ids| <= ChunkSize {
      ChunkPadded(ids);
    }
  }

  /** The `filter_map` of `best_match_for_unit`: the vocabulary index of
      every unit that has one, in order. */
  function Indices(units: seq<Unit>, vocab: seq<Unit>): seq<nat> {
    if |units| == 0 then []
    else match BestMatchForUnit(units[0], vocab)
      case None => Indices(units[1..], vocab)
      case Some(k) => [k] + Indices(units[1..], vocab)
  }

  predicate Resolves(u: Unit, vocab: seq<Unit>) {
    BestMatchForUnit(u, vocab).Some?
  }

  ghost predicate AllResolve(units: seq<Unit>, vocab: seq<Unit>) {
    forall k :: 0 <= k < |units| ==> Resolves(units[k], vocab)
  }

  /** One index per unit exactly when every unit resolves; a unit that does
      not resolve leaves the index list shorter than the units. */
  lemma {:induction false} IndicesLength(units: seq<Unit>, vocab: seq<Unit>)
    ensures |Indices(units, vocab)| <= |units|
    ensures |Indices(units, vocab)| == |units| <==> AllResolve(units, vocab)
  {
    if |units| > 0 {
      IndicesLength(units[1..], vocab);
      if AllResolve(units, vocab) {
        assert AllResolve(units[1..], vocab) by {
          forall k | 0 <= k < |units| - 1
            ensures Resolves(units[1..][k], vocab)
          {
            assert units[1..][k] == units[k + 1];
          }
        }
      } else if Resolves(units[0], vocab) {
        var k :| 0 <= k < |units| && !Resolves(units[k], vocab);
        assert units[1..][k - 1] == units[k];
      }
    }
  }

  /** The chunk boundaries `infer` walks: the splitter's offsets for chunks
      of 100, with the input length appended when it is missing. */
  function Offsets(units: seq<Unit>): seq<nat> {
    var splits := FindSplits(units, ChunkSize);
    if |units| in splits then splits else splits + [|units|]
  }

  /** The offsets rise strictly and end at the input length. */
  lemma OffsetsShape(units: seq<Unit>)
    ensures var o := Offsets(units);
      && |o| >= 1 && o[|o| - 1] == |units|
      && StrictlyIncreasing(o)
      && forall k :: 0 <= k < |o| ==> o[k] <= |units|
  {
    var splits := FindSplits(units, ChunkSize);
    FindSplitsAtSplitPoints(units, ChunkSize);
    assert forall k :: 0 <= k < |splits| ==> splits[k] <= |units| by {
      forall k | 0 <= k < |splits|
        ensures splits[k] <= |units|
      {
        assert splits[k] in splits;
      }
    }
    if |units| !in splits {
      forall k | 0 <= k < |splits|
        ensures splits[k] < |units|
      {
        assert splits[k] in splits;
      }
    }
  }

  /** Every offset lies between the previous one (initially `offset`) and
      the end of the `n` indices still to be cut: `split_off` never
      panics. */
  ghost predicate CutsWithin(offsets: seq<nat>, offset: nat, n: nat)
    decreases |offsets|
  {
    |offsets| == 0
    || (offset <= offsets[0] <= offset + n
        && CutsWithin(offsets[1..], offsets[0], offset + n - offsets[0]))
  }

  /** Reference: the chunks `ids[s(k-1) - offset .. s(k) - offset]`, the
      offsets `s` being relative to a list that starts at `offset`. */
  function Cut(ids: seq<nat>, offsets: seq<nat>, offset: nat): seq<seq<nat>>
    requires CutsWithin(offsets, offset, |ids|)
    decreases |offsets|
  {
    if |offsets| == 0 then []
    else
      var k := offsets[0] - offset;
      [ids[..k]] + Cut(ids[k..], offsets[1..], offsets[0])
  }

  /** `mel_spec` takes the first non-empty chunk output as it is and puts
      each later one beside it. */
  function JoinChunk(mel: Mat, a: Mat): Result<Mat> {
    if IsEmpty(mel) then Ok(a) else ConcatCols(mel, a, "Joining inference chunk output")
  }

  /** Reference: infer the chunks in order, joining their outputs. */
  function InferPlan(net: Engine, chunks: seq<seq<nat>>, mel: Mat): Result<Mat>
    decreases |chunks|
  {
    if |chunks| == 0 then Ok(mel)
    else match InferChunk(net, chunks[0])
      case Err(e) => Err(e)
      case Ok(a) =>
        match JoinChunk(mel, a)
        case Err(e) => Err(e)
        case Ok(m) => InferPlan(net, chunks[1..], m)
  }

  /** The `for split in splits` loop of `infer`: `ids` are the indices not
      yet inferred, which start at position `offset` of the index list. A
      split behind the offset underflows, one past the end makes
      `split_off` panic. */
  function InferLoop(net: Engine, offsets: seq<nat>, offset: nat, ids: seq<nat>, mel: Mat): Result<Mat>
    decreases |offsets|
  {
    if |offsets| == 0 then Ok(mel)
    else if offsets[0] < offset then Err(Panic("attempt to subtract with overflow"))
    else if offsets[0] - offset > |ids| then Err(Panic("`at` split index out of bounds"))
    else
      var k := offsets[0] - offset;
      match InferChunk(net, ids[..k])
      case Err(e) => Err(e)
      case Ok(a) =>
        match JoinChunk(mel, a)
        case Err(e) => Err(e)
        case Ok(m) => InferLoop(net, offsets[1..], offset + k, ids[k..], m)
  }

  /** `Tacotron2::infer`, as written. */
  function Infer(net: Engine, units: seq<Unit>): Result<Mat> {
    InferLoop(net, Offsets(units), 0, Indices(units, net.phonemeIds), NoRows)
  }

  /** When the offsets stay within the indices, the loop infers exactly
      the reference chunks, in order. */
  lemma {:induction false} LoopFollowsPlan(net: Engine, offsets: seq<nat>, offset: nat, ids: seq<nat>, mel: Mat)
    requires CutsWithin(offsets, offset, |ids|)
    ensures InferLoop(net, offsets, offset, ids, mel) == InferPlan(net, Cut(ids, offsets, offset), mel)
    decreases |offsets|
  {
    if |offsets| > 0 {
      var k := offsets[0] - offset;
      var chunks := Cut(ids, offsets, offset);
      assert chunks[0] == ids[..k] && chunks[1..] == Cut(ids[k..], offsets[1..], offsets[0]);
      match InferChunk(net, ids[..k])
      case Err(e) =>
      case Ok(a) =>
        match JoinChunk(mel, a)
        case Err(e) =>
        case Ok(m) =>
          LoopFollowsPlan(net, offsets[1..], offsets[0], ids[k..], m);
    }
  }

  /** When an offset falls behind its predecessor or past the indices, the
      loop fails: it panics there unless a chunk failed before. */
  lemma {:induction false} LoopFailsPastEnd(net: Engine, offsets: seq<nat>, offset: nat, ids: seq<nat>, mel: Mat)
    requires !CutsWithin(offsets, offset, |ids|)
    ensures InferLoop(net, offsets, offset, ids, mel).Err?
    decreases |offsets|
  {
    if offset <= offsets[0] <= offset + |ids| {
      var k := offsets[0] - offset;
      match InferChunk(net, ids[..k])
      case Err(e) =>
      case Ok(a) =>
        match JoinChunk(mel, a)
        case Err(e) =>
        case Ok(m) =>
          LoopFailsPastEnd(net, offsets[1..], offsets[0], ids[k..], m);
    }
  }

  /** The chunks put back together are the indices up to the last offset. */
  lemma {:induction false} CutFlattens(ids: seq<nat>, offsets: seq<nat>, offset: nat)
    requires CutsWithin(offsets, offset, |ids|) && |offsets| >= 1
    ensures offset <= offsets[|offsets| - 1] <= offset + |ids|
    ensures Flatten(Cut(ids, offsets, offset)) == ids[..offsets[|offsets| - 1] - offset]
    decreases |offsets|
  {
    var k := offsets[0] - offset;
    var chunks := Cut(ids, offsets, offset);
    assert chunks[1..] == Cut(ids[k..], offsets[1..], offsets[0]);
    if |offsets| > 1 {
      CutFlattens(ids[k..], offsets[1..], offsets[0]);
      var last := offsets[|offsets| - 1];
      assert offsets[1..][|offsets| - 2] == last;
      assert ids[..k] + ids[k..][..last - offsets[0]] == ids[..last - offset];
    } else {
      assert chunks == [ids[..k]];
      assert Flatten(chunks[1..]) == [];
    }
  }

  /** Offsets that rise strictly to the end of the indices stay within them. */
  lemma {:induction false} IncreasingCutsWithin(offsets: seq<nat>, offset: nat, n: nat)
    requires |offsets| >= 1 && offsets[|offsets| - 1] == offset + n
    requires offset <= offsets[0] && StrictlyIncreasing(offsets)
    ensures CutsWithin(offsets, offset, n)
    decreases |offsets|
  {
    if |offsets| > 1 {
      assert offsets[0] < offsets[|offsets| - 1];
      assert offsets[1..][|offsets| - 2] == offsets[|offsets| - 1];
      IncreasingCutsWithin(offsets[1..], offsets[0], offset + n - offsets[0]);
    }
  }

  /** Consecutive offsets at most `max` apart give chunks of at most `max`. */
  lemma {:induction false} CutSizes(ids: seq<nat>, offsets: seq<nat>, offset: nat, max: nat)
    requires CutsWithin(offsets, offset, |ids|)
    requires Steps([offset] + offsets, max)
    ensures forall c :: c in Cut(ids, offsets, offset) ==> |c| <= max
    decreases |offsets|
  {
    if |offsets| > 0 {
      var k := offsets[0] - offset;
      var chunks := Cut(ids, offsets, offset);
      assert ([offset] + offsets)[0] == offset && ([offset] + offsets)[1] == offsets[0];
      assert Steps([offsets[0]] + offsets[1..], max) by {
        assert [offsets[0]] + offsets[1..] == ([offset] + offsets)[1..];
      }
      CutSizes(ids[k..], offsets[1..], offsets[0], max);
      assert chunks == [ids[..k]] + Cut(ids[k..], offsets[1..], offsets[0]);
    }
  }

  /** With every unit resolved, `infer` cuts the index list at the offsets
      without panicking and infers the reference chunks in order; the chunks
      put back together are the whole index list. */
  lemma InferFollowsPlan(net: Engine, units: seq<Unit>)
    requires AllResolve(units, net.phonemeIds)
    ensures var ids := Indices(units, net.phonemeIds);
      && CutsWithin(Offsets(units), 0, |ids|)
      && Infer(net, units) == InferPlan(net, Cut(ids, Offsets(units), 0), NoRows)
      && Flatten(Cut(ids, Offsets(units), 0)) == ids
  {
    var ids := Indices(units, net.phonemeIds);
    var o := Offsets(units);
    IndicesLength(units, net.phonemeIds);
    OffsetsShape(units);
    IncreasingCutsWithin(o, 0, |ids|);
    LoopFollowsPlan(net, o, 0, ids, NoRows);
    CutFlattens(ids, o, 0);
  }

  /** Where every 99-unit window of the input holds a split point, every
      chunk fits the encoder, so the length assertion of `infer_chunk`
      never fires. */
  lemma InferChunksFit(units: seq<Unit>, vocab: seq<Unit>)
    requires AllResolve(units, vocab) && DenseSplitPoints(Scores(units), ChunkSize)
    ensures var ids := Indices(units, vocab);
      && CutsWithin(Offsets(units), 0, |ids|)
      && forall c :: c in Cut(ids, Offsets(units), 0) ==> |c| <= ChunkSize
  {
    var ids := Indices(units, vocab);
    var out := FindSplits(units, ChunkSize);
    IndicesLength(units, vocab);
    OffsetsShape(units);
    IncreasingCutsWithin(Offsets(units), 0, |ids|);
    FindSplitsFit(units, ChunkSize);
    FindSplitsAtSplitPoints(units, ChunkSize);
    assert |units| !in out;
    assert [0] + Offsets(units) == [0] + out + [|units|];
    CutSizes(ids, Offsets(units), 0, ChunkSize);
  }

  /** As written, a single unit without a vocabulary index makes `infer`
      fail: the last offset is the number of units, which lies past the end
      of the shorter index list, so `split_off` panics there if no chunk
      failed before. */
  lemma InferFailsOnUnresolved(net: Engine, units: seq<Unit>)
    requires !AllResolve(units, net.phonemeIds)
    ensures Infer(net, units).Err?
  {
    var ids := Indices(units, net.phonemeIds);
    var o := Offsets(units);
    IndicesLength(units, net.phonemeIds);
    OffsetsShape(units);
    if CutsWithin(o, 0, |ids|) {
      CutFlattens(ids, o, 0);
    }
    LoopFailsPastEnd(net, o, 0, ids, NoRows);
  }

  /** A short input none of whose units has an index gets offsets
      `[|units|]` and no indices, so the first `split_off` panics, whatever
      the networks do. */
  lemma UnresolvedShortInputPanics(net: Engine, units: seq<Unit>)
    requires 1 <= |units| <= ChunkSize
    requires forall k :: 0 <= k < |units| ==> !Resolves(units[k], net.phonemeIds)
    ensures Infer(net, units) == Err(Panic("`at` split index out of bounds"))
  {
    FindSplitsShort(units, ChunkSize);
    assert Offsets(units) == [|units|];
    NothingResolves(units, net.phonemeIds);
  }

  lemma {:induction false} NothingResolves(units: seq<Unit>, vocab: seq<Unit>)
    requires forall k :: 0 <= k < |units| ==> !Resolves(units[k], vocab)
    ensures Indices(units, vocab) == []
  {
    if |units| > 0 {
      assert !Resolves(units[0], vocab);
      NothingResolves(units[1..], vocab);
    }
  }

  /** The smallest instance: the input `[Unk]` makes `infer` panic with any
      vocabulary that has no `Unk` entry, the tacotron2 list among them
      (`UnkHasNoId`). */
  lemma UnkInputPanics(net: Engine, units: seq<Unit>)
    requires !Resolves(Unk, net.phonemeIds) && units == [Unk]
    ensures Infer(net, units) == Err(Panic("`at` split index out of bounds"))
  {
    assert |units| == 1 && units[0] == Unk;
    UnresolvedShortInputPanics(net, units);
  }

  /** Empty input still runs one chunk, of padding only. */
  lemma EmptyInputOneChunk(net: Engine, units: seq<Unit>)
    requires |units| == 0
    ensures var ids := Indices(units, net.phonemeIds);
      ids == [] && Infer(net, units) == InferChunk(net, ids)
  {
    EmptyOffsetsAt(units);
    OneChunk(net, Offsets(units), Indices(units, net.phonemeIds));
  }

  lemma EmptyOffsetsAt(units: seq<Unit>)
    requires |units| == 0
    ensures Offsets(units) == [0]
  {
    FindSplitsShort(units, ChunkSize);
  }

  /** A single offset at the end of the indices makes one chunk of them all. */
  lemma OneChunk(net: Engine, offsets: seq<nat>, ids: seq<nat>)
    requires offsets == [|ids|]
    ensures InferLoop(net, offsets, 0, ids, NoRows) == InferChunk(net, ids)
  {
    assert ids[..|ids|] == ids;
    match InferChunk(net, ids)
    case Err(e) =>
    case Ok(a) =>
      assert JoinChunk(NoRows, a) == Ok(a);
  }

  /** The units that have a vocabulary index, in order. */
  function Kept(units: seq<Unit>, vocab: seq<Unit>): seq<Unit> {
    if |units| == 0 then []
    else if Resolves(units[0], vocab) then [units[0]] + Kept(units[1..], vocab)
    else Kept(units[1..], vocab)
  }

  /** Dropping the units without an index changes no index and leaves only
      units that resolve. */
  lemma {:induction false} KeptResolves(units: seq<Unit>, vocab: seq<Unit>)
    ensures AllResolve(Kept(units, vocab), vocab)
    ensures Indices(Kept(units, vocab), vocab) == Indices(units, vocab)
    ensures AllResolve(units, vocab) ==> Kept(units, vocab) == units
  {
    if |units| > 0 {
      KeptResolves(units[1..], vocab);
      var rest := Kept(units[1..], vocab);
      if Resolves(units[0], vocab) {
        assert Kept(units, vocab) == [units[0]] + rest;
        assert ([units[0]] + rest)[1..] == rest;
        if AllResolve(units, vocab) {
          assert AllResolve(units[1..], vocab) by {
            forall k | 0 <= k < |units| - 1
              ensures Resolves(units[1..][k], vocab)
            {
              assert units[1..][k] == units[k + 1];
            }
          }
          assert units == [units[0]] + units[1..];
        }
      }
    }
  }

  /** `infer` with the units that have no index dropped before the offsets
      are computed, as the comment above the `filter_map` intends. */
  function InferResolved(net: Engine, units: seq<Unit>): Result<Mat> {
    var kept := Kept(units, net.phonemeIds);
    InferLoop(net, Offsets(kept), 0, Indices(kept, net.phonemeIds), NoRows)
  }

  /** The corrected `infer` never panics in `split_off`: it infers chunks
      that put back together give the index of every unit that has one. */
  lemma InferResolvedFollowsPlan(net: Engine, units: seq<Unit>)
    ensures var ids := Indices(units, net.phonemeIds);
      var o := Offsets(Kept(units, net.phonemeIds));
      && CutsWithin(o, 0, |ids|)
      && InferResolved(net, units) == InferPlan(net, Cut(ids, o, 0), NoRows)
      && Flatten(Cut(ids, o, 0)) == ids
  {
    var kept := Kept(units, net.phonemeIds);
    KeptResolves(units, net.phonemeIds);
    InferFollowsPlan(net, kept);
  }

  /** Where no unit lacks an index, the correction changes nothing. */
  lemma InferResolvedAgrees(net: Engine, units: seq<Unit>)
    requires AllResolve(units, net.phonemeIds)
    ensures InferResolved(net, units) == Infer(net, units)
  {
    KeptResolves(units, net.phonemeIds);
  }

  /** Against a vocabulary with a shaped prefix and every phone, a unit
      resolves exactly when it is not `Unk` and not a character outside
      the ASCII letters. */
  lemma Resolution(pre: seq<Unit>, ps: seq<ArpaPhone>, u: Unit)
    requires PrefixShaped(pre, Letters)
    requires forall p: ArpaPhone :: p in ps
    ensures Resolves(u, VocabularyWith(pre, Entries(ps)))
      <==> !u.Unk? && (u.Character? ==> u.ch in Letters)
  {
    var list := VocabularyWith(pre, Entries(ps));
    match u
    case Phone(q) => PhoneIds(pre, ps, q);
    case Unk => UnkAbsent(pre, Entries(ps));
    case Character(c) => CharacterIds(pre, Entries(ps), c);
    case _ =>
      var i :| 0 <= i < |pre| && pre[i] == u;
      assert list[i] == u;
  }
}
