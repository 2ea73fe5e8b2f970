/** The vocabulary of the speedyspeech model (`src/speedyspeech/mod.rs`):
    the list whose positions are the indices the model is fed, and how the
    library's units resolve against it. */
module SpeedySpeech {
  import opened Outcomes
  import opened Seqs
  import opened Phonemes
  import Tacotron2

  /** The entries the list has for one phone: vowels only with the stress
      markers 0, 1 and 2, except `UW`, which also has its unmarked spelling
      first; a consonant only unmarked. */
  function Variants(p: ArpaPhone): (vs: seq<PhoneticUnit>)
    ensures |vs| >= 1
    ensures forall k :: 0 <= k < |vs| ==> vs[k].phone == p
    ensures vs[0] == (if Tacotron2.IsVowel(p) && p != Uw then PhoneticUnit(p, Some(NoStress)) else PhoneticUnit(p, None))
  {
    var stressed := [PhoneticUnit(p, Some(NoStress)), PhoneticUnit(p, Some(PrimaryStress)), PhoneticUnit(p, Some(SecondaryStress))];
    if p == Uw then [PhoneticUnit(p, None)] + stressed
    else if Tacotron2.IsVowel(p) then stressed
    else [PhoneticUnit(p, None)]
  }

  function Entries(ps: seq<ArpaPhone>): seq<PhoneticUnit> {
    if |ps| == 0 then [] else Variants(ps[0]) + Entries(ps[1..])
  }

  /** `Space` and the five punctuation marks the model was trained with. */
  const Tail: seq<Unit> :=
    [Space, Punct(FullStop), Punct(Comma), Punct(QuestionMark), Punct(ExclamationMark), Punct(Dash)]

  /** `generate_id_list`: `Padding`, `Unk`, the parsed phones, then the
      tail; a phone spelling that did not parse would panic at `unwrap`. */
  function GenerateIdList(): Result<seq<Unit>> {
    match Tacotron2.ParseUnits(Tacotron2.Spellings(Entries(Tacotron2.AllPhones)))
    case None => Err(Panic("called `Result::unwrap()` on an `Err` value"))
    case Some(phones) => Ok([Padding, Unk] + phones + Tail)
  }

  /** A list made of `Padding`, `Unk`, the phone entries `es` and the tail. */
  function VocabularyWith(es: seq<PhoneticUnit>): seq<Unit> {
    [Padding, Unk] + Tacotron2.PhoneUnits(es) + Tail
  }

  /** The vocabulary as it is once built. */
  const IdList: seq<Unit> := VocabularyWith(Entries(Tacotron2.AllPhones))

  // ---------------------------------------------------------------------
  // Building the list

  /** Building the list never panics: every spelling parses as its phone. */
  lemma GenerateIdListBuilds()
    ensures GenerateIdList() == Ok(IdList)
  {
    Tacotron2.ParseSpellings(Entries(Tacotron2.AllPhones));
  }

  // ---------------------------------------------------------------------
  // Layout

  /** Index 0 is `Padding`, index 1 `Unk`, then one entry per phone spelling
      and, last, `Space` and the five punctuation marks. */
  lemma Layout(es: seq<PhoneticUnit>)
    ensures var list := VocabularyWith(es);
      && |list| == |es| + 8
      && list[0] == Padding && list[1] == Unk
      && (forall k :: 0 <= k < |es| ==> list[k + 2] == Phone(es[k]))
      && list[|es| + 2..] == Tail
      && (forall k :: 0 <= k < |list| ==> (list[k].Phone? <==> 2 <= k < |es| + 2))
  {
    var list := VocabularyWith(es);
    assert list[|es| + 2..] == Tail;
    forall k | |es| + 2 <= k < |list|
      ensures !list[k].Phone?
    {
      assert list[k] == Tail[k - |es| - 2];
    }
  }

  lemma IdListLayout()
    ensures |IdList| == |Entries(Tacotron2.AllPhones)| + 8
    ensures IdList[0] == Padding && IdList[1] == Unk
    ensures IdList[|IdList| - 6..] == Tail
  {
    Layout(Entries(Tacotron2.AllPhones));
  }

  /** The entries of a phone list are the variants of its phones. */
  lemma {:induction false} InEntries(ps: seq<ArpaPhone>, q: PhoneticUnit)
    ensures q in Entries(ps) <==> q.phone in ps && q in Variants(q.phone)
    decreases |ps|
  {
    if |ps| > 0 {
      InEntries(ps[1..], q);
      assert Entries(ps) == Variants(ps[0]) + Entries(ps[1..]);
      assert ps == [ps[0]] + ps[1..];
      if q in Variants(ps[0]) {
        var k :| 0 <= k < |Variants(ps[0])| && Variants(ps[0])[k] == q;
        assert q.phone == ps[0];
      }
    }
  }

  /** Within the phone part, the first entry of each phone is the head of
      its variants. */
  lemma {:induction false} FirstEntryIsHead(ps: seq<ArpaPhone>, j: nat, p: ArpaPhone)
    requires j < |Entries(ps)| && Entries(ps)[j].phone == p
    requires forall i :: 0 <= i < j ==> Entries(ps)[i].phone != p
    ensures Entries(ps)[j] == Variants(p)[0]
    decreases |ps|
  {
    var vs := Variants(ps[0]);
    var rest := Entries(ps[1..]);
    assert Entries(ps) == vs + rest;
    if j >= |vs| {
      var j' := j - |vs|;
      assert Entries(ps)[j] == rest[j'];
      forall i | 0 <= i < j'
        ensures rest[i].phone != p
      {
        assert Entries(ps)[|vs| + i] == rest[i];
      }
      FirstEntryIsHead(ps[1..], j', p);
    } else {
      assert Entries(ps)[0] == vs[0];
    }
  }

  /** A phone unit is in the list exactly when its phone is listed and the
      unit is one of that phone's variants. */
  lemma PhoneListed(ps: seq<ArpaPhone>, q: PhoneticUnit)
    ensures Phone(q) in VocabularyWith(Entries(ps)) <==> q.phone in ps && q in Variants(q.phone)
  {
    var es := Entries(ps);
    var list := VocabularyWith(es);
    Layout(es);
    InEntries(ps, q);
    if Phone(q) in list {
      var k :| 0 <= k < |list| && list[k] == Phone(q);
      assert es[k - 2] == q;
    }
    if q in es {
      var k :| 0 <= k < |es| && es[k] == q;
      assert list[k + 2] == Phone(q);
    }
  }

  // ---------------------------------------------------------------------
  // Resolution (`best_match_for_unit` against this list)

  /** The first entry with a phone in a list built by `VocabularyWith` is the
      head of that phone's variants. */
  lemma FirstSamePhone(ps: seq<ArpaPhone>, q: PhoneticUnit, r: nat)
    requires r < |VocabularyWith(Entries(ps))| && SamePhone(VocabularyWith(Entries(ps))[r], q)
    requires forall j :: 0 <= j < r ==> !SamePhone(VocabularyWith(Entries(ps))[j], q)
    ensures VocabularyWith(Entries(ps))[r] == Phone(Variants(q.phone)[0])
  {
    var es := Entries(ps);
    var list := VocabularyWith(es);
    Layout(es);
    forall i | 0 <= i < r - 2
      ensures es[i].phone != q.phone
    {
      assert list[i + 2] == Phone(es[i]);
    }
    FirstEntryIsHead(ps, r - 2, q.phone);
  }

  /** How a phone resolves against a list built from `ps`: to nothing when
      its phone is not listed; otherwise to its own entry when it has one,
      and else to the first entry of its phone, which for a vowel other than
      `UW` is its `0` spelling and for `UW` and the consonants the unmarked
      spelling. */
  lemma PhoneResolution(ps: seq<ArpaPhone>, q: PhoneticUnit)
    ensures var list := VocabularyWith(Entries(ps));
      var r := BestMatchForUnit(Phone(q), list);
      && (r.None? <==> q.phone !in ps)
      && (r.Some? ==> r.value < |list|)
      && (r.Some? && q in Variants(q.phone) ==> list[r.value] == Phone(q))
      && (r.Some? && q !in Variants(q.phone) ==> list[r.value] == Phone(Variants(q.phone)[0]))
  {
    if q.phone in ps {
      PhoneResolutionListed(ps, q);
    } else {
      PhoneResolutionUnlisted(ps, q);
    }
  }

  /** An unmarked spelling, when a phone has one, is its first. */
  lemma UnmarkedVariantIsHead(q: PhoneticUnit)
    requires q.context.None? && q in Variants(q.phone)
    ensures Variants(q.phone)[0] == q
  {
  }

  /** A phone whose phone is listed resolves to its own entry, or else to the
      first entry of its phone. */
  lemma PhoneResolutionListed(ps: seq<ArpaPhone>, q: PhoneticUnit)
    requires q.phone in ps
    ensures var list := VocabularyWith(Entries(ps));
      var r := BestMatchForUnit(Phone(q), list);
      && r.Some? && r.value < |list|
      && (q in Variants(q.phone) ==> list[r.value] == Phone(q))
      && (q !in Variants(q.phone) ==> list[r.value] == Phone(Variants(q.phone)[0]))
  {
    var es := Entries(ps);
    var list := VocabularyWith(es);
    var r := BestMatchForUnit(Phone(q), list);
    Layout(es);
    BestMatchForPhone(q, list);
    BestMatchIsReference(Phone(q), list);
    PhoneListed(ps, q);
    var head := Variants(q.phone)[0];
    PhoneListed(ps, head);
    assert SamePhone(list[r.value], q) by {
      assert Phone(head) in list;
      var k :| 0 <= k < |list| && list[k] == Phone(head);
      assert SamePhone(list[k], q);
    }
    if q !in Variants(q.phone) || q.context.None? {
      if q.context.Some? {
        assert FirstIndex(list, EqualTo(Phone(q))).None?;
      }
      FirstSamePhone(ps, q, r.value);
      if q.context.None? && q in Variants(q.phone) {
        UnmarkedVariantIsHead(q);
      }
    }
  }

  /** A phone whose phone is not listed does not resolve. */
  lemma PhoneResolutionUnlisted(ps: seq<ArpaPhone>, q: PhoneticUnit)
    requires q.phone !in ps
    ensures BestMatchForUnit(Phone(q), VocabularyWith(Entries(ps))).None?
  {
    var list := VocabularyWith(Entries(ps));
    var r := BestMatchForUnit(Phone(q), list);
    BestMatchForPhone(q, list);
    if r.Some? {
      var e := list[r.value];
      assert SamePhone(e, q);
      assert Phone(e.unit) in list;
      PhoneListed(ps, e.unit);
    }
  }

  /** Against a list built from every phone, as the speedyspeech list is
      (`Tacotron2.AllPhonesListed`), every phone resolves: an unmarked vowel
      other than `UW` to its `0` entry, unmarked `UW` and the consonants to
      their own entry, a stressed vowel (`0`, `1`, `2`) to its own entry,
      and any other marked phone to the first entry of its phone. */
  lemma EveryPhoneResolves(ps: seq<ArpaPhone>, q: PhoneticUnit)
    requires forall p: ArpaPhone :: p in ps
    ensures var list := VocabularyWith(Entries(ps));
      var r := BestMatchForUnit(Phone(q), list);
      && r.Some? && r.value < |list|
      && (q in Variants(q.phone) ==> list[r.value] == Phone(q))
      && (q !in Variants(q.phone) ==> list[r.value] == Phone(Variants(q.phone)[0]))
      && (q.context.None? && Tacotron2.IsVowel(q.phone) && q.phone != Uw ==>
            list[r.value] == Phone(PhoneticUnit(q.phone, Some(NoStress))))
      && (q.context.None? && (q.phone == Uw || !Tacotron2.IsVowel(q.phone)) ==> list[r.value] == Phone(q))
  {
    PhoneResolution(ps, q);
  }

  /** A unit that is not a phone resolves exactly when it is `Padding`,
      `Unk`, `Space` or one of the five listed punctuation marks, and then
      to its own entry. */
  lemma OtherUnitResolution(es: seq<PhoneticUnit>, u: Unit)
    requires !u.Phone?
    ensures var list := VocabularyWith(es);
      var r := BestMatchForUnit(u, list);
      && (r.Some? <==> u in [Padding, Unk] + Tail)
      && (r.Some? ==> r.value < |list| && list[r.value] == u)
  {
    var list := VocabularyWith(es);
    Layout(es);
    var r := FirstIndex(list, EqualTo(u));
    if u in [Padding, Unk] + Tail {
      if u == Padding {
        assert EqualTo(u)(list[0]);
      } else if u == Unk {
        assert EqualTo(u)(list[1]);
      } else {
        var k :| 0 <= k < |Tail| && Tail[k] == u;
        assert list[|es| + 2 + k] == u;
        assert EqualTo(u)(list[|es| + 2 + k]);
      }
    }
    if r.Some? {
      var k := r.value;
      assert list[k] == u;
      if k >= |es| + 2 {
        assert list[k] == Tail[k - |es| - 2];
      }
    }
  }

  /** Character input never resolves against the speedyspeech list. */
  lemma CharactersUnresolved(es: seq<PhoneticUnit>, c: char)
    ensures BestMatchForUnit(Character(c), VocabularyWith(es)) == None
  {
    OtherUnitResolution(es, Character(c));
  }

  /** Of the punctuation marks, exactly the full stop, comma, question mark,
      exclamation mark and dash resolve. */
  lemma PunctuationResolution(es: seq<PhoneticUnit>, p: Punctuation)
    ensures BestMatchForUnit(Punct(p), VocabularyWith(es)).Some?
        <==> p in {FullStop, Comma, QuestionMark, ExclamationMark, Dash}
  {
    OtherUnitResolution(es, Punct(p));
  }
}
