/** Live matching (src/subscription.rs:902-943) against the answer from the store
    (src/subscription.rs:278-468): the one compares `#e` and `#p` values as text, the other as the
    bytes they decode to. */
module LiveMatching {
  import opened Events
  import opened Filters
  import opened Planner

  // ---------------------------------------------------------------- the two readings, written out

  /** Every condition of the filter but the tags. */
  ghost predicate Frame(f: Filter, e: Event) {
    && (f.ids == None || e.id in f.ids.value)
    && (f.kinds == None || e.kind in f.kinds.value)
    && (f.authors == None || e.pubkey in f.authors.value)
    && (f.since == None || f.since.value <= e.createdAt)
    && (f.until == None || e.createdAt <= f.until.value)
  }

  /** A tag of this one-letter name whose first value is this text. */
  ghost predicate Carries(e: Event, letter: char, text: string) {
    exists i :: 0 <= i < |e.tags| && e.tags[i].name == [letter] && |e.tags[i].values| > 0 && e.tags[i].values[0] == text
  }

  ghost predicate SameId(v: string, w: string) {
    ParseHex32(v).Some? && ParseHex32(v) == ParseHex32(w)
  }

  lemma CarriesIs(e: Event, letter: char, text: string)
    ensures Carries(e, letter, text) <==>
            exists t :: t in e.tags && t.name == [letter] && t.Value() == Some(text)
  {
    if t :| t in e.tags && t.name == [letter] && t.Value() == Some(text) {
      var i :| 0 <= i < |e.tags| && e.tags[i] == t;
      assert e.tags[i].name == [letter];
    }
    if Carries(e, letter, text) {
      var i :| 0 <= i < |e.tags| && e.tags[i].name == [letter] && |e.tags[i].values| > 0
               && e.tags[i].values[0] == text;
      assert e.tags[i] in e.tags;
    }
  }

  lemma TagMatchesIs(e: Event, letter: char, values: seq<string>)
    ensures TagMatches(e, letter, values) <==> exists v :: v in values && Carries(e, letter, v)
  {
    hide Carries;
    forall v ensures Carries(e, letter, v) <==> exists t :: t in e.tags && t.name == [letter] && t.Value() == Some(v) {
      CarriesIs(e, letter, v);
    }
    if TagMatches(e, letter, values) {
      var t :| t in e.tags && IsLetterTag(t, letter) && t.Value().Some? && t.Value().value in values;
      assert Carries(e, letter, t.Value().value);
    }
    if v :| v in values && Carries(e, letter, v) {
      var t :| t in e.tags && t.name == [letter] && t.Value() == Some(v);
      assert IsLetterTag(t, letter);
    }
  }

  /** A text among the values and a text carried by a tag decode to the same id. */
  ghost predicate MeetsById(e: Event, letter: char, values: seq<string>) {
    exists v, w :: v in values && Carries(e, letter, w) && SameId(v, w)
  }

  lemma HeldIdIs(e: Event, letter: char, x: Id)
    ensures x in TagIds(e.tags, [letter]) <==> exists w :: Carries(e, letter, w) && ParseHex32(w) == Some(x)
  {
    hide ParseHex32, Carries, TagIds;
    TagIdsAreTheDecodedValues(e.tags, [letter], x);
    if t :| t in e.tags && t.name == [letter] && t.Value().Some? && ParseHex32(t.Value().value) == Some(x) {
      CarriesIs(e, letter, t.Value().value);
      assert Carries(e, letter, t.Value().value);
    }
    if w :| Carries(e, letter, w) && ParseHex32(w) == Some(x) { CarriesIs(e, letter, w); }
  }

  lemma HexLetterIs(e: Event, letter: char, values: seq<string>)
    requires letter == 'e' || letter == 'p'
    ensures LetterSatisfied(e, letter, values) <==> MeetsById(e, letter, values)
  {
    hide ParseHex32, Carries, TagIds, DecodeAll;
    forall x ensures x in DecodeAll(values) <==> exists v :: v in values && ParseHex32(v) == Some(x) {
      DecodeAllHas(values, x);
    }
    forall x ensures x in TagIds(e.tags, [letter]) <==> exists w :: Carries(e, letter, w) && ParseHex32(w) == Some(x) {
      HeldIdIs(e, letter, x);
    }
    if MeetsById(e, letter, values) {
      var v, w :| v in values && Carries(e, letter, w) && SameId(v, w);
      var x := ParseHex32(v).value;
      assert x in DecodeAll(values) && x in TagIds(e.tags, [letter]);
    }
    if LetterSatisfied(e, letter, values) {
      var x :| x in DecodeAll(values) && x in TagIds(e.tags, [letter]);
      var v :| v in values && ParseHex32(v) == Some(x);
      var w :| Carries(e, letter, w) && ParseHex32(w) == Some(x);
      assert SameId(v, w);
    }
  }

  /** What a filter asks of a stored event, written out. */
  lemma SatisfiesIs(f: Filter, e: Event)
    ensures Satisfies(f, e) <==>
            && Frame(f, e)
            && forall l :: l in f.tagFilters ==>
                 if l == 'e' || l == 'p' then MeetsById(e, l, f.tagFilters[l])
                 else exists v :: v in f.tagFilters[l] && Carries(e, l, v)
  {
    hide MeetsById, Carries;
    forall l | l in f.tagFilters
      ensures LetterSatisfied(e, l, f.tagFilters[l]) <==>
              if l == 'e' || l == 'p' then MeetsById(e, l, f.tagFilters[l])
              else exists v :: v in f.tagFilters[l] && Carries(e, l, v)
    {
      if l == 'e' || l == 'p' { HexLetterIs(e, l, f.tagFilters[l]); } else { TagMatchesIs(e, l, f.tagFilters[l]); }
    }
  }

  /** What live matching asks of a published event, written out. */
  lemma MatchesIs(f: Filter, e: Event)
    ensures Matches(f, e) <==>
            && Frame(f, e)
            && forall l :: l in f.tagFilters ==> exists v :: v in f.tagFilters[l] && Carries(e, l, v)
  {
    hide Carries;
    forall l | l in f.tagFilters
      ensures TagMatches(e, l, f.tagFilters[l]) <==> exists v :: v in f.tagFilters[l] && Carries(e, l, v)
    {
      TagMatchesIs(e, l, f.tagFilters[l]);
    }
  }

  // ---------------------------------------------------------------- when they agree

  /** All values are ids, and every spelling of each of them, in upper and lower case, is given. */
  ghost predicate AllSpellings(values: seq<string>) {
    && (forall v :: v in values ==> ParseHex32(v).Some?)
    && (forall v, w :: v in values && SameId(v, w) ==> w in values)
  }

  ghost predicate SpelledOut(f: Filter) {
    && ('e' in f.tagFilters ==> AllSpellings(f.tagFilters['e']))
    && ('p' in f.tagFilters ==> AllSpellings(f.tagFilters['p']))
  }

  lemma LetterAgrees(e: Event, letter: char, values: seq<string>)
    requires AllSpellings(values)
    ensures MeetsById(e, letter, values) <==> exists v :: v in values && Carries(e, letter, v)
  {
    hide Carries, ParseHex32;
    if v :| v in values && Carries(e, letter, v) { assert SameId(v, v); }
  }

  /** Without `#e` and `#p`, and with them if every spelling is given, a subscription is sent exactly
      the events it would be answered from the store. */
  lemma LiveAgrees(f: Filter, e: Event)
    requires SpelledOut(f)
    ensures Matches(f, e) <==> Satisfies(f, e)
  {
    hide MeetsById, Carries, Matches, Satisfies, Frame, AllSpellings;
    MatchesIs(f, e);
    SatisfiesIs(f, e);
    if 'e' in f.tagFilters { LetterAgrees(e, 'e', f.tagFilters['e']); }
    if 'p' in f.tagFilters { LetterAgrees(e, 'p', f.tagFilters['p']); }
  }

  /** `e` with a single tag of this letter, and no other tags of it. */
  function Retagged(e: Event, letters: set<char>, letter: char, text: string): Event {
    e.(tags := Only(e.tags, letters - {letter}) + [Tag([letter], [text])])
  }

  lemma RetaggedCarries(e: Event, letters: set<char>, letter: char, text: string, l: char, v: string)
    requires l in letters
    ensures Carries(Retagged(e, letters, letter, text), l, v) <==> if l == letter then v == text else Carries(e, l, v)
  {
    hide Carries, Only;
    var wrong := Retagged(e, letters, letter, text);
    CarriesIs(e, l, v);
    CarriesIs(wrong, l, v);
    forall t: Tag | t.name == [l]
      ensures t in wrong.tags <==> if l == letter then t == Tag([letter], [text]) else t in e.tags
    {
      OnlyAre(e.tags, letters - {letter}, t);
    }
    if l == letter && v == text {
      assert Tag([letter], [text]) in wrong.tags && Tag([letter], [text]).Value() == Some(v);
    }
  }

  /** A text on which the two readings part: a value that is no id, or a spelling not given. */
  lemma PartingText(values: seq<string>) returns (text: string)
    requires !AllSpellings(values)
    ensures text in values <==> !(exists v :: v in values && SameId(v, text))
  {
    hide ParseHex32;
    if v :| v in values && ParseHex32(v).None? {
      text := v;
    } else {
      var v, w :| v in values && SameId(v, w) && w !in values;
      text := w;
    }
  }

  lemma LetterParts(f: Filter, letter: char, e: Event) returns (wrong: Event)
    requires (letter == 'e' || letter == 'p') && letter in f.tagFilters && !AllSpellings(f.tagFilters[letter])
    requires Matches(f, e) && Satisfies(f, e)
    ensures Matches(f, wrong) <==> !Satisfies(f, wrong)
  {
    hide Carries, Matches, Satisfies, AllSpellings, SameId;
    var values := f.tagFilters[letter];
    var text := PartingText(values);
    wrong := Retagged(e, f.tagFilters.Keys, letter, text);
    forall l, v | l in f.tagFilters
      ensures Carries(wrong, l, v) <==> if l == letter then v == text else Carries(e, l, v)
    {
      RetaggedCarries(e, f.tagFilters.Keys, letter, text, l, v);
    }
    MatchesIs(f, e);
    SatisfiesIs(f, e);
    MatchesIs(f, wrong);
    SatisfiesIs(f, wrong);
    RetaggedLetters(f, letter, text, e, wrong);
  }

  lemma RetaggedLetters(f: Filter, letter: char, text: string, e: Event, wrong: Event)
    requires letter in f.tagFilters
    requires forall l, v :: l in f.tagFilters ==>
               (Carries(wrong, l, v) <==> if l == letter then v == text else Carries(e, l, v))
    ensures MeetsById(wrong, letter, f.tagFilters[letter]) <==> exists v :: v in f.tagFilters[letter] && SameId(v, text)
    ensures (exists v :: v in f.tagFilters[letter] && Carries(wrong, letter, v)) <==> text in f.tagFilters[letter]
    ensures forall l :: l in f.tagFilters && l != letter ==>
              && (MeetsById(e, l, f.tagFilters[l]) ==> MeetsById(wrong, l, f.tagFilters[l]))
              && ((exists v :: v in f.tagFilters[l] && Carries(e, l, v)) ==>
                    exists v :: v in f.tagFilters[l] && Carries(wrong, l, v))
  {
    hide Carries, SameId;
    assert Carries(wrong, letter, text);
    forall l | l in f.tagFilters && l != letter && MeetsById(e, l, f.tagFilters[l])
      ensures MeetsById(wrong, l, f.tagFilters[l])
    {
      var v, w :| v in f.tagFilters[l] && Carries(e, l, w) && SameId(v, w);
      assert Carries(wrong, l, w);
    }
  }

  /** The condition is exact for every filter that some event passes both ways. */
  lemma LiveAgreesIff(f: Filter, e: Event)
    requires Matches(f, e) && Satisfies(f, e)
    ensures (forall x :: Matches(f, x) <==> Satisfies(f, x)) <==> SpelledOut(f)
  {
    hide Matches, Satisfies, AllSpellings;
    if SpelledOut(f) {
      forall x ensures Matches(f, x) <==> Satisfies(f, x) { LiveAgrees(f, x); }
    } else {
      var letter := if 'e' in f.tagFilters && !AllSpellings(f.tagFilters['e']) then 'e' else 'p';
      var wrong := LetterParts(f, letter, e);
    }
  }

  /** Values written in lower case, as NIP-01 asks of filters and of events. */
  ghost predicate LowerCaseId(s: string) {
    ParseHex32(s).Some? && Lower(s) == s
  }

  ghost predicate LowerCaseTags(f: Filter, e: Event, letter: char) {
    letter in f.tagFilters ==>
      && (forall v :: v in f.tagFilters[letter] ==> LowerCaseId(v))
      && (forall w :: Carries(e, letter, w) && ParseHex32(w).Some? ==> LowerCaseId(w))
  }

  lemma LowerCaseIsUnique(v: string, w: string)
    requires LowerCaseId(v) && LowerCaseId(w) && SameId(v, w)
    ensures v == w
  {
    HexIs(v, ParseHex32(v).value);
    HexIs(w, ParseHex32(v).value);
  }

  lemma LowerCaseLetter(f: Filter, e: Event, letter: char)
    requires LowerCaseTags(f, e, letter) && letter in f.tagFilters
    ensures MeetsById(e, letter, f.tagFilters[letter]) <==>
            exists v :: v in f.tagFilters[letter] && Carries(e, letter, v)
  {
    hide Carries, ParseHex32, Lower;
    var values := f.tagFilters[letter];
    if v :| v in values && Carries(e, letter, v) { assert LowerCaseId(v) && SameId(v, v); }
    if MeetsById(e, letter, values) {
      var v, w :| v in values && Carries(e, letter, w) && SameId(v, w);
      LowerCaseIsUnique(v, w);
    }
  }

  /** Between lower-case filters and lower-case events the two readings agree. */
  lemma LiveAgreesInLowerCase(f: Filter, e: Event)
    requires LowerCaseTags(f, e, 'e') && LowerCaseTags(f, e, 'p')
    ensures Matches(f, e) <==> Satisfies(f, e)
  {
    hide MeetsById, Carries, Matches, Satisfies, Frame, LowerCaseTags;
    MatchesIs(f, e);
    SatisfiesIs(f, e);
    if 'e' in f.tagFilters { LowerCaseLetter(f, e, 'e'); }
    if 'p' in f.tagFilters { LowerCaseLetter(f, e, 'p'); }
  }
}
