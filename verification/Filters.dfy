/** NIP-01 subscription filters and live matching (src/subscription.rs:90-167, 902-943). */
module Filters {
  import opened Events

  /** `eTagsBytes` and `pTagsBytes` are the decoded `#e` and `#p` values, filled in by
      `ParseHexValues`. */
  datatype Filter = Filter(
    ids: Option<seq<Id>>,
    kinds: Option<seq<nat>>,
    authors: Option<seq<Id>>,
    tagFilters: map<char, seq<string>>,
    since: Option<nat>,
    until: Option<nat>,
    limit: Option<nat>,
    eTagsBytes: Option<seq<Id>>,
    pTagsBytes: Option<seq<Id>>)

  predicate InTime(f: Filter, e: Event) {
    && (f.since.Some? ==> e.createdAt >= f.since.value)
    && (f.until.Some? ==> e.createdAt <= f.until.value)
  }

  predicate KindMatches(f: Filter, e: Event) {
    f.kinds.Some? ==> e.kind in f.kinds.value
  }

  predicate AuthorMatches(f: Filter, e: Event) {
    f.authors.Some? ==> e.pubkey in f.authors.value
  }

  predicate IdMatches(f: Filter, e: Event) {
    f.ids.Some? ==> e.id in f.ids.value
  }

  /** Some tag of this letter has one of the values, compared as text. */
  predicate TagMatches(e: Event, letter: char, values: seq<string>) {
    exists t :: t in e.tags && IsLetterTag(t, letter) && t.Value().Some? && t.Value().value in values
  }

  /** `matches_event`: every condition the filter names holds. */
  predicate Matches(f: Filter, e: Event) {
    && InTime(f, e) && KindMatches(f, e) && IdMatches(f, e) && AuthorMatches(f, e)
    && forall letter :: letter in f.tagFilters ==> TagMatches(e, letter, f.tagFilters[letter])
  }

  function DecodeAll(values: seq<string>): seq<Id> {
    if values == [] then []
    else
      var rest := DecodeAll(values[1..]);
      match ParseHex32(values[0])
      case Some(x) => [x] + rest
      case None => rest
  }

  lemma {:induction false} DecodeAllHas(values: seq<string>, x: Id)
    ensures x in DecodeAll(values) <==> exists v :: v in values && ParseHex32(v) == Some(x)
  {
    if values != [] {
      DecodeAllHas(values[1..], x);
      assert forall v :: v in values <==> v == values[0] || v in values[1..];
    }
  }

  function ParsedBytes(f: Filter, letter: char, present: Option<seq<Id>>): Option<seq<Id>> {
    if letter in f.tagFilters && DecodeAll(f.tagFilters[letter]) != []
    then Some(DecodeAll(f.tagFilters[letter])) else present
  }

  /** Malformed values are skipped; if none is left, the field stays as it was. */
  function ParseHexValues(f: Filter): Filter {
    f.(eTagsBytes := ParsedBytes(f, 'e', f.eTagsBytes), pTagsBytes := ParsedBytes(f, 'p', f.pTagsBytes))
  }
}
