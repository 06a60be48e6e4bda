/** NIP-09 deletion requests: parsing the references of a kind-5 event (src/deletion.rs), and
    which stored events a coordinate reaches (src/store/index.rs:519-531). */
module Deletion {
  import opened Events

  const U32: nat := 0x1_0000_0000

  datatype Coordinate = Coordinate(kind: nat, pubkey: Id, dTag: string)

  datatype DeletionRequest = DeletionRequest(ids: set<Id>, coordinates: seq<Coordinate>)

  // ---------------------------------------------------------------- parsing

  predicate IsDigit(c: char) {
    '0' <= c <= '9'
  }

  function Decimal(digits: string): nat
    requires forall i :: 0 <= i < |digits| ==> IsDigit(digits[i])
  {
    if digits == [] then 0
    else
      assert IsDigit(digits[|digits| - 1]);
      10 * Decimal(digits[..|digits| - 1]) + (digits[|digits| - 1] as int - '0' as int)
  }

  /** `str::parse::<u32>`: an optional plus sign, at least one digit, no overflow. */
  function ParseU32(s: string): Option<nat> {
    var digits := if s != [] && s[0] == '+' then s[1..] else s;
    if digits != [] && (forall i :: 0 <= i < |digits| ==> IsDigit(digits[i])) && Decimal(digits) < U32
    then Some(Decimal(digits)) else None
  }

  /** Position of the first colon, or the length if there is none. */
  function Colon(s: string): (n: nat)
    ensures n <= |s|
    ensures n < |s| ==> s[n] == ':'
    ensures forall i :: 0 <= i < n ==> s[i] != ':'
  {
    if s == [] || s[0] == ':' then 0 else 1 + Colon(s[1..])
  }

  /** Split on the first two colons only; every part must be there and well formed. */
  function ParseCoordinate(value: string): Option<Coordinate> {
    var i := Colon(value);
    if i == |value| then None
    else
      var rest := value[i + 1..];
      var j := Colon(rest);
      if j == |rest| then None
      else
        match (ParseU32(value[..i]), ParseHex32(rest[..j]))
        case (Some(kind), Some(pubkey)) => Some(Coordinate(kind, pubkey, rest[j + 1..]))
        case _ => None
  }

  function DecimalText(n: nat): (s: string)
    ensures s != [] && forall i :: 0 <= i < |s| ==> IsDigit(s[i])
  {
    var last := [(n % 10 + '0' as int) as char];
    if n < 10 then last else DecimalText(n / 10) + last
  }

  lemma {:induction false} DecimalRoundTrip(n: nat)
    ensures Decimal(DecimalText(n)) == n
  {
    var s := DecimalText(n);
    if n >= 10 {
      assert s[..|s| - 1] == DecimalText(n / 10);
      DecimalRoundTrip(n / 10);
    } else {
      assert s[..|s| - 1] == [];
    }
  }

  /** A kind may be written with a plus sign, and is refused exactly if it does not fit 32 bits. */
  lemma KindParses(n: nat)
    ensures ParseU32(DecimalText(n)) == (if n < 4294967296 then Some(n) else None)
    ensures ParseU32("+" + DecimalText(n)) == (if n < 4294967296 then Some(n) else None)
  {
    hide Decimal, DecimalText;
    var s := DecimalText(n);
    DecimalRoundTrip(n);
    assert ("+" + s)[1..] == s && s[0] != '+';
  }

  function CoordinateText(c: Coordinate): string {
    DecimalText(c.kind) + ":" + HexEncode(c.pubkey) + ":" + c.dTag
  }

  lemma ColonAt(before: string, after: string)
    requires ':' !in before
    ensures Colon(before + ":" + after) == |before|
  {
    var s := before + ":" + after;
    assert s[|before|] == ':';
    assert forall i :: 0 <= i < |before| ==> s[i] == before[i];
  }

  /** Every coordinate reads back as written, whatever its d-identifier contains. */
  lemma CoordinateRoundTrip(c: Coordinate)
    requires c.kind < U32
    ensures ParseCoordinate(CoordinateText(c)) == Some(c)
  {
    hide ParseHex32, HexEncode, Decimal, DecimalText;
    var kind, key := DecimalText(c.kind), HexEncode(c.pubkey);
    var value := CoordinateText(c);
    var rest := key + ":" + c.dTag;
    assert value == kind + ":" + rest;
    assert ':' !in kind;
    ColonAt(kind, rest);
    assert value[..|kind|] == kind && value[|kind| + 1..] == rest;
    HexHasNoColon(c.pubkey);
    ColonAt(key, c.dTag);
    assert rest[..|key|] == key && rest[|key| + 1..] == c.dTag;
    DecimalRoundTrip(c.kind);
    assert kind[0] != '+';
    HexRoundTrip(c.pubkey);
  }

  /** And nothing else is a coordinate: two colons delimit a kind, a public key and the rest. */
  ghost predicate IsCoordinate(value: string, k: string, h: string, c: Coordinate) {
    && value == k + ":" + h + ":" + c.dTag && ':' !in k && ':' !in h
    && ParseU32(k) == Some(c.kind) && ParseHex32(h) == Some(c.pubkey)
  }

  lemma ColonSplits(s: string)
    requires Colon(s) < |s|
    ensures var i := Colon(s);
            ':' !in s[..i] && s == s[..i] + ":" + s[i + 1..]
  {
    hide Colon;
    var i := Colon(s);
    assert forall k :: 0 <= k < i ==> s[..i][k] == s[k];
    assert s == s[..i] + [s[i]] + s[i + 1..];
    assert ":" == [s[i]];
  }

  lemma CoordinateShape(value: string, c: Coordinate)
    ensures ParseCoordinate(value) == Some(c) <==> exists k, h :: IsCoordinate(value, k, h, c)
  {
    hide ParseHex32, ParseU32, Colon;
    if ParseCoordinate(value) == Some(c) {
      ColonSplits(value);
      var i := Colon(value);
      var rest := value[i + 1..];
      ColonSplits(rest);
      var j := Colon(rest);
      Regroup(value[..i], rest[..j], c.dTag);
      assert IsCoordinate(value, value[..i], rest[..j], c);
    }
    if k, h :| IsCoordinate(value, k, h, c) { CoordinateParses(value, k, h, c); }
  }

  lemma Regroup(k: string, h: string, d: string)
    ensures k + ":" + (h + ":" + d) == k + ":" + h + ":" + d
  {
  }

  lemma CoordinateParses(value: string, k: string, h: string, c: Coordinate)
    requires IsCoordinate(value, k, h, c)
    ensures ParseCoordinate(value) == Some(c)
  {
    hide ParseHex32, ParseU32;
    var rest := h + ":" + c.dTag;
    Regroup(k, h, c.dTag);
    ColonAt(k, rest);
    assert value[..|k|] == k && value[|k| + 1..] == rest;
    ColonAt(h, c.dTag);
    assert rest[..|h|] == h && rest[|h| + 1..] == c.dTag;
  }

  lemma HexHasNoColon(id: Id)
    ensures ':' !in HexEncode(id)
  {
    var s := HexEncode(id);
    forall i | 0 <= i < 64 ensures s[i] != ':' { HexEncodeAt(id, i / 2); }
  }

  /** The coordinates named by `a` tags, in order; malformed ones are skipped. */
  function CoordinatesOf(tags: seq<Tag>): seq<Coordinate> {
    if tags == [] then []
    else
      var n := |tags| - 1;
      var before := CoordinatesOf(tags[..n]);
      if tags[n].name == "a" && tags[n].Value().Some? && ParseCoordinate(tags[n].Value().value).Some?
      then before + [ParseCoordinate(tags[n].Value().value).value] else before
  }

  /** A tag called `a` whose first value is this coordinate. */
  ghost predicate NamesCoordinate(t: Tag, c: Coordinate) {
    t.name == "a" && t.Value().Some? && ParseCoordinate(t.Value().value) == Some(c)
  }

  /** `places` lists, in order, every tag that names a coordinate, and `cs` those coordinates. */
  ghost predicate ReadOff(tags: seq<Tag>, cs: seq<Coordinate>, places: seq<nat>) {
    && |places| == |cs|
    && (forall i :: 0 <= i < |places| ==> places[i] < |tags| && NamesCoordinate(tags[places[i]], cs[i]))
    && (forall i, j :: 0 <= i < j < |places| ==> places[i] < places[j])
    && (forall n, c :: 0 <= n < |tags| && NamesCoordinate(tags[n], c) ==> n in places)
  }

  lemma {:induction false} CoordinatesAre(tags: seq<Tag>) returns (places: seq<nat>)
    ensures ReadOff(tags, CoordinatesOf(tags), places)
  {
    hide ParseCoordinate;
    places := [];
    if tags != [] {
      var n := |tags| - 1;
      var before := CoordinatesAre(tags[..n]);
      places := before;
      var t := tags[n];
      if t.name == "a" && t.Value().Some? && ParseCoordinate(t.Value().value).Some? { places := before + [n]; }
      forall m, c | 0 <= m < |tags| && NamesCoordinate(tags[m], c) ensures m in places {
        if m < n { assert NamesCoordinate(tags[..n][m], c); }
      }
    }
  }

  method RequestOf(e: Event) returns (r: DeletionRequest, ghost places: seq<nat>)
    ensures forall x :: x in r.ids <==> HasTagId(e, "e", x)
    ensures ReadOff(e.tags, r.coordinates, places)
  {
    hide ParseHex32, ParseCoordinate;
    var ids: set<Id> := {};
    var coordinates: seq<Coordinate> := [];
    for n := 0 to |e.tags|
      invariant forall x :: x in ids <==>
                  exists t ::
                    t in e.tags[..n] && t.name == "e" && t.Value().Some? && ParseHex32(t.Value().value) == Some(x)
      invariant coordinates == CoordinatesOf(e.tags[..n])
    {
      var tag := e.tags[n];
      assert e.tags[..n + 1] == e.tags[..n] + [tag];
      assert e.tags[..n + 1][..n] == e.tags[..n];
      if tag.Value().Some? {
        var value := tag.Value().value;
        if tag.name == "e" {
          if ParseHex32(value).Some? {
            ids := ids + {ParseHex32(value).value};
          }
        } else if tag.name == "a" {
          if ParseCoordinate(value).Some? {
            coordinates := coordinates + [ParseCoordinate(value).value];
          }
        }
      }
    }
    assert e.tags[..|e.tags|] == e.tags;
    r := DeletionRequest(ids, coordinates);
    places := CoordinatesAre(e.tags);
  }

  // ---------------------------------------------------------------- reach of a coordinate

  function CoordinateKey(c: Coordinate): ReplacementKey {
    if c.dTag == "" then Replaceable(c.pubkey, c.kind) else Addressable(c.pubkey, c.kind, c.dTag)
  }

  /** What a coordinate stands for: the versions of one replaceable event, an absent
      d-identifier counting as the empty one. */
  ghost predicate Addresses(c: Coordinate, e: Event) {
    && (10000 <= e.kind < 20000 || 30000 <= e.kind < 40000) && e.pubkey == c.pubkey && e.kind == c.kind
    && (if e.kind >= 30000 && exists v :: HasD(e.tags, v) then HasD(e.tags, c.dTag) else c.dTag == "")
  }

  /** The key lookup reaches exactly the events the coordinate addresses, except addressable ones
      whose `d` tag is explicitly empty: they are filed under another key than the coordinate's. */
  lemma CoordinateReach(c: Coordinate, e: Event)
    ensures IsReplaceable(e) && KeyOf(e) == CoordinateKey(c) <==>
            Addresses(c, e) && !(e.kind >= 30000 && HasD(e.tags, ""))
  {
    DTagIs(e, c.dTag);
    DTagIs(e, "");
    if DTag(e).Some? { DTagIs(e, DTag(e).value); }
    if v :| HasD(e.tags, v) { DTagIs(e, v); }
  }
}
