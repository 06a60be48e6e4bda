/** Parsed Nostr events, their kinds and replacement keys, and the order in which
    the store ranks them (src/event.rs and the `EventRef` order of src/store/index.rs). */
module Events {

  datatype Option<+T> = None | Some(value: T)

  newtype Byte = b: int | 0 <= b < 256
  type Bytes = seq<Byte>

  /** A 32-byte event id or public key. */
  type Id = s: Bytes | |s| == 32 witness seq(32, i => 0)

  datatype Tag = Tag(name: string, values: seq<string>) {
    function Value(): Option<string> {
      if values == [] then None else Some(values[0])
    }
  }

  /** `content` and `sig` take part in no decision of the relay; they travel inside `raw`. */
  datatype Event = Event(id: Id, pubkey: Id, createdAt: nat, kind: nat, tags: seq<Tag>, raw: Bytes)

  /** What an event id stands for. Ids are SHA-256 digests, so an id determines its event;
      every property that needs this fact takes the catalogue as a parameter. */
  type Catalogue = Id -> Event

  ghost predicate Genuine(cat: Catalogue, e: Event) {
    cat(e.id) == e
  }

  // ---------------------------------------------------------------- hex

  predicate IsHexDigit(c: char) {
    '0' <= c <= '9' || 'a' <= c <= 'f' || 'A' <= c <= 'F'
  }

  function HexValue(c: char): (v: Byte)
    requires IsHexDigit(c)
    ensures v < 16
  {
    if '0' <= c <= '9' then (c as int - '0' as int) as Byte
    else if 'a' <= c <= 'f' then (c as int - 'a' as int + 10) as Byte
    else (c as int - 'A' as int + 10) as Byte
  }

  /** Upper and lower case digits are both accepted; anything but 64 digits is refused. */
  function ParseHex32(s: string): Option<Id> {
    if |s| == 64 && (forall i :: 0 <= i < 64 ==> IsHexDigit(s[i])) then
      Some(seq(32, i requires 0 <= i < 32 => 16 * HexValue(s[2 * i]) + HexValue(s[2 * i + 1])))
    else
      None
  }

  function HexDigit(v: Byte): (c: char)
    requires v < 16
    ensures IsHexDigit(c) && HexValue(c) == v
  {
    if v < 10 then ('0' as int + v as int) as char else ('a' as int + v as int - 10) as char
  }

  function HexEncode(id: Id): (s: string)
    ensures |s| == 64
  {
    seq(64, i requires 0 <= i < 64 => if i % 2 == 0 then HexDigit(id[i / 2] / 16) else HexDigit(id[i / 2] % 16))
  }

  lemma HexEncodeAt(id: Id, i: nat)
    requires i < 32
    ensures HexEncode(id)[2 * i] == HexDigit(id[i] / 16)
    ensures HexEncode(id)[2 * i + 1] == HexDigit(id[i] % 16)
  {
    assert (2 * i) / 2 == i && (2 * i + 1) / 2 == i && (2 * i + 1) % 2 == 1;
  }

  lemma HexRoundTrip(id: Id)
    ensures ParseHex32(HexEncode(id)) == Some(id)
  {
    var s := HexEncode(id);
    forall i | 0 <= i < 64
      ensures IsHexDigit(s[i])
    {
      HexEncodeAt(id, i / 2);
    }
    var decoded := ParseHex32(s).value;
    forall i | 0 <= i < 32
      ensures decoded[i] == id[i]
    {
      HexEncodeAt(id, i);
    }
    assert decoded == id;
  }

  function LowerDigit(c: char): char {
    if 'A' <= c <= 'F' then (c as int - 'A' as int + 'a' as int) as char else c
  }

  function Lower(s: string): string {
    seq(|s|, i requires 0 <= i < |s| => LowerDigit(s[i]))
  }

  lemma DigitOfValue(c: char)
    ensures IsHexDigit(c) ==> HexDigit(HexValue(c)) == LowerDigit(c)
    ensures !IsHexDigit(c) ==> !IsHexDigit(LowerDigit(c))
  {
  }

  lemma Nibbles(high: Byte, low: Byte)
    requires high < 16 && low < 16
    ensures (16 * high + low) / 16 == high && (16 * high + low) % 16 == low
  {
  }

  lemma HexReadsAt(s: string, id: Id, i: nat)
    requires ParseHex32(s) == Some(id) && i < 64
    ensures |s| == 64 && LowerDigit(s[i]) == HexEncode(id)[i]
  {
    hide HexEncode, HexValue, HexDigit;
    var k := i / 2;
    var high, low := HexValue(s[2 * k]), HexValue(s[2 * k + 1]);
    assert id[k] == 16 * high + low;
    Nibbles(high, low);
    HexEncodeAt(id, k);
    DigitOfValue(s[2 * k]);
    DigitOfValue(s[2 * k + 1]);
    assert i == 2 * k || i == 2 * k + 1;
  }

  lemma HexReads(s: string, id: Id)
    requires ParseHex32(s) == Some(id)
    ensures Lower(s) == HexEncode(id)
  {
    hide ParseHex32, HexEncode, LowerDigit;
    HexReadsAt(s, id, 0);
    forall i | 0 <= i < 64 ensures Lower(s)[i] == HexEncode(id)[i] { HexReadsAt(s, id, i); }
  }

  lemma HexDigitsAre(s: string, id: Id)
    requires Lower(s) == HexEncode(id)
    ensures |s| == 64 && forall i :: 0 <= i < 64 ==> IsHexDigit(s[i]) && HexDigit(HexValue(s[i])) == HexEncode(id)[i]
  {
    assert |Lower(s)| == |s|;
    forall i | 0 <= i < 64 ensures IsHexDigit(s[i]) && HexDigit(HexValue(s[i])) == HexEncode(id)[i] {
      assert Lower(s)[i] == HexEncode(id)[i];
      HexEncodeAt(id, i / 2);
      DigitOfValue(s[i]);
    }
  }

  /** A text decodes to an id exactly if it is the id's 64 digits, in either case. */
  lemma HexIs(s: string, id: Id)
    ensures ParseHex32(s) == Some(id) <==> Lower(s) == HexEncode(id)
  {
    hide Lower, HexEncode;
    if ParseHex32(s) == Some(id) { HexReads(s, id); }
    if Lower(s) == HexEncode(id) {
      HexDigitsAre(s, id);
      var got := ParseHex32(s).value;
      forall i | 0 <= i < 32 ensures got[i] == id[i] {
        HexEncodeAt(id, i);
        SameDigitSameValue(HexValue(s[2 * i]), id[i] / 16);
        SameDigitSameValue(HexValue(s[2 * i + 1]), id[i] % 16);
      }
      assert got == id;
    }
  }

  lemma SameDigitSameValue(a: Byte, b: Byte)
    requires a < 16 && b < 16 && HexDigit(a) == HexDigit(b)
    ensures a == b
  {
  }

  // ---------------------------------------------------------------- kinds and keys

  predicate IsEphemeral(e: Event) {
    20000 <= e.kind < 30000
  }

  /** Kinds 0 and 3 are not in the list: the relay keeps every version of them. */
  predicate IsReplaceable(e: Event) {
    10000 <= e.kind < 20000 || 30000 <= e.kind < 40000
  }

  /** NIP-01's replaceable and addressable kinds. */
  predicate NipReplaceable(kind: nat) {
    kind == 0 || kind == 3 || 10000 <= kind < 20000 || 30000 <= kind < 40000
  }

  predicate IsAddressable(e: Event) {
    30000 <= e.kind < 40000
  }

  function FirstValueOf(tags: seq<Tag>, name: string): Option<string> {
    if tags == [] then None
    else if tags[0].name == name && tags[0].Value().Some? then tags[0].Value()
    else FirstValueOf(tags[1..], name)
  }

  function DTag(e: Event): Option<string> {
    if IsAddressable(e) then FirstValueOf(e.tags, "d") else None
  }

  ghost predicate IsDTag(t: Tag) {
    t.name == "d" && t.Value().Some?
  }

  /** The first tag called `d` that has a value has this one. */
  ghost predicate HasD(tags: seq<Tag>, v: string) {
    exists i :: 0 <= i < |tags| && IsDTag(tags[i]) && tags[i].Value() == Some(v)
                && forall j :: 0 <= j < i ==> !IsDTag(tags[j])
  }

  lemma {:induction false} FirstValueIsD(tags: seq<Tag>, v: string)
    ensures FirstValueOf(tags, "d") == Some(v) <==> HasD(tags, v)
  {
    if tags != [] {
      var rest := tags[1..];
      FirstValueIsD(rest, v);
      if IsDTag(tags[0]) {
        if HasD(tags, v) {
          var i :| 0 <= i < |tags| && IsDTag(tags[i]) && tags[i].Value() == Some(v)
                   && forall j :: 0 <= j < i ==> !IsDTag(tags[j]);
          assert i == 0;
        }
      } else {
        if HasD(rest, v) {
          var i :| 0 <= i < |rest| && IsDTag(rest[i]) && rest[i].Value() == Some(v)
                   && forall j :: 0 <= j < i ==> !IsDTag(rest[j]);
          assert forall j :: 0 <= j < i + 1 ==> !IsDTag(tags[j]) by {
            assert forall j :: 0 < j < i + 1 ==> tags[j] == rest[j - 1];
          }
          assert tags[i + 1] == rest[i];
        }
        if HasD(tags, v) {
          var i :| 0 <= i < |tags| && IsDTag(tags[i]) && tags[i].Value() == Some(v)
                   && forall j :: 0 <= j < i ==> !IsDTag(tags[j]);
          assert rest[i - 1] == tags[i] && forall j :: 0 <= j < i - 1 ==> rest[j] == tags[j + 1];
        }
      }
    }
  }

  /** The d-identifier is the value of the first `d` tag that has one, and only addressable events
      have one. */
  lemma DTagIs(e: Event, v: string)
    ensures DTag(e) == Some(v) <==> 30000 <= e.kind < 40000 && HasD(e.tags, v)
  {
    FirstValueIsD(e.tags, v);
  }

  datatype ReplacementKey =
    | NoKey
    | Replaceable(pubkey: Id, kind: nat)
    | Addressable(pubkey: Id, kind: nat, dTag: string)

  function KeyOf(e: Event): ReplacementKey {
    if IsAddressable(e) then
      match DTag(e)
      case Some(d) => Addressable(e.pubkey, e.kind, d)
      case None => Replaceable(e.pubkey, e.kind)
    else if IsReplaceable(e) then Replaceable(e.pubkey, e.kind)
    else NoKey
  }

  /** The place an event competes for: all versions of one replaceable event share a
      slot, every other event has a slot to itself. */
  datatype Slot = Keyed(key: ReplacementKey) | Single(id: Id)

  function SlotOf(e: Event): Slot {
    if IsReplaceable(e) then Keyed(KeyOf(e)) else Single(e.id)
  }

  /** Same author and kind, and for addressable kinds the same d-identifier or none. */
  ghost predicate SameAddress(a: Event, b: Event) {
    && a.pubkey == b.pubkey && a.kind == b.kind
    && (30000 <= a.kind < 40000 ==> forall v :: HasD(a.tags, v) <==> HasD(b.tags, v))
  }

  /** Who competes with whom: versions of a replaceable event with each other, any other event
      only with itself. */
  lemma CompeteIff(a: Event, b: Event)
    ensures SlotOf(a) == SlotOf(b) <==>
            if 10000 <= a.kind < 20000 || 30000 <= a.kind < 40000 then SameAddress(a, b)
            else a.id == b.id && !(10000 <= b.kind < 20000 || 30000 <= b.kind < 40000)
  {
    if 30000 <= a.kind < 40000 && a.kind == b.kind {
      forall v ensures DTag(a) == Some(v) <==> HasD(a.tags, v)
               ensures DTag(b) == Some(v) <==> HasD(b.tags, v)
      {
        DTagIs(a, v);
        DTagIs(b, v);
      }
      if forall v :: HasD(a.tags, v) <==> HasD(b.tags, v) {
        if DTag(a).Some? { assert HasD(b.tags, DTag(a).value); }
        if DTag(b).Some? { assert HasD(a.tags, DTag(b).value); }
        assert DTag(a) == DTag(b);
      }
    }
  }

  /** The 32-byte values of the tags called `name`, malformed ones skipped. */
  function TagIds(tags: seq<Tag>, name: string): seq<Id> {
    if tags == [] then []
    else
      var rest := TagIds(tags[1..], name);
      if tags[0].name == name && tags[0].Value().Some? && ParseHex32(tags[0].Value().value).Some?
      then [ParseHex32(tags[0].Value().value).value] + rest
      else rest
  }

  ghost predicate HasTagId(e: Event, name: string, x: Id) {
    exists t :: t in e.tags && t.name == name && t.Value().Some? && ParseHex32(t.Value().value) == Some(x)
  }

  lemma {:induction false} TagIdsAreTheDecodedValues(tags: seq<Tag>, name: string, x: Id)
    ensures x in TagIds(tags, name) <==>
            exists t :: t in tags && t.name == name && t.Value().Some? && ParseHex32(t.Value().value) == Some(x)
  {
    if tags != [] {
      TagIdsAreTheDecodedValues(tags[1..], name, x);
      assert forall t :: t in tags <==> t == tags[0] || t in tags[1..];
    }
  }

  /** `tag.name` is exactly one character, and it is `letter`. */
  predicate IsLetterTag(t: Tag, letter: char) {
    t.name == [letter]
  }

  ghost predicate HasTag(e: Event, letter: char, value: string) {
    exists t :: t in e.tags && IsLetterTag(t, letter) && t.Value() == Some(value)
  }

  // ---------------------------------------------------------------- order

  predicate LexLess(a: Bytes, b: Bytes) {
    if a == [] || b == [] then |a| < |b|
    else if a[0] != b[0] then a[0] < b[0]
    else LexLess(a[1..], b[1..])
  }

  lemma {:induction false} LexLessIrreflexive(a: Bytes)
    ensures !LexLess(a, a)
  {
    if a != [] { LexLessIrreflexive(a[1..]); }
  }

  lemma {:induction false} LexLessTransitive(a: Bytes, b: Bytes, c: Bytes)
    requires LexLess(a, b) && LexLess(b, c)
    ensures LexLess(a, c)
  {
    if a != [] && b != [] && c != [] && a[0] == b[0] == c[0] {
      LexLessTransitive(a[1..], b[1..], c[1..]);
    }
  }

  lemma {:induction false} LexLessTotal(a: Bytes, b: Bytes)
    ensures LexLess(a, b) || LexLess(b, a) || a == b
  {
    if a != [] && b != [] && a[0] == b[0] {
      LexLessTotal(a[1..], b[1..]);
      assert a == [a[0]] + a[1..] && b == [b[0]] + b[1..];
    }
  }

  /** At the first place where the two differ, `a` has the smaller byte. */
  ghost predicate LowerAt(a: Bytes, b: Bytes, i: nat) {
    i < |a| && i < |b| && a[..i] == b[..i] && a[i] < b[i]
  }

  lemma {:induction false} LexLessIs(a: Bytes, b: Bytes)
    requires |a| == |b|
    ensures LexLess(a, b) <==> exists i :: LowerAt(a, b, i)
  {
    if a != [] {
      LexLessIs(a[1..], b[1..]);
      if a[0] < b[0] { assert LowerAt(a, b, 0); }
      if a[0] == b[0] {
        if i: nat :| LowerAt(a[1..], b[1..], i) {
          assert a[..i + 1] == [a[0]] + a[1..][..i] && b[..i + 1] == [b[0]] + b[1..][..i];
          assert LowerAt(a, b, i + 1);
        }
      }
      if i: nat :| LowerAt(a, b, i) {
        if i > 0 {
          assert a[..i][0] == b[..i][0];
          assert a[1..][..i - 1] == a[..i][1..] && b[1..][..i - 1] == b[..i][1..];
          assert LowerAt(a[1..], b[1..], i - 1);
        }
      }
    }
  }

  /** Later `created_at` first, then the lower id. This is both the order of the sorted
      indexes and the rule by which an incoming version displaces the stored one. */
  predicate Before(a: Event, b: Event) {
    a.createdAt > b.createdAt || (a.createdAt == b.createdAt && LexLess(a.id, b.id))
  }

  lemma BeforeIrreflexive(a: Event)
    ensures !Before(a, a)
  {
    LexLessIrreflexive(a.id);
  }

  lemma BeforeTransitive(a: Event, b: Event, c: Event)
    requires Before(a, b) && Before(b, c)
    ensures Before(a, c)
  {
    if a.createdAt == b.createdAt == c.createdAt { LexLessTransitive(a.id, b.id, c.id); }
  }

  lemma BeforeTotal(a: Event, b: Event)
    ensures Before(a, b) || Before(b, a) || (a.id == b.id && a.createdAt == b.createdAt)
    ensures Before(a, b) ==> !Before(b, a) && a != b
  {
    LexLessTotal(a.id, b.id);
    LexLessIrreflexive(a.id);
    if Before(a, b) && Before(b, a) { BeforeTransitive(a, b, a); }
  }
}
