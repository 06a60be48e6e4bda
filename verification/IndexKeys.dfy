/** The keys under which an event is filed in the secondary indexes
    (src/store/index.rs:86-108, 180-201, 315-381). The six maps of `EventIndex` are one
    map here, keyed by which index it is and the key within it. */
module IndexKeys {
  import opened Events
  import Oldest

  type TagHash = s: Bytes | |s| == 16 witness seq(16, i => 0)

  function Power2(width: nat): nat {
    if width == 0 then 1 else 2 * Power2(width - 1)
  }

  function XorLowest(a: nat, b: nat): (r: nat)
    ensures r < 2
  {
    if a % 2 == b % 2 then 0 else 1
  }

  /** Exclusive or of the low `width` bits, the lowest first. */
  function XorBits(a: nat, b: nat, width: nat): (r: nat)
    ensures r < Power2(width)
  {
    if width == 0 then 0 else XorLowest(a, b) + 2 * XorBits(a / 2, b / 2, width - 1)
  }

  function Xor(a: Byte, b: Byte): Byte {
    EightBits();
    XorBits(a as nat, b as nat, 8) as Byte
  }

  lemma EightBits()
    ensures Power2(8) == 256
  {
    assert Power2(2) == 4;
    assert Power2(4) == 16;
    assert Power2(6) == 64;
  }

  /** The two halves of an id folded together. */
  function Fold(id: Id): TagHash {
    seq(16, i requires 0 <= i < 16 => Xor(id[i], id[i + 16]))
  }

  datatype BucketKey =
    | ByPubkey(hash: TagHash)
    | ByKind(kind: nat)
    | ByTagE(hash: TagHash)
    | ByTagP(hash: TagHash)
    | ByTagOther(letter: char, value: string)
    | ByOldest(shard: nat)

  function ETagKeys(ids: seq<Id>): seq<BucketKey> {
    seq(|ids|, i requires 0 <= i < |ids| => ByTagE(Fold(ids[i])))
  }

  function PTagKeys(ids: seq<Id>): seq<BucketKey> {
    seq(|ids|, i requires 0 <= i < |ids| => ByTagP(Fold(ids[i])))
  }

  predicate IsOtherTag(t: Tag) {
    |t.name| == 1 && t.name[0] != 'e' && t.name[0] != 'p' && t.Value().Some?
  }

  function OtherTagKeys(tags: seq<Tag>): seq<BucketKey> {
    if tags == [] then []
    else if IsOtherTag(tags[0]) then
      [ByTagOther(tags[0].name[0], tags[0].Value().value)] + OtherTagKeys(tags[1..])
    else OtherTagKeys(tags[1..])
  }

  /** In the order `insert` writes them; repeated tags give repeated keys. */
  function KeysOf(e: Event): seq<BucketKey> {
    [ByPubkey(Fold(e.pubkey)), ByKind(e.kind)]
    + ETagKeys(TagIds(e.tags, "e"))
    + PTagKeys(TagIds(e.tags, "p"))
    + OtherTagKeys(e.tags)
    + [ByOldest(Oldest.ShardOf(e.id))]
  }

  /** Whether an event belongs in a bucket, said without the list. */
  ghost predicate Belongs(e: Event, k: BucketKey) {
    match k
    case ByPubkey(h) => h == Fold(e.pubkey)
    case ByKind(n) => n == e.kind
    case ByTagE(h) => exists x :: x in TagIds(e.tags, "e") && Fold(x) == h
    case ByTagP(h) => exists x :: x in TagIds(e.tags, "p") && Fold(x) == h
    case ByTagOther(letter, value) => letter != 'e' && letter != 'p' && HasTag(e, letter, value)
    case ByOldest(n) => n == Oldest.ShardOf(e.id)
  }

  lemma {:induction false} OtherTagKeysAre(tags: seq<Tag>, k: BucketKey)
    ensures k in OtherTagKeys(tags) <==>
            k.ByTagOther? && k.letter != 'e' && k.letter != 'p'
            && exists t :: t in tags && IsLetterTag(t, k.letter) && t.Value() == Some(k.value)
  {
    if tags != [] {
      OtherTagKeysAre(tags[1..], k);
      assert forall t :: t in tags <==> t == tags[0] || t in tags[1..];
      if k in OtherTagKeys(tags[1..]) {
        var t :| t in tags[1..] && IsLetterTag(t, k.letter) && t.Value() == Some(k.value);
        assert t in tags;
      }
      if IsOtherTag(tags[0]) {
        assert tags[0].name == [tags[0].name[0]];
        assert tags[0] in tags;
      }
    }
  }

  lemma ETagKeysAre(ids: seq<Id>, k: BucketKey)
    ensures k in ETagKeys(ids) <==> k.ByTagE? && exists x :: x in ids && Fold(x) == k.hash
    ensures k in PTagKeys(ids) <==> k.ByTagP? && exists x :: x in ids && Fold(x) == k.hash
  {
    if k.ByTagE? && exists x :: x in ids && Fold(x) == k.hash {
      var i :| 0 <= i < |ids| && Fold(ids[i]) == k.hash;
      assert ETagKeys(ids)[i] == k;
    }
    if k.ByTagP? && exists x :: x in ids && Fold(x) == k.hash {
      var i :| 0 <= i < |ids| && Fold(ids[i]) == k.hash;
      assert PTagKeys(ids)[i] == k;
    }
  }

  lemma KeysAreBelonging(e: Event, k: BucketKey)
    ensures k in KeysOf(e) <==> Belongs(e, k)
  {
    var a := [ByPubkey(Fold(e.pubkey)), ByKind(e.kind)];
    var b, c, d := ETagKeys(TagIds(e.tags, "e")), PTagKeys(TagIds(e.tags, "p")), OtherTagKeys(e.tags);
    var f := [ByOldest(Oldest.ShardOf(e.id))];
    assert KeysOf(e) == a + b + c + d + f;
    assert k in KeysOf(e) <==> k in a || k in b || k in c || k in d || k in f;
    ETagKeysAre(TagIds(e.tags, "e"), k);
    ETagKeysAre(TagIds(e.tags, "p"), k);
    OtherTagKeysAre(e.tags, k);
  }

  lemma {:induction false} BitsSwap(a: nat, b: nat, c: nat, d: nat, width: nat)
    ensures XorBits(a, b, width) == XorBits(c, d, width) <==> XorBits(a, c, width) == XorBits(b, d, width)
  {
    if width > 0 {
      BitsSwap(a / 2, b / 2, c / 2, d / 2, width - 1);
      LowestSwap(a, b, c, d);
      hide XorLowest;
      BitByBit(a, b, c, d, width);
      BitByBit(a, c, b, d, width);
    }
  }

  lemma BitByBit(a: nat, b: nat, c: nat, d: nat, width: nat)
    requires width > 0
    ensures XorBits(a, b, width) == XorBits(c, d, width) <==>
            && XorLowest(a, b) == XorLowest(c, d)
            && XorBits(a / 2, b / 2, width - 1) == XorBits(c / 2, d / 2, width - 1)
  {
    hide XorLowest;
  }

  lemma LowestSwap(a: nat, b: nat, c: nat, d: nat)
    ensures XorLowest(a, b) == XorLowest(c, d) <==> XorLowest(a, c) == XorLowest(b, d)
  {
  }

  lemma {:induction false} BitsZero(a: nat, b: nat, width: nat)
    requires a < Power2(width) && b < Power2(width)
    ensures XorBits(a, b, width) == 0 <==> a == b
  {
    if width > 0 { BitsZero(a / 2, b / 2, width - 1); }
  }

  lemma XorZero(a: Byte, b: Byte)
    ensures Xor(a, b) == 0 <==> a == b
  {
    EightBits();
    BitsZero(a as nat, b as nat, 8);
  }

  lemma XorSwap(a: Byte, b: Byte, c: Byte, d: Byte)
    ensures Xor(a, b) == Xor(c, d) <==> Xor(a, c) == Xor(b, d)
  {
    BitsSwap(a as nat, b as nat, c as nat, d as nat, 8);
  }

  /** Exactly which ids share a fold: those whose first halves differ by what their second halves
      differ by. */
  lemma FoldsCollideIff(a: Id, b: Id)
    ensures Fold(a) == Fold(b) <==> forall i :: 0 <= i < 16 ==> Xor(a[i], b[i]) == Xor(a[i + 16], b[i + 16])
  {
    forall i | 0 <= i < 16
      ensures Fold(a)[i] == Fold(b)[i] <==> Xor(a[i], b[i]) == Xor(a[i + 16], b[i + 16])
    {
      XorSwap(a[i], a[i + 16], b[i], b[i + 16]);
    }
    if Fold(a) == Fold(b) { assert forall i :: 0 <= i < 16 ==> Fold(a)[i] == Fold(b)[i]; }
    if forall i :: 0 <= i < 16 ==> Xor(a[i], b[i]) == Xor(a[i + 16], b[i + 16]) { assert Fold(a) == Fold(b); }
  }

  ghost predicate ShareHalf(a: Id, b: Id) {
    (forall i :: 0 <= i < 16 ==> a[i] == b[i]) || (forall i :: 16 <= i < 32 ==> a[i] == b[i])
  }

  /** The fold tells apart any two ids that agree on one half; in particular it changes with any
      single byte. */
  lemma FoldSeparatesHalves(a: Id, b: Id)
    requires ShareHalf(a, b)
    ensures Fold(a) == Fold(b) <==> a == b
  {
    FoldsCollideIff(a, b);
    if Fold(a) == Fold(b) {
      forall i | 0 <= i < 32 ensures a[i] == b[i] {
        var j := if i < 16 then i else i - 16;
        assert Xor(a[j], b[j]) == Xor(a[j + 16], b[j + 16]);
        XorZero(a[j], b[j]);
        XorZero(a[j + 16], b[j + 16]);
      }
      assert a == b;
    }
  }

  lemma FoldSeesEveryByte(a: Id, i: nat, x: Byte)
    requires i < 32 && x != a[i]
    ensures var b: Id := a[i := x]; Fold(a) != Fold(b)
  {
    FoldSeparatesHalves(a, a[i := x]);
  }

  /** The fold forgets half of the id, so different ids can share a bucket. */
  lemma FoldIsNotInjective(x: Byte, y: Byte)
    requires x != y
    ensures var a: Id := seq(32, i => x); var b: Id := seq(32, i => y);
            a != b && Fold(a) == Fold(b)
  {
    var a: Id := seq(32, i => x);
    var b: Id := seq(32, i => y);
    assert a[0] != b[0];
    XorZero(x, x);
    XorZero(y, y);
    assert forall i :: 0 <= i < 16 ==> Fold(a)[i] == Fold(b)[i];
  }
}
