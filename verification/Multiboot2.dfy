/**
 The Multiboot2 information structure: the builder that lays out tags, and the reader that walks
 over them. Offsets into the image stand for the addresses of the reader.
 */
module Multiboot2 {
  import opened Bits
  import opened OrderMath
  import opened Wrappers

  type Byte = x: int | 0 <= x < 256

  const U32 := 0x1_0000_0000

  /** The bytes of a 32-bit word, least significant first. */
  function Le32(x: nat): (s: seq<Byte>)
    requires x < U32
    ensures |s| == 4
  {
    [x % 256, x / 0x100 % 256, x / 0x1_0000 % 256, x / 0x100_0000]
  }

  function Get32(raw: seq<Byte>, p: nat): (x: nat)
    requires p + 4 <= |raw|
    ensures x < U32
  {
    var a: int := raw[p];
    var b: int := raw[p + 1];
    var c: int := raw[p + 2];
    var d: int := raw[p + 3];
    a + 0x100 * b + 0x1_0000 * c + 0x100_0000 * d
  }

  lemma GetLe32(raw: seq<Byte>, p: nat, x: nat)
    requires p + 4 <= |raw| && x < U32 && raw[p..p + 4] == Le32(x)
    ensures Get32(raw, p) == x
  {
    var s := Le32(x);
    assert raw[p] == s[0] && raw[p + 1] == s[1] && raw[p + 2] == s[2] && raw[p + 3] == s[3];
    assert x / 0x100 / 256 == x / 0x1_0000 && x / 0x1_0000 / 256 == x / 0x100_0000;
  }

  // ----- the layout

  /** A tag as it is added: the members behind its type and size, and its payload. */
  datatype Tag = Tag(typ: nat, fields: seq<Byte>, payload: seq<Byte>)

  ghost predicate Addable(t: Tag) {
    t.typ < U32 && |t.fields| + |t.payload| < MAX_BIT
  }

  function TagSize(t: Tag): nat {
    8 + |t.fields| + |t.payload|
  }

  /** A size rounded up to a multiple of eight. */
  function Padded(n: nat): (r: nat)
    ensures n <= r < n + 8
  {
    (n + 7) / 8 * 8
  }

  function Zeros(n: nat): (s: seq<Byte>)
    ensures |s| == n
  {
    seq(n, _ => 0)
  }

  function TagBytes(t: Tag): (s: seq<Byte>)
    requires t.typ < U32
    ensures |s| == Padded(TagSize(t))
  {
    var n := TagSize(t);
    Le32(t.typ) + Le32(n % U32) + t.fields + t.payload + Zeros(Padded(n) - n)
  }

  ghost predicate AllAddable(tags: seq<Tag>) {
    forall i :: 0 <= i < |tags| ==> Addable(tags[i])
  }

  ghost function TagsBytes(tags: seq<Tag>): seq<Byte>
    requires AllAddable(tags)
  {
    if tags == [] then [] else TagBytes(tags[0]) + TagsBytes(tags[1..])
  }

  const NULL_TAG: seq<Byte> := [0, 0, 0, 0, 8, 0, 0, 0]

  /** The fixed part: total size and a reserved word. */
  function Heading(total: nat): (s: seq<Byte>)
    requires total < U32
    ensures |s| == 8
  {
    Le32(total) + Le32(0)
  }

  /** The structure as a whole: total size, a reserved word, the tags and the null tag. */
  ghost function Image(tags: seq<Tag>): seq<Byte>
    requires AllAddable(tags)
  {
    Heading((16 + |TagsBytes(tags)|) % U32) + TagsBytes(tags) + NULL_TAG
  }

  /** Rounding up by masks rounds up to a multiple of eight. */
  lemma AlignUpIsPadded(n: nat)
    requires n + 7 < WORD
    ensures AlignUp(n, 3) == Padded(n)
  {
    hide AlignUp, Aligned;
    AlignUpMeaning(n, 3);
    EightIs();
    var r := AlignUp(n, 3);
    assert r % 8 == 0 by { AlignedIsMultiple(r, 3); }
    assert n <= r < n + 8;
  }

  lemma EightIs()
    ensures Pow2(3) == 8
  {
    assert Pow2(1) == 2 && Pow2(2) == 4;
  }

  // ----- the builder

  class Builder {
    var rawData: seq<seq<Byte>>
    ghost var tags: seq<Tag>

    ghost predicate Valid()
      reads this
    {
      && AllAddable(tags)
      && |rawData| == |tags|
      && forall i :: 0 <= i < |tags| ==> rawData[i] == TagBytes(tags[i])
    }

    constructor ()
      ensures Valid() && tags == []
    {
      rawData, tags := [], [];
    }

    /** `add_tag`: the size is filled in, and zeros pad the tag to eight bytes. */
    method AddTag(typ: nat, fields: seq<Byte>, payload: seq<Byte>)
      requires Valid() && Addable(Tag(typ, fields, payload))
      modifies this
      ensures Valid() && tags == old(tags) + [Tag(typ, fields, payload)]
    {
      hide AlignUp, Le32, Pow2;
      var size := 8 + |fields| + |payload|;
      AlignUpIsPadded(size);
      var aligned := AlignUp(size, 3);
      var tagRaw := Le32(typ) + Le32(size % U32) + fields;
      tagRaw := tagRaw + payload;
      tagRaw := tagRaw + Zeros(aligned - |tagRaw|);
      rawData := rawData + [tagRaw];
      tags := tags + [Tag(typ, fields, payload)];
    }

    /** The sum over the tags, kept in a 32-bit word. */
    method TagsTotal() returns (tagsSize: nat)
      requires Valid()
      ensures tagsSize == |TagsBytes(tags)| % U32
    {
      hide Le32, TagBytes, TagsBytes, Add32;
      tagsSize := 0;
      NoTags();
      for i := 0 to |rawData|
        invariant tagsSize == |TagsBytes(tags[..i])| % U32
      {
        TagsSnoc(tags, i);
        Add32Mod(|TagsBytes(tags[..i])|, |rawData[i]|);
        tagsSize := Add32(tagsSize, |rawData[i]|);
      }
      assert tags[..|tags|] == tags;
    }

    /** `build`. */
    method Build() returns (ret: seq<Byte>)
      requires Valid()
      ensures ret == Image(tags)
    {
      hide Le32, TagBytes, TagsBytes;
      var tagsSize := TagsTotal();
      ret := Heading((8 + tagsSize + 8) % U32);
      ghost var fix := ret;
      NoTags();
      for i := 0 to |rawData|
        invariant ret == fix + TagsBytes(tags[..i])
      {
        TagsSnoc(tags, i);
        ret := ret + rawData[i];
      }
      assert tags[..|tags|] == tags;
      ret := ret + NULL_TAG;
    }
  }

  function Add32(x: nat, y: nat): nat {
    (x + y) % U32
  }

  lemma Add32Mod(x: nat, y: nat)
    ensures Add32(x % U32, y) == (x + y) % U32
  {
  }

  lemma NoTags()
    ensures TagsBytes([]) == []
  {
  }

  lemma TagsSnoc(tags: seq<Tag>, i: nat)
    requires AllAddable(tags) && i < |tags|
    ensures TagsBytes(tags[..i + 1]) == TagsBytes(tags[..i]) + TagBytes(tags[i])
  {
    TagsAppend(tags[..i], tags[i]);
    assert tags[..i + 1] == tags[..i] + [tags[i]];
  }

  lemma {:induction false} TagsAppend(tags: seq<Tag>, t: Tag)
    requires AllAddable(tags) && Addable(t)
    ensures TagsBytes(tags + [t]) == TagsBytes(tags) + TagBytes(t)
  {
    hide TagBytes;
    if tags == [] {
      assert tags + [t] == [t];
    } else {
      TagsAppend(tags[1..], t);
      assert (tags + [t])[1..] == tags[1..] + [t];
    }
  }

  // ----- the reader

  /** What the iterator yields: type and size of a tag, and where it is. */
  datatype Item = Item(typ: nat, size: nat, addr: nat)

  function ItemAt(raw: seq<Byte>, p: nat): Item
    requires p + 8 <= |raw|
  {
    Item(Get32(raw, p), Get32(raw, p + 4), p)
  }

  /** How far `operator++` moves, computed in 32 bits. */
  function Step(size: nat): nat
    requires size < U32
  {
    AlignUp(size, 3) % U32
  }

  /** Every step from p on stays inside the image, and one lands on the end. */
  ghost predicate Walkable(raw: seq<Byte>, p: nat, end: nat)
    decreases end - p
  {
    || p == end
    || (p < end && p + 8 <= |raw| && 0 < Step(ItemAt(raw, p).size) && Walkable(raw, p + Step(ItemAt(raw, p).size), end))
  }

  ghost function Walk(raw: seq<Byte>, p: nat, end: nat): seq<Item>
    requires Walkable(raw, p, end)
    decreases end - p
  {
    if p == end then [] else [ItemAt(raw, p)] + Walk(raw, p + Step(ItemAt(raw, p).size), end)
  }

  /** The first item of a type. */
  ghost predicate IsFirst(items: seq<Item>, typ: nat, r: Option<Item>) {
    match r
    case None => forall i :: 0 <= i < |items| ==> items[i].typ != typ
    case Some(item) =>
      exists k :: && 0 <= k < |items| && items[k] == item && item.typ == typ
                  && forall i :: 0 <= i < k ==> items[i].typ != typ
  }

  class TagIterator {
    const raw: seq<Byte>
    var current: nat

    constructor (raw: seq<Byte>, addr: nat)
      ensures this.raw == raw && current == addr
    {
      this.raw, current := raw, addr;
    }

    method Deref() returns (item: Item)
      requires current + 8 <= |raw|
      ensures item == ItemAt(raw, current)
    {
      item := Item(Get32(raw, current), Get32(raw, current + 4), current);
    }

    /** `operator++` drops the first item of the walk. */
    method Advance(ghost end: nat)
      requires Walkable(raw, current, end) && current != end
      modifies this
      ensures Walkable(raw, current, end) && old(current) < current
      ensures [ItemAt(raw, old(current))] + Walk(raw, current, end) == old(Walk(raw, current, end))
    {
      hide AlignUp, Get32;
      var item := Deref();
      current := current + AlignUp(item.size, 3) % U32;
    }
  }

  /** `find_tag`: the first tag of the type, if there is one. */
  method FindTag(raw: seq<Byte>, typ: nat) returns (r: Option<Item>)
    requires 4 <= |raw| && Walkable(raw, 8, Get32(raw, 0))
    ensures IsFirst(Walk(raw, 8, Get32(raw, 0)), typ, r)
  {
    hide Get32, Step, Walkable, Walk;
    var end := Get32(raw, 0);
    var it := new TagIterator(raw, 8);
    ghost var items, seen := Walk(raw, 8, end), [];
    while it.current != end
      invariant it.raw == raw && Walkable(raw, it.current, end) && items == seen + Walk(raw, it.current, end)
      invariant forall i :: 0 <= i < |seen| ==> seen[i].typ != typ
      decreases end - it.current
    {
      WalkHead(raw, it.current, end);
      var item := it.Deref();
      if item.typ == typ {
        assert items[|seen|] == item;
        return Some(item);
      }
      it.Advance(end);
      seen := seen + [item];
    }
    WalkDone(raw, end);
    return None;
  }

  lemma WalkHead(raw: seq<Byte>, p: nat, end: nat)
    requires Walkable(raw, p, end) && p != end
    ensures p < end && p + 8 <= |raw| && Walk(raw, p, end) != [] && Walk(raw, p, end)[0] == ItemAt(raw, p)
  {
    hide Get32, Step;
  }

  lemma WalkDone(raw: seq<Byte>, end: nat)
    requires Walkable(raw, end, end)
    ensures Walk(raw, end, end) == []
  {
  }

  /** `get_full_tag`: the first n bytes of a tag. */
  function FullTag(raw: seq<Byte>, item: Item, n: nat): seq<Byte>
    requires n <= item.size && item.addr + item.size <= |raw|
  {
    raw[item.addr..item.addr + n]
  }

  // ----- what is built is what is read

  /** The total size fits its 32-bit word. */
  ghost predicate Fits(tags: seq<Tag>)
    requires AllAddable(tags)
  {
    16 + |TagsBytes(tags)| < U32
  }

  /** The items of tags that are laid out from p on. */
  ghost function Items(tags: seq<Tag>, p: nat): (s: seq<Item>)
    requires AllAddable(tags)
    ensures |s| == |tags|
  {
    if tags == [] then [] else [Item(tags[0].typ, TagSize(tags[0]), p)] + Items(tags[1..], p + |TagBytes(tags[0])|)
  }

  lemma SliceOfSlice<T>(s: seq<T>, p: nat, q: nat, i: nat, j: nat)
    requires i <= j && p + j <= q <= |s|
    ensures s[p..q][i..j] == s[p + i..p + j]
  {
    var a, b := s[p..q][i..j], s[p + i..p + j];
    forall k | 0 <= k < j - i
      ensures a[k] == b[k]
    {
      assert a[k] == s[p..q][i + k] == s[p + (i + k)];
    }
    assert a == b;
  }

  lemma TagParts(t: Tag)
    requires Addable(t) && TagSize(t) < U32
    ensures var (b, n) := (TagBytes(t), TagSize(t));
            && b[0..4] == Le32(t.typ) && b[4..8] == Le32(n)
            && b[0..n] == Le32(t.typ) + Le32(n) + t.fields + t.payload
  {
    hide Le32, Zeros;
    var n := TagSize(t);
    var head := Le32(t.typ) + Le32(n);
    var whole := head + t.fields + t.payload;
    assert TagBytes(t) == whole + Zeros(Padded(n) - n) && |whole| == n;
    assert (whole + Zeros(Padded(n) - n))[0..n] == whole;
    assert TagBytes(t)[0..8] == head;
    assert head[0..4] == Le32(t.typ) && head[4..8] == Le32(n);
    SliceOfSlice(TagBytes(t), 0, 8, 0, 4);
    SliceOfSlice(TagBytes(t), 0, 8, 4, 8);
  }

  lemma ItemOfTag(raw: seq<Byte>, p: nat, t: Tag)
    requires Addable(t) && TagSize(t) + 7 < U32
    requires p + |TagBytes(t)| <= |raw| && raw[p..p + |TagBytes(t)|] == TagBytes(t)
    ensures ItemAt(raw, p) == Item(t.typ, TagSize(t), p) && Step(TagSize(t)) == |TagBytes(t)|
    ensures raw[p..p + TagSize(t)] == Le32(t.typ) + Le32(TagSize(t)) + t.fields + t.payload
  {
    hide Le32, Get32, AlignUp, TagBytes;
    var n := TagSize(t);
    var b := TagBytes(t);
    TagParts(t);
    SliceOfSlice(raw, p, p + |b|, 0, 4);
    SliceOfSlice(raw, p, p + |b|, 4, 8);
    SliceOfSlice(raw, p, p + |b|, 0, n);
    GetLe32(raw, p, t.typ);
    GetLe32(raw, p + 4, n);
    AlignUpIsPadded(n);
  }

  lemma WalkStep(raw: seq<Byte>, p: nat, end: nat, item: Item)
    requires p < end && p + 8 <= |raw| && ItemAt(raw, p) == item
    requires item.size < U32 && 0 < Step(item.size) && Walkable(raw, p + Step(item.size), end)
    ensures Walkable(raw, p, end) && Walk(raw, p, end) == [item] + Walk(raw, p + Step(item.size), end)
  {
    hide Get32, Step;
  }

  lemma NullStep(raw: seq<Byte>, p: nat)
    requires p + 8 == |raw| && raw[p..] == NULL_TAG
    ensures Walkable(raw, p, |raw|) && Walk(raw, p, |raw|) == [Item(0, 8, p)]
  {
    hide AlignUp;
    var n := raw[p..];
    assert raw[p] == n[0] && raw[p + 1] == n[1] && raw[p + 2] == n[2] && raw[p + 3] == n[3];
    assert raw[p + 4] == n[4] && raw[p + 5] == n[5] && raw[p + 6] == n[6] && raw[p + 7] == n[7];
    AlignUpIsPadded(8);
  }

  /** Behind any prefix, the walk yields the tags and then the null tag, and ends where the image does. */
  lemma {:induction false} WalkTags(before: seq<Byte>, tags: seq<Tag>)
    requires AllAddable(tags) && |TagsBytes(tags)| + 7 < U32
    ensures var raw := before + TagsBytes(tags) + NULL_TAG;
            && Walkable(raw, |before|, |raw|)
            && Walk(raw, |before|, |raw|) == Items(tags, |before|) + [Item(0, 8, |raw| - 8)]
    decreases |tags|
  {
    hide Step, TagBytes, Walkable, Walk, ItemAt;
    var raw, p := before + TagsBytes(tags) + NULL_TAG, |before|;
    if tags == [] {
      NullStep(raw, p);
    } else {
      var t, rest := tags[0], TagsBytes(tags[1..]);
      var b := TagBytes(t);
      assert TagsBytes(tags) == b + rest;
      assert raw == (before + b) + rest + NULL_TAG;
      WalkTags(before + b, tags[1..]);
      assert raw[p..p + |b|] == b;
      ItemOfTag(raw, p, t);
      WalkStep(raw, p, |raw|, Item(t.typ, TagSize(t), p));
    }
  }

  /** An image that fits is read as the added tags, in order, then the null tag; the end is that of the bytes. */
  lemma ReadsBack(tags: seq<Tag>)
    requires AllAddable(tags) && Fits(tags)
    ensures var raw := Image(tags);
            && Get32(raw, 0) == |raw| && Walkable(raw, 8, |raw|)
            && Walk(raw, 8, |raw|) == Items(tags, 8) + [Item(0, 8, |raw| - 8)]
  {
    hide Le32, Get32, Walkable, Walk, TagsBytes;
    var raw, head := Image(tags), Heading(16 + |TagsBytes(tags)|);
    assert raw == head + TagsBytes(tags) + NULL_TAG;
    WalkTags(head, tags);
    TotalIff(tags);
  }

  /** The total size is the number of bytes exactly when that fits 32 bits. */
  lemma TotalIff(tags: seq<Tag>)
    requires AllAddable(tags)
    ensures Get32(Image(tags), 0) == |Image(tags)| <==> Fits(tags)
  {
    hide Le32, Get32, TagsBytes;
    var n := 16 + |TagsBytes(tags)|;
    assert Image(tags)[0..4] == Le32(n % U32);
    GetLe32(Image(tags), 0, n % U32);
  }

  /** The tag that fills an image of 2^32 bytes. */
  function HugeTag(): Tag {
    Tag(1, [], Zeros(U32 - 24))
  }

  /** An image of 2^32 bytes claims a total size of 0. */
  lemma TotalWraps()
    ensures AllAddable([HugeTag()]) && |Image([HugeTag()])| == U32 && Get32(Image([HugeTag()]), 0) == 0
  {
    hide Le32, Get32, Zeros, TagBytes;
    var tags := [HugeTag()];
    assert TagsBytes(tags[1..]) == [] by { NoTags(); }
    assert |TagsBytes(tags)| == U32 - 16;
    assert Image(tags)[0..4] == Le32(0);
    GetLe32(Image(tags), 0, 0);
  }

  /** The bytes of a tag without its padding: type, size, members and payload. */
  function TagContents(t: Tag): (s: seq<Byte>)
    requires t.typ < U32 && TagSize(t) < U32
    ensures |s| == TagSize(t)
  {
    Le32(t.typ) + Le32(TagSize(t)) + t.fields + t.payload
  }

  /** The bytes at p are those of the tag t, and zeros up to the next multiple of eight. */
  ghost predicate HoldsTag(raw: seq<Byte>, p: nat, t: Tag)
    requires t.typ < U32
  {
    && TagSize(t) < U32 && p + Padded(TagSize(t)) <= |raw|
    && raw[p..p + TagSize(t)] == TagContents(t)
    && forall i | p + TagSize(t) <= i < p + Padded(TagSize(t)) :: raw[i] == 0
  }

  lemma TagHeld(raw: seq<Byte>, p: nat, t: Tag)
    requires Addable(t) && TagSize(t) + 7 < U32
    requires p + |TagBytes(t)| <= |raw| && raw[p..p + |TagBytes(t)|] == TagBytes(t)
    ensures HoldsTag(raw, p, t)
  {
    hide TagBytes, Le32, ItemAt, Step;
    ItemOfTag(raw, p, t);
    forall i | p + TagSize(t) <= i < p + Padded(TagSize(t))
      ensures raw[i] == 0
    {
      PaddingByte(t, i - p);
      assert raw[i] == raw[p..p + |TagBytes(t)|][i - p];
    }
  }

  lemma PaddingByte(t: Tag, i: nat)
    requires Addable(t) && TagSize(t) <= i < |TagBytes(t)|
    ensures TagBytes(t)[i] == 0
  {
    hide Le32;
    var n := TagSize(t);
    var whole := Le32(t.typ) + Le32(n % U32) + t.fields + t.payload;
    assert TagBytes(t) == whole + Zeros(Padded(n) - n) && |whole| == n;
    assert (whole + Zeros(Padded(n) - n))[i] == Zeros(Padded(n) - n)[i - n];
  }

  /** Each item is where its tag is. */
  lemma {:induction false} ItemHolds(before: seq<Byte>, tags: seq<Tag>, k: nat)
    requires AllAddable(tags) && |TagsBytes(tags)| + 7 < U32 && k < |tags|
    ensures var item := Items(tags, |before|)[k];
            && item.typ == tags[k].typ && item.size == TagSize(tags[k]) && item.addr >= |before|
            && HoldsTag(before + TagsBytes(tags) + NULL_TAG, item.addr, tags[k])
    decreases k
  {
    hide TagBytes, HoldsTag;
    var raw, p := before + TagsBytes(tags) + NULL_TAG, |before|;
    var t, rest := tags[0], TagsBytes(tags[1..]);
    var b := TagBytes(t);
    assert TagsBytes(tags) == b + rest;
    assert raw == (before + b) + rest + NULL_TAG;
    if k == 0 {
      assert raw[p..p + |b|] == b;
      TagHeld(raw, p, t);
    } else {
      ItemHolds(before + b, tags[1..], k - 1);
    }
  }

  /**
   For every n up to the size of a tag, `get_full_tag` yields the first n bytes of the type, the size, the
   members and the payload of the tag that was added; zeros follow up to the next tag.
   */
  lemma PayloadReadBack(tags: seq<Tag>, k: nat, n: nat)
    requires AllAddable(tags) && Fits(tags) && k < |tags| && n <= TagSize(tags[k])
    ensures var (raw, item) := (Image(tags), Items(tags, 8)[k]);
            && item.typ == tags[k].typ && item.size == TagSize(tags[k]) < U32
            && item.addr + Padded(item.size) <= |raw|
            && FullTag(raw, item, n) == TagContents(tags[k])[..n]
            && forall i | item.addr + item.size <= i < item.addr + Padded(item.size) :: raw[i] == 0
  {
    hide Le32, TagsBytes, Items, TagContents, Padded, Image, HoldsTag;
    ImageHolds(tags, k);
    PrefixHeld(Image(tags), Items(tags, 8)[k], tags[k], n);
  }

  lemma PrefixHeld(raw: seq<Byte>, item: Item, t: Tag, n: nat)
    requires t.typ < U32 && HoldsTag(raw, item.addr, t) && item.size == TagSize(t) && n <= TagSize(t)
    ensures TagSize(t) < U32 && item.addr + Padded(item.size) <= |raw|
    ensures FullTag(raw, item, n) == TagContents(t)[..n]
    ensures forall i | item.addr + item.size <= i < item.addr + Padded(item.size) :: raw[i] == 0
  {
    hide Le32, TagContents;
    SliceOfSlice(raw, item.addr, item.addr + item.size, 0, n);
  }

  lemma ImageHolds(tags: seq<Tag>, k: nat)
    requires AllAddable(tags) && Fits(tags) && k < |tags|
    ensures var item := Items(tags, 8)[k];
            && item.typ == tags[k].typ && item.size == TagSize(tags[k]) && item.addr >= 8
            && HoldsTag(Image(tags), item.addr, tags[k])
  {
    hide Heading, TagsBytes, Items, HoldsTag;
    ItemHolds(Heading(16 + |TagsBytes(tags)|), tags, k);
  }

  /** The reserved word of an image is zero, and the null tag ends it. */
  lemma FixedPart(tags: seq<Tag>)
    requires AllAddable(tags)
    ensures var raw := Image(tags);
            && |raw| == 16 + |TagsBytes(tags)|
            && raw[4] == raw[5] == raw[6] == raw[7] == 0
            && raw[|raw| - 8..] == [0, 0, 0, 0, 8, 0, 0, 0]
  {
    hide TagsBytes;
    var raw := Image(tags);
    assert raw[4..8] == Le32(0) == [0, 0, 0, 0];
    assert raw[4] == raw[4..8][0] && raw[5] == raw[4..8][1] && raw[6] == raw[4..8][2] && raw[7] == raw[4..8][3];
  }

  lemma {:induction false} ItemTypes(tags: seq<Tag>, p: nat, k: nat)
    requires AllAddable(tags) && k < |tags|
    ensures Items(tags, p)[k].typ == tags[k].typ
  {
    if k > 0 {
      ItemTypes(tags[1..], p + |TagBytes(tags[0])|, k - 1);
    }
  }

  /** Looking for a type other than 0 finds the first added tag of that type, or nothing if there is none. */
  lemma FindsFirstAdded(tags: seq<Tag>, typ: nat, r: Option<Item>)
    requires AllAddable(tags) && Fits(tags) && typ != 0
    ensures Walkable(Image(tags), 8, |Image(tags)|)
    ensures IsFirst(Walk(Image(tags), 8, |Image(tags)|), typ, r) ==> IsFirstAdded(tags, typ, r)
  {
    hide Image, Walkable, Walk, TagsBytes, Items;
    ReadsBack(tags);
    var items := Walk(Image(tags), 8, |Image(tags)|);
    forall k | 0 <= k < |tags| ensures items[k].typ == tags[k].typ && items[k] == Items(tags, 8)[k] {
      ItemTypes(tags, 8, k);
    }
  }

  /** r is the item of the first added tag of the type, or nothing and there is none. */
  ghost predicate IsFirstAdded(tags: seq<Tag>, typ: nat, r: Option<Item>)
    requires AllAddable(tags)
  {
    && (r == None <==> forall k :: 0 <= k < |tags| ==> tags[k].typ != typ)
    && (r.Some? ==>
          exists k :: && 0 <= k < |tags| && r.value == Items(tags, 8)[k] && tags[k].typ == typ
                      && forall i :: 0 <= i < k ==> tags[i].typ != typ)
  }
}
