/** The sizes exif_write_apps adds up to place the directories, and what
    the stores and sorts of its layout pass leave of them. A directory is
    sound when its explicit entry count agrees with its entry list and
    every entry is writable; a four-byte store into an entry that is
    already there keeps a sound directory's size, and sorting the entries
    keeps it too.
 */
module Footprints {
  import opened Outcomes
  import opened Bytes
  import opened FieldTypes
  import opened Directory
  import opened Mutation
  import opened MutationFacts
  import opened Writer
  import opened Sorting

  /** The sort key of exif_sort_tags_cb. */
  function TagId(t: Tag): int {
    t.id
  }

  /** What exif_write_ifd needs of a directory. */
  predicate Sound(d: Ifd) {
    d.count == |d.tags| && AllWritable(d.tags)
  }

  /** The bytes one entry takes in the payload area. */
  function Part(t: Tag): nat {
    if t.size > 4 then RoundEven(t.size) else 0
  }

  /** The bytes a directory occupies, before exif_ifd_size truncates the
      sum to 32 bits. */
  function Footprint(d: Ifd): nat {
    6 + 12 * d.count + PayloadTotal(d.tags)
  }

  /** Every payload starts at an even offset, so the area has even length. */
  lemma {:induction false} PayloadTotalEven(tags: seq<Tag>)
    ensures PayloadTotal(tags) % 2 == 0
    decreases |tags|
  {
    if |tags| > 0 {
      PayloadTotalEven(tags[1..]);
    }
  }

  /** Replacing an entry by one with the same share keeps the area. */
  lemma {:induction false} PayloadTotalReplace(tags: seq<Tag>, j: nat, t: Tag)
    requires j < |tags| && Part(t) == Part(tags[j])
    ensures PayloadTotal(tags[j := t]) == PayloadTotal(tags)
    decreases |tags|
  {
    if j > 0 {
      assert tags[j := t][1..] == tags[1..][j - 1 := t];
      PayloadTotalReplace(tags[1..], j - 1, t);
    }
  }

  /** Inserting an entry adds its share. */
  lemma {:induction false} PayloadTotalInsert(x: Tag, s: seq<Tag>)
    ensures PayloadTotal(Insert(x, s, TagId)) == Part(x) + PayloadTotal(s)
    decreases |s|
  {
    if |s| > 0 && TagId(x) > TagId(s[0]) {
      PayloadTotalInsert(x, s[1..]);
      assert Insert(x, s, TagId)[1..] == Insert(x, s[1..], TagId);
    } else {
      assert Insert(x, s, TagId)[1..] == s;
    }
  }

  /** The order of the entries does not change the area. */
  lemma {:induction false} PayloadTotalSort(s: seq<Tag>)
    ensures PayloadTotal(SortBy(s, TagId)) == PayloadTotal(s)
    decreases |s|
  {
    if |s| > 0 {
      PayloadTotalSort(s[1..]);
      PayloadTotalInsert(s[0], SortBy(s[1..], TagId));
    }
  }

  /** Sorting the entries keeps the directory sound and its size. */
  lemma SortedTagsSound(d: Ifd)
    ensures var r := d.(tags := SortBy(d.tags, TagId));
            && Footprint(r) == Footprint(d)
            && (Sound(d) ==> Sound(r))
  {
    var s := SortBy(d.tags, TagId);
    PayloadTotalSort(d.tags);
    SortSortsAndPermutes(d.tags, TagId);
    if Sound(d) {
      forall i | 0 <= i < |s| ensures Writable(s[i]) {
        assert s[i] in multiset(d.tags);
        var k :| 0 <= k < |d.tags| && d.tags[k] == s[i];
      }
    }
  }

  /** Sorting entries whose ids are distinct keeps every lookup. */
  lemma SortedTagsLookup(tags: seq<Tag>, id: nat)
    requires UniqueIds(tags)
    ensures LookupTag(SortBy(tags, TagId), id) == LookupTag(tags, id)
  {
    var s := SortBy(tags, TagId);
    SortSortsAndPermutes(tags, TagId);
    if HasTag(tags, id) {
      var k := FindTagIndex(tags, id).value;
      assert tags[k] in multiset(s);
      var m :| 0 <= m < |s| && s[m] == tags[k];
      StrictAfterSort(tags, s);
      FindTagIndexUnique(s, id, m);
      FindTagIndexUnique(tags, id, k);
    } else {
      forall m | 0 <= m < |s| ensures s[m].id != id {
        assert s[m] in multiset(tags);
      }
    }
  }

  /** Sorted entries of distinct ids keep them distinct. */
  lemma StrictAfterSort(tags: seq<Tag>, s: seq<Tag>)
    requires UniqueIds(tags) && s == SortBy(tags, TagId)
    ensures UniqueIds(s)
  {
    assert DistinctBy(tags, TagId) by {
      forall i, j | 0 <= i < j < |tags| ensures TagId(tags[i]) != TagId(tags[j]) {
      }
    }
    SortDistinct(tags, TagId);
    forall i, j | 0 <= i < j < |s| ensures s[i].id != s[j].id {
      assert TagId(s[i]) < TagId(s[j]);
    }
  }

  /** A four-byte store at element 0 into an existing entry (the growth
      branch of exif_put_value): the entry stays writable and keeps its
      share of the payload area. */
  lemma GrowStoreFour(t: Tag, typ: nat, width: nat, count: nat, bytes: seq<byte>)
    requires Writable(t) && TypeSize(typ) == Some(width) && count * width == 4 && !IsRational(typ)
    requires |bytes| >= 4
    ensures StoreLen(typ, width, count) == 4 && |Grow(t, 4, count).data| >= 4
    ensures var r := Store(Grow(t, 4, count), typ, width, count, 0, bytes);
            Writable(r) && Part(r) == Part(t) && r.id == t.id
  {
  }

  /** exif_put_value of four bytes at element 0 keeps a sound directory
      sound; when the entry is already there the directory keeps its size,
      and otherwise it must have room for one more entry. */
  lemma PutFourSound(d: Ifd, id: nat, typ: nat, count: nat, bytes: seq<byte>)
    requires TypeSize(typ).Some? && count * TypeSize(typ).value == 4 && !IsRational(typ) && |bytes| == 4
    requires Sound(d) && (HasTag(d.tags, id) || |d.tags| < 0xFFFF)
    ensures PutFits(typ, count, 0, Some(bytes))
    ensures var r := PutInIfd(d, id, typ, count, 0, Some(bytes));
            && Sound(r)
            && (HasTag(d.tags, id) ==> Footprint(r) == Footprint(d))
            && (UniqueIds(d.tags) ==> UniqueIds(r.tags))
  {
    var w := TypeSize(typ).value;
    assert PutSize(w, count, 0, Some(bytes)) == 4;
    PutKeepsInvariant(d, id, typ, count, 0, Some(bytes));
    match FindTagIndex(d.tags, id)
    case None =>
      var t := Store(NewTag(id, typ, count, 4), typ, w, count, 0, bytes);
      assert PutInIfd(d, id, typ, count, 0, Some(bytes)).tags == d.tags + [t];
      assert Writable(t);
    case Some(j) =>
      GrowStoreFour(d.tags[j], typ, w, count, bytes);
      var t := Store(Grow(d.tags[j], 4, count), typ, w, count, 0, bytes);
      assert PutInIfd(d, id, typ, count, 0, Some(bytes)).tags == d.tags[j := t];
      PayloadTotalReplace(d.tags, j, t);
  }
}
