/** The tag mutation API: exif_put_value and its wrappers exif_put_long,
    exif_put_str and exif_remove_tag.

    One call either creates a tag, stores new elements into an existing
    tag, or, when no data is given, removes the tag. The directory is
    created first when it is missing, even when nothing is stored in it.
 */
module Mutation {
  import opened Outcomes
  import opened Bytes
  import opened FieldTypes
  import opened Directory

  /** `s` with the bytes from `at` on replaced by `b` (the memcpy). */
  function Overwrite(s: seq<byte>, at: nat, b: seq<byte>): (r: seq<byte>)
    requires at + |b| <= |s|
    ensures |r| == |s|
    ensures r[at..at + |b|] == b
    ensures forall k :: 0 <= k < |s| && !(at <= k < at + |b|) ==> r[k] == s[k]
  {
    s[..at] + b + s[at + |b|..]
  }

  /** The list without its `j`-th entry (QList::removeOne on the entry the
      lookup found). */
  function RemoveAt(tags: seq<Tag>, j: nat): (r: seq<Tag>)
    requires j < |tags|
    ensures |r| == |tags| - 1
    ensures forall k :: 0 <= k < j ==> r[k] == tags[k]
    ensures forall k :: j <= k < |r| ==> r[k] == tags[k + 1]
  {
    tags[..j] + tags[j + 1..]
  }

  /** The 16-bit byte extent of a store: zero (meaning "remove") when there
      is no data, no element or a negative index; otherwise the elements up
      to and including the last one stored, truncated to 16 bits. */
  function PutSize(width: nat, count: int, index: int, data: Option<seq<byte>>): (size: nat)
    ensures size < TWO16
    ensures data.None? || count < 1 || index < 0 ==> size == 0
  {
    if data.None? || count < 1 || index < 0 then 0 else ((index + count) * width) % TWO16
  }

  /** The number of bytes a store copies: one (numerator, denominator) pair
      for the rational types, `count` elements for every other type. */
  function StoreLen(typ: nat, width: nat, count: nat): nat {
    if IsRational(typ) then 8 else count * width
  }

  /** What the source needs from a caller that stores data: the extent fits
      the 16-bit size without wrapping and the data holds every byte the
      store copies. */
  predicate PutFits(typ: nat, count: int, index: int, data: Option<seq<byte>>) {
    TypeSize(typ).Some? && data.Some? && count >= 1 && index >= 0 ==>
      && (index + count) * TypeSize(typ).value < TWO16
      && |data.value| >= StoreLen(typ, TypeSize(typ).value, count)
  }

  /** A stored window ends inside the extent. */
  lemma WindowInsideExtent(typ: nat, width: nat, count: nat, index: nat)
    requires TypeSize(typ) == Some(width) && count >= 1
    ensures index * width + StoreLen(typ, width, count) <= (index + count) * width
  {
    assert (index + count) * width == index * width + count * width;
    assert count * width >= width;
  }

  /** The tag a store creates: its count and size cover the extent and its
      buffer is zero-filled, never shorter than four bytes. */
  function NewTag(id: nat, typ: nat, count: nat, size: nat): (t: Tag)
    ensures t.id == id && t.typ == typ && t.count == count && t.size == size
    ensures |t.data| == (if size < 4 then 4 else size)
    ensures forall k :: 0 <= k < |t.data| ==> t.data[k] == 0
  {
    Tag(id, typ, count, size, 0, 0, Zeros(if size < 4 then 4 else size))
  }

  /** Extending an existing tag as exif.cc:1001-1005 is written: count and
      size are raised only when the new extent exceeds the length of the
      tag's buffer, not when it exceeds the tag's recorded size. */
  function GrowAsWritten(t: Tag, size: nat, count: nat): (r: Tag)
    ensures |r.data| >= size && |r.data| >= |t.data|
    ensures r.data[..|t.data|] == t.data
  {
    if size > |t.data| then t.(data := t.data + Zeros(size - |t.data|), size := size, count := count)
    else t
  }

  /** Extending an existing tag so that its recorded size and count cover
      the new extent (the behaviour the growth branch is for): the buffer
      is zero-extended to the extent when shorter, and size and count are
      raised whenever the extent exceeds the recorded size. */
  function Grow(t: Tag, size: nat, count: nat): (r: Tag)
    ensures |r.data| >= size && |r.data| >= |t.data|
    ensures r.data[..|t.data|] == t.data
    ensures forall k :: |t.data| <= k < |r.data| ==> r.data[k] == 0
    ensures r.size >= size
    ensures r.id == t.id && r.typ == t.typ && r.offset == t.offset && r.original == t.original
    ensures size <= t.size && size <= |t.data| ==> r == t
    ensures size > t.size ==> r.size == size && r.count == count
  {
    var data := if size > |t.data| then t.data + Zeros(size - |t.data|) else t.data;
    if size > t.size || size > |t.data| then t.(data := data, size := size, count := count)
    else t
  }

  /** The growth step as written leaves count and size short: an ASCII tag
      holding "8" (count 2, size 2, the four-byte inline buffer) that is
      given "12" (count 3, extent 3) keeps count 2, so the terminating NUL
      falls outside the tag. The corrected step raises both. */
  lemma GrowAsWrittenLosesCount()
    ensures var t := Tag(0x001D, ASCII, 2, 2, 0, 0x38, [0x38, 0, 0, 0]);
            && GrowAsWritten(t, 3, 3).count == 2
            && GrowAsWritten(t, 3, 3).size == 2
            && Grow(t, 3, 3).count == 3
            && Grow(t, 3, 3).size == 3
  {
  }

  /** Copies the stored bytes into the tag's buffer at `index` elements. */
  function Store(t: Tag, typ: nat, width: nat, count: nat, index: nat, bytes: seq<byte>): (r: Tag)
    requires |bytes| >= StoreLen(typ, width, count)
    requires index * width + StoreLen(typ, width, count) <= |t.data|
    ensures r == t.(data := r.data)
    ensures |r.data| == |t.data|
    ensures r.data[index * width..index * width + StoreLen(typ, width, count)] == bytes[..StoreLen(typ, width, count)]
    ensures forall k :: 0 <= k < |t.data| && !(index * width <= k < index * width + StoreLen(typ, width, count)) ==>
              r.data[k] == t.data[k]
  {
    t.(data := Overwrite(t.data, index * width, bytes[..StoreLen(typ, width, count)]))
  }

  /** exif_put_value on one directory: remove, create, or grow and store. */
  function PutInIfd(d: Ifd, id: nat, typ: nat, count: int, index: int, data: Option<seq<byte>>): (r: Ifd)
    requires TypeSize(typ).Some? && PutFits(typ, count, index, data)
    ensures r.kind == d.kind && r.nextIfd == d.nextIfd
  {
    var width := TypeSize(typ).value;
    var size := PutSize(width, count, index, data);
    match FindTagIndex(d.tags, id)
    case None =>
      if size == 0 then d
      else
        WindowInsideExtent(typ, width, count, index);
        var t := NewTag(id, typ, index + count, size);
        d.(count := (d.count + 1) % TWO16, tags := d.tags + [Store(t, typ, width, count, index, data.value)])
    case Some(j) =>
      if size == 0 then d.(count := (d.count + 0xFFFF) % TWO16, tags := RemoveAt(d.tags, j))
      else
        WindowInsideExtent(typ, width, count, index);
        var t := Grow(d.tags[j], size, index + count);
        d.(tags := d.tags[j := Store(t, typ, width, count, index, data.value)])
  }

  /** exif_put_value on one directory as exif.cc:1001-1005 is written: as
      PutInIfd, but an existing entry grows by GrowAsWritten. */
  function PutInIfdAsWritten(d: Ifd, id: nat, typ: nat, count: int, index: int, data: Option<seq<byte>>): (r: Ifd)
    requires TypeSize(typ).Some? && PutFits(typ, count, index, data)
    ensures r.kind == d.kind && r.nextIfd == d.nextIfd
  {
    var width := TypeSize(typ).value;
    var size := PutSize(width, count, index, data);
    match FindTagIndex(d.tags, id)
    case None =>
      if size == 0 then d
      else
        WindowInsideExtent(typ, width, count, index);
        var t := NewTag(id, typ, index + count, size);
        d.(count := (d.count + 1) % TWO16, tags := d.tags + [Store(t, typ, width, count, index, data.value)])
    case Some(j) =>
      if size == 0 then d.(count := (d.count + 0xFFFF) % TWO16, tags := RemoveAt(d.tags, j))
      else
        WindowInsideExtent(typ, width, count, index);
        var t := GrowAsWritten(d.tags[j], size, index + count);
        d.(tags := d.tags[j := Store(t, typ, width, count, index, data.value)])
  }

  /** The directory a store works on: the first of its kind, appended empty
      when there is none. */
  function Target(app: App, kind: IfdKind): (base: App)
    ensures HasKind(base, kind)
    ensures HasKind(app, kind) ==> base == app
    ensures !HasKind(app, kind) ==> base == app + [EmptyIfd(kind)]
  {
    if HasKind(app, kind) then app
    else
      var base := app + [EmptyIfd(kind)];
      assert base[|app|].kind == kind;
      base
  }

  /** exif_put_value: an unknown type is fatal; otherwise the first
      directory of the kind (created when missing) is updated and every
      other directory is left as it was. */
  function PutValue(app: App, kind: IfdKind, id: nat, typ: nat, count: int, index: int, data: Option<seq<byte>>): (r: Result<App>)
    requires PutFits(typ, count, index, data)
    ensures r.Fatal? <==> TypeSize(typ).None?
    ensures r.Fatal? ==> r.error == UnknownType(typ)
    ensures r.Ok? ==> HasKind(r.value, kind)
    ensures r.Ok? ==> |r.value| == |app| + (if HasKind(app, kind) then 0 else 1)
    ensures r.Ok? ==> forall i :: 0 <= i < |r.value| ==> r.value[i].kind == Target(app, kind)[i].kind
    ensures r.Ok? ==>
              forall i :: 0 <= i < |app| && i != FindIfd(Target(app, kind), kind).value ==> r.value[i] == app[i]
    ensures r.Ok? ==> IfdAt(r.value, kind) == PutInIfd(IfdAt(Target(app, kind), kind), id, typ, count, index, data)
  {
    match TypeSize(typ)
    case None => Fatal(UnknownType(typ))
    case Some(_) =>
      var base := Target(app, kind);
      var i := FindIfd(base, kind).value;
      var r := base[i := PutInIfd(base[i], id, typ, count, index, data)];
      KindsDecideFind(base, r, kind);
      Ok(r)
  }

  /** Appending a directory does not move the first one of a kind already present. */
  lemma FindIfdAppend(app: App, d: Ifd, kind: IfdKind)
    requires HasKind(app, kind)
    ensures FindIfd(app + [d], kind) == FindIfd(app, kind)
  {
    if app[0].kind != kind {
      assert (app + [d])[1..] == app[1..] + [d];
      FindIfdAppend(app[1..], d, kind);
    }
  }

  /** Directory lookup depends only on the kinds. */
  lemma {:induction false} KindsDecideFind(a: App, b: App, kind: IfdKind)
    requires |a| == |b|
    requires forall i :: 0 <= i < |a| ==> a[i].kind == b[i].kind
    ensures FindIfd(a, kind) == FindIfd(b, kind)
    ensures HasKind(a, kind) == HasKind(b, kind)
  {
    if |a| > 0 && a[0].kind != kind {
      KindsDecideFind(a[1..], b[1..], kind);
    }
  }
}

/** What a store does to the directories, stated through the lookups. */
module MutationFacts {
  import opened Outcomes
  import opened Bytes
  import opened FieldTypes
  import opened Directory
  import opened Mutation

  /** Reference definition of removal: the entries that do not carry `id`. */
  function Without(tags: seq<Tag>, id: nat): (r: seq<Tag>)
    ensures !HasTag(r, id)
    decreases |tags|
  {
    if |tags| == 0 then []
    else if tags[0].id == id then Without(tags[1..], id)
    else
      var rest := Without(tags[1..], id);
      assert forall i :: 1 <= i < |[tags[0]] + rest| ==> ([tags[0]] + rest)[i] == rest[i - 1];
      [tags[0]] + rest
  }

  /** With unique ids, dropping the entry the lookup finds is removing every
      entry with that id. */
  lemma {:induction false} RemoveAtIsWithout(tags: seq<Tag>, id: nat)
    requires UniqueIds(tags) && HasTag(tags, id)
    ensures RemoveAt(tags, FindTagIndex(tags, id).value) == Without(tags, id)
    decreases |tags|
  {
    var j := FindTagIndex(tags, id).value;
    if j == 0 {
      NoneLeft(tags[1..], id, tags);
    } else {
      assert FindTagIndex(tags[1..], id) == Some(j - 1);
      assert UniqueIds(tags[1..]);
      RemoveAtIsWithout(tags[1..], id);
      assert RemoveAt(tags, j) == [tags[0]] + RemoveAt(tags[1..], j - 1);
    }
  }

  /** The rest of a list with unique ids holds no second entry with the id of its head. */
  lemma NoneLeft(rest: seq<Tag>, id: nat, tags: seq<Tag>)
    requires UniqueIds(tags) && |tags| > 0 && tags[0].id == id && rest == tags[1..]
    ensures Without(rest, id) == rest
  {
    assert !HasTag(rest, id) by {
      forall i | 0 <= i < |rest| ensures rest[i].id != id {
        assert rest[i] == tags[i + 1];
      }
    }
    WithoutAbsent(rest, id);
  }

  lemma {:induction false} WithoutAbsent(tags: seq<Tag>, id: nat)
    requires !HasTag(tags, id)
    ensures Without(tags, id) == tags
    decreases |tags|
  {
    if |tags| > 0 {
      assert !HasTag(tags[1..], id) by {
        forall i | 0 <= i < |tags[1..]| ensures tags[1..][i].id != id {
          assert tags[1..][i] == tags[i + 1];
        }
      }
      WithoutAbsent(tags[1..], id);
      assert tags == [tags[0]] + tags[1..];
    }
  }

  /** Lookup depends only on the ids. */
  lemma {:induction false} IdsDecideFind(a: seq<Tag>, b: seq<Tag>, id: nat)
    requires |a| == |b|
    requires forall i :: 0 <= i < |a| ==> a[i].id == b[i].id
    ensures FindTagIndex(a, id) == FindTagIndex(b, id)
    decreases |a|
  {
    if |a| > 0 && a[0].id != id {
      IdsDecideFind(a[1..], b[1..], id);
    }
  }

  /** Replacing an entry by one with the same id leaves every other id's
      lookup alone and makes the new entry the one found for its id. */
  lemma LookupAfterReplace(tags: seq<Tag>, j: nat, t: Tag, id: nat)
    requires j < |tags| && t.id == tags[j].id
    ensures FindTagIndex(tags[j := t], id) == FindTagIndex(tags, id)
    ensures id != t.id ==> LookupTag(tags[j := t], id) == LookupTag(tags, id)
    ensures FindTagIndex(tags, id) == Some(j) ==> LookupTag(tags[j := t], id) == Some(t)
  {
    IdsDecideFind(tags[j := t], tags, id);
  }

  /** An entry appended after the others is found only for an id none of
      them carries. */
  lemma {:induction false} LookupAfterAppend(tags: seq<Tag>, t: Tag, id: nat)
    ensures id != t.id ==> LookupTag(tags + [t], id) == LookupTag(tags, id)
    ensures id == t.id && !HasTag(tags, id) ==> LookupTag(tags + [t], id) == Some(t)
    decreases |tags|
  {
    if |tags| > 0 && tags[0].id != id {
      assert (tags + [t])[1..] == tags[1..] + [t];
      LookupAfterAppend(tags[1..], t, id);
      assert HasTag(tags[1..], id) ==> HasTag(tags, id) by {
        if HasTag(tags[1..], id) {
          var i :| 0 <= i < |tags[1..]| && tags[1..][i].id == id;
          assert tags[i + 1].id == id;
        }
      }
    } else if |tags| == 0 {
      assert FindTagIndex([t], id) == (if t.id == id then Some(0) else None);
    }
  }

  /** Dropping an entry leaves the lookup of every other id alone. */
  lemma {:induction false} LookupAfterRemove(tags: seq<Tag>, j: nat, id: nat)
    requires j < |tags| && tags[j].id != id
    ensures LookupTag(RemoveAt(tags, j), id) == LookupTag(tags, id)
    decreases |tags|
  {
    var r := RemoveAt(tags, j);
    if j == 0 {
      assert r == tags[1..];
    } else if tags[0].id != id {
      assert r[1..] == RemoveAt(tags[1..], j - 1);
      LookupAfterRemove(tags[1..], j - 1, id);
    } else {
      assert r[0] == tags[0];
    }
  }

  /** A store of no data into a directory without the tag changes nothing;
      into one with the tag it drops that entry and decrements the 16-bit
      entry count, and with unique ids no entry with the id remains. */
  lemma PutRemoves(d: Ifd, id: nat, typ: nat, count: int, index: int, data: Option<seq<byte>>)
    requires TypeSize(typ).Some? && PutFits(typ, count, index, data)
    requires PutSize(TypeSize(typ).value, count, index, data) == 0
    ensures var r := PutInIfd(d, id, typ, count, index, data);
            && (!HasTag(d.tags, id) ==> r == d)
            && (HasTag(d.tags, id) ==>
                  && |r.tags| == |d.tags| - 1
                  && r.count == (d.count + 0xFFFF) % TWO16
                  && multiset(r.tags) + multiset{LookupTag(d.tags, id).value} == multiset(d.tags))
            && (UniqueIds(d.tags) ==> r.tags == Without(d.tags, id) && !HasTag(r.tags, id))
  {
    var r := PutInIfd(d, id, typ, count, index, data);
    if HasTag(d.tags, id) {
      var j := FindTagIndex(d.tags, id).value;
      assert d.tags == d.tags[..j] + [d.tags[j]] + d.tags[j + 1..];
      if UniqueIds(d.tags) {
        RemoveAtIsWithout(d.tags, id);
      }
    } else {
      WithoutAbsent(d.tags, id);
    }
  }

  /** A store into a directory without the tag appends a new entry carrying
      the id and type, with count and size covering the extent, the stored
      bytes at the index and zeros everywhere else; the entry count goes up
      by one (in 16 bits). */
  lemma PutCreates(d: Ifd, id: nat, typ: nat, count: int, index: int, data: Option<seq<byte>>)
    requires TypeSize(typ).Some? && PutFits(typ, count, index, data)
    requires PutSize(TypeSize(typ).value, count, index, data) > 0
    requires !HasTag(d.tags, id)
    ensures data.Some? && count >= 1 && index >= 0
    ensures var r := PutInIfd(d, id, typ, count, index, data);
            var w := TypeSize(typ).value;
            var size := (index + count) * w;
            var at := index * w;
            var len := StoreLen(typ, w, count);
            && r.count == (d.count + 1) % TWO16
            && |r.tags| == |d.tags| + 1
            && r.tags[..|d.tags|] == d.tags
            && r.tags[|d.tags|].id == id
            && r.tags[|d.tags|].typ == typ
            && r.tags[|d.tags|].count == index + count
            && r.tags[|d.tags|].size == size
            && |r.tags[|d.tags|].data| == (if size < 4 then 4 else size)
            && at + len <= |r.tags[|d.tags|].data|
            && r.tags[|d.tags|].data[at..at + len] == data.value[..len]
            && (forall k :: 0 <= k < |r.tags[|d.tags|].data| && !(at <= k < at + len) ==> r.tags[|d.tags|].data[k] == 0)
  {
    WindowInsideExtent(typ, TypeSize(typ).value, count, index);
  }

  /** A store into a directory with the tag rewrites only that entry: its
      id and type stay (the source never changes a tag's type), the stored
      bytes land at the index, the rest of the old buffer is kept, any
      extension is zero, size covers the extent, and the entry count is
      unchanged. */
  lemma PutUpdates(d: Ifd, id: nat, typ: nat, count: int, index: int, data: Option<seq<byte>>)
    requires TypeSize(typ).Some? && PutFits(typ, count, index, data)
    requires PutSize(TypeSize(typ).value, count, index, data) > 0
    requires HasTag(d.tags, id)
    ensures data.Some? && count >= 1 && index >= 0
    ensures var r := PutInIfd(d, id, typ, count, index, data);
            var j := FindTagIndex(d.tags, id).value;
            var old_t := d.tags[j];
            var w := TypeSize(typ).value;
            var at := index * w;
            var len := StoreLen(typ, w, count);
            && r.count == d.count
            && |r.tags| == |d.tags|
            && (forall k :: 0 <= k < |d.tags| && k != j ==> r.tags[k] == d.tags[k])
            && r.tags[j].id == id
            && r.tags[j].typ == old_t.typ
            && r.tags[j].offset == old_t.offset && r.tags[j].original == old_t.original
            && var grows := (index + count) * w > old_t.size || (index + count) * w > |old_t.data|;
            && r.tags[j].size == (if grows then (index + count) * w else old_t.size)
            && r.tags[j].count == (if grows then index + count else old_t.count)
            && r.tags[j].size >= (index + count) * w
            && |r.tags[j].data| >= (index + count) * w
            && at + len <= |r.tags[j].data|
            && r.tags[j].data[at..at + len] == data.value[..len]
            && (forall k :: 0 <= k < |old_t.data| && !(at <= k < at + len) ==> r.tags[j].data[k] == old_t.data[k])
            && (forall k :: |old_t.data| <= k < |r.tags[j].data| && !(at <= k < at + len) ==> r.tags[j].data[k] == 0)
  {
    WindowInsideExtent(typ, TypeSize(typ).value, count, index);
  }

  /** The put as written and the corrected put differ only in the size and
      count of the entry they grow, and only when the new extent passes the
      recorded size but still fits the buffer: then the source keeps the
      old size and count where the corrected put records the extent. */
  lemma PutAsWrittenDiffers(d: Ifd, id: nat, typ: nat, count: int, index: int, data: Option<seq<byte>>)
    requires TypeSize(typ).Some? && PutFits(typ, count, index, data)
    ensures var a := PutInIfdAsWritten(d, id, typ, count, index, data);
            var c := PutInIfd(d, id, typ, count, index, data);
            var size := PutSize(TypeSize(typ).value, count, index, data);
            && a.kind == c.kind && a.count == c.count && a.nextIfd == c.nextIfd
            && |a.tags| == |c.tags|
            && (forall k :: 0 <= k < |a.tags| ==> a.tags[k] == c.tags[k].(size := a.tags[k].size, count := a.tags[k].count))
            && (a != c <==>
                  && size > 0 && HasTag(d.tags, id)
                  && LookupTag(d.tags, id).value.size < size <= |LookupTag(d.tags, id).value.data|)
            && (a != c ==>
                  var j := FindTagIndex(d.tags, id).value;
                  && a.tags[j].size == d.tags[j].size && a.tags[j].count == d.tags[j].count
                  && c.tags[j].size == size && c.tags[j].count == index + count)
  {
    var a := PutInIfdAsWritten(d, id, typ, count, index, data);
    var c := PutInIfd(d, id, typ, count, index, data);
    var w := TypeSize(typ).value;
    var size := PutSize(w, count, index, data);
    match FindTagIndex(d.tags, id)
    case None =>
      assert a == c;
    case Some(j) =>
      if size > 0 {
        var t := d.tags[j];
        WindowInsideExtent(typ, w, count, index);
        var ta := Store(GrowAsWritten(t, size, index + count), typ, w, count, index, data.value);
        var tc := Store(Grow(t, size, index + count), typ, w, count, index, data.value);
        assert a.tags == d.tags[j := ta] && c.tags == d.tags[j := tc];
        assert GrowAsWritten(t, size, index + count).data == Grow(t, size, index + count).data;
        assert ta.data == tc.data;
        if t.size < size <= |t.data| {
          assert ta.size == t.size && ta.count == t.count && tc.size == size && tc.count == index + count;
          assert a.tags[j] == ta && c.tags[j] == tc;
          assert ta == tc.(size := ta.size, count := ta.count);
          assert a != c;
        } else {
          assert ta == tc;
        }
      }
  }

  /** put_str("12") over an ASCII entry holding "8" (count 2, size 2, the
      four-byte inline buffer): as written the entry keeps count and size 2,
      so the terminating NUL lies outside it; the corrected put records 3. */
  lemma PutStrAsWrittenKeepsCount()
    ensures var d := Ifd(GpsIfd, 1, 0, [Tag(0x001D, ASCII, 2, 2, 0, 0x38, [0x38, 0, 0, 0])]);
            && PutFits(ASCII, 3, 0, Some([0x31, 0x32, 0]))
            && PutInIfdAsWritten(d, 0x001D, ASCII, 3, 0, Some([0x31, 0x32, 0])).tags
               == [Tag(0x001D, ASCII, 2, 2, 0, 0x38, [0x31, 0x32, 0, 0])]
            && PutInIfd(d, 0x001D, ASCII, 3, 0, Some([0x31, 0x32, 0])).tags
               == [Tag(0x001D, ASCII, 3, 3, 0, 0x38, [0x31, 0x32, 0, 0])]
  {
    var d := Ifd(GpsIfd, 1, 0, [Tag(0x001D, ASCII, 2, 2, 0, 0x38, [0x38, 0, 0, 0])]);
    var s: seq<byte> := [0x31, 0x32, 0];
    assert FindTagIndex(d.tags, 0x001D) == Some(0);
    assert TypeSize(ASCII) == Some(1) && StoreLen(ASCII, 1, 3) == 3 && PutSize(1, 3, 0, Some(s)) == 3;
    assert s[..3] == s;
    var t := d.tags[0];
    assert GrowAsWritten(t, 3, 3) == t;
    assert Overwrite(t.data, 0, s) == [0x31, 0x32, 0, 0];
    assert Grow(t, 3, 3) == t.(size := 3, count := 3);
  }

  /** A store never touches the entries of other ids. */
  lemma PutKeepsOtherIds(d: Ifd, id: nat, typ: nat, count: int, index: int, data: Option<seq<byte>>, other: nat)
    requires TypeSize(typ).Some? && PutFits(typ, count, index, data)
    requires other != id
    ensures LookupTag(PutInIfd(d, id, typ, count, index, data).tags, other) == LookupTag(d.tags, other)
  {
    var r := PutInIfd(d, id, typ, count, index, data);
    var size := PutSize(TypeSize(typ).value, count, index, data);
    match FindTagIndex(d.tags, id)
    case None =>
      if size > 0 {
        LookupAfterAppend(d.tags, r.tags[|d.tags|], other);
        assert r.tags == d.tags + [r.tags[|d.tags|]];
      }
    case Some(j) =>
      if size == 0 {
        LookupAfterRemove(d.tags, j, other);
      } else {
        LookupAfterReplace(d.tags, j, r.tags[j], other);
        assert r.tags == d.tags[j := r.tags[j]];
      }
  }

  /** After a store of data the lookup finds the tag, holding the stored
      bytes at the index; after a store of no data into a directory with
      unique ids, it finds nothing. */
  lemma PutThenLookup(d: Ifd, id: nat, typ: nat, count: int, index: int, data: Option<seq<byte>>)
    requires TypeSize(typ).Some? && PutFits(typ, count, index, data)
    ensures var r := PutInIfd(d, id, typ, count, index, data);
            var w := TypeSize(typ).value;
            var size := PutSize(w, count, index, data);
            && (size > 0 ==>
                  && data.Some? && count >= 1 && index >= 0
                  && LookupTag(r.tags, id).Some?
                  && LookupTag(r.tags, id).value.size >= size
                  && index * w + StoreLen(typ, w, count) <= |LookupTag(r.tags, id).value.data|
                  && LookupTag(r.tags, id).value.data[index * w..index * w + StoreLen(typ, w, count)]
                     == data.value[..StoreLen(typ, w, count)])
            && (size == 0 && UniqueIds(d.tags) ==> LookupTag(r.tags, id) == None)
  {
    var r := PutInIfd(d, id, typ, count, index, data);
    var size := PutSize(TypeSize(typ).value, count, index, data);
    if size == 0 {
      PutRemoves(d, id, typ, count, index, data);
    } else if HasTag(d.tags, id) {
      PutUpdates(d, id, typ, count, index, data);
      var j := FindTagIndex(d.tags, id).value;
      LookupAfterReplace(d.tags, j, r.tags[j], id);
      assert r.tags == d.tags[j := r.tags[j]];
    } else {
      PutCreates(d, id, typ, count, index, data);
      LookupAfterAppend(d.tags, r.tags[|d.tags|], id);
      assert r.tags == d.tags + [r.tags[|d.tags|]];
    }
  }

  /** A store keeps the ids of a directory unique, and keeps its explicit
      entry count equal to the number of entries while that stays below
      the 16-bit limit. */
  lemma PutKeepsInvariant(d: Ifd, id: nat, typ: nat, count: int, index: int, data: Option<seq<byte>>)
    requires TypeSize(typ).Some? && PutFits(typ, count, index, data)
    ensures var r := PutInIfd(d, id, typ, count, index, data);
            && (UniqueIds(d.tags) ==> UniqueIds(r.tags))
            && (d.count == |d.tags| < 0xFFFF ==> r.count == |r.tags|)
  {
    var r := PutInIfd(d, id, typ, count, index, data);
    var size := PutSize(TypeSize(typ).value, count, index, data);
    match FindTagIndex(d.tags, id)
    case None =>
      if size > 0 {
        var t := r.tags[|d.tags|];
        assert r.tags == d.tags + [t] && t.id == id;
        AppendKeepsUnique(d.tags, t);
      }
    case Some(j) =>
      if size == 0 {
        PutRemoves(d, id, typ, count, index, data);
      } else {
        assert r.tags == d.tags[j := r.tags[j]] && r.tags[j].id == d.tags[j].id;
        ReplaceKeepsUnique(d.tags, j, r.tags[j]);
      }
  }

  /** Appending an entry whose id is new keeps the ids unique. */
  lemma AppendKeepsUnique(tags: seq<Tag>, t: Tag)
    requires !HasTag(tags, t.id)
    ensures UniqueIds(tags) ==> UniqueIds(tags + [t])
  {
    if UniqueIds(tags) {
      var r := tags + [t];
      forall a, b | 0 <= a < b < |r| ensures r[a].id != r[b].id {
        assert r[a] == tags[a];
      }
    }
  }

  /** Replacing an entry by one with the same id keeps the ids unique. */
  lemma ReplaceKeepsUnique(tags: seq<Tag>, j: nat, t: Tag)
    requires j < |tags| && t.id == tags[j].id
    ensures UniqueIds(tags) ==> UniqueIds(tags[j := t])
  {
  }

  /** exif_put_value on the whole graph leaves every other lookup as it was:
      other directory kinds, and other ids in the same directory. */
  lemma PutValueFrame(app: App, kind: IfdKind, id: nat, typ: nat, count: int, index: int, data: Option<seq<byte>>,
                      k: IfdKind, other: nat)
    requires PutFits(typ, count, index, data) && TypeSize(typ).Some?
    requires k != kind || other != id
    ensures FindTag(PutValue(app, kind, id, typ, count, index, data).value, k, other) == FindTag(app, k, other)
  {
    if k != kind {
      FrameOtherKind(app, kind, id, typ, count, index, data, k, other);
    } else {
      FrameOtherId(app, kind, id, typ, count, index, data, other);
    }
  }

  lemma FrameOtherKind(app: App, kind: IfdKind, id: nat, typ: nat, count: int, index: int, data: Option<seq<byte>>,
                       k: IfdKind, other: nat)
    requires PutFits(typ, count, index, data) && TypeSize(typ).Some?
    requires k != kind
    ensures FindTag(PutValue(app, kind, id, typ, count, index, data).value, k, other) == FindTag(app, k, other)
  {
    var r := PutValue(app, kind, id, typ, count, index, data).value;
    var base := Target(app, kind);
    assert forall i :: 0 <= i < |base| && base[i].kind != kind ==> r[i] == base[i] by {
      forall i | 0 <= i < |base| && base[i].kind != kind ensures r[i] == base[i] {
        assert i < |app|;
      }
    }
    SameOutsideKind(base, r, kind, k, other);
    if !HasKind(app, kind) {
      AppendOtherKind(app, EmptyIfd(kind), k, other);
    }
  }

  /** Directories of one kind changing leaves the lookups in other kinds alone. */
  lemma SameOutsideKind(a: App, b: App, kind: IfdKind, k: IfdKind, other: nat)
    requires |a| == |b| && k != kind
    requires forall i :: 0 <= i < |a| ==> a[i].kind == b[i].kind
    requires forall i :: 0 <= i < |a| && a[i].kind != kind ==> b[i] == a[i]
    ensures FindTag(b, k, other) == FindTag(a, k, other)
  {
    KindsDecideFind(a, b, k);
  }

  /** Appending a directory of another kind leaves a lookup alone. */
  lemma AppendOtherKind(app: App, d: Ifd, k: IfdKind, other: nat)
    requires d.kind != k
    ensures FindTag(app + [d], k, other) == FindTag(app, k, other)
  {
    if HasKind(app, k) {
      FindIfdAppend(app, d, k);
    }
  }

  lemma FrameOtherId(app: App, kind: IfdKind, id: nat, typ: nat, count: int, index: int, data: Option<seq<byte>>,
                     other: nat)
    requires PutFits(typ, count, index, data) && TypeSize(typ).Some?
    requires other != id
    ensures FindTag(PutValue(app, kind, id, typ, count, index, data).value, kind, other) == FindTag(app, kind, other)
  {
    var base := Target(app, kind);
    PutKeepsOtherIds(IfdAt(base, kind), id, typ, count, index, data, other);
    if !HasKind(app, kind) {
      assert IfdAt(base, kind).tags == [] by {
        assert IfdAt(base, kind) in app + [EmptyIfd(kind)];
      }
    }
  }

  /** After exif_put_value with data the lookup finds the tag holding the
      stored bytes; after one without data, and with unique ids in the
      directory, it finds nothing. */
  lemma PutValueThenFind(app: App, kind: IfdKind, id: nat, typ: nat, count: int, index: int, data: Option<seq<byte>>)
    requires PutFits(typ, count, index, data) && TypeSize(typ).Some?
    ensures var r := PutValue(app, kind, id, typ, count, index, data).value;
            var w := TypeSize(typ).value;
            var size := PutSize(w, count, index, data);
            && (size > 0 ==>
                  && data.Some? && count >= 1 && index >= 0
                  && FindTag(r, kind, id).Some?
                  && FindTag(r, kind, id).value.size >= size
                  && index * w + StoreLen(typ, w, count) <= |FindTag(r, kind, id).value.data|
                  && FindTag(r, kind, id).value.data[index * w..index * w + StoreLen(typ, w, count)]
                     == data.value[..StoreLen(typ, w, count)])
            && (size == 0 && (HasKind(app, kind) ==> UniqueIds(IfdAt(app, kind).tags)) ==> FindTag(r, kind, id) == None)
  {
    var base := Target(app, kind);
    PutThenLookup(IfdAt(base, kind), id, typ, count, index, data);
    if !HasKind(app, kind) {
      assert IfdAt(base, kind).tags == [] by {
        assert IfdAt(base, kind) in app + [EmptyIfd(kind)];
      }
    }
  }
}

/** The setters the rest of the format code uses, each a store through
    exif_put_value with a fixed type. */
module Setters {
  import opened Outcomes
  import opened Bytes
  import opened FieldTypes
  import opened Directory
  import opened Mutation
  import opened MutationFacts

  /** Lookups of every other (kind, id) pair are unchanged between `a` and `b`. */
  ghost predicate OthersUnchanged(a: App, b: App, kind: IfdKind, id: nat) {
    forall k, other :: k != kind || other != id ==> FindTag(b, k, other) == FindTag(a, k, other)
  }

  /** Quantified form of PutValueFrame. */
  lemma PutValueFrameAll(app: App, kind: IfdKind, id: nat, typ: nat, count: int, index: int, data: Option<seq<byte>>)
    requires PutFits(typ, count, index, data) && TypeSize(typ).Some?
    ensures OthersUnchanged(app, PutValue(app, kind, id, typ, count, index, data).value, kind, id)
  {
    forall k, other | k != kind || other != id
      ensures FindTag(PutValue(app, kind, id, typ, count, index, data).value, k, other) == FindTag(app, k, other)
    {
      PutValueFrame(app, kind, id, typ, count, index, data, k, other);
    }
  }

  /** The first directory of the kind, when present, has unique ids. */
  predicate UniqueAt(app: App, kind: IfdKind) {
    HasKind(app, kind) ==> UniqueIds(IfdAt(app, kind).tags)
  }

  /** exif_put_long: one LONG element at `index` holding the 32-bit
      two's-complement pattern of `val`; a negative index removes the tag. */
  function PutLong(app: App, kind: IfdKind, id: nat, index: int, val: int): (r: App)
    requires index >= 0 ==> (index + 1) * 4 < TWO16
    ensures HasKind(r, kind)
    ensures index >= 0 ==>
              && FindTag(r, kind, id).Some?
              && index * 4 + 4 <= |FindTag(r, kind, id).value.data|
              && LittleValue(FindTag(r, kind, id).value.data[index * 4..index * 4 + 4]) == val % TWO32
    ensures index < 0 && UniqueAt(app, kind) ==> FindTag(r, kind, id) == None
    ensures OthersUnchanged(app, r, kind, id)
  {
    StoreLong(app, kind, id, index, val);
    PutValue(app, kind, id, LONG, 1, index, Some(LittleEndian(val % TWO32, 4))).value
  }

  lemma StoreLong(app: App, kind: IfdKind, id: nat, index: int, val: int)
    requires index >= 0 ==> (index + 1) * 4 < TWO16
    ensures PutFits(LONG, 1, index, Some(LittleEndian(val % TWO32, 4)))
    ensures var r := PutValue(app, kind, id, LONG, 1, index, Some(LittleEndian(val % TWO32, 4))).value;
            && HasKind(r, kind)
            && (index >= 0 ==>
                  && FindTag(r, kind, id).Some?
                  && index * 4 + 4 <= |FindTag(r, kind, id).value.data|
                  && LittleValue(FindTag(r, kind, id).value.data[index * 4..index * 4 + 4]) == val % TWO32)
            && (index < 0 && UniqueAt(app, kind) ==> FindTag(r, kind, id) == None)
            && OthersUnchanged(app, r, kind, id)
  {
    var bytes := LittleEndian(val % TWO32, 4);
    assert TypeSize(LONG) == Some(4);
    assert StoreLen(LONG, 4, 1) == 4;
    assert bytes[..4] == bytes;
    PutValueThenFind(app, kind, id, LONG, 1, index, Some(bytes));
    PutValueFrameAll(app, kind, id, LONG, 1, index, Some(bytes));
    LittleRoundTrip(val % TWO32, 4);
  }

  /** A C string: no NUL byte inside. */
  predicate CString(s: seq<byte>) {
    forall k :: 0 <= k < |s| ==> s[k] != 0
  }

  /** exif_put_str: an ASCII tag holding the string and its terminating
      NUL at the start of its buffer; no string removes the tag. */
  function PutStr(app: App, kind: IfdKind, id: nat, s: Option<seq<byte>>): (r: App)
    requires s.Some? ==> CString(s.value) && |s.value| + 1 < TWO16
    ensures HasKind(r, kind)
    ensures s.Some? ==>
              && FindTag(r, kind, id).Some?
              && FindTag(r, kind, id).value.size >= |s.value| + 1
              && |s.value| + 1 <= |FindTag(r, kind, id).value.data|
              && FindTag(r, kind, id).value.data[..|s.value| + 1] == s.value + [0]
    ensures s.None? && UniqueAt(app, kind) ==> FindTag(r, kind, id) == None
    ensures OthersUnchanged(app, r, kind, id)
  {
    match s
    case None =>
      PutStrNoneIsRemove(app, kind, id);
      assert PutValue(app, kind, id, ASCII, 0, 0, None).value == RemoveTag(app, kind, id);
      PutValue(app, kind, id, ASCII, 0, 0, None).value
    case Some(str) =>
      StoreString(app, kind, id, str);
      PutValue(app, kind, id, ASCII, |str| + 1, 0, Some(str + [0])).value
  }

  lemma StoreString(app: App, kind: IfdKind, id: nat, str: seq<byte>)
    requires |str| + 1 < TWO16
    ensures PutFits(ASCII, |str| + 1, 0, Some(str + [0]))
    ensures var r := PutValue(app, kind, id, ASCII, |str| + 1, 0, Some(str + [0])).value;
            && HasKind(r, kind)
            && FindTag(r, kind, id).Some?
            && FindTag(r, kind, id).value.size >= |str| + 1
            && |str| + 1 <= |FindTag(r, kind, id).value.data|
            && FindTag(r, kind, id).value.data[..|str| + 1] == str + [0]
            && OthersUnchanged(app, r, kind, id)
  {
    var data := Some(str + [0]);
    assert TypeSize(ASCII) == Some(1);
    assert StoreLen(ASCII, 1, |str| + 1) == |str| + 1;
    assert PutSize(1, |str| + 1, 0, data) == |str| + 1;
    PutValueThenFind(app, kind, id, ASCII, |str| + 1, 0, data);
    PutValueFrameAll(app, kind, id, ASCII, |str| + 1, 0, data);
    assert (str + [0])[..|str| + 1] == str + [0];
  }

  /** exif_remove_tag: a store of no data. The directory is created when
      missing; with unique ids in it, the tag is gone afterwards. */
  function RemoveTag(app: App, kind: IfdKind, id: nat): (r: App)
    ensures HasKind(r, kind)
    ensures UniqueAt(app, kind) ==> FindTag(r, kind, id) == None
    ensures OthersUnchanged(app, r, kind, id)
  {
    PutValueThenFind(app, kind, id, BYTE, 0, 0, None);
    PutValueFrameAll(app, kind, id, BYTE, 0, 0, None);
    PutValue(app, kind, id, BYTE, 0, 0, None).value
  }

  /** Storing no string is removing the tag: the source passes the ASCII
      type instead of BYTE, and a removal does not look at the type. */
  lemma PutStrNoneIsRemove(app: App, kind: IfdKind, id: nat)
    ensures PutValue(app, kind, id, ASCII, 0, 0, None) == PutValue(app, kind, id, BYTE, 0, 0, None)
  {
  }
}
