/** Writing a directory with exif_write_ifd and reading it back with
    exif_read_ifd: the reader recovers the entry count, the next pointer
    and every entry the writer emitted, in both byte orders.
 */
module RoundTrip {
  import opened Outcomes
  import opened Bytes
  import opened FieldTypes
  import opened Directory
  import opened Reader
  import opened Writer
  import opened WriterFacts

  /** A tag the writer can emit and the reader can take back: every field
      fits its 16- or 32-bit slot, the size is the element width times the
      count, and an inline value has an inline encoder. */
  predicate Encodable(t: Tag) {
    && t.id < TWO16 && t.typ < TWO16 && t.count < TWO32
    && TypeSize(t.typ).Some?
    && t.size == SizeOf(t.typ, t.count) && t.size < TWO32
    && Writable(t)
    && (t.size <= 4 ==> InlineUnit(t.typ).Some?)
  }

  /** A non-empty directory whose explicit count matches its entries, to be
      written at an even position and ending below 2^32. */
  predicate EncodableIfd(d: Ifd, pos: nat) {
    && d.count == |d.tags| && 0 < d.count < TWO16
    && pos % 2 == 0
    && (forall i :: 0 <= i < |d.tags| ==> Encodable(d.tags[i]))
    && pos + 6 + 12 * d.count + PayloadTotal(d.tags) < TWO32
  }

  /** What the reader makes of a written entry before any payload is
      fetched: an inline value with `original` its first word, or the
      offset with four zero bytes of data. */
  function Announced(t: Tag): Tag
    requires Writable(t)
  {
    if t.size <= 4 then t.(offset := 0, original := LittleValue(t.data[..4]), data := t.data[..4])
    else t.(original := t.offset, data := Zeros(4))
  }

  /** What the reader makes of a written entry once its payload is fetched. */
  function Recovered(t: Tag): Tag
    requires Writable(t)
  {
    if t.size <= 4 then Announced(t) else t.(original := t.offset, data := t.data[..t.size])
  }

  function AnnouncedAll(tags: seq<Tag>): (r: seq<Tag>)
    requires AllWritable(tags)
    ensures |r| == |tags|
    decreases |tags|
  {
    if |tags| == 0 then [] else [Announced(tags[0])] + AnnouncedAll(tags[1..])
  }

  function RecoveredAll(tags: seq<Tag>): (r: seq<Tag>)
    requires AllWritable(tags)
    ensures |r| == |tags|
    decreases |tags|
  {
    if |tags| == 0 then [] else [Recovered(tags[0])] + RecoveredAll(tags[1..])
  }

  lemma {:induction false} RecoveredAllAt(tags: seq<Tag>, i: nat)
    requires AllWritable(tags) && i < |tags|
    ensures RecoveredAll(tags)[i] == Recovered(tags[i])
    decreases |tags|
  {
    if i > 0 {
      RecoveredAllAt(tags[1..], i - 1);
    }
  }

  /** The run `o` sits at `pos` in `buf`. */
  predicate Stored(buf: seq<byte>, pos: nat, o: seq<byte>) {
    pos + |o| <= |buf| && buf[pos..pos + |o|] == o
  }

  /** A run found inside a slice is found inside the whole sequence. */
  lemma WithinSlice(s: seq<byte>, a: nat, t: seq<byte>, c: nat, m: nat)
    requires Stored(s, a, t) && c + m <= |t|
    ensures s[a + c..a + c + m] == t[c..c + m]
  {
    forall j | a + c <= j < a + c + m ensures s[j] == t[j - a] {
      assert s[a..a + |t|][j - a] == s[j];
    }
  }

  lemma IfdBytesEntry(count: nat, entries: seq<byte>, nxt: nat, area: seq<byte>, big: bool, k: nat, m: nat)
    requires k + m <= |entries|
    ensures IfdBytes(count, entries, nxt, area, big)[2 + k..2 + k + m] == entries[k..k + m]
  {
    var o := IfdBytes(count, entries, nxt, area, big);
    assert o == Put16(count, big) + (entries + (Put32(nxt, big) + area));
    forall j | 2 + k <= j < 2 + k + m ensures o[j] == entries[j - 2] { }
  }

  lemma IfdBytesArea(count: nat, entries: seq<byte>, nxt: nat, area: seq<byte>, big: bool, k: nat, m: nat)
    requires k + m <= |area|
    ensures IfdBytes(count, entries, nxt, area, big)[6 + |entries| + k..6 + |entries| + k + m] == area[k..k + m]
  {
    var o := IfdBytes(count, entries, nxt, area, big);
    assert o == (Put16(count, big) + entries + Put32(nxt, big)) + area;
    forall j | 6 + |entries| + k <= j < 6 + |entries| + k + m ensures o[j] == area[j - 6 - |entries|] { }
  }

  /** Entry `i` of the encoded list is the encoding of tag `i`. */
  lemma {:induction false} EncodeEntriesAt(tags: seq<Tag>, big: bool, i: nat)
    requires AllWritable(tags) && EncodeEntries(tags, big).Ok? && i < |tags|
    ensures EncodeEntry(tags[i], big).Ok?
    ensures EncodeEntries(tags, big).value[12 * i..12 * i + 12] == EncodeEntry(tags[i], big).value
    decreases |tags|
  {
    EncodeEntriesSplit(tags, big);
    if i > 0 {
      EncodeEntriesAt(tags[1..], big, i - 1);
      assert tags[1..][i - 1] == tags[i];
      LaterEntry(EncodeEntry(tags[0], big).value, EncodeEntries(tags[1..], big).value, i);
    }
  }

  /** A non-empty encoded list is the head's entry, then the rest's. */
  lemma EncodeEntriesSplit(tags: seq<Tag>, big: bool)
    requires AllWritable(tags) && EncodeEntries(tags, big).Ok? && 0 < |tags|
    ensures AllWritable(tags[1..])
    ensures EncodeEntry(tags[0], big).Ok? && EncodeEntries(tags[1..], big).Ok?
    ensures EncodeEntries(tags, big).value == EncodeEntry(tags[0], big).value + EncodeEntries(tags[1..], big).value
    ensures EncodeEntries(tags, big).value[..12] == EncodeEntry(tags[0], big).value
  {
  }

  /** Past a 12-byte head, entry `i` is entry `i - 1` of the rest. */
  lemma LaterEntry(head: seq<byte>, rest: seq<byte>, i: nat)
    requires |head| == 12 && 0 < i && 12 * i + 12 <= |head| + |rest|
    ensures (head + rest)[12 * i..12 * i + 12] == rest[12 * (i - 1)..12 * (i - 1) + 12]
  {
  }

  /** The laid-out tag `i` is tag `i` with its assigned offset, which lies
      between the start of the payload area and the end offset. */
  lemma LaidTag(d: Ifd, pos: nat, laid: seq<Tag>, end: nat, i: nat)
    requires EncodableIfd(d, pos)
    requires laid == Layout(d.tags, pos + 2 + 12 * d.count + 4).0
    requires end == Layout(d.tags, pos + 2 + 12 * d.count + 4).1
    requires i < |d.tags|
    ensures laid[i] == d.tags[i].(offset := laid[i].offset)
    ensures d.tags[i].size <= 4 ==> laid[i] == d.tags[i]
    ensures Encodable(laid[i])
    ensures end < TWO32
    ensures d.tags[i].size > 4 ==>
              pos + 6 + 12 * d.count <= laid[i].offset && laid[i].offset + d.tags[i].size <= end
  {
    var start := pos + 2 + 12 * d.count + 4;
    LayoutKeeps(d.tags, start);
    LayoutEnd(d.tags, start);
    assert Encodable(d.tags[i]);
    if d.tags[i].size > 4 {
      LayoutBounds(d.tags, start, i);
    }
  }

  /** The twelve bytes at `q` are the entry EncodeEntry makes of `t`, and
      `t` is one the reader can take back. */
  predicate EntryAt(buf: seq<byte>, big: bool, q: nat, t: Tag) {
    && Encodable(t) && (t.size > 4 ==> t.offset < TWO32)
    && EncodeEntry(t, big).Ok?
    && q + 12 <= |buf|
    && buf[q..q + 12] == EncodeEntry(t, big).value
  }

  predicate EntriesAt(buf: seq<byte>, big: bool, q: nat, tags: seq<Tag>) {
    forall k :: 0 <= k < |tags| ==> EntryAt(buf, big, q + 12 * k, tags[k])
  }

  /** The out-of-line payload of `t` sits, in file order, at its offset. */
  predicate PayloadAt(buf: seq<byte>, big: bool, t: Tag) {
    && Writable(t)
    && (t.size > 4 ==>
          && 0 < t.offset && t.offset + t.size <= |buf|
          && Reorder(buf[t.offset..t.offset + t.size], PayloadUnit(t.typ), big) == t.data[..t.size])
  }

  predicate PayloadsAt(buf: seq<byte>, big: bool, tags: seq<Tag>) {
    forall k :: 0 <= k < |tags| ==> PayloadAt(buf, big, tags[k])
  }

  /** The entry bytes and the payload area of a stored directory image sit
      at their places in the buffer. */
  lemma EntriesInBuffer(buf: seq<byte>, big: bool, pos: nat, count: nat, entries: seq<byte>,
                        nxt: nat, area: seq<byte>, o: seq<byte>, k: nat, m: nat)
    requires o == IfdBytes(count, entries, nxt, area, big) && Stored(buf, pos, o)
    requires k + m <= |entries|
    ensures pos + 2 + k + m <= |buf| && buf[pos + 2 + k..pos + 2 + k + m] == entries[k..k + m]
  {
    IfdBytesEntry(count, entries, nxt, area, big, k, m);
    WithinSlice(buf, pos, o, 2 + k, m);
  }

  lemma AreaInBuffer(buf: seq<byte>, big: bool, pos: nat, count: nat, entries: seq<byte>,
                     nxt: nat, area: seq<byte>, o: seq<byte>, k: nat, m: nat)
    requires o == IfdBytes(count, entries, nxt, area, big) && Stored(buf, pos, o)
    requires k + m <= |area|
    ensures pos + 6 + |entries| + k + m <= |buf|
    ensures buf[pos + 6 + |entries| + k..pos + 6 + |entries| + k + m] == area[k..k + m]
  {
    IfdBytesArea(count, entries, nxt, area, big, k, m);
    WithinSlice(buf, pos, o, 6 + |entries| + k, m);
  }

  /** The payload area laid out from `start` holds the file-order payload
      of out-of-line tag `i` at the offset Layout gave it. */
  lemma AreaHolds(tags: seq<Tag>, big: bool, start: nat, laid: seq<Tag>, end: nat, area: seq<byte>, i: nat)
    requires AllWritable(tags) && laid == Layout(tags, start).0 && end == Layout(tags, start).1
    requires AllWritable(laid) && area == Payloads(laid, big, start)
    requires i < |tags| && tags[i].size > 4
    ensures start <= laid[i].offset && laid[i].offset - start + tags[i].size <= |area|
    ensures area[laid[i].offset - start..laid[i].offset - start + tags[i].size] == PayloadBytes(tags[i], big)
  {
    PayloadsIgnoreOffsets(tags, big, start);
    AreaOfTags(tags, big, start, laid, end, Payloads(tags, big, start), i);
  }

  lemma AreaOfTags(tags: seq<Tag>, big: bool, start: nat, laid: seq<Tag>, end: nat, area: seq<byte>, i: nat)
    requires AllWritable(tags) && laid == Layout(tags, start).0 && end == Layout(tags, start).1
    requires area == Payloads(tags, big, start)
    requires i < |tags| && tags[i].size > 4
    ensures start <= laid[i].offset && laid[i].offset - start + tags[i].size <= |area|
    ensures area[laid[i].offset - start..laid[i].offset - start + tags[i].size] == PayloadBytes(tags[i], big)
  {
    PayloadPlaced(tags, big, start, i);
  }

  /** An entry found in the entry list of a stored image is found in the
      buffer. */
  lemma EntryGeneric(buf: seq<byte>, big: bool, pos: nat, count: nat, entries: seq<byte>, nxt: nat,
                     area: seq<byte>, o: seq<byte>, t: Tag, i: nat)
    requires o == IfdBytes(count, entries, nxt, area, big) && Stored(buf, pos, o)
    requires Encodable(t) && (t.size > 4 ==> t.offset < TWO32) && EncodeEntry(t, big).Ok?
    requires 12 * i + 12 <= |entries| && entries[12 * i..12 * i + 12] == EncodeEntry(t, big).value
    ensures EntryAt(buf, big, pos + 2 + 12 * i, t)
  {
    EntriesInBuffer(buf, big, pos, count, entries, nxt, area, o, 12 * i, 12);
  }

  lemma InlinePayloadAt(buf: seq<byte>, big: bool, t: Tag)
    requires Writable(t) && t.size <= 4
    ensures PayloadAt(buf, big, t)
  {
  }

  lemma LaidIsTag(tags: seq<Tag>, start: nat, laid: seq<Tag>, i: nat)
    requires AllWritable(tags) && laid == Layout(tags, start).0 && i < |tags|
    ensures Writable(tags[i]) && Writable(laid[i]) && laid[i] == tags[i].(offset := laid[i].offset)
    ensures tags[i].size <= 4 ==> laid[i] == tags[i]
  {
    LayoutKeeps(tags, start);
  }

  /** A payload found in the area of a stored image is found in the buffer
      at its offset. */
  lemma PayloadSitsAt(buf: seq<byte>, big: bool, pos: nat, count: nat, entries: seq<byte>, nxt: nat,
                      area: seq<byte>, o: seq<byte>, t: Tag, laid: Tag, k: nat)
    requires o == IfdBytes(count, entries, nxt, area, big) && Stored(buf, pos, o)
    requires Writable(t) && t.size > 4 && laid == t.(offset := laid.offset)
    requires laid.offset == pos + 6 + |entries| + k && k + t.size <= |area|
    requires area[k..k + t.size] == Reorder(t.data[..t.size], PayloadUnit(t.typ), big)
    ensures PayloadAt(buf, big, laid)
  {
    AreaInBuffer(buf, big, pos, count, entries, nxt, area, o, k, t.size);
    PayloadFromBytes(buf, big, t, laid);
  }

  /** Assigning an offset keeps a tag writable. */
  lemma WritableMoved(t: Tag, laid: Tag)
    requires Writable(t) && laid == t.(offset := laid.offset)
    ensures Writable(laid)
  {
  }

  /** A payload written in file order reads back as the tag's data. */
  lemma PayloadFromBytes(buf: seq<byte>, big: bool, t: Tag, laid: Tag)
    requires Writable(t) && t.size > 4 && laid == t.(offset := laid.offset)
    requires 0 < laid.offset && laid.offset + t.size <= |buf|
    requires buf[laid.offset..laid.offset + t.size] == Reorder(t.data[..t.size], PayloadUnit(t.typ), big)
    ensures PayloadAt(buf, big, laid)
  {
    WritableMoved(t, laid);
    ReorderBack(buf[laid.offset..laid.offset + t.size], t.data[..t.size], PayloadUnit(t.typ), big);
  }

  /** An entry written by EncodeEntry decodes to the announced tag. */
  lemma EntryDecodes(buf: seq<byte>, big: bool, q: nat, t: Tag)
    requires EntryAt(buf, big, q, t)
    ensures ReadEntry(buf, big, q) == Ok(Announced(t))
  {
    EntryBytes(buf, big, q, t);
    Get16At(buf, q, t.id, big);
    Get16At(buf, q + 2, t.typ, big);
    Get32At(buf, q + 4, t.count, big);
    if t.size > 4 {
      Get32At(buf, q + 8, t.offset, big);
    } else {
      var unit := InlineUnit(t.typ).value;
      assert Reorder(buf[q + 8..q + 12], unit, big) == t.data[..4];
      assert t.data[..4][..4] == t.data[..4];
    }
  }

  /** The fields of an entry written by EncodeEntry, found in the buffer. */
  lemma EntryBytes(buf: seq<byte>, big: bool, q: nat, t: Tag)
    requires EntryAt(buf, big, q, t)
    ensures buf[q..q + 2] == Put16(t.id, big) && buf[q + 2..q + 4] == Put16(t.typ, big)
    ensures buf[q + 4..q + 8] == Put32(t.count, big) && buf[q + 8..q + 12] == WriteValue(t, big).value
  {
    var e := EncodeEntry(t, big).value;
    EntryFields(t, big);
    assert Stored(buf, q, e);
    WithinSlice(buf, q, e, 0, 2);
    WithinSlice(buf, q, e, 2, 2);
    WithinSlice(buf, q, e, 4, 4);
    WithinSlice(buf, q, e, 8, 4);
    assert e[0..2] == e[..2];
    assert e[8..12] == e[8..];
  }

  lemma EntriesTail(buf: seq<byte>, big: bool, q: nat, tags: seq<Tag>)
    requires EntriesAt(buf, big, q, tags) && |tags| > 0
    ensures EntryAt(buf, big, q, tags[0]) && EntriesAt(buf, big, q + 12, tags[1..])
  {
    assert EntryAt(buf, big, q + 12 * 0, tags[0]);
    forall k | 0 <= k < |tags| - 1
      ensures EntryAt(buf, big, q + 12 + 12 * k, tags[1..][k])
    {
      assert EntryAt(buf, big, q + 12 * (k + 1), tags[k + 1]);
    }
  }

  lemma AllWritableCons(tags: seq<Tag>)
    requires |tags| > 0 && Writable(tags[0]) && AllWritable(tags[1..])
    ensures AllWritable(tags)
  {
    assert forall k :: 1 <= k < |tags| ==> tags[k] == tags[1..][k - 1];
  }

  /** Entries stored back to back decode to the announced tags. */
  lemma {:induction false} EntriesDecode(buf: seq<byte>, big: bool, q: nat, tags: seq<Tag>)
    requires EntriesAt(buf, big, q, tags)
    ensures AllWritable(tags)
    ensures ReadEntries(buf, big, q, |tags|) == Ok(AnnouncedAll(tags))
    decreases |tags|
  {
    if |tags| > 0 {
      EntriesTail(buf, big, q, tags);
      EntriesDecode(buf, big, q + 12, tags[1..]);
      EntryDecodes(buf, big, q, tags[0]);
      AllWritableCons(tags);
    }
  }

  /** Fetching the payload of an announced tag yields the recovered tag. */
  lemma ResolvesOne(buf: seq<byte>, big: bool, t: Tag)
    requires PayloadAt(buf, big, t)
    ensures Resolve(buf, big, Announced(t)) == Ok(Recovered(t))
  {
  }

  lemma {:induction false} ResolvesAll(buf: seq<byte>, big: bool, tags: seq<Tag>)
    requires PayloadsAt(buf, big, tags)
    ensures AllWritable(tags)
    ensures ResolveAll(buf, big, AnnouncedAll(tags)) == Ok(RecoveredAll(tags))
    decreases |tags|
  {
    if |tags| > 0 {
      assert PayloadAt(buf, big, tags[0]);
      assert PayloadsAt(buf, big, tags[1..]);
      ResolvesAll(buf, big, tags[1..]);
      ResolvesOne(buf, big, tags[0]);
      assert AnnouncedAll(tags)[1..] == AnnouncedAll(tags[1..]);
    }
  }

  /** The entry count at `pos` and the next pointer after `count` entries. */
  predicate HeaderAt(buf: seq<byte>, big: bool, pos: nat, count: nat, nxt: nat) {
    && pos + 2 + 12 * count + 4 <= |buf|
    && Get16(buf, pos, big) == count
    && Get32(buf, pos + 2 + 12 * count, big) == nxt
  }

  /** The count and next pointer read from a stored directory image are the
      ones written. */
  lemma CountAndNext(buf: seq<byte>, big: bool, pos: nat, count: nat, entries: seq<byte>,
                     nxt: nat, area: seq<byte>, o: seq<byte>)
    requires count < TWO16 && nxt < TWO32 && |entries| == 12 * count
    requires o == IfdBytes(count, entries, nxt, area, big) && Stored(buf, pos, o)
    ensures HeaderAt(buf, big, pos, count, nxt)
  {
    WithinSlice(buf, pos, o, 0, 2);
    assert o[0..2] == o[..2];
    Get16At(buf, pos, count, big);
    IfdBytesNext(count, entries, nxt, area, big);
    WithinSlice(buf, pos, o, 2 + |entries|, 4);
    Get32At(buf, pos + 2 + |entries|, nxt, big);
  }

  /** exif_read_ifd succeeds on a non-empty directory whose entries, next
      pointer and payloads all decode. */
  lemma ReadIfdOk(buf: seq<byte>, big: bool, kind: IfdKind, pos: nat, p: Pointers,
                  n: nat, nx: nat, es: seq<Tag>, ts: seq<Tag>)
    requires pos + 2 + 12 * n + 4 <= |buf| && 0 < n
    requires Get16(buf, pos, big) == n && Get32(buf, pos + 2 + 12 * n, big) == nx
    requires ReadEntries(buf, big, pos + 2, n) == Ok(es)
    requires ResolveAll(buf, big, es) == Ok(ts)
    ensures ReadIfd(buf, big, kind, pos, p) == Ok((Ifd(kind, n, nx, ts), CaptureAll(kind, es, p)))
  {
  }

  /** A buffer whose count, entries, next pointer and payloads are in place
      reads back as exactly the recovered tags. */
  lemma ReadBack(buf: seq<byte>, big: bool, pos: nat, tags: seq<Tag>, nxt: nat, kind: IfdKind, p: Pointers)
    requires Decodable(buf, big, pos, tags, nxt)
    ensures ReadIfd(buf, big, kind, pos, p)
            == Ok((Ifd(kind, |tags|, nxt, RecoveredAll(tags)), CaptureAll(kind, AnnouncedAll(tags), p)))
  {
    ReadIfdOk(buf, big, kind, pos, p, |tags|, nxt, AnnouncedAll(tags), RecoveredAll(tags));
  }

  /** A read-back entry agrees with the written one: id, type, count, size
      and payload (the four value bytes inline, `size` bytes otherwise). */
  predicate SameEntry(read: Tag, written: Tag)
    requires Writable(written)
  {
    && read.id == written.id && read.typ == written.typ
    && read.count == written.count && read.size == written.size
    && (written.size <= 4 ==> read.data == written.data[..4])
    && (written.size > 4 ==> read.data == written.data[..written.size])
  }

  /** What the layout guarantees about tag `i` before anything is stored:
      its laid-out form `laid` is encodable, its entry is at `12 * i` in
      the entry list, and an out-of-line payload is in the area at its
      offset (the area starting at absolute position `start`). */
  predicate TagPlaced(t: Tag, laid: Tag, big: bool, entries: seq<byte>, area: seq<byte>, start: nat, i: nat) {
    LaidOk(t, laid, start) && EntryListed(laid, big, entries, i) && AreaListed(t, laid, big, area, start)
  }

  predicate LaidOk(t: Tag, laid: Tag, start: nat) {
    && Writable(t) && Encodable(laid) && laid == t.(offset := laid.offset)
    && (t.size > 4 ==> start <= laid.offset < TWO32)
  }

  predicate EntryListed(laid: Tag, big: bool, entries: seq<byte>, i: nat) {
    && Writable(laid) && EncodeEntry(laid, big).Ok?
    && 12 * i + 12 <= |entries| && entries[12 * i..12 * i + 12] == EncodeEntry(laid, big).value
  }

  predicate AreaListed(t: Tag, laid: Tag, big: bool, area: seq<byte>, start: nat) {
    && Writable(t)
    && (t.size > 4 ==>
          && start <= laid.offset && laid.offset - start + t.size <= |area|
          && area[laid.offset - start..laid.offset - start + t.size]
             == Reorder(t.data[..t.size], PayloadUnit(t.typ), big))
  }

  predicate AllPlaced(tags: seq<Tag>, laid: seq<Tag>, big: bool, entries: seq<byte>, area: seq<byte>, start: nat) {
    && |laid| == |tags|
    && forall i :: 0 <= i < |tags| ==> TagPlaced(tags[i], laid[i], big, entries, area, start, i)
  }

  lemma AllLaidOk(d: Ifd, pos: nat, laid: seq<Tag>, end: nat)
    requires EncodableIfd(d, pos)
    requires laid == Layout(d.tags, pos + 2 + 12 * d.count + 4).0
    requires end == Layout(d.tags, pos + 2 + 12 * d.count + 4).1
    ensures |laid| == |d.tags|
    ensures forall i :: 0 <= i < |d.tags| ==> LaidOk(d.tags[i], laid[i], pos + 2 + 12 * d.count + 4)
  {
    forall i | 0 <= i < |d.tags|
      ensures LaidOk(d.tags[i], laid[i], pos + 2 + 12 * d.count + 4)
    {
      LaidTag(d, pos, laid, end, i);
    }
  }

  lemma AllEntriesListed(laid: seq<Tag>, big: bool, entries: seq<byte>)
    requires AllWritable(laid) && EncodeEntries(laid, big) == Ok(entries)
    ensures forall i :: 0 <= i < |laid| ==> EntryListed(laid[i], big, entries, i)
  {
    forall i | 0 <= i < |laid|
      ensures EntryListed(laid[i], big, entries, i)
    {
      EncodeEntriesAt(laid, big, i);
    }
  }

  lemma AllAreasListed(tags: seq<Tag>, big: bool, start: nat, laid: seq<Tag>, end: nat, area: seq<byte>)
    requires AllWritable(tags) && laid == Layout(tags, start).0 && end == Layout(tags, start).1
    requires AllWritable(laid) && area == Payloads(laid, big, start)
    ensures forall i :: 0 <= i < |tags| ==> AreaListed(tags[i], laid[i], big, area, start)
  {
    forall i | 0 <= i < |tags|
      ensures AreaListed(tags[i], laid[i], big, area, start)
    {
      if tags[i].size > 4 {
        AreaHolds(tags, big, start, laid, end, area, i);
        PayloadIsReorder(tags[i], big);
      }
    }
  }

  /** Every tag of a laid-out directory is placed. */
  lemma AllLaidPlaced(d: Ifd, big: bool, pos: nat, laid: seq<Tag>, end: nat, entries: seq<byte>, area: seq<byte>)
    requires EncodableIfd(d, pos) && AllWritable(d.tags)
    requires laid == Layout(d.tags, pos + 2 + 12 * d.count + 4).0
    requires end == Layout(d.tags, pos + 2 + 12 * d.count + 4).1
    requires AllWritable(laid) && EncodeEntries(laid, big) == Ok(entries)
    requires area == Payloads(laid, big, pos + 2 + 12 * d.count + 4)
    ensures AllPlaced(d.tags, laid, big, entries, area, pos + 2 + 12 * d.count + 4)
  {
    AllLaidOk(d, pos, laid, end);
    AllEntriesListed(laid, big, entries);
    AllAreasListed(d.tags, big, pos + 2 + 12 * d.count + 4, laid, end, area);
  }

  /** A placed tag of a stored image has its entry and payload in the
      buffer. */
  lemma TagInBuffer(buf: seq<byte>, big: bool, pos: nat, count: nat, entries: seq<byte>, nxt: nat,
                    area: seq<byte>, o: seq<byte>, t: Tag, laid: Tag, i: nat)
    requires o == IfdBytes(count, entries, nxt, area, big) && Stored(buf, pos, o)
    requires TagPlaced(t, laid, big, entries, area, pos + 6 + |entries|, i)
    ensures EntryAt(buf, big, pos + 2 + 12 * i, laid) && PayloadAt(buf, big, laid)
  {
    EntryGeneric(buf, big, pos, count, entries, nxt, area, o, laid, i);
    if t.size > 4 {
      PayloadSitsAt(buf, big, pos, count, entries, nxt, area, o, t, laid, laid.offset - (pos + 6 + |entries|));
    } else {
      InlinePayloadAt(buf, big, laid);
    }
  }

  /** The stored image of a placed directory has every entry and every
      payload in place. */
  lemma ImageInPlace(buf: seq<byte>, big: bool, pos: nat, count: nat, entries: seq<byte>, nxt: nat,
                     area: seq<byte>, o: seq<byte>, tags: seq<Tag>, laid: seq<Tag>)
    requires o == IfdBytes(count, entries, nxt, area, big) && Stored(buf, pos, o)
    requires AllPlaced(tags, laid, big, entries, area, pos + 6 + |entries|)
    ensures EntriesAt(buf, big, pos + 2, laid) && PayloadsAt(buf, big, laid)
  {
    forall i | 0 <= i < |laid|
      ensures EntryAt(buf, big, pos + 2 + 12 * i, laid[i]) && PayloadAt(buf, big, laid[i])
    {
      TagInBuffer(buf, big, pos, count, entries, nxt, area, o, tags[i], laid[i], i);
    }
  }

  /** What the reader needs of a buffer to take back `tags`: the count, the
      next pointer, the entries and the payloads. */
  predicate Decodable(buf: seq<byte>, big: bool, pos: nat, tags: seq<Tag>, nxt: nat) {
    && AllWritable(tags)
    && 0 < |tags| && pos + 2 + 12 * |tags| + 4 <= |buf|
    && Get16(buf, pos, big) == |tags| && Get32(buf, pos + 2 + 12 * |tags|, big) == nxt
    && ReadEntries(buf, big, pos + 2, |tags|) == Ok(AnnouncedAll(tags))
    && ResolveAll(buf, big, AnnouncedAll(tags)) == Ok(RecoveredAll(tags))
  }

  /** A stored image of placed tags is decodable. */
  lemma StoredDecodable(buf: seq<byte>, big: bool, pos: nat, count: nat, entries: seq<byte>, nxt: nat,
                        area: seq<byte>, o: seq<byte>, tags: seq<Tag>, laid: seq<Tag>)
    requires o == IfdBytes(count, entries, nxt, area, big) && Stored(buf, pos, o)
    requires 0 < count < TWO16 && nxt < TWO32 && count == |laid| && |entries| == 12 * count
    requires AllPlaced(tags, laid, big, entries, area, pos + 2 + 12 * count + 4)
    ensures Decodable(buf, big, pos, laid, nxt)
  {
    CountAndNext(buf, big, pos, count, entries, nxt, area, o);
    ImageInPlace(buf, big, pos, count, entries, nxt, area, o, tags, laid);
    FactsDecodable(buf, big, pos, laid, nxt);
  }

  /** A stored image of placed tags reads back as the recovered tags with
      the count and the next pointer written. */
  lemma StoredReadsBack(buf: seq<byte>, big: bool, pos: nat, count: nat, entries: seq<byte>, nxt: nat,
                        area: seq<byte>, o: seq<byte>, tags: seq<Tag>, laid: seq<Tag>, kind: IfdKind, p: Pointers)
    requires o == IfdBytes(count, entries, nxt, area, big) && Stored(buf, pos, o)
    requires 0 < count < TWO16 && nxt < TWO32 && count == |laid| && |entries| == 12 * count
    requires AllPlaced(tags, laid, big, entries, area, pos + 2 + 12 * count + 4)
    ensures AllWritable(laid)
    ensures ReadIfd(buf, big, kind, pos, p)
            == Ok((Ifd(kind, count, nxt, RecoveredAll(laid)), CaptureAll(kind, AnnouncedAll(laid), p)))
  {
    StoredDecodable(buf, big, pos, count, entries, nxt, area, o, tags, laid);
    ReadBack(buf, big, pos, laid, nxt, kind, p);
  }

  lemma FactsDecodable(buf: seq<byte>, big: bool, pos: nat, tags: seq<Tag>, nxt: nat)
    requires 0 < |tags| && HeaderAt(buf, big, pos, |tags|, nxt)
    requires EntriesAt(buf, big, pos + 2, tags) && PayloadsAt(buf, big, tags)
    ensures Decodable(buf, big, pos, tags, nxt)
  {
    EntriesDecode(buf, big, pos + 2, tags);
    ResolvesAll(buf, big, tags);
  }

  /** The recovered form of a placed tag agrees with the tag written. */
  lemma RecoveredSame(tags: seq<Tag>, laid: seq<Tag>, start: nat, i: nat)
    requires |laid| == |tags| && i < |tags|
    requires forall k :: 0 <= k < |tags| ==> LaidOk(tags[k], laid[k], start)
    ensures AllWritable(laid) && Writable(tags[i])
    ensures SameEntry(RecoveredAll(laid)[i], tags[i])
    ensures tags[i].size > 4 ==> RecoveredAll(laid)[i].offset == laid[i].offset
  {
    assert LaidOk(tags[i], laid[i], start);
    RecoveredAllAt(laid, i);
  }

  lemma EncodableWritable(d: Ifd, pos: nat)
    requires EncodableIfd(d, pos)
    ensures AllWritable(d.tags)
  {
    forall i | 0 <= i < |d.tags| ensures Writable(d.tags[i]) {
      assert Encodable(d.tags[i]);
    }
  }

  /** What exif_write_ifd emits, in terms of the laid-out tags: the count,
      the entry list, the next pointer and the payload area. */
  lemma WrittenParts(d: Ifd, next: bool, pos: nat, big: bool)
      returns (laid: seq<Tag>, end: nat, entries: seq<byte>, area: seq<byte>, nxt: nat)
    requires EncodableIfd(d, pos)
    requires WriteIfd(d, next, pos, big).Ok?
    ensures laid == Layout(d.tags, pos + 2 + 12 * d.count + 4).0
    ensures end == Layout(d.tags, pos + 2 + 12 * d.count + 4).1
    ensures AllWritable(d.tags) && AllWritable(laid) && EncodeEntries(laid, big) == Ok(entries)
    ensures area == Payloads(laid, big, pos + 2 + 12 * d.count + 4)
    ensures WriteIfd(d, next, pos, big).value.0 == IfdBytes(d.count, entries, nxt, area, big)
    ensures WriteIfd(d, next, pos, big).value.1.tags == laid
    ensures nxt == (if next then pos + |WriteIfd(d, next, pos, big).value.0| else 0) && nxt < TWO32
    ensures |entries| == 12 * d.count
  {
    var start := pos + 2 + 12 * d.count + 4;
    laid := Layout(d.tags, start).0;
    end := Layout(d.tags, start).1;
    EncodableWritable(d, pos);
    WriteIfdParts(d, next, pos, big, laid, end);
    WriteIfdLength(d, next, pos, big, laid, end);
    nxt := if next then end else 0;
    entries := EncodeEntries(laid, big).value;
    area := Payloads(laid, big, start);
  }

  /** What exif_write_ifd emits, in terms of the placed tags. */
  lemma WrittenImage(d: Ifd, next: bool, pos: nat, big: bool)
      returns (laid: seq<Tag>, entries: seq<byte>, area: seq<byte>, nxt: nat)
    requires EncodableIfd(d, pos)
    requires WriteIfd(d, next, pos, big).Ok?
    ensures WriteIfd(d, next, pos, big).value.0 == IfdBytes(d.count, entries, nxt, area, big)
    ensures WriteIfd(d, next, pos, big).value.1.tags == laid
    ensures nxt == (if next then pos + |WriteIfd(d, next, pos, big).value.0| else 0) && nxt < TWO32
    ensures |entries| == 12 * d.count
    ensures AllPlaced(d.tags, laid, big, entries, area, pos + 2 + 12 * d.count + 4)
  {
    var end;
    laid, end, entries, area, nxt := WrittenParts(d, next, pos, big);
    AllLaidPlaced(d, big, pos, laid, end, entries, area);
  }

  /** A stored directory image reads back entry by entry as the tags placed. */
  lemma ImageReadsBack(buf: seq<byte>, big: bool, pos: nat, count: nat, entries: seq<byte>, nxt: nat,
                       area: seq<byte>, o: seq<byte>, tags: seq<Tag>, laid: seq<Tag>, kind: IfdKind, p: Pointers)
    requires o == IfdBytes(count, entries, nxt, area, big) && Stored(buf, pos, o)
    requires 0 < count < TWO16 && nxt < TWO32 && count == |tags| && |entries| == 12 * count
    requires AllPlaced(tags, laid, big, entries, area, pos + 2 + 12 * count + 4)
    ensures var r := ReadIfd(buf, big, kind, pos, p);
            && r.Ok?
            && r.value.0.count == count && |r.value.0.tags| == |tags|
            && r.value.0.nextIfd == nxt
            && (forall i :: 0 <= i < |tags| ==> SameEntry(r.value.0.tags[i], tags[i]))
            && (forall i :: 0 <= i < |tags| && tags[i].size > 4 ==>
                  r.value.0.tags[i].offset == laid[i].offset)
  {
    StoredReadsBack(buf, big, pos, count, entries, nxt, area, o, tags, laid, kind, p);
    forall i | 0 <= i < |tags|
      ensures SameEntry(RecoveredAll(laid)[i], tags[i])
      ensures tags[i].size > 4 ==> RecoveredAll(laid)[i].offset == laid[i].offset
    {
      RecoveredSame(tags, laid, pos + 2 + 12 * count + 4, i);
    }
  }

  /** exif_read_ifd inverts exif_write_ifd: a directory written at an even
      position of a buffer is read back with its count, its next pointer
      (the end of the directory when `next` is set, else 0) and every entry,
      each out-of-line payload found at the offset the writer assigned. */
  lemma WriteThenRead(d: Ifd, next: bool, pos: nat, big: bool, buf: seq<byte>, kind: IfdKind, p: Pointers)
    requires EncodableIfd(d, pos)
    requires WriteIfd(d, next, pos, big).Ok?
    requires Stored(buf, pos, WriteIfd(d, next, pos, big).value.0)
    ensures var (out, written) := WriteIfd(d, next, pos, big).value;
            var r := ReadIfd(buf, big, kind, pos, p);
            && r.Ok?
            && r.value.0.count == d.count && |r.value.0.tags| == |d.tags|
            && r.value.0.nextIfd == (if next then pos + |out| else 0)
            && (forall i :: 0 <= i < |d.tags| ==> SameEntry(r.value.0.tags[i], d.tags[i]))
            && (forall i :: 0 <= i < |d.tags| && d.tags[i].size > 4 ==>
                  r.value.0.tags[i].offset == written.tags[i].offset)
  {
    var laid, entries, area, nxt := WrittenImage(d, next, pos, big);
    ImageReadsBack(buf, big, pos, d.count, entries, nxt, area, WriteIfd(d, next, pos, big).value.0,
                   d.tags, laid, kind, p);
  }

  /** An empty directory does not survive the round trip whole: the writer
      emits the zero count and the next pointer, but the reader stops at the
      zero count and never reads the pointer, so the directory comes back
      with next pointer 0. The pointer is recovered exactly when `next` is
      unset. */
  lemma WriteThenReadEmpty(d: Ifd, next: bool, pos: nat, big: bool, buf: seq<byte>, kind: IfdKind, p: Pointers)
    requires d.count == 0 && d.tags == [] && pos + 6 < TWO32
    requires Stored(buf, pos, Put16(0, big) + Put32(if next then pos + 6 else 0, big))
    ensures WriteIfd(d, next, pos, big) == Ok((Put16(0, big) + Put32(if next then pos + 6 else 0, big), d))
    ensures Get32(buf, pos + 2, big) == (if next then pos + 6 else 0)
    ensures ReadIfd(buf, big, kind, pos, p) == Ok((EmptyIfd(kind), p))
    ensures ReadIfd(buf, big, kind, pos, p).value.0.nextIfd == (if next then pos + 6 else 0) <==> !next
  {
    var count, pointer := Put16(0, big), Put32(if next then pos + 6 else 0, big);
    assert EncodeEntries([], big) == Ok([]);
    assert Payloads([], big, pos + 6) == [];
    assert IfdBytes(0, [], if next then pos + 6 else 0, [], big) == count + pointer;
    assert Layout([], pos + 6) == ([], pos + 6);
    assert buf[pos..pos + 2] == count by {
      forall k | 0 <= k < 2 ensures buf[pos + k] == count[k] {
        assert buf[pos..pos + 6][k] == (count + pointer)[k];
      }
    }
    Get16At(buf, pos, 0, big);
    assert buf[pos + 2..pos + 6] == pointer by {
      forall k | 0 <= k < 4 ensures buf[pos + 2 + k] == pointer[k] {
        assert buf[pos..pos + 6][2 + k] == (count + pointer)[2 + k];
      }
    }
    Get32At(buf, pos + 2, if next then pos + 6 else 0, big);
  }
}
